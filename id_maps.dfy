/**
 * `mapById` (server/util/index.ts) and its client copy `idMap`
 * (client/src/util.ts): a left fold over a list of rows that sets
 * `map[item.id] := item`, so a later row with the same id replaces an
 * earlier one. The id of a row is given as a function.
 */
module IdMaps {

  /** The map the fold has built after the rows `items`. */
  function ById<T>(items: seq<T>, id: T -> int): map<int, T> {
    if items == [] then map[]
    else ById(items[..|items| - 1], id)[id(items[|items| - 1]) := items[|items| - 1]]
  }

  /** `items.reduce((map, item) => map.set(item.id, item), new Map())`. */
  method MapById<T>(items: seq<T>, id: T -> int) returns (m: map<int, T>)
    ensures m == ById(items, id)
  {
    m := map[];
    for i := 0 to |items|
      invariant m == ById(items[..i], id)
    {
      assert items[..i + 1][..i] == items[..i];
      m := m[id(items[i]) := items[i]];
    }
    assert items[..|items|] == items;
  }

  function Ids<T>(items: seq<T>, id: T -> int): set<int> {
    set i | 0 <= i < |items| :: id(items[i])
  }

  /** No two rows share an id. */
  predicate DistinctIds<T>(items: seq<T>, id: T -> int) {
    forall i, j :: 0 <= i < j < |items| ==> id(items[i]) != id(items[j])
  }

  lemma IdsStep<T>(items: seq<T>, id: T -> int)
    requires items != []
    ensures Ids(items, id) == Ids(items[..|items| - 1], id) + {id(items[|items| - 1])}
  {
    var p := items[..|items| - 1];
    forall k | k in Ids(items, id)
      ensures k in Ids(p, id) + {id(items[|items| - 1])}
    {
      var i :| 0 <= i < |items| && id(items[i]) == k;
      if i < |items| - 1 {
        assert p[i] == items[i];
      }
    }
    forall k | k in Ids(p, id)
      ensures k in Ids(items, id)
    {
      var i :| 0 <= i < |p| && id(p[i]) == k;
      assert items[i] == p[i];
    }
  }

  /** The keys are exactly the ids of the rows. */
  lemma {:induction false} KeysAreIds<T>(items: seq<T>, id: T -> int)
    ensures ById(items, id).Keys == Ids(items, id)
  {
    if items != [] {
      KeysAreIds(items[..|items| - 1], id);
      IdsStep(items, id);
    }
  }

  /** The row `items[i]` is the last one carrying its id. */
  predicate LastWithId<T>(items: seq<T>, id: T -> int, i: int) {
    0 <= i < |items| && forall j :: i < j < |items| ==> id(items[j]) != id(items[i])
  }

  /** Each id maps to the last row that carries it. */
  lemma {:induction false} LastItemWins<T>(items: seq<T>, id: T -> int, k: int)
    requires k in ById(items, id)
    ensures exists i :: LastWithId(items, id, i) && id(items[i]) == k && ById(items, id)[k] == items[i]
  {
    var n := |items| - 1;
    var p := items[..n];
    if id(items[n]) == k {
      assert LastWithId(items, id, n);
    } else {
      LastItemWins(p, id, k);
      var i :| LastWithId(p, id, i) && id(p[i]) == k && ById(p, id)[k] == p[i];
      assert items[i] == p[i];
      assert LastWithId(items, id, i);
    }
  }

  lemma EmptyInput<T>(id: T -> int)
    ensures ById([], id) == map[]
  {
  }

  lemma DistinctPrefix<T>(items: seq<T>, id: T -> int)
    requires items != []
    ensures DistinctIds(items, id) <==>
      DistinctIds(items[..|items| - 1], id) && id(items[|items| - 1]) !in Ids(items[..|items| - 1], id)
  {
    var n := |items| - 1;
    var p := items[..n];
    assert forall i :: 0 <= i < n ==> items[i] == p[i];
    if DistinctIds(p, id) && id(items[n]) !in Ids(p, id) {
      forall i, j | 0 <= i < j < |items|
        ensures id(items[i]) != id(items[j])
      {
        assert items[i] == p[i];
        if j < n {
          assert items[j] == p[j];
        }
      }
    }
  }

  /** The map has at most one entry per row, and exactly one per row iff the ids are distinct. */
  lemma {:induction false} MapSize<T>(items: seq<T>, id: T -> int)
    ensures |ById(items, id)| <= |items|
    ensures |ById(items, id)| == |items| <==> DistinctIds(items, id)
  {
    if items != [] {
      var n := |items| - 1;
      var p := items[..n];
      MapSize(p, id);
      KeysAreIds(p, id);
      KeysAreIds(items, id);
      IdsStep(items, id);
      DistinctPrefix(items, id);
      assert |ById(items, id)| == |Ids(items, id)|;
      assert |ById(p, id)| == |Ids(p, id)|;
      if id(items[n]) in Ids(p, id) {
        assert Ids(items, id) == Ids(p, id);
      } else {
        assert |Ids(items, id)| == |Ids(p, id)| + 1;
      }
    }
  }
}
