/**
 * `CaselessURLSearchParams` (client/src/hooks/useSearchParamsCaseInsensitive.tsx):
 * a `URLSearchParams` whose methods lower-case the name first. A
 * `URLSearchParams` is an ordered list of name/value pairs, with the
 * operations of section 6.2 of the WHATWG URL Standard: `append` adds a
 * pair, `delete` removes every pair with the name, `get` gives the first
 * value, `getAll` all values in order, `has` whether the name occurs, and
 * `set` overwrites the first pair with the name and removes the others (or
 * appends when there is none).
 */
module SearchParams {
  import opened Wrappers
  import opened Text

  type Pairs = seq<(string, string)>

  function GetOf(ps: Pairs, name: string): (r: Option<string>)
    ensures r.Some? <==> exists i :: 0 <= i < |ps| && ps[i].0 == name
    ensures r.Some? ==> exists i :: 0 <= i < |ps| && ps[i] == (name, r.value)
                                    && forall j :: 0 <= j < i ==> ps[j].0 != name
  {
    if ps == [] then None
    else if ps[0].0 == name then Some(ps[0].1)
    else
      var r := GetOf(ps[1..], name);
      assert forall i :: 1 <= i < |ps| ==> ps[i] == ps[1..][i - 1];
      r
  }

  function GetAllOf(ps: Pairs, name: string): seq<string> {
    if ps == [] then []
    else (if ps[0].0 == name then [ps[0].1] else []) + GetAllOf(ps[1..], name)
  }

  predicate HasOf(ps: Pairs, name: string) {
    exists i :: 0 <= i < |ps| && ps[i].0 == name
  }

  function DeleteOf(ps: Pairs, name: string): (r: Pairs)
    ensures !HasOf(r, name)
    ensures forall n :: n != name ==> GetAllOf(r, n) == GetAllOf(ps, n)
  {
    if ps == [] then []
    else
      var rest := DeleteOf(ps[1..], name);
      if ps[0].0 == name then rest
      else
        assert forall i :: 1 <= i < |[ps[0]] + rest| ==> ([ps[0]] + rest)[i] == rest[i - 1];
        [ps[0]] + rest
  }

  /** The first pair named `name` takes `value`; the later ones are removed. */
  function ReplaceOf(ps: Pairs, name: string, value: string): (r: Pairs)
    requires HasOf(ps, name)
    ensures GetAllOf(r, name) == [value]
    ensures forall n :: n != name ==> GetAllOf(r, n) == GetAllOf(ps, n)
  {
    if ps[0].0 == name then
      var d := DeleteOf(ps[1..], name);
      NoValues(d, name);
      assert ([(name, value)] + d)[1..] == d;
      [(name, value)] + d
    else
      assert HasOf(ps[1..], name) by {
        var i :| 0 <= i < |ps| && ps[i].0 == name;
        assert ps[1..][i - 1] == ps[i];
      }
      [ps[0]] + ReplaceOf(ps[1..], name, value)
  }

  function SetOf(ps: Pairs, name: string, value: string): (r: Pairs)
    ensures GetAllOf(r, name) == [value]
    ensures forall n :: n != name ==> GetAllOf(r, n) == GetAllOf(ps, n)
  {
    if HasOf(ps, name) then ReplaceOf(ps, name, value)
    else
      GetAllAppend(ps, [(name, value)], name);
      NoValues(ps, name);
      assert [(name, value)][1..] == [];
      forall n | n != name
        ensures GetAllOf(ps + [(name, value)], n) == GetAllOf(ps, n)
      {
        GetAllAppend(ps, [(name, value)], n);
      }
      ps + [(name, value)]
  }

  lemma {:induction false} GetAllAppend(a: Pairs, b: Pairs, name: string)
    ensures GetAllOf(a + b, name) == GetAllOf(a, name) + GetAllOf(b, name)
  {
    if a == [] {
      assert a + b == b;
    } else {
      var head := if a[0].0 == name then [a[0].1] else [];
      assert (a + b)[0] == a[0];
      assert (a + b)[1..] == a[1..] + b;
      assert GetAllOf(a + b, name) == head + GetAllOf(a[1..] + b, name);
      GetAllAppend(a[1..], b, name);
      assert GetAllOf(a, name) == head + GetAllOf(a[1..], name);
    }
  }

  lemma NoValues(ps: Pairs, name: string)
    requires !HasOf(ps, name)
    ensures GetAllOf(ps, name) == []
  {
    if ps != [] {
      assert forall i :: 0 <= i < |ps[1..]| ==> ps[1..][i] == ps[i + 1];
      NoValues(ps[1..], name);
    }
  }

  /** `getAll` and `has`, and `get` and `getAll`, agree. */
  lemma {:induction false} GetAllHas(ps: Pairs, name: string)
    ensures GetAllOf(ps, name) != [] <==> HasOf(ps, name)
    ensures GetOf(ps, name) == if GetAllOf(ps, name) == [] then None else Some(GetAllOf(ps, name)[0])
  {
    if ps != [] {
      GetAllHas(ps[1..], name);
      if ps[0].0 != name {
        assert HasOf(ps, name) <==> HasOf(ps[1..], name) by {
          if HasOf(ps, name) {
            var i :| 0 <= i < |ps| && ps[i].0 == name;
            assert ps[1..][i - 1] == ps[i];
          }
          if HasOf(ps[1..], name) {
            var i :| 0 <= i < |ps[1..]| && ps[1..][i].0 == name;
            assert ps[i + 1] == ps[1..][i];
          }
        }
      } else {
        assert ps[0].0 == name;
      }
    }
  }

  /** Every name is lower-case: the class's invariant. */
  predicate LowerNames(ps: Pairs) {
    forall i :: 0 <= i < |ps| ==> IsLower(ps[i].0)
  }

  /** The pairs after `set` has been called on each entry in turn, from `ps`. */
  function SetAll(ps: Pairs, entries: Pairs): Pairs {
    if entries == [] then ps
    else
      var last := entries[|entries| - 1];
      SetOf(SetAll(ps, entries[..|entries| - 1]), Lower(last.0), last.1)
  }

  /** The value of the last entry whose name lower-cases to `name`, if any. */
  function LastValue(entries: Pairs, name: string): Option<string> {
    if entries == [] then None
    else
      var last := entries[|entries| - 1];
      if Lower(last.0) == name then Some(last.1) else LastValue(entries[..|entries| - 1], name)
  }

  /**
   * After the constructor, entries whose names differ only in case have
   * collapsed into one pair holding the last value seen.
   */
  lemma {:induction false} ConstructorCollapses(entries: Pairs, name: string)
    ensures GetAllOf(SetAll([], entries), name) == match LastValue(entries, name)
                                                  case None => []
                                                  case Some(v) => [v]
  {
    if entries != [] {
      ConstructorCollapses(entries[..|entries| - 1], name);
    }
  }

  lemma DeleteKeepsLower(ps: Pairs, name: string)
    requires LowerNames(ps)
    ensures LowerNames(DeleteOf(ps, name))
  {
    if ps != [] {
      DeleteKeepsLower(ps[1..], name);
    }
  }

  lemma ReplaceKeepsLower(ps: Pairs, name: string, value: string)
    requires LowerNames(ps) && IsLower(name) && HasOf(ps, name)
    ensures LowerNames(ReplaceOf(ps, name, value))
  {
    if ps[0].0 == name {
      DeleteKeepsLower(ps[1..], name);
    } else {
      ReplaceKeepsLower(ps[1..], name, value);
    }
  }

  lemma SetKeepsLower(ps: Pairs, name: string, value: string)
    requires LowerNames(ps) && IsLower(name)
    ensures LowerNames(SetOf(ps, name, value))
  {
    if HasOf(ps, name) {
      ReplaceKeepsLower(ps, name, value);
    }
  }

  /** `getInt`: `null` for a missing or empty value, otherwise `Number.parseInt` of it (`None` inside for NaN). */
  function GetIntOf(value: Option<string>): (r: Option<Option<int>>)
    ensures r.None? <==> value.None? || value.value == []
    ensures r.Some? ==> r.value == ParseInt(value.value)
  {
    if value.Some? && value.value != [] then Some(ParseInt(value.value)) else None
  }

  class CaselessSearchParams {
    var pairs: Pairs

    predicate Valid()
      reads this
    {
      LowerNames(pairs)
    }

    /** `new CaselessURLSearchParams(params)`: `set` each entry of `params` in order. */
    constructor (params: Pairs)
      ensures Valid()
      ensures pairs == SetAll([], params)
    {
      pairs := [];
      new;
      for i := 0 to |params|
        invariant Valid()
        invariant pairs == SetAll([], params[..i])
      {
        assert params[..i + 1][..i] == params[..i];
        Set(params[i].0, params[i].1);
      }
      assert params[..|params|] == params;
    }

    method Append(name: string, value: string)
      requires Valid()
      modifies this
      ensures Valid()
      ensures pairs == old(pairs) + [(Lower(name), value)]
      ensures GetAll(name) == old(GetAll(name)) + [value]
    {
      LowerIsLower(name);
      pairs := pairs + [(Lower(name), value)];
      GetAllAppend(old(pairs), [(Lower(name), value)], Lower(name));
    }

    method Delete(name: string)
      requires Valid()
      modifies this
      ensures Valid()
      ensures pairs == DeleteOf(old(pairs), Lower(name))
      ensures forall n :: Lower(n) == Lower(name) ==> !Has(n)
    {
      DeleteKeepsLower(pairs, Lower(name));
      pairs := DeleteOf(pairs, Lower(name));
    }

    /** `get`: the first value under the lower-cased name, present exactly when `has` holds. */
    function Get(name: string): (r: Option<string>)
      reads this
      ensures r.Some? <==> Has(name)
      ensures r.Some? ==> GetAll(name) != [] && r.value == GetAll(name)[0]
    {
      GetAllHas(pairs, Lower(name));
      GetOf(pairs, Lower(name))
    }

    /** `getInt`. */
    function GetInt(name: string): (r: Option<Option<int>>)
      reads this
      ensures r.None? <==> Get(name).None? || Get(name).value == []
      ensures r.Some? ==> r.value == ParseInt(Get(name).value)
    {
      GetIntOf(GetOf(pairs, Lower(name)))
    }

    /** `getAll`: the values under the lower-cased name, in order; some exactly when `has` holds. */
    function GetAll(name: string): (r: seq<string>)
      reads this
      ensures r != [] <==> Has(name)
    {
      GetAllHas(pairs, Lower(name));
      GetAllOf(pairs, Lower(name))
    }

    predicate Has(name: string)
      reads this
    {
      HasOf(pairs, Lower(name))
    }

    method Set(name: string, value: string)
      requires Valid()
      modifies this
      ensures Valid()
      ensures pairs == SetOf(old(pairs), Lower(name), value)
      ensures forall n :: Lower(n) == Lower(name) ==> Get(n) == Some(value) && GetAll(n) == [value]
    {
      LowerIsLower(name);
      SetKeepsLower(pairs, Lower(name), value);
      pairs := SetOf(pairs, Lower(name), value);
      GetAllHas(pairs, Lower(name));
    }
  }

  /** Lookups see only the lower-cased name: two spellings of one name give the same answers. */
  lemma CaseInsensitive(p: CaselessSearchParams, n1: string, n2: string)
    requires Lower(n1) == Lower(n2)
    ensures p.Get(n1) == p.Get(n2) && p.GetAll(n1) == p.GetAll(n2) && p.Has(n1) == p.Has(n2)
    ensures p.GetInt(n1) == p.GetInt(n2)
  {
  }

  /** A lookup under any name is the lookup under its lower-case form. */
  lemma LookupLowered(p: CaselessSearchParams, name: string)
    ensures p.Get(name) == p.Get(Lower(name)) && p.GetAll(name) == p.GetAll(Lower(name))
    ensures p.Has(name) == p.Has(Lower(name))
  {
    LowerIdempotent(name);
  }
}
