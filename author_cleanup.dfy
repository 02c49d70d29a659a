/**
 * `cleanInvalidTopicAuthors` and `applyManualFixes` (server/scripts/loader.ts).
 * The rows of the mismatch query are gathered into a JavaScript `Map` from
 * author name to a `Map` from user name to topic count; each author then
 * falls in one of three cases: renamed users (one user name, several
 * topics), contradictions (several user names) and single topics (one user
 * name, one topic). Authors of the last two cases are taken to be deleted
 * users, and their topics lose their `author_id`.
 */
module AuthorCleanup {
  import opened Wrappers
  import opened MirrorStore

  // ---------------------------------------------------------------------------
  // Insertion-ordered maps
  // ---------------------------------------------------------------------------

  /** A JavaScript `Map` with string keys: its entries in insertion order. */
  type Entries<V> = seq<(string, V)>

  predicate HasKey<V>(m: Entries<V>, k: string) {
    exists i :: 0 <= i < |m| && m[i].0 == k
  }

  predicate DistinctKeys<V>(m: Entries<V>) {
    forall i, j :: 0 <= i < j < |m| ==> m[i].0 != m[j].0
  }

  /** `map.get(k)`. */
  function Lookup<V>(m: Entries<V>, k: string): (r: Option<V>)
    ensures r.Some? <==> HasKey(m, k)
    ensures r.Some? ==> exists i :: 0 <= i < |m| && m[i] == (k, r.value)
  {
    if m == [] then None
    else if m[0].0 == k then Some(m[0].1)
    else
      assert forall i :: 1 <= i < |m| ==> m[i] == m[1..][i - 1];
      Lookup(m[1..], k)
  }

  /** The position of key `k`, or `|m|` when it is absent. */
  function Position<V>(m: Entries<V>, k: string): (i: nat)
    ensures i <= |m|
    ensures i < |m| ==> m[i].0 == k
    ensures i == |m| <==> !HasKey(m, k)
  {
    if m == [] then 0
    else if m[0].0 == k then 0
    else
      assert forall j :: 1 <= j < |m| ==> m[j] == m[1..][j - 1];
      1 + Position(m[1..], k)
  }

  /** `map.set(k, v)`: an existing key keeps its place and takes the new value; a new key goes last. */
  function Store<V>(m: Entries<V>, k: string, v: V): (r: Entries<V>)
    ensures |r| == if HasKey(m, k) then |m| else |m| + 1
    ensures forall e :: e in r ==> e == (k, v) || e in m
    ensures (k, v) in r
    ensures HasKey(m, k) ==>
      r[Position(m, k)] == (k, v) && forall j :: 0 <= j < |m| && j != Position(m, k) ==> r[j] == m[j]
    ensures !HasKey(m, k) ==> r[..|m|] == m && r[|m|] == (k, v)
  {
    var i := Position(m, k);
    if i < |m| then
      var r := m[i := (k, v)];
      assert r[i] == (k, v);
      r
    else m + [(k, v)]
  }

  /** With distinct keys, `get` finds the entry that holds the key. */
  lemma LookupAt<V>(m: Entries<V>, i: nat)
    requires DistinctKeys(m) && i < |m|
    ensures Lookup(m, m[i].0) == Some(m[i].1)
  {
  }

  /** `set` keeps the keys distinct, adds its key, and changes only the value under its key. */
  lemma StoreProperties<V>(m: Entries<V>, k: string, v: V)
    requires DistinctKeys(m)
    ensures var r := Store(m, k, v);
      DistinctKeys(r)
      && (forall k' :: HasKey(r, k') <==> HasKey(m, k') || k' == k)
      && Lookup(r, k) == Some(v)
      && (forall k' :: k' != k ==> Lookup(r, k') == Lookup(m, k'))
  {
    var r := Store(m, k, v);
    var i := Position(m, k);
    if i < |m| {
      assert forall j :: 0 <= j < |m| && j != i ==> r[j] == m[j];
    } else {
      assert forall j :: 0 <= j < |m| ==> r[j] == m[j];
      assert r[|m|] == (k, v);
    }
    assert DistinctKeys(r);
    forall k' ensures HasKey(r, k') <==> HasKey(m, k') || k' == k {
      if HasKey(m, k') {
        var j :| 0 <= j < |m| && m[j].0 == k';
        assert r[j].0 == k';
      }
    }
    assert r[i] == (k, v);
    LookupAt(r, i);
    forall k' | k' != k ensures Lookup(r, k') == Lookup(m, k') {
      if HasKey(m, k') {
        var j :| 0 <= j < |m| && m[j].0 == k';
        assert r[j] == m[j];
        LookupAt(r, j);
        LookupAt(m, j);
      }
    }
  }

  // ---------------------------------------------------------------------------
  // The author statistics
  // ---------------------------------------------------------------------------

  type StatMap = Entries<Entries<nat>>

  /** The user map of author `a`; a new, empty `Map` when `a` is absent. */
  function UsersOf(sm: StatMap, a: string): Entries<nat> {
    Lookup(sm, a).GetOr([])
  }

  /** `authorStatMap` after the `forEach` has seen `rows`. */
  function AuthorStats(rows: seq<MismatchRow>): StatMap {
    if rows == [] then []
    else
      var prev := AuthorStats(rows[..|rows| - 1]);
      var row := rows[|rows| - 1];
      Store(prev, row.authorName, Store(UsersOf(prev, row.authorName), row.userName, row.topicCount))
  }

  /** The `forEach` over the query's rows. */
  method BuildAuthorStats(rows: seq<MismatchRow>) returns (sm: StatMap)
    ensures sm == AuthorStats(rows)
  {
    sm := [];
    for k := 0 to |rows|
      invariant sm == AuthorStats(rows[..k])
    {
      assert rows[..k + 1][..k] == rows[..k];
      var row := rows[k];
      ghost var before := sm;
      if !HasKey(sm, row.authorName) {
        sm := Store(sm, row.authorName, []);
      }
      var userMap := UsersOf(sm, row.authorName);
      StoreEmptyFirst(before, row.authorName, Store(UsersOf(before, row.authorName), row.userName, row.topicCount));
      sm := Store(sm, row.authorName, Store(userMap, row.userName, row.topicCount));
    }
    assert rows[..|rows|] == rows;
  }

  /** Setting a missing key to an empty map first changes neither the map nor the final result. */
  lemma StoreEmptyFirst<V>(m: Entries<Entries<V>>, k: string, v: Entries<V>)
    ensures var m' := if HasKey(m, k) then m else Store(m, k, []);
      Lookup(m', k).GetOr([]) == Lookup(m, k).GetOr([]) && Store(m', k, v) == Store(m, k, v)
  {
    if !HasKey(m, k) {
      var m' := Store(m, k, []);
      assert Position(m, k) == |m| && m' == m + [(k, [])];
      assert Position(m', k) == |m|;
      assert Store(m', k, v) == m + [(k, v)];
    }
  }

  predicate HasAuthor(rows: seq<MismatchRow>, a: string) {
    exists i :: 0 <= i < |rows| && rows[i].authorName == a
  }

  /** Every author's keys and counts come from the rows. */
  ghost predicate StatsOf(sm: StatMap, rows: seq<MismatchRow>, a: string) {
    DistinctKeys(sm)
    && (HasKey(sm, a) <==> HasAuthor(rows, a))
    && DistinctKeys(UsersOf(sm, a))
    && (forall u :: HasKey(UsersOf(sm, a), u) <==> HasGroup(rows, (a, u)))
    && (forall e :: e in UsersOf(sm, a) ==>
          exists i :: 0 <= i < |rows| && Key(rows[i]) == (a, e.0) && rows[i].topicCount == e.1)
  }

  lemma {:induction false} AuthorStatsDistinct(rows: seq<MismatchRow>)
    ensures DistinctKeys(AuthorStats(rows))
  {
    if rows != [] {
      var prev := AuthorStats(rows[..|rows| - 1]);
      var row := rows[|rows| - 1];
      AuthorStatsDistinct(rows[..|rows| - 1]);
      StoreProperties(prev, row.authorName, Store(UsersOf(prev, row.authorName), row.userName, row.topicCount));
    }
  }

  /** One more row changes only the user map of its own author. */
  lemma UsersOfStep(rows: seq<MismatchRow>, a: string)
    requires rows != []
    ensures var prev := AuthorStats(rows[..|rows| - 1]);
      var row := rows[|rows| - 1];
      (HasKey(AuthorStats(rows), a) <==> HasKey(prev, a) || row.authorName == a)
      && UsersOf(AuthorStats(rows), a)
         == if row.authorName == a then Store(UsersOf(prev, a), row.userName, row.topicCount) else UsersOf(prev, a)
  {
    var prev := AuthorStats(rows[..|rows| - 1]);
    var row := rows[|rows| - 1];
    AuthorStatsDistinct(rows[..|rows| - 1]);
    StoreProperties(prev, row.authorName, Store(UsersOf(prev, row.authorName), row.userName, row.topicCount));
  }

  lemma {:induction false} AuthorStatsKeys(rows: seq<MismatchRow>, a: string)
    ensures HasKey(AuthorStats(rows), a) <==> HasAuthor(rows, a)
  {
    if rows != [] {
      var n := |rows| - 1;
      AuthorStatsKeys(rows[..n], a);
      UsersOfStep(rows, a);
      HasAuthorStep(rows, a);
    }
  }

  lemma HasAuthorStep(rows: seq<MismatchRow>, a: string)
    requires rows != []
    ensures HasAuthor(rows, a) <==> HasAuthor(rows[..|rows| - 1], a) || rows[|rows| - 1].authorName == a
  {
    var p := rows[..|rows| - 1];
    if HasAuthor(rows, a) && rows[|rows| - 1].authorName != a {
      var i :| 0 <= i < |rows| && rows[i].authorName == a;
      assert p[i] == rows[i];
    }
    if HasAuthor(p, a) {
      var i :| 0 <= i < |p| && p[i].authorName == a;
      assert rows[i] == p[i];
    }
  }

  lemma {:induction false} AuthorStatsUsersDistinct(rows: seq<MismatchRow>, a: string)
    ensures DistinctKeys(UsersOf(AuthorStats(rows), a))
  {
    if rows != [] {
      var n := |rows| - 1;
      AuthorStatsUsersDistinct(rows[..n], a);
      UsersOfStep(rows, a);
      if rows[n].authorName == a {
        StoreProperties(UsersOf(AuthorStats(rows[..n]), a), rows[n].userName, rows[n].topicCount);
      }
    }
  }

  lemma {:induction false} AuthorStatsUsersKeys(rows: seq<MismatchRow>, a: string, u: string)
    ensures HasKey(UsersOf(AuthorStats(rows), a), u) <==> HasGroup(rows, (a, u))
  {
    if rows != [] {
      var n := |rows| - 1;
      var p := rows[..n];
      AuthorStatsUsersKeys(p, a, u);
      UsersOfStep(rows, a);
      HasGroupStep(rows, (a, u));
      if rows[n].authorName == a {
        StoreHasKey(UsersOf(AuthorStats(p), a), rows[n].userName, rows[n].topicCount, u);
      }
    }
  }

  lemma HasGroupStep(rows: seq<MismatchRow>, k: (string, string))
    requires rows != []
    ensures HasGroup(rows, k) <==> HasGroup(rows[..|rows| - 1], k) || Key(rows[|rows| - 1]) == k
  {
    assert forall i :: 0 <= i < |rows| - 1 ==> rows[i] == rows[..|rows| - 1][i];
  }

  lemma StoreHasKey<V>(m: Entries<V>, k: string, v: V, k': string)
    ensures HasKey(Store(m, k, v), k') <==> HasKey(m, k') || k' == k
  {
    var r := Store(m, k, v);
    var i := Position(m, k);
    if i < |m| {
      assert forall j :: 0 <= j < |m| && j != i ==> r[j] == m[j];
      assert r[i] == (k, v);
    } else {
      assert forall j :: 0 <= j < |m| ==> r[j] == m[j];
      assert r[|m|] == (k, v);
    }
    if HasKey(m, k') {
      var j :| 0 <= j < |m| && m[j].0 == k';
      assert r[j].0 == k';
    }
  }

  lemma {:induction false} AuthorStatsUsersCounts(rows: seq<MismatchRow>, a: string)
    ensures forall e :: e in UsersOf(AuthorStats(rows), a) ==>
      exists i :: 0 <= i < |rows| && Key(rows[i]) == (a, e.0) && rows[i].topicCount == e.1
  {
    if rows != [] {
      var n := |rows| - 1;
      var p := rows[..n];
      AuthorStatsUsersCounts(p, a);
      UsersOfStep(rows, a);
      assert forall i :: 0 <= i < n ==> rows[i] == p[i];
      assert Key(rows[n]) == (rows[n].authorName, rows[n].userName);
    }
  }

  lemma AuthorStatsUsers(rows: seq<MismatchRow>, a: string)
    ensures DistinctKeys(UsersOf(AuthorStats(rows), a))
    ensures forall u :: HasKey(UsersOf(AuthorStats(rows), a), u) <==> HasGroup(rows, (a, u))
    ensures forall e :: e in UsersOf(AuthorStats(rows), a) ==>
      exists i :: 0 <= i < |rows| && Key(rows[i]) == (a, e.0) && rows[i].topicCount == e.1
  {
    AuthorStatsUsersDistinct(rows, a);
    AuthorStatsUsersCounts(rows, a);
    forall u ensures HasKey(UsersOf(AuthorStats(rows), a), u) <==> HasGroup(rows, (a, u)) {
      AuthorStatsUsersKeys(rows, a, u);
    }
  }

  lemma AuthorStatsShape(rows: seq<MismatchRow>, a: string)
    ensures StatsOf(AuthorStats(rows), rows, a)
  {
    AuthorStatsDistinct(rows);
    AuthorStatsKeys(rows, a);
    AuthorStatsUsers(rows, a);
  }

  // ---------------------------------------------------------------------------
  // The three cases
  // ---------------------------------------------------------------------------

  /** The authors whose user map satisfies `p`, in map order. */
  function AuthorsWhere(sm: StatMap, p: Entries<nat> -> bool): seq<string> {
    if sm == [] then []
    else (if p(sm[0].1) then [sm[0].0] else []) + AuthorsWhere(sm[1..], p)
  }

  lemma {:induction false} AuthorsWhereMember(sm: StatMap, p: Entries<nat> -> bool, a: string)
    requires DistinctKeys(sm)
    ensures a in AuthorsWhere(sm, p) <==> HasKey(sm, a) && p(Lookup(sm, a).value)
  {
    if sm != [] {
      assert DistinctKeys(sm[1..]);
      AuthorsWhereMember(sm[1..], p, a);
      assert forall i :: 1 <= i < |sm| ==> sm[i] == sm[1..][i - 1];
      if sm[0].0 != a {
        assert HasKey(sm, a) ==> HasKey(sm[1..], a);
      } else {
        assert !HasKey(sm[1..], a);
      }
    }
  }

  /** Case 1: one user name, more than one topic (`userMap.values().next().value > 1`). */
  predicate Renamed(um: Entries<nat>) {
    |um| == 1 && um[0].1 > 1
  }

  /** Case 2: more than one user name. */
  predicate Contradicted(um: Entries<nat>) {
    |um| > 1
  }

  /** Case 3: one user name, one topic. */
  predicate SingleTopic(um: Entries<nat>) {
    |um| == 1 && um[0].1 == 1
  }

  function Case1Authors(sm: StatMap): seq<string> {
    AuthorsWhere(sm, Renamed)
  }

  function Case2Authors(sm: StatMap): seq<string> {
    AuthorsWhere(sm, Contradicted)
  }

  function Case3Authors(sm: StatMap): seq<string> {
    AuthorsWhere(sm, SingleTopic)
  }

  predicate NoDuplicates(xs: seq<string>) {
    forall i, j :: 0 <= i < j < |xs| ==> xs[i] != xs[j]
  }

  /** `[...new Set(xs)]`: the first occurrence of each element, in order. */
  function Dedupe(xs: seq<string>): (r: seq<string>)
    ensures forall x :: x in r <==> x in xs
    ensures NoDuplicates(r)
  {
    if xs == [] then []
    else
      var p := Dedupe(xs[..|xs| - 1]);
      assert forall x :: x in xs <==> x in xs[..|xs| - 1] || x == xs[|xs| - 1];
      if xs[|xs| - 1] in p then p else p + [xs[|xs| - 1]]
  }

  /** `deletedAuthors`. */
  function DeletedAuthors(sm: StatMap): seq<string> {
    Dedupe(Case2Authors(sm) + Case3Authors(sm))
  }

  /** Every count at least one. */
  predicate PositiveCounts(rows: seq<MismatchRow>) {
    forall i :: 0 <= i < |rows| ==> rows[i].topicCount >= 1
  }

  predicate ExactlyOne(p: bool, q: bool, r: bool) {
    (p || q || r) && !(p && q) && !(p && r) && !(q && r)
  }

  /**
   * With every count at least one, each author of the map is in exactly one
   * case, and an author absent from the map in none; the deleted authors are
   * those of cases 2 and 3, with no repeats and no author of case 1.
   */
  lemma Partition(rows: seq<MismatchRow>, a: string)
    requires PositiveCounts(rows)
    ensures var sm := AuthorStats(rows);
      (HasKey(sm, a) ==>
        ExactlyOne(a in Case1Authors(sm), a in Case2Authors(sm), a in Case3Authors(sm)))
      && (!HasKey(sm, a) ==> a !in Case1Authors(sm) && a !in Case2Authors(sm) && a !in Case3Authors(sm))
      && (a in DeletedAuthors(sm) <==> a in Case2Authors(sm) || a in Case3Authors(sm))
      && NoDuplicates(DeletedAuthors(sm))
      && (a in Case1Authors(sm) ==> a !in DeletedAuthors(sm))
  {
    var sm := AuthorStats(rows);
    AuthorStatsShape(rows, a);
    AuthorsWhereMember(sm, Renamed, a);
    AuthorsWhereMember(sm, Contradicted, a);
    AuthorsWhereMember(sm, SingleTopic, a);
    if HasKey(sm, a) {
      var um := UsersOf(sm, a);
      var i :| 0 <= i < |rows| && rows[i].authorName == a;
      assert HasKey(um, rows[i].userName) by {
        assert HasGroup(rows, (a, rows[i].userName));
      }
      assert um[0] in um;
    }
  }

  // ---------------------------------------------------------------------------
  // The cases in terms of the query's rows
  // ---------------------------------------------------------------------------

  /** Author `a` appears under two different user names. */
  predicate SeveralUsers(rows: seq<MismatchRow>, a: string) {
    exists i, j :: 0 <= i < |rows| && 0 <= j < |rows| && rows[i].authorName == a && rows[j].authorName == a
                   && rows[i].userName != rows[j].userName
  }

  /** `rows[i]` is the only row of author `a`. */
  predicate SoleRow(rows: seq<MismatchRow>, a: string, i: int) {
    0 <= i < |rows| && rows[i].authorName == a
    && forall j :: 0 <= j < |rows| && rows[j].authorName == a ==> j == i
  }

  lemma SeveralUsersFromMap(rows: seq<MismatchRow>, a: string)
    requires |UsersOf(AuthorStats(rows), a)| > 1
    ensures SeveralUsers(rows, a)
  {
    var um := UsersOf(AuthorStats(rows), a);
    AuthorStatsUsersDistinct(rows, a);
    AuthorStatsUsersKeys(rows, a, um[0].0);
    AuthorStatsUsersKeys(rows, a, um[1].0);
    assert HasKey(um, um[0].0) && HasKey(um, um[1].0);
    var i :| 0 <= i < |rows| && Key(rows[i]) == (a, um[0].0);
    var j :| 0 <= j < |rows| && Key(rows[j]) == (a, um[1].0);
    assert rows[i].userName != rows[j].userName;
  }

  lemma SeveralUsersToMap(rows: seq<MismatchRow>, a: string)
    requires SeveralUsers(rows, a)
    ensures |UsersOf(AuthorStats(rows), a)| > 1
  {
    var um := UsersOf(AuthorStats(rows), a);
    var i, j :| 0 <= i < |rows| && 0 <= j < |rows| && rows[i].authorName == a && rows[j].authorName == a
                && rows[i].userName != rows[j].userName;
    AuthorStatsUsersKeys(rows, a, rows[i].userName);
    AuthorStatsUsersKeys(rows, a, rows[j].userName);
    assert Key(rows[i]) == (a, rows[i].userName) && Key(rows[j]) == (a, rows[j].userName);
    var x :| 0 <= x < |um| && um[x].0 == rows[i].userName;
    var y :| 0 <= y < |um| && um[y].0 == rows[j].userName;
    assert x != y;
  }

  lemma SeveralUsersIff(rows: seq<MismatchRow>, a: string)
    ensures |UsersOf(AuthorStats(rows), a)| > 1 <==> SeveralUsers(rows, a)
  {
    if |UsersOf(AuthorStats(rows), a)| > 1 {
      SeveralUsersFromMap(rows, a);
    }
    if SeveralUsers(rows, a) {
      SeveralUsersToMap(rows, a);
    }
  }

  lemma SoleRowIff(rows: seq<MismatchRow>, a: string)
    requires DistinctGroups(rows)
    requires StatsOf(AuthorStats(rows), rows, a) && HasKey(AuthorStats(rows), a)
    ensures var um := UsersOf(AuthorStats(rows), a);
      (|um| == 1 ==> exists i :: SoleRow(rows, a, i) && rows[i].topicCount == um[0].1)
      && (forall i :: SoleRow(rows, a, i) ==> |um| == 1 && um[0].1 == rows[i].topicCount)
  {
    var um := UsersOf(AuthorStats(rows), a);
    if |um| == 1 {
      assert um[0] in um;
      var i :| 0 <= i < |rows| && Key(rows[i]) == (a, um[0].0) && rows[i].topicCount == um[0].1;
      forall j | 0 <= j < |rows| && rows[j].authorName == a ensures j == i {
        assert HasGroup(rows, (a, rows[j].userName));
        assert um[0].0 == rows[j].userName;
        assert Key(rows[j]) == Key(rows[i]);
      }
      assert SoleRow(rows, a, i);
    }
    forall i | SoleRow(rows, a, i) ensures |um| == 1 && um[0].1 == rows[i].topicCount {
      SeveralUsersIff(rows, a);
      assert !SeveralUsers(rows, a);
      assert HasGroup(rows, (a, rows[i].userName));
      assert um[0] in um;
      var i' :| 0 <= i' < |rows| && Key(rows[i']) == (a, um[0].0) && rows[i'].topicCount == um[0].1;
      assert i' == i;
    }
  }

  /**
   * Over the query's rows (one per group, every count at least one): an
   * author is deleted iff it appears under two user names or has a sole row
   * counting one topic, and is of case 1 iff it has a sole row counting
   * more than one.
   */
  lemma DeletedAuthorsOfRows(rows: seq<MismatchRow>, a: string)
    requires DistinctGroups(rows) && PositiveCounts(rows)
    ensures a in DeletedAuthors(AuthorStats(rows)) <==>
      SeveralUsers(rows, a) || exists i :: SoleRow(rows, a, i) && rows[i].topicCount == 1
    ensures a in Case1Authors(AuthorStats(rows)) <==>
      exists i :: SoleRow(rows, a, i) && rows[i].topicCount > 1
  {
    var sm := AuthorStats(rows);
    Partition(rows, a);
    AuthorStatsShape(rows, a);
    AuthorsWhereMember(sm, Renamed, a);
    AuthorsWhereMember(sm, Contradicted, a);
    AuthorsWhereMember(sm, SingleTopic, a);
    if HasKey(sm, a) {
      SeveralUsersIff(rows, a);
      SoleRowIff(rows, a);
    } else {
      assert !HasAuthor(rows, a);
    }
  }

  // ---------------------------------------------------------------------------
  // The importer's steps
  // ---------------------------------------------------------------------------

  /** The authors `applyManualFixes` clears by hand. */
  const ManualClearAuthors: seq<string> := ["God of Halo", "hellreaper192"]

  /**
   * `cleanInvalidTopicAuthors`: returns the query's rows and the deleted
   * authors; unless only printing, the deleted authors' topics lose their
   * `author_id`.
   */
  method CleanInvalidTopicAuthors(m: Mirror, printJson: bool) returns (mismatched: seq<MismatchRow>, deleted: seq<string>)
    requires m.Valid()
    modifies m
    ensures m.Valid()
    ensures Counted(TopicGroups(old(m.users), old(m.topics)), old(m.topics).Keys, mismatched)
    ensures deleted == DeletedAuthors(AuthorStats(mismatched))
    ensures m.topics == if printJson then old(m.topics) else ClearAuthors(old(m.topics), deleted)
    ensures m.users == old(m.users) && m.categories == old(m.categories) && m.forums == old(m.forums)
    ensures m.posts == old(m.posts) && m.stats == old(m.stats)
  {
    mismatched := m.GetMismatchedTopicAuthors();
    var authorStatMap := BuildAuthorStats(mismatched);
    deleted := DeletedAuthors(authorStatMap);
    if !printJson {
      m.ClearAuthorIdForTopicsStartedBy(deleted);
    }
  }

  /** `applyManualFixes`. */
  method ApplyManualFixes(m: Mirror, printJson: bool)
    requires m.Valid()
    modifies m
    ensures m.Valid()
    ensures m.topics == if printJson then old(m.topics) else ClearAuthors(old(m.topics), ManualClearAuthors)
    ensures m.users == old(m.users) && m.categories == old(m.categories) && m.forums == old(m.forums)
    ensures m.posts == old(m.posts) && m.stats == old(m.stats)
  {
    if !printJson {
      m.ClearAuthorIdForTopicsStartedBy(ManualClearAuthors);
    }
  }
}
