/**
 * The importer's storage operations (server/database/mirror_insert.ts and
 * its JavaScript twin mirror_insert.js) on an in-memory copy of the mirror
 * database: one map per table, keyed by the table's primary key (`id`, or
 * `name` for stats). The record shapes follow server/database/types.ts;
 * columns the importer fills in later (`author_id`, `created_at` of a topic)
 * may be null.
 */
module MirrorStore {
  import opened Wrappers
  import opened Dates

  datatype User = User(
    id: int, name: string, joinedAt: DateTime, lastVisitAt: DateTime,
    special: Option<string>, avatar: Option<string>, quote: Option<string>,
    location: Option<string>, occupation: Option<string>, interests: Option<string>,
    age: Option<string>, gamesPlayed: Option<string>, mirroredAt: DateTime)

  datatype Category = Category(id: int, sortIndex: int, name: string, mirroredAt: DateTime)

  datatype Forum = Forum(
    id: int, sortIndex: int, name: string, locked: bool, description: string,
    categoryId: int, mirroredAt: DateTime)

  datatype Topic = Topic(
    id: int, name: string, views: int, pinned: bool, locked: bool, forumId: int,
    authorId: Option<int>, authorName: string, movedFrom: Option<int>,
    createdAt: Option<DateTime>, mirroredAt: DateTime)

  datatype Post = Post(id: int, authorId: int, topicId: int, createdAt: DateTime, content: string, mirroredAt: DateTime)

  datatype Stat = Stat(name: string, value: int, mirroredAt: DateTime)

  /** `CategorySort`: a category name and the sort index to give it. */
  datatype CategorySort = CategorySort(name: string, sortIndex: int)

  /** `TopicPatch`: the topic to patch and the fields that may fill its gaps. */
  datatype TopicPatch = TopicPatch(id: int, authorId: Option<int>, createdAt: Option<DateTime>)

  /** `UserPatch`. */
  datatype UserPatch = UserPatch(id: int, quote: Option<string>, special: Option<string>)

  /** One row of `getMismatchedTopicAuthors`. */
  datatype MismatchRow = MismatchRow(topicCount: nat, authorName: string, userName: string)

  // ---------------------------------------------------------------------------
  // Insert-or-ignore and upsert
  // ---------------------------------------------------------------------------

  /**
   * `insert(rows).onConflict().ignore()`: rows are inserted in order, and a
   * row whose key is already present (from the table or an earlier row) is dropped.
   */
  function InsertIgnore<K(==), V>(m: map<K, V>, rows: seq<V>, key: V -> K): map<K, V> {
    if rows == [] then m
    else
      var prev := InsertIgnore(m, rows[..|rows| - 1], key);
      var r := rows[|rows| - 1];
      if key(r) in prev then prev else prev[key(r) := r]
  }

  function RowKeys<K, V>(rows: seq<V>, key: V -> K): set<K> {
    set i | 0 <= i < |rows| :: key(rows[i])
  }

  /** The first row of `rows` with key `k` is `rows[i]`. */
  predicate FirstWithKey<K(==), V>(rows: seq<V>, key: V -> K, k: K, i: int) {
    0 <= i < |rows| && key(rows[i]) == k && forall j :: 0 <= j < i ==> key(rows[j]) != k
  }

  lemma RowKeysSnoc<K, V>(rows: seq<V>, key: V -> K)
    requires rows != []
    ensures RowKeys(rows, key) == RowKeys(rows[..|rows| - 1], key) + {key(rows[|rows| - 1])}
  {
    var n := |rows| - 1;
    var p := rows[..n];
    forall k | k in RowKeys(rows, key) ensures k in RowKeys(p, key) + {key(rows[n])} {
      var i :| 0 <= i < |rows| && key(rows[i]) == k;
      if i < n { assert p[i] == rows[i]; }
    }
    forall k | k in RowKeys(p, key) ensures k in RowKeys(rows, key) {
      var i :| 0 <= i < |p| && key(p[i]) == k;
      assert rows[i] == p[i];
    }
  }

  lemma FirstWithKeyPrefix<K, V>(rows: seq<V>, key: V -> K, k: K, i: int)
    requires rows != [] && FirstWithKey(rows[..|rows| - 1], key, k, i)
    ensures FirstWithKey(rows, key, k, i) && rows[i] == rows[..|rows| - 1][i]
  {
    var p := rows[..|rows| - 1];
    forall j | 0 <= j < i ensures key(rows[j]) != k {
      assert p[j] == rows[j];
    }
  }

  lemma FirstWithKeyLast<K, V>(rows: seq<V>, key: V -> K, k: K, earlier: set<K>)
    requires rows != [] && key(rows[|rows| - 1]) == k
    requires earlier == RowKeys(rows[..|rows| - 1], key) && k !in earlier
    ensures FirstWithKey(rows, key, k, |rows| - 1)
  {
    var p := rows[..|rows| - 1];
    forall j | 0 <= j < |rows| - 1 ensures key(rows[j]) != k {
      assert p[j] == rows[j];
    }
  }

  /**
   * Existing rows are never changed; the keys afterwards are the old keys and
   * the keys of the rows; a new key holds the first row that carried it.
   */
  lemma {:induction false} InsertIgnoreProperties<K, V>(m: map<K, V>, rows: seq<V>, key: V -> K)
    ensures var r := InsertIgnore(m, rows, key);
      (forall k :: k in m ==> k in r && r[k] == m[k])
      && r.Keys == m.Keys + RowKeys(rows, key)
      && (forall k :: k in r && k !in m ==> exists i :: FirstWithKey(rows, key, k, i) && r[k] == rows[i])
  {
    if rows != [] {
      var n := |rows| - 1;
      var p := rows[..n];
      InsertIgnoreProperties(m, p, key);
      var prev := InsertIgnore(m, p, key);
      var r := InsertIgnore(m, rows, key);
      RowKeysSnoc(rows, key);
      forall k | k in r && k !in m
        ensures exists i :: FirstWithKey(rows, key, k, i) && r[k] == rows[i]
      {
        if k in prev {
          var i :| FirstWithKey(p, key, k, i) && prev[k] == p[i];
          FirstWithKeyPrefix(rows, key, k, i);
        } else {
          assert key(rows[n]) == k;
          FirstWithKeyLast(rows, key, k, RowKeys(p, key));
        }
      }
    }
  }

  /** Every record is filed under its own key. */
  predicate Keyed<K, V>(m: map<K, V>, key: V -> K) {
    forall k :: k in m ==> key(m[k]) == k
  }

  lemma {:induction false} InsertIgnoreKeyed<K, V>(m: map<K, V>, rows: seq<V>, key: V -> K)
    requires Keyed(m, key)
    ensures Keyed(InsertIgnore(m, rows, key), key)
  {
    if rows != [] {
      InsertIgnoreKeyed(m, rows[..|rows| - 1], key);
    }
  }

  /** `insert(stats).onConflict('name').merge(['value', 'mirrored_at'])`. */
  function UpsertStats(m: map<string, Stat>, rows: seq<Stat>): map<string, Stat> {
    if rows == [] then m
    else
      var prev := UpsertStats(m, rows[..|rows| - 1]);
      var r := rows[|rows| - 1];
      if r.name in prev then prev[r.name := prev[r.name].(value := r.value, mirroredAt := r.mirroredAt)]
      else prev[r.name := r]
  }

  /** The last of `rows` named `name` is `rows[i]`. */
  predicate LastNamed(rows: seq<Stat>, name: string, i: int) {
    0 <= i < |rows| && rows[i].name == name && forall j :: i < j < |rows| ==> rows[j].name != name
  }

  function StatNames(rows: seq<Stat>): set<string> {
    set i | 0 <= i < |rows| :: rows[i].name
  }

  lemma StatNamesStep(rows: seq<Stat>)
    requires rows != []
    ensures StatNames(rows) == StatNames(rows[..|rows| - 1]) + {rows[|rows| - 1].name}
  {
    var p := rows[..|rows| - 1];
    forall k | k in StatNames(rows) ensures k in StatNames(p) + {rows[|rows| - 1].name} {
      var i :| 0 <= i < |rows| && rows[i].name == k;
      if i < |p| { assert p[i] == rows[i]; }
    }
    forall k | k in StatNames(p) ensures k in StatNames(rows) {
      var i :| 0 <= i < |p| && p[i].name == k;
      assert rows[i] == p[i];
    }
  }

  /** No stat disappears, and every named stat is present. */
  lemma {:induction false} UpsertKeys(m: map<string, Stat>, rows: seq<Stat>)
    ensures UpsertStats(m, rows).Keys == m.Keys + StatNames(rows)
  {
    if rows != [] {
      UpsertKeys(m, rows[..|rows| - 1]);
      StatNamesStep(rows);
    }
  }

  /** A stat that no row names keeps its value. */
  lemma {:induction false} UpsertUnnamed(m: map<string, Stat>, rows: seq<Stat>, k: string)
    requires k in m && k !in StatNames(rows)
    ensures k in UpsertStats(m, rows) && UpsertStats(m, rows)[k] == m[k]
  {
    if rows != [] {
      StatNamesStep(rows);
      UpsertUnnamed(m, rows[..|rows| - 1], k);
    }
  }

  /** A named stat takes the value and time of the last row with its name. */
  lemma {:induction false} UpsertLastWins(m: map<string, Stat>, rows: seq<Stat>, k: string) returns (i: int)
    requires Keyed(m, (s: Stat) => s.name)
    requires k in StatNames(rows)
    ensures k in UpsertStats(m, rows)
    ensures LastNamed(rows, k, i) && UpsertStats(m, rows)[k] == rows[i]
  {
    var n := |rows| - 1;
    var p := rows[..n];
    UpsertKeys(m, rows);
    if k == rows[n].name {
      UpsertKeyed(m, p);
      i := n;
    } else {
      StatNamesStep(rows);
      i := UpsertLastWins(m, p, k);
      assert rows[i] == p[i];
    }
  }

  lemma {:induction false} UpsertKeyed(m: map<string, Stat>, rows: seq<Stat>)
    requires Keyed(m, (s: Stat) => s.name)
    ensures Keyed(UpsertStats(m, rows), (s: Stat) => s.name)
  {
    if rows != [] {
      UpsertKeyed(m, rows[..|rows| - 1]);
    }
  }

  // ---------------------------------------------------------------------------
  // Updates
  // ---------------------------------------------------------------------------

  /** One `update('sort_index', s.sort_index).where('name', '=', s.name)`. */
  function SortCategories(m: map<int, Category>, s: CategorySort): (r: map<int, Category>)
    ensures r.Keys == m.Keys
    ensures forall k :: k in m ==> r[k] == if m[k].name == s.name then m[k].(sortIndex := s.sortIndex) else m[k]
  {
    map k | k in m :: if m[k].name == s.name then m[k].(sortIndex := s.sortIndex) else m[k]
  }

  /** All the sorts, applied in order. */
  function SortAll(m: map<int, Category>, sorts: seq<CategorySort>): map<int, Category> {
    if sorts == [] then m else SortCategories(SortAll(m, sorts[..|sorts| - 1]), sorts[|sorts| - 1])
  }

  predicate Named(sorts: seq<CategorySort>, name: string) {
    exists i :: 0 <= i < |sorts| && sorts[i].name == name
  }

  /** The last sort naming `name` is `sorts[i]`. */
  predicate LastSort(sorts: seq<CategorySort>, name: string, i: int) {
    0 <= i < |sorts| && sorts[i].name == name && forall j :: i < j < |sorts| ==> sorts[j].name != name
  }

  /**
   * A category named by some sort gets the index of the last such sort and
   * nothing else changes; a category not named is unchanged.
   */
  lemma {:induction false} SortAllProperties(m: map<int, Category>, sorts: seq<CategorySort>, k: int) returns (i: int)
    requires k in m
    ensures var r := SortAll(m, sorts);
      r.Keys == m.Keys
      && (!Named(sorts, m[k].name) ==> r[k] == m[k])
      && (Named(sorts, m[k].name) ==> LastSort(sorts, m[k].name, i) && r[k] == m[k].(sortIndex := sorts[i].sortIndex))
  {
    i := 0;
    if sorts != [] {
      var n := |sorts| - 1;
      var p := sorts[..n];
      var i' := SortAllProperties(m, p, k);
      var prev := SortAll(m, p);
      var name := m[k].name;
      assert prev[k].name == name by {
        SortAllKeepsNames(m, p, k);
      }
      if sorts[n].name == name {
        i := n;
        assert LastSort(sorts, name, n);
      } else {
        NamedStep(sorts, name);
        if Named(p, name) {
          i := i';
          assert sorts[i] == p[i];
          assert LastSort(sorts, name, i);
        }
      }
    }
  }

  /** A name not in the last sort is named by all the sorts exactly when it is named by the earlier ones. */
  lemma NamedStep(sorts: seq<CategorySort>, name: string)
    requires sorts != [] && sorts[|sorts| - 1].name != name
    ensures Named(sorts, name) <==> Named(sorts[..|sorts| - 1], name)
  {
    var p := sorts[..|sorts| - 1];
    if Named(sorts, name) {
      var i :| 0 <= i < |sorts| && sorts[i].name == name;
      assert p[i] == sorts[i];
    }
    if Named(p, name) {
      var i :| 0 <= i < |p| && p[i].name == name;
      assert sorts[i] == p[i];
    }
  }

  lemma {:induction false} SortAllKeepsNames(m: map<int, Category>, sorts: seq<CategorySort>, k: int)
    requires k in m
    ensures k in SortAll(m, sorts)
    ensures SortAll(m, sorts)[k] == m[k].(sortIndex := SortAll(m, sorts)[k].sortIndex)
  {
    if sorts != [] {
      SortAllKeepsNames(m, sorts[..|sorts| - 1], k);
    }
  }

  /** A topic id, or a user id, that JavaScript would treat as true. */
  predicate TruthyId(x: Option<int>) {
    x.Some? && x.value != 0
  }

  /** A string field that JavaScript would treat as true. */
  predicate TruthyText(x: Option<string>) {
    x.Some? && x.value != []
  }

  /**
   * `patchTopicWhereNull` on one topic: each truthy field of the patch is
   * written only where the topic's own value is null.
   */
  function PatchTopic(t: Topic, p: TopicPatch): (r: Topic)
    ensures r.authorId == if TruthyId(p.authorId) && t.authorId.None? then p.authorId else t.authorId
    ensures r.createdAt == if p.createdAt.Some? && t.createdAt.None? then p.createdAt else t.createdAt
    ensures r.(authorId := t.authorId, createdAt := t.createdAt) == t
  {
    var t1 := if TruthyId(p.authorId) && t.authorId.None? then t.(authorId := p.authorId) else t;
    if p.createdAt.Some? && t1.createdAt.None? then t1.(createdAt := p.createdAt) else t1
  }

  /** Patching twice is patching once. */
  lemma PatchTopicIdempotent(t: Topic, p: TopicPatch)
    ensures PatchTopic(PatchTopic(t, p), p) == PatchTopic(t, p)
  {
  }

  /** A column that is already set is never overwritten by a patch. */
  lemma PatchTopicKeepsSet(t: Topic, p: TopicPatch)
    ensures t.authorId.Some? ==> PatchTopic(t, p).authorId == t.authorId
    ensures t.createdAt.Some? ==> PatchTopic(t, p).createdAt == t.createdAt
  {
  }

  function PatchTopics(m: map<int, Topic>, p: TopicPatch): map<int, Topic> {
    if p.id in m then m[p.id := PatchTopic(m[p.id], p)] else m
  }

  /**
   * `patchUsers` (and `updateUsersWhereNull`) on one user: each truthy
   * field of the patch overwrites the user's value, with no null check.
   */
  function PatchUser(u: User, p: UserPatch): (r: User)
    ensures r.quote == if TruthyText(p.quote) then p.quote else u.quote
    ensures r.special == if TruthyText(p.special) then p.special else u.special
    ensures r.(quote := u.quote, special := u.special) == u
  {
    var u1 := if TruthyText(p.quote) then u.(quote := p.quote) else u;
    if TruthyText(p.special) then u1.(special := p.special) else u1
  }

  function PatchAllUsers(m: map<int, User>, patches: seq<UserPatch>): map<int, User> {
    if patches == [] then m
    else
      var prev := PatchAllUsers(m, patches[..|patches| - 1]);
      var p := patches[|patches| - 1];
      if p.id in prev then prev[p.id := PatchUser(prev[p.id], p)] else prev
  }

  function PatchIds(patches: seq<UserPatch>): set<int> {
    set i | 0 <= i < |patches| :: patches[i].id
  }

  /**
   * Users not named by any patch are unchanged; when no two patches name the
   * same user, each named user is exactly its patch applied.
   */
  lemma {:induction false} PatchAllUsersProperties(m: map<int, User>, patches: seq<UserPatch>, k: int)
    requires k in m
    requires forall i, j :: 0 <= i < j < |patches| ==> patches[i].id != patches[j].id
    ensures var r := PatchAllUsers(m, patches);
      r.Keys == m.Keys
      && (k !in PatchIds(patches) ==> r[k] == m[k])
      && (forall i :: 0 <= i < |patches| && patches[i].id == k ==> r[k] == PatchUser(m[k], patches[i]))
  {
    if patches != [] {
      var n := |patches| - 1;
      var p := patches[..n];
      PatchAllUsersProperties(m, p, k);
      assert PatchIds(patches) == PatchIds(p) + {patches[n].id} by {
        forall x | x in PatchIds(patches) ensures x in PatchIds(p) + {patches[n].id} {
          var i :| 0 <= i < |patches| && patches[i].id == x;
          if i < n { assert p[i] == patches[i]; }
        }
        forall x | x in PatchIds(p) ensures x in PatchIds(patches) {
          var i :| 0 <= i < |p| && p[i].id == x;
          assert patches[i] == p[i];
        }
      }
      if patches[n].id == k {
        assert forall i :: 0 <= i < |p| ==> p[i].id == patches[i].id != patches[n].id;
        assert k !in PatchIds(p);
      } else {
        forall i | 0 <= i < |patches| && patches[i].id == k
          ensures PatchAllUsers(m, patches)[k] == PatchUser(m[k], patches[i])
        {
          assert i < n && p[i] == patches[i];
        }
      }
    }
  }

  /** `updateUsersWhereNull` overwrites a value that is not null. */
  lemma UpdateUsersWhereNullOverwrites(u: User, p: UserPatch)
    requires u.quote.Some? && TruthyText(p.quote) && p.quote != u.quote
    ensures PatchUser(u, p).quote == p.quote != u.quote
  {
  }

  /** `update('author_id', null).whereIn('author_name', names)`. */
  function ClearAuthors(m: map<int, Topic>, names: seq<string>): (r: map<int, Topic>)
    ensures r.Keys == m.Keys
  {
    map k | k in m :: if m[k].authorName in names then m[k].(authorId := None) else m[k]
  }

  /**
   * Exactly the topics started under a listed name lose their author id;
   * every other topic and every other column is untouched; clearing twice
   * is clearing once.
   */
  lemma ClearAuthorsProperties(m: map<int, Topic>, names: seq<string>)
    ensures var r := ClearAuthors(m, names);
      (forall k :: k in m && m[k].authorName in names ==> r[k] == m[k].(authorId := None))
      && (forall k :: k in m && m[k].authorName !in names ==> r[k] == m[k])
      && ClearAuthors(r, names) == r
  {
    var r := ClearAuthors(m, names);
    assert forall k :: k in r ==> r[k].authorName == m[k].authorName;
  }

  // ---------------------------------------------------------------------------
  // The mismatch query
  // ---------------------------------------------------------------------------

  /** A topic whose `author_id` names an existing user whose name is not the topic's `author_name`. */
  predicate Mismatched(users: map<int, User>, t: Topic) {
    t.authorId.Some? && t.authorId.value in users && users[t.authorId.value].name != t.authorName
  }

  /**
   * The group `(author_name, user name)` the query puts topic `id` in, or
   * `None` when the query's join or filter drops it.
   */
  /** The group `(author_name, user name)` of a mismatched topic, or `None` for any other. */
  function GroupOf(users: map<int, User>, t: Topic): Option<(string, string)> {
    if Mismatched(users, t) then Some((t.authorName, users[t.authorId.value].name)) else None
  }

  /** The group the query puts topic `id` in, or `None` when its join or filter drops it. */
  function TopicGroups(users: map<int, User>, topics: map<int, Topic>): int -> Option<(string, string)> {
    (id: int) => if id in topics then GroupOf(users, topics[id]) else None
  }

  /** The ids among `ids` that fall in some group. */
  function Grouped(g: int -> Option<(string, string)>, ids: set<int>): set<int> {
    set id | id in ids && g(id).Some?
  }

  /** The ids among `ids` that fall in group `k`. */
  function Members(g: int -> Option<(string, string)>, ids: set<int>, k: (string, string)): set<int> {
    set id | id in ids && g(id) == Some(k)
  }

  /** The group a row stands for. */
  function Key(r: MismatchRow): (string, string) {
    (r.authorName, r.userName)
  }

  predicate DistinctGroups(rows: seq<MismatchRow>) {
    forall i, j :: 0 <= i < j < |rows| ==> Key(rows[i]) != Key(rows[j])
  }

  /** Some row stands for the group `k`. */
  predicate HasGroup(rows: seq<MismatchRow>, k: (string, string)) {
    exists j :: 0 <= j < |rows| && Key(rows[j]) == k
  }

  function Total(rows: seq<MismatchRow>): nat {
    if rows == [] then 0 else Total(rows[..|rows| - 1]) + rows[|rows| - 1].topicCount
  }

  lemma {:induction false} TotalBump(rows: seq<MismatchRow>, i: nat)
    requires i < |rows|
    ensures Total(rows[i := rows[i].(topicCount := rows[i].topicCount + 1)]) == Total(rows) + 1
  {
    var n := |rows| - 1;
    var b := rows[i := rows[i].(topicCount := rows[i].topicCount + 1)];
    if i < n {
      assert b[..n] == rows[..n][i := rows[i].(topicCount := rows[i].topicCount + 1)];
      TotalBump(rows[..n], i);
    } else {
      assert b[..n] == rows[..n];
    }
  }

  lemma TotalAppend(rows: seq<MismatchRow>, r: MismatchRow)
    ensures Total(rows + [r]) == Total(rows) + r.topicCount
  {
    assert (rows + [r])[..|rows|] == rows;
  }

  /** The index of the row for group `k`, or `|rows|` when there is none. */
  function FindGroup(rows: seq<MismatchRow>, k: (string, string)): (i: nat)
    ensures i <= |rows|
    ensures i < |rows| ==> Key(rows[i]) == k
    ensures i == |rows| <==> !HasGroup(rows, k)
  {
    if rows == [] then 0
    else if Key(rows[|rows| - 1]) == k then |rows| - 1
    else
      var p := rows[..|rows| - 1];
      var i := FindGroup(p, k);
      assert forall j :: 0 <= j < |p| ==> rows[j] == p[j];
      if i < |p| then i else |rows|
  }

  lemma MembersStep(g: int -> Option<(string, string)>, done: set<int>, id: int, k: (string, string))
    requires id !in done
    ensures Members(g, done + {id}, k) == Members(g, done, k) + (if g(id) == Some(k) then {id} else {})
    ensures g(id) == Some(k) ==> |Members(g, done + {id}, k)| == |Members(g, done, k)| + 1
    ensures g(id) != Some(k) ==> Members(g, done + {id}, k) == Members(g, done, k)
  {
  }

  /**
   * The query's rows after the ids `done` have been scanned: one row per
   * group met so far, each counting the group's members, and no grouped id
   * forgotten.
   */
  predicate Counted(g: int -> Option<(string, string)>, done: set<int>, rows: seq<MismatchRow>) {
    DistinctGroups(rows)
    && (forall i :: 0 <= i < |rows| ==> rows[i].topicCount == |Members(g, done, Key(rows[i]))| >= 1)
    && (forall id :: id in done && g(id).Some? ==> HasGroup(rows, g(id).value))
    && Total(rows) == |Grouped(g, done)|
  }

  lemma CountedSkip(g: int -> Option<(string, string)>, done: set<int>, rows: seq<MismatchRow>, id: int)
    requires id !in done && g(id).None?
    requires Counted(g, done, rows)
    ensures Counted(g, done + {id}, rows)
  {
    forall k ensures Members(g, done + {id}, k) == Members(g, done, k) {
      MembersStep(g, done, id, k);
    }
    assert Grouped(g, done + {id}) == Grouped(g, done);
  }

  lemma CountedBumpCounts(g: int -> Option<(string, string)>, done: set<int>, rows: seq<MismatchRow>, id: int, i: nat)
    requires id !in done && i < |rows| && g(id) == Some(Key(rows[i]))
    requires DistinctGroups(rows)
    requires forall j :: 0 <= j < |rows| ==> rows[j].topicCount == |Members(g, done, Key(rows[j]))| >= 1
    ensures var b := rows[i := rows[i].(topicCount := rows[i].topicCount + 1)];
      forall j :: 0 <= j < |b| ==> b[j].topicCount == |Members(g, done + {id}, Key(b[j]))| >= 1
  {
    var b := rows[i := rows[i].(topicCount := rows[i].topicCount + 1)];
    forall j | 0 <= j < |b|
      ensures b[j].topicCount == |Members(g, done + {id}, Key(b[j]))| >= 1
    {
      MembersStep(g, done, id, Key(b[j]));
      if j != i {
        assert b[j] == rows[j];
        assert Key(rows[j]) != Key(rows[i]);
      }
    }
  }

  /** Bumping a count leaves which groups have rows unchanged. */
  lemma BumpKeepsGroups(rows: seq<MismatchRow>, i: nat)
    requires i < |rows|
    ensures var b := rows[i := rows[i].(topicCount := rows[i].topicCount + 1)];
      (forall k :: HasGroup(b, k) <==> HasGroup(rows, k)) && (DistinctGroups(b) <==> DistinctGroups(rows))
  {
    var b := rows[i := rows[i].(topicCount := rows[i].topicCount + 1)];
    assert forall j :: 0 <= j < |rows| ==> Key(b[j]) == Key(rows[j]);
  }

  lemma CountedBump(g: int -> Option<(string, string)>, done: set<int>, rows: seq<MismatchRow>, id: int, i: nat)
    requires id !in done && i < |rows| && g(id) == Some(Key(rows[i]))
    requires Counted(g, done, rows)
    ensures Counted(g, done + {id}, rows[i := rows[i].(topicCount := rows[i].topicCount + 1)])
  {
    BumpKeepsGroups(rows, i);
    CountedBumpCounts(g, done, rows, id, i);
    assert HasGroup(rows, Key(rows[i]));
    TotalBump(rows, i);
    assert Grouped(g, done + {id}) == Grouped(g, done) + {id};
  }

  lemma AppendCounts(g: int -> Option<(string, string)>, done: set<int>, rows: seq<MismatchRow>, id: int, k: (string, string))
    requires id !in done && g(id) == Some(k) && !HasGroup(rows, k)
    requires Members(g, done, k) == {}
    requires forall j :: 0 <= j < |rows| ==> rows[j].topicCount == |Members(g, done, Key(rows[j]))| >= 1
    ensures var b := rows + [MismatchRow(1, k.0, k.1)];
      forall j :: 0 <= j < |b| ==> b[j].topicCount == |Members(g, done + {id}, Key(b[j]))| >= 1
  {
    var b := rows + [MismatchRow(1, k.0, k.1)];
    forall j | 0 <= j < |b|
      ensures b[j].topicCount == |Members(g, done + {id}, Key(b[j]))| >= 1
    {
      MembersStep(g, done, id, Key(b[j]));
      if j < |rows| {
        assert b[j] == rows[j];
        assert Key(rows[j]) != k;
      } else {
        assert Key(b[j]) == k;
      }
    }
  }

  /** Appending a row keeps every group that had one and adds its own. */
  lemma AppendGroups(rows: seq<MismatchRow>, r: MismatchRow)
    ensures forall k :: HasGroup(rows + [r], k) <==> HasGroup(rows, k) || k == Key(r)
    ensures DistinctGroups(rows + [r]) <==> DistinctGroups(rows) && !HasGroup(rows, Key(r))
  {
    var b := rows + [r];
    assert forall j :: 0 <= j < |rows| ==> b[j] == rows[j];
    assert b[|rows|] == r;
  }

  lemma CountedAppend(g: int -> Option<(string, string)>, done: set<int>, rows: seq<MismatchRow>, id: int)
    requires id !in done && g(id).Some? && !HasGroup(rows, g(id).value)
    requires Counted(g, done, rows)
    ensures Counted(g, done + {id}, rows + [MismatchRow(1, g(id).value.0, g(id).value.1)])
  {
    var k := g(id).value;
    var r := MismatchRow(1, k.0, k.1);
    var b := rows + [r];
    assert forall x :: x in Members(g, done, k) ==> HasGroup(rows, k);
    assert Members(g, done, k) == {};
    AppendCounts(g, done, rows, id, k);
    AppendGroups(rows, r);
    AppendTotal(g, done, rows, id);
  }

  lemma GroupedAdd(g: int -> Option<(string, string)>, done: set<int>, id: int)
    requires id !in done && g(id).Some?
    ensures |Grouped(g, done + {id})| == |Grouped(g, done)| + 1
  {
    assert Grouped(g, done + {id}) == Grouped(g, done) + {id};
  }

  lemma AppendTotal(g: int -> Option<(string, string)>, done: set<int>, rows: seq<MismatchRow>, id: int)
    requires id !in done && g(id).Some?
    requires Total(rows) == |Grouped(g, done)|
    ensures Total(rows + [MismatchRow(1, g(id).value.0, g(id).value.1)]) == |Grouped(g, done + {id})|
  {
    TotalAppend(rows, MismatchRow(1, g(id).value.0, g(id).value.1));
    GroupedAdd(g, done, id);
  }

  lemma CountedStart(g: int -> Option<(string, string)>)
    ensures Counted(g, {}, [])
  {
    assert Grouped(g, {}) == {};
  }

  /** A non-empty set has an element. */
  lemma NonEmpty(s: set<int>)
    requires s != {}
    ensures exists x :: x in s
  {
    if forall x :: x !in s {
      assert false;
    }
  }

  /** Counting one more topic, of group `k`, into the rows. */
  function Tally(rows: seq<MismatchRow>, k: Option<(string, string)>): seq<MismatchRow> {
    if k.None? then rows
    else
      var i := FindGroup(rows, k.value);
      if i < |rows| then rows[i := rows[i].(topicCount := rows[i].topicCount + 1)]
      else rows + [MismatchRow(1, k.value.0, k.value.1)]
  }

  lemma TallyCounted(g: int -> Option<(string, string)>, done: set<int>, rows: seq<MismatchRow>, id: int)
    requires id !in done && Counted(g, done, rows)
    ensures Counted(g, done + {id}, Tally(rows, g(id)))
  {
    if g(id).None? {
      CountedSkip(g, done, rows, id);
    } else {
      var i := FindGroup(rows, g(id).value);
      if i < |rows| {
        CountedBump(g, done, rows, id, i);
      } else {
        CountedAppend(g, done, rows, id);
      }
    }
  }

  /** Moving one id from the ids still to scan to the ids scanned keeps the partition of `ids`. */
  lemma MoveOne(ids: set<int>, todo: set<int>, done: set<int>, id: int)
    requires todo + done == ids && todo !! done && id in todo
    ensures (todo - {id}) + (done + {id}) == ids && (todo - {id}) !! (done + {id})
    ensures |todo - {id}| < |todo|
  {
  }

  /** The query's scan: every id of `ids` is tallied under its group `g(id)`. */
  method TallyAll(ids: set<int>, g: int -> Option<(string, string)>) returns (rows: seq<MismatchRow>)
    ensures Counted(g, ids, rows)
  {
    rows := [];
    var todo := ids;
    ghost var done: set<int> := {};
    CountedStart(g);
    while todo != {}
      invariant todo + done == ids && todo !! done
      invariant Counted(g, done, rows)
      decreases |todo|
    {
      NonEmpty(todo);
      var id :| id in todo;
      TallyCounted(g, done, rows, id);
      MoveOne(ids, todo, done, id);
      rows := Tally(rows, g(id));
      todo := todo - {id};
      done := done + {id};
    }
  }

  /**
   * What the counted rows say about the topics: every mismatched topic has
   * the row of its group, a topic with a null or dangling `author_id` or a
   * matching name is in no group, each row's topics really are mismatched
   * under that row's names, and the counts add up to the mismatched topics.
   */
  lemma MismatchRowsMeaning(users: map<int, User>, topics: map<int, Topic>, rows: seq<MismatchRow>)
    requires Counted(TopicGroups(users, topics), topics.Keys, rows)
    ensures forall id :: id in topics && Mismatched(users, topics[id]) ==>
      HasGroup(rows, (topics[id].authorName, users[topics[id].authorId.value].name))
    ensures forall i, id :: 0 <= i < |rows| && id in Members(TopicGroups(users, topics), topics.Keys, Key(rows[i])) ==>
      id in topics && Mismatched(users, topics[id]) && topics[id].authorName == rows[i].authorName
      && users[topics[id].authorId.value].name == rows[i].userName
    ensures Total(rows) == |set id | id in topics && Mismatched(users, topics[id])|
  {
    var g := TopicGroups(users, topics);
    forall id | id in topics && Mismatched(users, topics[id])
      ensures HasGroup(rows, (topics[id].authorName, users[topics[id].authorId.value].name))
    {
      assert g(id) == Some((topics[id].authorName, users[topics[id].authorId.value].name));
    }
    forall id ensures id in Grouped(g, topics.Keys) <==> id in topics && Mismatched(users, topics[id]) {
      if id in topics {
        assert g(id) == GroupOf(users, topics[id]);
      }
    }
    assert Grouped(g, topics.Keys) == set id | id in topics && Mismatched(users, topics[id]);
  }

  // ---------------------------------------------------------------------------
  // The mirror
  // ---------------------------------------------------------------------------

  class Mirror {
    var users: map<int, User>
    var categories: map<int, Category>
    var forums: map<int, Forum>
    var topics: map<int, Topic>
    var posts: map<int, Post>
    var stats: map<string, Stat>

    /** Every record is filed under its primary key. */
    predicate Valid()
      reads this
    {
      Keyed(users, (u: User) => u.id) && Keyed(categories, (c: Category) => c.id)
      && Keyed(forums, (f: Forum) => f.id) && Keyed(topics, (t: Topic) => t.id)
      && Keyed(posts, (p: Post) => p.id) && Keyed(stats, (s: Stat) => s.name)
    }

    /** An empty database. */
    constructor ()
      ensures Valid()
      ensures users == map[] && categories == map[] && forums == map[]
      ensures topics == map[] && posts == map[] && stats == map[]
    {
      users, categories, forums, topics, posts, stats := map[], map[], map[], map[], map[], map[];
    }

    method AddCategory(category: Category)
      requires Valid()
      modifies this
      ensures Valid()
      ensures categories == InsertIgnore(old(categories), [category], (c: Category) => c.id)
      ensures users == old(users) && forums == old(forums) && topics == old(topics)
      ensures posts == old(posts) && stats == old(stats)
    {
      InsertIgnoreKeyed(categories, [category], (c: Category) => c.id);
      categories := InsertIgnore(categories, [category], (c: Category) => c.id);
    }

    method UpdateCategorySorts(sorts: seq<CategorySort>)
      requires Valid()
      modifies this
      ensures Valid()
      ensures categories == SortAll(old(categories), sorts)
      ensures users == old(users) && forums == old(forums) && topics == old(topics)
      ensures posts == old(posts) && stats == old(stats)
    {
      for i := 0 to |sorts|
        invariant Valid()
        invariant categories == SortAll(old(categories), sorts[..i])
        invariant users == old(users) && forums == old(forums) && topics == old(topics)
        invariant posts == old(posts) && stats == old(stats)
      {
        assert sorts[..i + 1][..i] == sorts[..i];
        categories := SortCategories(categories, sorts[i]);
      }
      assert sorts[..|sorts|] == sorts;
    }

    method AddForums(rows: seq<Forum>)
      requires Valid()
      modifies this
      ensures Valid()
      ensures forums == InsertIgnore(old(forums), rows, (f: Forum) => f.id)
      ensures users == old(users) && categories == old(categories) && topics == old(topics)
      ensures posts == old(posts) && stats == old(stats)
    {
      InsertIgnoreKeyed(forums, rows, (f: Forum) => f.id);
      forums := InsertIgnore(forums, rows, (f: Forum) => f.id);
    }

    method AddPosts(rows: seq<Post>)
      requires Valid()
      modifies this
      ensures Valid()
      ensures posts == InsertIgnore(old(posts), rows, (p: Post) => p.id)
      ensures users == old(users) && categories == old(categories) && forums == old(forums)
      ensures topics == old(topics) && stats == old(stats)
    {
      InsertIgnoreKeyed(posts, rows, (p: Post) => p.id);
      posts := InsertIgnore(posts, rows, (p: Post) => p.id);
    }

    method AddStats(rows: seq<Stat>)
      requires Valid()
      modifies this
      ensures Valid()
      ensures stats == UpsertStats(old(stats), rows)
      ensures users == old(users) && categories == old(categories) && forums == old(forums)
      ensures topics == old(topics) && posts == old(posts)
    {
      UpsertKeyed(stats, rows);
      stats := UpsertStats(stats, rows);
    }

    method AddTopics(rows: seq<Topic>)
      requires Valid()
      modifies this
      ensures Valid()
      ensures topics == InsertIgnore(old(topics), rows, (t: Topic) => t.id)
      ensures users == old(users) && categories == old(categories) && forums == old(forums)
      ensures posts == old(posts) && stats == old(stats)
    {
      InsertIgnoreKeyed(topics, rows, (t: Topic) => t.id);
      topics := InsertIgnore(topics, rows, (t: Topic) => t.id);
    }

    method PatchTopicWhereNull(patch: TopicPatch)
      requires Valid()
      modifies this
      ensures Valid()
      ensures topics == PatchTopics(old(topics), patch)
      ensures users == old(users) && categories == old(categories) && forums == old(forums)
      ensures posts == old(posts) && stats == old(stats)
    {
      if patch.id in topics {
        var t := topics[patch.id];
        if TruthyId(patch.authorId) && t.authorId.None? {
          t := t.(authorId := patch.authorId);
        }
        if patch.createdAt.Some? && t.createdAt.None? {
          t := t.(createdAt := patch.createdAt);
        }
        topics := topics[patch.id := t];
      }
    }

    method AddUser(user: User)
      requires Valid()
      modifies this
      ensures Valid()
      ensures users == InsertIgnore(old(users), [user], (u: User) => u.id)
      ensures categories == old(categories) && forums == old(forums) && topics == old(topics)
      ensures posts == old(posts) && stats == old(stats)
    {
      InsertIgnoreKeyed(users, [user], (u: User) => u.id);
      users := InsertIgnore(users, [user], (u: User) => u.id);
    }

    /** `getUserIdByName`: the id of some user with exactly that name. */
    method GetUserIdByName(name: string) returns (id: Option<int>)
      requires Valid()
      ensures id.Some? ==> id.value in users && users[id.value].name == name
      ensures id.None? ==> forall k :: k in users ==> users[k].name != name
    {
      if exists k :: k in users && users[k].name == name {
        var k :| k in users && users[k].name == name;
        id := Some(k);
      } else {
        id := None;
      }
    }

    /** `patchUsers`, the patches applied one after another. */
    method PatchUsers(patches: seq<UserPatch>)
      requires Valid()
      modifies this
      ensures Valid()
      ensures users == PatchAllUsers(old(users), patches)
      ensures categories == old(categories) && forums == old(forums) && topics == old(topics)
      ensures posts == old(posts) && stats == old(stats)
    {
      for i := 0 to |patches|
        invariant Valid()
        invariant users == PatchAllUsers(old(users), patches[..i])
        invariant categories == old(categories) && forums == old(forums) && topics == old(topics)
        invariant posts == old(posts) && stats == old(stats)
      {
        assert patches[..i + 1][..i] == patches[..i];
        var p := patches[i];
        if p.id in users {
          var u := users[p.id];
          if TruthyText(p.quote) {
            u := u.(quote := p.quote);
          }
          if TruthyText(p.special) {
            u := u.(special := p.special);
          }
          users := users[p.id := u];
        }
      }
      assert patches[..|patches|] == patches;
    }

    /**
     * `getMismatchedTopicAuthors`: one row per `(author_name, user name)`
     * group of mismatched topics, counting the topics in the group.
     */
    method GetMismatchedTopicAuthors() returns (rows: seq<MismatchRow>)
      ensures Counted(TopicGroups(users, topics), topics.Keys, rows)
    {
      rows := TallyAll(topics.Keys, TopicGroups(users, topics));
    }

    method ClearAuthorIdForTopicsStartedBy(authorNames: seq<string>)
      requires Valid()
      modifies this
      ensures Valid()
      ensures topics == ClearAuthors(old(topics), authorNames)
      ensures users == old(users) && categories == old(categories) && forums == old(forums)
      ensures posts == old(posts) && stats == old(stats)
    {
      topics := ClearAuthors(topics, authorNames);
    }
  }
}
