/**
 * Batch dispatch of mirror files to their processors: `loadDirectory` and
 * `loadFile` (loader.ts:98-156, loader.js:59-108). The directory is given as
 * its entries; reading files and running the processors are outside the
 * model, so a dispatch is recorded as the pair (processor index, filename).
 */
module Dispatch {
  import opened Wrappers
  import opened FileKinds

  /** A directory entry: its name and whether it is a regular file (`dirent.isFile()`). */
  datatype Entry = Entry(name: string, isFile: bool)

  predicate Distinct<T(==)>(xs: seq<T>) {
    forall i, j :: 0 <= i < j < |xs| ==> xs[i] != xs[j]
  }

  /**
   * The `filenameSet` built from the entries: each regular file's name, once,
   * in the order a JavaScript `Set` iterates (first insertion).
   */
  function FileNames(entries: seq<Entry>): (names: seq<string>)
    ensures Distinct(names)
    ensures forall x :: x in names <==> exists i :: 0 <= i < |entries| && entries[i].isFile && entries[i].name == x
  {
    if entries == [] then []
    else
      var prev := FileNames(entries[..|entries| - 1]);
      var e := entries[|entries| - 1];
      assert forall i :: 0 <= i < |entries| - 1 ==> entries[..|entries| - 1][i] == entries[i];
      if e.isFile && e.name !in prev then prev + [e.name] else prev
  }

  /**
   * A processor's filename test (`regex.test`). The importer's are the
   * patterns of `FileKinds`, in `FILE_PROCESSORS` order: see `TsTests` and `JsTests`.
   */
  type FileTest = string -> bool

  function PatternTest(p: Pattern): FileTest {
    s => Test(p, s)
  }

  function TestsOf(ps: seq<Pattern>): (r: seq<FileTest>)
    ensures |r| == |ps| && forall i :: 0 <= i < |ps| ==> r[i] == PatternTest(ps[i])
  {
    if ps == [] then [] else [PatternTest(ps[0])] + TestsOf(ps[1..])
  }

  function TsTests(): seq<FileTest> {
    TestsOf(TsProcessors)
  }

  function JsTests(): seq<FileTest> {
    TestsOf(JsProcessors)
  }

  /** `Array.from(filenameSet).filter(f => regex.test(f))`. */
  function Matching(names: seq<string>, p: FileTest): (r: seq<string>)
    ensures forall x :: x in r <==> x in names && p(x)
    ensures Distinct(names) ==> Distinct(r)
  {
    if names == [] then []
    else (if p(names[0]) then [names[0]] else []) + Matching(names[1..], p)
  }

  /** The names a test rejects: what is left after its files are deleted. */
  function NotMatching(names: seq<string>, p: FileTest): (r: seq<string>)
    ensures forall x :: x in r <==> x in names && !p(x)
    ensures Distinct(names) ==> Distinct(r)
  {
    if names == [] then []
    else (if p(names[0]) then [] else [names[0]]) + NotMatching(names[1..], p)
  }

  /** `filenameSet.delete(y)` for each `y` of `ys`. */
  function WithoutAll(names: seq<string>, ys: seq<string>): seq<string> {
    if names == [] then []
    else (if names[0] in ys then [] else [names[0]]) + WithoutAll(names[1..], ys)
  }

  lemma {:induction false} WithoutNothing(names: seq<string>)
    ensures WithoutAll(names, []) == names
  {
    if names != [] {
      WithoutNothing(names[1..]);
    }
  }

  function Tag(k: nat, names: seq<string>): (r: seq<(nat, string)>)
    ensures |r| == |names| && forall i :: 0 <= i < |r| ==> r[i] == (k, names[i])
  {
    if names == [] then [] else [(k, names[0])] + Tag(k, names[1..])
  }

  /**
   * The dispatches `loadDirectory` makes from processor `k` on, for the names
   * still in the set: all files of processor `k`, in set order, then the rest.
   */
  function Dispatched(names: seq<string>, ps: seq<FileTest>, k: nat): seq<(nat, string)>
    decreases |ps| - k
  {
    if k >= |ps| then []
    else Tag(k, Matching(names, ps[k])) + Dispatched(NotMatching(names, ps[k]), ps, k + 1)
  }

  /** The names left in the set once processors `k`.. have taken theirs: the skipped files. */
  function Remaining(names: seq<string>, ps: seq<FileTest>, k: nat): seq<string>
    decreases |ps| - k
  {
    if k >= |ps| then names
    else Remaining(NotMatching(names, ps[k]), ps, k + 1)
  }

  lemma {:induction false} WithoutAllAppend(a: seq<string>, b: seq<string>, ys: seq<string>)
    ensures WithoutAll(a + b, ys) == WithoutAll(a, ys) + WithoutAll(b, ys)
  {
    if a == [] {
      assert a + b == b;
    } else {
      assert (a + b)[0] == a[0] && (a + b)[1..] == a[1..] + b;
      WithoutAllAppend(a[1..], b, ys);
    }
  }

  lemma {:induction false} WithoutAllStep(names: seq<string>, ys: seq<string>, y: string)
    ensures WithoutAll(WithoutAll(names, ys), [y]) == WithoutAll(names, ys + [y])
  {
    if names != [] {
      var head := if names[0] in ys then [] else [names[0]];
      WithoutAllAppend(head, WithoutAll(names[1..], ys), [y]);
      WithoutAllStep(names[1..], ys, y);
      if head != [] {
        assert head[1..] == [];
      }
    }
  }

  lemma {:induction false} WithoutMatching(names: seq<string>, ys: seq<string>, p: FileTest)
    requires forall x :: x in names ==> (x in ys <==> p(x))
    ensures WithoutAll(names, ys) == NotMatching(names, p)
  {
    if names != [] {
      WithoutMatching(names[1..], ys, p);
    }
  }

  lemma FileNamesStep(entries: seq<Entry>, i: nat)
    requires i < |entries|
    ensures var prev := FileNames(entries[..i]);
            var e := entries[i];
            FileNames(entries[..i + 1]) == if e.isFile && e.name !in prev then prev + [e.name] else prev
  {
    assert entries[..i + 1][..i] == entries[..i];
  }

  /** The files of processor `k` come off the set one by one. */
  lemma DeleteStep(before: seq<string>, matching: seq<string>, j: nat, k: nat)
    requires j < |matching|
    ensures WithoutAll(WithoutAll(before, matching[..j]), [matching[j]]) == WithoutAll(before, matching[..j + 1])
    ensures Tag(k, matching[..j]) + [(k, matching[j])] == Tag(k, matching[..j + 1])
  {
    WithoutAllStep(before, matching[..j], matching[j]);
    assert matching[..j + 1] == matching[..j] + [matching[j]];
  }

  /** Once processor `k` has taken its files, the set holds what its test rejects. */
  lemma DeleteMatching(names: seq<string>, ps: seq<FileTest>, k: nat)
    requires k < |ps|
    ensures WithoutAll(names, Matching(names, ps[k])) == NotMatching(names, ps[k])
  {
    var m := Matching(names, ps[k]);
    assert m[..|m|] == m;
    WithoutMatching(names, m, ps[k]);
  }

  lemma DispatchedStep(names: seq<string>, ps: seq<FileTest>, k: nat)
    requires k < |ps|
    ensures Dispatched(names, ps, k) == Tag(k, Matching(names, ps[k])) + Dispatched(NotMatching(names, ps[k]), ps, k + 1)
    ensures Remaining(NotMatching(names, ps[k]), ps, k + 1) == Remaining(names, ps, k)
  {
  }

  lemma ConcatAssoc<T>(a: seq<T>, b: seq<T>, c: seq<T>)
    ensures (a + b) + c == a + (b + c)
  {
  }

  /**
   * Whether the awaited `loadFile` rejects for one dispatch. In loader.ts the
   * processor is awaited, so this is an `assert` of an extractor that fails,
   * a `TypeError` or a date that does not parse, as well as a failed read.
   * loader.js calls the processor without `await`, so there only reading or
   * parsing the file can reject, and a failing processor does not stop the
   * load. The processors and the file system are outside this module, so
   * this is a parameter.
   */
  type Throws = (nat, string) -> bool

  predicate HasFailure(d: seq<(nat, string)>, fails: Throws) {
    exists i :: 0 <= i < |d| && fails(d[i].0, d[i].1)
  }

  /**
   * The dispatches actually made when `loadFile` is awaited with no
   * try/catch: those of `d` up to and including the first that throws.
   */
  function UpToFailure(d: seq<(nat, string)>, fails: Throws): (r: seq<(nat, string)>)
    ensures |r| <= |d| && r == d[..|r|]
    ensures forall i :: 0 <= i < |r| - 1 ==> !fails(r[i].0, r[i].1)
    ensures HasFailure(d, fails) <==> r != [] && fails(r[|r| - 1].0, r[|r| - 1].1)
    ensures !HasFailure(d, fails) ==> r == d
  {
    if d == [] then []
    else if fails(d[0].0, d[0].1) then [d[0]]
    else
      var rest := UpToFailure(d[1..], fails);
      assert HasFailure(d, fails) ==> HasFailure(d[1..], fails) by {
        if HasFailure(d, fails) {
          var i :| 0 <= i < |d| && fails(d[i].0, d[i].1);
          assert d[1..][i - 1] == d[i];
        }
      }
      assert HasFailure(d[1..], fails) ==> HasFailure(d, fails) by {
        if HasFailure(d[1..], fails) {
          var i :| 0 <= i < |d[1..]| && fails(d[1..][i].0, d[1..][i].1);
          assert d[i + 1] == d[1..][i];
        }
      }
      assert d[..1 + |rest|] == [d[0]] + d[1..][..|rest|];
      [d[0]] + rest
  }

  /** A prefix whose only failing dispatch is its last is what `UpToFailure` keeps. */
  lemma {:induction false} PrefixIsUpToFailure(d: seq<(nat, string)>, p: seq<(nat, string)>, fails: Throws)
    requires p != [] && |p| <= |d| && p == d[..|p|]
    requires fails(p[|p| - 1].0, p[|p| - 1].1)
    requires forall i :: 0 <= i < |p| - 1 ==> !fails(p[i].0, p[i].1)
    ensures UpToFailure(d, fails) == p
  {
    assert d[0] == p[0];
    if |p| > 1 {
      assert !fails(p[0].0, p[0].1);
      var q := p[1..];
      assert q == d[1..][..|q|];
      assert forall i :: 0 <= i < |q| - 1 ==> q[i] == p[i + 1];
      PrefixIsUpToFailure(d[1..], q, fails);
      assert p == [p[0]] + q;
    }
  }

  /**
   * The inner loop of `loadDirectory`: each matching file is deleted from the
   * set of names still waiting and handed to processor `k` (recorded as
   * `(k, name)`), until a load throws; `stop` counts the files it reached.
   */
  method ProcessMatching(names: seq<string>, matchingFiles: seq<string>, k: nat, done: seq<(nat, string)>, fails: Throws)
    returns (rest: seq<string>, dispatched: seq<(nat, string)>, stop: nat, failed: bool)
    ensures stop <= |matchingFiles|
    ensures dispatched == done + Tag(k, matchingFiles[..stop])
    ensures forall i :: 0 <= i < (if failed then stop - 1 else stop) ==> !fails(k, matchingFiles[i])
    ensures failed ==> stop > 0 && fails(k, matchingFiles[stop - 1])
    ensures !failed ==> stop == |matchingFiles| && rest == WithoutAll(names, matchingFiles)
  {
    rest := names;
    dispatched := done;
    WithoutNothing(names);
    for j := 0 to |matchingFiles|
      invariant rest == WithoutAll(names, matchingFiles[..j])
      invariant dispatched == done + Tag(k, matchingFiles[..j])
      invariant forall i :: 0 <= i < j ==> !fails(k, matchingFiles[i])
    {
      DeleteStep(names, matchingFiles, j, k);
      ConcatAssoc(done, Tag(k, matchingFiles[..j]), [(k, matchingFiles[j])]);
      rest := WithoutAll(rest, [matchingFiles[j]]);
      dispatched := dispatched + [(k, matchingFiles[j])];
      if fails(k, matchingFiles[j]) {
        return rest, dispatched, j + 1, true;
      }
    }
    assert matchingFiles[..|matchingFiles|] == matchingFiles;
    return rest, dispatched, |matchingFiles|, false;
  }

  /** The dispatches of processor `k` that precede a stop are a prefix of all of its dispatches. */
  lemma TagPrefix(k: nat, m: seq<string>, stop: nat)
    requires stop <= |m|
    ensures Tag(k, m[..stop]) == Tag(k, m)[..stop]
  {
  }

  /** A processor's files, all loaded without a throw, extend a failure-free prefix. */
  lemma PassingStep(d0: seq<(nat, string)>, k: nat, m: seq<string>, fails: Throws)
    requires forall i :: 0 <= i < |d0| ==> !fails(d0[i].0, d0[i].1)
    requires forall i :: 0 <= i < |m| ==> !fails(k, m[i])
    ensures var p := d0 + Tag(k, m); forall i :: 0 <= i < |p| ==> !fails(p[i].0, p[i].1)
  {
    var p := d0 + Tag(k, m);
    forall i | 0 <= i < |p|
      ensures !fails(p[i].0, p[i].1)
    {
      if i >= |d0| {
        assert p[i] == (k, m[i - |d0|]);
      }
    }
  }

  /** A throw at the `stop`-th file of processor `k` ends the dispatches as `UpToFailure` says. */
  lemma FailingStep(d: seq<(nat, string)>, d0: seq<(nat, string)>, k: nat, m: seq<string>,
                    later: seq<(nat, string)>, stop: nat, fails: Throws)
    requires d == d0 + (Tag(k, m) + later)
    requires 0 < stop <= |m| && fails(k, m[stop - 1])
    requires forall i :: 0 <= i < stop - 1 ==> !fails(k, m[i])
    requires forall i :: 0 <= i < |d0| ==> !fails(d0[i].0, d0[i].1)
    ensures d0 + Tag(k, m[..stop]) == UpToFailure(d, fails)
    ensures HasFailure(d, fails)
  {
    var p := d0 + Tag(k, m[..stop]);
    TagPrefix(k, m, stop);
    assert p == d[..|p|];
    forall i | 0 <= i < |p| - 1
      ensures !fails(p[i].0, p[i].1)
    {
      if i >= |d0| {
        assert p[i] == (k, m[i - |d0|]);
      }
    }
    assert p[|p| - 1] == (k, m[stop - 1]);
    PrefixIsUpToFailure(d, p, fails);
  }

  /**
   * `loadDirectory`: collects the regular files into a set, then for each
   * processor in order takes the files its pattern matches out of the set and
   * hands each to `loadFile` with that processor. A load that throws ends the
   * whole directory load (`failed`); the files left in the set are the
   * skipped ones only when no load threw.
   */
  method LoadDirectory(entries: seq<Entry>, ps: seq<FileTest>, fails: Throws)
    returns (dispatched: seq<(nat, string)>, skipped: seq<string>, failed: bool)
    ensures dispatched == UpToFailure(Dispatched(FileNames(entries), ps, 0), fails)
    ensures failed <==> HasFailure(Dispatched(FileNames(entries), ps, 0), fails)
    ensures !failed ==> skipped == Remaining(FileNames(entries), ps, 0)
  {
    var filenameSet := CollectFileNames(entries);
    ghost var all := filenameSet;
    ghost var d := Dispatched(all, ps, 0);
    dispatched := [];
    failed := false;
    for k := 0 to |ps|
      invariant dispatched + Dispatched(filenameSet, ps, k) == d
      invariant Remaining(filenameSet, ps, k) == Remaining(all, ps, 0)
      invariant forall i :: 0 <= i < |dispatched| ==> !fails(dispatched[i].0, dispatched[i].1)
    {
      var matchingFiles := Matching(filenameSet, ps[k]);
      ghost var before := filenameSet;
      ghost var d0 := dispatched;
      DeleteMatching(before, ps, k);
      DispatchedStep(before, ps, k);
      var stop;
      filenameSet, dispatched, stop, failed := ProcessMatching(filenameSet, matchingFiles, k, dispatched, fails);
      ConcatAssoc(d0, Tag(k, matchingFiles), Dispatched(NotMatching(before, ps[k]), ps, k + 1));
      if failed {
        FailingStep(d, d0, k, matchingFiles, Dispatched(NotMatching(before, ps[k]), ps, k + 1), stop, fails);
        skipped := filenameSet;
        return;
      }
      assert matchingFiles[..stop] == matchingFiles;
      PassingStep(d0, k, matchingFiles, fails);
    }
    assert dispatched == d;
    skipped := filenameSet;
  }

  /** The first loop of `loadDirectory`: the names of the regular files, each once, in listing order. */
  method CollectFileNames(entries: seq<Entry>) returns (filenameSet: seq<string>)
    ensures filenameSet == FileNames(entries)
  {
    filenameSet := [];
    for i := 0 to |entries|
      invariant filenameSet == FileNames(entries[..i])
    {
      FileNamesStep(entries, i);
      if entries[i].isFile && entries[i].name !in filenameSet {
        filenameSet := filenameSet + [entries[i].name];
      }
    }
    assert entries[..|entries|] == entries;
  }

  // ---------------------------------------------------------------------------
  // Properties of the dispatch order
  // ---------------------------------------------------------------------------

  /** Processor `k` is the first of `ps` from index `from` on whose test `x` passes. */
  predicate FirstFrom(x: string, ps: seq<FileTest>, from: nat, k: nat) {
    from <= k < |ps| && ps[k](x) && forall j :: from <= j < k ==> !ps[j](x)
  }

  /** The tests, as a value, that `x` passes. */
  function Passes(x: string): FileTest -> bool {
    (f: FileTest) => f(x)
  }

  /** `FILE_PROCESSORS.find(([regex]) => regex.test(x))`, as an index. */
  function FirstPassed(x: string, ps: seq<FileTest>): (r: Option<nat>)
    ensures r.None? <==> forall j :: 0 <= j < |ps| ==> !ps[j](x)
    ensures r.Some? ==> FirstFrom(x, ps, 0, r.value)
  {
    var r := FindFirst(ps, Passes(x));
    assert r.Some? ==> FirstFrom(x, ps, 0, r.value);
    assert r.None? <==> forall j :: 0 <= j < |ps| ==> !Passes(x)(ps[j]);
    r
  }

  lemma FirstFromUnique(x: string, ps: seq<FileTest>, k: nat, k2: nat)
    requires FirstFrom(x, ps, 0, k) && FirstFrom(x, ps, 0, k2)
    ensures k == k2
  {
  }

  lemma {:induction false} DispatchedMembers(names: seq<string>, ps: seq<FileTest>, from: nat, k: nat, x: string)
    ensures (k, x) in Dispatched(names, ps, from) <==> x in names && FirstFrom(x, ps, from, k)
    decreases |ps| - from
  {
    if from < |ps| {
      var rest := NotMatching(names, ps[from]);
      DispatchedMembers(rest, ps, from + 1, k, x);
      var tagged := Tag(from, Matching(names, ps[from]));
      TagMembers(from, Matching(names, ps[from]), k, x);
      assert Dispatched(names, ps, from) == tagged + Dispatched(rest, ps, from + 1);
      assert FirstFrom(x, ps, from, k) <==>
        (k == from && ps[from](x)) || (!ps[from](x) && FirstFrom(x, ps, from + 1, k));
    }
  }

  lemma TagMembers(k: nat, names: seq<string>, j: nat, x: string)
    ensures (j, x) in Tag(k, names) <==> j == k && x in names
  {
    var tagged := Tag(k, names);
    if (j, x) in tagged {
      var i :| 0 <= i < |tagged| && tagged[i] == (j, x);
      assert names[i] == x;
    }
    if j == k && x in names {
      var i :| 0 <= i < |names| && names[i] == x;
      assert tagged[i] == (j, x);
    }
  }

  /** Every file is dispatched to the first processor, in processing order, whose test it passes. */
  lemma DispatchIsFirstMatch(entries: seq<Entry>, ps: seq<FileTest>, k: nat, x: string)
    ensures (k, x) in Dispatched(FileNames(entries), ps, 0)
            <==> x in FileNames(entries) && FirstPassed(x, ps) == Some(k)
  {
    DispatchedMembers(FileNames(entries), ps, 0, k, x);
    if FirstFrom(x, ps, 0, k) {
      FirstFromUnique(x, ps, k, FirstPassed(x, ps).value);
    }
  }

  lemma {:induction false} RemainingMembers(names: seq<string>, ps: seq<FileTest>, from: nat, x: string)
    ensures x in Remaining(names, ps, from) <==> x in names && forall j :: from <= j < |ps| ==> !ps[j](x)
    decreases |ps| - from
  {
    if from < |ps| {
      RemainingMembers(NotMatching(names, ps[from]), ps, from + 1, x);
    }
  }

  /** A file no test passes is never dispatched and is left over; every other file is dispatched. */
  lemma SkippedAreUnmatched(entries: seq<Entry>, ps: seq<FileTest>, x: string)
    ensures x in Remaining(FileNames(entries), ps, 0) <==> x in FileNames(entries) && FirstPassed(x, ps).None?
    ensures FirstPassed(x, ps).None? ==> forall k :: (k, x) !in Dispatched(FileNames(entries), ps, 0)
  {
    RemainingMembers(FileNames(entries), ps, 0, x);
    if FirstPassed(x, ps).None? {
      forall k | (k, x) in Dispatched(FileNames(entries), ps, 0)
        ensures false
      {
        DispatchIsFirstMatch(entries, ps, k, x);
      }
    } else {
      assert ps[FirstPassed(x, ps).value](x);
    }
  }

  function Names(d: seq<(nat, string)>): seq<string> {
    if d == [] then [] else [d[0].1] + Names(d[1..])
  }

  lemma {:induction false} NamesOfTag(k: nat, names: seq<string>)
    ensures Names(Tag(k, names)) == names
  {
    if names != [] {
      assert Tag(k, names)[1..] == Tag(k, names[1..]);
      NamesOfTag(k, names[1..]);
    }
  }

  lemma {:induction false} NamesAppend(a: seq<(nat, string)>, b: seq<(nat, string)>)
    ensures Names(a + b) == Names(a) + Names(b)
  {
    if a == [] {
      assert a + b == b;
    } else {
      assert (a + b)[0] == a[0] && (a + b)[1..] == a[1..] + b;
      NamesAppend(a[1..], b);
    }
  }

  lemma {:induction false} NamesWithin(names: seq<string>, ps: seq<FileTest>, from: nat)
    ensures forall x :: x in Names(Dispatched(names, ps, from)) ==> x in names
    decreases |ps| - from
  {
    if from < |ps| {
      var m := Matching(names, ps[from]);
      var rest := NotMatching(names, ps[from]);
      NamesWithin(rest, ps, from + 1);
      NamesAppend(Tag(from, m), Dispatched(rest, ps, from + 1));
      NamesOfTag(from, m);
    }
  }

  lemma {:induction false} DispatchedOnce(names: seq<string>, ps: seq<FileTest>, from: nat)
    requires Distinct(names)
    ensures Distinct(Names(Dispatched(names, ps, from)))
    decreases |ps| - from
  {
    if from < |ps| {
      var m := Matching(names, ps[from]);
      var rest := NotMatching(names, ps[from]);
      DispatchedOnce(rest, ps, from + 1);
      NamesWithin(rest, ps, from + 1);
      NamesAppend(Tag(from, m), Dispatched(rest, ps, from + 1));
      NamesOfTag(from, m);
      var all := m + Names(Dispatched(rest, ps, from + 1));
      forall i, j | 0 <= i < j < |all|
        ensures all[i] != all[j]
      {
        if i < |m| && j >= |m| {
          assert all[j] in Names(Dispatched(rest, ps, from + 1));
        }
      }
    }
  }

  /** Each file is handed to a processor at most once. */
  lemma DispatchedAtMostOnce(entries: seq<Entry>, ps: seq<FileTest>)
    ensures Distinct(Names(Dispatched(FileNames(entries), ps, 0)))
  {
    DispatchedOnce(FileNames(entries), ps, 0);
  }

  lemma {:induction false} DispatchedFrom(names: seq<string>, ps: seq<FileTest>, from: nat)
    ensures forall i :: 0 <= i < |Dispatched(names, ps, from)| ==> from <= Dispatched(names, ps, from)[i].0
    ensures forall i, j :: 0 <= i < j < |Dispatched(names, ps, from)|
              ==> Dispatched(names, ps, from)[i].0 <= Dispatched(names, ps, from)[j].0
    decreases |ps| - from
  {
    if from < |ps| {
      DispatchedFrom(NotMatching(names, ps[from]), ps, from + 1);
    }
  }

  /** All files of an earlier processor are dispatched before any file of a later one. */
  lemma KindsInOrder(entries: seq<Entry>, ps: seq<FileTest>)
    ensures var d := Dispatched(FileNames(entries), ps, 0);
            forall i, j :: 0 <= i < j < |d| ==> d[i].0 <= d[j].0
  {
    DispatchedFrom(FileNames(entries), ps, 0);
  }

  // ---------------------------------------------------------------------------
  // loadFile
  // ---------------------------------------------------------------------------

  datatype Outcome = NoProcessor | SkippedStub(processor: nat) | Processed(processor: nat)

  /**
   * `loadFile(filepath, pair)`. Without a processor (a single file given on
   * the command line) the first test passing on the whole path is used.
   * The TypeScript loader then skips a stub page, one whose second header row
   * has no text (`stub`); the JavaScript loader has no such check
   * (`checkStub` false).
   */
  function LoadFile(path: string, pair: Option<nat>, ps: seq<FileTest>, stub: bool, checkStub: bool): (r: Outcome)
    ensures pair.Some? ==> (r.SkippedStub? || r.Processed?) && r.processor == pair.value
    ensures pair.None? ==> (r == NoProcessor <==> forall j :: 0 <= j < |ps| ==> !ps[j](path))
    ensures pair.None? && r != NoProcessor ==> FirstFrom(path, ps, 0, r.processor)
    ensures r.SkippedStub? <==> r != NoProcessor && checkStub && stub
  {
    var chosen := if pair.Some? then pair else FirstPassed(path, ps);
    match chosen
    case None => NoProcessor
    case Some(k) => if checkStub && stub then SkippedStub(k) else Processed(k)
  }

  /**
   * A single file given by its path is matched whole, directory included: a
   * file whose name matches some pattern always finds a processor, at the
   * latest the one its name alone would pick.
   */
  lemma SingleFileFindsProcessor(dir: string, name: string, ps: seq<Pattern>, k: nat)
    requires FirstFrom(name, TestsOf(ps), 0, k)
    ensures var r := LoadFile(dir + name, None, TestsOf(ps), false, true);
            r.Processed? && r.processor <= k
  {
    var tests := TestsOf(ps);
    assert Test(ps[k], name);
    TestAfterPrefix(ps[k], dir, name);
    assert tests[k](dir + name);
  }
}
