/**
 * The page-jump control of the client (client/src/components/PageControl.tsx):
 * the current page and page count from an item offset, the list of page
 * numbers and ellipses to show, and the Prev/Next links.
 *
 * An ellipsis is `None`; a page number `p` is `Some(p)`.
 */
module PageControl {
  import opened Wrappers

  const MaxPageLinks: int := 10
  const HalfMax: int := 5

  type Jumps = seq<Option<int>>

  /** `Math.ceil(a / b)` for a positive divisor. */
  function CeilDiv(a: int, b: int): (r: int)
    requires b >= 1
    ensures b * (r - 1) < a <= b * r
  {
    var q := (-a) / b;
    assert -a == b * q + (-a) % b;
    -q
  }

  /** `calcPage`: `(curPage, pageCount)`. */
  function CalcPage(count: int, pageSize: int, start: int): (r: (int, int))
    requires pageSize >= 1
    ensures pageSize * (r.0 - 1) < start <= pageSize * r.0
    ensures pageSize * (r.1 - 1) < count <= pageSize * r.1
  {
    (CeilDiv(start, pageSize), CeilDiv(count, pageSize))
  }

  /** The value `CeilDiv` takes is the only one with its defining bounds. */
  lemma CeilDivUnique(a: int, b: int, r: int)
    requires b >= 1 && b * (r - 1) < a <= b * r
    ensures CeilDiv(a, b) == r
  {
  }

  /**
   * The URL builders put page `p` at offset `(p - 1) * size + 1`; reading that
   * offset back gives page `p` again.
   */
  lemma PageRoundTrip(count: int, size: int, p: int)
    requires size >= 1
    ensures CalcPage(count, size, (p - 1) * size + 1).0 == p
  {
    assert size * (p - 1) == (p - 1) * size;
    CeilDivUnique((p - 1) * size + 1, size, p);
  }

  // ---------------------------------------------------------------------------
  // makePages
  // ---------------------------------------------------------------------------

  /** The `i`-th page away from `start`, upwards or downwards. */
  function Away(start: int, up: bool, i: int): int {
    if up then start + i else start - i
  }

  /** The `n` pages after `start` in one direction. */
  function Run(start: int, up: bool, n: nat): (r: Jumps)
    ensures |r| == n
    ensures forall i :: 0 <= i < n ==> r[i] == Some(Away(start, up, i + 1))
  {
    if n == 0 then [] else Run(start, up, n - 1) + [Some(Away(start, up, n))]
  }

  /** The source's empty test `end - start * step <= 0`, with `step` the direction towards `end`. */
  predicate NoPages(start: int, end: int) {
    if start > end then end + start <= 0 else end - start <= 0
  }

  function Distance(start: int, end: int): int {
    if start > end then start - end else end - start
  }

  /**
   * What `makePages(start, end, limit)` returns: the pages after `start`
   * towards `end`, all of them when fewer than `limit` are needed; otherwise
   * the first `limit - 2` followed by an ellipsis and `end` itself.
   */
  function Pages(start: int, end: int, limit: int): Jumps {
    var up := !(start > end);
    var d := Distance(start, end);
    if NoPages(start, end) then []
    else if limit <= 1 then Run(start, up, 1)
    else if d < limit then Run(start, up, d)
    else Run(start, up, limit - 2) + [None, Some(end)]
  }

  /** `makePages`: the do-while loop pushing onto `items`. */
  method MakePages(start: int, end: int, limit: int) returns (items: Jumps)
    ensures items == Pages(start, end, limit)
  {
    var up := !(start > end);
    if NoPages(start, end) {
      return [];
    }
    ghost var d := Distance(start, end);
    items := [];
    var more := true;
    while more
      invariant |items| <= d
      invariant more ==> items == Run(start, up, |items|) && |items| < d && (|items| == 0 || |items| <= limit - 2)
      invariant !more ==> items == Pages(start, end, limit)
      decreases d - |items| + (if more then 1 else 0)
    {
      var cur := Away(start, up, |items| + 1);
      var dist := if end - cur >= 0 then end - cur else cur - end;
      assert dist == d - |items| - 1;
      if |items| == limit - 2 && dist >= 1 {
        items := items + [None, Some(end)];
      } else {
        assert items + [Some(cur)] == Run(start, up, |items| + 1);
        items := items + [Some(cur)];
      }
      more := |items| < limit && dist > 0;
    }
  }

  lemma PagesLength(start: int, end: int, limit: int)
    requires limit >= 1
    ensures |Pages(start, end, limit)| <= limit
    ensures Pages(start, end, limit) == [] <==> NoPages(start, end)
  {
  }

  /** From 2 slots on, a non-empty list of pages always ends at `end`. */
  lemma PagesEndAtEnd(start: int, end: int, limit: int)
    requires limit >= 2 && !NoPages(start, end)
    ensures var r := Pages(start, end, limit); r != [] && r[|r| - 1] == Some(end)
  {
  }

  /** An ellipsis is emitted exactly when `end` is at least `limit` pages away. */
  lemma PagesEllipsis(start: int, end: int, limit: int)
    requires limit >= 2
    ensures None in Pages(start, end, limit) <==> !NoPages(start, end) && Distance(start, end) >= limit
    ensures |Pages(start, end, limit)| == if NoPages(start, end) then 0
                                         else if Distance(start, end) < limit then Distance(start, end)
                                         else limit
  {
    var r := Pages(start, end, limit);
    if !NoPages(start, end) && Distance(start, end) >= limit {
      assert r[limit - 2] == None;
    }
  }

  // ---------------------------------------------------------------------------
  // Well-formed page lists
  // ---------------------------------------------------------------------------

  /**
   * A page list from `lo` to `hi`: it starts and ends with those pages, its
   * pages strictly increase, neighbouring pages are consecutive, and every
   * ellipsis stands between two pages at least 2 apart.
   */
  predicate Chain(r: Jumps, lo: int, hi: int) {
    |r| >= 1 && r[0] == Some(lo) && r[|r| - 1] == Some(hi)
    && Increasing(r) && Consecutive(r) && Gaps(r)
  }

  predicate Increasing(r: Jumps) {
    forall i, j :: 0 <= i < j < |r| && r[i].Some? && r[j].Some? ==> r[i].value < r[j].value
  }

  predicate Consecutive(r: Jumps) {
    forall i :: 0 <= i < |r| - 1 && r[i].Some? && r[i + 1].Some? ==> r[i + 1].value == r[i].value + 1
  }

  predicate Gaps(r: Jumps) {
    forall i :: 0 < i < |r| - 1 && r[i].None? ==>
      r[i - 1].Some? && r[i + 1].Some? && r[i + 1].value - r[i - 1].value >= 2
  }

  function Reverse(s: Jumps): (r: Jumps)
    ensures |r| == |s|
    ensures forall i :: 0 <= i < |s| ==> r[i] == s[|s| - 1 - i]
  {
    seq(|s|, i requires 0 <= i < |s| => s[|s| - 1 - i])
  }

  function NegateItem(x: Option<int>): Option<int> {
    match x
    case None => None
    case Some(v) => Some(-v)
  }

  function Negate(s: Jumps): (r: Jumps)
    ensures |r| == |s|
    ensures forall i :: 0 <= i < |s| ==> r[i] == NegateItem(s[i])
  {
    seq(|s|, i requires 0 <= i < |s| => NegateItem(s[i]))
  }

  /** Counting downwards is counting upwards among the negated pages. */
  lemma PagesMirror(start: int, end: int, limit: int)
    requires start > end && start + end > 0
    ensures Pages(start, end, limit) == Negate(Pages(-start, -end, limit))
  {
  }

  /** The list mirrored around 0: negated and reversed. */
  function Mirror(r: Jumps): (m: Jumps)
    ensures |m| == |r|
    ensures forall i :: 0 <= i < |r| ==> m[i] == NegateItem(r[|r| - 1 - i])
  {
    Reverse(Negate(r))
  }

  lemma IncreasingMirror(r: Jumps)
    requires Increasing(r)
    ensures Increasing(Mirror(r))
  {
    var m := Mirror(r);
    var n := |r|;
    forall i, j | 0 <= i < j < n && m[i].Some? && m[j].Some?
      ensures m[i].value < m[j].value
    {
      assert r[n - 1 - j].value < r[n - 1 - i].value;
    }
  }

  lemma ConsecutiveMirror(r: Jumps)
    requires Consecutive(r)
    ensures Consecutive(Mirror(r))
  {
    var m := Mirror(r);
    var n := |r|;
    forall i | 0 <= i < n - 1 && m[i].Some? && m[i + 1].Some?
      ensures m[i + 1].value == m[i].value + 1
    {
      var k := n - 2 - i;
      assert m[i] == NegateItem(r[k + 1]) && m[i + 1] == NegateItem(r[k]);
    }
  }

  lemma GapsMirror(r: Jumps)
    requires Gaps(r) && |r| >= 1 && r[0].Some? && r[|r| - 1].Some?
    ensures Gaps(Mirror(r))
  {
    var m := Mirror(r);
    var n := |r|;
    forall i | 0 < i < n - 1 && m[i].None?
      ensures m[i - 1].Some? && m[i + 1].Some? && m[i + 1].value - m[i - 1].value >= 2
    {
      var k := n - 1 - i;
      assert m[i] == NegateItem(r[k]) && r[k].None?;
      assert m[i - 1] == NegateItem(r[k + 1]) && m[i + 1] == NegateItem(r[k - 1]);
    }
  }

  lemma ChainMirror(r: Jumps, lo: int, hi: int)
    requires Chain(r, lo, hi)
    ensures Chain(Mirror(r), -hi, -lo)
  {
    IncreasingMirror(r);
    ConsecutiveMirror(r);
    GapsMirror(r);
  }

  lemma IncreasingJoin(a: Jumps, b: Jumps, mid: int)
    requires |a| >= 1 && |b| >= 1 && a[|a| - 1] == Some(mid) && b[0] == Some(mid)
    requires Increasing(a) && Increasing(b)
    ensures Increasing(a + b[1..])
  {
    var r := a + b[1..];
    var n := |a|;
    forall i, j | 0 <= i < j < |r| && r[i].Some? && r[j].Some?
      ensures r[i].value < r[j].value
    {
      if j < n {
        assert r[i] == a[i] && r[j] == a[j];
      } else if i >= n {
        assert r[i] == b[i - n + 1] && r[j] == b[j - n + 1];
      } else {
        assert r[i] == a[i] && r[j] == b[j - n + 1];
        if i < n - 1 {
          assert a[i].value < a[n - 1].value;
        }
        assert b[0].value < b[j - n + 1].value;
      }
    }
  }

  lemma ConsecutiveJoin(a: Jumps, b: Jumps, mid: int)
    requires |a| >= 1 && |b| >= 1 && a[|a| - 1] == Some(mid) && b[0] == Some(mid)
    requires Consecutive(a) && Consecutive(b)
    ensures Consecutive(a + b[1..])
  {
    var r := a + b[1..];
    var n := |a|;
    forall i | 0 <= i < |r| - 1 && r[i].Some? && r[i + 1].Some?
      ensures r[i + 1].value == r[i].value + 1
    {
      if i < n - 1 {
        assert r[i] == a[i] && r[i + 1] == a[i + 1];
      } else {
        assert r[i] == b[i - n + 1] && r[i + 1] == b[i - n + 2];
      }
    }
  }

  lemma GapsJoin(a: Jumps, b: Jumps, mid: int)
    requires |a| >= 1 && |b| >= 1 && a[|a| - 1] == Some(mid) && b[0] == Some(mid)
    requires Gaps(a) && Gaps(b)
    ensures Gaps(a + b[1..])
  {
    var r := a + b[1..];
    var n := |a|;
    forall i | 0 < i < |r| - 1 && r[i].None?
      ensures r[i - 1].Some? && r[i + 1].Some? && r[i + 1].value - r[i - 1].value >= 2
    {
      if i < n - 1 {
        assert r[i - 1] == a[i - 1] && r[i] == a[i] && r[i + 1] == a[i + 1];
      } else {
        assert r[i - 1] == b[i - n] && r[i] == b[i - n + 1] && r[i + 1] == b[i - n + 2];
      }
    }
  }

  /** Two page lists sharing their meeting page join into one. */
  lemma ChainJoin(a: Jumps, b: Jumps, lo: int, mid: int, hi: int)
    requires Chain(a, lo, mid) && Chain(b, mid, hi)
    ensures Chain(a + b[1..], lo, hi)
  {
    IncreasingJoin(a, b, mid);
    ConsecutiveJoin(a, b, mid);
    GapsJoin(a, b, mid);
    var r := a + b[1..];
    if |b| == 1 {
      assert r == a;
    } else {
      assert r[|r| - 1] == b[|b| - 1];
    }
  }

  /** The pages upwards from `start`, with `start` in front, run from `start` to `end`. */
  lemma UpChain(start: int, end: int, limit: int)
    requires start <= end && limit >= 2
    ensures Chain([Some(start)] + Pages(start, end, limit), start, end)
  {
    var d := end - start;
    if d == 0 {
      assert Pages(start, end, limit) == [];
    } else if d < limit {
      assert Pages(start, end, limit) == Run(start, true, d);
      UpRunChain(start, d);
    } else {
      assert Pages(start, end, limit) == Run(start, true, limit - 2) + [None, Some(end)];
      UpCutChain(start, end, limit - 2);
    }
  }

  /** `start` followed by the next `n` pages runs from `start` to `start + n`. */
  lemma UpRunChain(start: int, n: nat)
    ensures Chain([Some(start)] + Run(start, true, n), start, start + n)
  {
    var r := [Some(start)] + Run(start, true, n);
    assert forall i :: 0 <= i < |r| ==> r[i] == Some(start + i);
  }

  /** `start`, the next `k` pages, an ellipsis and `end`, when `end` is at least 2 beyond the last of them. */
  lemma UpCutChain(start: int, end: int, k: nat)
    requires end - start >= k + 2
    ensures Chain([Some(start)] + (Run(start, true, k) + [None, Some(end)]), start, end)
  {
    var r := [Some(start)] + (Run(start, true, k) + [None, Some(end)]);
    assert forall i :: 0 <= i <= k ==> r[i] == Some(start + i);
    assert r[k + 1] == None && r[k + 2] == Some(end) && |r| == k + 3;
  }

  lemma MirrorCons(x: int, q: Jumps)
    ensures Mirror([Some(x)] + q) == Mirror(q) + [Some(-x)]
  {
    var m := Mirror([Some(x)] + q);
    assert forall i :: 0 <= i < |q| ==> m[i] == Mirror(q)[i];
  }

  lemma MirrorOfNegated(x: int, p: Jumps, q: Jumps)
    requires p == Negate(q)
    ensures Mirror([Some(-x)] + q) == Reverse(p) + [Some(x)]
  {
    MirrorCons(-x, q);
  }

  /** The pages downwards from `start` towards 1, reversed and followed by `start`, run from 1 to `start`. */
  lemma DownChain(start: int, limit: int)
    requires start >= 1 && limit >= 2
    ensures Chain(Reverse(Pages(start, 1, limit)) + [Some(start)], 1, start)
  {
    if start == 1 {
      assert NoPages(start, 1);
      assert Reverse([]) + [Some(start)] == [Some(1)];
    } else {
      DownChainAbove(start, limit);
    }
  }

  lemma DownChainAbove(start: int, limit: int)
    requires start > 1 && limit >= 2
    ensures Chain(Reverse(Pages(start, 1, limit)) + [Some(start)], 1, start)
  {
    var q := Pages(-start, -1, limit);
    var u := [Some(-start)] + q;
    UpChain(-start, -1, limit);
    ChainMirror(u, -start, -1);
    PagesMirror(start, 1, limit);
    MirrorOfNegated(start, Pages(start, 1, limit), q);
  }

  // ---------------------------------------------------------------------------
  // generatePageList
  // ---------------------------------------------------------------------------

  function Max(a: int, b: int): int {
    if a >= b then a else b
  }

  function Min(a: int, b: int): int {
    if a <= b then a else b
  }

  /** `safePage`: the current page clamped into range (1 wins when `pageCount` is below 1). */
  function SafePage(curPage: int, pageCount: int): (r: int)
    ensures r >= 1
    ensures pageCount >= 1 ==> r <= pageCount
    ensures 1 <= curPage <= pageCount ==> r == curPage
    ensures 1 <= pageCount < curPage ==> r == pageCount
    ensures curPage < 1 || pageCount < 1 ==> r == 1
  {
    Max(Min(curPage, pageCount), 1)
  }

  /** The slots below and above `safePage` when the near-the-end branch starts above `cut`. */
  function Halves(safePage: int, pageCount: int, cut: int): (Jumps, Jumps) {
    if safePage <= HalfMax then
      var below := Pages(safePage, 1, HalfMax);
      (below, Pages(safePage, pageCount, MaxPageLinks - |below| - 1))
    else if safePage > cut then
      var above := Pages(safePage, pageCount, HalfMax);
      (Pages(safePage, 1, MaxPageLinks - |above| - 1), above)
    else
      (Pages(safePage, 1, HalfMax), Pages(safePage, pageCount, HalfMax))
  }

  function PageListAt(curPage: int, pageCount: int, cut: int): Jumps {
    var safePage := SafePage(curPage, pageCount);
    var h := Halves(safePage, pageCount, cut);
    Reverse(h.0) + [Some(safePage)] + h.1
  }

  /** `generatePageList` as written: the near-the-end branch is taken for `safePage > pageCount - HALF_MAX - 1`. */
  function PageList(curPage: int, pageCount: int): Jumps {
    PageListAt(curPage, pageCount, pageCount - HalfMax - 1)
  }

  /** The near-the-end threshold the doc comment's examples call for: `safePage > pageCount - HALF_MAX`. */
  function PageListIntended(curPage: int, pageCount: int): Jumps {
    PageListAt(curPage, pageCount, pageCount - HalfMax)
  }

  /** `generatePageList`. */
  method GeneratePageList(curPage: int, pageCount: int) returns (list: Jumps)
    ensures list == PageList(curPage, pageCount)
  {
    var safePage := Max(Min(curPage, pageCount), 1);
    var belowPages: Jumps := [];
    var abovePages: Jumps := [];
    if safePage <= HalfMax {
      belowPages := MakePages(safePage, 1, HalfMax);
      abovePages := MakePages(safePage, pageCount, MaxPageLinks - |belowPages| - 1);
    } else if safePage > pageCount - HalfMax - 1 {
      abovePages := MakePages(safePage, pageCount, HalfMax);
      belowPages := MakePages(safePage, 1, MaxPageLinks - |abovePages| - 1);
    } else {
      belowPages := MakePages(safePage, 1, HalfMax);
      abovePages := MakePages(safePage, pageCount, HalfMax);
    }
    list := Reverse(belowPages) + [Some(safePage)] + abovePages;
  }

  /**
   * For any threshold, the list runs from page 1 to `pageCount` through
   * `safePage`: pages strictly increase, neighbours are consecutive,
   * ellipses stand for gaps of at least 2, and the clamped current page is in it.
   */
  lemma PageListChain(curPage: int, pageCount: int, cut: int)
    requires pageCount >= 1
    ensures var r := PageListAt(curPage, pageCount, cut);
      Chain(r, 1, pageCount) && Some(SafePage(curPage, pageCount)) in r
  {
    var sp := SafePage(curPage, pageCount);
    var h := Halves(sp, pageCount, cut);
    var lowLimit, highLimit := HalvesLimits(sp, pageCount, cut);
    DownChain(sp, lowLimit);
    UpChain(sp, pageCount, highLimit);
    var a := Reverse(h.0) + [Some(sp)];
    var b := [Some(sp)] + h.1;
    ChainJoin(a, b, 1, sp, pageCount);
    assert b[1..] == h.1;
    assert a + b[1..] == PageListAt(curPage, pageCount, cut);
    assert a[|a| - 1] == Some(sp);
  }

  /** Each half is a `makePages` list with at least 4 slots. */
  lemma HalvesLimits(sp: int, pageCount: int, cut: int) returns (lowLimit: int, highLimit: int)
    ensures var h := Halves(sp, pageCount, cut);
      h.0 == Pages(sp, 1, lowLimit) && lowLimit >= 4 && h.1 == Pages(sp, pageCount, highLimit) && highLimit >= 4
  {
    var h := Halves(sp, pageCount, cut);
    PagesLength(sp, 1, HalfMax);
    PagesLength(sp, pageCount, HalfMax);
    if sp <= HalfMax {
      lowLimit, highLimit := HalfMax, MaxPageLinks - |h.0| - 1;
    } else if sp > cut {
      lowLimit, highLimit := MaxPageLinks - |h.1| - 1, HalfMax;
    } else {
      lowLimit, highLimit := HalfMax, HalfMax;
    }
  }

  /** The page `safePage` occurs exactly once: every other entry is an ellipsis or a different page. */
  lemma SafePageOnce(curPage: int, pageCount: int, cut: int)
    requires pageCount >= 1
    ensures var r := PageListAt(curPage, pageCount, cut);
      forall i, j :: 0 <= i < j < |r| && r[i] == Some(SafePage(curPage, pageCount)) ==> r[j] != r[i]
  {
    PageListChain(curPage, pageCount, cut);
  }

  /** Every page shown is in range. */
  lemma PageListBounds(curPage: int, pageCount: int, cut: int)
    requires pageCount >= 1
    ensures var r := PageListAt(curPage, pageCount, cut);
      forall i :: 0 <= i < |r| && r[i].Some? ==> 1 <= r[i].value <= pageCount
  {
    PageListChain(curPage, pageCount, cut);
    var r := PageListAt(curPage, pageCount, cut);
    forall i | 0 <= i < |r| && r[i].Some?
      ensures 1 <= r[i].value <= pageCount
    {
      if 0 < i {
        assert r[0].value < r[i].value;
      }
      if i < |r| - 1 {
        assert r[i].value < r[|r| - 1].value;
      }
    }
  }

  /** An ellipsis occurs among the entries before, resp. after, the one holding page `p`. */
  predicate EllipsisBefore(r: Jumps, p: int) {
    exists i, j :: 0 <= i < j < |r| && r[i].None? && r[j] == Some(p)
  }

  predicate EllipsisAfter(r: Jumps, p: int) {
    exists i, j :: 0 <= j < i < |r| && r[i].None? && r[j] == Some(p)
  }

  /** Where the ellipses are, in terms of the two halves. */
  lemma EllipsisSides(curPage: int, pageCount: int, cut: int)
    requires pageCount >= 1
    ensures var sp := SafePage(curPage, pageCount);
      var h := Halves(sp, pageCount, cut);
      var r := PageListAt(curPage, pageCount, cut);
      |r| == |h.0| + 1 + |h.1|
      && (EllipsisBefore(r, sp) <==> None in h.0)
      && (EllipsisAfter(r, sp) <==> None in h.1)
  {
    var sp := SafePage(curPage, pageCount);
    var h := Halves(sp, pageCount, cut);
    var r := PageListAt(curPage, pageCount, cut);
    PageListChain(curPage, pageCount, cut);
    assert r == Reverse(h.0) + [Some(sp)] + h.1;
    assert r[|h.0|] == Some(sp);
    OnlyPlace(r, |h.0|);
    EllipsisSplit(h.0, sp, h.1);
  }

  /** In an increasing list a page occurs at one place only. */
  lemma OnlyPlace(r: Jumps, k: nat)
    requires Increasing(r) && k < |r| && r[k].Some?
    ensures forall i :: 0 <= i < |r| && r[i] == r[k] ==> i == k
  {
  }

  /**
   * In `a` reversed, then page `p`, then `b`, with `p` at that one place, an
   * ellipsis comes before `p` exactly when `a` holds one, and after it exactly when `b` does.
   */
  lemma EllipsisSplit(a: Jumps, p: int, b: Jumps)
    requires var r := Reverse(a) + [Some(p)] + b;
      forall i :: 0 <= i < |r| && r[i] == Some(p) ==> i == |a|
    ensures var r := Reverse(a) + [Some(p)] + b;
      (EllipsisBefore(r, p) <==> None in a) && (EllipsisAfter(r, p) <==> None in b)
  {
    var r := Reverse(a) + [Some(p)] + b;
    var n := |a|;
    assert r[n] == Some(p);
    assert forall i :: 0 <= i < n ==> r[i] == a[n - 1 - i];
    assert forall i :: n < i < |r| ==> r[i] == b[i - n - 1];
    if None in a {
      var k :| 0 <= k < n && a[k] == None;
      assert r[n - 1 - k].None?;
    }
    if EllipsisBefore(r, p) {
      var i, j :| 0 <= i < j < |r| && r[i].None? && r[j] == Some(p);
      assert a[n - 1 - i] == None;
    }
    if None in b {
      var k :| 0 <= k < |b| && b[k] == None;
      assert r[n + 1 + k].None?;
    }
    if EllipsisAfter(r, p) {
      var i, j :| 0 <= j < i < |r| && r[i].None? && r[j] == Some(p);
      assert b[i - n - 1] == None;
    }
  }

  /**
   * As written: at most 10 entries, or 11 and then with ellipses on both
   * sides of the current page (the converse fails, see `Example293AsWritten`).
   */
  lemma PageListLength(curPage: int, pageCount: int)
    requires pageCount >= 1
    ensures var r := PageList(curPage, pageCount); var sp := SafePage(curPage, pageCount);
      |r| <= 10 || (|r| == 11 && EllipsisBefore(r, sp) && EllipsisAfter(r, sp))
  {
    var sp := SafePage(curPage, pageCount);
    EllipsisSides(curPage, pageCount, pageCount - HalfMax - 1);
    PagesEllipsis(sp, 1, HalfMax);
    PagesEllipsis(sp, pageCount, HalfMax);
    var h := Halves(sp, pageCount, pageCount - HalfMax - 1);
    if sp <= HalfMax {
      PagesEllipsis(sp, pageCount, MaxPageLinks - |h.0| - 1);
    } else if sp > pageCount - HalfMax - 1 {
      PagesEllipsis(sp, 1, MaxPageLinks - |h.1| - 1);
    }
  }

  /**
   * With the intended threshold the doc comment's rule holds both ways: 11
   * entries exactly when there are ellipses on both sides, 10 at most otherwise.
   */
  lemma PageListIntendedLength(curPage: int, pageCount: int)
    requires pageCount >= 1
    ensures var r := PageListIntended(curPage, pageCount); var sp := SafePage(curPage, pageCount);
      |r| <= 11
      && (|r| == 11 <==> EllipsisBefore(r, sp) && EllipsisAfter(r, sp))
  {
    var sp := SafePage(curPage, pageCount);
    EllipsisSides(curPage, pageCount, pageCount - HalfMax);
    PagesEllipsis(sp, 1, HalfMax);
    PagesEllipsis(sp, pageCount, HalfMax);
    var h := Halves(sp, pageCount, pageCount - HalfMax);
    if sp <= HalfMax {
      PagesEllipsis(sp, pageCount, MaxPageLinks - |h.0| - 1);
    } else if sp > pageCount - HalfMax {
      PagesEllipsis(sp, 1, MaxPageLinks - |h.1| - 1);
    }
  }

  /** With no items the page count is 0 and the list still shows page 1, then page 0. */
  lemma EmptyCountList(curPage: int)
    ensures PageList(curPage, 0) == [Some(1), Some(0)]
  {
    assert Pages(1, 1, HalfMax) == [];
    assert Pages(1, 0, MaxPageLinks - 1) == [Some(0)];
  }

  // ---------------------------------------------------------------------------
  // The doc comment's examples
  // ---------------------------------------------------------------------------

  lemma Example1()
    ensures PageList(1, 298) == [Some(1), Some(2), Some(3), Some(4), Some(5), Some(6), Some(7), Some(8), None, Some(298)]
  {
  }

  lemma Example5()
    ensures PageList(5, 298) == [Some(1), Some(2), Some(3), Some(4), Some(5), Some(6), Some(7), Some(8), None, Some(298)]
  {
  }

  lemma Example6()
    ensures PageList(6, 298) == [Some(1), None, Some(3), Some(4), Some(5), Some(6), Some(7), Some(8), Some(9), None, Some(298)]
  {
  }

  lemma Example8()
    ensures PageList(8, 298) == [Some(1), None, Some(5), Some(6), Some(7), Some(8), Some(9), Some(10), Some(11), None, Some(298)]
  {
  }

  /** The doc comment lists 1 · ... · 290 · 291 · 292 · [293] · 294 · 295 · 296 · ... · 298; the code drops 290. */
  lemma Example293AsWritten()
    ensures PageList(293, 298) == [Some(1), None, Some(291), Some(292), Some(293), Some(294), Some(295), Some(296), None, Some(298)]
  {
  }

  lemma Example293Intended()
    ensures PageListIntended(293, 298) == [Some(1), None, Some(290), Some(291), Some(292), Some(293), Some(294), Some(295), Some(296), None, Some(298)]
  {
  }

  lemma Example294()
    ensures PageList(294, 298) == [Some(1), None, Some(291), Some(292), Some(293), Some(294), Some(295), Some(296), Some(297), Some(298)]
    ensures PageListIntended(294, 298) == PageList(294, 298)
  {
  }

  lemma Example298()
    ensures PageList(298, 298) == [Some(1), None, Some(291), Some(292), Some(293), Some(294), Some(295), Some(296), Some(297), Some(298)]
    ensures PageListIntended(298, 298) == PageList(298, 298)
  {
  }

  lemma Example429()
    ensures PageList(429, 371) == [Some(1), None, Some(364), Some(365), Some(366), Some(367), Some(368), Some(369), Some(370), Some(371)]
    ensures PageListIntended(429, 371) == PageList(429, 371)
  {
  }

  // ---------------------------------------------------------------------------
  // The control: links, Prev and Next
  // ---------------------------------------------------------------------------

  datatype Link = Ellipsis | Current(page: int) | Jump(page: int) | Prev(page: int) | Next(page: int)

  /** How one entry of the list is drawn: note the comparison is with `curPage`, not the clamped page. */
  function LinkOf(x: Option<int>, curPage: int): Link {
    match x
    case None => Ellipsis
    case Some(p) => if p == curPage then Current(p) else Jump(p)
  }

  /** The entries of a page list drawn as links. */
  function Drawn(list: Jumps, curPage: int): (r: seq<Link>)
    ensures |r| == |list|
    ensures forall i :: 0 <= i < |list| ==> r[i] == LinkOf(list[i], curPage)
  {
    seq(|list|, i requires 0 <= i < |list| => LinkOf(list[i], curPage))
  }

  /** The drawn list, then Prev when there is an earlier page and Next when there is a later one. */
  function WithArrows(list: Jumps, curPage: int, pageCount: int): seq<Link> {
    Drawn(list, curPage)
      + (if curPage > 1 then [Prev(curPage - 1)] else [])
      + (if curPage < pageCount then [Next(curPage + 1)] else [])
  }

  /** What the control shows: the drawn entries first, and Prev, resp. Next, exactly when it applies. */
  lemma WithArrowsShape(list: Jumps, curPage: int, pageCount: int)
    ensures var links := WithArrows(list, curPage, pageCount);
      && |links| == |list| + (if curPage > 1 then 1 else 0) + (if curPage < pageCount then 1 else 0)
      && (forall i :: 0 <= i < |list| ==> links[i] == LinkOf(list[i], curPage))
      && ((exists i :: 0 <= i < |links| && links[i].Prev?) <==> curPage > 1)
      && ((exists i :: 0 <= i < |links| && links[i].Next?) <==> curPage < pageCount)
      && (curPage > 1 ==> Prev(curPage - 1) in links)
      && (curPage < pageCount ==> Next(curPage + 1) in links)
  {
    var links := WithArrows(list, curPage, pageCount);
    var d := Drawn(list, curPage);
    var n := |list|;
    assert forall i :: 0 <= i < n ==> links[i] == d[i];
    assert forall i :: 0 <= i < n ==> !d[i].Prev? && !d[i].Next?;
    if curPage > 1 {
      assert links[n] == Prev(curPage - 1);
    }
    if curPage < pageCount {
      assert links[|links| - 1] == Next(curPage + 1);
    }
    assert forall i :: n <= i < |links| ==> links[i].Prev? ==> curPage > 1 && i == n;
    assert forall i :: n <= i < |links| ==> links[i].Next? ==> curPage < pageCount;
  }

  /** `PageControl`: the list drawn as links, then Prev and Next pushed when they apply. */
  method Links(count: int, pageSize: int, start: int) returns (links: seq<Link>)
    requires pageSize >= 1
    ensures var (curPage, pageCount) := CalcPage(count, pageSize, start);
      links == WithArrows(PageList(curPage, pageCount), curPage, pageCount)
  {
    var (curPage, pageCount) := CalcPage(count, pageSize, start);
    var list := GeneratePageList(curPage, pageCount);
    links := seq(|list|, i requires 0 <= i < |list| => LinkOf(list[i], curPage));
    if curPage > 1 {
      links := links + [Prev(curPage - 1)];
    }
    if curPage < pageCount {
      links := links + [Next(curPage + 1)];
    }
    assert links == WithArrows(list, curPage, pageCount);
  }
}
