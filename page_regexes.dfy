/**
 * Hand-written matchers for the regular expressions the page extractors of
 * server/scripts/loader.ts and loader.js apply to attribute values, cell
 * texts and file lines:
 *
 *   FORUM_ID_REGEX     /forumid=(\d+)/i
 *   POST_ID_REGEX      /replyid=(\d+)/i
 *   POST_TIME_REGEX    /Posted: ([\w,:@ ]+)/
 *   POST_CONTENT_REGEX /<div class="mesagearea" id="messagearea">(.*?)<\/div>/
 *   RENDER_TIME_REGEX  /(?:<b>)?Time:(?:<\/b>)? ([\w,: ]+)/
 *
 * Each is a test "a match begins here" plus a leftmost search (the
 * `Search` of FileKinds), and `exec(...)?.[1]` is the first capture of the
 * leftmost match.
 */
module PageRegexes {
  import opened Wrappers
  import opened Text
  import opened FileKinds

  const ForumIdLiteral := "forumid="
  const ReplyIdLiteral := "replyid="
  const ContentOpen := "<div class=\"mesagearea\" id=\"messagearea\">"
  const ContentClose := "</div>"

  /** Length of the longest run at the start of `s` of characters satisfying `inClass`. */
  function RunOf(s: string, inClass: char -> bool): (n: nat)
    ensures n <= |s|
    ensures forall i :: 0 <= i < n ==> inClass(s[i])
    ensures n < |s| ==> !inClass(s[n])
  {
    if s != [] && inClass(s[0]) then 1 + RunOf(s[1..], inClass) else 0
  }

  /** `\w`. */
  predicate IsWordChar(c: char) {
    'a' <= c <= 'z' || 'A' <= c <= 'Z' || IsDigit(c) || c == '_'
  }

  /** `[\w,:@ ]`. */
  predicate IsPostTimeChar(c: char) {
    IsWordChar(c) || c == ',' || c == ':' || c == '@' || c == ' '
  }

  /** `[\w,: ]`. */
  predicate IsRenderTimeChar(c: char) {
    IsWordChar(c) || c == ',' || c == ':' || c == ' '
  }

  // ---------------------------------------------------------------------------
  // /lit(\d+)/i
  // ---------------------------------------------------------------------------

  /** The capture of `/lit(\d+)/i` for a match that begins at the start of `t` (`lit` lower-case). */
  function IdHere(lit: string, t: string): (r: Option<string>)
    ensures r.Some? ==> r.value != [] && AllDigits(r.value)
    ensures r.Some? ==> LowerPrefix(t, lit)
  {
    if LowerPrefix(t, lit) && DigitRun(t[|lit|..]) > 0
    then Some(t[|lit|..][..DigitRun(t[|lit|..])])
    else None
  }

  function IdMatcher(lit: string): string -> bool {
    t => IdHere(lit, t).Some?
  }

  /** `/lit(\d+)/i.exec(s)?.[1]`: the digits after the leftmost occurrence of `lit` that has any. */
  function IdExec(lit: string, s: string): (r: Option<string>)
    ensures r.Some? <==> Search(IdMatcher(lit), s, 0).Some?
    ensures r.Some? ==> r.value != [] && AllDigits(r.value)
    ensures r.Some? ==> r == IdHere(lit, s[Search(IdMatcher(lit), s, 0).value..])
  {
    match Search(IdMatcher(lit), s, 0)
    case None => None
    case Some(i) => IdHere(lit, s[i..])
  }

  /** A string that begins with `lit` and a maximal run of digits gives back those digits. */
  lemma IdExecOfPrefix(lit: string, digits: string, rest: string)
    requires IsLower(lit)
    requires digits != [] && AllDigits(digits)
    requires rest == [] || !IsDigit(rest[0])
    ensures IdExec(lit, lit + digits + rest) == Some(digits)
  {
    var s := lit + digits + rest;
    LowerOfLower(lit);
    assert s[..|lit|] == lit;
    var t := s[|lit|..];
    assert t == digits + rest;
    DigitRunOfDigits(digits, rest);
    assert t[..|digits|] == digits;
    assert IdHere(lit, s[0..]) == Some(digits);
  }

  /** A string with no occurrence of `lit`, in any case, has no match. */
  lemma IdExecAbsent(lit: string, s: string)
    requires forall i :: 0 <= i <= |s| ==> !LowerPrefix(s[i..], lit)
    ensures IdExec(lit, s).None?
  {
  }

  // ---------------------------------------------------------------------------
  // POST_TIME_REGEX
  // ---------------------------------------------------------------------------

  /**
   * A match of POST_TIME_REGEX at the start of `t`: the literal "Posted: ",
   * then the greedy `[\w,:@ ]+`, which ends at the end of `t` or at the
   * first character outside the class.
   */
  function PostTimeHere(t: string): (r: Option<string>)
    ensures r.Some? ==> r.value != [] && forall i :: 0 <= i < |r.value| ==> IsPostTimeChar(r.value[i])
    ensures r.Some? ==> StartsWith(t, "Posted: ") && 8 + |r.value| <= |t| && t[8..8 + |r.value|] == r.value
    ensures r.Some? ==> 8 + |r.value| == |t| || !IsPostTimeChar(t[8 + |r.value|])
    ensures r.None? <==> !StartsWith(t, "Posted: ") || t[8..] == [] || !IsPostTimeChar(t[8])
  {
    if StartsWith(t, "Posted: ") && RunOf(t[8..], IsPostTimeChar) > 0
    then Some(t[8..][..RunOf(t[8..], IsPostTimeChar)])
    else None
  }

  function PostTimeMatcher(): string -> bool {
    t => PostTimeHere(t).Some?
  }

  /** `POST_TIME_REGEX.exec(s)?.[1]`. */
  function PostTimeExec(s: string): (r: Option<string>)
    ensures r.Some? <==> Search(PostTimeMatcher(), s, 0).Some?
    ensures r.Some? ==> r.value != [] && forall i :: 0 <= i < |r.value| ==> IsPostTimeChar(r.value[i])
    ensures r.Some? ==> r == PostTimeHere(s[Search(PostTimeMatcher(), s, 0).value..])
  {
    match Search(PostTimeMatcher(), s, 0)
    case None => None
    case Some(i) => PostTimeHere(s[i..])
  }

  /**
   * A cell text that begins with "Posted: " and a maximal run of post-time
   * characters yields exactly that run.
   */
  lemma PostTimeOfPrefix(v: string, rest: string)
    requires v != [] && forall i :: 0 <= i < |v| ==> IsPostTimeChar(v[i])
    requires rest == [] || !IsPostTimeChar(rest[0])
    ensures PostTimeExec("Posted: " + v + rest) == Some(v)
  {
    var s := "Posted: " + v + rest;
    LiteralThen("Posted: ", v + rest);
    assert s == "Posted: " + (v + rest);
    RunOfThen(v, rest, IsPostTimeChar);
    assert (v + rest)[..|v|] == v;
    assert PostTimeHere(s) == Some(v);
    assert s[0..] == s;
    assert PostTimeMatcher()(s[0..]);
  }

  // ---------------------------------------------------------------------------
  // POST_CONTENT_REGEX
  // ---------------------------------------------------------------------------

  /**
   * The lazy `(.*?)<\/div>` at the start of `u`: the first `j` at which
   * "</div>" begins, provided no line terminator comes before it (`.` does
   * not match one).
   */
  function LazyClose(u: string, j: nat): (r: Option<nat>)
    requires j <= |u|
    ensures r.Some? ==> j <= r.value <= |u| && StartsWith(u[r.value..], ContentClose)
    ensures r.Some? ==> forall k :: j <= k < r.value ==> !StartsWith(u[k..], ContentClose) && !IsLineTerminator(u[k])
    decreases |u| - j
  {
    if StartsWith(u[j..], ContentClose) then Some(j)
    else if j == |u| || IsLineTerminator(u[j]) then None
    else LazyClose(u, j + 1)
  }

  function ContentHere(t: string): (r: Option<string>)
    ensures r.Some? ==> StartsWith(t, ContentOpen)
  {
    if !StartsWith(t, ContentOpen) then None
    else
      var u := t[|ContentOpen|..];
      match LazyClose(u, 0)
      case None => None
      case Some(j) => Some(u[..j])
  }

  function ContentMatcher(): string -> bool {
    t => ContentHere(t).Some?
  }

  /** `POST_CONTENT_REGEX.exec(line)?.[1]`. */
  function ContentExec(line: string): (r: Option<string>)
    ensures r.Some? <==> Search(ContentMatcher(), line, 0).Some?
  {
    match Search(ContentMatcher(), line, 0)
    case None => None
    case Some(i) => ContentHere(line[i..])
  }

  /** A line that is exactly an opening tag, a body without "</div>" or line break, and "</div>" yields that body. */
  lemma ContentOfWrappedLine(body: string, rest: string)
    requires forall k :: 0 <= k < |body| ==> !IsLineTerminator(body[k]) && !StartsWith(body[k..] + (ContentClose + rest), ContentClose)
    ensures ContentExec(ContentOpen + body + ContentClose + rest) == Some(body)
  {
    var line := ContentOpen + body + ContentClose + rest;
    var u := line[|ContentOpen|..];
    assert u == body + (ContentClose + rest);
    assert line[..|ContentOpen|] == ContentOpen;
    assert (ContentClose + rest)[..|ContentClose|] == ContentClose;
    LazyCloseSkips(body, ContentClose + rest, 0);
    assert u[|body|..] == ContentClose + rest;
    assert u[..|body|] == body;
    assert StartsWith(line, ContentOpen);
    assert ContentHere(line) == Some(body);
    assert line[0..] == line;
  }

  lemma LazyCloseSkips(body: string, tail: string, j: nat)
    requires j <= |body|
    requires StartsWith(tail, ContentClose)
    requires forall k :: 0 <= k < |body| ==> !IsLineTerminator(body[k]) && !StartsWith(body[k..] + tail, ContentClose)
    ensures LazyClose(body + tail, j) == Some(|body|)
    decreases |body| - j
  {
    var u := body + tail;
    if j == |body| {
      assert u[j..] == tail;
    } else {
      assert u[j..] == body[j..] + tail;
      assert u[j] == body[j];
      LazyCloseSkips(body, tail, j + 1);
    }
  }

  // ---------------------------------------------------------------------------
  // RENDER_TIME_REGEX
  // ---------------------------------------------------------------------------

  /**
   * A match of RENDER_TIME_REGEX at the start of `t`. Backtracking out of
   * either optional group cannot produce another match: without "<b>" the
   * match would need "Time:" where `t` has '<', and without "</b>" it would
   * need ' ' where `t` has '<'.
   */
  function RenderTimeHere(t: string): (r: Option<string>)
    ensures r.Some? ==> r.value != [] && forall i :: 0 <= i < |r.value| ==> IsRenderTimeChar(r.value[i])
  {
    match TimeLabel(t)
    case None => None
    case Some(v) => TimeValueAt(SkipBoldClose(v))
  }

  /** `(?:<b>)?Time:`: what follows the label, if `t` starts with one. */
  function TimeLabel(t: string): Option<string> {
    if StartsWith(t, "<b>Time:") then Some(t[8..])
    else if StartsWith(t, "Time:") then Some(t[5..])
    else None
  }

  /** `(?:<\/b>)?`, taken when present. */
  function SkipBoldClose(v: string): string {
    if StartsWith(v, "</b>") then v[4..] else v
  }

  /** ` ([\w,: ]+)`: a space, then the captured run. */
  function TimeValueAt(w: string): (r: Option<string>)
    ensures r.Some? ==> r.value != [] && forall i :: 0 <= i < |r.value| ==> IsRenderTimeChar(r.value[i])
  {
    if w != [] && w[0] == ' ' && RunOf(w[1..], IsRenderTimeChar) > 0
    then Some(w[1..][..RunOf(w[1..], IsRenderTimeChar)])
    else None
  }

  function RenderTimeMatcher(): string -> bool {
    t => RenderTimeHere(t).Some?
  }

  /** `RENDER_TIME_REGEX.exec(s)?.[1]`. */
  function RenderTimeExec(s: string): (r: Option<string>)
    ensures r.Some? <==> Search(RenderTimeMatcher(), s, 0).Some?
    ensures r.Some? ==> r.value != []
  {
    match Search(RenderTimeMatcher(), s, 0)
    case None => None
    case Some(i) => RenderTimeHere(s[i..])
  }

  /** Both footer spellings the source's comment names are read. */
  lemma RenderTimeSpellings(v: string)
    requires v != [] && forall i :: 0 <= i < |v| ==> IsRenderTimeChar(v[i])
    ensures RenderTimeExec("<b>Time:</b> " + v) == Some(v)
    ensures RenderTimeExec("Time: " + v) == Some(v)
  {
    RunOfAll(v, IsRenderTimeChar);
    BoldSpelling(v);
    PlainSpelling(v);
  }

  lemma BoldSpelling(v: string)
    requires v != [] && RunOf(v, IsRenderTimeChar) == |v|
    ensures RenderTimeExec("<b>Time:</b> " + v) == Some(v)
  {
    assert "<b>Time:</b> " + v == "<b>Time:" + ("</b>" + (" " + v));
    BoldHere(v);
    ExecAtStart("<b>Time:</b> " + v);
  }

  lemma PlainSpelling(v: string)
    requires v != [] && RunOf(v, IsRenderTimeChar) == |v|
    ensures RenderTimeExec("Time: " + v) == Some(v)
  {
    assert "Time: " + v == "Time:" + (" " + v);
    PlainHere(v);
    ExecAtStart("Time: " + v);
  }

  lemma BoldHere(v: string)
    requires v != [] && RunOf(v, IsRenderTimeChar) == |v|
    ensures RenderTimeHere("<b>Time:" + ("</b>" + (" " + v))) == Some(v)
  {
    var c := "</b>" + (" " + v);
    LiteralThen("<b>Time:", c);
    LiteralThen("</b>", " " + v);
    TimeValue(v);
  }

  lemma PlainHere(v: string)
    requires v != [] && RunOf(v, IsRenderTimeChar) == |v|
    ensures RenderTimeHere("Time:" + (" " + v)) == Some(v)
  {
    var w := " " + v;
    var b := "Time:" + w;
    assert !StartsWith(b, "<b>Time:") by { assert b[0] == 'T'; }
    LiteralThen("Time:", w);
    assert !StartsWith(w, "</b>") by { assert w[0] == ' '; }
    TimeValue(v);
  }

  /** A literal followed by anything starts with that literal, and what follows it is the rest. */
  lemma LiteralThen(lit: string, rest: string)
    ensures StartsWith(lit + rest, lit) && (lit + rest)[|lit|..] == rest
  {
    assert (lit + rest)[..|lit|] == lit;
  }

  /** After the space, the whole run of time characters is captured. */
  lemma TimeValue(v: string)
    requires v != [] && RunOf(v, IsRenderTimeChar) == |v|
    ensures TimeValueAt(" " + v) == Some(v)
  {
    var w := " " + v;
    assert w[0] == ' ';
    assert w[1..] == v;
    assert v[..|v|] == v;
  }

  /** A match at the very start is the one `exec` finds. */
  lemma ExecAtStart(s: string)
    requires RenderTimeHere(s).Some?
    ensures RenderTimeExec(s) == RenderTimeHere(s)
  {
    assert s[0..] == s;
    assert RenderTimeMatcher()(s[0..]);
  }

  /** The run of a class over `v + rest` is all of `v` when `rest` does not continue it. */
  lemma RunOfThen(v: string, rest: string, inClass: char -> bool)
    requires forall i :: 0 <= i < |v| ==> inClass(v[i])
    requires rest == [] || !inClass(rest[0])
    ensures RunOf(v + rest, inClass) == |v|
  {
    if v != [] {
      assert (v + rest)[1..] == v[1..] + rest;
      RunOfThen(v[1..], rest, inClass);
    } else {
      assert v + rest == rest;
    }
  }

  lemma RunOfAll(v: string, inClass: char -> bool)
    requires forall i :: 0 <= i < |v| ==> inClass(v[i])
    ensures RunOf(v, inClass) == |v|
  {
    if v != [] {
      RunOfAll(v[1..], inClass);
    }
  }
}
