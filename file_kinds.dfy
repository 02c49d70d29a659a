/**
 * The importer's filename patterns (loader.ts:27-31 and loader.js:7-9),
 * written out as matchers. All of them are searched for anywhere in the
 * name (`RegExp.prototype.test` / `exec` without anchors, except the `$` of
 * the plain home pattern) and compared without regard to ASCII case (the `i`
 * flag). In the TypeScript patterns the page parameter follows `index.cfm`
 * with an unescaped `.`, which stands for any character but a line
 * terminator, and a separator `?`, `%3F` or `_`; the JavaScript patterns have
 * no such prefix.
 */
module FileKinds {
  import opened Wrappers
  import opened Text

  datatype Kind = HomeCategory | Home | UserInfo | ForumPage | TopicPage

  /** A filename pattern: its kind, and whether it carries the `index.cfm` prefix. */
  datatype Pattern = Pattern(kind: Kind, prefixed: bool)

  /** The captures of a match: the id group (empty for the plain home page) and the `start` group. */
  datatype FileMatch = FileMatch(id: string, start: Option<string>)

  /** `FILE_PROCESSORS` of loader.ts, in processing order. */
  const TsProcessors: seq<Pattern> := [
    Pattern(HomeCategory, true), Pattern(Home, true), Pattern(UserInfo, true),
    Pattern(ForumPage, true), Pattern(TopicPage, true)]

  /** `FILE_PROCESSORS` of loader.js, in processing order. */
  const JsProcessors: seq<Pattern> := [Pattern(HomeCategory, false), Pattern(Home, false), Pattern(UserInfo, false)]

  /** The literal part of each pattern after the separator. */
  function Body(k: Kind): string {
    match k
    case HomeCategory => "page=home&categoryid="
    case Home => "page=home"
    case UserInfo => "page=userinfo&viewuserid="
    case ForumPage => "page=forum&forumid="
    case TopicPage => "page=topic&topicid="
  }

  /**
   * `t` starts with the lower-case literal `lit` when case is ignored; for a
   * lower-case literal this is `StartsWithIgnoreCase` (see `LowerPrefixIgnoresCase`).
   */
  predicate LowerPrefix(t: string, lit: string) {
    |lit| <= |t| && Lower(t[..|lit|]) == lit
  }

  lemma LowerPrefixIgnoresCase(t: string, lit: string)
    requires IsLower(lit)
    ensures LowerPrefix(t, lit) <==> StartsWithIgnoreCase(t, lit)
  {
    LowerOfLower(lit);
  }

  predicate IsLineTerminator(c: char) {
    c == '\n' || c == '\r' || c == '\U{2028}' || c == '\U{2029}'
  }

  /** Length of the separator `(?:\?|%3F|_)` at the start of `t`, or 0 if there is none. */
  function SeparatorLength(t: string): (n: nat)
    ensures n <= |t|
  {
    if t != [] && t[0] == '?' then 1
    else if LowerPrefix(t, "%3f") then 3
    else if t != [] && t[0] == '_' then 1
    else 0
  }

  /** Length of `index.cfm(?:\?|%3F|_)` at the start of `t`. */
  function PrefixLength(t: string): (r: Option<nat>)
    ensures r.Some? ==> r.value <= |t|
  {
    if LowerPrefix(t, "index") && |t| > 5 && !IsLineTerminator(t[5])
       && LowerPrefix(t[6..], "cfm")
    then
      var n := SeparatorLength(t[9..]);
      if n > 0 then Some(9 + n) else None
    else None
  }

  /** The optional `(?:&start=(\d+))?` group at the start of `t`: greedy, so taken when present. */
  function StartGroup(t: string): (r: Option<string>)
    ensures r.Some? ==> r.value != [] && AllDigits(r.value)
  {
    if LowerPrefix(t, "&start=") && DigitRun(t[7..]) > 0
    then Some(t[7..][..DigitRun(t[7..])])
    else None
  }

  /** The part of a pattern after the separator, at the start of `u`. */
  function MatchBody(k: Kind, u: string): (r: Option<FileMatch>)
    ensures r.Some? && k != Home ==> r.value.id != [] && AllDigits(r.value.id)
  {
    var body := Body(k);
    if !LowerPrefix(u, body) then None
    else
      var v := u[|body|..];
      if k == Home then
        if v == [] then Some(FileMatch([], None)) else None
      else
        var n := DigitRun(v);
        if n == 0 then None
        else
          var start := if k == ForumPage || k == TopicPage then StartGroup(v[n..]) else None;
          Some(FileMatch(v[..n], start))
  }

  /** A match of `p` that begins at the first character of `t`. */
  function MatchHere(p: Pattern, t: string): (r: Option<FileMatch>)
    ensures r.Some? && p.kind != Home ==> r.value.id != [] && AllDigits(r.value.id)
  {
    if p.prefixed then
      match PrefixLength(t)
      case None => None
      case Some(j) => MatchBody(p.kind, t[j..])
    else MatchBody(p.kind, t)
  }

  /** The test "a match of `p` begins here", as a value. */
  function Matcher(p: Pattern): string -> bool {
    t => MatchHere(p, t).Some?
  }

  /** The first index `i` at or after `from` at which `here(s[i..])` holds: a regular expression search. */
  function Search(here: string -> bool, s: string, from: nat): (r: Option<nat>)
    requires from <= |s|
    ensures r.Some? ==> from <= r.value <= |s| && here(s[r.value..])
    ensures r.Some? ==> forall i :: from <= i < r.value ==> !here(s[i..])
    ensures r.None? ==> forall i :: from <= i <= |s| ==> !here(s[i..])
    decreases |s| - from
  {
    if here(s[from..]) then Some(from)
    else if from == |s| then None
    else Search(here, s, from + 1)
  }

  /** `regex.exec(s)`: the captures of the leftmost match. */
  function Exec(p: Pattern, s: string): (r: Option<FileMatch>)
    ensures r.Some? <==> Search(Matcher(p), s, 0).Some?
    ensures r.Some? ==> r == MatchHere(p, s[Search(Matcher(p), s, 0).value..])
    ensures r.Some? && p.kind != Home ==> r.value.id != [] && AllDigits(r.value.id)
  {
    match Search(Matcher(p), s, 0)
    case Some(i) => MatchHere(p, s[i..])
    case None => None
  }

  /** `regex.test(s)`. */
  predicate Test(p: Pattern, s: string) {
    Search(Matcher(p), s, 0).Some?
  }

  lemma SearchWitness(here: string -> bool, s: string, i: nat)
    requires i <= |s| && here(s[i..])
    ensures Search(here, s, 0).Some?
  {
  }

  lemma SearchBeforeSuffix(here: string -> bool, a: string, b: string)
    requires Search(here, a, 0).Some?
    requires here(a[Search(here, a, 0).value..] + b)
    ensures Search(here, a + b, 0).Some?
  {
    var i := Search(here, a, 0).value;
    assert (a + b)[i..] == a[i..] + b;
    SearchWitness(here, a + b, i);
  }

  lemma SearchAfterPrefix(here: string -> bool, a: string, b: string)
    requires Search(here, b, 0).Some?
    ensures Search(here, a + b, 0).Some?
  {
    var i := Search(here, b, 0).value;
    assert (a + b)[|a| + i..] == b[i..];
    SearchWitness(here, a + b, |a| + i);
  }

  /** `Array.prototype.findIndex`: the first index whose element satisfies `f`. */
  function FindFirst<T>(xs: seq<T>, f: T -> bool): (r: Option<nat>)
    ensures r.Some? ==> r.value < |xs| && f(xs[r.value])
    ensures r.Some? ==> forall j :: 0 <= j < r.value ==> !f(xs[j])
    ensures r.None? <==> forall j :: 0 <= j < |xs| ==> !f(xs[j])
  {
    if xs == [] then None
    else if f(xs[0]) then Some(0)
    else
      assert forall j :: 1 <= j < |xs| ==> xs[1..][j - 1] == xs[j];
      match FindFirst(xs[1..], f)
      case None => None
      case Some(k) => Some(k + 1)
  }

  /** The patterns `s` matches, as a value. */
  function TestedBy(s: string): Pattern -> bool {
    p => Test(p, s)
  }

  /** The first pattern of `ps` (as an index) that `s` matches, as `FILE_PROCESSORS.find` picks it. */
  function FirstMatch(s: string, ps: seq<Pattern>): Option<nat> {
    FindFirst(ps, TestedBy(s))
  }

  // ---------------------------------------------------------------------------
  // Properties
  // ---------------------------------------------------------------------------

  /** A match anywhere in `b` is still a match once anything is put in front. */
  lemma {:induction false} TestAfterPrefix(p: Pattern, a: string, b: string)
    requires Test(p, b)
    ensures Test(p, a + b)
  {
    SearchAfterPrefix(Matcher(p), a, b);
  }

  lemma LowerPrefixExtends(t: string, u: string, lit: string)
    requires LowerPrefix(t, lit)
    ensures LowerPrefix(t + u, lit)
  {
    assert (t + u)[..|lit|] == t[..|lit|];
  }

  lemma DigitRunExtends(t: string, u: string)
    ensures DigitRun(t) == |t| ==> DigitRun(t + u) >= |t|
    ensures DigitRun(t) < |t| ==> DigitRun(t + u) == DigitRun(t)
  {
    if t != [] {
      assert (t + u)[1..] == t[1..] + u;
      DigitRunExtends(t[1..], u);
    }
  }

  lemma PrefixLengthExtends(t: string, u: string)
    requires PrefixLength(t).Some?
    ensures PrefixLength(t + u) == PrefixLength(t)
  {
    LowerPrefixExtends(t, u, "index");
    assert (t + u)[6..] == t[6..] + u;
    LowerPrefixExtends(t[6..], u, "cfm");
    assert (t + u)[9..] == t[9..] + u;
    if t[9..] != [] {
      assert (t + u)[9..][0] == t[9..][0];
    }
    if LowerPrefix(t[9..], "%3f") {
      LowerPrefixExtends(t[9..], u, "%3f");
    }
  }

  /** A body match survives anything appended: `wu` is `w` followed by more input. */
  lemma MatchBodyExtends(k: Kind, w: string, u: string, wu: string)
    requires k != Home && MatchBody(k, w).Some? && wu == w + u
    ensures MatchBody(k, wu).Some?
  {
    var body := Body(k);
    LowerPrefixExtends(w, u, body);
    var v := w[|body|..];
    assert wu[|body|..] == v + u;
    DigitRunExtends(v, u);
  }

  /** Apart from the anchored plain home pattern, a match survives anything appended. */
  lemma MatchHereExtends(p: Pattern, t: string, u: string)
    requires p.kind != Home && MatchHere(p, t).Some?
    ensures MatchHere(p, t + u).Some?
  {
    if p.prefixed {
      var j := PrefixLength(t).value;
      PrefixLengthExtends(t, u);
      BodyAfterExtends(p.kind, t, u, j);
    } else {
      MatchBodyExtends(p.kind, t, u, t + u);
    }
  }

  /** A body matching from position `j` of `t` still matches from position `j` of `t + u`. */
  lemma BodyAfterExtends(k: Kind, t: string, u: string, j: nat)
    requires k != Home && j <= |t| && MatchBody(k, t[j..]).Some?
    ensures MatchBody(k, (t + u)[j..]).Some?
  {
    DropAppend(t, u, j);
    MatchBodyExtends(k, t[j..], u, (t + u)[j..]);
  }

  lemma DropAppend(t: string, u: string, j: nat)
    requires j <= |t|
    ensures (t + u)[j..] == t[j..] + u
  {
  }

  /** The same extension, for a match found by searching. */
  lemma {:induction false} TestBeforeSuffix(p: Pattern, a: string, b: string)
    requires p.kind != Home && Test(p, a)
    ensures Test(p, a + b)
  {
    var i := Search(Matcher(p), a, 0).value;
    MatchHereExtends(p, a[i..], b);
    SearchBeforeSuffix(Matcher(p), a, b);
  }

  /**
   * Because the patterns are not anchored, one name can match two different
   * patterns: any name of one kind followed by any name of another matches
   * both. Which processor it goes to is then decided by processing order alone.
   */
  lemma PatternsCanOverlap(p: Pattern, q: Pattern, a: string, b: string)
    requires p.kind != Home && Test(p, a) && Test(q, b)
    ensures Test(p, a + b) && Test(q, a + b)
  {
    TestBeforeSuffix(p, a, b);
    TestAfterPrefix(q, a, b);
  }

  // ---------------------------------------------------------------------------
  // The names of mirrored pages
  // ---------------------------------------------------------------------------

  /** The separators the mirror's file names use after `index.cfm`. */
  predicate IsSeparator(sep: string) {
    sep == "?" || sep == "%3F" || sep == "%3f" || sep == "_"
  }

  /** A lower-case literal is a case-blind prefix of itself followed by anything. */
  lemma LowerPrefixOf(lit: string, rest: string)
    requires IsLower(lit)
    ensures LowerPrefix(lit + rest, lit) && (lit + rest)[|lit|..] == rest
  {
    assert (lit + rest)[..|lit|] == lit;
    LowerOfLower(lit);
  }

  lemma SeparatorOf(sep: string, t: string)
    requires IsSeparator(sep)
    ensures SeparatorLength(sep + t) == |sep| && (sep + t)[|sep|..] == t
  {
    if sep == "%3F" || sep == "%3f" {
      assert (sep + t)[..3] == sep;
      assert Lower(sep) == "%3f" by {
        assert Lower(sep)[0] == '%' && Lower(sep)[1] == '3' && Lower(sep)[2] == 'f';
      }
    }
  }

  /** `index.cfm` (the dot standing for any one character) and a separator are read as the prefix. */
  lemma PrefixOfName(dot: char, sep: string, t: string)
    requires !IsLineTerminator(dot) && IsSeparator(sep)
    ensures PrefixLength("index" + ([dot] + ("cfm" + (sep + t)))) == Some(9 + |sep|)
    ensures ("index" + ([dot] + ("cfm" + (sep + t))))[9 + |sep|..] == t
  {
    var r2 := "cfm" + (sep + t);
    var r1 := [dot] + r2;
    var s := "index" + r1;
    LowerPrefixOf("index", r1);
    assert s[5] == dot && s[6..] == r2;
    LowerPrefixOf("cfm", sep + t);
    assert s[9..] == sep + t;
    PrefixFound(s, sep, t);
  }

  lemma PrefixFound(s: string, sep: string, t: string)
    requires LowerPrefix(s, "index") && |s| > 5 && !IsLineTerminator(s[5]) && LowerPrefix(s[6..], "cfm")
    requires s[9..] == sep + t && IsSeparator(sep)
    ensures PrefixLength(s) == Some(9 + |sep|) && s[9 + |sep|..] == t
  {
    SeparatorOf(sep, t);
    assert s[9 + |sep|..] == (sep + t)[|sep|..];
  }

  /** A page parameter spelt in any case, followed by a maximal digit run, matches and captures the digits. */
  lemma BodyOfName(k: Kind, name: string, id: string, rest: string)
    requires k != Home && Lower(name) == Body(k)
    requires id != [] && AllDigits(id) && (rest == [] || !IsDigit(rest[0]))
    ensures MatchBody(k, name + id + rest).Some? && MatchBody(k, name + id + rest).value.id == id
  {
    var u := name + id + rest;
    assert u[..|name|] == name;
    assert u[|name|..] == id + rest;
    DigitRunOfDigits(id, rest);
    assert (id + rest)[..|id|] == id;
  }

  /**
   * The names the mirror gives its pages, such as `index.cfm?page=topic&topicID=12`
   * or `index.cfm%3Fpage=forum&forumid=3&start=15`: with any of the three
   * separators and the parameter in any case, the pattern of the page's kind
   * matches and captures the id.
   */
  lemma FileNameMatches(k: Kind, dot: char, sep: string, name: string, id: string, rest: string)
    requires k != Home && !IsLineTerminator(dot) && IsSeparator(sep) && Lower(name) == Body(k)
    requires id != [] && AllDigits(id) && (rest == [] || !IsDigit(rest[0]))
    ensures var s := "index" + ([dot] + ("cfm" + (sep + (name + id + rest))));
            Exec(Pattern(k, true), s).Some? && Exec(Pattern(k, true), s).value.id == id
  {
    var p := Pattern(k, true);
    var t := name + id + rest;
    var s := "index" + ([dot] + ("cfm" + (sep + t)));
    PrefixOfName(dot, sep, t);
    BodyOfName(k, name, id, rest);
    assert MatchHere(p, s) == MatchBody(k, t);
    assert s[0..] == s;
    assert Matcher(p)(s[0..]);
  }

  /** The plain home pattern `/page=home$/i` of loader.js matches exactly the names that end in `page=home`, in any case. */
  lemma HomeAtEnd(s: string)
    ensures Test(Pattern(Home, false), s) <==> |s| >= 9 && LowerPrefix(s[|s| - 9..], "page=home")
  {
    var p := Pattern(Home, false);
    if Test(p, s) {
      var i := Search(Matcher(p), s, 0).value;
      assert MatchBody(Home, s[i..]).Some?;
      assert s[i..][9..] == [];
      assert i == |s| - 9;
    }
    if |s| >= 9 && LowerPrefix(s[|s| - 9..], "page=home") {
      var u := s[|s| - 9..];
      assert u[9..] == [];
      assert MatchHere(p, u).Some?;
      SearchWitness(Matcher(p), s, |s| - 9);
    }
  }
}
