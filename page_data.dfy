/**
 * What the page extractors of server/scripts/loader.ts and loader.js see
 * of a parsed page, and how they fail. The DOM is not modelled: a page is
 * given as the records the extractors read off it (the texts of its
 * tables, the attributes of its links), and a missing element is an
 * `Option`.
 *
 * A failed `assert(...)` in the importer and a `TypeError` from reading a
 * property of a missing element both abort the file's load; they are the
 * two error kinds besides a failed date parse.
 */
module PageData {
  import opened Wrappers
  import opened Text
  import opened Dates
  import opened PageRegexes

  datatype LoadError =
    | Assertion(message: string)   // `assert(cond, message)` failed, or an `Error` was thrown
    | TypeError(what: string)      // a property of `null`/`undefined` was read
    | DateFailure(error: DateError)

  /** An anchor element: its `href` attribute (if any) and its `textContent`. */
  datatype Link = Link(href: Option<string>, text: string)

  /** `href ?? ''`. */
  function HrefOf(link: Link): string {
    link.href.GetOr("")
  }

  /** `stringToDate(s, reference)` with its error lifted into a load error. */
  function ToDate(s: string, reference: Option<string>): (r: Result<DateTime, LoadError>)
    ensures r.Ok? <==> StringToDate(s, reference).Ok?
    ensures r.Ok? ==> r.value == StringToDate(s, reference).value
    ensures r.Err? ==> r.error == DateFailure(StringToDate(s, reference).error)
  {
    match StringToDate(s, reference)
    case Ok(d) => Ok(d)
    case Err(e) => Err(DateFailure(e))
  }

  /**
   * `extractRenderTime` of loader.ts: the text of the second-to-last table
   * (`tables.item(length - 2)`, `null` when there are fewer than two, whose
   * `textContent` is then a `TypeError`) must match RENDER_TIME_REGEX.
   */
  function RenderTimeTs(tables: seq<string>): (r: Result<string, LoadError>)
    ensures |tables| < 2 ==> r.Err? && r.error.TypeError?
    ensures |tables| >= 2 ==> (r.Ok? <==> RenderTimeExec(tables[|tables| - 2]).Some?)
    ensures r.Ok? ==> r.value == RenderTimeExec(tables[|tables| - 2]).value
  {
    if |tables| < 2 then Err(TypeError("textContent of a missing table"))
    else
      match RenderTimeExec(tables[|tables| - 2])
      case None => Err(Assertion("Failed to extract mirror time"))
      case Some(t) => Ok(t)
  }

  /** `s.slice(-n)` for `n > 0`: the last `n` characters, or all of `s` when it is shorter. */
  function LastChars(s: string, n: nat): (r: string)
    ensures |r| == if |s| < n then |s| else n
    ensures r == s[|s| - |r|..]
  {
    if |s| <= n then s else s[|s| - n..]
  }

  /**
   * The value of `extractRenderTime` of loader.js: the second-to-last table
   * when it matches RENDER_TIME_REGEX, else the last 1000 characters of the
   * page's text when they match, else a thrown `Error`.
   */
  function RenderTimeJsOf(tables: seq<string>, pageText: string): (r: Result<string, LoadError>)
    ensures r.Ok? ==> r.value != []
  {
    if |tables| >= 2 && RenderTimeExec(tables[|tables| - 2]).Some? then Ok(RenderTimeExec(tables[|tables| - 2]).value)
    else
      match RenderTimeExec(LastChars(pageText, 1000))
      case Some(t) => Ok(t)
      case None => Err(Assertion("Failed to extract mirror time"))
  }

  /**
   * `extractRenderTime` of loader.js: two `pop`s take the footer table off
   * and then the second-to-last table, whose text is tried first (an absent
   * table matches nothing); then the last 1000 characters of the page's
   * text are tried; if neither matches an `Error` is thrown.
   */
  method RenderTimeJs(tables: seq<string>, pageText: string) returns (r: Result<string, LoadError>)
    ensures r == RenderTimeJsOf(tables, pageText)
  {
    var rest := tables;
    if rest != [] {
      rest := rest[..|rest| - 1];   // the "Halomaps" footer
    }
    var timeTable: Option<string> := None;
    if rest != [] {
      timeTable := Some(rest[|rest| - 1]);
      rest := rest[..|rest| - 1];
    }
    // `exec(undefined)` searches the string "undefined", which has no "Time:".
    var found := if timeTable.Some? then RenderTimeExec(timeTable.value) else None;
    if found.Some? {
      return Ok(found.value);
    }
    var fallback := RenderTimeExec(LastChars(pageText, 1000));
    if fallback.Some? {
      return Ok(fallback.value);
    }
    return Err(Assertion("Failed to extract mirror time"));
  }

  /**
   * The fallback order of loader.js: the footer table wins whenever it
   * matches, which is whenever loader.ts's `extractRenderTime` succeeds; the
   * page's tail is read only when the table does not match; an error means
   * that neither matched.
   */
  lemma RenderTimeJsOrder(tables: seq<string>, pageText: string)
    ensures RenderTimeTs(tables).Ok? ==> RenderTimeJsOf(tables, pageText) == RenderTimeTs(tables)
    ensures RenderTimeTs(tables).Err? ==>
      RenderTimeJsOf(tables, pageText) ==
        if RenderTimeExec(LastChars(pageText, 1000)).Some? then Ok(RenderTimeExec(LastChars(pageText, 1000)).value)
        else Err(Assertion("Failed to extract mirror time"))
    ensures RenderTimeJsOf(tables, pageText).Err? <==>
      (|tables| < 2 || RenderTimeExec(tables[|tables| - 2]).None?) && RenderTimeExec(LastChars(pageText, 1000)).None?
  {
  }

  /**
   * `rows.map(f)` where `f` may throw, from position `i` on: the first row
   * whose record fails aborts the map with its error.
   */
  function MapRows<T, U>(rows: seq<T>, i: nat, f: (T, nat) -> Result<U, LoadError>): (r: Result<seq<U>, LoadError>)
    requires i <= |rows|
    ensures r.Ok? <==> forall k :: i <= k < |rows| ==> f(rows[k], k).Ok?
    ensures r.Ok? ==> |r.value| == |rows| - i
    ensures r.Ok? ==> forall k :: 0 <= k < |r.value| ==> r.value[k] == f(rows[i + k], i + k).value
    ensures r.Err? ==> exists k :: i <= k < |rows| && f(rows[k], k) == Err(r.error) && forall j :: i <= j < k ==> f(rows[j], j).Ok?
    decreases |rows| - i
  {
    if i == |rows| then Ok([])
    else
      match f(rows[i], i)
      case Err(e) => Err(e)
      case Ok(u) =>
        match MapRows(rows, i + 1, f)
        case Err(e) => Err(e)
        case Ok(us) =>
          assert forall k :: 1 <= k < |[u] + us| ==> ([u] + us)[k] == us[k - 1];
          Ok([u] + us)
  }
}
