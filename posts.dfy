/**
 * The topic-page extractors of server/scripts/loader.ts: `loadTopicFile`,
 * which walks the post table two rows at a time, `extractPostInfoFromRows`,
 * which reads one post and its author's quote and "special" badge, and
 * `extractPostContentAlt`, the line scan that recovers a post's content
 * when the parsed page has lost it.
 */
module Posts {
  import opened Wrappers
  import opened Text
  import opened Dates
  import opened FileKinds
  import opened PageRegexes
  import opened PageData
  import opened MirrorStore
  import Url

  /** A child node of the author's cell: its `nodeName`, its `textContent` and, for an image, its `src`. */
  datatype Node = Node(name: string, text: string, src: Option<string>)

  /**
   * The author's cell of a post row (its first `td`): the `href` of its
   * first link, the text of its `span.avatar`, and its child nodes.
   */
  datatype UserCell = UserCell(linkHref: Option<string>, avatarText: Option<string>, children: seq<Node>)

  /**
   * A row of the post table as the extractor reads it, whether it is the
   * first row of a post (author cell, `strong` text, `div#messagearea`
   * inner HTML) or the second (the `href` of its first link, the reply link).
   */
  datatype Row = Row(
    user: Option<UserCell>, strong: Option<string>, messageHtml: Option<string>, firstLinkHref: Option<string>)

  /** What `extractPostInfoFromRows` returns: the user patch and the post without its dates. */
  datatype PostUserInfo = PostUserInfo(user: UserPatch, postId: int, authorId: int, content: string, createdStr: string)

  const UserFilePattern := Pattern(UserInfo, true)
  const TopicFilePattern := Pattern(TopicPage, true)

  /** The text special starts at child 6 of the author's cell; the image special is child 7. */
  const SpecialTextChild := 6
  const SpecialImageChild := 7
  /** At most this many nodes are collected for a text special. */
  const MaxSpecialNodes := 10

  // ---------------------------------------------------------------------------
  // The "special" badge
  // ---------------------------------------------------------------------------

  predicate IsJoined(node: Node) {
    StartsWith(Trim(node.text), "Joined")
  }

  /** The collection loop's stop test on a node, as a value. */
  function JoinedTest(): Node -> bool {
    node => IsJoined(node)
  }

  /**
   * How many nodes the collection loop takes from position `i` on, when
   * `count` have already been taken: it stops at the end of the siblings,
   * before a node satisfying `stop`, or once ten have been taken.
   */
  function RunFrom<T>(xs: seq<T>, i: nat, count: nat, stop: T -> bool): (n: nat)
    requires i <= |xs| && count <= MaxSpecialNodes
    ensures i + n <= |xs| && count + n <= MaxSpecialNodes
    ensures forall k :: i <= k < i + n ==> !stop(xs[k])
    ensures i + n == |xs| || count + n == MaxSpecialNodes || stop(xs[i + n])
    decreases |xs| - i
  {
    if i == |xs| || stop(xs[i]) || count == MaxSpecialNodes then 0
    else 1 + RunFrom(xs, i + 1, count + 1, stop)
  }

  /** The nodes the collection loop takes from position `i` on. */
  function Run<T>(xs: seq<T>, i: nat, stop: T -> bool): seq<T>
    requires i <= |xs|
  {
    xs[i..i + RunFrom(xs, i, 0, stop)]
  }

  /** The nodes a run covers are the ones from `i` on, and none of them satisfies `stop`. */
  lemma RunSlice<T>(xs: seq<T>, i: nat, stop: T -> bool, run: seq<T>)
    requires i <= |xs| && run == Run(xs, i, stop)
    ensures forall k :: 0 <= k < |run| ==> run[k] == xs[i + k] && !stop(run[k])
  {
    forall k | 0 <= k < |run|
      ensures run[k] == xs[i + k] && !stop(run[k])
    {
      assert i <= i + k < i + RunFrom(xs, i, 0, stop);
    }
  }

  /** The nodes a text special is read from. */
  function SpecialNodes(children: seq<Node>): (nodes: seq<Node>)
    requires SpecialTextChild < |children|
  {
    Run(children, SpecialTextChild, JoinedTest())
  }

  /**
   * The sibling walk of `extractPostInfoFromRows`: from child `start` on,
   * push each node onto `textNodes` while there is one, it does not satisfy
   * `stop`, and fewer than ten have been pushed.
   */
  method CollectSiblings(children: seq<Node>, start: nat, stop: Node -> bool) returns (textNodes: seq<Node>)
    requires start < |children|
    ensures textNodes == Run(children, start, stop)
  {
    textNodes := [];
    var cur := start;
    while cur < |children| && !stop(children[cur]) && |textNodes| < MaxSpecialNodes
      invariant start <= cur <= |children| && cur - start <= MaxSpecialNodes
      invariant textNodes == children[start..cur]
      invariant RunFrom(children, start, 0, stop) == (cur - start) + RunFrom(children, cur, cur - start, stop)
      decreases |children| - cur
    {
      textNodes := textNodes + [children[cur]];
      cur := cur + 1;
    }
  }

  /** `.map(node => node.textContent?.trim())`. */
  function TrimmedTexts(nodes: seq<Node>): (texts: seq<string>)
    ensures |texts| == |nodes|
    ensures forall k :: 0 <= k < |nodes| ==> texts[k] == Trim(nodes[k].text)
  {
    seq(|nodes|, k requires 0 <= k < |nodes| => Trim(nodes[k].text))
  }

  /** The test of `.filter(text => text)`: a string is truthy when it is non-empty. */
  function NonEmptyTest(): string -> bool {
    t => t != []
  }

  /** Child 6 of the author's cell has non-blank text: the special is a text special. */
  predicate HasTextSpecial(children: seq<Node>) {
    SpecialTextChild < |children| && Trim(children[SpecialTextChild].text) != []
  }

  /** A text special: the non-empty trimmed texts of the collected nodes, one per line. */
  function TextSpecial(nodes: seq<Node>): Result<Option<string>, LoadError> {
    Ok(Some(Url.Join(Filter(TrimmedTexts(nodes), NonEmptyTest()), "\n")))
  }

  /** Without a text special: "moderator" for a moderator badge at child 7, an `Error` for any other image there, `null` otherwise. */
  function ImageSpecialOf(children: seq<Node>): Result<Option<string>, LoadError> {
    if SpecialImageChild < |children| && children[SpecialImageChild].name == "IMG" then
      var src := children[SpecialImageChild].src;
      if src.Some? && Contains(src.value, "moderator") then Ok(Some("moderator"))
      else Err(Assertion("User had special image"))
    else Ok(None)
  }

  /** The user's special: a text special when child 6 has non-blank text, else the image special. */
  function SpecialOf(children: seq<Node>): (r: Result<Option<string>, LoadError>)
  {
    if HasTextSpecial(children) then TextSpecial(SpecialNodes(children))
    else ImageSpecialOf(children)
  }

  /** The special of a post's author, computed by the sibling walk. */
  method ExtractSpecial(children: seq<Node>) returns (r: Result<Option<string>, LoadError>)
    ensures r == SpecialOf(children)
  {
    if HasTextSpecial(children) {
      var textNodes := CollectSiblings(children, SpecialTextChild, JoinedTest());
      TextSpecialFrom(children, textNodes);
      r := TextSpecial(textNodes);
    } else {
      r := ImageSpecialOf(children);
    }
  }

  /** The nodes the sibling walk collects from child 6 on are the ones a text special is read from. */
  lemma TextSpecialFrom(children: seq<Node>, textNodes: seq<Node>)
    requires HasTextSpecial(children)
    requires textNodes == Run(children, SpecialTextChild, JoinedTest())
    ensures SpecialOf(children) == TextSpecial(textNodes)
  {
    assert SpecialNodes(children) == textNodes;
  }

  /** The nodes of a text special are consecutive siblings from child 6 on, at most ten, none of them "Joined". */
  lemma SpecialNodesShape(children: seq<Node>)
    requires SpecialTextChild < |children|
    ensures |SpecialNodes(children)| <= MaxSpecialNodes
    ensures forall k :: 0 <= k < |SpecialNodes(children)| ==>
              SpecialNodes(children)[k] == children[SpecialTextChild + k] && !JoinedTest()(SpecialNodes(children)[k])
  {
    var run := SpecialNodes(children);
    RunSlice(children, SpecialTextChild, JoinedTest(), run);
    assert |run| <= MaxSpecialNodes;
    assert forall k :: 0 <= k < |run| ==> run[k] == children[SpecialTextChild + k];
    assert forall k :: 0 <= k < |run| ==> !JoinedTest()(run[k]);
  }

  /**
   * A text special is at most ten non-empty lines, each the trimmed text of
   * one of the siblings from child 6 on, none of which starts with "Joined".
   * The lines are the non-empty trimmed texts of the `n` collected siblings,
   * in sibling order, one line per such sibling (`FilterAppend` and
   * `FilterSingle` give the order and the multiplicity).
   */
  lemma TextSpecialShape(children: seq<Node>) returns (lines: seq<string>, n: nat)
    requires SpecialTextChild < |children| && Trim(children[SpecialTextChild].text) != []
    ensures SpecialOf(children) == Ok(Some(Url.Join(lines, "\n")))
    ensures n <= MaxSpecialNodes && SpecialTextChild + n <= |children|
    ensures lines == Filter(TrimmedTexts(children[SpecialTextChild..SpecialTextChild + n]), NonEmptyTest())
    ensures |lines| <= MaxSpecialNodes
    ensures forall t :: t in lines ==>
              (t != [] && !StartsWith(t, "Joined")
               && exists k :: SpecialTextChild <= k < |children| && t == Trim(children[k].text))
  {
    lines := Filter(TrimmedTexts(SpecialNodes(children)), NonEmptyTest());
    SpecialNodesShape(children);
    n := |SpecialNodes(children)|;
    assert SpecialNodes(children) == children[SpecialTextChild..SpecialTextChild + n];
    forall t | t in lines
      ensures t != [] && !StartsWith(t, "Joined")
      ensures exists k :: SpecialTextChild <= k < |children| && t == Trim(children[k].text)
    {
      SpecialLine(children, t);
    }
    assert SpecialOf(children) == Ok(Some(Url.Join(lines, "\n")));
  }

  /** The lines of two runs of nodes are the lines of the first run, then those of the second. */
  lemma SpecialLinesAppend(a: seq<Node>, b: seq<Node>)
    ensures Filter(TrimmedTexts(a + b), NonEmptyTest())
         == Filter(TrimmedTexts(a), NonEmptyTest()) + Filter(TrimmedTexts(b), NonEmptyTest())
  {
    assert TrimmedTexts(a + b) == TrimmedTexts(a) + TrimmedTexts(b);
    FilterAppend(TrimmedTexts(a), TrimmedTexts(b), NonEmptyTest());
  }

  /** One node gives one line, its trimmed text, exactly when that text is non-empty. */
  lemma SpecialLinesSingle(x: Node)
    ensures Filter(TrimmedTexts([x]), NonEmptyTest()) == if Trim(x.text) != [] then [Trim(x.text)] else []
  {
    assert TrimmedTexts([x]) == [Trim(x.text)];
    FilterSingle(Trim(x.text), NonEmptyTest());
  }

  /** One line of a text special comes from a collected node. */
  lemma SpecialLine(children: seq<Node>, t: string)
    requires SpecialTextChild < |children|
    requires t in Filter(TrimmedTexts(SpecialNodes(children)), NonEmptyTest())
    ensures t != [] && !StartsWith(t, "Joined")
    ensures exists k :: SpecialTextChild <= k < |children| && t == Trim(children[k].text)
  {
    var nodes := SpecialNodes(children);
    SpecialNodesShape(children);
    var texts := TrimmedTexts(nodes);
    var k :| 0 <= k < |texts| && texts[k] == t;
    NotJoined(nodes[k]);
    assert children[SpecialTextChild + k] == nodes[k];
    assert t == Trim(children[SpecialTextChild + k].text);
  }

  lemma NotJoined(node: Node)
    requires !JoinedTest()(node)
    ensures !StartsWith(Trim(node.text), "Joined")
  {
  }

  /** When child 6 itself starts with "Joined", nothing is collected and the special is the empty string. */
  lemma JoinedFirstGivesEmpty(children: seq<Node>)
    requires SpecialTextChild < |children| && Trim(children[SpecialTextChild].text) != []
    requires IsJoined(children[SpecialTextChild])
    ensures SpecialOf(children) == Ok(Some(""))
  {
    assert JoinedTest()(children[SpecialTextChild]);
    assert SpecialNodes(children) == [];
  }

  /** No text special: a moderator badge gives "moderator", any other image at child 7 is an error. */
  lemma ImageSpecial(children: seq<Node>)
    requires !(SpecialTextChild < |children| && Trim(children[SpecialTextChild].text) != [])
    ensures SpecialImageChild < |children| && children[SpecialImageChild].name == "IMG" ==>
      (SpecialOf(children) == Ok(Some("moderator")) <==>
         children[SpecialImageChild].src.Some? && Contains(children[SpecialImageChild].src.value, "moderator"))
      && (SpecialOf(children).Err? <==>
         !(children[SpecialImageChild].src.Some? && Contains(children[SpecialImageChild].src.value, "moderator")))
    ensures !(SpecialImageChild < |children| && children[SpecialImageChild].name == "IMG") ==>
      SpecialOf(children) == Ok(None)
  {
  }

  // ---------------------------------------------------------------------------
  // extractPostContentAlt
  // ---------------------------------------------------------------------------

  /** The content a line contributes: the messagearea capture, when it is non-empty. */
  function LineContent(line: string): (r: Option<string>)
    ensures r.Some? ==> r.value != [] && ContentExec(line) == r
    ensures r.None? ==> ContentExec(line).None? || ContentExec(line) == Some("")
  {
    match ContentExec(line)
    case Some(c) => if c != [] then Some(c) else None
    case None => None
  }

  function ContentOfLine(): string -> Option<string> {
    line => LineContent(line)
  }

  /** The line carries a reply link whose id is `postId` (`parseInt` of the capture, NaN when there is none). */
  predicate LineHasId(line: string, postId: int) {
    ParseInt(IdExec(ReplyIdLiteral, line).GetOr("")) == Some(postId)
  }

  function HasIdOf(postId: int): string -> bool {
    line => LineHasId(line, postId)
  }

  /** The content of the last of `lines` that has some. */
  function LatestContent<T>(lines: seq<T>, content: T -> Option<string>): (r: Option<string>)
    ensures r.Some? ==> exists k :: 0 <= k < |lines| && content(lines[k]) == r
                          && forall j :: k < j < |lines| ==> content(lines[j]).None?
    ensures r.None? ==> forall j :: 0 <= j < |lines| ==> content(lines[j]).None?
  {
    if lines == [] then None
    else
      var last := lines[|lines| - 1];
      if content(last).Some? then content(last)
      else
        var r := LatestContent(lines[..|lines| - 1], content);
        assert forall j :: 0 <= j < |lines| - 1 ==> lines[..|lines| - 1][j] == lines[j];
        r
  }

  /** The latest content at or before the first line that satisfies `hit`; `None` when no line does. */
  function ScanResult<T>(lines: seq<T>, content: T -> Option<string>, hit: T -> bool): Option<string> {
    match FindFirst(lines, hit)
    case None => None
    case Some(f) => LatestContent(lines[..f + 1], content)
  }

  /** The loop of `extractPostContentAlt`, over any lines and line tests. */
  method ScanLines<T>(lines: seq<T>, content: T -> Option<string>, hit: T -> bool) returns (r: Option<string>)
    ensures r == ScanResult(lines, content, hit)
  {
    var currentContent: Option<string> := None;
    for i := 0 to |lines|
      invariant currentContent == LatestContent(lines[..i], content)
      invariant forall j :: 0 <= j < i ==> !hit(lines[j])
    {
      var extractedContent := content(lines[i]);
      if extractedContent.Some? {
        currentContent := extractedContent;
      }
      assert lines[..i + 1][..i] == lines[..i];
      if hit(lines[i]) {
        return currentContent;
      }
    }
    return None;
  }

  /** The value of `extractPostContentAlt` on the lines of the file. */
  function AltContent(lines: seq<string>, postId: int): Option<string> {
    ScanResult(lines, ContentOfLine(), HasIdOf(postId))
  }

  /**
   * `extractPostContentAlt(filepath, postId)` with the file's text given:
   * scan the lines, remember the latest non-empty content, and return it at
   * the first line whose reply id is `postId`.
   */
  method ExtractPostContentAlt(htmlContent: string, postId: int) returns (r: Option<string>)
    ensures r == AltContent(Split(htmlContent, "\n"), postId)
  {
    var htmlLines := Split(htmlContent, "\n");
    r := ScanLines(htmlLines, ContentOfLine(), HasIdOf(postId));
  }

  /**
   * The scan returns the content of the latest line with content at or
   * before the first line satisfying `hit` (that line included), and `None`
   * when no line satisfies `hit` or no content precedes it.
   */
  lemma ScanMeaning<T>(lines: seq<T>, content: T -> Option<string>, hit: T -> bool)
    ensures (forall j :: 0 <= j < |lines| ==> !hit(lines[j])) ==> ScanResult(lines, content, hit).None?
    ensures forall f :: 0 <= f < |lines| && hit(lines[f]) && (forall j :: 0 <= j < f ==> !hit(lines[j]))
                        && (forall j :: 0 <= j <= f ==> content(lines[j]).None?)
                   ==> ScanResult(lines, content, hit).None?
    ensures forall f, k :: 0 <= k <= f < |lines| && hit(lines[f]) && (forall j :: 0 <= j < f ==> !hit(lines[j]))
                           && content(lines[k]).Some? && (forall j :: k < j <= f ==> content(lines[j]).None?)
                      ==> ScanResult(lines, content, hit) == content(lines[k])
  {
    forall f | 0 <= f < |lines| && hit(lines[f]) && (forall j :: 0 <= j < f ==> !hit(lines[j]))
               && (forall j :: 0 <= j <= f ==> content(lines[j]).None?)
      ensures ScanResult(lines, content, hit).None?
    {
      ScanAt(lines, content, hit, f);
      var p := lines[..f + 1];
      assert forall j :: 0 <= j < |p| ==> content(p[j]).None? by {
        assert forall j :: 0 <= j < |p| ==> p[j] == lines[j];
      }
    }
    forall f, k | 0 <= k <= f < |lines| && hit(lines[f]) && (forall j :: 0 <= j < f ==> !hit(lines[j]))
                  && content(lines[k]).Some? && (forall j :: k < j <= f ==> content(lines[j]).None?)
      ensures ScanResult(lines, content, hit) == content(lines[k])
    {
      ScanAt(lines, content, hit, f);
      var p := lines[..f + 1];
      assert p[k] == lines[k];
      assert forall j :: k < j < |p| ==> content(p[j]).None? by {
        assert forall j :: 0 <= j < |p| ==> p[j] == lines[j];
      }
      LatestAt(p, content, k);
    }
  }

  /** When line `f` is the first that satisfies `hit`, the scan gives the latest content up to it. */
  lemma ScanAt<T>(lines: seq<T>, content: T -> Option<string>, hit: T -> bool, f: nat)
    requires f < |lines| && hit(lines[f]) && forall j :: 0 <= j < f ==> !hit(lines[j])
    ensures ScanResult(lines, content, hit) == LatestContent(lines[..f + 1], content)
  {
    var r := FindFirst(lines, hit);
    assert r.Some?;
    assert r.value == f;
  }

  /** The latest content of `p` is that of a line `k` with content and none after it. */
  lemma LatestAt<T>(p: seq<T>, content: T -> Option<string>, k: nat)
    requires k < |p| && content(p[k]).Some? && forall j :: k < j < |p| ==> content(p[j]).None?
    ensures LatestContent(p, content) == content(p[k])
  {
    var r := LatestContent(p, content);
    var k' :| 0 <= k' < |p| && content(p[k']) == r && forall j :: k' < j < |p| ==> content(p[j]).None?;
    assert k' == k;
  }

  /** The lines a scan result comes from: `f` is the first line satisfying `hit` and `k` the latest with content up to it. */
  lemma ScanWitness<T>(lines: seq<T>, content: T -> Option<string>, hit: T -> bool) returns (f: nat, k: nat)
    requires ScanResult(lines, content, hit).Some?
    ensures k <= f < |lines|
    ensures hit(lines[f]) && forall j :: 0 <= j < f ==> !hit(lines[j])
    ensures content(lines[k]) == ScanResult(lines, content, hit)
    ensures forall j :: k < j <= f ==> content(lines[j]).None?
  {
    f := FindFirst(lines, hit).value;
    var p := lines[..f + 1];
    assert forall j :: 0 <= j <= f ==> p[j] == lines[j];
    k :| 0 <= k < |p| && content(p[k]) == LatestContent(p, content)
         && forall j :: k < j < |p| ==> content(p[j]).None?;
  }

  /**
   * `extractPostContentAlt` returns the content captured from the latest
   * line `k` with a non-empty messagearea match, at or before the first line
   * `f` whose reply id is `postId` (a match on that line counts).
   */
  lemma AltContentSource(lines: seq<string>, postId: int) returns (f: nat, k: nat)
    requires AltContent(lines, postId).Some?
    ensures k <= f < |lines|
    ensures LineHasId(lines[f], postId) && forall j :: 0 <= j < f ==> !LineHasId(lines[j], postId)
    ensures LineContent(lines[k]) == AltContent(lines, postId) && AltContent(lines, postId).value != []
    ensures forall j :: k < j <= f ==> LineContent(lines[j]).None?
  {
    f, k := ScanWitness(lines, ContentOfLine(), HasIdOf(postId));
    AltWitness(lines, postId, f, k);
    assert ContentOfLine()(lines[k]) == LineContent(lines[k]);
  }

  /** When no line carries the id, `extractPostContentAlt` returns `null`. */
  lemma AltContentAbsent(lines: seq<string>, postId: int)
    requires forall j :: 0 <= j < |lines| ==> !LineHasId(lines[j], postId)
    ensures AltContent(lines, postId).None?
  {
    assert forall j :: 0 <= j < |lines| ==> !HasIdOf(postId)(lines[j]);
    ScanMeaning(lines, ContentOfLine(), HasIdOf(postId));
  }

  /** The witnesses of the scan, read back through the line tests. */
  lemma AltWitness(lines: seq<string>, postId: int, f: nat, k: nat)
    requires k <= f < |lines|
    requires HasIdOf(postId)(lines[f]) && (forall j :: 0 <= j < f ==> !HasIdOf(postId)(lines[j]))
    requires ContentOfLine()(lines[k]).Some? && (forall j :: k < j <= f ==> ContentOfLine()(lines[j]).None?)
    ensures LineHasId(lines[f], postId) && (forall j :: 0 <= j < f ==> !LineHasId(lines[j], postId))
    ensures LineContent(lines[k]).Some? && LineContent(lines[k]).value != []
    ensures forall j :: k < j <= f ==> LineContent(lines[j]).None?
  {
    forall j | 0 <= j < f
      ensures !LineHasId(lines[j], postId)
    {
      assert !HasIdOf(postId)(lines[j]);
    }
    forall j | k < j <= f
      ensures LineContent(lines[j]).None?
    {
      assert ContentOfLine()(lines[j]).None?;
    }
  }

  // ---------------------------------------------------------------------------
  // extractPostInfoFromRows
  // ---------------------------------------------------------------------------

  /** `userNode?.querySelector('span.avatar')?.textContent || null`. */
  function QuoteOf(user: Option<UserCell>): (r: Option<string>)
    ensures r.Some? <==> user.Some? && user.value.avatarText.Some? && user.value.avatarText.value != []
    ensures r.Some? ==> r == user.value.avatarText
  {
    if user.Some? && user.value.avatarText.Some? && user.value.avatarText.value != [] then user.value.avatarText
    else None
  }

  /** The child nodes of the author's cell (none when the row has no cell). */
  function ChildrenOf(user: Option<UserCell>): seq<Node> {
    if user.Some? then user.value.children else []
  }

  /** The author id: `parseInt` of the id in the first link of the author's cell (NaN when there is none). */
  function AuthorIdOf(user: Option<UserCell>): Option<int> {
    var href := if user.Some? then user.value.linkHref.GetOr("") else "";
    ParseInt(Exec(UserFilePattern, href).GetOr(FileMatch("", None)).id)
  }

  /** The post id: `parseInt` of the `replyid` in the first link of the id row. */
  function PostIdOf(idRow: Row): Option<int> {
    ParseInt(IdExec(ReplyIdLiteral, idRow.firstLinkHref.GetOr("")).GetOr(""))
  }

  /** The post's content: the message cell's HTML, or the fallback scan of the file when that is empty. */
  function PostContentOf(postRow: Row, fileText: string, postId: int): Option<string> {
    if postRow.messageHtml.Some? && postRow.messageHtml.value != [] then postRow.messageHtml
    else AltContent(Split(fileText, "\n"), postId)
  }

  /**
   * `extractPostInfoFromRows(filepath, postRow, idRow)`, with the file's
   * text given for the fallback scan; `idRow` is `None` past the end of the
   * table (reading it is then a `TypeError`). The checks come in the
   * source's order: author id, special, creation time, post id, content.
   */
  function PostInfoOf(postRow: Row, idRow: Option<Row>, fileText: string): (r: Result<PostUserInfo, LoadError>)
    ensures r.Ok? ==> Truthy(AuthorIdOf(postRow.user)) && r.value.authorId == AuthorIdOf(postRow.user).value
    ensures r.Ok? ==> r.value.user.id == r.value.authorId && r.value.user.quote == QuoteOf(postRow.user)
    ensures r.Ok? ==> SpecialOf(ChildrenOf(postRow.user)) == Ok(r.value.user.special)
    ensures r.Ok? ==> idRow.Some? && Truthy(PostIdOf(idRow.value)) && r.value.postId == PostIdOf(idRow.value).value
    ensures r.Ok? ==> r.value.createdStr != [] && PostTimeExec(postRow.strong.GetOr("")) == Some(r.value.createdStr)
    ensures r.Ok? ==> r.value.content != []
    ensures r.Ok? && postRow.messageHtml.Some? && postRow.messageHtml.value != [] ==>
              r.value.content == postRow.messageHtml.value
    ensures r.Ok? && (postRow.messageHtml.None? || postRow.messageHtml.value == []) ==>
              Some(r.value.content) == AltContent(Split(fileText, "\n"), r.value.postId)
    ensures r.Ok? <==>
      && Truthy(AuthorIdOf(postRow.user)) && SpecialOf(ChildrenOf(postRow.user)).Ok?
      && PostTimeExec(postRow.strong.GetOr("")).Some? && idRow.Some? && Truthy(PostIdOf(idRow.value))
      && PostContentOf(postRow, fileText, PostIdOf(idRow.value).value).Some?
      && PostContentOf(postRow, fileText, PostIdOf(idRow.value).value).value != []
    ensures !Truthy(AuthorIdOf(postRow.user)) ==> r == Err(Assertion("Failed to extract Author ID"))
    ensures Truthy(AuthorIdOf(postRow.user)) && SpecialOf(ChildrenOf(postRow.user)).Err? ==>
      r == Err(SpecialOf(ChildrenOf(postRow.user)).error)
    ensures Truthy(AuthorIdOf(postRow.user)) && SpecialOf(ChildrenOf(postRow.user)).Ok?
            && PostTimeExec(postRow.strong.GetOr("")).None? ==>
      r == Err(Assertion("Failed to extract Post creation time"))
    ensures Truthy(AuthorIdOf(postRow.user)) && SpecialOf(ChildrenOf(postRow.user)).Ok?
            && PostTimeExec(postRow.strong.GetOr("")).Some? && idRow.Some? && !Truthy(PostIdOf(idRow.value)) ==>
      r == Err(Assertion("Failed to extract Post ID"))
  {
    var authorId := AuthorIdOf(postRow.user);
    if !Truthy(authorId) then Err(Assertion("Failed to extract Author ID"))
    else
      var quote := QuoteOf(postRow.user);
      match SpecialOf(ChildrenOf(postRow.user))
      case Err(e) => Err(e)
      case Ok(special) =>
        match PostTimeExec(postRow.strong.GetOr(""))
        case None => Err(Assertion("Failed to extract Post creation time"))
        case Some(createdStr) =>
          if idRow.None? then Err(TypeError("querySelector of a missing row"))
          else
            var postId := PostIdOf(idRow.value);
            if !Truthy(postId) then Err(Assertion("Failed to extract Post ID"))
            else
              var content := PostContentOf(postRow, fileText, postId.value);
              if content.None? || content.value == [] then Err(Assertion("Failed to extract Post content"))
              else
                Ok(PostUserInfo(UserPatch(authorId.value, quote, special), postId.value, authorId.value,
                                content.value, createdStr))
  }

  // ---------------------------------------------------------------------------
  // loadTopicFile
  // ---------------------------------------------------------------------------

  /** The rows of the post table without the title and moderator rows (two `shift`s) and the empty end row (`pop`). */
  function PostRowsOf(rows: seq<Row>): (r: seq<Row>)
    ensures |rows| >= 3 ==> r == rows[2..|rows| - 1]
    ensures |rows| < 3 ==> r == []
  {
    if |rows| < 3 then [] else rows[2..|rows| - 1]
  }

  /** The number of iterations of `for (i = 0; i < n; i += 2)`. */
  function Pairs(n: nat): nat {
    (n + 1) / 2
  }

  /** What a topic page yields: nothing for a stub topic, else the topic patch, the user patches and the posts. */
  datatype TopicLoad =
    | Skipped(topicId: int)
    | Loaded(topic: TopicPatch, users: seq<UserPatch>, posts: seq<Post>)

  /** The post and user patch of the `k`-th pair of post rows, with its creation time resolved. */
  function PairPost(postRows: seq<Row>, k: nat, topicId: int, renderTimeStr: string, renderTime: DateTime,
                    fileText: string): (r: Result<(Post, UserPatch), LoadError>)
    requires 2 * k < |postRows|
    ensures r.Ok? ==>
      var (post, user) := r.value;
      && post.topicId == topicId && post.mirroredAt == renderTime
      && user.id == post.authorId
      && PostInfoOf(postRows[2 * k], if 2 * k + 1 < |postRows| then Some(postRows[2 * k + 1]) else None, fileText).Ok?
    ensures
      var info := PostInfoOf(postRows[2 * k], if 2 * k + 1 < |postRows| then Some(postRows[2 * k + 1]) else None, fileText);
      && (r.Ok? <==> info.Ok? && ToDate(info.value.createdStr, Some(renderTimeStr)).Ok?)
      && (info.Err? ==> r == Err(info.error))
      && (r.Ok? ==>
            var (post, user) := r.value;
            && post.id == info.value.postId && post.authorId == info.value.authorId
            && post.content == info.value.content && user == info.value.user
            && ToDate(info.value.createdStr, Some(renderTimeStr)) == Ok(post.createdAt))
  {
    var idRow := if 2 * k + 1 < |postRows| then Some(postRows[2 * k + 1]) else None;
    match PostInfoOf(postRows[2 * k], idRow, fileText)
    case Err(e) => Err(e)
    case Ok(info) =>
      match ToDate(info.createdStr, Some(renderTimeStr))
      case Err(e) => Err(e)
      case Ok(createdAt) =>
        Ok((Post(info.postId, info.authorId, topicId, createdAt, info.content, renderTime), info.user))
  }

  /** Every pair of post rows gives a post. */
  predicate AllPairsOk(postRows: seq<Row>, topicId: int, renderTimeStr: string, renderTime: DateTime, fileText: string) {
    forall k :: 0 <= k < Pairs(|postRows|) ==> PairPost(postRows, k, topicId, renderTimeStr, renderTime, fileText).Ok?
  }

  /** `PairPost` as the loop body: iteration `k` of the loop over `postRows`. */
  function PairBuilder(postRows: seq<Row>, topicId: int, renderTimeStr: string, renderTime: DateTime,
                       fileText: string): nat -> Result<(Post, UserPatch), LoadError> {
    (k: nat) =>
      if 2 * k < |postRows| then PairPost(postRows, k, topicId, renderTimeStr, renderTime, fileText)
      else Err(TypeError("querySelector of a missing row"))
  }

  /**
   * The `i += 2` loop of `loadTopicFile` over `n` rows: iteration `k` (the
   * one with `i == 2k`) yields a post and a user patch, or throws and aborts
   * the load.
   */
  method CollectPairs<P, U>(n: nat, pair: nat -> Result<(P, U), LoadError>) returns (r: Result<(seq<P>, seq<U>), LoadError>)
    ensures r.Ok? <==> forall k :: 0 <= k < Pairs(n) ==> pair(k).Ok?
    ensures r.Ok? ==> |r.value.0| == |r.value.1| == Pairs(n)
    ensures r.Ok? ==> forall k :: 0 <= k < Pairs(n) ==> pair(k) == Ok((r.value.0[k], r.value.1[k]))
    ensures r.Err? ==> exists k :: 0 <= k < Pairs(n) && pair(k) == Err(r.error)
                                   && forall j :: 0 <= j < k ==> pair(j).Ok?
  {
    var posts: seq<P> := [];
    var usersUpdateData: seq<U> := [];
    var i := 0;
    while i < n
      invariant i % 2 == 0 && i <= n + 1
      invariant |posts| == |usersUpdateData| == i / 2
      invariant forall k :: 0 <= k < i / 2 ==> pair(k) == Ok((posts[k], usersUpdateData[k]))
      decreases n - i
    {
      var result := pair(i / 2);
      if result.Err? {
        return Err(result.error);
      }
      usersUpdateData := usersUpdateData + [result.value.1];
      posts := posts + [result.value.0];
      i := i + 2;
    }
    assert i / 2 == Pairs(n);
    return Ok((posts, usersUpdateData));
  }

  /** `!topicMatch?.[2] || topicMatch[2] === '1'`. */
  predicate IsFirstPage(topicMatch: Option<FileMatch>) {
    topicMatch.None? || topicMatch.value.start.None? || topicMatch.value.start == Some("1")
  }

  /**
   * `loadTopicFile` up to the database writes, with the page given as the
   * texts of its tables, the rows of the table holding `#messagearea`
   * (`None` when there is none: a stub topic), and the file's text.
   */
  method LoadTopicFile(filePath: string, tables: seq<string>, postTable: Option<seq<Row>>, fileText: string)
    returns (r: Result<TopicLoad, LoadError>)
    ensures !Truthy(ParseInt(Exec(TopicFilePattern, filePath).GetOr(FileMatch("", None)).id)) ==>
              r == Err(Assertion("Failed to extract Topic ID"))
    ensures Truthy(ParseInt(Exec(TopicFilePattern, filePath).GetOr(FileMatch("", None)).id)) && RenderTimeTs(tables).Err? ==>
              r == Err(RenderTimeTs(tables).error)
    ensures r.Ok? <==>
      && Truthy(ParseInt(Exec(TopicFilePattern, filePath).GetOr(FileMatch("", None)).id))
      && RenderTimeTs(tables).Ok? && ToDate(RenderTimeTs(tables).value, None).Ok?
      && (postTable.Some? ==>
            AllPairsOk(PostRowsOf(postTable.value), ParseInt(Exec(TopicFilePattern, filePath).GetOr(FileMatch("", None)).id).value,
                       RenderTimeTs(tables).value, ToDate(RenderTimeTs(tables).value, None).value, fileText))
    ensures r.Ok? ==>
      && Exec(TopicFilePattern, filePath).Some?
      && RenderTimeTs(tables).Ok? && ToDate(RenderTimeTs(tables).value, None).Ok?
      && (r.value.Skipped? <==> postTable.None?)
    ensures r.Ok? && r.value.Loaded? ==>
      var topicId := DigitsValue(Exec(TopicFilePattern, filePath).value.id);
      var postRows := PostRowsOf(postTable.value);
      var (patch, users, posts) := (r.value.topic, r.value.users, r.value.posts);
      && patch.id == topicId
      && |posts| == |users| == Pairs(|postRows|)
      && (forall k :: 0 <= k < |posts| ==>
            PairPost(postRows, k, topicId, RenderTimeTs(tables).value, ToDate(RenderTimeTs(tables).value, None).value,
                     fileText) == Ok((posts[k], users[k])))
      && (forall k :: 0 <= k < |posts| ==> posts[k].topicId == topicId && users[k].id == posts[k].authorId)
      && (if IsFirstPage(Exec(TopicFilePattern, filePath)) && posts != []
          then patch.authorId == Some(posts[0].authorId) && patch.createdAt == Some(posts[0].createdAt)
          else patch.authorId.None? && patch.createdAt.None?)
  {
    var topicMatch := Exec(TopicFilePattern, filePath);
    var topicId := ParseInt(topicMatch.GetOr(FileMatch("", None)).id);
    var isFirstPage := IsFirstPage(topicMatch);
    if !Truthy(topicId) {
      return Err(Assertion("Failed to extract Topic ID"));
    }
    var renderTimeStr := RenderTimeTs(tables);
    if renderTimeStr.Err? {
      return Err(renderTimeStr.error);
    }
    var renderTime := ToDate(renderTimeStr.value, None);
    if renderTime.Err? {
      return Err(renderTime.error);
    }
    if postTable.None? {
      return Ok(Skipped(topicId.value));
    }
    r := LoadPostRows(PostRowsOf(postTable.value), topicId.value, isFirstPage, renderTimeStr.value, renderTime.value,
                      fileText);
  }

  /**
   * The rest of `loadTopicFile` once the post table is found: the loop over
   * the pairs of post rows, then the topic patch, which takes the first
   * post's author and time on the first page only.
   */
  method LoadPostRows(postRows: seq<Row>, topicId: int, isFirstPage: bool, renderTimeStr: string,
                      renderTime: DateTime, fileText: string) returns (r: Result<TopicLoad, LoadError>)
    ensures r.Ok? <==> AllPairsOk(postRows, topicId, renderTimeStr, renderTime, fileText)
    ensures r.Ok? ==> r.value.Loaded?
    ensures r.Ok? ==>
      var (patch, users, posts) := (r.value.topic, r.value.users, r.value.posts);
      && patch.id == topicId
      && |posts| == |users| == Pairs(|postRows|)
      && (forall k :: 0 <= k < |posts| ==>
            PairPost(postRows, k, topicId, renderTimeStr, renderTime, fileText) == Ok((posts[k], users[k])))
      && (forall k :: 0 <= k < |posts| ==> posts[k].topicId == topicId && users[k].id == posts[k].authorId)
      && (if isFirstPage && posts != []
          then patch.authorId == Some(posts[0].authorId) && patch.createdAt == Some(posts[0].createdAt)
          else patch.authorId.None? && patch.createdAt.None?)
  {
    var pair := PairBuilder(postRows, topicId, renderTimeStr, renderTime, fileText);
    var collected := CollectPairs(|postRows|, pair);
    if collected.Err? {
      ghost var k :| 0 <= k < Pairs(|postRows|) && pair(k) == Err(collected.error);
      assert PairPost(postRows, k, topicId, renderTimeStr, renderTime, fileText).Err?;
      assert !AllPairsOk(postRows, topicId, renderTimeStr, renderTime, fileText);
      return Err(collected.error);
    }
    var (posts, usersUpdateData) := collected.value;
    forall k | 0 <= k < |posts|
      ensures PairPost(postRows, k, topicId, renderTimeStr, renderTime, fileText)
              == Ok((posts[k], usersUpdateData[k]))
    {
      assert pair(k) == Ok((posts[k], usersUpdateData[k]));
    }
    assert AllPairsOk(postRows, topicId, renderTimeStr, renderTime, fileText);
    // `firstPost` is the post of the iteration with `i === 0`, on the first page only.
    var firstPost: Option<Post> := if isFirstPage && posts != [] then Some(posts[0]) else None;
    forall k | 0 <= k < |posts|
      ensures posts[k].topicId == topicId && usersUpdateData[k].id == posts[k].authorId
    {
      assert PairPost(postRows, k, topicId, renderTimeStr, renderTime, fileText)
        == Ok((posts[k], usersUpdateData[k]));
    }
    var patch := TopicPatch(topicId,
                            if firstPost.Some? then Some(firstPost.value.authorId) else None,
                            if firstPost.Some? then Some(firstPost.value.createdAt) else None);
    return Ok(Loaded(patch, usersUpdateData, posts));
  }

  /** The database writes of `loadTopicFile`, skipped when only printing. */
  method StoreTopicLoad(m: Mirror, load: TopicLoad, printJson: bool)
    requires m.Valid()
    modifies m
    ensures m.Valid()
    ensures (printJson || load.Skipped?) ==>
      m.topics == old(m.topics) && m.users == old(m.users) && m.posts == old(m.posts)
    ensures !printJson && load.Loaded? ==>
      && m.topics == PatchTopics(old(m.topics), load.topic)
      && m.users == PatchAllUsers(old(m.users), load.users)
      && m.posts == InsertIgnore(old(m.posts), load.posts, (p: Post) => p.id)
    ensures m.categories == old(m.categories) && m.forums == old(m.forums) && m.stats == old(m.stats)
  {
    if !printJson && load.Loaded? {
      m.PatchTopicWhereNull(load.topic);
      m.PatchUsers(load.users);
      m.AddPosts(load.posts);
    }
  }
}
