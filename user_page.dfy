/**
 * `loadUserFile` of server/scripts/loader.js: a user's profile page. The
 * page does not lend itself to selectors, so the importer takes a fixed
 * window of the body's child nodes, drops the blank ones, peels off the
 * name node, the "Contact" label and (when present) the avatar node and
 * its label, and reads what remains as label/value pairs.
 */
module UserPage {
  import opened Wrappers
  import opened Text
  import opened Dates
  import opened FileKinds
  import opened PageData
  import opened MirrorStore

  /**
   * A child node of the page body: its serialisation (`toString()`, tags
   * included), its text (`.text`), and the `src` of its first child node
   * (`None` when it has no child or the child has no `src`).
   */
  datatype InfoNode = InfoNode(html: string, text: string, firstChildSrc: Option<string>)

  /** Where the nodes stand once the leading and trailing special nodes are taken off. */
  datatype Layout = Layout(nameNode: InfoNode, avatarNode: Option<InfoNode>, fieldNodes: seq<InfoNode>)

  /** What a user page yields: nothing for a blank page, else the user's record. */
  datatype UserLoad = BlankPage(userId: int) | Profile(user: User)

  /** The label/value fields read off the page; `None` is a field shown empty (`null`). */
  type Fields = map<string, Option<string>>

  const UserFilePattern := Pattern(UserInfo, false)

  /** `slice(21, 70)` takes at most this window of the body's children. */
  const WindowStart := 21
  const WindowEnd := 70

  // ---------------------------------------------------------------------------
  // The node list
  // ---------------------------------------------------------------------------

  /** `nodes.slice(21, 70)`. */
  function Window(nodes: seq<InfoNode>): (r: seq<InfoNode>)
    ensures |nodes| <= WindowStart ==> r == []
    ensures |nodes| > WindowStart ==> |r| == (if |nodes| < WindowEnd then |nodes| else WindowEnd) - WindowStart
    ensures forall k :: 0 <= k < |r| ==> r[k] == nodes[WindowStart + k]
  {
    if |nodes| <= WindowStart then []
    else nodes[WindowStart..if |nodes| < WindowEnd then |nodes| else WindowEnd]
  }

  /** `node.toString().trim().length > 0`: the node has more than white space, tags included. */
  predicate NotBlank(node: InfoNode) {
    Trim(node.html) != []
  }

  function NotBlankTest(): InfoNode -> bool {
    node => NotBlank(node)
  }

  /** The nodes left once the window is cut and the blank nodes are dropped. */
  function KeptNodes(body: seq<InfoNode>): seq<InfoNode> {
    Filter(Window(body), NotBlankTest())
  }

  /**
   * Two `shift`s (the name node and the "Contact" label), then two `pop`s
   * (the avatar node and the "Avatar" label) when the second-to-last node
   * mentions "Avatar". With fewer than two nodes after the shifts, `at(-2)`
   * is `undefined` and its `toString` a `TypeError`.
   */
  function LayoutOf(kept: seq<InfoNode>): (r: Result<Layout, LoadError>)
    requires kept != []
    ensures r.Ok? <==> |kept| >= 4
    ensures r.Ok? ==> r.value.nameNode == kept[0]
    ensures r.Ok? ==> (r.value.avatarNode.Some? <==> Contains(kept[|kept| - 2].html, "Avatar"))
    ensures r.Ok? && r.value.avatarNode.Some? ==>
              r.value.avatarNode.value == kept[|kept| - 1] && r.value.fieldNodes == kept[2..|kept| - 2]
    ensures r.Ok? && r.value.avatarNode.None? ==> r.value.fieldNodes == kept[2..]
  {
    var rest := kept[if |kept| >= 2 then 2 else 1..];
    if |rest| < 2 then Err(TypeError("toString of a missing node"))
    else if Contains(rest[|rest| - 2].html, "Avatar") then
      Ok(Layout(kept[0], Some(rest[|rest| - 1]), rest[..|rest| - 2]))
    else Ok(Layout(kept[0], None, rest))
  }

  // ---------------------------------------------------------------------------
  // Label/value pairs
  // ---------------------------------------------------------------------------

  /** `node.text.split(':')[0]`: the label up to its first colon. */
  function FieldName(node: InfoNode): string {
    Split(node.text, ":")[0]
  }

  /** `nodes[i + 1]?.text || null`. */
  function FieldValue(nodes: seq<InfoNode>, i: nat): (r: Option<string>)
    ensures r.Some? <==> i + 1 < |nodes| && nodes[i + 1].text != []
    ensures r.Some? ==> r.value == nodes[i + 1].text
  {
    if i + 1 < |nodes| && nodes[i + 1].text != [] then Some(nodes[i + 1].text) else None
  }

  /** The number of iterations of `for (i = 0; i < n; i += 2)`. */
  function Pairs(n: nat): nat {
    (n + 1) / 2
  }

  /** The (label, value) pair read in each iteration of the loop. */
  function FieldPairs(nodes: seq<InfoNode>): (r: seq<(string, Option<string>)>)
    ensures |r| == Pairs(|nodes|)
    ensures forall k :: 0 <= k < |r| ==> 2 * k < |nodes| && r[k] == (FieldName(nodes[2 * k]), FieldValue(nodes, 2 * k))
  {
    seq(Pairs(|nodes|), k requires 0 <= k < Pairs(|nodes|) => (FieldName(nodes[2 * k]), FieldValue(nodes, 2 * k)))
  }

  /** The object the assignments `userFields[name] = value` build, in order: a later label overwrites. */
  function FieldMap(pairs: seq<(string, Option<string>)>): Fields {
    if pairs == [] then map[]
    else FieldMap(pairs[..|pairs| - 1])[pairs[|pairs| - 1].0 := pairs[|pairs| - 1].1]
  }

  /** One more assignment: the map of the first `j + 1` pairs is that of the first `j` with pair `j` written. */
  lemma FieldMapStep(pairs: seq<(string, Option<string>)>, j: nat)
    requires j < |pairs|
    ensures FieldMap(pairs[..j + 1]) == FieldMap(pairs[..j])[pairs[j].0 := pairs[j].1]
  {
    assert pairs[..j + 1][..j] == pairs[..j];
  }

  /** The loop of `loadUserFile` that fills `userFields`. */
  method FillFields(nodes: seq<InfoNode>) returns (userFields: Fields)
    ensures userFields == FieldMap(FieldPairs(nodes))
  {
    ghost var pairs := FieldPairs(nodes);
    userFields := map[];
    var i := 0;
    ghost var j := 0;
    while i < |nodes|
      invariant i == 2 * j && j <= |pairs|
      invariant userFields == FieldMap(pairs[..j])
      decreases |nodes| - i
    {
      var fieldName := FieldName(nodes[i]);
      assert pairs[j] == (fieldName, FieldValue(nodes, i));
      FieldMapStep(pairs, j);
      userFields := userFields[fieldName := FieldValue(nodes, i)];
      i := i + 2;
      j := j + 1;
    }
    TakeAll(pairs);
  }

  lemma TakeAll<T>(xs: seq<T>)
    ensures xs[..|xs|] == xs
  {
  }

  function Labels(pairs: seq<(string, Option<string>)>): set<string> {
    set k | 0 <= k < |pairs| :: pairs[k].0
  }

  lemma LabelsStep(pairs: seq<(string, Option<string>)>)
    requires pairs != []
    ensures Labels(pairs) == Labels(pairs[..|pairs| - 1]) + {pairs[|pairs| - 1].0}
  {
    var p := pairs[..|pairs| - 1];
    forall l | l in Labels(pairs)
      ensures l in Labels(p) + {pairs[|pairs| - 1].0}
    {
      var k :| 0 <= k < |pairs| && pairs[k].0 == l;
      if k < |pairs| - 1 {
        assert p[k] == pairs[k];
      }
    }
    forall l | l in Labels(p)
      ensures l in Labels(pairs)
    {
      var k :| 0 <= k < |p| && p[k].0 == l;
      assert pairs[k] == p[k];
    }
  }

  /** The fields are exactly the labels read. */
  lemma {:induction false} FieldKeys(pairs: seq<(string, Option<string>)>)
    ensures FieldMap(pairs).Keys == Labels(pairs)
  {
    if pairs != [] {
      FieldKeys(pairs[..|pairs| - 1]);
      LabelsStep(pairs);
    }
  }

  /** The pair at `k` is the last one with its label. */
  predicate LastWithLabel(pairs: seq<(string, Option<string>)>, k: int) {
    0 <= k < |pairs| && forall j :: k < j < |pairs| ==> pairs[j].0 != pairs[k].0
  }

  /** A field holds the value of the last pair carrying its label. */
  lemma {:induction false} LastLabelWins(pairs: seq<(string, Option<string>)>, name: string)
    requires name in FieldMap(pairs)
    ensures exists k :: LastWithLabel(pairs, k) && pairs[k].0 == name && FieldMap(pairs)[name] == pairs[k].1
  {
    var n := |pairs| - 1;
    var p := pairs[..n];
    if pairs[n].0 == name {
      assert LastWithLabel(pairs, n);
    } else {
      LastLabelWins(p, name);
      var k :| LastWithLabel(p, k) && p[k].0 == name && FieldMap(p)[name] == p[k].1;
      assert pairs[k] == p[k];
      assert LastWithLabel(pairs, k);
    }
  }

  /**
   * The label/value reading of the node list: a field is the label of an
   * even position, and holds the text of the node after the last label of
   * that name (`None` when that node is empty or missing).
   */
  lemma FieldsOfNodes(nodes: seq<InfoNode>, name: string)
    ensures name in FieldMap(FieldPairs(nodes)) <==>
      exists k :: 0 <= k < Pairs(|nodes|) && FieldName(nodes[2 * k]) == name
    ensures name in FieldMap(FieldPairs(nodes)) ==>
      exists k :: 0 <= k < Pairs(|nodes|) && FieldName(nodes[2 * k]) == name
        && FieldMap(FieldPairs(nodes))[name] == FieldValue(nodes, 2 * k)
        && forall j :: k < j < Pairs(|nodes|) ==> FieldName(nodes[2 * j]) != name
  {
    var pairs := FieldPairs(nodes);
    FieldKeys(pairs);
    if name in FieldMap(pairs) {
      LastLabelWins(pairs, name);
      var k :| LastWithLabel(pairs, k) && pairs[k].0 == name && FieldMap(pairs)[name] == pairs[k].1;
      assert FieldName(nodes[2 * k]) == name;
    } else {
      forall k | 0 <= k < Pairs(|nodes|)
        ensures FieldName(nodes[2 * k]) != name
      {
        assert pairs[k].0 in Labels(pairs);
      }
    }
  }

  // ---------------------------------------------------------------------------
  // The record
  // ---------------------------------------------------------------------------

  /** `userFields[key]`, with a missing label and an empty value both read as absent. */
  function Lookup(fields: Fields, key: string): (r: Option<string>)
    ensures r.Some? <==> key in fields && fields[key].Some?
    ensures r.Some? ==> r == fields[key]
  {
    if key in fields then fields[key] else None
  }

  /** `stringToDate(userFields[key], renderTime)`: a missing or empty field has no `startsWith`. */
  function DateField(fields: Fields, key: string, renderTime: string): (r: Result<DateTime, LoadError>)
    ensures Lookup(fields, key).None? ==> r.Err? && r.error.TypeError?
    ensures Lookup(fields, key).Some? ==> r == ToDate(Lookup(fields, key).value, Some(renderTime))
  {
    match Lookup(fields, key)
    case None => Err(TypeError("startsWith of a missing field"))
    case Some(s) => ToDate(s, Some(renderTime))
  }

  /** `nameNode.text.split(': ')[1].trim()`. */
  function UserNameOf(nameNode: InfoNode): (r: Result<string, LoadError>)
    ensures r.Ok? <==> SplitPart(nameNode.text, ": ", 1).Some?
    ensures r.Ok? ==> r.value == Trim(SplitPart(nameNode.text, ": ", 1).value)
  {
    match SplitPart(nameNode.text, ": ", 1)
    case None => Err(TypeError("trim of a missing name"))
    case Some(n) => Ok(Trim(n))
  }

  /** `avatarNode.childNodes[0]?.getAttribute('src')?.replace('avatars/', '')`. */
  function AvatarOf(avatarNode: Option<InfoNode>): (r: Option<string>)
    ensures r.Some? <==> avatarNode.Some? && avatarNode.value.firstChildSrc.Some?
    ensures r.Some? ==> r.value == ReplaceFirst(avatarNode.value.firstChildSrc.value, "avatars/", "")
  {
    if avatarNode.Some? && avatarNode.value.firstChildSrc.Some?
    then Some(ReplaceFirst(avatarNode.value.firstChildSrc.value, "avatars/", ""))
    else None
  }

  /** `avatarNode.text.trim() || null`. */
  function AvatarQuoteOf(avatarNode: Option<InfoNode>): (r: Option<string>)
    ensures r.Some? <==> avatarNode.Some? && Trim(avatarNode.value.text) != []
    ensures r.Some? ==> r.value == Trim(avatarNode.value.text)
  {
    if avatarNode.Some? && Trim(avatarNode.value.text) != [] then Some(Trim(avatarNode.value.text)) else None
  }

  /**
   * The record `loadUserFile` logs, evaluated in the source's order: the
   * user name, then `joined_at`, `last_visit_at` and `mirrored_at`.
   */
  function UserRecordOf(userId: int, layout: Layout, fields: Fields, renderTime: string): (r: Result<User, LoadError>)
    ensures r.Ok? ==> UserNameOf(layout.nameNode) == Ok(r.value.name) && r.value.id == userId
    ensures r.Ok? ==> DateField(fields, "Joined", renderTime) == Ok(r.value.joinedAt)
    ensures r.Ok? ==> DateField(fields, "Last Visit", renderTime) == Ok(r.value.lastVisitAt)
    ensures r.Ok? ==> ToDate(renderTime, None) == Ok(r.value.mirroredAt)
    ensures r.Ok? ==> r.value.avatar == AvatarOf(layout.avatarNode) && r.value.quote == AvatarQuoteOf(layout.avatarNode)
    ensures r.Ok? ==> r.value.special.None?
    ensures r.Ok? ==>
      && r.value.location == Lookup(fields, "Location") && r.value.occupation == Lookup(fields, "Occupation")
      && r.value.interests == Lookup(fields, "Interests") && r.value.age == Lookup(fields, "Your Age")
      && r.value.gamesPlayed == Lookup(fields, "What Games do you play")
    ensures r.Ok? <==> UserNameOf(layout.nameNode).Ok? && DateField(fields, "Joined", renderTime).Ok?
                       && DateField(fields, "Last Visit", renderTime).Ok? && ToDate(renderTime, None).Ok?
    ensures UserNameOf(layout.nameNode).Err? ==> r == Err(UserNameOf(layout.nameNode).error)
    ensures UserNameOf(layout.nameNode).Ok? && DateField(fields, "Joined", renderTime).Err? ==>
      r == Err(DateField(fields, "Joined", renderTime).error)
    ensures UserNameOf(layout.nameNode).Ok? && DateField(fields, "Joined", renderTime).Ok?
            && DateField(fields, "Last Visit", renderTime).Err? ==>
      r == Err(DateField(fields, "Last Visit", renderTime).error)
    ensures UserNameOf(layout.nameNode).Ok? && DateField(fields, "Joined", renderTime).Ok?
            && DateField(fields, "Last Visit", renderTime).Ok? && ToDate(renderTime, None).Err? ==>
      r == Err(ToDate(renderTime, None).error)
  {
    match UserNameOf(layout.nameNode)
    case Err(e) => Err(e)
    case Ok(userName) =>
      match DateField(fields, "Joined", renderTime)
      case Err(e) => Err(e)
      case Ok(joinedAt) =>
        match DateField(fields, "Last Visit", renderTime)
        case Err(e) => Err(e)
        case Ok(lastVisitAt) =>
          match ToDate(renderTime, None)
          case Err(e) => Err(e)
          case Ok(mirroredAt) =>
            Ok(User(userId, userName, joinedAt, lastVisitAt, None,
                    AvatarOf(layout.avatarNode), AvatarQuoteOf(layout.avatarNode),
                    Lookup(fields, "Location"), Lookup(fields, "Occupation"), Lookup(fields, "Interests"),
                    Lookup(fields, "Your Age"), Lookup(fields, "What Games do you play"), mirroredAt))
  }

  // ---------------------------------------------------------------------------
  // loadUserFile
  // ---------------------------------------------------------------------------

  /** The id in the file name, `parseInt(USER_FILE_REGEX.exec(name)[1])`. */
  function UserIdOf(fileName: string): (r: Option<int>)
    ensures r.Some? <==> Exec(UserFilePattern, fileName).Some?
    ensures r.Some? ==> r.value == DigitsValue(Exec(UserFilePattern, fileName).value.id)
  {
    match Exec(UserFilePattern, fileName)
    case None => None
    case Some(m) => Some(DigitsValue(m.id))
  }

  /**
   * What `loadUserFile` makes of a page: `fileName` is the file's base
   * name, `body` the children of the root's second child (`None` when it
   * has none), `tables` the texts of the page's tables and `pageText` its
   * text.
   */
  function UserPageOf(fileName: string, body: Option<seq<InfoNode>>, tables: seq<string>, pageText: string):
    (r: Result<UserLoad, LoadError>)
  {
    match UserIdOf(fileName)
    case None => Err(TypeError("[1] of a failed match"))
    case Some(userId) =>
      if body.None? then Err(TypeError("childNodes of a missing node"))
      else
        var kept := KeptNodes(body.value);
        if kept == [] then Ok(BlankPage(userId))
        else ProfileOf(userId, kept, tables, pageText)
  }

  /** The record read from the non-blank nodes `kept` of a page. */
  function ProfileOf(userId: int, kept: seq<InfoNode>, tables: seq<string>, pageText: string):
    (r: Result<UserLoad, LoadError>)
    requires kept != []
    ensures r.Ok? ==> r.value.Profile? && r.value.user.id == userId
    ensures r.Ok? ==> LayoutOf(kept).Ok? && RenderTimeJsOf(tables, pageText).Ok?
  {
    match LayoutOf(kept)
    case Err(e) => Err(e)
    case Ok(layout) =>
      var fields := FieldMap(FieldPairs(layout.fieldNodes));
      match RenderTimeJsOf(tables, pageText)
      case Err(e) => Err(e)
      case Ok(renderTime) =>
        match UserRecordOf(userId, layout, fields, renderTime)
        case Err(e) => Err(e)
        case Ok(user) => Ok(Profile(user))
  }

  /** `loadUserFile(filepath, htmlRoot)` up to the record it logs. */
  method LoadUserFile(fileName: string, body: Option<seq<InfoNode>>, tables: seq<string>, pageText: string)
    returns (r: Result<UserLoad, LoadError>)
    ensures r == UserPageOf(fileName, body, tables, pageText)
  {
    var userId := UserIdOf(fileName);
    if userId.None? {
      return Err(TypeError("[1] of a failed match"));
    }
    if body.None? {
      return Err(TypeError("childNodes of a missing node"));
    }
    var userInfoNodes := Window(body.value);
    userInfoNodes := Filter(userInfoNodes, NotBlankTest());
    if |userInfoNodes| == 0 {
      return Ok(BlankPage(userId.value));
    }
    r := ReadProfile(userId.value, userInfoNodes, tables, pageText);
  }

  /** The part of `loadUserFile` after the blank-page check. */
  method ReadProfile(userId: int, kept: seq<InfoNode>, tables: seq<string>, pageText: string)
    returns (r: Result<UserLoad, LoadError>)
    requires kept != []
    ensures r == ProfileOf(userId, kept, tables, pageText)
  {
    var userInfoNodes := kept;
    var nameNode := userInfoNodes[0];
    userInfoNodes := userInfoNodes[1..];
    if userInfoNodes != [] {
      userInfoNodes := userInfoNodes[1..];   // the "Contact" label
    }
    if |userInfoNodes| < 2 {
      return Err(TypeError("toString of a missing node"));
    }
    assert userInfoNodes == kept[2..];
    var avatarNode: Option<InfoNode> := None;
    if Contains(userInfoNodes[|userInfoNodes| - 2].html, "Avatar") {
      avatarNode := Some(userInfoNodes[|userInfoNodes| - 1]);
      PopTwice(kept, userInfoNodes);
      userInfoNodes := userInfoNodes[..|userInfoNodes| - 1];
      userInfoNodes := userInfoNodes[..|userInfoNodes| - 1];   // the "Avatar" label
    }
    var layout := Layout(nameNode, avatarNode, userInfoNodes);
    assert LayoutOf(kept) == Ok(layout);
    var userFields := FillFields(userInfoNodes);
    var renderTime := RenderTimeJs(tables, pageText);
    if renderTime.Err? {
      return Err(renderTime.error);
    }
    var user := UserRecordOf(userId, layout, userFields, renderTime.value);
    if user.Err? {
      return Err(user.error);
    }
    return Ok(Profile(user.value));
  }

  /** Two `pop`s off the nodes after the first two leave the middle of `kept`. */
  lemma PopTwice(kept: seq<InfoNode>, u: seq<InfoNode>)
    requires |kept| >= 4 && u == kept[2..]
    ensures u[..|u| - 1][..|u| - 2] == kept[2..|kept| - 2]
  {
  }

  // ---------------------------------------------------------------------------
  // Properties
  // ---------------------------------------------------------------------------

  /** A page is skipped, with no record, exactly when every node of the window is blank. */
  lemma BlankPageSkipped(fileName: string, body: seq<InfoNode>, tables: seq<string>, pageText: string)
    requires Exec(UserFilePattern, fileName).Some?
    ensures (UserPageOf(fileName, Some(body), tables, pageText) == Ok(BlankPage(UserIdOf(fileName).value))) <==>
              forall k :: 0 <= k < |Window(body)| ==> !NotBlank(Window(body)[k])
    ensures forall k :: 0 <= k < |KeptNodes(body)| ==> NotBlank(KeptNodes(body)[k])
  {
    var userId := UserIdOf(fileName).value;
    var kept := KeptNodes(body);
    assert UserPageOf(fileName, Some(body), tables, pageText) ==
      if kept == [] then Ok(BlankPage(userId)) else ProfileOf(userId, kept, tables, pageText);
    KeptEmpty(body);
    KeptNotBlank(body);
  }

  /** No node is kept exactly when every node of the window is blank. */
  lemma KeptEmpty(body: seq<InfoNode>)
    ensures KeptNodes(body) == [] <==> forall k :: 0 <= k < |Window(body)| ==> !NotBlank(Window(body)[k])
  {
    var w := Window(body);
    if forall k :: 0 <= k < |w| ==> !NotBlank(w[k]) {
      assert forall k :: 0 <= k < |w| ==> !NotBlankTest()(w[k]);
    } else {
      var k :| 0 <= k < |w| && NotBlank(w[k]);
      assert NotBlankTest()(w[k]);
    }
  }

  /** Every kept node is non-blank. */
  lemma KeptNotBlank(body: seq<InfoNode>)
    ensures forall k :: 0 <= k < |KeptNodes(body)| ==> NotBlank(KeptNodes(body)[k])
  {
    forall k | 0 <= k < |KeptNodes(body)|
      ensures NotBlank(KeptNodes(body)[k])
    {
      assert NotBlankTest()(KeptNodes(body)[k]);
    }
  }

  /**
   * A profile is read from at least four nodes: the first names the user,
   * the avatar (and so the avatar and quote) comes from the last node exactly
   * when the second-to-last mentions "Avatar", and each record field is the
   * field of that label among the nodes in between.
   */
  lemma ProfileLayout(fileName: string, body: seq<InfoNode>, tables: seq<string>, pageText: string)
    requires UserPageOf(fileName, Some(body), tables, pageText).Ok?
    requires UserPageOf(fileName, Some(body), tables, pageText).value.Profile?
    ensures |KeptNodes(body)| >= 4 && RenderTimeJsOf(tables, pageText).Ok?
    ensures var kept := KeptNodes(body);
      var user := UserPageOf(fileName, Some(body), tables, pageText).value.user;
      var hasAvatar := Contains(kept[|kept| - 2].html, "Avatar");
      var fields := FieldMap(FieldPairs(if hasAvatar then kept[2..|kept| - 2] else kept[2..]));
      && user.id == UserIdOf(fileName).value
      && UserNameOf(kept[0]) == Ok(user.name)
      && (hasAvatar ==> user.avatar == AvatarOf(Some(kept[|kept| - 1])) && user.quote == AvatarQuoteOf(Some(kept[|kept| - 1])))
      && (!hasAvatar ==> user.avatar.None? && user.quote.None?)
      && DateField(fields, "Joined", RenderTimeJsOf(tables, pageText).value) == Ok(user.joinedAt)
      && DateField(fields, "Last Visit", RenderTimeJsOf(tables, pageText).value) == Ok(user.lastVisitAt)
      && ToDate(RenderTimeJsOf(tables, pageText).value, None) == Ok(user.mirroredAt)
      && user.special.None?
      && user.location == Lookup(fields, "Location") && user.occupation == Lookup(fields, "Occupation")
      && user.interests == Lookup(fields, "Interests") && user.age == Lookup(fields, "Your Age")
      && user.gamesPlayed == Lookup(fields, "What Games do you play")
  {
    var userId := UserIdOf(fileName).value;
    var kept := KeptNodes(body);
    assert kept != [];
    var page := ProfileOf(userId, kept, tables, pageText);
    var layout := LayoutOf(kept).value;
    var fields := FieldMap(FieldPairs(layout.fieldNodes));
    var renderTime := RenderTimeJsOf(tables, pageText).value;
    var user := UserRecordOf(userId, layout, fields, renderTime);
    assert page == Ok(Profile(user.value));
  }
}
