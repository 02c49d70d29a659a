/**
 * `extractTopicInfoFromRow` (server/scripts/loader.ts): one row of the
 * topic table on a forum page. The row's images give the locked and pinned
 * flags, its links the topic (and, for a moved topic, the forum it came
 * from), and its cells the author's name and the view count.
 */
module TopicRows {
  import opened Wrappers
  import opened Text
  import opened FileKinds
  import opened PageData

  /** The `src` of each `img` of the row (`None` for an image without one), its links and the texts of its cells. */
  datatype TopicRow = TopicRow(imageSrcs: seq<Option<string>>, links: seq<Link>, cells: seq<string>)

  /** The partial topic record and its author's name. `views` is `None` where `parseInt` gives NaN. */
  datatype RowTopicInfo = RowTopicInfo(
    authorName: string, id: int, name: string, views: Option<int>,
    pinned: bool, locked: bool, movedFrom: Option<int>)

  const ForumFilePattern := Pattern(ForumPage, true)
  const TopicFilePattern := Pattern(TopicPage, true)

  /** `!!images.item(n)?.getAttribute('src')?.includes(word)`. */
  predicate ImageHas(srcs: seq<Option<string>>, n: nat, word: string) {
    n < |srcs| && srcs[n].Some? && Contains(srcs[n].value, word)
  }

  /** The first link points at a forum page: the topic was moved from there. */
  predicate IsMoved(row: TopicRow)
    requires row.links != []
  {
    Test(ForumFilePattern, HrefOf(row.links[0]))
  }

  /** The link that names the topic: the second one for a moved topic, the first otherwise. */
  function TopicLinkIndex(row: TopicRow): nat
    requires row.links != []
  {
    if IsMoved(row) then 1 else 0
  }

  /** `parseInt(TOPIC_FILE_REGEX.exec(href)?.[1])`, NaN (`None`) when the link is not a topic's. */
  function LinkTopicId(link: Link): Option<int> {
    ParseInt(Exec(TopicFilePattern, HrefOf(link)).GetOr(FileMatch("", None)).id)
  }

  function ExtractTopicInfoFromRow(row: TopicRow): (r: Result<RowTopicInfo, LoadError>)
    ensures row.links == [] ==> r.Err? && r.error.TypeError?
    ensures r.Ok? <==>
      && row.links != [] && TopicLinkIndex(row) < |row.links|
      && Truthy(LinkTopicId(row.links[TopicLinkIndex(row)]))
      && row.links[TopicLinkIndex(row)].text != [] && |row.cells| >= 5
    ensures row.links != [] && TopicLinkIndex(row) < |row.links| && !Truthy(LinkTopicId(row.links[TopicLinkIndex(row)])) ==>
      r == Err(Assertion("Failed to extract Topic ID"))
    ensures row.links != [] && TopicLinkIndex(row) < |row.links| && Truthy(LinkTopicId(row.links[TopicLinkIndex(row)]))
            && row.links[TopicLinkIndex(row)].text == [] ==>
      r == Err(Assertion("Failed to extract Topic name"))
    ensures r.Ok? ==> row.links != [] && TopicLinkIndex(row) < |row.links| && |row.cells| >= 5
    ensures r.Ok? ==> (r.value.locked <==> ImageHas(row.imageSrcs, 0, "locked"))
    ensures r.Ok? ==> (r.value.pinned <==> ImageHas(row.imageSrcs, 1, "clip"))
    ensures r.Ok? ==> (r.value.movedFrom.Some? <==> IsMoved(row))
    ensures r.Ok? && IsMoved(row) ==>
      r.value.movedFrom == Some(DigitsValue(Exec(ForumFilePattern, HrefOf(row.links[0])).value.id))
    ensures r.Ok? ==>
      var link := row.links[TopicLinkIndex(row)];
      && Exec(TopicFilePattern, HrefOf(link)).Some?
      && r.value.id == DigitsValue(Exec(TopicFilePattern, HrefOf(link)).value.id) && r.value.id != 0
      && r.value.name == link.text && r.value.name != []
    ensures r.Ok? ==> r.value.authorName == Trim(row.cells[2]) && r.value.views == ParseInt(row.cells[4])
  {
    var locked := ImageHas(row.imageSrcs, 0, "locked");
    var pinned := ImageHas(row.imageSrcs, 1, "clip");
    if row.links == [] then Err(TypeError("getAttribute of a missing link"))
    else
      var k := TopicLinkIndex(row);
      var movedFrom :=
        if IsMoved(row) then Some(DigitsValue(Exec(ForumFilePattern, HrefOf(row.links[0])).value.id))
        else None;
      if k >= |row.links| then Err(TypeError("textContent of a missing link"))
      else
        var link := row.links[k];
        var id := LinkTopicId(link);
        if !Truthy(id) then Err(Assertion("Failed to extract Topic ID"))
        else if link.text == [] then Err(Assertion("Failed to extract Topic name"))
        else if |row.cells| < 5 then Err(TypeError("textContent of a missing cell"))
        else
          Ok(RowTopicInfo(Trim(row.cells[2]), id.value, link.text, ParseInt(row.cells[4]),
                          pinned, locked, movedFrom))
  }
}
