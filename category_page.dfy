/**
 * `loadHomeCategoryFile` (server/scripts/loader.ts): a category sub-page
 * of the home page. Its file name carries the category id; the rows of its
 * second table are a constant header, the outer category row, the
 * category's own row (its name in bold) and then one row per forum.
 */
module CategoryPage {
  import opened Wrappers
  import opened Text
  import opened Dates
  import opened FileKinds
  import opened PageRegexes
  import opened PageData
  import opened MirrorStore

  /**
   * What the extractor reads off one table row: the text of its first `b`,
   * and in its second cell the `src` of the first image, the first link and
   * the text of the `div.SMALL`. Each is `None` when the element (or the
   * cell) is missing.
   */
  datatype TableRow = TableRow(
    bold: Option<string>, imageSrc: Option<string>, link: Option<Link>, small: Option<string>)

  const HomeCategoryPattern := Pattern(HomeCategory, true)

  /** `!!src?.includes(word)`. */
  predicate SrcHas(src: Option<string>, word: string) {
    src.Some? && Contains(src.value, word)
  }

  /** The record `forumRows.map` builds from the forum row at position `index`. */
  function ForumOf(row: TableRow, index: nat, categoryId: int, at: DateTime): (r: Result<Forum, LoadError>)
    ensures r.Ok? <==> row.link.Some? && row.link.value.text != []
                       && IdExec(ForumIdLiteral, HrefOf(row.link.value)).Some? && row.small.Some?
    ensures r.Ok? ==> r.value.sortIndex == index && r.value.categoryId == categoryId
    ensures r.Ok? ==> (r.value.locked <==> SrcHas(row.imageSrc, "icon_lock"))
    ensures r.Ok? ==> r.value.name == row.link.value.text && r.value.description == row.small.value
    ensures r.Ok? ==> r.value.id == DigitsValue(IdExec(ForumIdLiteral, HrefOf(row.link.value)).value)
    ensures r.Ok? ==> r.value.mirroredAt == at
  {
    var locked := SrcHas(row.imageSrc, "icon_lock");
    match row.link
    case None => Err(Assertion("Failed to extract a Forum link"))
    case Some(link) =>
      if link.text == [] then Err(Assertion("Failed to extract Forum name"))
      else
        match ParseInt(IdExec(ForumIdLiteral, HrefOf(link)).GetOr(""))
        case None => Err(Assertion("Failed to parse Forum ID"))
        case Some(id) =>
          match row.small
          case None => Err(Assertion("Failed to extract Forum description"))
          case Some(desc) =>
            Ok(Forum(id, index, link.text, locked, desc, categoryId, at))
  }

  /** The record builder `forumRows.map` applies, for the category `categoryId`. */
  function ForumBuilder(categoryId: int, at: DateTime): (TableRow, nat) -> Result<Forum, LoadError> {
    (row: TableRow, index: nat) => ForumOf(row, index, categoryId, at)
  }

  /**
   * `loadHomeCategoryFile` up to the database writes: the category and its
   * forums, or the reason the file was rejected. `tables` are the texts of
   * the page's tables (for the render time) and `rows` the rows of the
   * category table (none when that table is missing).
   */
  method LoadHomeCategoryFile(fileName: string, tables: seq<string>, rows: seq<TableRow>)
    returns (r: Result<(Category, seq<Forum>), LoadError>)
    ensures Exec(HomeCategoryPattern, fileName).None? ==> r == Err(Assertion("Failed to extract Category ID"))
    ensures Exec(HomeCategoryPattern, fileName).Some? && RenderTimeTs(tables).Ok?
            && ToDate(RenderTimeTs(tables).value, None).Ok? && rows == [] ==>
              r == Err(Assertion("Failed to extract Forum rows from Category"))
    ensures Exec(HomeCategoryPattern, fileName).Some? && RenderTimeTs(tables).Err? ==> r == Err(RenderTimeTs(tables).error)
    ensures Exec(HomeCategoryPattern, fileName).Some? && RenderTimeTs(tables).Ok?
            && ToDate(RenderTimeTs(tables).value, None).Ok? && rows != []
            && (|rows| < 3 || rows[2].bold.None? || rows[2].bold.value == []) ==>
              r == Err(Assertion("Failed to extract Category name"))
    ensures r.Ok? <==>
      && Exec(HomeCategoryPattern, fileName).Some?
      && RenderTimeTs(tables).Ok? && ToDate(RenderTimeTs(tables).value, None).Ok?
      && |rows| >= 3 && rows[2].bold.Some? && rows[2].bold.value != []
      && forall k :: 3 <= k < |rows| ==>
           ForumOf(rows[k], k - 3, DigitsValue(Exec(HomeCategoryPattern, fileName).value.id),
                   ToDate(RenderTimeTs(tables).value, None).value).Ok?
    ensures r.Ok? ==> Exec(HomeCategoryPattern, fileName).Some? && |rows| >= 3 && rows[2].bold.Some?
    ensures r.Ok? ==> RenderTimeTs(tables).Ok? && ToDate(RenderTimeTs(tables).value, None) == Ok(r.value.0.mirroredAt)
    ensures r.Ok? ==>
      var (category, forums) := r.value;
      && category.id == DigitsValue(Exec(HomeCategoryPattern, fileName).value.id)
      && category.sortIndex == 0
      && category.name == rows[2].bold.value && category.name != []
      && |forums| == |rows| - 3
      && forall k :: 0 <= k < |forums| ==>
           ForumOf(rows[k + 3], k, category.id, category.mirroredAt) == Ok(forums[k])
           && forums[k].sortIndex == k && forums[k].categoryId == category.id
  {
    var catIdMatch := Exec(HomeCategoryPattern, fileName);
    if catIdMatch.None? {
      return Err(Assertion("Failed to extract Category ID"));
    }
    var categoryId := DigitsValue(catIdMatch.value.id);
    var renderText := RenderTimeTs(tables);
    if renderText.Err? {
      return Err(renderText.error);
    }
    var renderTime := ToDate(renderText.value, None);
    if renderTime.Err? {
      return Err(renderTime.error);
    }
    var forumRows := rows;
    if forumRows == [] {
      return Err(Assertion("Failed to extract Forum rows from Category"));
    }
    forumRows := forumRows[1..];              // the constant header
    if forumRows != [] {
      forumRows := forumRows[1..];            // the outer category row
    }
    var categoryRow: Option<TableRow> := None;
    if forumRows != [] {
      categoryRow := Some(forumRows[0]);
      forumRows := forumRows[1..];
    }
    assert categoryRow.Some? <==> |rows| >= 3;
    assert categoryRow.Some? ==> categoryRow.value == rows[2];
    if categoryRow.None? || categoryRow.value.bold.None? || categoryRow.value.bold.value == [] {
      return Err(Assertion("Failed to extract Category name"));
    }
    assert forumRows == rows[3..];
    var category := Category(categoryId, 0, categoryRow.value.bold.value, renderTime.value);
    var forums := MapRows(forumRows, 0, ForumBuilder(categoryId, renderTime.value));
    ForumRowsOk(rows, categoryId, renderTime.value);
    if forums.Err? {
      return Err(forums.error);
    }
    return Ok((category, forums.value));
  }

  /** Mapping the forum rows succeeds exactly when every forum row yields a record. */
  lemma ForumRowsOk(rows: seq<TableRow>, categoryId: int, at: DateTime)
    requires |rows| >= 3
    ensures MapRows(rows[3..], 0, ForumBuilder(categoryId, at)).Ok? <==>
              forall k :: 3 <= k < |rows| ==> ForumOf(rows[k], k - 3, categoryId, at).Ok?
  {
    var f := ForumBuilder(categoryId, at);
    assert forall k :: 0 <= k < |rows[3..]| ==> f(rows[3..][k], k) == ForumOf(rows[k + 3], k, categoryId, at);
    if forall k :: 3 <= k < |rows| ==> ForumOf(rows[k], k - 3, categoryId, at).Ok? {
      assert forall k :: 0 <= k < |rows[3..]| ==> f(rows[3..][k], k).Ok?;
    } else {
      var k :| 3 <= k < |rows| && ForumOf(rows[k], k - 3, categoryId, at).Err?;
      assert f(rows[3..][k - 3], k - 3).Err?;
    }
  }

  /** The database writes of `loadHomeCategoryFile`, skipped when only printing. */
  method StoreCategoryLoad(m: Mirror, category: Category, forums: seq<Forum>, printJson: bool)
    requires m.Valid()
    modifies m
    ensures m.Valid()
    ensures printJson ==> m.categories == old(m.categories) && m.forums == old(m.forums)
    ensures !printJson ==>
      && m.categories == InsertIgnore(old(m.categories), [category], (c: Category) => c.id)
      && m.forums == InsertIgnore(old(m.forums), forums, (f: Forum) => f.id)
    ensures m.users == old(m.users) && m.topics == old(m.topics) && m.posts == old(m.posts) && m.stats == old(m.stats)
  {
    if !printJson {
      m.AddCategory(category);
      m.AddForums(forums);
    }
  }
}
