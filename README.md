# Halomaps mirror importer, storage and client helpers, in Dafny

This project models the core of Halomaps and proves properties about the model. Halomaps rebuilds an old forum from an offline mirror of its HTML pages. The parts modelled are these:

- **The mirror importer** (server/scripts/loader.ts and its older sibling loader.js):
  - how file names are classified and dispatched, kind by kind;
  - how the forum's dates are read, including "Today @ …" and "Yesterday @ …";
  - the row rules for category, forum, topic and user pages;
  - the fallback line scan for post content;
  - the author clean-up that decides which topics lose their `author_id`.
- **The storage operations the importer calls** (server/database/mirror_insert.ts and .js). These are modelled as a class `Mirror` whose tables are maps keyed by id or name, with one method per operation.
- **Client helpers:**
  - the page-jump list of the page control (client/src/components/PageControl.tsx);
  - URL normalisation (client/src/url.ts);
  - the case-insensitive search parameters class;
  - the id map builders `mapById` and `idMap`.

Pages are not parsed. Each extractor receives the records it would read off the DOM: the texts of tables, rows with their links, cells and images, and the child nodes of a cell. A missing element is an `Option`. A failed `assert`, a thrown `Error` and a `TypeError` from reading a property of a missing element are all error values of `PageData.LoadError`. The importer's regular expressions are written as hand-made matchers that find the leftmost match, like `exec` does.

Modules, one per file:

| module | what it holds |
|---|---|
| `Wrappers` | `Option` and `Result` |
| `Text` | the JavaScript string built-ins used: `trim`, `split`, `includes`, `toLowerCase`, `Number.parseInt` |
| `Dates` | civil date-times, the two Luxon formats, `stringToDateInner` and `stringToDate` |
| `FileKinds` | the file-name patterns of both loaders |
| `Dispatch` | `loadDirectory` and `loadFile` |
| `PageRegexes` | the id, post-time, post-content and render-time patterns |
| `PageData` | the page records, `extractRenderTime` of both loaders, and `rows.map` with throwing callbacks |
| `CategoryPage` | `loadHomeCategoryFile` |
| `TopicRows` | `extractTopicInfoFromRow` |
| `Posts` | `loadTopicFile`, `extractPostInfoFromRows` and `extractPostContentAlt` |
| `UserPage` | `loadUserFile` of loader.js |
| `MirrorStore` | the tables and the storage operations |
| `AuthorCleanup` | `cleanInvalidTopicAuthors` and `applyManualFixes` |
| `PageControl` | `calcPage`, `makePages`, `generatePageList` and the Prev/Next links |
| `Url` | `normalizeUrl` and `clientUrl` |
| `SearchParams` | `CaselessURLSearchParams` |
| `IdMaps` | `mapById` and `idMap` |

Where the importer's comments and its code disagree, the model follows the code:

- `updateUsersWhereNull` in mirror_insert.js overwrites values that are not null, despite its name.
- The schema declares `topics.author_id` not null, but the clean-up writes null into it. The model follows the clean-up and allows null.
- The page-list threshold is the one the code uses. It departs from the doc comment; see "Findings".

The storage operations of mirror_insert.js do the same as those of mirror_insert.ts. They are modelled once. A row whose member also models JavaScript lines names them after the TypeScript lines it cites. `mapById` and `idMap` are identical and are modelled once as well.

## Model

| member | source | states |
|---|---|---|
| FileKinds.Exec | server/scripts/loader.ts:27-31 | The captures of the leftmost match of a file-name pattern. The match is `index.cfm`, a separator (`?`, `%3F` or `_`) and the page literal, ignoring case, with the id digits. The optional `&start=` group is greedy. |
| FileKinds.FileNameMatches | server/scripts/loader.ts:27-31 | Mirror names are recognised with any of the three separators and any letter case: the page parameter, then an id and any rest. The pattern's capture is exactly that id. |
| FileKinds.PatternsCanOverlap | server/scripts/loader.ts:27-40 | The patterns are not anchored, so a name made of one kind's name followed by another's matches both. Which processor takes it depends only on processor order. |
| FileKinds.TestAfterPrefix | server/scripts/loader.ts:27-31 | A match survives anything put in front of the name. |
| FileKinds.TestBeforeSuffix | server/scripts/loader.ts:27-31 | Every pattern except the end-anchored home pattern still matches after anything is appended. |
| FileKinds.HomeAtEnd | server/scripts/loader.js:7 | The loader.js home pattern `page=home$` matches exactly the names that end in `page=home`, ignoring case. |
| FileKinds.PrefixOfName | server/scripts/loader.ts:27-31 | The `index.cfm` start with any separator is read as a prefix of 9 characters plus the separator's length, and what follows is the rest of the name. |
| FileKinds.BodyOfName | server/scripts/loader.ts:27-31 | A page literal in any case, followed by a digit run and a non-digit rest, is read with that digit run as its id. |
| FileKinds.FindFirst | server/scripts/loader.ts:133 | `Array.prototype.find`: the index of the first element that passes, or none exactly when no element passes. |
| Dispatch.FileNames | server/scripts/loader.ts:101-106 | The file-name set holds each regular file's name exactly once, and nothing else. |
| Dispatch.CollectFileNames | server/scripts/loader.js:62-67 | The reduce over the directory entries builds that set, in first-insertion order. |
| Dispatch.ProcessMatching | server/scripts/loader.ts:113-116 | The inner loop deletes each matching file from the set of waiting names and then hands it to the processor, in order. It stops right after the first load that throws. If none throws, it reaches every matching file and the set has lost exactly those files. |
| Dispatch.LoadDirectory | server/scripts/loader.ts:98-121 | The files handed to processors are the dispatch order `Dispatched`, cut off just after the first load that throws (`UpToFailure`). The load fails exactly when some dispatched file throws. When no load throws, the names left over are exactly `Remaining`. |
| Dispatch.UpToFailure | server/scripts/loader.ts:113-116 | An awaited `loadFile` without try/catch: the prefix of the dispatches up to and including the first that throws. Every dispatch before that last one loads cleanly. It ends in a throw exactly when one exists, and it is everything when none does. |
| Dispatch.PrefixIsUpToFailure | server/scripts/loader.ts:113-116 | Any prefix whose only throwing dispatch is its last one is exactly that cut-off prefix. |
| Dispatch.DispatchIsFirstMatch | server/scripts/loader.ts:108-117 | A file goes to processor k exactly when it is in the directory and k is the first processor, in processing order, whose pattern it matches. |
| Dispatch.SkippedAreUnmatched | server/scripts/loader.ts:108-121 | A file is left over exactly when no pattern matches it. Such a file is never processed. |
| Dispatch.DispatchedAtMostOnce | server/scripts/loader.ts:108-117 | No file is handed to a processor twice. |
| Dispatch.KindsInOrder | server/scripts/loader.ts:108-117 | Every file of an earlier kind is processed before any file of a later kind. |
| Dispatch.FirstPassed | server/scripts/loader.ts:133 | `FILE_PROCESSORS.find` returns none exactly when no test passes. Otherwise it returns the first test that passes. |
| Dispatch.LoadFile | server/scripts/loader.ts:126-156 | A given processor is used as is. Otherwise the first processor whose test passes on the whole path is used, and none means no processor. A stub page is skipped only by the TypeScript loader. The same holds for server/scripts/loader.js:90-108. |
| Dispatch.SingleFileFindsProcessor | server/scripts/loader.ts:132-139 | A single file given with its directory still finds a processor when its name matches, at the latest its name's own processor. |
| Dates.PrevDay | server/scripts/loader.ts:799-801 | `minus({ days: 1 })` gives a valid date at the same time, rolling back over month and year ends. |
| Dates.Clock | server/scripts/loader.ts:50-51 | The `h:mm a` tail must read as a valid 24-hour time. |
| Dates.ParseShortFormat | server/scripts/loader.ts:50 | A string read in the format `MMM d, yyyy h:mm a` gives a valid calendar date and time. |
| Dates.ParseLongFormat | server/scripts/loader.ts:51 | A string read in the format `EEE MMMM d, yyyy h:mm a` gives a valid calendar date and time. |
| Dates.NextDayOfPrevDay | server/scripts/loader.ts:799-801 | The previous day has an inverse, so no two days share a predecessor. |
| Dates.PrevDayOfNextDay | server/scripts/loader.ts:799-801 | The previous day of the next day is the day itself, so every valid day is the previous day of some day. |
| Dates.StringToDateInner | server/scripts/loader.ts:829-837 | The formats are tried in order. The first that parses wins, and when neither parses the result is "Cannot parse date". The same holds for server/scripts/loader.js:411-419. |
| Dates.FormatsDisjoint | server/scripts/loader.ts:49-52 | No string parses in both absolute formats, so their order never changes a result. |
| Dates.ShortRoundTrip | server/scripts/loader.ts:50 | A date printed in `MMM d, yyyy h:mm a` parses back to itself. |
| Dates.ShortInnerRoundTrip | server/scripts/loader.ts:829-837 | `stringToDateInner` returns that date too. |
| Dates.LongRoundTrip | server/scripts/loader.ts:51 | A date printed in `EEE MMMM d, yyyy h:mm a` parses back to itself, for any weekday name. |
| Dates.LongInnerRoundTrip | server/scripts/loader.ts:829-837 | `stringToDateInner` returns it too, because the short format cannot read it. |
| Dates.ClockRoundTrip | server/scripts/loader.ts:807-814 | `h:mm a` reads back the 24-hour time it prints, with AM/PM converted as Luxon does. |
| Dates.ResolveRelative | server/scripts/loader.ts:794-814 | A relative date keeps the reference's calendar day, one day earlier for "Yesterday", and takes the hour and minute of the time after " @ ". |
| Dates.RelativeResolves | server/scripts/loader.ts:807-814 | A relative word, " @ " and a time resolve against the parsed reference: the reference's day, one earlier for "Yesterday", at that time. |
| Dates.StringToDate | server/scripts/loader.ts:789-820 | A string starting with "Today" or "Yesterday" needs a reference and is resolved against it. Any other string is an absolute date. The same holds for server/scripts/loader.js:367-400. |
| Dates.TodayResolves | server/scripts/loader.ts:790-816 | "Today @ T" is the reference's date at time T. |
| Dates.YesterdayResolves | server/scripts/loader.ts:799-814 | "Yesterday @ T" is the day before the reference's date, at time T. |
| Dates.MissingReference | server/scripts/loader.ts:791 | A relative date with no reference, or an empty one, is an error whatever follows. The same holds for server/scripts/loader.js:369-371. |
| PageRegexes.IdExec | server/scripts/loader.ts:53-54 | `/lit(\d+)/i.exec` finds nothing exactly when no occurrence of the literal is followed by a digit. Otherwise it gives the maximal digit run after the leftmost such occurrence. |
| PageRegexes.IdExecOfPrefix | server/scripts/loader.ts:53-54 | A string that starts with the literal and a maximal digit run gives back those digits. |
| PageRegexes.IdExecAbsent | server/scripts/loader.ts:53-54 | A string without the literal, in any case, gives no id. |
| PageRegexes.PostTimeExec | server/scripts/loader.ts:55 | The capture is found exactly when some place matches. It is the capture at the leftmost match: a non-empty run of word, comma, colon, at-sign or space characters after `Posted: `, as long as the run goes. |
| PageRegexes.PostTimeOfPrefix | server/scripts/loader.ts:55 | A text that starts with `Posted: ` and a maximal run of post-time characters gives back exactly that run. |
| PageRegexes.ContentExec | server/scripts/loader.ts:56 | The lazy capture between the message-area opening tag and the first `</div>` on the line. |
| PageRegexes.ContentOfWrappedLine | server/scripts/loader.ts:56 | A line consisting of the opening tag, a body with no `</div>` and `</div>` yields exactly that body. |
| PageRegexes.RenderTimeExec | server/scripts/loader.ts:47 | The capture after the `Time:` label, with or without bold tags. |
| PageRegexes.RenderTimeSpellings | server/scripts/loader.ts:44-47 | Both footer spellings in the source's comment yield the time value. |
| PageData.ToDate | server/scripts/loader.ts:181 | A date parse lifted into a load error: it succeeds exactly when `stringToDate` does. |
| PageData.RenderTimeTs | server/scripts/loader.ts:766-774 | loader.ts reads the second-to-last table. With fewer than two tables this is a `TypeError`; otherwise it fails exactly when the render-time pattern does not match. |
| PageData.RenderTimeJsOf | server/scripts/loader.js:331-351 | Whenever the loader.js render time is found, it is non-empty. |
| PageData.RenderTimeJs | server/scripts/loader.js:331-351 | The two `pop`s and the fallback search compute `RenderTimeJsOf`. |
| PageData.RenderTimeJsOrder | server/scripts/loader.js:331-351 | The footer table wins whenever it matches, which is whenever loader.ts succeeds. Otherwise the last 1000 characters are searched. An error means neither matched. |
| PageData.MapRows | server/scripts/loader.ts:204-236 | `rows.map` with a throwing callback succeeds exactly when every row does. Result k is the callback on row k, and an error is that of the first failing row, all rows before it succeeding. |
| CategoryPage.ForumOf | server/scripts/loader.ts:204-236 | A forum record needs a link with text, a parsable forum id and a description. It takes its position as `sort_index` and the file's category id. It is locked exactly when the first image names `icon_lock`. |
| CategoryPage.LoadHomeCategoryFile | server/scripts/loader.ts:172-237 | It fails, with the source's errors in the source's order, on: no category id in the name, no render time, no rows, and no bold name in the third row. It succeeds exactly when the id, the render time and a non-empty bold name in the third row are there and every forum row gives a forum. Forum k is then built from row k+3, with `sort_index` k and the file's category id. The category gets `sort_index` 0, its bold name, and the render time as `mirrored_at`, which every forum shares. |
| CategoryPage.ForumRowsOk | server/scripts/loader.ts:205-237 | Mapping the rows after the first three succeeds exactly when every one of them gives a forum record. |
| CategoryPage.StoreCategoryLoad | server/scripts/loader.ts:238-244 | The category and forums are inserted into their tables, or nothing is written when only printing. |
| TopicRows.ExtractTopicInfoFromRow | server/scripts/loader.ts:468-517 | The row's flags: `locked` exactly when image 0 names "locked", `pinned` exactly when image 1 names "clip". A moved topic has a first link to a forum page; it takes id and name from the second link, with `moved_from` that forum. The row gives a topic exactly when that link exists, its topic id is truthy, its name is non-empty and there are five cells. A falsy id and an empty name fail with their own assertion messages. |
| Posts.CollectSiblings | server/scripts/loader.ts:646-657 | The sibling walk takes exactly the run of nodes from child 6 that the stop rule allows. |
| Posts.TrimmedTexts | server/scripts/loader.ts:659-660 | The map keeps the length, and element k is the trimmed text of node k. |
| Posts.ExtractSpecial | server/scripts/loader.ts:643-672 | The imperative walk computes the special. |
| Posts.SpecialNodesShape | server/scripts/loader.ts:647-657 | The nodes of a text special are consecutive siblings from child 6: at most ten, none starting with "Joined". |
| Posts.TextSpecialShape | server/scripts/loader.ts:644-663 | A text special joins with a newline at most ten non-empty trimmed lines. They are the non-empty trimmed texts of the n collected siblings from child 6, in sibling order, one line per such sibling; none starts with "Joined". |
| Posts.SpecialLinesAppend | server/scripts/loader.ts:659-662 | The lines of two runs of nodes are the first run's lines followed by the second's, so sibling order is kept. |
| Posts.SpecialLinesSingle | server/scripts/loader.ts:659-662 | One node gives exactly one line, its trimmed text, when that text is non-empty, and none otherwise. |
| Posts.SpecialLine | server/scripts/loader.ts:659-662 | Each line of a text special is the trimmed text of a collected, non-"Joined" node. |
| Posts.JoinedFirstGivesEmpty | server/scripts/loader.ts:644-662 | When child 6 itself starts with "Joined", the special is the empty string. |
| Posts.ImageSpecial | server/scripts/loader.ts:664-672 | With no text special, an IMG at child 7 gives "moderator" exactly when its src contains "moderator", and is an error otherwise. No IMG gives no special. |
| Posts.QuoteOf | server/scripts/loader.ts:633 | The quote is the avatar span's text, or none when it is missing or empty. |
| Posts.PostInfoOf | server/scripts/loader.ts:618-712 | The checks run in the source's order: author id, special, creation time, id row, post id, content. Each failure gives that step's error, and the info is built exactly when every step passes. The content is the message area, or the fallback scan when the area is empty. |
| Posts.PostRowsOf | server/scripts/loader.ts:558-561 | The post rows are the table rows without the first two and the last. |
| Posts.PairPost | server/scripts/loader.ts:572-595 | Pair k succeeds exactly when rows 2k and 2k+1 give post info and its creation time resolves against the render-time string. The post takes the info's id, author and content, that resolved time, this topic and the render time. The user patch is the info's patch. A failure of the rows is passed on unchanged. |
| Posts.CollectPairs | server/scripts/loader.ts:572-595 | The `i += 2` loop succeeds exactly when every pair does, and yields one post and one user patch per pair. Otherwise it stops at the first failing pair. |
| Posts.LoadTopicFile | server/scripts/loader.ts:537-602 | A topic id is needed, and a missing render time is passed on as the error. The load succeeds exactly when the id and the render time are there and, if there is a post table, every pair gives a post. A page without a post table is skipped. Post k is pair k with the topic id, and each user patch belongs to its post's author. The topic patch carries the first post's author and time only on the first page. |
| Posts.LoadPostRows | server/scripts/loader.ts:569-602 | The loop over the post rows succeeds exactly when every pair gives a post. Post k and user patch k are then pair k, and there is one of each per pair. The topic patch has the topic id, and it takes the first post's author and creation time only on the first page. |
| Posts.StoreTopicLoad | server/scripts/loader.ts:603-611 | The topic patch, the user patches and the posts are written. Nothing is written when only printing or when the page was skipped. |
| Posts.ScanLines | server/scripts/loader.ts:734-748 | The line loop returns `ScanResult`. |
| Posts.LineContent | server/scripts/loader.ts:736-739 | A line contributes content only when its message-area capture is non-empty, and then exactly that capture. |
| Posts.LatestContent | server/scripts/loader.ts:734-740 | The content held after some lines is that of one of them, and none only when no line has content. |
| Posts.ScanWitness | server/scripts/loader.ts:734-745 | A scan result comes from line k, the latest with content at or before line f. Line f is the first line that hits. |
| Posts.ExtractPostContentAlt | server/scripts/loader.ts:727-749 | The file's lines are scanned for the post id. |
| Posts.ScanMeaning | server/scripts/loader.ts:714-726 | When no line carries the id, the scan gives none. Otherwise let f be the first line that does. The scan then gives the content of the latest line k <= f that has content, and none when no line up to f has any. |
| Posts.AltContentSource | server/scripts/loader.ts:714-749 | A result comes from line k, the latest with non-empty content at or before line f, the first line whose reply id is the post id. |
| Posts.AltContentAbsent | server/scripts/loader.ts:748 | When no line carries the id, the result is null. |
| UserPage.Window | server/scripts/loader.js:248 | `slice(21, 70)` is the window of at most 49 nodes from node 21. |
| Text.Filter | server/scripts/loader.js:253-256 | `filter` keeps only passing nodes and is never longer than its input. It is empty exactly when no node passes. |
| Text.FilterTakesFrom | server/scripts/loader.js:253-256 | The filter takes nothing that is not in its input, and nothing more often. |
| Text.FilterKeeps | server/scripts/loader.js:253-255 | The filter keeps every node that passes. |
| Text.FilterSingle | server/scripts/loader.js:253-256 | A single node is kept exactly when it passes. |
| Text.FilterAppend | server/scripts/loader.js:253-256 | Filtering two lists one after the other gives the two filtered lists one after the other, so kept nodes stay in input order and keep their multiplicity. |
| UserPage.KeptNotBlank | server/scripts/loader.js:253-255 | Every kept node is non-blank. |
| UserPage.KeptEmpty | server/scripts/loader.js:253-261 | No node is kept exactly when every node of the window is blank. |
| UserPage.BlankPageSkipped | server/scripts/loader.js:253-261 | A user page is skipped with no record exactly when all the nodes of its window are blank. |
| UserPage.LayoutOf | server/scripts/loader.js:264-272 | The first two nodes are the name and the "Contact" label. The last two are taken as the avatar node and its label exactly when the second-to-last node mentions "Avatar". Fewer than four nodes is an error. |
| UserPage.FieldValue | server/scripts/loader.js:281 | A value is the next node's text, and none when that node is missing or its text is empty. |
| UserPage.FillFields | server/scripts/loader.js:278-282 | The `i += 2` loop builds the map of the label/value pairs, a later label overwriting an earlier one. |
| UserPage.FieldKeys | server/scripts/loader.js:278-282 | The fields are exactly the labels read. |
| UserPage.LastLabelWins | server/scripts/loader.js:278-282 | A field holds the value of the last pair carrying its label. |
| UserPage.FieldsOfNodes | server/scripts/loader.js:278-282 | A field is the text before the first colon of an even-position node. It holds the next node's value, for the last such label. |
| UserPage.Lookup | server/scripts/loader.js:306-315 | `userFields[key]` is present exactly when the label was read with a non-empty value. |
| UserPage.DateField | server/scripts/loader.js:306-307 | A missing date field is a `TypeError`. A present one is `stringToDate` against the render time. |
| UserPage.UserNameOf | server/scripts/loader.js:285 | The user name is the second ": " segment, trimmed. Without one it is an error. |
| UserPage.AvatarOf | server/scripts/loader.js:296-298 | The avatar is the first child's src with the first "avatars/" removed, or none. |
| UserPage.AvatarQuoteOf | server/scripts/loader.js:299 | The quote is the avatar node's trimmed text, or none when that is empty. |
| UserPage.UserRecordOf | server/scripts/loader.js:302-317 | The record is built exactly when the name, both dates and the render time are readable. Otherwise the first failure, in that order, is the error. The record holds the id, name, avatar and quote, the two dates resolved against the render time, the mirror time, the looked-up fields, and no special. |
| UserPage.UserIdOf | server/scripts/loader.js:239-241 | The id is present exactly when the file name matches the user pattern, and is its digits' value. |
| UserPage.ProfileOf | server/scripts/loader.js:264-317 | A loaded profile carries the file's user id, and needs both a valid layout and a render time. |
| UserPage.LoadUserFile | server/scripts/loader.js:238-318 | The whole load computes `UserPageOf`. |
| UserPage.ReadProfile | server/scripts/loader.js:264-317 | The shifts, pops and field loop after the blank check compute `ProfileOf`. |
| UserPage.ProfileLayout | server/scripts/loader.js:264-317 | A loaded profile came from at least four kept nodes, and its name is read from the first. Its avatar and quote come from the last node exactly when the second-to-last mentions "Avatar", and are null otherwise. Its join and last-visit dates, location, occupation, interests, age and games come from the label pairs in between. `mirrored_at` is the render time, and there is no special. |
| MirrorStore.InsertIgnoreProperties | server/database/mirror_insert.ts:23-27 | Insert-or-ignore leaves existing rows unchanged. The new keys are the old keys plus the rows' keys, and a new key holds the first row that carried it. |
| MirrorStore.InsertIgnoreKeyed | server/database/mirror_insert.ts:40-50 | Insert-or-ignore keeps every row filed under its own key. |
| MirrorStore.Mirror.AddCategory | server/database/mirror_insert.ts:23-27 | The category is inserted or ignored, and no other table changes. The same holds for server/database/mirror_insert.js:11-15. |
| MirrorStore.Mirror.AddForums | server/database/mirror_insert.ts:40-44 | The forums are inserted or ignored, and no other table changes. |
| MirrorStore.Mirror.AddPosts | server/database/mirror_insert.ts:46-50 | The posts are inserted or ignored, and no other table changes. |
| MirrorStore.Mirror.AddTopics | server/database/mirror_insert.ts:58-62 | The topics are inserted or ignored, and no other table changes. |
| MirrorStore.Mirror.AddUser | server/database/mirror_insert.ts:76-80 | The user is inserted or ignored, and no other table changes. |
| MirrorStore.Mirror.AddStats | server/database/mirror_insert.ts:52-56 | The stats are upserted by name, and no other table changes. The same holds for server/database/mirror_insert.js:37-41. |
| MirrorStore.UpsertKeys | server/database/mirror_insert.ts:52-56 | After the upsert, no stat has disappeared and every named stat is present. |
| MirrorStore.UpsertUnnamed | server/database/mirror_insert.ts:52-56 | A stat that no row names keeps its value. |
| MirrorStore.UpsertLastWins | server/database/mirror_insert.ts:52-56 | A named stat takes the value and time of the last row with its name. |
| MirrorStore.UpsertKeyed | server/database/mirror_insert.ts:52-56 | Every stat is filed under its own name. |
| MirrorStore.SortCategories | server/database/mirror_insert.ts:33-37 | One sort update gives every category with that name the sort index and leaves the rest alone. |
| MirrorStore.SortAllProperties | server/database/mirror_insert.ts:30-38 | A category named by some sort gets the index of the last such sort. One named by none is unchanged. |
| MirrorStore.SortAllKeepsNames | server/database/mirror_insert.ts:30-38 | Sorting changes no column other than the sort index. |
| MirrorStore.Mirror.UpdateCategorySorts | server/database/mirror_insert.ts:30-38 | The loop applies the sorts in order, and no other table changes. The same holds for server/database/mirror_insert.js:17-23. |
| MirrorStore.PatchTopic | server/database/mirror_insert.ts:65-74 | Each truthy patch field is written only where the topic's value is null. No other column changes. |
| MirrorStore.PatchTopicIdempotent | server/database/mirror_insert.ts:65-74 | Patching twice is the same as patching once. |
| MirrorStore.PatchTopicKeepsSet | server/database/mirror_insert.js:49-57 | A column that is already set is never overwritten. |
| MirrorStore.Mirror.PatchTopicWhereNull | server/database/mirror_insert.ts:65-74 | Only the topic with the patch's id is patched, and no other table changes. |
| MirrorStore.PatchUser | server/database/mirror_insert.ts:91-101 | Each truthy `quote` or `special` overwrites, with no null check. A falsy one is never written, and no other column changes. |
| MirrorStore.PatchAllUsersProperties | server/database/mirror_insert.ts:91-101 | Users named by no patch are unchanged. When no two patches name the same user, each named user is exactly its patch applied. |
| MirrorStore.UpdateUsersWhereNullOverwrites | server/database/mirror_insert.js:70-80 | `updateUsersWhereNull` overwrites a value that is not null. |
| MirrorStore.Mirror.PatchUsers | server/database/mirror_insert.ts:91-101 | The patches are applied one after another, and no other table changes. |
| MirrorStore.Mirror.GetUserIdByName | server/database/mirror_insert.ts:82-88 | It returns the id of some user with exactly that name, or none exactly when no user has it. |
| MirrorStore.ClearAuthors | server/database/mirror_insert.ts:132-136 | No topic is added or removed. |
| MirrorStore.ClearAuthorsProperties | server/database/mirror_insert.ts:132-136 | Exactly the topics with a listed author name lose their author id. Every other topic and column is untouched, and clearing twice is clearing once. |
| MirrorStore.Mirror.ClearAuthorIdForTopicsStartedBy | server/database/mirror_insert.js:100-104 | The topics table becomes `ClearAuthors` of the list, and no other table changes. |
| MirrorStore.FindGroup | server/database/mirror_insert.ts:123-124 | Gives the index of the row for a group, or the row count exactly when no row has that group. |
| MirrorStore.TallyAll | server/database/mirror_insert.ts:109-126 | The scan counts every grouped topic into exactly one row per group, and each row's count is its group's size. |
| MirrorStore.Mirror.GetMismatchedTopicAuthors | server/database/mirror_insert.ts:109-126 | The rows counted over the topics grouped by (author name, user name). |
| MirrorStore.MismatchRowsMeaning | server/database/mirror_insert.ts:109-126 | Every mismatched topic has its group's row. A topic with a null or dangling author id, or a matching name, counts nowhere. Counts are at least 1, groups are distinct, and the counts sum to the number of mismatched topics. The same holds for server/database/mirror_insert.js:82-98. |
| AuthorCleanup.Store | server/scripts/loader.ts:893-898 | `Map.set`: an existing key keeps its place and takes the new value, with every other entry left in place; a new key goes last behind the unchanged entries. |
| AuthorCleanup.StoreProperties | server/scripts/loader.ts:893-898 | `set` keeps keys distinct, adds its key and changes only that key's value. |
| AuthorCleanup.BuildAuthorStats | server/scripts/loader.ts:892-898 | The `forEach` builds the author → user → count map. |
| AuthorCleanup.AuthorStatsUsers | server/scripts/loader.ts:892-898 | An author's user map has distinct keys: exactly the user names grouped with that author, each with its row's count. |
| AuthorCleanup.Dedupe | server/scripts/loader.ts:920 | `[...new Set(xs)]` holds the same elements, without duplicates. |
| AuthorCleanup.Partition | server/scripts/loader.ts:900-920 | With counts at least 1, an author in the map is in exactly one of cases 1, 2 and 3, and an absent author in none. The deleted authors are cases 2 and 3, without duplicates and never a case-1 author. |
| AuthorCleanup.SeveralUsersIff | server/scripts/loader.ts:909-911 | An author has more than one user name in the map exactly when two rows give it different user names. |
| AuthorCleanup.SoleRowIff | server/scripts/loader.ts:901-918 | An author has one user name exactly when it has a sole row, and that row's count is the map's count. |
| AuthorCleanup.DeletedAuthorsOfRows | server/scripts/loader.ts:839-920 | In terms of the query's rows, an author is deleted exactly when it has two user names or a sole row counting one topic. It is case 1 exactly when its sole row counts more. |
| AuthorCleanup.CleanInvalidTopicAuthors | server/scripts/loader.ts:887-929 | The query's rows are counted correctly and the deleted authors are computed from them. Unless only printing, their topics lose their author id. Nothing else changes. |
| AuthorCleanup.ApplyManualFixes | server/scripts/loader.ts:935-948 | The two listed authors' topics lose their author id unless only printing. Nothing else changes. |
| PageControl.CeilDiv | client/src/components/PageControl.tsx:79-80 | `Math.ceil(a / b)` is the unique r with b(r−1) < a ≤ br. |
| PageControl.CeilDivUnique | client/src/components/PageControl.tsx:79-80 | Any r with those bounds is the ceiling. |
| PageControl.CalcPage | client/src/components/PageControl.tsx:74-82 | The current page and page count are the ceilings of start and count over the page size. |
| PageControl.PageRoundTrip | client/src/components/PageControl.tsx:79 | The offset (p−1)·size+1 that the URL builders compute is read back as page p. |
| PageControl.MakePages | client/src/components/PageControl.tsx:145-169 | The do-while loop computes `Pages`. |
| PageControl.PagesLength | client/src/components/PageControl.tsx:145-169 | At most `limit` items, and none exactly under the source's empty test (which is true when start equals end). |
| PageControl.PagesEndAtEnd | client/src/components/PageControl.tsx:159-162 | From two slots on, a non-empty list ends with `end`. |
| PageControl.PagesEllipsis | client/src/components/PageControl.tsx:159-165 | An ellipsis appears exactly when `end` is at least `limit` pages away. The length is the distance, capped at the limit. |
| PageControl.PagesMirror | client/src/components/PageControl.tsx:146-156 | Counting down is counting up among the negated pages. |
| PageControl.Run | client/src/components/PageControl.tsx:155-165 | n pages in one direction: entry i is i+1 pages away from the start. |
| PageControl.UpChain | client/src/components/PageControl.tsx:145-169 | The start followed by the pages upwards runs from the start to `end`, with consecutive pages and every ellipsis over a gap of at least 2. |
| PageControl.DownChain | client/src/components/PageControl.tsx:145-169 | The pages downwards, reversed and followed by the start, run from 1 to the start. |
| PageControl.SafePage | client/src/components/PageControl.tsx:111 | The clamp: the current page when it is in range, the page count when the current page lies above it, and 1 when the current page is below 1 or there are no pages. |
| PageControl.HalvesLimits | client/src/components/PageControl.tsx:118-134 | Each branch builds its two halves as `makePages` lists with at least 4 slots. |
| PageControl.EllipsisSides | client/src/components/PageControl.tsx:118-136 | The list is the lower half reversed, the page and the upper half. An ellipsis before the page comes from the lower half, and one after it from the upper half. |
| PageControl.OnlyPlace | client/src/components/PageControl.tsx:136 | In an increasing list a page occurs at one place only. |
| PageControl.GeneratePageList | client/src/components/PageControl.tsx:107-137 | The branches and the reversal compute `PageList`. |
| PageControl.PageListChain | client/src/components/PageControl.tsx:107-137 | With pages, the list starts at 1 and ends at the page count. Its pages strictly increase and neighbours are consecutive. Every ellipsis stands for a gap of at least 2, and the clamped page is listed. |
| PageControl.SafePageOnce | client/src/components/PageControl.tsx:111-136 | The clamped page occurs exactly once. |
| PageControl.PageListBounds | client/src/components/PageControl.tsx:107-137 | Every page shown is between 1 and the page count. |
| PageControl.PageListLength | client/src/components/PageControl.tsx:100-102 | As written: at most 10 entries, or 11 with ellipses on both sides of the current page. |
| PageControl.PageListIntendedLength | client/src/components/PageControl.tsx:100-102 | With the corrected threshold, the doc comment's rule holds both ways: 11 entries exactly when there are ellipses on both sides. |
| PageControl.EmptyCountList | client/src/components/PageControl.tsx:111-136 | With no items the list still shows page 1, then page 0. |
| PageControl.Example1 | client/src/components/PageControl.tsx:91 | Gives the doc comment's list for page 1 of 298. |
| PageControl.Example5 | client/src/components/PageControl.tsx:92 | Gives the doc comment's list for page 5 of 298. |
| PageControl.Example6 | client/src/components/PageControl.tsx:93 | Gives the doc comment's list for page 6 of 298. |
| PageControl.Example8 | client/src/components/PageControl.tsx:94 | Gives the doc comment's list for page 8 of 298. |
| PageControl.Example293AsWritten | client/src/components/PageControl.tsx:95 | The code's list for page 293 of 298 leaves out the 290 the doc comment shows. |
| PageControl.Example293Intended | client/src/components/PageControl.tsx:95 | The corrected threshold gives the doc comment's list. |
| PageControl.Example294 | client/src/components/PageControl.tsx:96 | Gives the doc comment's list for page 294 of 298, under both thresholds. |
| PageControl.Example298 | client/src/components/PageControl.tsx:97 | Gives the doc comment's list for page 298 of 298, under both thresholds. |
| PageControl.Example429 | client/src/components/PageControl.tsx:98 | An out-of-range page 429 of 371 gives the doc comment's list. |
| PageControl.Drawn | client/src/components/PageControl.tsx:41-45 | Each entry is drawn as an ellipsis, the current page or a jump. The comparison is with `curPage`. |
| PageControl.WithArrowsShape | client/src/components/PageControl.tsx:41-47 | The drawn entries come first. Prev is present exactly when `curPage` > 1 and Next exactly when `curPage` < `pageCount`. |
| PageControl.Links | client/src/components/PageControl.tsx:39-47 | The control's links are the drawn list of `calcPage`'s page, followed by Prev and Next. |
| Url.CollapseSlashes | client/src/url.ts:1-10 | `replaceAll(/\/{2,}/g, '/')` leaves no double slash, deletes only slashes and keeps a leading slash. It changes nothing in a string without double slashes. |
| Url.DoubledSlash | client/src/url.ts:1 | Lengthening a run of slashes by one, anywhere in the string, does not change the result of the replacement. |
| Url.CollapseRun | client/src/url.ts:1 | Any run of one or more slashes between two parts comes out as exactly one slash; with the no-double-slash identity this fixes the result completely. |
| Url.NormalizeUrl | client/src/url.ts:9-11 | The result has no double slash, starts with a slash exactly when the parts' `/`-join does, and deleting every slash from it gives the slash-free form of that join. |
| Url.ClientUrl | client/src/url.ts:3-6 | `normalizeUrl(CLIENT_BASE_URL ?? '/', part)`: no double slash, the slash-free characters are those of the base followed by those of the part, and with the default base the result starts with a slash. |
| Url.NormalizeIdempotent | client/src/url.ts:10 | Normalising a normalised URL changes nothing. |
| Url.PlainParts | client/src/url.ts:10 | Non-empty parts without slashes come out exactly `/`-joined. |
| Url.ClientUrlOfPath | client/src/url.ts:4-6 | With the default base `/`, a path starting with a slash and without double slashes maps to itself. |
| IdMaps.MapById | server/util/index.ts:7-12 | The reduce computes `ById`, the fold of `map.set` over the items. The same holds for client/src/util.ts:7-12. |
| IdMaps.KeysAreIds | server/util/index.ts:7-12 | The map's keys are exactly the items' ids. |
| IdMaps.LastItemWins | server/util/index.ts:8-11 | Each id maps to the last item that carries it. The same holds for client/src/util.ts:8-11. |
| IdMaps.EmptyInput | server/util/index.ts:8-11 | An empty list gives an empty map. |
| IdMaps.MapSize | server/util/index.ts:7-12 | The map is no larger than the list. It is as large exactly when the ids are distinct. The same holds for client/src/util.ts:7-12. |
| SearchParams.GetOf | client/src/hooks/useSearchParamsCaseInsensitive.tsx:21-23 | `get` finds a value exactly when some pair has the name, and then the first such pair's value. |
| SearchParams.DeleteOf | client/src/hooks/useSearchParamsCaseInsensitive.tsx:17-19 | `delete` leaves no pair with the name, and every other name keeps its values. |
| SearchParams.SetOf | client/src/hooks/useSearchParamsCaseInsensitive.tsx:39-41 | After `set`, the name has exactly the one value, and every other name keeps its values. |
| SearchParams.GetAllAppend | client/src/hooks/useSearchParamsCaseInsensitive.tsx:13-15 | The values of appended pairs follow the earlier ones. |
| SearchParams.GetAllHas | client/src/hooks/useSearchParamsCaseInsensitive.tsx:31-37 | `getAll` is non-empty exactly when `has` holds, and `get` is the first value of `getAll`. |
| SearchParams.ConstructorCollapses | client/src/hooks/useSearchParamsCaseInsensitive.tsx:5-11 | After the constructor, entries whose names differ only in case have collapsed to one pair holding the last value. |
| SearchParams.SetKeepsLower | client/src/hooks/useSearchParamsCaseInsensitive.tsx:39-41 | `set` keeps every name lower-case. |
| SearchParams.DeleteKeepsLower | client/src/hooks/useSearchParamsCaseInsensitive.tsx:17-19 | `delete` keeps every name lower-case. |
| SearchParams.GetIntOf | client/src/hooks/useSearchParamsCaseInsensitive.tsx:26-29 | Null for a missing or empty value, and `parseInt` of the value otherwise. |
| SearchParams.CaselessSearchParams.constructor | client/src/hooks/useSearchParamsCaseInsensitive.tsx:5-11 | The entries are `set` in order, and all names are lower-case. |
| SearchParams.CaselessSearchParams.Append | client/src/hooks/useSearchParamsCaseInsensitive.tsx:13-15 | A pair under the lower-cased name is added last. Earlier values are kept and `getAll` ends with the new one. |
| SearchParams.CaselessSearchParams.Delete | client/src/hooks/useSearchParamsCaseInsensitive.tsx:17-19 | Afterwards `has` is false for every casing of the name. |
| SearchParams.CaselessSearchParams.Get | client/src/hooks/useSearchParamsCaseInsensitive.tsx:21-23 | Present exactly when `has` holds, and then the first of `getAll`. |
| SearchParams.CaselessSearchParams.GetInt | client/src/hooks/useSearchParamsCaseInsensitive.tsx:26-29 | Null when `get` gives nothing or an empty string, and `parseInt` of it otherwise. |
| SearchParams.CaselessSearchParams.GetAll | client/src/hooks/useSearchParamsCaseInsensitive.tsx:31-33 | Non-empty exactly when `has` holds. |
| SearchParams.CaselessSearchParams.Set | client/src/hooks/useSearchParamsCaseInsensitive.tsx:39-41 | Afterwards every casing of the name gets the value, and `getAll` has exactly that one value. |
| SearchParams.CaseInsensitive | client/src/hooks/useSearchParamsCaseInsensitive.tsx:17-37 | Two names with the same lower-case form give the same `get`, `getAll`, `has` and `getInt`. |
| SearchParams.LookupLowered | client/src/hooks/useSearchParamsCaseInsensitive.tsx:21-37 | A lookup under any name is the lookup under its lower-case form. |

## Left out

**I/O, parsing and external engines**
- File-system reads, `console` output and the command line. A directory is a list of entries, and a file is its name and its extracted records or its text.
- HTML parsing and CSS selectors. Each page is given as the records the selectors would return.
- The regular-expression engine. Each pattern used is a hand-written matcher.
- The multi-line stats pattern of `loadHomeFile`, and that loader generally, in both loaders. Only its pattern's place in the dispatch order is modelled.
- Luxon time zones and DST, whether a weekday name fits the date, and `toJSDate`. A date is its civil fields (year, month, day, hour, minute).
- `Number.parseInt` beyond decimal digits with an optional sign and leading white space. NaN is `None`.
- UTF-16 code units. A string is a sequence of Unicode characters, so lengths, indices and `slice` count characters, not code units.
- `toLowerCase` beyond ASCII letters. Names with other letters are lower-cased only in their ASCII part.
- The knex/SQLite engine. Tables are maps.
- The `Promise.all` concurrency of mirror_insert. Updates are applied one after another, and the properties of `patchUsers` are stated for patches that name distinct users.
- `ORDER BY` in the mismatch query. The rows are stated as a set of groups, and their order is not modelled.
- The schema DDL, the read API (server_fetch), the HTTP server and the React pages other than the page control's arithmetic and link list.

**Loaders not modelled separately**
- `loadUserFile` of loader.ts, which is row based. The node pipeline of loader.js is the one modelled.
- `loadHomeCategoryFile` of loader.js. It only logs, and builds the same forum records in a different row order.
- `loadForumFile` beyond `extractTopicInfoFromRow`. Its loop that looks up authors by name and adds topics is not modelled, but the storage operations it calls are.
- The printing branch (`print_json`) is modelled only as "no write". What is printed is not modelled, nor the in-place sort of the deleted authors before printing.

**Simplifications and weaker contracts**
- PageControl.CalcPage: requires a page size of at least 1. A zero page size gives NaN/Infinity in JavaScript, and floating point is not modelled.
- UserPage.UserRecordOf: a missing label and a label with an empty value both read as absent (`undefined` and `null` are not told apart).
- UserPage.LoadUserFile: `basename` is not applied to the path, and a missing `childNodes[1]` is an `Option`. Reading `getAttribute` on a text node (a `TypeError` in node-html-parser) is not modelled.
- PageData.LastChars: `textContent.slice(-1000)` takes the last 1000 UTF-16 code units. The model takes the last 1000 characters, so the window differs when the page's text ends with characters outside the Basic Multilingual Plane. PageData.RenderTimeJsOrder inherits this.
- PageData.RenderTimeTs: `tables.item(length - 2)` on fewer than two tables is a `TypeError`. Which property read fails is not modelled.
- MirrorStore.PatchAllUsersProperties: states each named user's final value only when no two patches name the same user, because `Promise.all` leaves the order of conflicting writes open.
- Dispatch.LoadDirectory: after a load throws, the names still in the set are not stated. The rejected promise discards them, and nothing reads them.
- Dispatch.LoadDirectory: stated for loader.ts, where the processor is awaited. loader.js:107 calls the processor without `await`, so a page whose extractor fails only rejects a promise that nothing awaits. loader.js's `loadDirectory` then goes on and hands every matching file to its processor. The contract covers loader.js only when `fails` is limited to a failed `readFile` or `parseHtml`. The processors of loader.js still running concurrently are not modelled.
- MirrorStore.MismatchRowsMeaning: row order (`ORDER BY author_name`) is not stated.

## Findings

| source | as written | input that shows it | evidently intended | confidence | as-written member | corrected member |
|---|---|---|---|---|---|---|
| client/src/components/PageControl.tsx:124 | The near-the-end branch is taken when `safePage > pageCount - HALF_MAX - 1`. | Page 293 of 298: the code gives 1 · … · 291 · 292 · [293] · 294 · 295 · 296 · … · 298 (10 entries). The doc comment at line 95 shows 290 as well (11 entries, ellipses on both sides). | `safePage > pageCount - HALF_MAX`. All eight doc comment examples then hold, and the length rule of lines 100-102 holds in both directions. | not executed | PageControl.Example293AsWritten | PageControl.PageListIntendedLength |

For the finding above:
- `PageControl.PageList` and `PageControl.GeneratePageList` model the code as written.
- `PageControl.PageListIntended` is the corrected definition. `PageControl.PageListIntendedLength` and `PageControl.Example293Intended` state its properties.
- `PageControl.PageListChain`, `PageControl.SafePageOnce` and `PageControl.PageListBounds` hold for either threshold.
