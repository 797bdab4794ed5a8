# Catalog store and views of the `files` app

This project models the core of a Django media-catalog backend:

- the rows that `files/models.py` declares (categories, tags, videos, media renditions, comments, ratings, caches, actors, directors and junction rows);
- their `unique` and `unique_together` constraints and default orderings;
- the two `save()` hooks;
- the views of `files/views.py` that list, search, publish and ingest cast.

The database is a `class CatalogStore` whose tables are sequences of rows. Writes are methods. The class invariant `Valid()` holds the schema's constraints together with invariants the writers keep beyond them: no `VideoCategory` pair twice (its through model declares no `unique_together`; `add()` skips a present pair) and every link row naming keys already handed out. A query (`filter`, `order_by`, a slice, a page of 20) is a function over sequences.

Modules, one per file:

| file | module | what it holds |
|---|---|---|
| `common.dfy` | `Wrappers` | `Option`, `Result` |
| `ordering.dfy` | `Ordering` | `order_by` as a stable insertion sort by a total preorder |
| `rows.dfy` | `Rows` | filter, `.get`, slices, pages, unique keys, `save()` as upsert |
| `text.dfy` | `Text` | `str.strip`, `str.split`, ASCII case folding, `icontains`, string order |
| `models.dfy` | `Models` | the row datatypes, defaults and `Meta.ordering` |
| `store.dfy` | `Store` | the `CatalogStore` class, `VideoMedia.save`, `Comment.save`, guarded inserts |
| `listing.dfy` | `Listing` | the read-only views, plus `get_categories` as a loop |
| `publish.dfy` | `Publish` | `publish_content` and `publish_video`, as written and as intended |
| `cast.dfy` | `Cast` | `process_cast` and the fallback of `get_ai_description` |

Where the code and the prose design of the system disagree, the model follows the code:

- `publish_content` checks its attachments only after it has created the post and linked it to its category. A rejected attachment therefore leaves the post and the attachments stored before it; the request is not all-or-nothing.
- `get_category_children` and `get_categories` order children by `order` alone, not by (`order`, `id`). Children with equal `order` keep the order the table returns them in.
- `get_categories` does not filter its roots by `show_in_menu`.
- `Comment.save` counts approved and unapproved comments alike.

## Model

| member | source | states |
|---|---|---|
| Models.NewVideo | files/models.py:153-185 | A video built from title, description, creation time and creator has every other field at its declared default: status draft, type single, active, every counter and the duration 0, total and current episodes 1, update status completed |
| Models.OrderingsArePreorders | files/models.py:111 | Each `Meta.ordering` and `order_by` key used (category, tag by order then name, episode, newest first, most played first) is total and transitive, so sorting by it is well defined |
| Ordering.SortBy | files/views.py:23 | `order_by` returns the same rows: equal length and equal multiset |
| Ordering.SortByCorrect | files/views.py:64 | The result of `order_by` is ordered by its key and is a permutation of the input |
| Ordering.SliceSorted | files/views.py:117 | Any slice of an ordered result is still ordered, so pages and top-N slices keep the order |
| Ordering.TopSliceFirst | files/views.py:117 | A row that a top-N slice of an ordered result leaves out sorts after every row the slice keeps |
| Rows.Filter | files/views.py:542 | A row is in the result iff it is in the table and passes the filter; each passing row appears as often as in the table, and the result is a sub-multiset of the table |
| Rows.Find | files/views.py:527 | `.get` returns a row of the table that passes the filter, and `DoesNotExist` (`None`) exactly when no row passes |
| Rows.FindOnly | files/views.py:58 | When exactly one row passes the filter, `.get` returns that row |
| Rows.Take | files/views.py:156 | `qs[:n]` is the prefix of length min(n, size) |
| Rows.Page | files/views.py:66-69 | Page k holds at most 20 rows: rows (k-1)·20 onward of the result, in order, and none past its end |
| Rows.PageCount | files/views.py:68 | There is at least one page, and the last page is the first one that reaches the end of the result |
| Rows.PagesArePrefix | files/views.py:216-218 | Pages 1..n read in turn give the first 20·n rows, each exactly once |
| Rows.PagesCoverResult | files/views.py:216-218 | The pages together give back the whole result, and every page after the last one is empty |
| Rows.OnItsPage | files/views.py:561-563 | Every row of a result is on an existing page, the one its position falls in |
| Rows.AppendKeepsDistinct | files/models.py:330 | An insert that the unique constraint admits keeps the key unique |
| Rows.Upsert | files/models.py:602 | `save()` writes over the row with the same primary key or appends a new row; every other row stays, the key stays unique |
| Rows.UpsertKeepsDistinct | files/models.py:586 | A second unique column stays unique when the saved row clashes with no other row on it |
| Text.Trim | files/views.py:443 | `strip()` leaves no whitespace at either end, and returns "" exactly for an all-whitespace string |
| Text.TrimIsSlice | files/views.py:443 | What `strip()` keeps is one contiguous slice of the string, with only whitespace outside it |
| Text.TrimIdempotent | files/views.py:443 | Stripping twice strips nothing more |
| Text.Split | files/views.py:442 | `split(sep)` returns at least one part, no part holds the separator, and joining the parts with the separator gives the string back |
| Text.SplitJoin | files/views.py:442 | Splitting separator-free parts joined by the separator gives the parts back |
| Text.Lower | files/views.py:240-241 | Case folding keeps the length, turns each ASCII capital into its small letter and keeps every other character; no capital is left |
| Text.LowerIdempotent | files/views.py:240-241 | Folding a folded string changes nothing |
| Text.IContainsIgnoresCase | files/views.py:240-241 | `icontains` gives the same answer when the text or the pattern is folded first: letter case never matters |
| Text.Contains | files/views.py:240-241 | True iff the pattern occurs at some position of the string |
| Text.EmptyPatternMatchesAll | files/views.py:240-241 | `icontains=''` matches every string |
| Text.StrLeTotal | files/models.py:111 | The name order of tags compares every pair |
| Text.StrLeTransitive | files/models.py:111 | The name order of tags is transitive |
| Text.StrLeAntisymmetric | files/models.py:111 | Two names that sort both ways are equal |
| Store.WithDefaultPath | files/models.py:139-142 | `VideoMedia.save` stores `videos/default.mp4` when the file path is empty and leaves a non-empty path and every other field unchanged |
| Store.CommentCountAppend | files/models.py:605 | The count over two lists of comments is the sum of the counts |
| Store.NewCommentCounts | files/models.py:605-606 | A new comment raises its own video's count by one and no other video's count |
| Store.CommentCountIgnoresApproval | files/models.py:605 | Approving or rejecting a comment changes no count: unapproved comments are counted |
| Store.SaveKeepsComments | files/models.py:586 | A save the uid constraint admits keeps comment keys and uids unique and every uid non-empty |
| Store.CountWriteKeepsKeys | files/models.py:606 | `save(update_fields=['comment_count'])` changes that one video's count and nothing else, and keeps the video table keyed |
| Store.ToSave | files/models.py:599-601 | The saved comment takes the generated uid only when its uid is empty, keeps an existing uid, and changes no other field than id and uid |
| Store.Named | files/views.py:448 | The rows of a cast table whose name is the given name, in table order |
| Store.NewMedia | files/models.py:119-135 | A media row built from file and media type has size 0, quality 720p and is not the default rendition |
| Store.CatalogStore.AddCategory | files/models.py:52 | A second category with a taken slug is refused and changes nothing; otherwise the row is appended under a fresh key; the constraints keep holding |
| Store.CatalogStore.InsertCategory | files/models.py:52 | The same insert, stated against the taxonomy constraints alone |
| Store.CatalogStore.AddTag | files/models.py:100 | A second tag with a taken slug is refused and changes nothing; otherwise the row is appended |
| Store.CatalogStore.InsertTag | files/models.py:100 | The same insert, stated against the taxonomy constraints alone |
| Store.CatalogStore.CreateVideo | files/views.py:382-388 | `Video.objects.create` appends the row under a fresh positive key, the next one the counter hands out, and keeps every link pointing at a handed-out key |
| Store.CatalogStore.AttachCategory | files/views.py:305 | `categories.add` on a created video leaves the link present, adds it only when absent, and never duplicates a junction row |
| Store.CatalogStore.AttachTag | files/models.py:159 | `tags.add` on a created video leaves the link present, adds it only when absent |
| Store.CatalogStore.LinkMedia | files/models.py:162 | `media_files.add` between a created video and a created rendition leaves the link present, adds it only when absent |
| Store.CatalogStore.SaveMedia | files/models.py:139-142 | A row without key is inserted under the next key and a keyed row overwrites its row; either way the default path is applied and the constraints keep holding |
| Store.CatalogStore.WriteMedia | files/models.py:139-142 | The same write, stated against the media and link constraints alone; the counter moves past the written key |
| Store.CatalogStore.CreateMedia | files/views.py:323-327 | `VideoMedia.objects.create` appends the saved row, with the default path applied, under a fresh positive key, the next one the counter hands out |
| Store.CatalogStore.GetOrCreate | files/views.py:448-454 | `get_or_create(name=...)` returns the one row with the name and changes nothing; with no such row it appends one with the given description and status `active` under a fresh key; with several rows it fails and changes nothing; the other cast table is untouched |
| Store.CatalogStore.GetOrInsertPerson | files/views.py:456-462 | The same lookup and insert, stated against the cast constraints alone |
| Store.CatalogStore.SaveComment | files/models.py:597-606 | `Comment.save` fails for a missing video or a uid held by another comment, changing nothing; otherwise it stores the comment (generated uid only when empty) and sets that video's `comment_count` to the number of its comments, approved or not, changing no other video or field; the constraints keep holding |
| Store.CatalogStore.AdmitComment | files/models.py:597-606 | The same save, stated against the comment and video tables alone |
| Store.CatalogStore.WriteComment | files/models.py:602-606 | The admitted save stores the row, then writes the recomputed count into its video alone |
| Store.CatalogStore.AddRating | files/models.py:330 | A second rating for the same (video, user) is refused and changes nothing; otherwise it is appended |
| Store.CatalogStore.AddCache | files/models.py:347 | A second cache for the same (video, quality) is refused and changes nothing; otherwise it is appended |
| Store.CatalogStore.AddVideoActor | files/models.py:556 | A second link for the same (video, actor) is refused and changes nothing; otherwise it is appended |
| Store.CatalogStore.AddVideoDirector | files/models.py:573 | A second link for the same (video, director) is refused and changes nothing; otherwise it is appended |
| Store.CatalogStore.AddPlaylistMusic | files/models.py:475 | A second entry for the same (playlist, music) is refused and changes nothing; otherwise it is appended |
| Listing.ActiveVideos | files/views.py:542 | A video is listed iff it is in the table, active and passes the filter; each listed row appears exactly as often as it is stored |
| Listing.ActiveVideosSorted | files/views.py:553-558 | Whatever the filter, the result comes in the order of its key |
| Listing.CategoryVideos | files/views.py:61-64 | Exactly the active videos linked to the category, each as often as it is stored |
| Listing.ChildCategories | files/views.py:145-149 | Exactly the children of the category that pass the filter, each as often as it is stored, by `order` |
| Listing.OrderedByOrder | files/views.py:23 | The same categories, as a multiset, smallest `order` first |
| Listing.NavCategories | files/views.py:16-24 | The menu is exactly the top-level categories that are active and shown in the menu, each as often as it is stored, by `order` |
| Listing.ChosenOrder | files/views.py:553-558 | The order a request value picks: the play-count value compares play counts, most played first, and any other value compares creation times, newest first; either is a total preorder. `video_list` passes `popular`, and `subcategory_list` (files/views.py:209-213) passes `play_count` |
| Listing.VideoListQuery | files/views.py:542-550 | Exactly the active videos linked to the given category and tag, when given, each as often as it is stored |
| Listing.VideoList | files/views.py:534-563 | Page `page` of the query's results: at most 20 videos, each active and linked to the given category and tag |
| Listing.VideoListOrdered | files/views.py:553-558 | Each page is ordered by play count, non-increasing, for `popular` and by creation time, newest first, for every other value |
| Listing.VideoListComplete | files/views.py:561-563 | Every video the list may show is on one of its existing pages |
| Listing.SearchResults | files/views.py:237-243 | An empty query finds nothing; otherwise exactly the active videos whose title or description contains the query in any letter case, each as often as it is stored |
| Listing.Search | files/views.py:233-250 | An empty query lists nothing on any page; otherwise page k is page k of the newest-first results, at most 20 matching active videos |
| Listing.SearchComplete | files/views.py:237-250 | Every active video matching a non-empty query is on one of the existing pages |
| Listing.SearchNewestFirst | files/views.py:243 | Search results come newest first |
| Listing.SearchFindsTitle | files/views.py:240 | An active video whose lower-cased title contains the lower-cased query is found |
| Listing.CategoryView | files/views.py:55-69 | 404 exactly when no category has the slug; otherwise that category and a page of at most 20 of its active videos |
| Listing.CategoryViewUnique | files/views.py:58 | With slugs unique, the page is that of the one category with the slug, newest first |
| Listing.SameSlug | files/models.py:52 | With slugs unique, two categories with the same slug are the same row |
| Listing.SelectedChild | files/views.py:104-114 | The discover filter is an active child of the channel with that slug, and none exactly when the slug is empty or names no such child |
| Listing.DiscoverPool | files/views.py:101-112 | Exactly the active videos, of the selected child when there is one |
| Listing.ChannelView | files/views.py:81-163 | 404 exactly when no root category has the slug. `discover` gets its active children, as `ActiveChildren` lists them by `order`, the selected child and at most 20 hot videos from the pool. Any other channel gets its active children shown in the menu, as `ChildCategories` lists them by `order` with their stored multiplicity, and at most 12 latest and 12 hot active videos of the channel |
| Listing.DiscoverFallback | files/views.py:105-117 | With no subcategory, or one naming no active child, the hot list is the top 20 of all active videos by play count |
| Listing.DiscoverHotIsTop | files/views.py:117 | For every pool, small or large: the discover hot list is the first 20 of the pool by play count, so it holds min(20, pool size) videos, ordered by play count, and every video it leaves out of the pool was played no more than any it keeps |
| Listing.ChannelListsAreTop | files/views.py:152-163 | Another channel's latest list is the first min(12, n) of its active videos newest first, ordered, with no video left out newer than one kept; its hot list the same by play count |
| Listing.TopOf | files/views.py:117 | A top-N slice of an ordered result is ordered, and no row it leaves out sorts before a row it keeps |
| Listing.SubcategoryList | files/views.py:184-218 | 404 when the root is missing. The page shows the child with the slug, in the menu. Its siblings are exactly the other children shown in the menu, never the child itself, by `order`. It shows at most 20 of the child's active videos |
| Listing.SubcategoryListUnique | files/views.py:184-218 | With slugs unique, a root with the slug and a child in the menu with the other slug give the page of exactly that pair, showing page k of the child's active videos in the requested order |
| Listing.SubcategoryListNotFound | files/views.py:186-194 | With slugs unique, 404 exactly when no root with the slug has a child in the menu with the other slug |
| Listing.SubcategoryListOrdered | files/views.py:209-218 | Each page is ordered by play count for `play_count` and newest first for any other value |
| Listing.VideoDetail | files/views.py:260-262 | The active video with the id, and 404 exactly when there is none |
| Listing.Refs | files/views.py:529 | The comprehension gives one `{id, name}` entry per category, in the same order |
| Listing.ActiveChildren | files/views.py:528 | Exactly the active children of the category, each as often as it is stored, by `order` |
| Listing.CategoryChildren | files/views.py:524-532 | An unknown id gives an empty list; every entry is that of an active child of the category |
| Listing.CategoryChildrenComplete | files/views.py:527-529 | For a known id the list is the entries of its active children by `order`, and every active child is listed |
| Listing.Roots | files/views.py:503-508 | Exactly the active categories without parent, of the requested type when one is given, each as often as it is stored, by `order` |
| Listing.GetCategories | files/views.py:499-520 | One entry per root, in order, each carrying the root and its active children |
| Listing.BuildTree | files/views.py:511-518 | The loop appends one entry per root, in the order of the roots |
| Cast.Describe | files/views.py:413-437 | The chat answer when the call succeeds; otherwise the name followed by the fixed sentence for the role |
| Cast.FallbackInjective | files/views.py:437 | Two fallback descriptions are equal only for the same name and role |
| Cast.TrimAll | files/views.py:443 | Each piece is stripped, in order |
| Cast.CastNames | files/views.py:442-445 | Every name kept is non-empty, stripped and free of the full-width comma, and there are no more names than pieces |
| Cast.TrimmedPieceIsClean | files/views.py:443-445 | A stripped piece without separator that is not empty is a name the loop keeps as is |
| Cast.CastNamesOfJoin | files/views.py:442-445 | Clean names joined with the full-width comma come back as the same names, in order |
| Cast.CastNamesOfPieces | files/views.py:442-445 | For any list written as separator-free pieces joined by the full-width comma, the names are the stripped pieces, blanks skipped, in input order |
| Cast.SingleName | files/views.py:442-445 | A list without separator that is not blank names one person, its stripped self |
| Cast.RoleOf | files/views.py:447-455 | `actor` selects the actor table and any other value the director table |
| Cast.ProcessCast | files/views.py:439-464 | Failure happens exactly when some listed name was already held by several rows before the call. Otherwise there is one person per name, in input order; each person is the only row with that name, an existing one reused, a new one described and active. The table only grows, every added row is for a listed name that had no row, described and active, and the other table is untouched |
| Cast.GetOrCreateAll | files/views.py:441-463 | The loop fails exactly when some name was held by several rows before it ran. It keeps one row per processed name, and every row it adds is for a listed name that had no row before the loop, described and active |
| Cast.FailedName | files/views.py:448-462 | `get_or_create` fails on a name only when that name had several rows before the loop: the loop adds rows only for earlier names, and an earlier equal name would now have one row |
| Cast.Unambiguous | files/views.py:441-463 | A loop that ends with exactly one row per name started from a table where no listed name had several rows |
| Cast.Outcome | files/views.py:441-464 | Against the table before the loop, a name with one row got that row and a name with none got a new, described row |
| Publish.FileProblem | files/views.py:310-320 | An attachment passes iff it is at most 100 MB and its type starts with `image/` or `video/`; size is checked first, and each failure gets its own message |
| Publish.FirstBadFile | files/views.py:308-320 | The first attachment that fails a check, with every earlier one passing, and none exactly when all pass |
| Publish.FirstBadIs | files/views.py:308-320 | The first failing attachment found by scanning in order is the one `FirstBadFile` names |
| Publish.MediaTypeOf | files/views.py:326 | `image` exactly for an image type; for an accepted attachment, `video` exactly for a video type |
| Publish.Uploaded | files/views.py:323-327 | The stored row has its key and media type, and the upload's name as file path, or the default path |
| Publish.ContentRequestProblem | files/views.py:281-294 | Empty content or no files gives the first message; otherwise an unknown category gives the second; otherwise none |
| Publish.VideoFileProblem | files/views.py:369-379 | The upload passes iff it is at most 500 MB and its type starts with `video/`; size is checked first, and each failure gets its own message |
| Publish.VideoRequestProblem | files/views.py:353-379 | The checks in order: title and file present, known category, then size and type, each with its message; none exactly when all pass |
| Publish.ContentVideo | files/views.py:297-302 | The post's title is the first 50 characters of the text and its description the whole text; active, single, draft |
| Publish.ShortVideo | files/views.py:382-388 | The short video has the given title and description and type short |
| Publish.PublishContentAsWritten | files/views.py:272-340 | As written, never a 200: a 400 exactly for the checks before the first write, otherwise the 500 with the fixed retry message |
| Publish.PublishVideoAsWritten | files/views.py:343-411 | As written, never a 200: a 400 exactly for the four checks, otherwise the 500 with the fixed retry message |
| Publish.PublishContentAsWrittenFails | files/views.py:297-302 | A well-formed post, and one with a 200 MB attachment, both get the 500 answer |
| Publish.PublishVideoAsWrittenFails | files/views.py:382-388 | A valid short-video upload gets the 500 answer |
| Publish.PublishVideo | files/views.py:343-404 | Rejects exactly the requests the handler rejects, with the same message and nothing written. Otherwise it creates the short video under a fresh key, adds exactly its category link and its file's link, keeping every earlier link, stores the file, and answers 200 with the id |
| Publish.StoreShortVideo | files/views.py:382-398 | The short video, its one category link, the stored file and its one link are added and nothing else |
| Publish.CreateVideoIn | files/views.py:382-391 | The video is appended under a fresh key and exactly one link, to its category, is added to the kept links |
| Publish.PublishContent | files/views.py:272-333 | The two early checks answer as the handler does, with nothing written. Otherwise the post and its one category link are created first. Attachments are then stored in order up to the first rejected one, with exactly one new link each and every earlier link kept, whose 400 keeps what was stored before it; with none rejected the answer is 200 with the post's id |
| Publish.CreatePost | files/views.py:297-333 | The writes after the early checks: the post, its one category link, then the attachments up to the first rejected one, each with its one link |
| Publish.StoreAttachments | files/views.py:308-327 | The stored rows are the accepted attachments in file order, stopping at the first rejected attachment; the links are the old ones followed by one link from the post to each stored row |
| Publish.StoreOne | files/views.py:323-327 | Appends the upload's row under a fresh key and appends exactly its link to the video |

## Left out

- I/O around the views: template rendering, context dictionaries, JSON encoding, HTTP method checks and logging. A view returns the data it would render.
- `Slide` (CMS), the `cloud_music` models and the music, album and playlist views: they are foreign apps or lie outside the catalog core.
- `files/urls.py` holds only URL routing.
- The home page `index` view.
- Danmaku and its float `time`.
- The `SeriesVideo` helpers that read the wall clock and undeclared fields.
- `publish_movie`, which uses an undefined `Movie` model.
- The chat-completion call is an oracle parameter that either answers or fails. Its prompt and model are not modelled.
- The generated `uuid4()` is a parameter of `SaveComment`; its freshness is not modelled, so a clash is refused like any other uid clash.
- Rows.Page: page numbers arrive parsed and at least 1. `Paginator.get_page` turns non-numeric or out-of-range numbers into the first or last page; that clamping is not modelled.
- Listing.VideoList: category and tag ids arrive parsed. A non-numeric id makes the query raise (a 500) and is not modelled.
- Listing.VideoList: as written, `video_list` names `Tag` without importing it, so building its context fails. The model covers the query and the page it would show.
- Publish.CategoryKnown: a category id that is not a number makes `Category.objects.get` raise `ValueError`, a 500. The model takes the id already parsed and treats an absent id as unknown.
- Text.Lower: case folding is ASCII only. Database collations and full Unicode case folding are not modelled.
- Text.StrLe: names compare by code point. The database orders tag names by its collation, which can differ for non-ASCII or mixed-case names.
- Ordering.SortBy: rows with equal keys keep their table order. The database may return them in any order.
- Listing.CategoryView: every lookup by slug (Listing.CategoryView, Listing.ChannelView, Listing.SubcategoryList, Listing.SelectedChild) takes the first matching row, where the source raises `MultipleObjectsReturned` on several. The `unique` slug rules this out; `CategoryViewUnique`, `SubcategoryListUnique` and `SubcategoryListNotFound` state the views under that constraint.
- Store.CatalogStore.AttachCategory: the `VideoCategory` through model declares no `unique_together`. The model keeps its pairs unique because `add()` skips a present pair and nothing else writes the table. A duplicate pair written by other means, and the repeated rows the `categories=c` join would then return, are not modelled; `InCategory` is a membership test.
- Store.CatalogStore.SaveComment: comment deletion has no hook, so no count is claimed after a delete. A comment re-saved onto another video leaves the old video's count stale, as in the source.
- Store.CatalogStore.SaveComment: the lost update between concurrent saves is not modelled; nor is any other concurrency or transaction behaviour.
- Store.CatalogStore.GetOrCreate: the race between lookup and insert is not modelled.
- Publish.PublishVideo: requires and keeps only the parts of `Valid()` about the tables it writes (videos, media, junctions, links); its `modifies` clause leaves the other tables as they were. The same holds for Publish.PublishContent, Publish.CreatePost, Publish.CreateVideoIn, Publish.StoreShortVideo, Publish.StoreAttachments and Publish.StoreOne.
- Cast.ProcessCast: states its result through the predicates `OnePerName` and `ReusedOrDescribed`, not as an equation with a reference function.
- Cast.CastNames: its own contract states only that the names kept are clean. Their exact value, for every input, is stated by `CastNamesOfPieces` (every string is its separator-free pieces joined by the separator, as `Text.Split` states), with `CastNamesOfJoin` and `SingleName` as special cases.
- File storage: `upload_to` paths and file contents are not modelled; the stored file path is the upload's name.
- JSON fields (`extra_info`, `quality_versions`) and URL fields are not modelled.
- Model fields no listed operation reads are left out of the row datatypes.

## Findings

| source | as written | input that shows it | evidently intended | confidence | as-written member | corrected member |
|---|---|---|---|---|---|---|
| files/views.py:297-327 | `publish_content` creates the post with `user=request.user`, a field `Video` does not declare (it has `created_by`). It stores attachments with `video=` and `file=`, fields `VideoMedia` does not declare (it has `file_path`, and the link is `Video.media_files`). The create raises, so every request that passes the first two checks gets the 500 answer, even one with an oversized attachment | content "hello", category 1 present, one 1 MB `video/mp4` attachment | create the post with `created_by`, store each attachment's file path and link it through `media_files`, answer 200 | not executed | Publish.PublishContentAsWrittenFails | Publish.PublishContent |
| files/views.py:382-398 | `publish_video` creates the video with `user=request.user` and the media row with `video=` and `file=`, fields the models do not declare, so every request that passes the four checks gets the 500 answer | title "trailer", category 1 present, a 1 MB `video/mp4` file | create the short video with `created_by`, store the file path and link it through `media_files`, answer 200 | not executed | Publish.PublishVideoAsWrittenFails | Publish.PublishVideo |
