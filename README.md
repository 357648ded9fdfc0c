# Bookmark manager: the server's data logic in Dafny

This project models the server of a personal bookmark manager. The server is an
Express application over one SQLite database. Its data logic lives in the schema
(`src/database/db.js`) and in three controllers for folders, bookmarks and tags.

- Folders form a tree through `parent_id`. The tree can be listed flat, nested,
  or one folder at a time with its bookmarks.
- Moving a folder goes through a cycle guard (`isDescendant`).
- Deleting a folder re-homes the bookmarks filed directly in it to its parent.
  The foreign-key cascade then deletes every folder below it.
- Bookmarks carry tags through the `bookmark_tags` table. The list queries
  collect a bookmark's tag names and colours with `GROUP_CONCAT`, and the
  controller splits them again on commas.
- The bookmark list filters by folder, by favourite flag, by a case-insensitive
  search in title, description or URL, and by a comma-separated list of tag names.
- Tags have unique names. They can be listed with their use counts, shown one at
  a time with their bookmarks, or ranked by use.

The files:

- `common.dfy`: the reply kinds of a handler and JavaScript truthiness of
  request fields.
- `schema.dfy`: the four tables, the foreign keys, the `UNIQUE` rule and the
  AUTOINCREMENT counters, as a `Db` value with an `Integrity` predicate.
- `text.dfy`: `ORDER BY` on text, `LIKE`, `GROUP_CONCAT` with its split, and
  `parseInt`.
- `sorting.dfy`: a stable insertion sort that stands for `ORDER BY`.
- `hierarchy.dfy`: chains of parent references; the set of folders the cascade
  deletes; the walk of `isDescendant`; why the guard keeps the tree free of
  cycles.
- `rows.dfy`, `folder_views.dfy`, `bookmark_views.dfy`, `tag_views.dfy`: every GET
  handler as a function of the tables.
- `transitions.dfy`: every write handler as a function from the tables before
  the request to the reply and the tables after it. It includes the tag-linking
  loop, run without a transaction, so a failure keeps the earlier writes.
- `store.dfy`: the database as a class with one field per table. Each write
  handler is a method that changes the fields step by step and ends in the state
  the matching `Transitions` function describes. `isDescendant` is a `while`
  loop.

Request bodies become datatypes of `Option` fields: `None` is an absent or null
field. The clock (`CURRENT_TIMESTAMP`) is a parameter `now`.

Points where the model follows what the statements do:

- Deleting a folder deletes the folders below it, not only its row. The comment
  at `src/controllers/folderController.js:185` says the cascade deletes the
  subfolders, through `ON DELETE CASCADE` on `parent_id`
  (`src/database/db.js:27`). Direct children are not re-attached to its parent.
- Bookmarks filed in a deleted subfolder are not destroyed. Only the folder's own
  bookmarks are re-homed (`folderController.js:181-183`). `ON DELETE SET NULL`
  (`db.js:55`) leaves the others unfiled (`Transitions.DeleteFolderEffect`).
- `GET /api/tags/popular` with a negative `limit` returns all used tags, because
  SQLite reads a negative `LIMIT` as none.
- The error message at `folderController.js:149` ("Cannot move folder into its
  own descendant") names the case the cycle guard is meant to refuse. The call at
  `folderController.js:148` walks up from the folder being moved instead, looking
  for the new parent (see Findings). `Transitions.UpdateFolderAsWritten` keeps
  that call; `Transitions.UpdateFolder` and the store use the direction the
  message describes.

## Model

| member | source | states |
|---|---|---|
| `Schema.EmptyDb` | src/database/db.js:17-68 | the freshly created database has empty tables and satisfies every foreign key and the unique tag name rule |
| `Store.Store.constructor` | src/database/db.js:17-68 | a new store holds the empty database and its invariant holds |
| `Schema.TagNamed` | src/database/db.js:32-39 | with unique tag names, a lookup by name finds the one tag of that name, or reports that no tag has it |
| `Text.LexTotal` | src/controllers/folderController.js:14 | the text order of `ORDER BY name` compares any two names |
| `Text.LexTrans` | src/controllers/folderController.js:14 | the text order is transitive |
| `Sorting.SortBy` | src/controllers/bookmarkController.js:42 | `ORDER BY` returns its rows sorted by a total preorder and as a permutation of the input |
| `Sorting.PermutationDistinct` | src/controllers/bookmarkController.js:42 | reordering rows keeps them free of repetitions |
| `Text.LikeLiteral` | src/controllers/bookmarkController.js:30-34 | a value that contains the search term literally matches `LIKE '%term%'` |
| `Text.LikeIgnoresCase` | src/controllers/bookmarkController.js:30-34 | the case of ASCII letters in the search term does not change the match |
| `Text.SplitJoin` | src/controllers/bookmarkController.js:49-50 | splitting the comma-joined aggregate on commas gives back the parts when none holds a comma |
| `Text.FormatListClean` | src/controllers/bookmarkController.js:49-50 | the aggregate and split hand back exactly the stored names or colours, in order, when none is empty or holds a comma |
| `Text.FormatListSplitsCommas` | src/controllers/bookmarkController.js:49-50 | a tag name made of two or more clean pieces joined by commas holds a comma and comes back as those pieces, one name per piece |
| `Text.FormatList` | src/controllers/bookmarkController.js:49-50 | `split(',').filter(Boolean)` on the aggregate gives no names for no tags, and every name it gives is non-empty and comma-free |
| `Text.Like` | src/controllers/bookmarkController.js:30-34 | `LIKE '%term%'` matches every value for an empty term, and only values at least as long as the term |
| `Text.ParseInt` | src/controllers/tagController.js:151 | `parseInt` reads nothing from a blank string and reads a number from a string that starts with a non-zero digit |
| `Text.ParseIntDecimal` | src/controllers/tagController.js:151 | `parseInt` reads back the decimal numeral of every integer, with or without a minus sign |
| `FolderViews.ListFolders` | src/controllers/folderController.js:4-21 | the folder list is sorted by name and holds each folder once, with its number of directly filed bookmarks and of direct subfolders |
| `FolderViews.ListFoldersAll` | src/controllers/folderController.js:4-21 | under the integrity rules every folder is listed and the list is exactly as long as the table |
| `FolderViews.ChildIds` | src/controllers/folderController.js:28-37 | the children query returns exactly the folders under the given parent, once each, sorted by name |
| `FolderViews.ForestRoots` | src/controllers/folderController.js:39-42 | `folders.map` turns each folder it was given into one node showing that folder's own row, and adds no other |
| `FolderViews.Tree` | src/controllers/folderController.js:45 | `buildTree(null)` has only top-level folders of the table at its roots |
| `FolderViews.ForestWellFormed` | src/controllers/folderController.js:27-43 | the recursion shows the given children in order, each with its row, its count and, recursively, its own children |
| `FolderViews.TreeWellFormed` | src/controllers/folderController.js:24-50 | the tree starts at the top-level folders, is well formed at every level, and shows only folders whose chain of parents reaches the top |
| `FolderViews.ShownWhenChainEnds` | src/controllers/folderController.js:24-50 | every folder whose chain of parents reaches the top appears in the tree |
| `FolderViews.ForestClosed` | src/controllers/folderController.js:24-50 | the tree holds the top-level folders and, with every folder it shows, the folders directly under it |
| `FolderViews.ShownInClosed` | src/controllers/folderController.js:24-50 | such a closed set holds every folder whose chain of parents reaches the top |
| `FolderViews.TreeShowsAll` | src/controllers/folderController.js:24-50 | with no cycle of parent references, the tree shows exactly the folders of the table |
| `FolderViews.GetFolder` | src/controllers/folderController.js:53-99 | 404 "Folder not found" exactly when there is no such folder; otherwise the folder, its bookmark count, and exactly its bookmarks with all their tags, each once, newest first |
| `Rows.TagIdsOf` | src/controllers/bookmarkController.js:14-15 | the tags joined to a bookmark are exactly the tags linked to it, in id order |
| `Rows.View` | src/controllers/bookmarkController.js:47-52 | a formatted row keeps the bookmark's columns; every tag name in it is non-empty and comma-free, and a bookmark without tags gets empty lists |
| `Rows.ViewCleanNames` | src/controllers/bookmarkController.js:49 | when the collected names are non-empty and comma-free, the row's `tags` are exactly those names, in order |
| `Rows.ViewCleanColors` | src/controllers/bookmarkController.js:50 | when the collected colours are non-empty and comma-free, the row's `tag_colors` are exactly those colours, in order |
| `Rows.FullViewTags` | src/controllers/bookmarkController.js:60-92 | when the bookmark's own tag names are non-empty and comma-free, its row lists exactly the names of its linked tags, each once |
| `Rows.FullViewsOfKept` | src/controllers/folderController.js:72-90 | the rows of the bookmarks a folder view selects are exactly the selected bookmarks below the id counter, each with all of its tags |
| `Rows.NewestFirst` | src/controllers/bookmarkController.js:42 | `ORDER BY created_at DESC` puts the newest first and keeps every row, each as often as before |
| `BookmarkViews.GroupMeaning` | src/controllers/bookmarkController.js:36-42 | after the tag filter a bookmark keeps a group exactly when one of its tags is named in the list, and the group collects exactly those tags |
| `BookmarkViews.Matches` | src/controllers/bookmarkController.js:16-40 | the WHERE clause with no filter keeps exactly the bookmarks of the table |
| `BookmarkViews.Surviving` | src/controllers/bookmarkController.js:36-40 | `t.name IN (...)` keeps only joined rows of the bookmark whose tag is named in the list |
| `BookmarkViews.Collected` | src/controllers/bookmarkController.js:11-12 | `GROUP_CONCAT` collects only tags that appear in the group's rows |
| `BookmarkViews.GroupedRow` | src/controllers/bookmarkController.js:3-58 | before sorting, the grouped rows are exactly the matching bookmarks with the tags the filter lets through |
| `BookmarkViews.ListBookmarks` | src/controllers/bookmarkController.js:3-58 | the list holds exactly the bookmarks that pass the folder, favourite, search and tag conditions, once each, newest first, each showing the tags the filter lets through |
| `BookmarkViews.ListAllBookmarks` | src/controllers/bookmarkController.js:3-58 | with no filter every bookmark is listed with all of its tags |
| `BookmarkViews.ListedWithoutFilter` | src/controllers/bookmarkController.js:3-58 | with no filter a given bookmark is listed with all of its tags |
| `BookmarkViews.GetBookmark` | src/controllers/bookmarkController.js:60-92 | 404 "Bookmark not found" exactly when there is no such bookmark; otherwise the bookmark with all of its tags |
| `TagViews.ListTags` | src/controllers/tagController.js:3-20 | the tag list is sorted by name and holds each tag once, with the number of bookmarks linked to it |
| `TagViews.ListTagsAll` | src/controllers/tagController.js:3-20 | under the integrity rules every tag is listed and the list is exactly as long as the table |
| `TagViews.TagCountBound` | src/controllers/tagController.js:9-11 | a tag's count counts existing bookmarks only, so it is at most the number of bookmarks |
| `TagViews.GetTag` | src/controllers/tagController.js:22-70 | 404 "Tag not found" exactly when there is no such tag; otherwise the tag, its count, and exactly the bookmarks linked to it with all their tags, each once, newest first |
| `TagViews.ParseLimit` | src/controllers/tagController.js:151 | the parsed limit, with 10 in place of a missing, unreadable or zero one, is never 0 |
| `TagViews.ParseLimitDefault` | src/controllers/tagController.js:151 | a missing limit and the limit "0" both read as 10 |
| `TagViews.ParseLimitNumeral` | src/controllers/tagController.js:151 | the decimal numeral of a positive number reads as that number |
| `TagViews.ParseLimitNegative` | src/controllers/tagController.js:151 | a minus sign before the numeral of a positive number reads as the negative number |
| `TagViews.Limit` | src/controllers/tagController.js:161 | `LIMIT n` keeps a prefix of length min(n, rows) and keeps all rows for a negative n |
| `TagViews.UsedTags` | src/controllers/tagController.js:153-161 | the inner join keeps exactly the tags on at least one bookmark, each once, most used first |
| `TagViews.PopularTags` | src/controllers/tagController.js:148-168 | the popular tags are used tags, most used first, as many as the limit allows |
| `TagViews.PopularIsTop` | src/controllers/tagController.js:148-168 | no used tag that is left out is used more often than one that is shown |
| `TagViews.GetPopularTags` | src/controllers/tagController.js:148-168 | the handler with the query's `limit`: used tags only, most used first; ten (or all, when fewer are used) without a limit, at most the limit for a positive one, all for a negative one |
| `TagViews.GetPopularTagsNumeral` | src/controllers/tagController.js:151-162 | `?limit=n` for a positive n returns exactly min(n, number of used tags) rows |
| `Hierarchy.Cascade` | src/database/db.js:27 | `ON DELETE CASCADE` on `parent_id` deletes only folders of the table |
| `Hierarchy.CascadeIsSubtree` | src/database/db.js:27 | the cascade deletes exactly the folder and the folders below it |
| `Hierarchy.CascadeKeepsParents` | src/database/db.js:27 | after the cascade no remaining folder refers to a deleted one |
| `Hierarchy.CascadeKeepsAcyclic` | src/database/db.js:27 | the cascade creates no cycle of parent references |
| `Hierarchy.GuardWalkMeaning` | src/controllers/folderController.js:138-146 | the walk of `isDescendant` answers true exactly when the target is the start folder or one of its ancestors; it never ends exactly when the chain never reaches the top and never meets the target |
| `Hierarchy.WalkFrom` | src/controllers/folderController.js:139-145 | the bounded loop answers true only when the target lies within the rounds it ran, false only when the chain reached the top within them, and runs out only when the chain is still going after all of them |
| `Hierarchy.GuardWalk` | src/controllers/folderController.js:138-146 | `isDescendant` run from the folder answers true only for the folder itself or one of its ancestors, and false only when the folder's chain reaches the top |
| `Hierarchy.GuardWalkHangsOnlyOnCycles` | src/controllers/folderController.js:139-144 | with no cycle of parent references the loop of `isDescendant` ends |
| `Hierarchy.ReparentKeepsAcyclic` | src/controllers/folderController.js:153-163 | giving a folder a parent that is neither itself nor below it keeps the tree free of cycles |
| `Hierarchy.FreshIsNoAncestor` | src/controllers/folderController.js:110-115 | a new folder is no ancestor of an existing one, so creating it closes no cycle |
| `Hierarchy.GuardWalkAdmitsCycle` | src/controllers/folderController.js:148 | the guard as written lets folder 1 move under its own child 2, and the result has a cycle on which a later guard walk never ends |
| `Hierarchy.CorrectedGuardKeepsAcyclic` | src/controllers/folderController.js:137-150 | the guard walking up from the new parent, when it passes, leaves the tree free of cycles |
| `Hierarchy.CorrectedGuardRejectsOnlyCycles` | src/controllers/folderController.js:137-150 | the corrected guard refuses a move only when the move would close a cycle |
| `Store.Store.IsDescendant` | src/controllers/folderController.js:138-146 | the loop answers true exactly when the second argument is the first or an ancestor of it |
| `Transitions.CreateFolder` | src/controllers/folderController.js:101-123 | 400 "Name is required" for a missing or empty name and 500 for a missing parent, both with no change; with a name and a parent that exists or is absent, always 201: the new folder gets the next id, its description or null, its parent or null, and both timestamps, and nothing else changes |
| `Transitions.CreateFolderKeepsIntegrity` | src/controllers/folderController.js:101-123 | creating a folder keeps the integrity rules and the tree free of cycles |
| `Store.Store.CreateFolder` | src/controllers/folderController.js:101-123 | the handler ends in the reply and tables of `Transitions.CreateFolder` and keeps the store's invariant |
| `Transitions.UpdateFolder` | src/controllers/folderController.js:125-169 | with the guard walking up from the new parent: 404 when there is no such folder; 400 exactly for a move into the folder's own subtree; 500 exactly for a missing parent; none of them changes anything; otherwise always 200, the supplied fields replace the stored ones, the unsupplied keep theirs, and the parent is always overwritten |
| `Transitions.ApplyFolderUpdate` | src/controllers/folderController.js:153-165 | the UPDATE fails with 500 and no change exactly when the new parent does not exist; otherwise it overwrites only this folder's row with the coalesced name and description, the new parent or null, and the new timestamp |
| `Transitions.UpdateFolderAsWritten` | src/controllers/folderController.js:125-169 | the handler with the guard as written: 404 with no change for a missing folder, a 400 that changes nothing, and without a `parent_id` exactly the UPDATE |
| `Transitions.UpdateFolderAsWrittenMeaning` | src/controllers/folderController.js:137-150 | as written, a `parent_id` that is the folder or one of its ancestors is refused with 400; the handler hangs exactly when the folder's chain never reaches the top and never meets the parent; otherwise it runs the UPDATE |
| `Transitions.UpdateFolderAsWrittenAnswers` | src/controllers/folderController.js:137-150 | with no cycle of parent references the handler as written always answers |
| `Transitions.ResentParentRefused` | src/controllers/folderController.js:137-150 | renaming folder 3 while sending its current parent 2 again is refused with 400 as written, and accepted by the corrected guard |
| `Transitions.UpdateFolderKeepsIntegrity` | src/controllers/folderController.js:125-169 | an update that passes the guard keeps the integrity rules and the tree free of cycles |
| `Store.Store.UpdateFolder` | src/controllers/folderController.js:125-169 | the handler, with the guard walking up from the new parent, ends in the reply and tables of `Transitions.UpdateFolder` and keeps the store's invariant |
| `Transitions.DeleteFolder` | src/controllers/folderController.js:171-192 | 404 when there is no such folder; otherwise the folder and the folders below it are gone, and the bookmarks are re-homed and then unfiled |
| `Transitions.ParentSurvives` | src/controllers/folderController.js:181-186 | the parent a folder's bookmarks move to is not deleted with it |
| `Transitions.Rehome` | src/controllers/folderController.js:181-183 | the UPDATE keeps every bookmark; those filed in the folder move to its parent, the others are untouched |
| `Transitions.Unfile` | src/database/db.js:55 | `ON DELETE SET NULL` keeps every bookmark; those filed in a deleted folder become unfiled, the others are untouched |
| `Transitions.DeleteFolderKeepsIntegrity` | src/controllers/folderController.js:171-192 | deleting a folder keeps the foreign keys and the other integrity rules |
| `Transitions.DeleteFolderKeepsAcyclic` | src/controllers/folderController.js:171-192 | deleting a folder keeps the tree free of cycles |
| `Transitions.DeleteFolderEffect` | src/controllers/folderController.js:171-192 | deleting a folder keeps every bookmark: those filed in the folder move to its parent, those below it become unfiled, the rest are untouched |
| `Store.Store.DeleteFolder` | src/controllers/folderController.js:171-192 | the handler ends in the reply and tables of `Transitions.DeleteFolder` and keeps the store's invariant |
| `Transitions.CreateTag` | src/controllers/tagController.js:72-98 | 400 "Name is required" and 409 for a name in use, both with no change; a new name always gives 201: the new tag gets the next id and the given colour, or `#3b82f6` when none is given |
| `Transitions.CreateTagKeepsIntegrity` | src/controllers/tagController.js:72-98 | creating a tag keeps tag names unique and every other rule |
| `Transitions.CreateTagTwice` | src/controllers/tagController.js:92-95 | creating the same tag name a second time answers 409 |
| `Store.Store.CreateTag` | src/controllers/tagController.js:72-98 | the handler ends in the reply and tables of `Transitions.CreateTag` |
| `Transitions.UpdateTag` | src/controllers/tagController.js:100-128 | 404 when there is no such tag and 409 when the new name belongs to another tag, both with no change; otherwise always 200: the supplied name and colour replace the stored ones, the unsupplied keep theirs, and the links stay |
| `Transitions.UpdateTagKeepsIntegrity` | src/controllers/tagController.js:100-128 | renaming a tag keeps tag names unique |
| `Store.Store.UpdateTag` | src/controllers/tagController.js:100-128 | the handler ends in the reply and tables of `Transitions.UpdateTag` |
| `Transitions.DeleteTag` | src/controllers/tagController.js:130-146 | 404 when there is no such tag; otherwise the tag and exactly its links are gone |
| `Transitions.DeleteTagKeepsIntegrity` | src/controllers/tagController.js:130-146 | deleting a tag keeps the foreign keys |
| `Store.Store.DeleteTag` | src/controllers/tagController.js:130-146 | the handler ends in the reply and tables of `Transitions.DeleteTag` |
| `Transitions.EnsureTag` | src/controllers/bookmarkController.js:117-118 | `INSERT OR IGNORE` and the lookup by name yield a tag of that name, adding one with the default colour only when none exists, and keeping every other tag and table |
| `Transitions.LinkTagsStops` | src/controllers/bookmarkController.js:116-121 | once a link insert has thrown, the later names are not processed |
| `Transitions.LinkTagsKeepsIntegrity` | src/controllers/bookmarkController.js:111-122 | the tag loop keeps the integrity rules, keeps every tag and adds links of the bookmark only |
| `Transitions.LinkTagsRepeat` | src/controllers/bookmarkController.js:111-122 | for a bookmark without links, the loop throws exactly when a name occurs twice; otherwise the bookmark ends up linked to exactly the named tags |
| `Transitions.DistinctSnoc` | src/controllers/bookmarkController.js:116-121 | a list without repetitions stays so when a new name is appended, and only then |
| `Transitions.LinkOne` | src/controllers/bookmarkController.js:116-121 | one round keeps tag names unique, changes only tags and links, adds at most a tag of that name with the default colour, and adds the link of the bookmark to that tag unless the insert throws |
| `Transitions.LinkTags` | src/controllers/bookmarkController.js:111-122 | the loop changes only tags and links, keeps every tag and link, adds tags only for listed names with the default colour, and adds links of this bookmark only |
| `Transitions.LinkTagsSnoc` | src/controllers/bookmarkController.js:116-121 | after rounds that all succeeded, one more name runs exactly one more round |
| `Store.Store.LinkName` | src/controllers/bookmarkController.js:116-121 | the statements of one round end in the tables and failure flag of `Transitions.LinkOne` |
| `Store.Store.LinkTags` | src/controllers/bookmarkController.js:111-122 | the `forEach` loop ends in the tables and failure flag of `Transitions.LinkTags` |
| `Transitions.NewBookmark` | src/controllers/bookmarkController.js:104-108 | a new bookmark is not a favourite and has no visits |
| `Transitions.CreateBookmark` | src/controllers/bookmarkController.js:94-131 | 400 "Title and URL are required" and 500 for a missing folder, both with no change; otherwise the row of `NewBookmark` is stored under the next id, the reply is 201 or the 500 of a failed link, the folders and other bookmarks' links stay, and new tags carry listed names and the default colour |
| `Transitions.InsertKeepsIntegrity` | src/controllers/bookmarkController.js:103-108 | inserting a bookmark whose folder exists keeps the integrity rules, and the new id has no links yet |
| `Transitions.InsertAndLink` | src/controllers/bookmarkController.js:103-129 | after the insert the reply is a 201 with the row under the next id, or the 500 of a failed link; the bookmark table gains exactly that row, the folders and other bookmarks' links stay, and new tags carry listed names and the default colour |
| `Transitions.InsertAndLinkKeepsIntegrity` | src/controllers/bookmarkController.js:103-129 | the insert followed by the tag loop keeps the integrity rules and the folders |
| `Transitions.InsertAndLinkEffect` | src/controllers/bookmarkController.js:103-129 | after the insert the bookmark exists, the reply is 500 exactly when the tag list repeats a name, and a 201 leaves the bookmark linked to exactly the named tags |
| `Transitions.CreateBookmarkKeepsIntegrity` | src/controllers/bookmarkController.js:94-131 | creating a bookmark keeps the integrity rules and the folders |
| `Transitions.CreateBookmarkEffect` | src/controllers/bookmarkController.js:94-131 | for a valid request the bookmark is inserted and the handler answers 201 exactly when the tag list repeats no name, and 500 exactly when it does; a created bookmark carries exactly the named tags |
| `Store.Store.CreateBookmark` | src/controllers/bookmarkController.js:94-131 | the handler ends in the reply and tables of `Transitions.CreateBookmark` and keeps the store's invariant |
| `Transitions.UpdateBookmark` | src/controllers/bookmarkController.js:133-190 | 404 when there is no such bookmark and 500 for a missing folder, both with no change; otherwise the row becomes `UpdatedBookmark`, the reply is 200 or the 500 of a failed link, only bookmarks, tags and links change, other bookmarks' links stay, and new tags carry listed names and the default colour |
| `Transitions.UpdatedBookmark` | src/controllers/bookmarkController.js:146-162 | every supplied field replaces the stored one, every other keeps its value, the visit columns and creation time stay, and the update time is now |
| `Transitions.UpdateBookmarkEffect` | src/controllers/bookmarkController.js:133-190 | updating keeps the integrity rules; the reply is 200 exactly for an existing bookmark, an existing or absent folder and a tag list without repeats, and 500 from linking exactly when the list repeats a name; without `tags` the links stay, with `tags` the bookmark carries exactly the named tags |
| `Store.Store.UpdateBookmark` | src/controllers/bookmarkController.js:133-190 | the handler ends in the reply and tables of `Transitions.UpdateBookmark` and keeps the store's invariant |
| `Transitions.DeleteBookmark` | src/controllers/bookmarkController.js:192-207 | 404 when there is no such bookmark; otherwise the bookmark and exactly its links are gone |
| `Transitions.DeleteBookmarkKeepsIntegrity` | src/controllers/bookmarkController.js:192-207 | deleting a bookmark keeps the foreign keys |
| `Store.Store.DeleteBookmark` | src/controllers/bookmarkController.js:192-207 | the handler ends in the reply and tables of `Transitions.DeleteBookmark` |
| `Transitions.VisitBookmark` | src/controllers/bookmarkController.js:209-231 | 404 with no change when there is no such bookmark; otherwise the visit count grows by one, the last visit is now, and nothing else changes |
| `Transitions.VisitsAddUp` | src/controllers/bookmarkController.js:213-217 | n visits add exactly n to the count |
| `Transitions.VisitKeepsIntegrity` | src/controllers/bookmarkController.js:209-231 | a visit keeps the integrity rules |
| `Store.Store.VisitBookmark` | src/controllers/bookmarkController.js:209-231 | the handler ends in the reply and tables of `Transitions.VisitBookmark` |

## Left out

- The HTTP layer: routing, request parsing, JSON output, logging, the server
  start-up and the browser client. The text of a reply body beyond its kind and
  its message is not modelled.
- `CURRENT_TIMESTAMP` is the parameter `now`, an integer. Timestamp formats and
  the order of equal timestamps are not modelled.
- Failures of the database itself (disk, locking, SQL errors other than the
  foreign keys and the unique rules) are not modelled.
- Ids from the URL and from request bodies are integers. The string-to-number
  conversions SQLite and `parseInt` apply to them, and non-numeric ids, are not
  modelled. The same holds for the 64-bit limits of ids and visit counts.
- `LIKE` is a substring test that folds ASCII case. The wildcards `%` and `_`
  inside a search term, and case folding beyond ASCII, are not modelled.
- `GROUP_CONCAT` collects the tags in tag id order. SQLite does not promise any
  order, and the contracts about a row's tags state only membership.
- `ORDER BY` is a stable sort of rows in id order. The contracts state
  sortedness and membership only, because SQLite leaves the order of equal keys
  open. The same goes for ties among popular tags.
- `parseInt` is modelled for decimal and `0x` numerals after leading white
  space and one sign. Fractions, exponents and numbers beyond 2^53 are not
  modelled.
- Tag lists in a bookmark body are lists of strings. Non-string items are not
  modelled, and neither are values that are not lists (beyond "not a list").
- The depth of `buildTree`'s recursion (the call stack) is not modelled.
- The indexes of the schema (performance only) are not modelled.
- Store.Store.UpdateFolder: the guard walks up from the new parent. The code
  as written walks up from the moved folder, which the model keeps as
  `Transitions.UpdateFolderAsWritten` and `Hierarchy.GuardWalk` (see Findings).
- Transitions.UpdateFolder: states the same corrected guard.
- Transitions.UpdateFolderAsWritten: the loop of the as-written guard never ends
  on a cycle. It is bounded in `Hierarchy.GuardWalk` by one round more than there
  are folders, and `None` stands for the request that never answers;
  `Transitions.UpdateFolderAsWrittenMeaning` states exactly when that happens.

## Findings

| source | as written | input that shows it | evidently intended | confidence | as-written member | corrected member |
|---|---|---|---|---|---|---|
| src/controllers/folderController.js:148 | the cycle guard climbs from the folder being moved and looks for the new parent, so it rejects moving a folder under one of its ancestors and lets it move under its own descendant | folders 1 "Work" at the top and 2 "Projects" inside 1; move folder 1 under folder 2: the guard passes, 1 and 2 become each other's parent, and a later guard walk from folder 1 never ends | climb from the new parent and look for the folder being moved, as the error message "Cannot move folder into its own descendant" says | high; not executed | `Hierarchy.GuardWalkAdmitsCycle` | `Hierarchy.CorrectedGuardKeepsAcyclic` |
