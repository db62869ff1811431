# file-lister-2025: a Dafny model of the duplicate finder

file-lister-2025 walks a directory tree and lists every file. It fingerprints
each image or video with a perceptual hash and clusters files whose
fingerprints are close. It then writes a spreadsheet with the duplicate groups
first. A small web application lets the user mark files for deletion and
shows a status for each group. It can also resolve every group at once from a
list of preferred folders. There is also a command-line script that lists and
clusters files the same way and writes a slightly different sheet.

This project models the in-memory logic of both programs:

- **Text**: ASCII lower-casing and Python's string order.
- **Records**: the row of the web application's table.
- **Media**: the extension classifier `is_image_or_video`.
- **Clustering**: the greedy first-fit clustering loop and the dense numbering
  of multi-member groups.
- **Walk**: what the directory walk and the hashing library report for each
  file.
- **Listing** and **ListingFacts**: the web application's
  `list_files_and_find_duplicates`, from walk to the rows it writes, and what
  those rows are.
- **ScriptListing**: the command-line script's version. Its rows have no
  File Name and no Directory Path column, and they have a Keep column. It
  writes no blank row between the grouped and the unique rows. Its sheet is
  proved to be the web application's grouped rows followed by its unique
  rows, with the name and directory cells dropped, Keep "No" on grouped rows
  and Keep "Yes" on unique rows. The web application's separator row has no
  counterpart.
- **Statuses**: `get_group_statuses`, the three-way status of each group.
- **Priority**: `apply_folder_priority`, which keeps the first row of each
  group in (folder rank, path) order and marks the rest for deletion. It
  overwrites an array of rows in place.
- **Update**: the Delete-cell update of `update_file`, in place on an array
  of rows.

The fingerprint is a type parameter `F`. The distance `dist: (F, F) -> nat`
stands for the hash library's `a - b`. Both are inputs, so the properties hold
for any fingerprint and distance. Where a property needs more, its
precondition says so, for example a positive threshold or `dist(x, x) == 0`.

One might expect that raising the similarity threshold only merges more
files, so that a looser threshold never splits a pair grouped under a
stricter one. The code's greedy first-fit clustering does not behave that
way, and the model follows the code.
`Clustering.LooserThresholdCanSplitAPair` gives three fingerprints where
threshold 3 groups the second and third files. Threshold 4 instead groups
the first two and leaves the third alone.

## Model

| member | source | states |
|---|---|---|
| Text.Lower | app.py:137 | Lower-casing keeps the length and lowers each ASCII letter. |
| Text.Less | app.py:326-327 | Defines Python's `<` on `str`: by code point at the first difference, a proper prefix first. LessIrreflexive, LessTransitive and LessTotal state that it is a strict total order. |
| Text.LessIrreflexive | app.py:327 | No path sorts before itself. |
| Text.LessTransitive | app.py:327 | Path order is transitive. |
| Text.LessTotal | app.py:327 | Of two different paths, one sorts before the other. |
| Media.Extension | app.py:137 | `split('.')[-1]` is the text after the last dot, or the whole name when there is no dot; it contains no dot. |
| Media.ExtensionAfterLastDot | app.py:137 | Whatever comes before the last dot, the extension is the text after it. |
| Media.IsImageOrVideo | app.py:135-140 | Defines the classifier: the extension of the lower-cased name is one of the listed image or video extensions. MediaIffListedSuffix states what this means for the whole name. |
| Media.MediaIffListedSuffix | app.py:135-140 | A file is an image or video exactly when its lower-cased name is one of the eleven listed extensions or ends in a dot followed by one of them. The script's copy of the classifier (list_files_and_find_duplicates.py:107-112) is identical. |
| Clustering.FirstMatch | app.py:46-50 | The result is the earliest representative whose key is strictly within the threshold, or none when no key is. |
| Clustering.KeyIndex | app.py:53 | Looking up a fingerprint as a dictionary key finds the entry with that key, or none. |
| Clustering.Insert | app.py:44-53 | A file joins the earliest representative within the threshold and changes nothing else. When none is within the threshold and its fingerprint is not yet a key, a new representative comes last. When none is within the threshold but its fingerprint is already a key, that entry's members are replaced by the file alone. Keys never change. |
| Clustering.AddFile | list_files_and_find_duplicates.py:39-48 | The duplicate-check loop with its break computes Insert. |
| Clustering.ClusterAll | app.py:28-53 | Defines the dictionary after the walk: the fingerprinted files inserted one by one, in walk order. ClusterWellFormed, ClusterNeverInvents and ClusterKeepsEveryFile state its properties. |
| Clustering.ClusterAllSnoc | app.py:28-53 | Unfolds the definition of ClusterAll at a walk extended by one file, for the loop proofs: the file is inserted into the dictionary built so far. |
| Clustering.HashedPaths | app.py:48 | The fingerprinted paths, position by position. |
| Clustering.InsertKeepsWellFormed | app.py:44-53 | Member lists stay non-empty and keys stay distinct. |
| Clustering.ClusterWellFormed | app.py:44-53 | The final dictionary has no empty member list and no repeated key. |
| Clustering.InsertMembers | app.py:44-53 | One insertion adds at most the new path. It adds exactly that path unless it overwrites an existing key's list; then exactly that list's former members are lost. |
| Clustering.ClusterNeverInvents | app.py:44-53 | No path occurs in the member lists more often than among the fingerprinted files. |
| Clustering.ClusterKeepsEveryFile | app.py:44-53 | With a positive threshold and a zero self-distance, the member lists hold every fingerprinted file exactly once. |
| Clustering.SameFingerprintAtNonPositiveThresholdDropsFirstFile | app.py:47-53 | With a threshold of 0 or less, a second file with the same fingerprint overwrites the first file's list, and the first file is lost. |
| Clustering.LooserThresholdCanSplitAPair | app.py:44-53 | A larger threshold can separate two files that a smaller one put together, so first-fit is not monotone in the threshold. |
| Clustering.ClusteredAtThree | list_files_and_find_duplicates.py:39-48 | Concrete run: fingerprints 0, 3, 5 at threshold 3 group the second and third files. |
| Clustering.ClusteredAtFour | list_files_and_find_duplicates.py:39-48 | Concrete run: the same files at threshold 4 group the first two. |
| Clustering.OneTo | app.py:101-108 | The set holds exactly the numbers 1 .. m. |
| Clustering.MultiCount | app.py:101-108 | Defines how many representatives have more than one member, which is the final `group_counter - 1`. MultiCountGrows and GroupNumbersDense state its properties. |
| Clustering.GroupNumber | app.py:101-108 | Defines the group number of representative `i`: one more than the number of earlier multi-member representatives. GroupNumbersIncrease and GroupNumbersDense state its properties. |
| Clustering.MultiCountGrows | app.py:101-108 | The group counter never goes down, and it goes up at each multi-member representative. |
| Clustering.GroupNumbersIncrease | app.py:101-108 | Group numbers strictly increase in the order the representatives were created. |
| Clustering.GroupNumbersDense | list_files_and_find_duplicates.py:73-80 | Each multi-member representative gets a number in 1 .. the number of groups, and each number there is used: no gaps. |
| Clustering.GroupNumbersBounded | app.py:101-108 | Each multi-member representative gets a number in 1 .. the number of groups. |
| Clustering.GroupNumbersOnto | list_files_and_find_duplicates.py:73-80 | Each number in 1 .. the number of groups is given to some multi-member representative. |
| Records.RowPaths | app.py:105 | The File Path column, position by position. |
| Records.HasGroup | app.py:281-282 | Defines Python truthiness of the Duplicate Group cell: present and non-zero. Statuses.GroupStatusesKeys and Priority.Resolved state which rows it admits. |
| Records.DistinctCountsAtMostOne | app.py:105 | In a list without repeats, each path occurs at most once. |
| Walk.FilePaths | app.py:34 | The walked paths, position by position. |
| Walk.Fingerprint | app.py:35-53 | Defines which files reach the clustering: an image or video whose metadata and hash were both read. Walk.HashedFilesSnoc states this per file. |
| Walk.HashedFiles | app.py:32-53 | Defines the (path, fingerprint) pairs fed to the clustering, in walk order. HashedPathsAreWalkedPaths states its properties. |
| Walk.HashedPathsAreWalkedPaths | app.py:32-57 | Fingerprinted paths are walked paths with no repeats, and a file without a fingerprint is not among them. |
| Walk.HashedFilesSnoc | app.py:35-57 | Unfolds the definition of HashedFiles at a walk extended by one file, for the loop proofs: the file adds its (path, fingerprint) pair exactly when it has a fingerprint. |
| Listing.InitialRow | app.py:59-95 | Each walked file's row has its path, no group and Delete "No". |
| Listing.Numbered | app.py:104-107 | Defines the rows one numbering pass appends: the table rows whose path is a member, given the group number, in table order. ListingFacts.NumberedRows states which rows they are. |
| Listing.WithPath | app.py:110-112 | Defines the rows one unique pass appends: the table rows with that path, in table order. ListingFacts.WithPathRows states which rows they are. |
| Listing.GroupedRows | app.py:101-108 | Defines `grouped_files` after the loop has visited the given representatives. ListingFacts.GroupedRowsNumbered and GroupedRowsOrdered state what it holds. |
| Listing.UniqueRows | app.py:101-112 | Defines `unique_files` after the loop has visited the given representatives. ListingFacts.UniqueRowsFromTable states what it holds. |
| Listing.Sheet | app.py:23-121 | Defines the rows the listing writes: walk, cluster, number, lay out. ListingFacts.SheetWritesOnlyFingerprintedFiles, SheetWritesEveryFingerprintedFileOnce, SheetGroupColumn and SheetGroupsDense state its properties. |
| Listing.FileData | app.py:64-95 | `file_data` has one initial row per walked file, in walk order. |
| Listing.AsData | app.py:115-121 | Rows become sheet rows one for one. |
| Listing.Layout | app.py:114-121 | The sheet is the grouped rows, then the unique rows. A blank separator appears exactly when both parts are non-empty. |
| Listing.AssignGroups | app.py:98-112 | The numbering loop builds the grouped and unique lists that GroupedRows and UniqueRows define. |
| Listing.NumberMembers | app.py:104-107 | The pass for a representative with several members appends exactly the numbered rows that Numbered defines. |
| Listing.CopyUnique | app.py:110-112 | The pass for a single-member representative appends exactly the table rows that WithPath defines. |
| Listing.ScanStep | app.py:32-96 | One walk step appends the file's row and clusters the file exactly when it has a fingerprint. |
| Listing.ScanFiles | app.py:28-96 | The walk loop builds `file_data` and the representative dictionary for all files in walk order. |
| Listing.ListFilesAndFindDuplicates | app.py:23-121 | The whole listing returns Sheet: walk, cluster, number, lay out. |
| ListingFacts.NumberedRows | app.py:104-107 | A numbering pass keeps exactly the table rows whose path is a member, stamped with the group number. |
| ListingFacts.WithPathRows | app.py:110-112 | The unique pass copies exactly the table rows with that path, unchanged. |
| ListingFacts.GroupedRowsNumbered | app.py:102-108 | Grouped rows are exactly the table rows of multi-member representatives, each carrying that representative's group number. |
| ListingFacts.GroupedRowsOrdered | app.py:101-108 | Grouped rows carry numbers 1 .. the number of groups, never decreasing down the list. |
| ListingFacts.NumberedFollowsTable | app.py:104-107 | The rows a numbering pass appends keep their table order: of two numbered rows, the earlier comes from an earlier table row. |
| ListingFacts.GroupedRowsFollowTable | app.py:101-108 | Within one group, the grouped rows follow the walk order of the table, not the order in which the files joined the group. |
| ListingFacts.UniqueRowsFromTable | app.py:109-112 | Unique rows are exactly the unchanged table rows of single-member representatives. |
| ListingFacts.WrittenWithinMembers | app.py:102-112 | The written rows hold no path more often than the member lists. |
| ListingFacts.MembersWritten | app.py:102-112 | Every member that is a table path gets a written row. |
| ListingFacts.LayoutPaths | app.py:114-121 | The sheet writes the grouped paths, then the unique paths, and skips the separator. |
| ListingFacts.SheetWritesOnlyFingerprintedFiles | app.py:35-121 | The sheet writes each path at most once, and only fingerprinted paths. Non-media files and files whose metadata or hash failed are not written. |
| ListingFacts.SheetWritesEveryFingerprintedFileOnce | app.py:44-121 | With a positive threshold and a zero self-distance, the sheet writes every fingerprinted file exactly once. |
| ListingFacts.LayoutGroups | app.py:114-121 | Numbered rows precede unnumbered ones, their numbers do not decrease, and every row says Delete "No". |
| ListingFacts.SheetGroupColumn | app.py:98-121 | In the sheet, group numbers lie in 1 .. the number of groups, never decrease and come before all unnumbered rows. Every written row has Delete "No". |
| ListingFacts.SheetGroupsDense | app.py:101-121 | Every group number from 1 to the number of groups appears on some written row. |
| ScriptListing.InitialScriptRow | list_files_and_find_duplicates.py:55-67 | Each walked file's row has its path, no group, Keep "No" and Delete "No". It has a size exactly when it is an image or video whose metadata was read. |
| ScriptListing.ScriptData | list_files_and_find_duplicates.py:27-68 | One initial row per walked file, in walk order. |
| ScriptListing.Tagged | list_files_and_find_duplicates.py:76-79 | Defines the rows one numbering pass appends: the table rows whose path is a member, given the group number, in table order. ScriptGroupedIsGroupedRows ties it to the web application's numbering. |
| ScriptListing.Kept | list_files_and_find_duplicates.py:82-85 | Defines the rows one unique pass appends: the table rows with that path, with Keep "Yes". ScriptUniqueIsUniqueRows ties it to the web application's unique pass. |
| ScriptListing.ScriptGrouped | list_files_and_find_duplicates.py:70-80 | Defines `grouped_files` after the loop has visited the given representatives. ScriptGroupedIsGroupedRows states that it is the web application's grouped rows with Keep "No". |
| ScriptListing.ScriptUnique | list_files_and_find_duplicates.py:70-85 | Defines `unique_files` after the loop has visited the given representatives. ScriptUniqueIsUniqueRows states that it is the web application's unique rows with Keep "Yes". |
| ScriptListing.ScriptSheet | list_files_and_find_duplicates.py:89-93 | Defines the rows the script writes: grouped rows, then unique rows. ScriptSheetIsSheetParts, ScriptSheetColumns and ScriptSheetPaths state its properties. |
| ScriptListing.ScanFiles | list_files_and_find_duplicates.py:27-68 | The walk loop builds the script's `file_data` and the same dictionary as the web application. |
| ScriptListing.AssignGroupsAndKeep | list_files_and_find_duplicates.py:70-85 | The numbering and Keep loop builds the grouped and unique lists. |
| ScriptListing.TagMembers | list_files_and_find_duplicates.py:76-79 | The pass for a representative with several members appends exactly the tagged rows that Tagged defines. |
| ScriptListing.KeepUnique | list_files_and_find_duplicates.py:82-85 | The pass for a single-member representative appends that file's rows with Keep "Yes", as Kept defines. |
| ScriptListing.ListFilesAndFindDuplicates | list_files_and_find_duplicates.py:18-93 | The whole script returns ScriptSheet. |
| ScriptListing.ScriptDataIsFileData | list_files_and_find_duplicates.py:55-67 | The script's table is the web table's rows with Keep "No". |
| ScriptListing.ScriptGroupedIsGroupedRows | list_files_and_find_duplicates.py:74-80 | The script's grouped rows are the web application's grouped rows with Keep "No". |
| ScriptListing.ScriptUniqueIsUniqueRows | list_files_and_find_duplicates.py:81-85 | The script's unique rows are the web application's unique rows with Keep "Yes". |
| ScriptListing.ScriptSheetIsSheetParts | list_files_and_find_duplicates.py:89-93 | The script writes the web application's grouped rows (Keep "No") then its unique rows (Keep "Yes"), each without the name and directory cells, and with no separator between them. |
| ScriptListing.ScriptSheetColumns | list_files_and_find_duplicates.py:70-93 | Every row has Delete "No". A row has Keep "Yes" exactly when it has no group. Numbers lie in 1 .. the number of groups, never decrease, and precede all unnumbered rows. |
| ScriptListing.ScriptSheetPaths | list_files_and_find_duplicates.py:89-93 | The script writes the same paths, in the same order, as the web application. |
| ScriptListing.ScriptWritesOnlyFingerprintedFiles | list_files_and_find_duplicates.py:30-93 | Only fingerprinted files are written, none twice. |
| ScriptListing.ScriptWritesEveryFingerprintedFileOnce | list_files_and_find_duplicates.py:39-93 | With a positive threshold and a zero self-distance, every fingerprinted file is written exactly once. |
| ScriptListing.ScriptGroupsDense | list_files_and_find_duplicates.py:73-80 | Every group number from 1 to the number of groups appears in the script's sheet. |
| Statuses.Indices | app.py:279-285 | The positions of group `g`'s rows, in table order: exactly the rows with a truthy group cell equal to `g`. |
| Statuses.Members | app.py:279-285 | A group's member list holds exactly the table rows of that group. |
| Statuses.MarkedForDeletion | app.py:289 | Defines when a row counts as deleted: its Delete cell, lowered, reads "yes". YesMarksNoDoesNot states it for "Yes" and "No". |
| Statuses.Remaining | app.py:289 | The count of rows not marked for deletion is at most the group size. |
| Statuses.NoneRemaining | app.py:289-294 | No row is left exactly when every row is marked "yes" (case-insensitively). |
| Statuses.TwoRemaining | app.py:289-298 | At least two rows are left exactly when two distinct rows are unmarked. |
| Statuses.Decide | app.py:291-298 | Defines the decision table from a group's size and its count of unmarked rows. StatusOfGroup states the resulting status in terms of the group's rows. |
| Statuses.GroupStatusesKeys | app.py:279-287 | A status is reported for exactly the truthy group values in the table. |
| Statuses.GroupStatuses | app.py:277-300 | Defines `get_group_statuses`: one status per truthy group value. GroupStatusesKeys and StatusOfGroup state its keys and values. |
| Statuses.Label | app.py:291-298 | Defines the status-to-text map: "Only 1 file", "All to be Deleted", "Multiple Duplicates". StatusTextOfGroup states which text each group gets. |
| Statuses.StatusTextOfGroup | app.py:288-298 | The text reported for a group is one of the three labels. "All to be Deleted" iff there are several rows, all marked. "Multiple Duplicates" iff two rows are unmarked. "Only 1 file" iff there is one row or exactly one unmarked row. |
| Statuses.StatusOfGroup | app.py:288-298 | "All to be Deleted" iff there are several rows, all marked. "Multiple Duplicates" iff two rows are unmarked. "Only 1 file" iff there is one row or exactly one unmarked row. |
| Statuses.YesMarksNoDoesNot | app.py:289 | "Yes" in the Delete cell counts as marked and "No" does not. |
| Statuses.SameGroupsSameIndices | app.py:279-285 | Changing Delete cells does not change which rows form a group. |
| Priority.Rank | app.py:325 | The rank is the index of the directory's first occurrence in the priority list, or the list's length when it is absent. |
| Priority.Before | app.py:324-327 | Defines the sort key order: folder rank first, then path. BeforeIsStrictOrder states that it is a strict order. |
| Priority.BeforeIsStrictOrder | app.py:324-327 | The sort key is irreflexive and transitive, and any two rows it does not order have equal keys. |
| Priority.BestAt | app.py:324-331 | The position of the first row of the sort lies within the group. |
| Priority.BestAtIsFirstOfSort | app.py:324-331 | The chosen row has no row of its group sorting before it, and it sorts strictly before every earlier row of the group: a stable sort puts it first. |
| Priority.Keeper | app.py:330-332 | The kept row is a row of its group. |
| Priority.ResolvedRow | app.py:330-334 | Defines one row after resolution: a grouped row gets "No" when it is its group's kept row and "Yes" otherwise; other rows are unchanged. OneKeeperPerGroup states the result per group. |
| Priority.Resolved | app.py:311-334 | Resolution changes only Delete cells and leaves ungrouped rows alone. |
| Priority.GroupPositions | app.py:312-318 | The grouping loop returns the groups in the order GroupOrder lists them and, for each, the positions of its rows. |
| Priority.GroupOrder | app.py:312-318 | Defines the key order of `duplicate_groups`: each truthy group value, in order of its first row. GroupOrderByFirstRow and GroupOrderOfSample state what it lists. |
| Priority.GroupOrderByFirstRow | app.py:312-318 | The groups are listed once each, every truthy group value is listed, and a group listed earlier has its first row earlier: first-appearance order, as the dictionary keeps it. |
| Priority.GroupOrderOfSample | app.py:312-318 | A table whose group cells read 2, none, 1, 2 lists its groups as [2, 1]. |
| Priority.FirstOfSort | app.py:324-327 | The minimum scan finds the row a stable sort puts first. |
| Priority.MarkGroup | app.py:330-334 | The marking loop writes "No" on the first sorted row and "Yes" on the group's other rows, and changes no other row. |
| Priority.ApplyFolderPriority | app.py:311-334 | Resolution in place leaves the array equal to Resolved of the old rows. |
| Priority.SameKeysSameBest | app.py:324-327 | Delete cells do not affect which row sorts first. |
| Priority.OneKeeperPerGroup | app.py:313-334 | Each group keeps exactly one row, marked "No", and all other rows of the group are "Yes". |
| Priority.KeeperIsFirstOfSort | app.py:324-332 | The kept row has the minimal (folder rank, path) key and is the earliest row with that key. |
| Priority.ResolveIsIdempotent | app.py:311-334 | Applying the same priority list twice gives the same table as applying it once. |
| Priority.ResolvedGroupsHaveOneFile | app.py:334-340 | After resolution every group's status is "Only 1 file". |
| Update.FirstWithPath | app.py:263-264 | The first row with the requested path, or none: no earlier row has that path. |
| Update.Updated | app.py:263-267 | Only the Delete cell of the first row with the path changes, to the sent value. Every other row stays as it was. |
| Update.UpdateFile | app.py:263-267 | The loop with its break leaves the array equal to Updated of the old rows. |
| Update.UpdateIsIdempotent | app.py:263-267 | Sending the same update twice gives the same table as sending it once. |
| Update.UpdateKeepsOtherStatuses | app.py:263-273 | An update leaves every group's status unchanged, except the group of the changed row. |

## Left out

- Directory walking, file sizes, modification times, path splitting and
  `relpath` are left out. The model receives the walked files in walk order,
  each with its name, directory, path and what inspecting it gave
  (`Walk.Probe`).
- Image decoding and average hashing are left out. The fingerprint and the
  distance are abstract parameters.
- Reading and saving the workbook (openpyxl) is left out. The listings end
  with the rows they would write. The web operations start from the rows
  read back and end with the rows they would save.
- Flask routes, JSON replies, serving images, the root-directory global,
  progress bars and printed warnings are left out. Per-file exceptions appear
  only as "this file has no fingerprint" or "this file's metadata could not be
  read".
- `delete_marked_files` removes files from disk and counts the outcomes. It
  consists only of side effects, so it is not part of this model.
- list_files.py walks a tree and writes a sheet with no logic beyond I/O. It
  is not part of this model.
- The web application sends the status table as a dictionary. Its key order
  is not modelled; `GroupStatuses` is a `map`.
- Text.Lower: lowers only ASCII letters. Python's `str.lower` also lowers
  other letters, so the extension test and the "yes" test are exact only for
  ASCII file names and Delete cells.
- Statuses.MarkedForDeletion: a Delete cell that is empty when read back
  would make `.lower()` raise. The model's Delete cell is always a string.
- Records.HasGroup: the group cell is an optional integer. Truthiness is
  "present and non-zero". A group cell holding a non-integer value is not
  modelled.
- Priority.FirstOfSort: only the first row of the stable sort is computed,
  because only that row gets "No" and the order of the others does not
  affect the result. The sort's order beyond its first element is not
  modelled.
- Listing.AssignGroups and ScriptListing.AssignGroupsAndKeep: the source
  stores the same row object in `file_data` and in the grouped or unique
  list, and updates it in place. The model builds the lists from copied
  values. Each path is in at most one member list, so no row is changed
  twice and the written rows are the same.
- The similarity threshold is a parameter. The default of 5 is the caller's
  choice and is not fixed in the model.
- Walked paths are assumed distinct, as a directory walk yields them. The
  theorems that depend on this require `Distinct(FilePaths(files))`.

