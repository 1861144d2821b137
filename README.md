# Gallery data core

A Dafny model of the data core of the single-page image gallery in `app.js`.
The gallery keeps one document in browser storage. The document maps folder
names to ordered lists of image records. Each record has an id, a file name,
a data URL, a list of tags and a creation time.

The model covers:

- tag normalisation (`normalizeTags`) and folder-name sanitising (`sanitizeFolderName`);
- the fallback to a default document when loading;
- the sorted folder listing;
- the create-folder, upload, delete-image and reset handlers, which change the document and save it;
- the search pipeline: `getAllImages` flattens every folder and sorts newest first, `applyFilters` selects by folder, name text and tags, and a click on a tag chip updates the query.

Modules:

- `Seqs`: subsequences and duplicate-free sequences.
- `Text`: the string primitives JavaScript supplies, namely `trim`, `toLowerCase`, `split(",")`, `join`, `includes`, and the regular-expression classes `\s` and `\w`.
- `Tags`: `normalizeTags` and the tag-click query update.
- `FolderName`: `sanitizeFolderName`.
- `Records`: the document types and `loadState`.
- `Listing`: `getFolderNames`.
- `Timeline`: `getAllImages` as functions.
- `Filter`: `applyFilters`.
- `Gallery`: the mutable page state. It is a class `AppState` holding the in-memory folders and what the store holds. Its methods are the handlers. Every method keeps the invariant `Synced()`, meaning that reloading the stored document gives the folders held in memory. This rests on saving never failing; see "## Left out".

Three behaviours of the code a reader might not expect:

- `normalizeTags` keeps duplicate tags. Only the tag-click handler collapses them, through a `Set`.
- `sanitizeFolderName` keeps only ASCII word characters, the range ก-๙ (U+0E01 to U+0E59), white space, `.` and `-`. Letters of other scripts are dropped, and so are U+0E5A and U+0E5B at the end of the Thai block.
- An upload into a folder missing from the document stops with a `TypeError` at the first image file.

## Model

| member | source | states |
|---|---|---|
| Text.Trim | app.js:20 | the result has no white space at either end, and only white space of the input surrounds it |
| Text.TrimCounts | app.js:20 | trimming removes only white space: every other character occurs as often as before |
| Text.TrimUnique | app.js:20 | at most one trimmed slice of the input is surrounded by white space only, so the contract of `Trim` fixes its result |
| Text.Lower | app.js:15 | the length is kept and every character is lower-cased in place |
| Text.Split | app.js:12 | at least one piece is returned, and no piece contains a comma |
| Text.SplitJoin | app.js:12 | joining the pieces with commas gives back the text that was split |
| Text.SplitAtComma | app.js:12 | splitting at a comma gives the pieces before it followed by the pieces after it |
| Text.Join | app.js:318 | `join`: a single piece comes back as it is; the round trips with splitting are `Text.SplitJoin` and `Tags.JoinNormalizeRoundTrip` |
| Text.Contains | app.js:253 | `includes`: the needle is a prefix of the text or is contained in its tail; `Text.ContainsAt` states what this means |
| Text.ContainsAt | app.js:253 | the text contains the needle exactly when the needle occurs in it at some offset |
| Tags.NormalizeTags | app.js:10-16 | every returned tag is non-empty, trimmed, comma-free and lower case |
| Tags.NormalizeTagsAtComma | app.js:10-16 | the text on either side of a comma is normalised independently and the results are concatenated, so input order is kept |
| Tags.NormalizeTagsKeepsDuplicates | app.js:10-16 | a tag written twice is listed twice |
| Tags.NormalizeTagsLeadingSpace | app.js:10-16 | white space in front of the text changes nothing |
| Tags.JoinNormalizeRoundTrip | app.js:10-16 | a list of tags joined with ", " normalises back to the same list |
| Tags.Dedup | app.js:316 | the `Set` built from the tags holds each of them once, has the same members, and keeps their relative order |
| Tags.DedupFirstOccurrenceOrder | app.js:316 | the `Set` lists its members in order of first occurrence: of any two, the earlier one occurs before the later one first does |
| Tags.AddTag | app.js:317 | adding to the `Set` makes the tag a member and keeps the members unique |
| Tags.ClickTagQuery | app.js:314-318 | after a click, the query's tags are the earlier distinct tags plus the clicked tag lower-cased; clicking a tag already present leaves the set of tags unchanged |
| Tags.ClickTag | app.js:316-318 | the query text after a click: the distinct normalised tags of the old query plus the clicked tag lower-cased, joined with ", "; `Tags.ClickTagQuery` and `Filter.ClickTagNarrows` state what it yields |
| FolderName.ReplaceSeparators | app.js:21 | every `/` and `\` becomes `-` at its own position; nothing else changes |
| FolderName.ReplaceSeparatorsCounts | app.js:21 | each separator adds one hyphen; no other character count changes |
| FolderName.RemoveDoubleDots | app.js:22 | dropping `..` pairs never lengthens the text |
| FolderName.RemoveDoubleDotsOnlyRemoves | app.js:22 | dropping `..` pairs only removes characters: each occurs at most as often as before |
| FolderName.RemoveDoubleDotsKeepsOrder | app.js:22 | what is left keeps its order |
| FolderName.RemoveDoubleDotsCounts | app.js:22 | only dots go, two for each pair the left-to-right scan removes; every other character is kept as often as it occurs |
| FolderName.RemoveDoubleDotsLeavesNoPair | app.js:22 | no two dots are left side by side |
| FolderName.RemoveDoubleDotsAround | app.js:22 | a character other than a dot separates the scan: the text on each side of it is cleaned on its own, so `..a.` becomes `a.`, never `.a` |
| FolderName.KeepAllowed | app.js:23 | the kept text holds only allowed characters and is a subsequence of the input; `FolderName.KeepAllowedCounts` gives the exact counts |
| FolderName.KeepAllowedCounts | app.js:23 | each allowed character is kept as often as it occurs, and every other character is removed |
| FolderName.SanitizeFolderName | app.js:18-25 | the name holds only allowed characters (so no path separator) and has no white space at either end |
| FolderName.SanitizeCounts | app.js:18-25 | apart from white space and dots, every allowed character is kept as often as the input has it, each separator becomes one more hyphen, and every other character is gone |
| FolderName.SanitizeKeepsCleanName | app.js:18-25 | a trimmed name of allowed characters without `..` comes through unchanged |
| FolderName.SanitizeMayYieldDoubleDot | app.js:22-23 | `a.@.b` sanitises to `a..b`, so `..` can survive sanitising |
| Records.DefaultFolders | app.js:33 | the default document has exactly one folder, "Default", and it is empty |
| Records.LoadState | app.js:29-42 | every path other than a saved document yields the default document |
| Listing.PrecedesTotal | app.js:99 | any two names are comparable |
| Listing.PrecedesAntisymmetric | app.js:99 | two names that precede each other are equal |
| Listing.PrecedesTransitive | app.js:99 | the order is transitive |
| Listing.FolderNames | app.js:98-100 | the listing holds exactly the folder names, each once; `Listing.SortedKeys` adds that they are in increasing order |
| Listing.SortedKeys | app.js:98-100 | the listing holds exactly the keys, once each, in strictly increasing order |
| Listing.CreatedFolderListedOnce | app.js:98-100 | after a new folder is added, the listing grows by one, keeps the earlier names, and holds the new name exactly once |
| Timeline.Flatten | app.js:233-237 | the records of the listed folders, folder by folder, each annotated with its folder's name; `Timeline.FlattenCount` and `Gallery.Gather` state what it holds |
| Timeline.FlattenCount | app.js:233-237 | flattening distinct folders yields each record of a listed folder as often as that folder holds it, annotated with that folder, and nothing else |
| Timeline.Key | app.js:239 | the sort key `createdAt || 0`: the creation time, or 0 when there is none; `Timeline.SortNewestFirst` orders by it |
| Timeline.InsertNewestFirst | app.js:239 | inserting into a newest-first list keeps it newest-first and adds exactly the one entry |
| Timeline.SortNewestFirst | app.js:239 | the sort result has non-increasing creation time, with a missing time counted as 0, and is a permutation of its input |
| Timeline.SortIsStable | app.js:239 | entries with the same time keep their relative order |
| Filter.ReadQuery | app.js:244-246 | the query read from the search fields: the folder selector as given, the trimmed lower-cased text and the normalised tags; `Filter.ApplyFiltersKeeps` states how it is used |
| Filter.Keep | app.js:249-263 | the test each entry must pass: folder, name text and every query tag; `Filter.ApplyFiltersKeeps` spells it out |
| Filter.ApplyFilters | app.js:243-265 | the entries passing the test of the query read from the fields; `Filter.ApplyFiltersKeeps`, `Filter.FilterIdempotent` and `Filter.ShowAll` state its properties |
| Filter.LowerAll | app.js:257 | every tag of the record is lower-cased, and the count is kept |
| Filter.Select | app.js:248-264 | the result is an order-preserving subsequence holding exactly the entries that pass the test |
| Filter.ApplyFiltersKeeps | app.js:243-265 | an entry is kept exactly when its folder matches the selector or the selector is "__ALL__", the trimmed, lower-cased text is empty or occurs in the lower-cased name, and every normalised query tag is among its lower-cased tags |
| Filter.SelectCount | app.js:248-264 | a passing entry is kept as often as it occurs; a failing one never is |
| Filter.ShowAll | app.js:373-379 | "__ALL__", blank text and no tags return the input unchanged |
| Filter.FilterIdempotent | app.js:243-265 | filtering twice with the same inputs equals filtering once |
| Filter.ClickTagNarrows | app.js:314-318 | after a tag click an entry passes the new query exactly when it passed the old one and carries the clicked tag |
| Gallery.IsImageType | app.js:183 | a file is an image when its MIME type starts with `image/`; `Gallery.AcceptedFiles` and `Gallery.AcceptedFilesCount` use it |
| Gallery.AcceptedFiles | app.js:183 | the files not skipped are exactly the `image/` files, in their order |
| Gallery.AcceptedFilesCount | app.js:182-183 | each image file is accepted as often as it is given; no other file is |
| Gallery.NewRecords | app.js:182-192 | the records an upload pushes; `Gallery.NewRecordsFollowFiles` and `Gallery.NewRecordsTagged` state what they hold |
| Gallery.NewRecordsFollowFiles | app.js:182-192 | one record is pushed per accepted file, in order. Each record carries that file's name and payload, the shared tag list and a creation time |
| Gallery.Lookup | app.js:357 | `state.folders[folder] || []` on a true map: the folder's records, or none when the folder is absent; inherited names are under "## Left out" |
| Gallery.RemoveId | app.js:357 | the folder keeps exactly its records with another id, in their order |
| Gallery.RemoveIdCount | app.js:357 | every record with another id is kept as often as it occurs |
| Gallery.RemoveIdLength | app.js:357 | the length drops by the number of records with that id, and an unknown id leaves the list unchanged |
| Gallery.CreateOutcomeAsWritten | app.js:147-149 | as written, an empty name is refused as empty, and a name is refused as a duplicate exactly when it is a folder or a name inherited from `Object.prototype` |
| Gallery.InheritedNameRefused | app.js:148 | on the default document, "toString" is refused although it is not a folder |
| Gallery.CreateOutcomeFor | app.js:145-151 | with the corrected guard, a name is refused as a duplicate exactly when a folder of that name exists |
| Gallery.InheritedNameAccepted | app.js:148 | with the corrected guard, "toString" becomes a folder |
| Gallery.NewRecordsTagged | app.js:179-191 | every record an upload pushes carries tags `normalizeTags` produced |
| Gallery.AppendKeepsTagged | app.js:186 | appending such records keeps every record of the document tagged that way |
| Gallery.RemoveKeepsTagged | app.js:357 | deleting records keeps every record of the document tagged that way |
| Gallery.StoredTagClickable | app.js:310-317 | a chip shown for a tag of such a record lower-cases to a tag, as the tag-click lemmas require |
| Gallery.AppState.Open | app.js:27 | the page starts from the loaded document and is in sync with the store |
| Gallery.AppState.Save | app.js:44-46 | the store holds the current document |
| Gallery.AppState.CreateFolder | app.js:145-151 | the outcome is the corrected decision. An empty or existing name changes nothing. Otherwise the only change is one new key mapped to an empty list, and the document is saved. A document whose records all carry normalised tags stays so |
| Gallery.AppState.HandleFilesUpload | app.js:171-195 | With no folder or no files, nothing changes. If the folder is missing, an image file stops the upload with nothing changed. Otherwise the records of the image files are appended to the end of the folder in file order, every other folder is untouched, and the document is saved. A document whose records all carry normalised tags stays so |
| Gallery.AppState.DeleteImage | app.js:355-358 | A declined confirmation changes nothing. Otherwise the folder becomes its records with another id, an absent folder is created empty, other folders are unchanged, and the document is saved. A document whose records all carry normalised tags stays so |
| Gallery.AppState.Reset | app.js:381-384 | a declined confirmation changes nothing; otherwise the store is cleared and the default document loaded, whose records trivially carry normalised tags |
| Gallery.AppState.AllImages | app.js:231-241 | the result is the sorted flattening. It is newest first and holds each record of each folder, annotated with its folder, exactly as often as the folder holds it |
| Gallery.CollectUploads | app.js:182-193 | the upload loop yields the records of the image files in file order; it stops at an image file exactly when the folder is missing and some file is an image |
| Gallery.Gather | app.js:232-237 | the nested loops push every record of the listed folders, folder by folder, annotated with the folder name |
| Gallery.TimelineHoldsEveryRecord | app.js:231-241 | the sorted timeline is a permutation of all records of all folders, each annotated with its owner |

## Left out

- DOM work is not modelled: element lookup, `refillFolderSelects`, `setActiveTab`, card construction in `renderGallery`, and every message text.
- `localStorage` and `JSON.parse`/`JSON.stringify` are not modelled as code. Loading is a decision over the datatype `Stored`: absent, unparsable, without folders, or saved.
- The round trip of `saveState` and `loadState` (app.js:29-46) is an assumption of this model, not a proved property: a document written as `Saved(f)` is taken to load as `f`. What is proved is that every handler leaves the page in sync with the store under that assumption (`Synced`).
- Documents loaded from the store may hold records with arbitrary tags. The well-tagged property is proved only for documents the handlers build from the default document.
- A stored `folders` field that is truthy but not an object is not modelled.
- Records missing `name` or `tags` are not modelled; `name` is taken as the empty string and `tags` as the empty list.
- A `createdAt` that is not a number is not modelled, so the NaN comparisons of the sort do not arise.
- `saveState` (app.js:44-46) is taken never to throw. When `localStorage.setItem` fails, for example over the storage quota, the create (app.js:150-151), upload (app.js:186, 195) and delete (app.js:357-358) handlers keep their change in memory while the store keeps the earlier document, so `Synced` no longer holds.
- Gallery.AppState.DeleteImage: a folder name inherited from `Object.prototype`, such as `toString`, is not modelled as the code behaves. There `state.folders[folder] || []` (app.js:357) is the inherited function, so `.filter` throws a `TypeError` and nothing changes or is saved. The model creates the folder empty and saves. The cause is the same as the app.js:148 finding.
- `FileReader`/`readFileAsDataURL` and the `async`/`await` sequencing are not modelled. The payload is part of each file input.
- A failing read part-way through an upload is not modelled. In the code it leaves earlier pushes in memory, unsaved.
- Gallery.AppState.HandleFilesUpload: the records are collected during the loop and appended in one step after it. The intermediate states the page could show between two awaits are not modelled; the final state is the same.
- `uid()` and `Date.now()` are supplied as one stamp per file position. Uniqueness of ids is not provable from the code and is not claimed.
- `localeCompare` is replaced by lexicographic order on code points. The locale's collation tables are not part of this model.
- `toLowerCase` is modelled on ASCII letters only. Full Unicode case mapping, which can change a string's length, is not modelled.
- Characters are Unicode scalar values, not UTF-16 code units. A name with characters outside the Basic Multilingual Plane is therefore not modelled exactly.
- The tag list pushed with each record is one shared array in the code. Nothing mutates it, so the aliasing is not observable and not modelled.
- `confirm` dialogs and event listeners become boolean parameters and plain calls.
- Ties under `localeCompare` between distinct names, which some collations have, are not modelled. The code-point order has none.

## Findings

| source | as written | input that shows it | evidently intended | confidence | as-written member | corrected member |
|---|---|---|---|---|---|---|
| app.js:148 | `if (state.folders[name])` treats any truthy property as an existing folder, including the methods every object inherits from `Object.prototype` | creating a folder named `toString` (or `constructor`, `valueOf`, …) on the default document is refused as a duplicate although no such folder exists | refuse only names that are folders of the document | high (not executed) | Gallery.InheritedNameRefused | Gallery.InheritedNameAccepted |

The corrected model treats the document as a true map from names to folders. For the name `__proto__`, correcting line 148 alone would not give that behaviour: the assignment at app.js:150 then calls the inherited `__proto__` setter and adds no folder of that name.
