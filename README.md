# pdf-viewer tag store, in Dafny

A model of the tag/book association store of the PDF viewer. Books are identified by their
path below the books directory. Tags have a unique name and an optional description. A book
carries any number of tags, but at most one of the three reading-status tags `finished`,
`in_progress` and `backlog`. These three are seeded at start-up and may be neither renamed
nor deleted.

Modules:

- `Options`: the `Option` datatype.
- `PosixPath`: `os.path.split` on POSIX paths, used to split a book path into folder and
  file name.
- `Schema`: the three tables as one value `Db`, the store invariant `Valid`, and the
  read-only queries (`get_book_tags`, `get_books_by_tag`, tag names).
- `StoreSpec`: what each write operation of the database layer does to a `Db`, written as
  functions, plus the lemmas about them. These cover exclusivity of reading statuses,
  idempotence of attach and of seeding, and the exact tag set after attach and detach.
- `Database`: the store as a class `Store` whose fields the operations update in place.
  Each state-changing method is proved to leave the store its `StoreSpec` function gives; the
  constructor, `InitDb`, `AddTagToBook` and `RemoveTagFromBook` also ensure `Valid`. The lookup
  `FindTag` is proved to return `IdOf`, and `GetTagStatistics` is stated directly over the tables.
- `AppSpec`: the handler rules as functions and lemmas. These are the book identifier
  `get_book_path` and its inverse, the tag whitelist, and create, attach/detach, edit and
  delete with their protection and cascade rules.
- `App`: the handlers as methods on a `Store`, each proved to follow `AppSpec`.
- `Views`: the folder structure built from a directory walk (PDF files only, top directory
  listed as `root`), the per-book tag lists, and filtering by tag.

Three points of the code that the model follows as written:

- A rename to a name another tag holds has no explicit check. The unique index on the tag
  name makes the commit fail, and the handler answers from its error branch with the store
  unchanged (`EditCommitFailed`).
- The edit handler overwrites name and description together. An absent description becomes
  "", so an edit that omits it clears the old description.
- A tag created by attaching it to a book gets no description (`None`), while the create
  handler gives "" when no description is sent.

## Model

| member | source | states |
|---|---|---|
| PosixPath.Split | database.py:112 | the tail is the part after the last '/' and holds no '/'; the head is a prefix followed only by slashes, with trailing slashes stripped unless the head is all slashes |
| PosixPath.SplitAtLastSlash | database.py:112 | a path whose last '/' is at index n, with no '/' just before it, splits into the text before and after that index |
| PosixPath.SplitJoin | database.py:112 | joining a non-empty folder not ending in '/' and a '/'-free name with one '/' is undone by the split |
| Schema.SplitBookPath | database.py:110-115 | a path without '/' lies in folder `root` with the path as file name; otherwise the file name is what follows the last '/', and the folder is the prefix before it with trailing slashes stripped (unless it is made of slashes only) |
| Schema.IdOf | database.py:101 | the tag found by name carries that name, and none is found exactly when no tag has the name |
| Schema.IdOfUnique | database.py:48 | with unique names, the lookup by name finds the one tag holding it |
| Schema.BookTags | database.py:160-165 | a name is listed exactly when the book carries a tag of that name; an unknown book has no tags |
| Schema.BooksWithTag | database.py:149-154 | an unknown tag name has no books; otherwise the books are exactly those associated with that tag |
| Schema.BooksOfTag | database.py:153 | a book is listed exactly when it is associated with the tag |
| Schema.TagNames | database.py:156-158 | every tag's name is listed, and each listed name belongs to a tag |
| StoreSpec.GetOrCreateBook | database.py:90-97 | an existing book is returned unchanged; otherwise exactly one book is added with the given folder and file name; tags and associations are untouched, and the invariant is kept |
| StoreSpec.GetOrCreateTag | database.py:99-106 | an existing tag is returned and nothing changes; otherwise one tag with a fresh id is added; names stay unique and the invariant is kept |
| StoreSpec.AddFreshTag | database.py:102-105 | a tag added under the next id with a name no tag holds keeps names unique, foreign keys, status exclusivity and seeding, and is found by its name |
| StoreSpec.DropStatusPairs | database.py:123-129 | the rows left once the book's other reading statuses are detached; its loop step is `DropStatusPairsStep` and the loop is `Database.Store.DropOtherStatuses` |
| StoreSpec.DropStatusPairsStep | database.py:125-129 | one step of the status loop removes the book's pair with that status tag, or nothing for the kept name or a missing tag |
| StoreSpec.AddTagToBook | database.py:108-135 | attach as get-or-create of book and tag followed by `Attach`; its properties are stated by `AddTagToBookEffect`, `AddTagToBookAssoc`, `AddTagToBookKeepsValid`, `AddTagToBookKeepsSplit`, `AddTagToBookFrame`, `AddTagToBookTags`, `AddTagToBookIdempotent` and `AddTagToBookAlreadyTagged` |
| StoreSpec.Attach | database.py:121-133 | the association step keeps books and tags; the pair is present afterwards; an existing pair changes nothing; otherwise only the book's other reading statuses are dropped before adding it |
| StoreSpec.AddTagToBookEffect | database.py:108-135 | afterwards the book and the tag exist, the tag is among the book's tags and the book among the tag's books; the new book row holds the split of its path; at most the named tag is added |
| StoreSpec.AddTagToBookAssoc | database.py:120-133 | a pair is present afterwards exactly when it is the new one, or was present and is not another status of this book; re-attaching changes nothing |
| StoreSpec.AddTagToBookKeepsValid | database.py:108-135 | attaching keeps unique names, foreign keys, seeding and at most one status per book |
| StoreSpec.AttachKeepsValid | database.py:121-133 | the association step keeps the invariant once the book and the tag exist |
| StoreSpec.AddTagToBookKeepsSplit | database.py:110-117 | every book row, the created one included, holds the folder and file name split from its path |
| StoreSpec.AddTagToBookFrame | database.py:121-133 | other books' associations are unchanged, and so are the book's non-status tags |
| StoreSpec.AddTagToBookTags | database.py:121-133 | attaching a status leaves the book with its non-status tags plus that status only; attaching another tag adds just that name |
| StoreSpec.AddTagToBookIdempotent | database.py:121 | attaching the same tag twice equals attaching it once |
| StoreSpec.AddTagToBookAlreadyTagged | database.py:121 | attaching a tag the book already carries leaves the store unchanged |
| StoreSpec.RemoveTagFromBook | database.py:137-147 | detach, reporting whether the pair existed; its properties are stated by `RemoveTagFromBookMeaning` and `RemoveTagFromBookTags` |
| StoreSpec.RemoveTagFromBookMeaning | database.py:137-147 | success exactly when the book carries the tag; on failure nothing changes; only that one pair is removed |
| StoreSpec.RemoveTagFromBookTags | database.py:142-145 | the book's tags afterwards are the old ones minus the name, and the invariant is kept |
| StoreSpec.SeedFrom | database.py:83-86 | seeding one default after another when its name is missing; its properties are stated by the `SeedFrom...` lemmas |
| StoreSpec.InitDb | database.py:70-88 | seeding the three reading-status tags; its properties are stated by `InitDbValid`, `InitDbNewTags`, `InitDbIdempotent` and `InitDbSeededNoop` |
| StoreSpec.SeedFromPreserves | database.py:83-86 | seeding keeps every existing tag, book and association |
| StoreSpec.SeedFromCreates | database.py:83-86 | after seeding every default name exists |
| StoreSpec.SeedFromOnlyMissing | database.py:84-86 | a tag added by seeding is a default whose name was missing |
| StoreSpec.SeedFromDescriptions | database.py:77-86 | a default created by seeding carries its fixed description |
| StoreSpec.SeedFromNoop | database.py:83-84 | seeding with defaults whose names all exist changes nothing |
| StoreSpec.SeedFromValid | database.py:83-86 | seeding with defaults that begin with the three reading statuses turns a store with unique names and exclusive statuses into a valid one |
| StoreSpec.InitDbValid | database.py:70-88 | initialisation establishes the full invariant and keeps every book, association and existing tag |
| StoreSpec.InitDbNewTags | database.py:77-86 | initialisation adds only the missing reading-status tags, each with its fixed description |
| StoreSpec.InitDbIdempotent | database.py:76-88 | running initialisation twice equals running it once |
| StoreSpec.InitDbSeededNoop | database.py:83-84 | on a store that already holds the three status tags, initialisation changes nothing |
| Database.Store.constructor | database.py:70-88 | a new store holds exactly the three seeded status tags and is valid |
| Database.Store.InitDb | database.py:83-88 | the seeding loop does what the seeding specification does and establishes the invariant |
| Database.Store.FindTag | database.py:101 | the lookup loop finds the tag holding the name, or reports none |
| Database.Store.GetOrCreateBook | database.py:90-97 | the store changes as the book get-or-create specifies, and the returned row is the stored one |
| Database.Store.GetOrCreateTag | database.py:99-106 | the store and the returned id are as the tag get-or-create specifies |
| Database.Store.AddTagToBook | database.py:108-135 | the in-place status loop and append give the specified store and keep the invariant |
| Database.Store.DropOtherStatuses | database.py:123-129 | the status loop detaches from the book exactly the other reading statuses it carries; books and tags are unchanged |
| Database.Store.RemoveTagFromBook | database.py:137-147 | result and new store are as specified, and the invariant is kept |
| Database.Store.GetTagStatistics | database.py:167-177 | one entry per tag name, zero-count tags included, holding the number of books carrying the tag and its description |
| AppSpec.AvailableTagsAreReadingStatuses | app.py:31 | the whitelist is exactly the reading statuses |
| AppSpec.GetBookPath | app.py:47-51 | the book identifier, the file name alone in the root folder; `SplitBookPathRoundTrip` states that the store's split inverts it |
| AppSpec.SplitBookPathRoundTrip | app.py:47-51 | splitting a built identifier gives back its folder and file name when the file name has no '/' and the folder is `root` or is non-empty and does not end in '/' |
| AppSpec.UpdateTag | app.py:88-109 | the attach/detach rule; its outcomes are stated by `UpdateTagOutcome` |
| AppSpec.UpdateTagOutcome | app.py:90-106 | a missing path or a tag outside the whitelist is refused with no change; attach always succeeds and leaves that status as the book's only one; detach reports whether the book carried the tag and removes it; the invariant is kept |
| AppSpec.CreateTag | app.py:170-185 | the create rule; its outcomes are stated by `CreateTagOutcome` |
| AppSpec.CreateTagOutcome | app.py:172-182 | a missing or empty name is refused with no change, any other name is answered with the tag holding it; an existing name changes nothing; the only tag that can be added is the returned one, under a free name, with the given description or ""; existing tags are never overwritten |
| AppSpec.UpdateTagDetails | app.py:188-215 | the edit rule; its outcomes are stated by `UpdateTagDetailsOutcome` |
| AppSpec.UpdateTagDetailsOutcome | app.py:188-215 | each refusal happens exactly in its case: missing or empty name, unknown id, a status tag given another name, a name another tag holds; a refused edit changes nothing; otherwise the one tag becomes the new name with the given description or "", its books carry it under the new name, and the invariant is kept |
| AppSpec.RetagKeepsValid | app.py:205-210 | replacing one tag's name and description, with a status keeping its name and no other tag holding the new name, keeps the invariant |
| AppSpec.RetagKeepsBooks | app.py:205-210 | the books carrying the edited tag under its new name are those that carried it under the old one |
| AppSpec.DeleteTag | app.py:218-240 | the delete rule; its outcomes are stated by `DeleteTagOutcome` |
| AppSpec.DeleteTagOutcome | app.py:218-237 | an unknown id is not found, a status tag is refused, and any other tag is deleted, each exactly in its case; a refusal changes nothing; a deleted tag is carried by no book and is gone from the tag names and so from the statistics; every other association stays and every other tag keeps its row; the invariant is kept |
| AppSpec.StatusOverwrite | database.py:124-132 | attaching one reading status after another leaves the later one as the book's only status, beside its untouched non-status tags |
| AppSpec.UserTagSurvivesStatus | database.py:124-132 | a user tag stays on the book when a reading status is attached after it |
| AppSpec.DetachUnknownBookScenario | database.py:139-147 | detaching from an unknown book reports failure and changes nothing |
| AppSpec.DeleteFinishedScenario | app.py:226-228 | deleting `finished` is refused with the store unchanged |
| App.UpdateTag | app.py:88-109 | the handler follows the attach/detach rule and keeps the invariant |
| App.CreateTag | app.py:170-185 | the handler follows the create rule and keeps the invariant |
| App.UpdateTagDetails | app.py:188-215 | the handler, with the name conflict found at commit, follows the edit rule and keeps the invariant |
| App.DeleteTag | app.py:218-240 | the detach loop followed by the delete follows the delete rule and keeps the invariant |
| Views.FolderKey | app.py:38-40 | the top directory "." is listed as `root`, any other directory under its relative path; `StructureOf` and `RootFolderShadowsTop` state its effect |
| Views.IsPdf | app.py:41 | the PDF test on the last four characters lowered; `IsPdfSpelledOut` states which names pass |
| Views.IsPdfSpelledOut | app.py:41 | a file name counts as a PDF exactly when it ends in '.' followed by p, d, f in either case |
| Views.PdfFiles | app.py:41 | a name is kept exactly when it is a PDF, and never more names than given |
| Views.PdfFilesAppend | app.py:41 | picking the PDFs distributes over concatenation, so the kept names stay in the directory's order |
| Views.StructureOf | app.py:37-41 | the folders are the walked directories, the top one as `root`; each holds the PDFs of the last directory walked under that name |
| Views.RootFolderShadowsTop | app.py:38-41 | a sub-directory named `root` takes the top directory's place and hides its files |
| Views.GetBooksStructure | app.py:33-45 | the loop builds the walk's structure, or only an empty `root` folder when the scan failed (`Scanned`) |
| Views.AddFolderTags | app.py:65-69 | the loop adds an entry for exactly the folder's books that have tags, holding their tags, and keeps the earlier entries |
| Views.BookTagsView | app.py:59-69 | an entry exists exactly for each listed book with at least one tag, and holds that book's tags |
| Views.KeepTagged | app.py:138-142 | a file is kept exactly when its book identifier is tagged |
| Views.KeepTaggedAppend | app.py:139-142 | filtering distributes over concatenation, so kept files keep their order |
| Views.Filtered | app.py:135-145 | a folder stays exactly when some file of it is tagged, and then holds exactly its tagged files |
| Views.FilterFolder | app.py:138-142 | the loop collects exactly the folder's tagged files, in order |
| Views.FilterStructure | app.py:135-145 | the nested loops build the filtered structure |
| Views.Index | app.py:53-74 | the page lists the scanned structure (an empty `root` folder after a scan error), the tags of each tagged listed book, and every tag name |
| Views.FilterByTag | app.py:111-150 | a tag outside the whitelist other than `all` redirects; `all` lists the scanned structure; another tag lists only its books of it; the tag lists cover the whole scanned structure, scan errors included |

## Left out

- HTTP: routing, JSON parsing, templates, redirects and status codes. Outcomes are datatype values. A JSON field that is absent is `None`; a JSON `null` or a non-string value is not modelled.
- The crash from an undefined variable when the request body is null. It is not behaviour to specify.
- `serve_pdf` and the directory walk itself. The walk is an input, one entry per directory in visiting order. A scan error is `None`.
- Timestamps (`added_date`, `created_date`, `last_accessed`) and `to_dict`. They depend on the clock and carry no invariants.
- Session mechanics. Each operation is one atomic step. Lazy relationships, rollback after a failed commit and concurrent requests are not modelled.
- Tag ids come from a counter `nextTagId` that never goes down. The database gives a new tag the largest id in use plus one, so after deleting the tag with the largest id the next created tag reuses that id. The model gives it a fresh id instead, and a later edit or delete naming the reused id is answered as not found in the model where the database would change the new tag.
- Order of folders. The folder structure is a map; the pages list folders in the order of the walk, which the model does not keep.
- Order of the lists returned by the queries. Tag names, a book's tags and a tag's books are sets: the join table has no duplicates, and nothing depends on the order.
- Column lengths (500/200/300/50/200 characters). Strings are unbounded.
- Unicode case folding in the PDF test. Lowering is ASCII-only, which decides the ".pdf" suffix exactly.
- Configuration, logging, start-up directory creation, the browser script and the setup/backup script. These are all I/O or UI.
