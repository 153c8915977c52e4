# Document catalogue: a Dafny model

This project models the core of a desktop document-cataloguing tool. The tool registers PDF, DOCX and XLSX files in a local SQLite table with a description and tags. It lists and searches them, and it can scan local drives for files to import. The model covers three parts:

- **Catalogue store** (`db.py`, in `catalogue.dfy`). The `documents` table is a `DocumentStore` class. It holds:
  - the rows in rowid order;
  - `lastId`, the AUTOINCREMENT counter (the largest id ever issued);
  - `clock`, the value `CURRENT_TIMESTAMP` reads;
  - `hasTable`, whether `CREATE TABLE` has run.

  Each SQL statement is a method whose contract gives the whole new state. `fetch_documents` is the pure function `Listing` (and `FetchDocuments` for the returned columns). It uses a full SQLite `LIKE` matcher (`like.dfy`): `%` and `_` are wildcards, matching ignores ASCII case, and NULL never matches.
- **Filesystem scan** (`scanner.py`, in `scanner.dfy`). `pathExists` (for `os.path.exists`) and `walk(drive)` (the `(root, files)` pairs `os.walk` yields) are inputs. `GetAvailableDrives` and `ScanFiles` are loop methods, proved against the spec functions `AvailableDrives` and `Scan`. `Scan` returns the first `Cap(max_results)` qualifying files of the traversal.
- **Single-file import** (`logic.py`, in `logic.dfy`). `Validate` is the decision over the picked path. `ChooseAndAdd` takes the dialog's answer as a parameter and returns the message box it would show as an outcome code. `RemoveFile` is the delete.

`ntpath.dfy` models the Windows `os.path.splitext`, `basename` and `join`; the program is Windows-only (drive letters, `os.startfile`). `text.dfy` provides ASCII lower-casing, prefix, suffix and substring tests, and `rfind`.

Behaviour worth knowing, as the code has it:

- With `max_results < 1`, `scan_files` still returns after the first hit: it checks the count only after appending (scanner.py:47-48). `Cap` captures this.
- A file named just `.pdf` is a hit, and its `ext` is empty, because `splitext` ignores leading dots.
- The deny-list is a plain prefix test, so `c:\windows.old` is skipped too.
- The tag condition is ORed with the name and description conditions. It can add rows but never removes one (`TagNeverRestricts`).
- `%` or `_` in the search text acts as a wildcard (`UnderscoreSearchMatchesNonEmpty`).
- Rows with equal `added_on` come out in an order SQL does not fix. `Listing` picks rowid order, but every lemma states only what SQL guarantees: newest first, and a permutation of the matching rows.

After an insert `tags` is NULL, not empty text: the INSERT statement does not set it (db.py:53-56).

`Logic.BudgetPathAccepted`, `Logic.BudgetRowFound` and the method `Logic.AddSearchRemove` are a worked example, not a model of source code: a new .xlsx file added with the description "Q1 budget" is found by the search "Q1", and after it is removed the search finds nothing.

## Model

| member | source | states |
|---|---|---|
| Catalogue.DocumentStore.Open | db.py:4-7 | a database file without the table: no rows, AUTOINCREMENT counter 0 |
| Catalogue.DocumentStore.OpenExisting | db.py:4-7 | documents.db from an earlier session: the table exists and holds the given rows and counter, which satisfy the table invariant |
| Catalogue.DocumentStore.Tick | db.py:33 | time passes: the clock CURRENT_TIMESTAMP reads moves forward; the table is untouched |
| Catalogue.DocumentStore.InitDb | db.py:21-37 | CREATE TABLE IF NOT EXISTS: an existing table keeps its rows and counter; otherwise the table is created empty |
| Catalogue.DocumentStore.InsertDocument | db.py:50-58 | a path already present violates UNIQUE and nothing changes; otherwise exactly one row is appended with id = counter + 1 (greater than every id ever issued), the given name, path, type and description, NULL tags and the current time |
| Catalogue.DocumentStore.DeleteDocument | db.py:60-65 | the rows become RemoveId(old rows, id); exactly one fewer when the id is present, unchanged when it is absent; the counter is unchanged |
| Catalogue.DocumentStore.UpdateDescription | db.py:10-18 | the row with that id gets the new description; every other field and row is unchanged |
| Catalogue.DocumentStore.UpdateDocDetails | db.py:39-47 | the row with that id gets the new description and tags; everything else is unchanged |
| Catalogue.RemoveId | db.py:63 | a row survives the delete exactly when it was there and has another id; no matching id leaves the table as it was |
| Catalogue.RemoveIdRemovesOne | db.py:27 | with unique ids, deleting a present id removes exactly one row |
| Catalogue.RemoveIdKeepsInvariant | db.py:26-34 | deleting keeps ids increasing and within the counter, paths unique and timestamps in order |
| Catalogue.Matches | db.py:80-95 | the WHERE clause: file_name LIKE %search%, or description LIKE %search%, or non-NULL tags LIKE %tag%; and file_type = ftype unless ftype is "ALL" |
| Catalogue.Where | db.py:80-95 | a row is selected exactly when it satisfies the three ORed LIKE tests and the optional type equality; each matching row occurs as often as in the table and no other row occurs |
| Catalogue.InsertNewestFirst | db.py:97 | inserting into the sorted result adds exactly that row |
| Catalogue.InsertKeepsNewestFirst | db.py:97 | inserting keeps the result ordered by added_on, newest first |
| Catalogue.SortNewestFirst | db.py:97 | ORDER BY added_on DESC: the result is newest first and a permutation of its input |
| Catalogue.Listing | db.py:67-102 | the rows fetch_documents returns: the WHERE selection sorted by added_on, newest first |
| Catalogue.ListingSpec | db.py:67-102 | fetch_documents lists each matching row as often as the table has it, nothing else, with added_on non-increasing |
| Catalogue.FetchDocuments | db.py:71-79 | the selected columns (id, file_name, file_type, description, tags, file_path) of each listed row, in listing order |
| Catalogue.FetchedRowIsStored | db.py:71-95 | every returned tuple is the columns of a stored row that satisfies the WHERE clause |
| Catalogue.StoredRowIsFetched | db.py:71-95 | the columns of every stored row that satisfies the WHERE clause are returned |
| Catalogue.FetchDocumentsRows | db.py:67-102 | one tuple per matching row, and a tuple is returned iff it is the columns of a stored row that satisfies the WHERE clause |
| Catalogue.DefaultFetchListsEverything | db.py:67 | called with its defaults (search "", ftype "ALL", tag ""), fetch_documents returns one tuple per stored row, the columns of each |
| Catalogue.EmptySearchListsEverything | db.py:81-97 | search "" with type "ALL" lists every row of the table (file_name is NOT NULL and matches %%), whatever the tag |
| Catalogue.PlainSearchMatches | db.py:80-95 | for texts without wildcards a row matches iff name or description contains the search, or non-NULL tags contain the tag text, ignoring ASCII case, and the type test passes |
| Catalogue.TagNeverRestricts | db.py:80-90 | a row whose name or description matches and whose type passes is listed whatever the tag text |
| SqlLike.Like | db.py:81-83 | SQLite LIKE without ESCAPE: % matches any run of characters, _ any one character, other characters match ignoring ASCII case |
| SqlLike.PercentMatchesAll | db.py:88 | the LIKE pattern % matches every text |
| SqlLike.EmptySearchMatchesAll | db.py:88 | the pattern %% that an empty search builds matches every non-NULL value |
| SqlLike.LeadingPercent | db.py:88 | a leading % lets the rest of the pattern match from any position |
| SqlLike.PlainPrefix | db.py:88 | a wildcard-free text followed by % matches exactly the texts that start with it, ignoring ASCII case |
| SqlLike.PlainSearchIsSubstring | db.py:81-89 | %s% for a wildcard-free s is exactly a case-insensitive substring test |
| SqlLike.UnderscoreSearchMatchesNonEmpty | db.py:88-89 | a search of "_" is a wildcard and matches every non-empty text |
| NtPath.SplitExt | logic.py:15 | ntpath.splitext: the extension starts at the last dot after the last separator, provided a non-dot character precedes it in the final component |
| NtPath.Basename | logic.py:22 | ntpath.basename: the text after the last separator, or after a drive "X:" |
| NtPath.Join | scanner.py:39 | ntpath.join of a walk root and a file name: a backslash is inserted unless the root is empty or ends in a separator or ":" |
| NtPath.SplitExtParts | logic.py:15 | splitext's two parts put together give the path; the extension is empty or a dot followed by no dot and no separator |
| NtPath.NoInnerDotNoExt | scanner.py:44 | a name whose only dot is its first character, such as ".pdf", has an empty extension |
| NtPath.ExtOfLower | logic.py:15 | the extension of the lower-cased path is the lower-cased extension |
| Scanner.SupportedExtensions | scanner.py:5-10 | SUPPORTED_EXTENSIONS: ".pdf", ".docx", ".xlsx" for their keys and all three for "ALL" |
| Scanner.AllIsUnionOfTypes | scanner.py:5-10 | the "ALL" entry is the PDF, DOCX and XLSX entries together |
| Scanner.ExistingDrivesSpec | scanner.py:12-18 | from strictly increasing letters, the existing "X:\" roots are kept, in letter order, and no others |
| Scanner.AvailableDrivesSpec | scanner.py:12-18 | "X:\" is returned for exactly the letters A to Z whose root exists, in alphabetical order |
| Scanner.GetAvailableDrives | scanner.py:12-18 | the loop over the letters returns AvailableDrives |
| Scanner.Denied | scanner.py:29 | a walk root is skipped when its lower-cased form starts with "c:\windows" or "c:\program files" |
| Scanner.NameSelected | scanner.py:33 | an empty name part selects every name; otherwise the lower-cased name must contain it |
| Scanner.ExtensionSelected | scanner.py:36 | the lower-cased name ends with one of the type's extensions |
| Scanner.ToHit | scanner.py:39-45 | the hit of a file: its name, join(root, name) and splitext(name)[1] in original case |
| Scanner.Scan | scanner.py:21-50 | KeyError for an unknown file type; otherwise the first Cap(max_results) qualifying files of the traversal, as hits |
| Scanner.TraversalAppend | scanner.py:26-27 | every file of an earlier drive is traversed before every file of a later drive |
| Scanner.SelectAppend | scanner.py:26-45 | the filter keeps traversal order: selecting from a concatenation concatenates the selections |
| Scanner.SelectSound | scanner.py:29-45 | every hit is the hit of a traversed file that passes the deny-list, name and extension tests |
| Scanner.SelectComplete | scanner.py:29-45 | every traversed file that passes the three tests has its hit among the selected |
| Scanner.DeniedRootSelectsNothing | scanner.py:29-30 | the files of a denied root contribute no hit |
| Scanner.DotFileHitHasNoExtension | scanner.py:36-44 | a file named ".pdf" qualifies for PDF, and its hit's extension is empty |
| Scanner.ScanBound | scanner.py:47-48 | at most Cap(max_results) hits, so at most max_results when it is 1 or more |
| Scanner.ScanRejectsUnknownType | scanner.py:24 | a file type other than the four keys raises KeyError, and that is the only failure |
| Scanner.ScanIsPrefixOfAllMatches | scanner.py:26-50 | the hits are a prefix of all qualifying files in traversal order: all of them when the cap is not reached, exactly Cap of them when there are enough |
| Scanner.ScanHitsQualify | scanner.py:29-45 | each hit's lower-cased name ends with a type extension and contains the lower-cased name part when that is not empty; its file was listed under a root outside the deny-list; path = join(root, name) and ext = splitext(name)[1] in original case |
| Scanner.DefaultCapBound | scanner.py:21 | with the default max_results of 2000, which the search window leaves in place, a scan of a known type returns at most 2000 hits |
| Scanner.DefaultScanSelectsAllTypes | scanner.py:21-45 | with every default (name_part "", file_type "ALL", max_results 2000) a file qualifies exactly when its root is outside the deny-list and its lower-cased name ends in ".pdf", ".docx" or ".xlsx"; the scan returns the first 2000 of them in traversal order |
| Scanner.ScanRoot | scanner.py:32-48 | the loop over one root's files: hits so far are the selection of the files reached, and it stops exactly when the cap is reached |
| Scanner.ScanWalk | scanner.py:27-48 | the loop over one drive's walk entries skips denied roots and stops exactly when the cap is reached |
| Scanner.ScanFiles | scanner.py:21-50 | the nested loops with early exit return exactly Scan(...) |
| Logic.Validate | logic.py:12-18 | an empty path is NoFile; a path whose lower-cased splitext extension is not in SUPPORTED_TYPES (".pdf", ".docx", ".xlsx") is Unsupported; otherwise the basename and that extension are accepted |
| Logic.AcceptedRecordShape | logic.py:15-26 | an accepted path is non-empty, is stored under its basename, and its stored type is a supported extension that ends the lower-cased path |
| Logic.ValidateIgnoresCase | logic.py:15-16 | paths that differ only in letter case are accepted or refused together, with the same stored type |
| Logic.UpperCasePdfAccepted | logic.py:15-26 | "report.PDF" is accepted and stored with type ".pdf" |
| Logic.ChooseAndAdd | logic.py:8-30 | empty path, unsupported extension or duplicate path returns False and leaves the store unchanged; otherwise exactly one row (basename, path, lower-cased extension, description) is inserted and it returns True; True iff the store gained a row |
| Logic.RemoveFile | logic.py:38-39 | exactly the effect of delete_document(id) |

## Left out

- The Tkinter UI (`ui.py`, `search_ui.py`), the background scan thread and its hand-off, and `main.py`'s start-up wiring are not part of this model.
- `add_scanned_files` and `save_document_details` are imported by the UI but defined in no source file shown, so they are not modelled.
- `open_file` (logic.py:32-36) calls the operating system and shows a message box, so it is not modelled.
- The file dialog is a parameter and message boxes are outcome codes, because they are UI.
- `os.walk` and `os.path.exists` are inputs, because they are I/O. This leaves out unreadable directories, which `os.walk` skips, and the walk order the OS produces.
- Connection open, commit and close are left out as plumbing. Each operation is one atomic state change.
- Python default arguments are not part of Dafny. The defaults of `fetch_documents` and `scan_files` are constants (`Catalogue.DefaultSearch`, `Catalogue.DefaultFileType`, `Catalogue.DefaultTag`, `Scanner.DefaultNamePart`, `Scanner.DefaultFileType`, `Scanner.DefaultMaxResults` = 2000) that callers pass explicitly.
- `CURRENT_TIMESTAMP` is an integer clock that only moves forward (`Tick`), because real time is outside the model. Its text format and second resolution appear only as ties.
- Catalogue.DocumentStore.InsertDocument: only the UNIQUE failure is modelled. Other SQLite errors (locked or unwritable file, AUTOINCREMENT exhaustion at 2^63-1, NULL in a NOT NULL column) do not arise from string arguments in the model. `choose_and_add` would report any of them as "File already exists".
- Catalogue.DocumentStore.InsertDocument, DeleteDocument, UpdateDescription, UpdateDocDetails: they require the table to exist. `main.py` always runs `init_db` first, and the model does not cover the error SQLite raises without the table.
- Catalogue.Document: `description` is modelled as text and never NULL, because every caller passes a string.
- Text.Lower: Python's `str.lower()` is modelled as ASCII lower-casing. Non-ASCII letters in file names are not folded by the scanner's name and extension tests in the model. SQLite's LIKE folds only ASCII, so the listing is not affected.
- NtPath.Basename, NtPath.Join: modelled for the path shapes the program produces. These are a dialog path containing a separator, and a walk root joined with a plain file name. UNC shares and drive-relative names are not modelled.
- Scanner.ScanFiles: the three nested loops are three methods (`ScanFiles`, `ScanWalk`, `ScanRoot`) that return a "cap reached" flag, where the source returns directly from the innermost loop. The hits and the point where the scan stops are the same.
