# SIP assembly in fornax, modelled in Dafny

fornax turns transfers that arrive as bags into Archivematica SIPs. A SIP
record is stored with a `process_status` (10 created, 20 assembled, 30
started, 40 approved, 50 cleaned up). The assembly routine takes every
created SIP through five phases:

1. copy and extract the bag into a temporary directory, then check it
   against BagIt;
2. move the payload under `data/objects` and create `logs`, `metadata` and
   `submissionDocumentation`;
3. when rights statements are listed, write `data/metadata/rights.csv` and
   validate it;
4. update `bag-info.txt`, the processing configuration and the manifests,
   then pack a `.tar.gz`;
5. deliver the package to the transfer source and mark the SIP assembled.

Later routines start the oldest assembled transfer in Archivematica, close
completed units on the dashboards, ask another service to clean up the
approved SIPs, and remove a delivered package. Two older modules stay in
the repository: `library.py`, with boolean-returning helpers, and
`assemblers.py`, a resumable assembler whose blocks each raise the status to
a threshold. `csv_creator.py` is the newer rights.csv writer, which lays out
grants and restrictions differently.

The project is organised by source file:

| file | models |
|---|---|
| `common.dfy` | `Option`, `Result`, and `Outcome`: whether an outside operation succeeds, declines (returns False) or raises |
| `text.dfy` | the Python string operations the core relies on: `split`, `join`, `lstrip`, `int`, `str`, `rfind`, `list.insert` |
| `paths.dfy` | `os.path.join` and `os.path.splitext`, and the archive suffixes accepted by `extract_all` |
| `rights.dfy` | rights statements as JSON dictionaries, the 18 rights.csv columns, CSV rendering, and the `os.walk` listing |
| `csv_validation.dfy` | the `CSVValidator` rules of both `validate_rights_csv` functions, and the `%Y-%m-%d` date format |
| `models.dfy` | the `SIP` model: status constants, a stored row (`SipRecord`), and an object loaded from it (`Sip`) |
| `bag_files.dfy` | the directory tree of an unpacked bag, for `move_objects_dir` and `create_structure` |
| `routines_helpers.dfy` | `sip_assembly/routines_helpers.py` |
| `library.dfy` | `sip_assembly/library.py` |
| `csv_creator.dfy` | `sip_assembly/csv_creator.py` (the `CsvCreator` class) |
| `assemblers.dfy` | `sip_assembly/assemblers.py` (the resumable `SIPAssembler`) |
| `routines.dfy` | `sip_assembly/routines.py`: `SIPAssembler.run`, `SIPActions`, `CleanupRequester` and `CleanupRoutine` |

## How the model is built

- **Stored SIPs.** The database table is a `SipTable` object holding a
  sequence of `SipRecord` values. Each routine that walks a query is a
  method with a loop over the matching indices, in table order. It is proved
  equal to a specification function: `ApplyInOrder` applied to one step
  function per record.
  - `AssemblyRunSucceeds`, `AssemblyRunFailure` and `CleanupRunEffect`
    state what a whole run does to the table.
- **One SIP.** A SIP being assembled is a `Sip` object. The helpers that
  change `bag_path` are methods that modify it. The record is written back
  after each SIP. This gives the same result as the source's repeated
  `save()` calls, because each in-memory change is saved before anything
  else can raise.
- **The outside world.** The file system, tar, BagIt, Archivematica and
  the HTTP cleanup service are parameters:
  - an `Outcome` per operation;
  - for a package, a `PackageEnv` value: what the copy, the extraction, the
    renames and the makedirs do, and what the file listing holds;
  - functions that give the replies of Archivematica or of the cleanup
    service.

  The model proves what the code does with each possible answer.
- **rights.csv.** The file is a sequence of records. Writing it appends
  rendered rows. Validating it applies the validator's rules, which are
  spelled out as `RowProblems` and `Problems`.
  - `ProblemsEmptyIff`, `BadRowsAreProblems` and `ProblemsAreBadRows` tie
    the reported problems to a row-level acceptance predicate, in both
    directions.

## Behaviour as written

The model follows the code wherever it departs from what its names, docstrings or messages suggest.

- `CsvCreator.__init__` computes `skip_no_act` with a short-circuiting
  `and`:
  - a version with no minor part does not fail when its major number is
    above 1;
  - it fails only when the major number is at most 1 (`SkipNoActOfMajorOnly`).
- `check_dates` overwrites `valid` on every pass of its loop and tests it
  only after the loop. So only `grant_end_date` decides whether a row
  passes (`EarlierDatesAreNotChecked`). A row too short to have that column
  makes `strptime` raise on `None`.
- The EX7 checks (`str` on `file`, `note` and `grant_note`) cannot fail on
  text read from a CSV file, so they never report a problem.
- `CleanupRequester.run` never appends to `sip_ids`. It therefore always
  answers "No SIPS to clean up." with an empty list, even after it has
  cleaned up SIPs (`Routines.RequestCleanup`).
- `SIPActions.remove_completed` returns the reply of the last origin it
  asked, not the collected `all_completed`. When no origin closes anything,
  `completed` is unbound and the method raises (`CompletedUnbound`). A
  null `close_succeeded` cannot extend `all_completed`, so it raises a
  `TypeError` (`SucceededNotIterable`), although the list is never used.
- In `routines_helpers.get_rights_rows`, a statement with no grants gives a
  row whose `grant_act` is empty. `validate_rights_csv` in the same file
  always rejects that row (`NoGrantRowIsRejected`).
- `move_to_directory` in `routines_helpers.py` changes nothing when the
  move returns False. `SIPAssembler.run` still marks the SIP assembled in
  that case (`DeclinedMoveStillAssembled`).
- `SIPActions.create_package` saves the SIP as APPROVED before it reads
  Archivematica's reply. An integer error code then raises `AttributeError`
  on `started.get`, and the SIP stays APPROVED. It is never started again,
  and `CleanupRequester` posts it for cleanup (`FailedStartIsNotRetried`).

## Model

| member | source | states |
|---|---|---|
| Models.Sip.Load | sip_assembly/models.py:4-16 | the loaded object carries every field of the stored row |
| Text.Decimal | sip_assembly/csv_creator.py:16-17 | the decimal spelling of n, without a leading zero, that `int()` reads back as n: the inverse through which the `release` rule of lines 16-17 is stated |
| Text.ParseInt | sip_assembly/csv_creator.py:17 | `int(s)` only succeeds on text that holds a digit |
| Text.ParseDecimal | sip_assembly/csv_creator.py:17 | `int(str(n)) == n` |
| Text.Split | sip_assembly/csv_creator.py:16 | `split` always gives at least one part |
| Text.JoinSplit | sip_assembly/csv_creator.py:16 | joining the parts of `s.split(sep)` with `sep` gives back `s` |
| Text.SplitAbsent | sip_assembly/csv_creator.py:16 | a string without the separator splits into itself alone |
| Text.SplitAtFirst | sip_assembly/csv_creator.py:16 | splitting cuts at the first separator; the rest splits on its own |
| Text.LStrip | sip_assembly/csv_creator.py:59 | `lstrip(c)` removes exactly the leading run of `c`, so the result starts with another character or is empty |
| Text.RFind | sip_assembly/routines_helpers.py:29 | `rfind` gives the last position of the character, or -1 when it is absent |
| Text.Insert | sip_assembly/routines_helpers.py:116 | `list.insert` adds one element |
| Text.InsertShifts | sip_assembly/routines_helpers.py:114-117 | after `insert(i, x)`, position i holds x, earlier positions are kept, and later ones shift by one |
| Paths.Join | sip_assembly/routines_helpers.py:11 | `os.path.join` ends with its last part, and an absolute last part replaces the first |
| Paths.JoinThenSuffix | sip_assembly/routines_helpers.py:218 | appending a suffix to a joined path is the same as joining the suffixed part |
| Paths.JoinRelative | sip_assembly/routines_helpers.py:11 | joining two relative parts puts exactly one `/` between them |
| Paths.ArchivePath | sip_assembly/routines_helpers.py:11 | `join(dest, "{id}.tar.gz")` ends in `.tar.gz` |
| Paths.SplitExt | sip_assembly/routines_helpers.py:29 | `os.path.splitext`: root plus extension is the path, and the extension is empty or a dot followed by no dot or slash |
| Paths.TarGzIsNeverAnExtension | sip_assembly/routines_helpers.py:29-30 | `.tar.gz` can never be an extension, so that entry of the accepted list is dead |
| Paths.IsArchiveIff | sip_assembly/routines_helpers.py:29-30 | a path is accepted exactly when its extension is `.tgz` or `.gz`, so it ends in one of those |
| Paths.TarGzSuffixHasGzExtension | sip_assembly/routines_helpers.py:29-30 | a path ending in `.tar.gz` has extension `.gz` |
| Paths.ArchivePathIsArchive | sip_assembly/routines_helpers.py:11-30 | a package copied to `{dest}/{id}.tar.gz` is accepted by `extract_all` |
| Rights.RenderRowsAppend | sip_assembly/csv_creator.py:28-29 | writing two batches of rows gives the same file as writing them together |
| Rights.LayoutColumns | sip_assembly/csv_creator.py:67-71 | a rights row has 18 columns: the file, basis values 1-9, the five grant values in 10-14, and basis values 15-17 |
| Rights.SpliceIsLayout | sip_assembly/csv_creator.py:71 | `rights_row[10:10] = grant` on `[file] + basis` gives that layout |
| Rights.WalkRowsFailureSticks | sip_assembly/csv_creator.py:25-29 | once a file's rows raise, later files add nothing to the outcome |
| Rights.WalkRowsSnoc | sip_assembly/csv_creator.py:25-29 | one more walked file either appends its rows or stops the walk with its error |
| Rights.FlattenAppend | sip_assembly/csv_creator.py:25-26 | walking two listings in turn visits the files of both, in order |
| CsvCreation.SkipNoAct | sip_assembly/csv_creator.py:16-17 | the flag is computed only when the major part parses; True needs a minor part and a major of at most 1 |
| CsvCreation.SkipNoActOfRelease | sip_assembly/csv_creator.py:16-17 | for a version "M.m..." the flag is exactly M <= 1 and m < 13 |
| CsvCreation.SkipNoActOfMajorOnly | sip_assembly/csv_creator.py:16-17 | a version with no minor part raises only when M <= 1; otherwise the flag is False |
| CsvCreation.GrantRow | sip_assembly/csv_creator.py:107-111 | a grant without `act` raises; otherwise a five-value row that starts with the act |
| CsvCreation.GrantRows | sip_assembly/csv_creator.py:106-112 | one row per grant |
| CsvCreation.GrantRestrictionRows | sip_assembly/csv_creator.py:104-112 | one row per grant, or one blank row when there are no grants |
| CsvCreation.GetGrantRestrictionRows | sip_assembly/csv_creator.py:97-112 | the loop builds exactly `GrantRestrictionRows` |
| CsvCreation.GrantRowsFailureSticks | sip_assembly/csv_creator.py:107-110 | a KeyError on an earlier grant is the outcome of the whole list |
| CsvCreation.GrantRowsFailIff | sip_assembly/csv_creator.py:107-110 | the rows raise exactly when some grant lacks `act` |
| CsvCreation.GrantRowsInOrder | sip_assembly/csv_creator.py:106-112 | row i is the row of grant i |
| CsvCreation.GrantRestrictionRowsSpec | sip_assembly/csv_creator.py:97-112 | each of the five values of a grant's row, including the `restriction`/`grant_restriction` and `granted_note`/`note` fallbacks, the blank row for an empty list, and when it raises |
| CsvCreation.BasisFields | sip_assembly/csv_creator.py:75-95 | twelve basis values |
| CsvCreation.BasisFieldsColumns | sip_assembly/csv_creator.py:82-95 | the value of each basis column after the two inserts, including the status and note fallbacks |
| CsvCreation.KeptGrants | sip_assembly/csv_creator.py:63-65 | skipping never adds a grant row |
| CsvCreation.KeptGrantsMembers | sip_assembly/csv_creator.py:63-65 | every kept row is a grant row, and it is not blank when skipping |
| CsvCreation.KeptGrantsCount | sip_assembly/csv_creator.py:63-65 | exactly the blank rows are dropped, and only when skipping |
| CsvCreation.LayoutAll | sip_assembly/csv_creator.py:63-72 | one rights row per kept grant row |
| CsvCreation.LayoutAllAt | sip_assembly/csv_creator.py:66-72 | rights row i is the layout of kept grant row i |
| CsvCreation.StatementsRowsStep | sip_assembly/csv_creator.py:61-72 | one more statement appends its rows, or raises its error |
| CsvCreation.StatementsRowsFailureSticks | sip_assembly/csv_creator.py:61-62 | a statement that raises decides the outcome for the file |
| CsvCreation.GrantRestrictionRowsWidth | sip_assembly/csv_creator.py:104-111 | every grant row has five values |
| CsvCreation.StatementRowsShape | sip_assembly/csv_creator.py:61-72 | a statement gives one 18-column row per kept grant, with the grant in columns 10-14 and the file path first |
| CsvCreation.StatementWithoutGrants | sip_assembly/csv_creator.py:62-72 | with no grants a statement gives one blank-grant row, or none when skipping |
| CsvCreation.StatementsRowsWidth | sip_assembly/csv_creator.py:59-72 | every row of a file has 18 columns and starts with its path |
| CsvCreation.NewCsvCreator | sip_assembly/csv_creator.py:10-18 | construction fails exactly when the version cannot be parsed, and otherwise records the skip flag and the client |
| CsvCreation.CsvCreator.constructor | sip_assembly/csv_creator.py:10-18 | sets the field names, the flag and the client |
| CsvCreation.CsvCreator.SetupCsvFile | sip_assembly/csv_creator.py:35-53 | a new file starts with the header; an existing file is appended to |
| CsvCreation.CsvCreator.AppendStatementRows | sip_assembly/csv_creator.py:62-72 | the loop appends the layout of every kept grant row, in order |
| CsvCreation.CsvCreator.GetRightsRows | sip_assembly/csv_creator.py:55-73 | the rows of a file are the statements' rows in statement order, for the path relative to the bag |
| CsvCreation.CsvCreator.WriteEntryRows | sip_assembly/csv_creator.py:26-29 | one directory's files write their rows after what is already written, or stop at the first error |
| CsvCreation.CsvCreator.WriteWalkRows | sip_assembly/csv_creator.py:25-29 | the file gains the rows of the whole walk, in order, up to the first error |
| CsvCreation.CsvCreator.CreateRightsCsv | sip_assembly/csv_creator.py:20-33 | the file is the start plus the walked rows; the result is the success message exactly when no row raised and the client accepts the file |
| RightsCsvValidation.ColumnNames | sip_assembly/routines_helpers.py:153-158 | the columns the checks name sit at the indices the model uses |
| RightsCsvValidation.MatchMonthDash | sip_assembly/routines_helpers.py:188 | a matched `%m` is a month from 1 to 12, followed by its dash |
| RightsCsvValidation.MatchDay | sip_assembly/routines_helpers.py:188 | a matched `%d` is a day from 1 to 31 |
| RightsCsvValidation.IsoDateIsDate | sip_assembly/routines_helpers.py:186-191 | a zero-padded date with year 1-9999, month 1-12 and day 1-31 parses exactly when the day exists in that month of that year |
| RightsCsvValidation.LeapDayExamples | sip_assembly/routines_helpers.py:186-191 | 29 February is a date in a leap year |
| RightsCsvValidation.CommonYearExamples | sip_assembly/routines_helpers.py:186-191 | 29 February is not a date in a common year |
| RightsCsvValidation.ShapeExamples | sip_assembly/routines_helpers.py:186-191 | zero-padded and unpadded months and days are accepted |
| RightsCsvValidation.OutOfRangeExamples | sip_assembly/routines_helpers.py:186-191 | month 13, day 32 and the empty string are rejected |
| RightsCsvValidation.YearZeroIsRejected | sip_assembly/routines_helpers.py:186-191 | year 0 is rejected |
| RightsCsvValidation.CheckDates | sip_assembly/routines_helpers.py:183-193 | the loop as written: a row too short for a date column is unreadable, otherwise only the last date column decides |
| RightsCsvValidation.EarlierDatesAreNotChecked | sip_assembly/routines_helpers.py:184-193 | broken earlier dates pass when `grant_end_date` is `OPEN` |
| RightsCsvValidation.ValueProblemsEmpty | sip_assembly/routines_helpers.py:164-179 | the enumeration checks report nothing exactly when every value they reach is allowed, and each report names the row's line |
| RightsCsvValidation.RowProblemsEmpty | sip_assembly/routines_helpers.py:162-194 | a data row gets no problem exactly when it is acceptable |
| RightsCsvValidation.DataProblemsEmpty | sip_assembly/routines_helpers.py:196-198 | the data rows report nothing exactly when each is acceptable |
| RightsCsvValidation.ProblemsEmptyIff | sip_assembly/routines_helpers.py:160-200 | the validator finds no problem exactly when the header is right and every data row is acceptable |
| RightsCsvValidation.RowProblemIsBad | sip_assembly/routines_helpers.py:162-194 | every problem of a row names that row, and the row is not acceptable |
| RightsCsvValidation.BadRowIsReported | sip_assembly/routines_helpers.py:162-194 | an unacceptable row gets a problem naming it |
| RightsCsvValidation.DataProblemSound | sip_assembly/routines_helpers.py:196-198 | every reported problem names a later data row that is not acceptable |
| RightsCsvValidation.DataProblemsComplete | sip_assembly/routines_helpers.py:196-198 | every unacceptable data row is reported with its 1-based line |
| RightsCsvValidation.DataProblemsAreBadRows | sip_assembly/routines_helpers.py:196-198 | the data problems name lines 2 and up, each an unacceptable row |
| RightsCsvValidation.ProblemsAreBadRows | sip_assembly/routines_helpers.py:160-200 | every problem is a bad header on line 1 or an unacceptable data row |
| RightsCsvValidation.BadRowsAreProblems | sip_assembly/routines_helpers.py:160-200 | every unacceptable data row is reported |
| BagFiles.BagTree.constructor | sip_assembly/routines_helpers.py:41-49 | a tree in which a missing directory holds nothing |
| BagFiles.BagTree.ListData | sip_assembly/routines_helpers.py:47 | `os.listdir` lists each entry of `data/` exactly once |
| BagFiles.BagTree.MoveObjectsDir | sip_assembly/routines_helpers.py:41-49 | `objects` exists afterwards; the renamed entries move into it; the first failing rename stops the loop; without failures only `objects` remains in `data/` |
| BagFiles.BagTree.CreateStructure | sip_assembly/routines_helpers.py:52-63 | the three directories exist unless one makedirs raises; nothing else changes; an existing structure is left alone |
| RoutinesHelpers.CopyToDirectory | sip_assembly/routines_helpers.py:9-15 | a copy moves `bag_path` to `{dest}/{id}.tar.gz`; a declined copy changes nothing |
| RoutinesHelpers.MoveToDirectory | sip_assembly/routines_helpers.py:18-24 | the same for a move |
| RoutinesHelpers.ExtractAll | sip_assembly/routines_helpers.py:27-38 | an unrecognised extension raises; a failed extraction raises; on success `bag_path` becomes `{extract_dir}/{id}` |
| RoutinesHelpers.CreateTargzPackage | sip_assembly/routines_helpers.py:216-222 | `bag_path` gains `.tar.gz` unless packing raises |
| RoutinesHelpers.ExtractAcceptsDeliveredPackage | sip_assembly/routines_helpers.py:29-30 | a copied package is accepted, and a bare directory name is not |
| RoutinesHelpers.BasisValues | sip_assembly/routines_helpers.py:133-138 | twelve basis values |
| RoutinesHelpers.BasisValuesListed | sip_assembly/routines_helpers.py:133-138 | the value of each listed key, with `''` for a missing key, in list order |
| RoutinesHelpers.GetBasisFields | sip_assembly/routines_helpers.py:133-138 | the loop builds exactly `BasisValues` |
| RoutinesHelpers.GrantValues | sip_assembly/routines_helpers.py:141-148 | a KeyError without `act`; otherwise the act, the restriction fallback chain, the two dates and the note |
| RoutinesHelpers.GrantedRows | sip_assembly/routines_helpers.py:119-129 | one row per grant |
| RoutinesHelpers.NewRow | sip_assembly/routines_helpers.py:121-124 | the path followed by the basis values |
| RoutinesHelpers.InsertBlanks | sip_assembly/routines_helpers.py:114-117 | five blanks inserted at position 10 |
| RoutinesHelpers.InsertGrant | sip_assembly/routines_helpers.py:125-128 | the grant's five values inserted at position 10 |
| RoutinesHelpers.GrantedRowsLoop | sip_assembly/routines_helpers.py:120-129 | the loop builds exactly `GrantedRows` |
| RoutinesHelpers.GetRightsRows | sip_assembly/routines_helpers.py:99-130 | the rows of one file for one statement, for the path with its leading `/` stripped |
| RoutinesHelpers.GrantedRowsFailureSticks | sip_assembly/routines_helpers.py:120-129 | a KeyError on an earlier grant is the outcome for the whole list |
| RoutinesHelpers.GrantedRowsFailIff | sip_assembly/routines_helpers.py:120-129 | the rows raise, with a KeyError on `act`, exactly when some grant lacks `act` |
| RoutinesHelpers.GrantedRowsInOrder | sip_assembly/routines_helpers.py:120-129 | row i is the layout of grant i |
| RoutinesHelpers.NoGrantRow | sip_assembly/routines_helpers.py:109-118 | no grants give one 18-column row with blanks in columns 10-14 and the basis values around them |
| RoutinesHelpers.GrantRowsShape | sip_assembly/routines_helpers.py:119-129 | one row per grant, with that grant's values in columns 10-14 |
| RoutinesHelpers.FileRowsWidth | sip_assembly/routines_helpers.py:109-129 | every row has 18 columns |
| RoutinesHelpers.NoGrantRowIsRejected | sip_assembly/routines_helpers.py:109-118 | the blank-grant row can never pass this file's validator |
| RoutinesHelpers.SetupCsvFile | sip_assembly/routines_helpers.py:78-96 | a new file starts with the header; an existing file is appended to |
| RoutinesHelpers.WriteEntryRows | sip_assembly/routines_helpers.py:72-75 | one directory's files write their rows after what is already written, or stop at the first error |
| RoutinesHelpers.WriteStatementRows | sip_assembly/routines_helpers.py:70-75 | one statement writes the rows of the whole walk, up to the first error |
| RoutinesHelpers.CreateRightsCsv | sip_assembly/routines_helpers.py:66-75 | the file holds every statement's rows, statement by statement, up to the first error |
| RoutinesHelpers.StatementMajorFailureSticks | sip_assembly/routines_helpers.py:69-75 | a statement that raises ends the outcome |
| RoutinesHelpers.StatementMajorOrder | sip_assembly/routines_helpers.py:69-75 | all of the first statement's rows come before those of the rest |
| RoutinesHelpers.StatementMajorAppend | sip_assembly/routines_helpers.py:69-75 | the rows of two lists of statements are the rows of each, concatenated |
| RoutinesHelpers.ValidateRightsCsv | sip_assembly/routines_helpers.py:151-200 | it raises exactly when the file is missing or the validator finds a problem |
| Library.MoveToDirectory | sip_assembly/library.py:18-29 | True and `bag_path` moved, or False and unchanged |
| Library.ExtractAll | sip_assembly/library.py:32-45 | False for an unrecognised extension; raises when extraction raises; True and `bag_path` at `{extract_dir}/{id}` otherwise |
| Library.CreatePackage | sip_assembly/library.py:214-226 | True and `bag_path` plus `.tar.gz`, which `extract_all` accepts, or False and unchanged |
| Library.ArchiveIsAccepted | sip_assembly/library.py:34-35 | a path with extension `.gz` is accepted |
| Library.CreateSubmissionDocs | sip_assembly/library.py:174-176 | always True |
| Library.MoveObjectsDir | sip_assembly/library.py:48-61 | True exactly when no rename fails, and then only `objects` remains in `data/` |
| Library.CreateStructure | sip_assembly/library.py:70-82 | True leaves the three directories present; False means some makedirs failed |
| Library.GrantColumns | sip_assembly/library.py:111-113 | five grant values |
| Library.GrantRowsOf | sip_assembly/library.py:105-115 | one row per grant |
| Library.LibraryRowIsLayout | sip_assembly/library.py:106-115 | the row written is the shared 18-column layout |
| Library.WriteGrantRows | sip_assembly/library.py:105-115 | the loop writes every grant's row for one file, in order |
| Library.WriteStatement | sip_assembly/library.py:97-120 | one statement writes all its rows, or reports a failure and writes none |
| Library.LibraryRowsStep | sip_assembly/library.py:89-120 | one more statement appends its rows or stops with False |
| Library.CreateRightsCsv | sip_assembly/library.py:85-121 | it raises without a statement list, and otherwise returns whether every statement's rows were written, with the file as written |
| Library.LibraryRowsFailureSticks | sip_assembly/library.py:118-120 | after a failing statement nothing more is written |
| Library.FilesRowsCount | sip_assembly/library.py:104-115 | a statement writes files times grants rows |
| Library.LibraryRowCount | sip_assembly/library.py:89-115 | the whole file holds files times the total number of grants rows |
| Library.NoGrantsNoRows | sip_assembly/library.py:104-105 | a statement without grants writes no row |
| Library.NoGrantsFilesRows | sip_assembly/library.py:104-105 | no grants give no rows for any list of files |
| Library.GrantRowsOfAt | sip_assembly/library.py:105-115 | row j for a file is the layout of grant j |
| Library.FilesRowsAt | sip_assembly/library.py:104-115 | the row for file i and grant j sits at index i * grants + j |
| Library.RowShape | sip_assembly/library.py:106-115 | the row starts with `data/objects/{file}` and holds the grant's act in column 10 |
| Library.ValidateRightsCsv | sip_assembly/library.py:124-169 | it raises when the file is missing, and returns True exactly when the capitalised-basis validator finds nothing |
| Library.CapitalisedIsStricter | sip_assembly/library.py:137-138 | a file this validator accepts is accepted by the one in routines_helpers.py |
| Library.LowerCaseBasisRejected | sip_assembly/library.py:137-138 | a lower-case `copyright` basis is rejected here |
| Assemblers.AssemblyBlocks | sip_assembly/assemblers.py:30-113 | eight blocks with thresholds 20 to 90, in order |
| Assemblers.StagesOutcome | sip_assembly/assemblers.py:42-46 | a block succeeds exactly when each of its calls succeeds |
| Assemblers.NewAssembler | sip_assembly/assemblers.py:19-25 | the directories come from `dirs` when it is non-empty and it fails on a missing key; otherwise they come from the settings |
| Assemblers.SIPAssembler.constructor | sip_assembly/assemblers.py:19-25 | records the two directories |
| Assemblers.SIPAssembler.RunBlock | sip_assembly/assemblers.py:30-37 | a block below its threshold sets the status to the threshold on success, or stops with False or an error; otherwise it does nothing |
| Assemblers.SIPAssembler.Run | sip_assembly/assemblers.py:27-118 | the final status and result are those of `RunBlocks` on the package's eight blocks |
| Assemblers.SIPAssembler.RunGuardedBlocks | sip_assembly/assemblers.py:29-118 | the chain of guarded blocks computes `RunBlocks` |
| Assemblers.SIPAssembler.GuardedBlock | sip_assembly/assemblers.py:30-113 | one guarded block either ends the run with its outcome or leaves the rest of the run to go |
| Assemblers.StatusNeverDrops | sip_assembly/assemblers.py:30-113 | the status never goes down, and it ends at its start or at a threshold |
| Assemblers.CompletedBlocksAreSkipped | sip_assembly/assemblers.py:30-113 | blocks whose threshold is already reached are skipped |
| Assemblers.RerunIsStable | sip_assembly/assemblers.py:27-118 | running again from the status a run reached gives the same status and result |
| Assemblers.CompletesIff | sip_assembly/assemblers.py:27-118 | the run returns True exactly when every block above the start status succeeds |
| Assemblers.CompletedRunReachesLastThreshold | sip_assembly/assemblers.py:27-115 | a run that returns True ends at the last threshold, or at its start if higher |
| Assemblers.FailingBlockStopsRun | sip_assembly/assemblers.py:30-118 | a failing block not yet passed keeps the status below its threshold, and the run does not return True |
| Assemblers.RunDependsOnCalledStages | sip_assembly/assemblers.py:27-118 | the run depends only on the operations its blocks call |
| Assemblers.AssemblyBlocksAscending | sip_assembly/assemblers.py:30-113 | the thresholds strictly increase |
| Assemblers.SentPackageIsLeftAlone | sip_assembly/assemblers.py:105-115 | from status 90 on, the run does nothing and returns True |
| Assemblers.CompletedAssemblyReaches90 | sip_assembly/assemblers.py:105-115 | a run that returns True leaves the status at 90, or higher if it started higher |
| Assemblers.MissingRightsKeyStopsRun | sip_assembly/assemblers.py:51-63 | without a `rights_statements` key a run from below 40 never reaches 40 and does not return True |
| Assemblers.EmptyRightsSkipCsv | sip_assembly/assemblers.py:51-63 | with no statements listed, the rights.csv operations cannot affect the run |
| Routines.SipTable.constructor | sip_assembly/models.py:4-16 | the table holds the given rows |
| Routines.IndicesWithStatus | sip_assembly/routines.py:60 | every index it gives is a record with that status |
| Routines.IndicesFrom | sip_assembly/routines.py:60 | matching indices at or after i, in increasing order |
| Routines.IndicesFromComplete | sip_assembly/routines.py:60 | every matching index at or after i is listed |
| Routines.IndicesWithStatusExact | sip_assembly/routines.py:60 | the query lists exactly the records with that status, in table order |
| Routines.ApplyInOrder | sip_assembly/routines.py:60-112 | a run leaves as many records as it found, and collects at most one identifier per queued record |
| Routines.ApplyInOrderLeavesRest | sip_assembly/routines.py:60-112 | records not reached, and records not queued, are unchanged |
| Routines.ApplyInOrderEffect | sip_assembly/routines.py:60-112 | the run finishes exactly when no step raises; each finished record is its step's result with its identifier collected; a raising step's record is left as the step left it |
| Routines.UnpackStep | sip_assembly/routines.py:62-69 | the phase succeeds only when the copy did not raise and the extraction succeeded, leaving the bag at `{tmp}/{id}` |
| Routines.AssembleOne | sip_assembly/routines.py:61-112 | identity fields are kept; success means ASSEMBLED; a raise keeps the status; an unknown origin raises exactly when it is not configured; other raises name the SIP |
| Routines.NewSIPAssembler | sip_assembly/routines.py:49-56 | construction succeeds exactly when all three directories exist; otherwise it reports the first missing one |
| Routines.SIPAssembler.constructor | sip_assembly/routines.py:49-56 | records the three directories |
| Routines.SIPAssembler.Run | sip_assembly/routines.py:58-114 | the table afterwards, and the message or the error, are those of `ApplyInOrder` over the created SIPs |
| Routines.SIPAssembler.AssembleQueue | sip_assembly/routines.py:60-112 | the loop over the queue computes `ApplyInOrder` |
| Routines.SIPAssembler.AssembleNext | sip_assembly/routines.py:60-112 | one iteration either ends the run with its error or leaves the rest of the run to go |
| Routines.SIPAssembler.ProcessRecord | sip_assembly/routines.py:61-112 | one SIP's record changes only at its index, as `AssembleOne` says |
| Routines.SIPAssembler.AssembleSip | sip_assembly/routines.py:61-110 | the five phases on a loaded SIP give `AssembleOne`'s record and error |
| Routines.SIPAssembler.Unpack | sip_assembly/routines.py:62-69 | the copy, extraction and BagIt check give `UnpackStep` |
| Routines.SIPAssembler.Restructure | sip_assembly/routines.py:71-77 | succeeds exactly when no rename and no makedirs raises |
| Routines.SIPAssembler.AddRights | sip_assembly/routines.py:79-87 | succeeds exactly when the rows build and the written file validates |
| Routines.SIPAssembler.UpdateContents | sip_assembly/routines.py:89-100 | succeeds exactly when the four updates and the packing succeed, and then the bag path gains `.tar.gz` |
| Routines.SIPAssembler.Deliver | sip_assembly/routines.py:102-110 | a move that does not raise marks the SIP assembled, and a completed move sets the delivered path |
| Routines.GetProcessingConfig | sip_assembly/routines.py:38-43 | an integer reply raises the SIP assembly error for that code; a configuration is returned as received |
| Routines.AssembleStepKept | sip_assembly/routines.py:61-112 | every step keeps identity fields, and it sets ASSEMBLED exactly when it does not raise |
| Routines.AssemblyRunSucceeds | sip_assembly/routines.py:58-114 | a run without error assembles every created SIP, returns their identifiers in order, and leaves the rest untouched |
| Routines.AssemblyRunFailure | sip_assembly/routines.py:58-114 | a failing run stops at one created SIP, which stays CREATED; it has assembled those before it, left those after it unchanged, and raised an error naming it |
| Routines.AssembleOneSucceeds | sip_assembly/routines.py:61-110 | one iteration raises nothing exactly when the origin is known, every phase succeeds and the move does not raise |
| Routines.DeliveredPackagePath | sip_assembly/routines.py:102-105 | a delivered package sits at `{dest}/{id}.tar.gz`, which is an archive |
| Routines.DeclinedMoveStillAssembled | sip_assembly/routines.py:102-105 | a declined move still marks ASSEMBLED, with the package left in the temporary directory |
| Routines.RightsCsvOnlyWhenListed | sip_assembly/routines.py:79-87 | with no statements listed, the rights phase never raises |
| Routines.MissingRightsKeyNeverAssembles | sip_assembly/routines.py:79 | without the `rights_statements` key the SIP is never assembled, and the error comes from the key or an earlier phase |
| Routines.OldestWithStatus | sip_assembly/routines.py:124-125 | the first record of least `last_modified` with that status, or none |
| Routines.NewestWithStatus | sip_assembly/routines.py:126-130 | the first record of greatest `last_modified` with that status, or none |
| Routines.CreatePackage | sip_assembly/routines.py:120-144 | nothing queued; an unknown origin; waiting while the last approved transfer is processing; or the oldest assembled SIP becomes APPROVED and nothing else changes, and then a dictionary reply gives the started id while an integer reply raises |
| Routines.FailedStartIsNotRetried | sip_assembly/routines.py:140-143 | a start that raises on an integer reply has already saved the SIP as APPROVED: it is no longer the queued SIP, and it is among the SIPs the cleanup request posts |
| Routines.StartChangesOneRecord | sip_assembly/routines.py:141-142 | starting a transfer changes one record and removes it from the assembled queue |
| Routines.StartRemovesFromQueue | sip_assembly/routines.py:141-142 | approving a record removes exactly its index from the assembled query |
| Routines.CloseAll | sip_assembly/routines.py:150-161 | a reported failure is truthy; nothing is kept when no origin was asked |
| Routines.RemoveCompleted | sip_assembly/routines.py:146-163 | the loop gives `CloseAll`'s outcome: a reported failure raises `SIPActionError`, a null `close_succeeded` raises `TypeError`, an unbound reply raises, otherwise a message naming the closed dashboards and the last reply |
| Routines.Closing | sip_assembly/routines.py:150-151 | the origins set to close completed units |
| Routines.CloseAllOutcome | sip_assembly/routines.py:150-163 | it raises exactly when some closing origin reports a failure or a null `close_succeeded`; otherwise it asks every closing origin and keeps the last reply |
| Routines.CloseAllFirstStop | sip_assembly/routines.py:150-161 | the first closing origin whose reply stops the loop decides the exception (a reported failure before a null list), and the dashboards named are the closing origins up to it |
| Routines.RequestCleanup | sip_assembly/routines.py:172-186 | the loop computes `ApplyInOrder` of `CleanupOne` over the approved SIPs |
| Routines.CleanupRecord | sip_assembly/routines.py:175-183 | one record changes as `CleanupOne` says |
| Routines.CleanupRunEffect | sip_assembly/routines.py:172-186 | other records are untouched; without error every approved SIP is cleaned up; an error leaves the failing SIP and those after it approved |
| Routines.CleanupRunCompletes | sip_assembly/routines.py:175-183 | a run that raises nothing marks every approved SIP CLEANED_UP |
| Routines.CleanupRunStops | sip_assembly/routines.py:175-183 | a run that raises stops at an approved SIP whose post did not answer 200, raises the cleanup error with the reason for it, and leaves it APPROVED |
| Routines.TransferPathIsDeliveredPath | sip_assembly/routines.py:201-202 | the path cleanup removes is the path delivery wrote |
| Routines.NewCleanupRoutine | sip_assembly/routines.py:192-197 | an empty identifier raises; otherwise the routine is set up |
| Routines.CleanupRoutine.constructor | sip_assembly/routines.py:192-197 | records the identifier and the destination |
| Routines.CleanupRoutine.Run | sip_assembly/routines.py:199-208 | a present package is removed, or the removal error is raised; a missing one is reported; after success it is absent |

## Left out

- Logging, `print`, request identifiers and `uuid4`: they have no effect on the state being modelled.
- Real I/O is not modelled: the file system, tar, BagIt, Archivematica (`AMClient`, `ArchivematicaClient`) and the HTTP cleanup service. Each operation is a parameter that gives its outcome or its reply. This covers `bagit_helpers.validate`, `update_bag_info`, `add_processing_config`, `update_manifests`, `file_helpers.*`, `client.create_package`, `get_unit_status` and `requests.post`.
- `get_client` is modelled only by whether the origin is configured (a missing origin raises `KeyError`). Missing keys inside a configured origin's settings are not modelled.
- `remove_completed` calls `getattr(client, 'close_completed_' + type)`. It is modelled for the two kinds Archivematica offers; any other `type` would raise `AttributeError`, and that case is not modelled.
- `os.walk` and `os.listdir` listings are inputs. The tree below `data/objects`, `data/metadata` and `data/logs` is not tracked beyond one level.
- `deliver_via_rsync` in library.py runs a shell command and only reports its exit status, so it is not modelled.
- `validate` in library.py (lines 64-67) only calls the BagIt library, so it is not modelled.
- `update_bag_info`, `add_processing_config` and `update_manifests` in library.py are I/O wrappers that return False when they raise. `assemblers.dfy` models them as operations with an outcome.
- `create_submission_docs` in routines_helpers.py is a placeholder identical to the one in library.py, which `Library.CreateSubmissionDocs` models.
- The `SIP` methods that `assemblers.py` calls (`sip.move_to_directory()` and the others) are defined in a `BasePackage` that is not part of this model. `assemblers.dfy` takes them as operations with an outcome.
- `last_modified` is not refreshed by `save()`: `BasePackage` is not part of this model.
- When two records tie on `last_modified`, the database's order is not modelled. The model picks the first in table order.
- `Routines.CreatePackage` gives the `("msg",)` one-element replies as `Message`. Archivematica's reply to the start is a parameter: the `id` of a dictionary, or an integer error code. A `get_unit_status` reply that is an error code is only compared with `'PROCESSING'`, so it is a string parameter that differs from it.
- `Routines.RequestCleanup`: `requests.post` raising (a connection error, say) is not modelled. The `statusCode` parameter only gives the status of a reply that arrived.
- `all_completed` in `remove_completed` is never returned. `Routines.RemoveCompleted` builds it and models the `TypeError` its `+=` raises on a null `close_succeeded`. A `close_succeeded` that is a number or a boolean, which would raise too, is not modelled.
- Closing the CSV file twice, and the file objects left open by `setup_csv_file`, are not modelled. Neither is creating the `metadata` directory in `setup_csv_file`, which only matters when that directory is missing.
- `CsvCreation.CsvCreator.CreateRightsCsv`: `validate_rights_csv` (csv_creator.py:114-119) sends the file to the Archivematica client. Its verdict is the parameter `client`, and a rejection is the `ValidationFailed` error.
- `Routines.SIPAssembler.AssembleSip`: the rights-phase verdict, `RightsPhaseOk`, is computed over the file as it would be written. The model does not re-read the file.
- `Routines.AssemblyRunSucceeds` and `Routines.AssemblyRunFailure` are stated for any step that keeps `IterationKept`. `Routines.AssembleStepKept` shows that the assembly step is one.
- `Text.ParseInt`: `int()` is modelled for an optional sign followed by ASCII digits. Surrounding whitespace, underscores and non-ASCII digits, which Python also accepts, are not modelled.
- `RightsCsvValidation.MatchMonthDash`, `RightsCsvValidation.MatchDay`: `strptime('%Y-%m-%d')` is modelled on ASCII digits. Non-ASCII digits, which the `\d` of its pattern also matches, are not modelled.
- `Routines.GetProcessingConfig`: the error carries the Archivematica error code. The message `errors.error_lookup` makes of it belongs to the client library and is not modelled.
- `RightsCsvValidation.RowProblems`: csvvalidator is not part of this model. Its problem code for an exception raised inside a record check is taken to be `UNEXPECTED_EXCEPTION`, and the order of problems within a row follows csvvalidator: value checks, then record length, then record checks.
- Rights statements and grants are read as dictionaries whose values are strings or null. A JSON number or boolean in a statement is not modelled. Its `str()` spelling in the CSV and its truthiness (0 and False are falsy) in `Rights.Prefer`, the grant values and the copyright status are therefore not modelled.
- `BagFiles.BagTree.MoveObjectsDir`: creating `data/objects` is taken to succeed, here and in the restructuring phase of `Routines.AssembleOne`. Only the renames into it can fail in this model; the phase also models failing makedirs for `logs`, `metadata` and `submissionDocumentation`.
