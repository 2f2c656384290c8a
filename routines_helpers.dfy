/**
 * sip_assembly/routines_helpers.py: the file steps the assembly routine runs
 * on one package (copy, extract, package, each rewriting `bag_path`), the
 * rights CSV it writes statement by statement, and the validation it runs
 * on that CSV.
 */
module RoutinesHelpers {
  import opened Common
  import opened Text
  import opened Paths
  import opened Rights
  import opened Models
  import opened RightsCsvValidation

  /** The exceptions these helpers raise. */
  datatype HelperError =
    | StepRaised(step: string)          // an exception out of a file helper
    | ExtractFailed                     // "Error extracting TAR file."
    | UnrecognizedArchive               // "Unrecognized archive format"
    | RowsFailed(reason: RowError)      // KeyError / TypeError while building rows
    | NoRightsCsv                       // opening a rights.csv that does not exist
    | CsvRejected(problems: seq<Problem>)

  // ---------------------------------------------------------------------
  // Steps that rewrite `bag_path`. The file work itself is an Outcome.
  // ---------------------------------------------------------------------

  /**
   * `copy_to_directory`: `bag_path` becomes `{dest}/{id}.tar.gz` only when
   * the copy reports success; a copy that reports failure changes nothing.
   */
  method CopyToDirectory(sip: Sip, dest: string, copied: Outcome) returns (err: Option<HelperError>)
    modifies sip
    ensures sip.processStatus == old(sip.processStatus)
    ensures err.Some? <==> copied == Raised
    ensures err.Some? ==> err.value == StepRaised("copy")
    ensures sip.bagPath == if copied == Done then ArchivePath(dest, sip.bagIdentifier) else old(sip.bagPath)
    ensures copied == Done ==> IsArchive(sip.bagPath)
  {
    var destPath := ArchivePath(dest, sip.bagIdentifier);
    if copied == Raised {
      return Some(StepRaised("copy"));
    }
    if copied == Done {
      sip.bagPath := destPath;
      ArchivePathIsArchive(dest, sip.bagIdentifier);
    }
    err := None;
  }

  /** `move_to_directory`: as `copy_to_directory`, with a move. */
  method MoveToDirectory(sip: Sip, dest: string, moved: Outcome) returns (err: Option<HelperError>)
    modifies sip
    ensures sip.processStatus == old(sip.processStatus)
    ensures err.Some? <==> moved == Raised
    ensures err.Some? ==> err.value == StepRaised("move")
    ensures sip.bagPath == if moved == Done then ArchivePath(dest, sip.bagIdentifier) else old(sip.bagPath)
    ensures moved == Done ==> IsArchive(sip.bagPath)
  {
    var destPath := ArchivePath(dest, sip.bagIdentifier);
    if moved == Raised {
      return Some(StepRaised("move"));
    }
    if moved == Done {
      sip.bagPath := destPath;
      ArchivePathIsArchive(dest, sip.bagIdentifier);
    }
    err := None;
  }

  /**
   * `extract_all`: an archive (last extension `.tgz` or `.gz`) is extracted
   * and `bag_path` becomes `{extract_dir}/{id}`; an extraction reporting
   * failure raises "Error extracting TAR file."; any other path raises
   * "Unrecognized archive format". `bag_path` changes only on success.
   */
  method ExtractAll(sip: Sip, extractDir: string, extracted: Outcome) returns (err: Option<HelperError>)
    modifies sip
    ensures sip.processStatus == old(sip.processStatus)
    ensures !IsArchive(old(sip.bagPath)) ==> err == Some(UnrecognizedArchive)
    ensures IsArchive(old(sip.bagPath)) ==>
      err == match extracted
             case Done => None
             case Declined => Some(ExtractFailed)
             case Raised => Some(StepRaised("extract"))
    ensures sip.bagPath == if err.None? then Join(extractDir, sip.bagIdentifier) else old(sip.bagPath)
  {
    var ext := Ext(sip.bagPath);
    if ext in [".tgz", ".tar.gz", ".gz"] {
      if extracted == Raised {
        return Some(StepRaised("extract"));
      }
      if extracted == Declined {
        return Some(ExtractFailed);
      }
      sip.bagPath := Join(extractDir, sip.bagIdentifier);
      err := None;
    } else {
      err := Some(UnrecognizedArchive);
    }
  }

  /**
   * `create_targz_package`: whatever the archiver reports, unless it raises,
   * `bag_path` becomes the old path plus `.tar.gz`, which the extract step
   * accepts again.
   */
  method CreateTargzPackage(sip: Sip, packed: Outcome) returns (err: Option<HelperError>)
    modifies sip
    ensures sip.processStatus == old(sip.processStatus)
    ensures err.Some? <==> packed == Raised
    ensures err.Some? ==> err.value == StepRaised("package") && sip.bagPath == old(sip.bagPath)
    ensures err.None? ==> sip.bagPath == old(sip.bagPath) + ".tar.gz" && Ext(sip.bagPath) == ".gz"
  {
    var tarPath := sip.bagPath + ".tar.gz";
    if packed == Raised {
      return Some(StepRaised("package"));
    }
    sip.bagPath := tarPath;
    TarGzSuffixHasGzExtension(tarPath);
    err := None;
  }

  /** Copying or moving a package into a directory leaves a path the extract step accepts. */
  lemma ExtractAcceptsDeliveredPackage(dest: string, identifier: string)
    ensures IsArchive(ArchivePath(dest, identifier))
    ensures !IsArchive(Join(dest, identifier)) <== identifier == "bag"
  {
    ArchivePathIsArchive(dest, identifier);
    if identifier == "bag" {
      var p := Join(dest, identifier);
      assert p[|p| - 3..] == "bag";
      IsArchiveIff(p);
    }
  }

  // ---------------------------------------------------------------------
  // Rows (`get_basis_fields`, `get_grant_restriction`, `get_rights_rows`).
  // ---------------------------------------------------------------------

  /** The statement keys `get_basis_fields` reads, in column order. */
  const BasisOrder: seq<string> := [
    "rights_basis", "status", "determination_date", "jurisdiction",
    "start_date", "end_date", "terms", "citation", "note",
    "doc_id_type", "doc_id_value", "doc_id_role"]

  /** The twelve statement values, `''` for a missing key. */
  function BasisValues(st: Dict): (b: seq<Value>)
    ensures |b| == |BasisOrder| == 12
  {
    seq(12, k requires 0 <= k < 12 => Get(st, BasisOrder[k], Str("")))
  }

  /** The twelve values spelled out, key by key. */
  lemma BasisValuesListed(st: Dict)
    ensures BasisValues(st) == [
      Get(st, "rights_basis", Str("")), Get(st, "status", Str("")), Get(st, "determination_date", Str("")),
      Get(st, "jurisdiction", Str("")), Get(st, "start_date", Str("")), Get(st, "end_date", Str("")),
      Get(st, "terms", Str("")), Get(st, "citation", Str("")), Get(st, "note", Str("")),
      Get(st, "doc_id_type", Str("")), Get(st, "doc_id_value", Str("")), Get(st, "doc_id_role", Str(""))]
  {
  }

  /** `get_basis_fields`, loop as written. */
  method GetBasisFields(st: Dict) returns (values: seq<Value>)
    ensures values == BasisValues(st)
  {
    values := [];
    for k := 0 to |BasisOrder|
      invariant values == BasisValues(st)[..k]
    {
      values := values + [Get(st, BasisOrder[k], Str(""))];
    }
  }

  /**
   * `get_grant_restriction`: the act (mandatory), the restriction (from
   * `restriction`, else `grant_restriction`, else `''`), then start date,
   * end date and note, `''` when missing.
   */
  function GrantValues(g: Dict): (r: Result<Row, RowError>)
    ensures r.Failure? <==> "act" !in g
    ensures r.Failure? ==> r.error == MissingKey("act")
    ensures r.Success? ==> |r.value| == 5 && r.value[0] == g["act"]
    ensures r.Success? && Truthy(Get(g, "restriction", Null)) ==> r.value[1] == g["restriction"]
    ensures r.Success? && !Truthy(Get(g, "restriction", Null)) && Truthy(Get(g, "grant_restriction", Null))
      ==> r.value[1] == g["grant_restriction"]
    ensures r.Success? && !Truthy(Get(g, "restriction", Null)) && !Truthy(Get(g, "grant_restriction", Null))
      ==> r.value[1] == Str("")
    ensures r.Success? ==> r.value[2..] == [Get(g, "start_date", Str("")), Get(g, "end_date", Str("")), Get(g, "note", Str(""))]
  {
    var restriction :=
      if Truthy(Get(g, "restriction", Null)) then g["restriction"]
      else if Truthy(Get(g, "grant_restriction", Null)) then g["grant_restriction"]
      else Str("");
    if "act" !in g then Failure(MissingKey("act"))
    else Success([g["act"], restriction, Get(g, "start_date", Str("")), Get(g, "end_date", Str("")),
                  Get(g, "note", Str(""))])
  }

  /** One row per grant, in grant order; the first grant without an act fails the lot. */
  function GrantedRows(path: string, basis: seq<Value>, grants: seq<Dict>): (r: Result<seq<Row>, RowError>)
    requires |basis| == 12
    ensures r.Success? ==> |r.value| == |grants|
  {
    if grants == [] then Success([])
    else
      match GrantedRows(path, basis, grants[..|grants| - 1])
      case Failure(e) => Failure(e)
      case Success(rows) =>
        match GrantValues(grants[|grants| - 1])
        case Failure(e) => Failure(e)
        case Success(g) => Success(rows + [Layout(path, basis, g)])
  }

  /**
   * What `get_rights_rows` returns for one file path and one statement: a
   * TypeError (`len(None)`) without a grant list, one row with five blank
   * grant columns for an empty list, otherwise one row per grant.
   */
  function FileRows(path: string, st: Statement): Result<seq<Row>, RowError>
  {
    match st.rightsGranted
    case None => Failure(NoGrantList)
    case Some(grants) =>
      if grants == [] then Success([Layout(path, BasisValues(st.fields), EmptyGrant)])
      else GrantedRows(path, BasisValues(st.fields), grants)
  }

  /** `[file] + basis`, appended value by value. */
  method NewRow(path: string, basis: seq<Value>) returns (row: Row)
    ensures row == [Str(path)] + basis
  {
    row := [Str(path)];
    for k := 0 to |basis|
      invariant row == [Str(path)] + basis[..k]
    {
      row := row + [basis[k]];
    }
    assert basis[..|basis|] == basis;
  }

  /** The `while count < 15: insert(count, '')` loop: five blanks go in at index 10. */
  method InsertBlanks(row0: Row) returns (row: Row)
    requires |row0| == 13
    ensures row == row0[..10] + EmptyGrant + row0[10..]
  {
    row := row0;
    var count := 10;
    while count < 15
      invariant 10 <= count <= 15
      invariant row == row0[..10] + EmptyGrant[..count - 10] + row0[10..]
    {
      assert EmptyGrant[..count + 1 - 10] == EmptyGrant[..count - 10] + [Str("")];
      row := Insert(row, count, Str(""));
      count := count + 1;
    }
  }

  /** The `insert(count, grant_value)` loop: the grant values go in at index 10, in order. */
  method InsertGrant(row0: Row, grant: Row) returns (row: Row)
    requires |row0| == 13
    ensures row == row0[..10] + grant + row0[10..]
  {
    row := row0;
    var count := 10;
    for j := 0 to |grant|
      invariant count == 10 + j
      invariant row == row0[..10] + grant[..j] + row0[10..]
    {
      assert grant[..j + 1] == grant[..j] + [grant[j]];
      row := Insert(row, count, grant[j]);
      count := count + 1;
    }
    assert grant[..|grant|] == grant;
  }

  /** The `for rights_granted in ...` loop of `get_rights_rows`: one row per grant. */
  method GrantedRowsLoop(path: string, basis: seq<Value>, grants: seq<Dict>) returns (r: Result<seq<Row>, RowError>)
    requires |basis| == 12
    ensures r == GrantedRows(path, basis, grants)
  {
    var rows: seq<Row> := [];
    for j := 0 to |grants|
      invariant GrantedRows(path, basis, grants[..j]) == Success(rows)
    {
      assert grants[..j + 1][..j] == grants[..j];
      var g := GrantValues(grants[j]);
      if g.Failure? {
        GrantedRowsFailureSticks(path, basis, grants, j + 1);
        return Failure(g.error);
      }
      var row := NewRow(path, basis);
      row := InsertGrant(row, g.value);
      SpliceIsLayout(path, basis, g.value);
      rows := rows + [row];
    }
    assert grants[..|grants|] == grants;
    r := Success(rows);
  }

  /** `get_rights_rows(bag_dir, file, rights_statement)`, loops as written. */
  method GetRightsRows(bagDir: string, file: string, st: Statement) returns (r: Result<seq<Row>, RowError>)
    ensures r == FileRows(LStrip(Join(bagDir, file), '/'), st)
  {
    var path := LStrip(Join(bagDir, file), '/');
    if st.rightsGranted.None? {
      return Failure(NoGrantList);
    }
    var grants := st.rightsGranted.value;
    var basis := GetBasisFields(st.fields);
    if |grants| == 0 {
      var row := NewRow(path, basis);
      row := InsertBlanks(row);
      SpliceIsLayout(path, basis, EmptyGrant);
      r := Success([row]);
    } else {
      r := GrantedRowsLoop(path, basis, grants);
    }
  }

  /** Once a grant fails, the whole list fails with that grant's error. */
  lemma {:induction false} GrantedRowsFailureSticks(path: string, basis: seq<Value>, grants: seq<Dict>, k: nat)
    requires |basis| == 12 && k <= |grants|
    requires GrantedRows(path, basis, grants[..k]).Failure?
    ensures GrantedRows(path, basis, grants) == GrantedRows(path, basis, grants[..k])
    decreases |grants| - k
  {
    if k < |grants| {
      assert grants[..k + 1][..k] == grants[..k];
      GrantedRowsFailureSticks(path, basis, grants, k + 1);
    } else {
      assert grants[..k] == grants;
    }
  }

  /** The list fails exactly when some grant has no act. */
  lemma {:induction false} GrantedRowsFailIff(path: string, basis: seq<Value>, grants: seq<Dict>)
    requires |basis| == 12
    ensures GrantedRows(path, basis, grants).Failure? <==> exists i :: 0 <= i < |grants| && "act" !in grants[i]
    ensures GrantedRows(path, basis, grants).Failure? ==> GrantedRows(path, basis, grants).error == MissingKey("act")
    decreases |grants|
  {
    if grants != [] {
      var init := grants[..|grants| - 1];
      GrantedRowsFailIff(path, basis, init);
      if exists i :: 0 <= i < |init| && "act" !in init[i] {
        var i :| 0 <= i < |init| && "act" !in init[i];
        assert grants[i] == init[i];
      }
      if exists i :: 0 <= i < |grants| && "act" !in grants[i] {
        var i :| 0 <= i < |grants| && "act" !in grants[i];
        if i < |init| {
          assert init[i] == grants[i];
        }
      }
    }
  }

  /** Row `i` belongs to grant `i`: the file, the basis values, that grant's five values. */
  lemma {:induction false} GrantedRowsInOrder(path: string, basis: seq<Value>, grants: seq<Dict>, i: nat)
    requires |basis| == 12 && i < |grants|
    requires GrantedRows(path, basis, grants).Success?
    ensures GrantValues(grants[i]).Success?
    ensures GrantedRows(path, basis, grants).value[i] == Layout(path, basis, GrantValues(grants[i]).value)
    decreases |grants|
  {
    var init := grants[..|grants| - 1];
    if i < |init| {
      GrantedRowsInOrder(path, basis, init, i);
      assert init[i] == grants[i];
    }
  }

  /**
   * A statement with an empty grant list gives exactly one row: the file,
   * the basis values and five empty grant columns.
   */
  lemma NoGrantRow(path: string, st: Statement)
    requires st.rightsGranted == Some([])
    ensures FileRows(path, st).Success? && |FileRows(path, st).value| == 1
    ensures var row := FileRows(path, st).value[0];
      |row| == 18 && row[0] == Str(path) && row[10..15] == EmptyGrant
      && (forall k :: 1 <= k < 10 ==> row[k] == Get(st.fields, BasisOrder[k - 1], Str("")))
      && (forall k :: 15 <= k < 18 ==> row[k] == Get(st.fields, BasisOrder[k - 6], Str("")))
  {
    var basis := BasisValues(st.fields);
    LayoutColumns(path, basis, EmptyGrant);
  }

  /**
   * With k grants that all carry an act, a statement gives exactly k rows in
   * grant order, each 18 wide with the file first and its grant's values at
   * columns 10-14; a grant without an act makes it fail.
   */
  lemma GrantRowsShape(path: string, st: Statement, i: nat)
    requires st.rightsGranted.Some? && st.rightsGranted.value != []
    requires forall j :: 0 <= j < |st.rightsGranted.value| ==> "act" in st.rightsGranted.value[j]
    requires i < |st.rightsGranted.value|
    ensures FileRows(path, st).Success? && |FileRows(path, st).value| == |st.rightsGranted.value|
    ensures var row := FileRows(path, st).value[i];
      var g := st.rightsGranted.value[i];
      |row| == 18 && row[0] == Str(path) && row[10..15] == GrantValues(g).value
  {
    var grants := st.rightsGranted.value;
    var basis := BasisValues(st.fields);
    GrantedRowsFailIff(path, basis, grants);
    GrantedRowsInOrder(path, basis, grants, i);
    LayoutColumns(path, basis, GrantValues(grants[i]).value);
  }

  /** Every row built for a file has the 18 columns of the header. */
  lemma FileRowsWidth(path: string, st: Statement)
    requires FileRows(path, st).Success?
    ensures forall row :: row in FileRows(path, st).value ==> |row| == |FieldNames|
  {
    var grants := st.rightsGranted.value;
    var basis := BasisValues(st.fields);
    if grants != [] {
      forall row | row in FileRows(path, st).value
        ensures |row| == |FieldNames|
      {
        var i :| 0 <= i < |grants| && FileRows(path, st).value[i] == row;
        GrantedRowsInOrder(path, basis, grants, i);
      }
    }
  }

  /**
   * The validator this module runs rejects the row written for a statement
   * without grants: its act and restriction columns are empty. A package
   * whose rights include such a statement and at least one file therefore
   * fails validation.
   */
  lemma NoGrantRowIsRejected(path: string, st: Statement, bases: set<string>)
    requires st.rightsGranted == Some([])
    ensures !RowAcceptable(RenderRow(FileRows(path, st).value[0]), bases)
  {
    NoGrantRow(path, st);
    var r := RenderRow(FileRows(path, st).value[0]);
    assert r[ActColumn] == "";
  }

  // ---------------------------------------------------------------------
  // The file (`create_rights_csv`, `setup_csv_file`).
  // ---------------------------------------------------------------------

  /** `get_rights_rows(dirpath.split(bag_path)[1], file, statement)` for one walked file. */
  function WalkedFileRows(bagPath: string, st: Statement, dirpath: string, file: string): Result<seq<Row>, RowError>
  {
    match PathToFile(bagPath, dirpath, file)
    case Failure(e) => Failure(e)
    case Success(path) => FileRows(path, st)
  }

  /** `WalkedFileRows` of one statement, as a function of the walked file. */
  function RowsOfStatement(bagPath: string, st: Statement): (string, string) -> Result<seq<Row>, RowError>
  {
    (dirpath: string, file: string) => WalkedFileRows(bagPath, st, dirpath, file)
  }

  lemma RowsOfStatementAgrees(bagPath: string, st: Statement)
    ensures forall dirpath, file {:trigger WalkedFileRows(bagPath, st, dirpath, file)} ::
      RowsOfStatement(bagPath, st)(dirpath, file) == WalkedFileRows(bagPath, st, dirpath, file)
  {
  }

  /**
   * Rows written for the statements, statement by statement, each over the
   * whole walk; the first file whose rows fail stops everything.
   */
  function StatementMajorRows(bagPath: string, sts: seq<Statement>, files: seq<(string, string)>)
    : (seq<Row>, Option<RowError>)
  {
    if sts == [] then ([], None)
    else
      var (before, err) := StatementMajorRows(bagPath, sts[..|sts| - 1], files);
      if err.Some? then (before, err)
      else
        var (more, err2) := WalkRows(RowsOfStatement(bagPath, sts[|sts| - 1]), files);
        (before + more, err2)
  }

  /** The rights file after writing: untouched without statements, else header (if new) and rows. */
  function RightsFile(existing: Option<Csv>, sts: seq<Statement>, rows: seq<Row>): Option<Csv>
  {
    if sts == [] then existing else Some(CsvStart(existing) + RenderRows(rows))
  }

  /** `setup_csv_file`: a new file gets the header; an existing one is appended to. */
  method SetupCsvFile(file: Option<Csv>) returns (csv: Csv)
    ensures file.None? ==> csv == [FieldNames]
    ensures file.Some? ==> csv == file.value
  {
    if file.None? {
      csv := [FieldNames];
    } else {
      csv := file.value;
    }
  }

  /** The rows of one statement for the files of one walked directory (the inner loop). */
  method WriteEntryRows(ghost rowsOf: (string, string) -> Result<seq<Row>, RowError>,
                        ghost visited: seq<(string, string)>, ghost start: Csv, ghost rows0: seq<Row>,
                        bagPath: string, st: Statement, entry: WalkEntry, csv0: Csv)
    returns (csv: Csv, failure: Option<RowError>)
    requires forall dirpath, file {:trigger WalkedFileRows(bagPath, st, dirpath, file)} ::
      rowsOf(dirpath, file) == WalkedFileRows(bagPath, st, dirpath, file)
    requires WalkRows(rowsOf, visited) == (rows0, None)
    requires csv0 == start + RenderRows(rows0)
    ensures var (rows, err) := WalkRows(rowsOf, visited + Pairs(entry));
      failure == err && csv == start + RenderRows(rows)
  {
    csv := csv0;
    ghost var rows := rows0;
    assert visited + Pairs(WalkEntry(entry.dirpath, entry.filenames[..0])) == visited;
    for j := 0 to |entry.filenames|
      invariant WalkRows(rowsOf, visited + Pairs(WalkEntry(entry.dirpath, entry.filenames[..j]))) == (rows, None)
      invariant csv == start + RenderRows(rows)
    {
      ghost var seen := visited + Pairs(WalkEntry(entry.dirpath, entry.filenames[..j]));
      assert visited + Pairs(WalkEntry(entry.dirpath, entry.filenames[..j + 1]))
          == seen + [(entry.dirpath, entry.filenames[j])] by {
        PairsPrefix(entry, j);
      }
      var path := PathToFile(bagPath, entry.dirpath, entry.filenames[j]);
      var fileRows: Result<seq<Row>, RowError>;
      if path.Failure? {
        fileRows := Failure(path.error);
      } else {
        var parts := Split(entry.dirpath, bagPath);
        fileRows := GetRightsRows(parts[1], entry.filenames[j], st);
      }
      assert fileRows == WalkedFileRows(bagPath, st, entry.dirpath, entry.filenames[j]);
      WalkRowsSnoc(rowsOf, seen, entry.dirpath, entry.filenames[j]);
      if fileRows.Failure? {
        assert WalkRows(rowsOf, visited + Pairs(entry)) == (rows, Some(fileRows.error)) by {
          var done := seen + [(entry.dirpath, entry.filenames[j])];
          var more := Pairs(WalkEntry(entry.dirpath, entry.filenames[j + 1..]));
          PairsAfter(visited, entry, j);
          WalkRowsFailureSticks(rowsOf, done, more);
        }
        return csv, Some(fileRows.error);
      }
      CsvGrows(start, rows, fileRows.value);
      rows := rows + fileRows.value;
      csv := csv + RenderRows(fileRows.value);
    }
    assert entry.filenames[..|entry.filenames|] == entry.filenames;
    assert WalkRows(rowsOf, visited + Pairs(entry)) == (rows, None);
    failure := None;
  }

  /** One statement over the whole walk (the `os.walk` loop). */
  method WriteStatementRows(bagPath: string, st: Statement, walk: seq<WalkEntry>, csv0: Csv)
    returns (csv: Csv, failure: Option<RowError>)
    ensures var (rows, err) := WalkRows(RowsOfStatement(bagPath, st), Flatten(walk));
      csv == csv0 + RenderRows(rows) && failure == err
  {
    ghost var rowsOf := RowsOfStatement(bagPath, st);
    RowsOfStatementAgrees(bagPath, st);
    ghost var rows: seq<Row> := [];
    csv := csv0;
    assert csv0 + RenderRows([]) == csv0;
    for i := 0 to |walk|
      invariant WalkRows(rowsOf, Flatten(walk[..i])) == (rows, None)
      invariant csv == csv0 + RenderRows(rows)
    {
      assert Flatten(walk[..i + 1]) == Flatten(walk[..i]) + Pairs(walk[i]) by {
        assert walk[..i + 1][..i] == walk[..i];
      }
      csv, failure := WriteEntryRows(rowsOf, Flatten(walk[..i]), csv0, rows, bagPath, st, walk[i], csv);
      rows := WalkRows(rowsOf, Flatten(walk[..i]) + Pairs(walk[i])).0;
      if failure.Some? {
        assert WalkRows(rowsOf, Flatten(walk)) == (rows, failure) by {
          Reassemble(walk, i + 1);
          FlattenAppend(walk[..i + 1], walk[i + 1..]);
          WalkRowsFailureSticks(rowsOf, Flatten(walk[..i + 1]), Flatten(walk[i + 1..]));
        }
        return;
      }
    }
    assert walk[..|walk|] == walk;
    failure := None;
  }

  /**
   * `create_rights_csv(bag_path, rights_statements)`: for each statement,
   * open the file (header only when it does not exist yet) and write the
   * rows of every walked file. Rows written before a failure stay in the file.
   */
  method CreateRightsCsv(bagPath: string, sts: seq<Statement>, walk: seq<WalkEntry>, existing: Option<Csv>)
    returns (file: Option<Csv>, err: Option<RowError>)
    ensures var (rows, e) := StatementMajorRows(bagPath, sts, Flatten(walk));
      err == e && file == RightsFile(existing, sts, rows)
  {
    file := existing;
    ghost var rows: seq<Row> := [];
    for k := 0 to |sts|
      invariant StatementMajorRows(bagPath, sts[..k], Flatten(walk)) == (rows, None)
      invariant file == RightsFile(existing, sts[..k], rows)
    {
      assert sts[..k + 1][..k] == sts[..k];
      var csv := SetupCsvFile(file);
      assert csv == CsvStart(existing) + RenderRows(rows);
      var failure;
      csv, failure := WriteStatementRows(bagPath, sts[k], walk, csv);
      ghost var (more, _) := WalkRows(RowsOfStatement(bagPath, sts[k]), Flatten(walk));
      CsvGrows(CsvStart(existing), rows, more);
      rows := rows + more;
      file := Some(csv);
      if failure.Some? {
        StatementMajorFailureSticks(bagPath, sts, k + 1, Flatten(walk));
        return file, failure;
      }
    }
    assert sts[..|sts|] == sts;
    err := None;
  }

  /** Once a statement fails, the later statements write nothing. */
  lemma {:induction false} StatementMajorFailureSticks(bagPath: string, sts: seq<Statement>, k: nat,
                                                       files: seq<(string, string)>)
    requires k <= |sts| && StatementMajorRows(bagPath, sts[..k], files).1.Some?
    ensures StatementMajorRows(bagPath, sts, files) == StatementMajorRows(bagPath, sts[..k], files)
    decreases |sts| - k
  {
    if k < |sts| {
      assert sts[..k + 1][..k] == sts[..k];
      StatementMajorFailureSticks(bagPath, sts, k + 1, files);
    } else {
      assert sts[..k] == sts;
    }
  }

  /**
   * When every file of the walk lies in the bag, the rows come statement by
   * statement: those of the first statement for every file, then those of
   * the rest.
   */
  lemma StatementMajorOrder(bagPath: string, st: Statement, rest: seq<Statement>, files: seq<(string, string)>)
    requires StatementMajorRows(bagPath, [st] + rest, files).1.None?
    ensures StatementMajorRows(bagPath, [st], files).1.None?
    ensures StatementMajorRows(bagPath, [st] + rest, files).0 ==
      WalkRows(RowsOfStatement(bagPath, st), files).0 + StatementMajorRows(bagPath, rest, files).0
  {
    StatementMajorAppend(bagPath, [st], rest, files);
    assert [st][..0] == [];
  }

  /** Writing `a + b` is writing `a`, then `b`, when nothing fails. */
  lemma {:induction false} StatementMajorAppend(bagPath: string, a: seq<Statement>, b: seq<Statement>,
                                                files: seq<(string, string)>)
    requires StatementMajorRows(bagPath, a + b, files).1.None?
    ensures StatementMajorRows(bagPath, a, files).1.None?
    ensures StatementMajorRows(bagPath, b, files).1.None?
    ensures StatementMajorRows(bagPath, a + b, files).0 ==
      StatementMajorRows(bagPath, a, files).0 + StatementMajorRows(bagPath, b, files).0
    decreases |b|
  {
    if b == [] {
      assert a + b == a;
    } else {
      var init := b[..|b| - 1];
      var last := WalkRows(RowsOfStatement(bagPath, b[|b| - 1]), files);
      assert (a + b)[..|a + b| - 1] == a + init;
      assert (a + b)[|a + b| - 1] == b[|b| - 1];
      var whole := StatementMajorRows(bagPath, a + init, files);
      assert whole.1.None? && StatementMajorRows(bagPath, a + b, files) == (whole.0 + last.0, last.1);
      StatementMajorAppend(bagPath, a, init, files);
      var tail := StatementMajorRows(bagPath, init, files);
      assert StatementMajorRows(bagPath, b, files) == (tail.0 + last.0, last.1);
    }
  }

  // ---------------------------------------------------------------------
  // Validation (`validate_rights_csv`).
  // ---------------------------------------------------------------------

  /**
   * `validate_rights_csv`: reading a missing file raises; otherwise the
   * problems the validator reports (basis in either capitalisation) are
   * raised unless there are none.
   */
  function ValidateRightsCsv(file: Option<Csv>): (err: Option<HelperError>)
    ensures err.None? <==> file.Some? && CsvAcceptable(file.value, AnyCaseBases)
    ensures file.None? ==> err == Some(NoRightsCsv)
  {
    match file
    case None => Some(NoRightsCsv)
    case Some(csv) =>
      ProblemsEmptyIff(csv, AnyCaseBases);
      var problems := Problems(csv, AnyCaseBases);
      if problems == [] then None else Some(CsvRejected(problems))
  }
}
