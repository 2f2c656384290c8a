/**
 * sip_assembly/library.py: the older helper set the staged assembler uses.
 * Its steps catch their own exceptions and report success as a boolean;
 * only the archive extraction, the missing statement list and the missing
 * rights file let an exception through.
 */
module Library {
  import opened Common
  import opened Paths
  import opened Rights
  import opened Models
  import opened BagFiles
  import opened RightsCsvValidation
  import RoutinesHelpers

  /** The exceptions that escape these helpers. */
  datatype LibraryError =
    | ExtractRaised       // `tarfile` errors are not caught by `extract_all`
    | NoStatementList     // iterating `sip.data.get('rights_statements')` when it is None
    | NoRightsCsv         // opening a rights.csv that does not exist

  // ---------------------------------------------------------------------
  // Steps that rewrite `bag_path`.
  // ---------------------------------------------------------------------

  /**
   * `move_to_directory`: True with `bag_path = {dest}/{id}.tar.gz` when the
   * move goes through, False with `bag_path` unchanged when it raises.
   */
  method MoveToDirectory(sip: Sip, dest: string, raises: bool) returns (ok: bool)
    modifies sip
    ensures sip.processStatus == old(sip.processStatus)
    ensures ok == !raises
    ensures sip.bagPath == if ok then ArchivePath(dest, sip.bagIdentifier) else old(sip.bagPath)
  {
    if raises {
      return false;
    }
    sip.bagPath := ArchivePath(dest, sip.bagIdentifier);
    ok := true;
  }

  /**
   * `extract_all`: an archive path (last extension `.tgz` or `.gz`) is
   * extracted, `bag_path` becomes `{extract_dir}/{id}` and the result is
   * True; any other path gives False and changes nothing. Archive errors
   * propagate.
   */
  method ExtractAll(sip: Sip, extractDir: string, raises: bool) returns (r: Result<bool, LibraryError>)
    modifies sip
    ensures sip.processStatus == old(sip.processStatus)
    ensures !IsArchive(old(sip.bagPath)) ==> r == Success(false)
    ensures IsArchive(old(sip.bagPath)) ==> r == if raises then Failure(ExtractRaised) else Success(true)
    ensures sip.bagPath == if r == Success(true) then Join(extractDir, sip.bagIdentifier) else old(sip.bagPath)
  {
    var ext := Ext(sip.bagPath);
    if ext in [".tgz", ".tar.gz", ".gz"] {
      if raises {
        return Failure(ExtractRaised);
      }
      sip.bagPath := Join(extractDir, sip.bagIdentifier);
      r := Success(true);
    } else {
      r := Success(false);
    }
  }

  /**
   * `create_package`: True with `bag_path` plus `.tar.gz` when archiving and
   * removing the directory go through, False with `bag_path` unchanged when
   * either raises.
   */
  method CreatePackage(sip: Sip, raises: bool) returns (ok: bool)
    modifies sip
    ensures sip.processStatus == old(sip.processStatus)
    ensures ok == !raises
    ensures sip.bagPath == if ok then old(sip.bagPath) + ".tar.gz" else old(sip.bagPath)
    ensures ok ==> IsArchive(sip.bagPath)
  {
    if raises {
      return false;
    }
    var tarPath := sip.bagPath + ".tar.gz";
    sip.bagPath := tarPath;
    TarGzSuffixHasGzExtension(tarPath);
    ArchiveIsAccepted(tarPath);
    ok := true;
  }

  /** A path whose last extension is `.gz` is one the extract step accepts. */
  lemma ArchiveIsAccepted(p: string)
    requires Ext(p) == ".gz"
    ensures IsArchive(p)
  {
  }

  /** `create_submission_docs`: a placeholder that always reports success. */
  function CreateSubmissionDocs(sip: SipRecord): (ok: bool)
    ensures ok
  {
    true
  }

  // ---------------------------------------------------------------------
  // The bag's directories.
  // ---------------------------------------------------------------------

  /**
   * `move_objects_dir(sip)`: every entry of `data/` other than `objects`
   * ends up in `data/objects`; False when a rename raises.
   */
  method MoveObjectsDir(tree: BagTree, fails: string -> bool) returns (ok: bool)
    requires tree.Valid()
    modifies tree
    ensures tree.Valid()
    ensures ok <==> forall n :: n in old(tree.data) && n != "objects" ==> !fails(n)
    ensures ok ==> tree.data == {"objects"} && tree.objects == old(tree.objects) + (old(tree.data) - {"objects"})
    ensures "objects" in tree.data && tree.objects == old(tree.objects) + (old(tree.data) - tree.data)
  {
    var failed := tree.MoveObjectsDir(fails);
    ok := failed.None?;
  }

  /** `create_structure(sip)`: True when the three directories exist afterwards; False when making one raises. */
  method CreateStructure(tree: BagTree, fails: string -> bool) returns (ok: bool)
    requires tree.Valid()
    modifies tree
    ensures tree.Valid() && tree.objects == old(tree.objects)
    ensures ok ==> tree.HasStructure()
    ensures !ok ==> exists d :: d in StructureDirs && fails(d)
    ensures old(tree.HasStructure()) ==> ok && tree.data == old(tree.data) && tree.metadata == old(tree.metadata)
  {
    var failed := tree.CreateStructure(fails);
    ok := failed.None?;
  }

  // ---------------------------------------------------------------------
  // The rights file (`create_rights_csv`).
  // ---------------------------------------------------------------------

  /** The five grant columns, each `''` when missing: no fallback key, no mandatory act. */
  function GrantColumns(g: Dict): (r: Row)
    ensures |r| == 5
  {
    [Get(g, "act", Str("")), Get(g, "restriction", Str("")), Get(g, "start_date", Str("")),
     Get(g, "end_date", Str("")), Get(g, "note", Str(""))]
  }

  /** `data/objects/{file}`: the path column, relative to the bag. */
  function ObjectPath(file: string): string
  {
    "data/objects/" + file
  }

  /** The rows of one file: one per grant, in grant order. */
  function GrantRowsOf(file: string, basis: seq<Value>, grants: seq<Dict>): (rows: seq<Row>)
    requires |basis| == 12
    ensures |rows| == |grants|
  {
    if grants == [] then []
    else GrantRowsOf(file, basis, grants[..|grants| - 1]) + [Layout(ObjectPath(file), basis, GrantColumns(grants[|grants| - 1]))]
  }

  /** The rows of one statement: file by file, each with one row per grant. */
  function FilesRows(files: seq<string>, basis: seq<Value>, grants: seq<Dict>): seq<Row>
    requires |basis| == 12
  {
    if files == [] then []
    else FilesRows(files[..|files| - 1], basis, grants) + GrantRowsOf(files[|files| - 1], basis, grants)
  }

  /**
   * The rows one statement writes, or None for the TypeError of iterating a
   * missing grant list, which only happens once there is a file to write.
   */
  function StatementRowsOf(st: Statement, files: seq<string>): Option<seq<Row>>
  {
    if files == [] then Some([])
    else
      match st.rightsGranted
      case None => None
      case Some(grants) => Some(FilesRows(files, RoutinesHelpers.BasisValues(st.fields), grants))
  }

  /** Rows written for the statements in order, and whether every statement completed. */
  function LibraryRows(sts: seq<Statement>, files: seq<string>): (seq<Row>, bool)
  {
    if sts == [] then ([], true)
    else
      var (before, ok) := LibraryRows(sts[..|sts| - 1], files);
      if !ok then (before, false)
      else
        match StatementRowsOf(sts[|sts| - 1], files)
        case None => (before, false)
        case Some(rows) => (before + rows, true)
  }

  /**
   * The row `create_rights_csv` writes for one file and one grant: its
   * eighteen-value literal, in the literal's order (object path, nine
   * statement values, five grant values, three statement values).
   */
  function LibraryRow(file: string, st: Dict, g: Dict): Row
  {
    [Str(ObjectPath(file))]
    + [Get(st, "rights_basis", Str("")), Get(st, "status", Str("")),
       Get(st, "determination_date", Str("")), Get(st, "jurisdiction", Str("")),
       Get(st, "start_date", Str("")), Get(st, "end_date", Str("")),
       Get(st, "terms", Str("")), Get(st, "citation", Str("")), Get(st, "note", Str(""))]
    + [Get(g, "act", Str("")), Get(g, "restriction", Str("")), Get(g, "start_date", Str("")),
       Get(g, "end_date", Str("")), Get(g, "note", Str(""))]
    + [Get(st, "doc_id_type", Str("")), Get(st, "doc_id_value", Str("")), Get(st, "doc_id_role", Str(""))]
  }

  /** The literal row follows the shared layout: the same columns as the other builders, in the same places. */
  lemma LibraryRowIsLayout(file: string, st: Dict, g: Dict)
    ensures LibraryRow(file, st, g) == Layout(ObjectPath(file), RoutinesHelpers.BasisValues(st), GrantColumns(g))
  {
    var basis := RoutinesHelpers.BasisValues(st);
    RoutinesHelpers.BasisValuesListed(st);
    var head := [Get(st, "rights_basis", Str("")), Get(st, "status", Str("")),
                 Get(st, "determination_date", Str("")), Get(st, "jurisdiction", Str("")),
                 Get(st, "start_date", Str("")), Get(st, "end_date", Str("")),
                 Get(st, "terms", Str("")), Get(st, "citation", Str("")), Get(st, "note", Str(""))];
    var tail := [Get(st, "doc_id_type", Str("")), Get(st, "doc_id_value", Str("")), Get(st, "doc_id_role", Str(""))];
    assert basis == head + tail;
    assert basis[..9] == head && basis[9..] == tail;
  }

  /** The inner `for rights_granted in ...` loop: one row per grant of one file. */
  method WriteGrantRows(file: string, st: Statement, grants: seq<Dict>, csv0: Csv)
    returns (csv: Csv)
    ensures csv == csv0 + RenderRows(GrantRowsOf(file, RoutinesHelpers.BasisValues(st.fields), grants))
  {
    ghost var basis := RoutinesHelpers.BasisValues(st.fields);
    csv := csv0;
    assert csv0 + RenderRows([]) == csv0;
    for j := 0 to |grants|
      invariant csv == csv0 + RenderRows(GrantRowsOf(file, basis, grants[..j]))
    {
      assert grants[..j + 1][..j] == grants[..j];
      var g := grants[j];
      var row := LibraryRow(file, st.fields, g);
      LibraryRowIsLayout(file, st.fields, g);
      CsvGrows(csv0, GrantRowsOf(file, basis, grants[..j]), [row]);
      csv := csv + RenderRows([row]);
    }
    assert grants[..|grants|] == grants;
  }

  /** One statement: a header when the file is new, then the rows of every object file. */
  method WriteStatement(st: Statement, files: seq<string>, csv0: Csv) returns (csv: Csv, ok: bool, ghost written: seq<Row>)
    ensures ok == StatementRowsOf(st, files).Some?
    ensures ok ==> StatementRowsOf(st, files).value == written
    ensures !ok ==> written == []
    ensures csv == csv0 + RenderRows(written)
  {
    csv, written := csv0, [];
    assert csv0 + RenderRows([]) == csv0;
    if files == [] {
      return csv, true, written;
    }
    if st.rightsGranted.None? {
      return csv, false, written;
    }
    var grants := st.rightsGranted.value;
    ghost var basis := RoutinesHelpers.BasisValues(st.fields);
    for i := 0 to |files|
      invariant written == FilesRows(files[..i], basis, grants)
      invariant csv == csv0 + RenderRows(written)
    {
      assert files[..i + 1][..i] == files[..i];
      csv := WriteGrantRows(files[i], st, grants, csv);
      CsvGrows(csv0, written, GrantRowsOf(files[i], basis, grants));
      written := written + GrantRowsOf(files[i], basis, grants);
    }
    assert files[..|files|] == files;
    ok := true;
  }

  /** One more statement: its rows follow, or it fails and adds none. */
  lemma LibraryRowsStep(sts: seq<Statement>, k: nat, files: seq<string>)
    requires k < |sts| && LibraryRows(sts[..k], files).1
    ensures LibraryRows(sts[..k + 1], files) ==
      match StatementRowsOf(sts[k], files)
      case None => (LibraryRows(sts[..k], files).0, false)
      case Some(more) => (LibraryRows(sts[..k], files).0 + more, true)
  {
    assert sts[..k + 1][..k] == sts[..k];
    assert sts[..k + 1][k] == sts[k];
  }

  /**
   * `create_rights_csv(sip)`: statement by statement, header only when the
   * file does not exist yet, rows for every (file, grant); False at the first
   * statement without a grant list (once there are files), with the rows
   * already written kept. A missing statement list raises before anything is
   * written.
   */
  method CreateRightsCsv(statements: Option<seq<Statement>>, files: seq<string>, existing: Option<Csv>)
    returns (r: Result<bool, LibraryError>, file: Option<Csv>)
    ensures statements.None? ==> r == Failure(NoStatementList) && file == existing
    ensures statements.Some? ==>
      var (rows, ok) := LibraryRows(statements.value, files);
      r == Success(ok) && file == RoutinesHelpers.RightsFile(existing, statements.value, rows)
  {
    file := existing;
    if statements.None? {
      return Failure(NoStatementList), file;
    }
    var sts := statements.value;
    ghost var rows: seq<Row> := [];
    for k := 0 to |sts|
      invariant LibraryRows(sts[..k], files) == (rows, true)
      invariant file == RoutinesHelpers.RightsFile(existing, sts[..k], rows)
    {
      var csv := if file.None? then [FieldNames] else file.value;
      assert csv == CsvStart(existing) + RenderRows(rows);
      var ok;
      ghost var more;
      csv, ok, more := WriteStatement(sts[k], files, csv);
      LibraryRowsStep(sts, k, files);
      CsvGrows(CsvStart(existing), rows, more);
      rows := rows + more;
      file := Some(csv);
      if !ok {
        assert rows == LibraryRows(sts[..k + 1], files).0;
        LibraryRowsFailureSticks(sts, k + 1, files);
        return Success(false), file;
      }
    }
    assert sts[..|sts|] == sts;
    r := Success(true);
  }

  /** After a statement fails, the later ones write nothing. */
  lemma {:induction false} LibraryRowsFailureSticks(sts: seq<Statement>, k: nat, files: seq<string>)
    requires k <= |sts| && !LibraryRows(sts[..k], files).1
    ensures LibraryRows(sts, files) == LibraryRows(sts[..k], files)
    decreases |sts| - k
  {
    if k < |sts| {
      assert sts[..k + 1][..k] == sts[..k];
      LibraryRowsFailureSticks(sts, k + 1, files);
    } else {
      assert sts[..k] == sts;
    }
  }

  /** The number of grants the statements list, a missing list counting none. */
  function GrantCount(sts: seq<Statement>): nat
  {
    if sts == [] then 0
    else GrantCount(sts[..|sts| - 1]) + (if sts[|sts| - 1].rightsGranted.Some? then |sts[|sts| - 1].rightsGranted.value| else 0)
  }

  lemma {:induction false} FilesRowsCount(files: seq<string>, basis: seq<Value>, grants: seq<Dict>)
    requires |basis| == 12
    ensures |FilesRows(files, basis, grants)| == |files| * |grants|
    decreases |files|
  {
    if files != [] {
      FilesRowsCount(files[..|files| - 1], basis, grants);
      MulStep(|files| - 1, |grants|);
    }
  }

  lemma MulStep(n: nat, g: nat)
    ensures n * g + g == (n + 1) * g
  {
  }

  lemma MulDistributes(n: nat, a: nat, b: nat)
    ensures n * (a + b) == n * a + n * b
  {
  }

  lemma MulIndexBound(i: nat, n: nat, g: nat, j: nat)
    requires i < n && j < g
    ensures i * g + j < n * g
  {
    MulStep(i, g);
    assert (i + 1) * g <= n * g by {
      var d := n - (i + 1);
      MulDistributes(g, i + 1, d);
      assert g * (i + 1) == (i + 1) * g && g * n == n * g;
    }
  }

  /** When every statement completes, there is one row per (statement, file, grant). */
  lemma {:induction false} LibraryRowCount(sts: seq<Statement>, files: seq<string>)
    requires LibraryRows(sts, files).1
    ensures |LibraryRows(sts, files).0| == |files| * GrantCount(sts)
    decreases |sts|
  {
    if sts != [] {
      var init := sts[..|sts| - 1];
      var last := sts[|sts| - 1];
      var before := LibraryRows(init, files);
      assert before.1;
      var more := StatementRowsOf(last, files);
      assert more.Some? && LibraryRows(sts, files).0 == before.0 + more.value;
      LibraryRowCount(init, files);
      var g := if last.rightsGranted.Some? then |last.rightsGranted.value| else 0;
      if files != [] {
        FilesRowsCount(files, RoutinesHelpers.BasisValues(last.fields), last.rightsGranted.value);
      }
      assert |more.value| == |files| * g;
      assert GrantCount(sts) == GrantCount(init) + g;
      MulDistributes(|files|, GrantCount(init), g);
    }
  }

  /** A statement with an empty grant list writes no row at all. */
  lemma {:induction false} NoGrantsNoRows(st: Statement, files: seq<string>)
    requires st.rightsGranted == Some([])
    ensures StatementRowsOf(st, files) == Some([])
    decreases |files|
  {
    if files != [] {
      var basis := RoutinesHelpers.BasisValues(st.fields);
      NoGrantsFilesRows(files, basis);
    }
  }

  lemma {:induction false} NoGrantsFilesRows(files: seq<string>, basis: seq<Value>)
    requires |basis| == 12
    ensures FilesRows(files, basis, []) == []
    decreases |files|
  {
    if files != [] {
      NoGrantsFilesRows(files[..|files| - 1], basis);
    }
  }

  /** Row `j` of a file is its grant `j`'s row: the object path, the basis values, the grant's columns. */
  lemma {:induction false} GrantRowsOfAt(file: string, basis: seq<Value>, grants: seq<Dict>, j: nat)
    requires |basis| == 12 && j < |grants|
    ensures GrantRowsOf(file, basis, grants)[j] == Layout(ObjectPath(file), basis, GrantColumns(grants[j]))
    decreases |grants|
  {
    if j < |grants| - 1 {
      GrantRowsOfAt(file, basis, grants[..|grants| - 1], j);
    }
  }

  /** Rows come file by file: row `i * |grants| + j` is file `i` with grant `j`. */
  lemma {:induction false} FilesRowsAt(files: seq<string>, basis: seq<Value>, grants: seq<Dict>, i: nat, j: nat)
    requires |basis| == 12 && i < |files| && j < |grants|
    ensures i * |grants| + j < |FilesRows(files, basis, grants)|
    ensures FilesRows(files, basis, grants)[i * |grants| + j] == Layout(ObjectPath(files[i]), basis, GrantColumns(grants[j]))
    decreases |files|
  {
    var init := files[..|files| - 1];
    var before := FilesRows(init, basis, grants);
    var here := GrantRowsOf(files[|files| - 1], basis, grants);
    assert FilesRows(files, basis, grants) == before + here;
    FilesRowsCount(init, basis, grants);
    MulIndexBound(i, |files|, |grants|, j);
    FilesRowsCount(files, basis, grants);
    if i < |init| {
      MulIndexBound(i, |init|, |grants|, j);
      FilesRowsAt(init, basis, grants, i, j);
      assert init[i] == files[i];
    } else {
      GrantRowsOfAt(files[i], basis, grants, j);
    }
  }

  /** Every row has the header's 18 columns, with the object path first and the grant at 10-14. */
  lemma RowShape(file: string, basis: seq<Value>, g: Dict)
    requires |basis| == 12
    ensures var row := Layout(ObjectPath(file), basis, GrantColumns(g));
      |row| == |FieldNames| && row[0] == Str("data/objects/" + file) && row[10..15] == GrantColumns(g)
      && row[10] == Get(g, "act", Str(""))
  {
    LayoutColumns(ObjectPath(file), basis, GrantColumns(g));
  }

  // ---------------------------------------------------------------------
  // Validation (`validate_rights_csv`).
  // ---------------------------------------------------------------------

  /**
   * `validate_rights_csv(sip)`: True when the validator (basis capitalised
   * only) reports nothing, False otherwise; a missing file raises.
   */
  function ValidateRightsCsv(file: Option<Csv>): (r: Result<bool, LibraryError>)
    ensures file.None? <==> r == Failure(NoRightsCsv)
    ensures r == Success(true) <==> file.Some? && CsvAcceptable(file.value, CapitalisedBases)
  {
    match file
    case None => Failure(NoRightsCsv)
    case Some(csv) =>
      ProblemsEmptyIff(csv, CapitalisedBases);
      Success(Problems(csv, CapitalisedBases) == [])
  }

  /** Every file this validator passes, the routines' validator (either capitalisation) passes too. */
  lemma CapitalisedIsStricter(csv: Csv)
    requires CsvAcceptable(csv, CapitalisedBases)
    ensures CsvAcceptable(csv, AnyCaseBases)
  {
    assert CapitalisedBases <= AnyCaseBases;
    forall i | 1 <= i < |csv|
      ensures RowAcceptable(csv[i], AnyCaseBases)
    {
      assert RowAcceptable(csv[i], CapitalisedBases);
    }
  }

  /** ... but not the other way round: a lower-case basis passes only the routines' validator. */
  lemma LowerCaseBasisRejected(r: Record)
    requires |r| == 18 && r[1] == "copyright"
    ensures !RowAcceptable(r, CapitalisedBases)
  {
  }
}
