/**
 * sip_assembly/csv_creator.py: the `CsvCreator` that writes the PREMIS
 * rights CSV of a bag, one row per (file, rights statement, granted right).
 */
module CsvCreation {
  import opened Common
  import opened Text
  import opened Paths
  import opened Rights

  /**
   * `skip_no_act`: `int(major) <= 1 and int(minor) < 13` over
   * `am_version.split(".")`. `and` short-circuits, so the minor part is only
   * read (and only needs to exist) when the major version is at most 1.
   * None stands for the ValueError or IndexError the constructor raises.
   */
  function SkipNoAct(version: string): (r: Option<bool>)
    ensures r.Some? ==> ParseInt(Split(version, ".")[0]).Some?
    ensures r == Some(true) ==> |Split(version, ".")| >= 2 && ParseInt(Split(version, ".")[0]).value <= 1
  {
    var parts := Split(version, ".");
    match ParseInt(parts[0])
    case None => None
    case Some(major) =>
      if major <= 1 then
        if |parts| < 2 then None
        else
          match ParseInt(parts[1])
          case None => None
          case Some(minor) => Some(minor < 13)
      else Some(false)
  }

  lemma DecimalHasNoDot(n: nat)
    ensures '.' !in Decimal(n)
  {
    var s := Decimal(n);
    assert forall k :: 0 <= k < |s| ==> s[k] != '.' by {
      forall k | 0 <= k < |s| ensures s[k] != '.' { assert IsDigit(s[k]); }
    }
  }

  /** Text without dots, followed by nothing or by a dot, is the first piece of its split at dots. */
  lemma FirstPiece(b: string, rest: string)
    requires '.' !in b && (rest == [] || rest[0] == '.')
    ensures Split(b + rest, ".")[0] == b
  {
    if rest == [] {
      assert b + rest == b;
      SplitAbsent(b, '.');
    } else {
      assert b + rest == b + ['.'] + rest[1..];
      SplitAtFirst(b, '.', rest[1..]);
    }
  }

  /** The first two pieces of `major.minor<rest>` split at dots. */
  lemma ReleaseParts(major: nat, minor: nat, rest: string)
    requires rest == [] || rest[0] == '.'
    ensures var parts := Split(Decimal(major) + "." + Decimal(minor) + rest, ".");
      |parts| >= 2 && parts[0] == Decimal(major) && parts[1] == Decimal(minor)
  {
    var a, b := Decimal(major), Decimal(minor);
    DecimalHasNoDot(major);
    DecimalHasNoDot(minor);
    assert a + "." + b + rest == a + ['.'] + (b + rest);
    SplitAtFirst(a, '.', b + rest);
    FirstPiece(b, rest);
    var tail := Split(b + rest, ".");
    assert Split(a + "." + b + rest, ".") == [a] + tail;
    assert ([a] + tail)[1] == tail[0];
  }

  /**
   * For a version `major.minor` (optionally followed by more `.`-separated
   * parts) the flag is exactly `major <= 1 && minor < 13`.
   */
  lemma SkipNoActOfRelease(major: nat, minor: nat, rest: string)
    requires rest == [] || rest[0] == '.'
    ensures SkipNoAct(Decimal(major) + "." + Decimal(minor) + rest) == Some(major <= 1 && minor < 13)
  {
    ReleaseParts(major, minor, rest);
    ParseDecimal(major);
    ParseDecimal(minor);
  }

  /** A one-part version fails only when its major number is at most 1; otherwise the flag is off. */
  lemma SkipNoActOfMajorOnly(major: nat)
    ensures SkipNoAct(Decimal(major)) == if major <= 1 then None else Some(false)
  {
    DecimalHasNoDot(major);
    SplitAbsent(Decimal(major), '.');
    ParseDecimal(major);
  }

  // ---------------------------------------------------------------------
  // Grant rows (`get_grant_restriction_rows`).
  // ---------------------------------------------------------------------

  /**
   * The five grant values of one granted right: act (mandatory), restriction
   * (`restriction`, else `grant_restriction`), start date, end date, and the
   * note (`granted_note`, else `note`).
   */
  function GrantRow(g: Dict): (r: Result<Row, RowError>)
    ensures r.Failure? <==> "act" !in g
    ensures r.Success? ==> |r.value| == 5 && r.value[0] == g["act"]
  {
    if "act" !in g then Failure(MissingKey("act"))
    else Success([g["act"], Prefer(g, "restriction", "grant_restriction"),
                  Get(g, "start_date", Str("")), Get(g, "end_date", Str("")),
                  Prefer(g, "granted_note", "note")])
  }

  /** The grant values of a non-empty `rights_granted` list, in order; the first grant without an act fails. */
  function GrantRows(grants: seq<Dict>): (r: Result<seq<Row>, RowError>)
    ensures r.Success? ==> |r.value| == |grants|
  {
    if grants == [] then Success([])
    else
      match GrantRows(grants[..|grants| - 1])
      case Failure(e) => Failure(e)
      case Success(rows) =>
        match GrantRow(grants[|grants| - 1])
        case Failure(e) => Failure(e)
        case Success(row) => Success(rows + [row])
  }

  /** The rows for a `rights_granted` list: one per grant, or the single empty grant row. */
  function GrantRestrictionRows(grants: seq<Dict>): (r: Result<seq<Row>, RowError>)
    ensures r.Success? ==> |r.value| == if grants == [] then 1 else |grants|
  {
    if grants == [] then Success([EmptyGrant]) else GrantRows(grants)
  }

  /** `get_grant_restriction_rows`, loop as written. */
  method GetGrantRestrictionRows(grants: seq<Dict>) returns (r: Result<seq<Row>, RowError>)
    ensures r == GrantRestrictionRows(grants)
  {
    if |grants| == 0 {
      return Success([EmptyGrant]);
    }
    var rows: seq<Row> := [];
    for i := 0 to |grants|
      invariant GrantRows(grants[..i]) == Success(rows)
    {
      var g := grants[i];
      assert grants[..i + 1][..i] == grants[..i];
      if "act" !in g {
        GrantRowsFailureSticks(grants, i + 1, |grants|);
        assert grants[..|grants|] == grants;
        return Failure(MissingKey("act"));
      }
      rows := rows + [GrantRow(g).value];
    }
    assert grants[..|grants|] == grants;
    r := Success(rows);
  }

  lemma {:induction false} GrantRowsFailureSticks(grants: seq<Dict>, k: nat, m: nat)
    requires k <= m <= |grants| && GrantRows(grants[..k]).Failure?
    ensures GrantRows(grants[..m]) == GrantRows(grants[..k])
    decreases m - k
  {
    if k < m {
      assert grants[..k + 1][..k] == grants[..k];
      GrantRowsFailureSticks(grants, k + 1, m);
    }
  }

  /** The list is rejected exactly when some grant has no act. */
  lemma {:induction false} GrantRowsFailIff(grants: seq<Dict>)
    ensures GrantRows(grants).Failure? <==> exists i :: 0 <= i < |grants| && "act" !in grants[i]
  {
    if grants != [] {
      var init := grants[..|grants| - 1];
      GrantRowsFailIff(init);
      if exists i :: 0 <= i < |init| && "act" !in init[i] {
        var i :| 0 <= i < |init| && "act" !in init[i];
        assert grants[i] == init[i];
      }
      if exists i :: 0 <= i < |grants| && "act" !in grants[i] {
        var i :| 0 <= i < |grants| && "act" !in grants[i];
        if i < |init| {
          assert init[i] == grants[i];
        }
      }
    }
  }

  /** Each grant gives its own row, in input order. */
  lemma {:induction false} GrantRowsInOrder(grants: seq<Dict>, i: nat)
    requires GrantRows(grants).Success? && i < |grants|
    ensures GrantRow(grants[i]).Success? && GrantRows(grants).value[i] == GrantRow(grants[i]).value
  {
    var init := grants[..|grants| - 1];
    if i < |init| {
      GrantRowsInOrder(init, i);
      assert init[i] == grants[i];
    }
  }

  /**
   * `get_grant_restriction_rows` in full: an empty list gives the single
   * empty grant row; otherwise the list fails exactly when a grant has no
   * act, and grant `i` gives row `i` with the documented key fallbacks.
   */
  lemma GrantRestrictionRowsSpec(grants: seq<Dict>, i: nat)
    requires i < |grants|
    ensures GrantRestrictionRows([]) == Success([EmptyGrant])
    ensures GrantRestrictionRows(grants).Failure? <==> exists j :: 0 <= j < |grants| && "act" !in grants[j]
    ensures GrantRestrictionRows(grants).Success? ==> |GrantRestrictionRows(grants).value| == |grants|
    ensures GrantRestrictionRows(grants).Success? ==> |GrantRestrictionRows(grants).value[i]| == 5
    ensures GrantRestrictionRows(grants).Success? ==>
      var row := GrantRestrictionRows(grants).value[i];
      && row[0] == grants[i]["act"]
      && row[1] == (if Truthy(Get(grants[i], "restriction", Null)) then grants[i]["restriction"]
                    else Get(grants[i], "grant_restriction", Null))
      && row[2] == Get(grants[i], "start_date", Str(""))
      && row[3] == Get(grants[i], "end_date", Str(""))
      && row[4] == (if Truthy(Get(grants[i], "granted_note", Null)) then grants[i]["granted_note"]
                    else Get(grants[i], "note", Null))
  {
    GrantRowsFailIff(grants);
    if GrantRows(grants).Success? {
      GrantRowsInOrder(grants, i);
    }
  }

  // ---------------------------------------------------------------------
  // Basis fields (`get_basis_fields`).
  // ---------------------------------------------------------------------

  /** The keys read with `.get(field, "")`, before the two insertions. */
  const BasisKeys: seq<string> := [
    "rights_basis", "determination_date", "jurisdiction", "start_date",
    "end_date", "terms", "citation", "doc_id_type", "doc_id_value", "doc_id_role"]

  /** The copyright status: `status` if truthy, else `copyright_status` if truthy, else ''. */
  function CopyrightStatus(st: Dict): Value
  {
    if Truthy(Get(st, "status", Null)) then st["status"]
    else if Truthy(Get(st, "copyright_status", Null)) then st["copyright_status"]
    else Str("")
  }

  /** `get_basis_fields`: the ten plain values, the note inserted at 7, then the status at 1. */
  function BasisFields(st: Dict): (b: seq<Value>)
    ensures |b| == 12
  {
    var values := seq(|BasisKeys|, i requires 0 <= i < |BasisKeys| => Get(st, BasisKeys[i], Str("")));
    var withNote := Insert(values, 7, Prefer(st, "basis_note", "note"));
    Insert(withNote, 1, CopyrightStatus(st))
  }

  /** The twelve basis values in column order, with the status and note fallbacks. */
  lemma BasisFieldsColumns(st: Dict)
    ensures var b := BasisFields(st);
      && |b| == 12
      && b[0] == Get(st, "rights_basis", Str(""))
      && b[1] == CopyrightStatus(st)
      && b[2] == Get(st, "determination_date", Str(""))
      && b[3] == Get(st, "jurisdiction", Str(""))
      && b[4] == Get(st, "start_date", Str(""))
      && b[5] == Get(st, "end_date", Str(""))
      && b[6] == Get(st, "terms", Str(""))
      && b[7] == Get(st, "citation", Str(""))
      && b[8] == Prefer(st, "basis_note", "note")
      && b[9] == Get(st, "doc_id_type", Str(""))
      && b[10] == Get(st, "doc_id_value", Str(""))
      && b[11] == Get(st, "doc_id_role", Str(""))
  {
    var values := seq(|BasisKeys|, i requires 0 <= i < |BasisKeys| => Get(st, BasisKeys[i], Str("")));
    var withNote := Insert(values, 7, Prefer(st, "basis_note", "note"));
    InsertShifts(values, 7, Prefer(st, "basis_note", "note"));
    InsertShifts(withNote, 1, CopyrightStatus(st));
  }

  // ---------------------------------------------------------------------
  // Rows for one file (`get_rights_rows`).
  // ---------------------------------------------------------------------

  /** The grant rows that are written: all of them, less the empty ones when `skip_no_act` holds. */
  function KeptGrants(grantRows: seq<Row>, skip: bool): (kept: seq<Row>)
    ensures |kept| <= |grantRows|
  {
    if grantRows == [] then []
    else
      var last := grantRows[|grantRows| - 1];
      KeptGrants(grantRows[..|grantRows| - 1], skip) + (if skip && last == EmptyGrant then [] else [last])
  }

  /** Every kept row is a grant row, and no empty one survives `skip_no_act`. */
  lemma {:induction false} KeptGrantsMembers(grantRows: seq<Row>, skip: bool)
    ensures forall g :: g in KeptGrants(grantRows, skip) ==> g in grantRows && !(skip && g == EmptyGrant)
    decreases |grantRows|
  {
    if grantRows != [] {
      KeptGrantsMembers(grantRows[..|grantRows| - 1], skip);
    }
  }

  /** Exactly the empty grant rows are dropped, and only when `skip_no_act` holds. */
  lemma {:induction false} KeptGrantsCount(grantRows: seq<Row>, skip: bool)
    ensures |KeptGrants(grantRows, skip)| == |grantRows| - (if skip then multiset(grantRows)[EmptyGrant] else 0)
    decreases |grantRows|
  {
    if grantRows != [] {
      var init := grantRows[..|grantRows| - 1];
      KeptGrantsCount(init, skip);
      assert grantRows == init + [grantRows[|grantRows| - 1]];
    }
  }

  /** Lay out every kept grant row with the statement's file path and basis values. */
  function LayoutAll(path: string, basis: seq<Value>, grants: seq<Row>): (rows: seq<Row>)
    requires |basis| == 12
    ensures |rows| == |grants|
  {
    if grants == [] then []
    else LayoutAll(path, basis, grants[..|grants| - 1]) + [Layout(path, basis, grants[|grants| - 1])]
  }

  /** Row `i` is grant `i` laid out with the statement's values. */
  lemma {:induction false} LayoutAllAt(path: string, basis: seq<Value>, grants: seq<Row>, i: nat)
    requires |basis| == 12 && i < |grants|
    ensures LayoutAll(path, basis, grants)[i] == Layout(path, basis, grants[i])
  {
    if i < |grants| - 1 {
      LayoutAllAt(path, basis, grants[..|grants| - 1], i);
    }
  }

  /** The rows one statement contributes for one file. */
  function StatementRows(path: string, st: Statement, skip: bool): Result<seq<Row>, RowError>
  {
    if st.rightsGranted.None? then Failure(MissingKey("rights_granted"))
    else
      match GrantRestrictionRows(st.rightsGranted.value)
      case Failure(e) => Failure(e)
      case Success(grantRows) =>
        Success(LayoutAll(path, BasisFields(st.fields), KeptGrants(grantRows, skip)))
  }

  /** Rows of the statements in order, statement by statement; the first failure wins. */
  function StatementsRows(path: string, sts: seq<Statement>, skip: bool): Result<seq<Row>, RowError>
  {
    if sts == [] then Success([])
    else
      match StatementsRows(path, sts[..|sts| - 1], skip)
      case Failure(e) => Failure(e)
      case Success(before) =>
        match StatementRows(path, sts[|sts| - 1], skip)
        case Failure(e) => Failure(e)
        case Success(rows) => Success(before + rows)
  }

  /** What `get_rights_rows` returns for one file. */
  function RightsRows(bagPath: string, sts: seq<Statement>, skip: bool, dirpath: string, file: string)
    : Result<seq<Row>, RowError>
  {
    match PathToFile(bagPath, dirpath, file)
    case Failure(e) => Failure(e)
    case Success(path) => StatementsRows(path, sts, skip)
  }

  lemma StatementsRowsStep(path: string, sts: seq<Statement>, k: nat, skip: bool)
    requires k < |sts|
    ensures StatementsRows(path, sts[..k + 1], skip) ==
      match StatementsRows(path, sts[..k], skip)
      case Failure(e) => Failure(e)
      case Success(before) =>
        match StatementRows(path, sts[k], skip)
        case Failure(e) => Failure(e)
        case Success(rows) => Success(before + rows)
  {
    assert sts[..k + 1][..k] == sts[..k];
  }

  /** Once a statement's rows cannot be built, the file's rows cannot either. */
  lemma {:induction false} StatementsRowsFailureSticks(path: string, sts: seq<Statement>, k: nat, m: nat, skip: bool)
    requires k <= m <= |sts| && StatementsRows(path, sts[..k], skip).Failure?
    ensures StatementsRows(path, sts[..m], skip) == StatementsRows(path, sts[..k], skip)
    decreases m - k
  {
    if k < m {
      StatementsRowsStep(path, sts, k, skip);
      StatementsRowsFailureSticks(path, sts, k + 1, m, skip);
    }
  }

  lemma KeptGrantsStep(grantRows: seq<Row>, j: nat, skip: bool)
    requires j < |grantRows|
    ensures KeptGrants(grantRows[..j + 1], skip) ==
      KeptGrants(grantRows[..j], skip) + (if skip && grantRows[j] == EmptyGrant then [] else [grantRows[j]])
  {
    assert grantRows[..j + 1][..j] == grantRows[..j];
  }

  lemma LayoutAllSnoc(path: string, basis: seq<Value>, grants: seq<Row>, g: Row)
    requires |basis| == 12
    ensures LayoutAll(path, basis, grants + [g]) == LayoutAll(path, basis, grants) + [Layout(path, basis, g)]
  {
    assert (grants + [g])[..|grants|] == grants;
  }

  /** One more grant row that `skip_no_act` drops: the rows stay as they are. */
  lemma SkippedGrantStep(path: string, basis: seq<Value>, grantRows: seq<Row>, j: nat, skip: bool,
                         rows0: seq<Row>, rows: seq<Row>)
    requires |basis| == 12 && j < |grantRows| && skip && grantRows[j] == EmptyGrant
    requires rows == rows0 + LayoutAll(path, basis, KeptGrants(grantRows[..j], skip))
    ensures rows == rows0 + LayoutAll(path, basis, KeptGrants(grantRows[..j + 1], skip))
  {
    KeptGrantsStep(grantRows, j, skip);
    var kept := KeptGrants(grantRows[..j], skip);
    assert kept + [] == kept;
  }

  /** A kept grant row adds its layout at the end. */
  lemma KeptGrantLaidOut(path: string, basis: seq<Value>, grantRows: seq<Row>, j: nat, skip: bool)
    requires |basis| == 12 && j < |grantRows| && !(skip && grantRows[j] == EmptyGrant)
    ensures LayoutAll(path, basis, KeptGrants(grantRows[..j + 1], skip)) ==
      LayoutAll(path, basis, KeptGrants(grantRows[..j], skip)) + [Layout(path, basis, grantRows[j])]
  {
    KeptGrantsStep(grantRows, j, skip);
    LayoutAllSnoc(path, basis, KeptGrants(grantRows[..j], skip), grantRows[j]);
  }

  /** One more grant row that is kept: it is laid out and appended to the rows. */
  lemma KeptGrantStep(path: string, basis: seq<Value>, grantRows: seq<Row>, j: nat, skip: bool,
                      rows0: seq<Row>, rows: seq<Row>)
    requires |basis| == 12 && j < |grantRows| && !(skip && grantRows[j] == EmptyGrant)
    requires rows == rows0 + LayoutAll(path, basis, KeptGrants(grantRows[..j], skip))
    ensures rows + [Layout(path, basis, grantRows[j])] == rows0 + LayoutAll(path, basis, KeptGrants(grantRows[..j + 1], skip))
  {
    KeptGrantLaidOut(path, basis, grantRows, j, skip);
    AppendOne(rows0, LayoutAll(path, basis, KeptGrants(grantRows[..j], skip)), Layout(path, basis, grantRows[j]));
  }

  lemma AppendOne<T>(front: seq<T>, back: seq<T>, x: T)
    ensures (front + back) + [x] == front + (back + [x])
  {
  }

  /** Every row the grant-list builder produces has the five grant columns. */
  lemma GrantRestrictionRowsWidth(grants: seq<Dict>, g: Row)
    requires GrantRestrictionRows(grants).Success? && g in GrantRestrictionRows(grants).value
    ensures |g| == 5
  {
    if grants != [] {
      var k :| 0 <= k < |GrantRows(grants).value| && GrantRows(grants).value[k] == g;
      GrantRowsInOrder(grants, k);
    }
  }

  /**
   * A statement's rows for a file: as many as its kept grant rows, each
   * with 18 columns, the file path first and grant `i`'s values in columns
   * 10-14.
   */
  lemma StatementRowsShape(path: string, st: Statement, skip: bool, i: nat)
    requires StatementRows(path, st, skip).Success?
    ensures var grantRows := GrantRestrictionRows(st.rightsGranted.value).value;
      var rows := StatementRows(path, st, skip).value;
      && |rows| == |grantRows| - (if skip then multiset(grantRows)[EmptyGrant] else 0)
      && (i < |rows| ==>
            var g := KeptGrants(grantRows, skip)[i];
            && rows[i] == Layout(path, BasisFields(st.fields), g)
            && |rows[i]| == |FieldNames| && rows[i][0] == Str(path)
            && rows[i][10..15] == g && (skip ==> g != EmptyGrant))
  {
    var grantRows := GrantRestrictionRows(st.rightsGranted.value).value;
    var kept := KeptGrants(grantRows, skip);
    KeptGrantsCount(grantRows, skip);
    if i < |kept| {
      LayoutAllAt(path, BasisFields(st.fields), kept, i);
      KeptGrantsMembers(grantRows, skip);
      assert kept[i] in kept;
      GrantRestrictionRowsWidth(st.rightsGranted.value, kept[i]);
      LayoutColumns(path, BasisFields(st.fields), kept[i]);
    }
  }

  /** A statement without grants gives the one row with empty grant columns, or none when `skip_no_act` holds. */
  lemma StatementWithoutGrants(path: string, st: Statement, skip: bool)
    requires st.rightsGranted == Some([])
    ensures StatementRows(path, st, skip) ==
      Success(if skip then [] else [Layout(path, BasisFields(st.fields), EmptyGrant)])
  {
    assert KeptGrants([EmptyGrant], skip) == if skip then [] else [EmptyGrant] by {
      assert [EmptyGrant][..0] == [];
    }
    assert LayoutAll(path, BasisFields(st.fields), [EmptyGrant]) == [Layout(path, BasisFields(st.fields), EmptyGrant)] by {
      assert [EmptyGrant][..0] == [];
    }
  }

  /** Every row built for a file has the 18 columns of the header and starts with the file's path. */
  lemma {:induction false} StatementsRowsWidth(path: string, sts: seq<Statement>, skip: bool)
    requires StatementsRows(path, sts, skip).Success?
    ensures forall row :: row in StatementsRows(path, sts, skip).value ==> |row| == |FieldNames| && row[0] == Str(path)
    decreases |sts|
  {
    if sts != [] {
      var init, last := sts[..|sts| - 1], sts[|sts| - 1];
      StatementsRowsWidth(path, init, skip);
      var before := StatementsRows(path, init, skip).value;
      var rows := StatementRows(path, last, skip).value;
      assert StatementsRows(path, sts, skip).value == before + rows;
      forall row | row in before + rows ensures |row| == |FieldNames| && row[0] == Str(path) {
        if row !in before {
          var i :| 0 <= i < |rows| && rows[i] == row;
          StatementRowsShape(path, last, skip, i);
        }
      }
    }
  }

  // ---------------------------------------------------------------------
  // The whole file (`create_rights_csv`, `setup_csv_file`).
  // ---------------------------------------------------------------------

  /** What `get_rights_rows` gives for each (directory, file) of the walk. */
  function RowsOf(bagPath: string, sts: seq<Statement>, skip: bool): (string, string) -> Result<seq<Row>, RowError>
  {
    (dirpath: string, file: string) => RightsRows(bagPath, sts, skip, dirpath, file)
  }

  lemma RowsOfAgrees(bagPath: string, sts: seq<Statement>, skip: bool)
    ensures forall dirpath, file {:trigger RightsRows(bagPath, sts, skip, dirpath, file)} ::
      RowsOf(bagPath, sts, skip)(dirpath, file) == RightsRows(bagPath, sts, skip, dirpath, file)
  {
  }

  datatype CsvError = RowFailed(reason: RowError) | ValidationFailed

  /**
   * `CsvCreator(am_version, client)`: fails (the constructor's ValueError or
   * IndexError) exactly when the version cannot be read.
   */
  method NewCsvCreator(amVersion: string, client: Csv -> bool) returns (r: Result<CsvCreator, string>)
    ensures r.Success? <==> SkipNoAct(amVersion).Some?
    ensures r.Success? ==>
      fresh(r.value) && r.value.skipNoAct == SkipNoAct(amVersion).value && r.value.client == client
  {
    var skip := SkipNoAct(amVersion);
    if skip.None? {
      return Failure("invalid Archivematica version " + amVersion);
    }
    var creator := new CsvCreator(skip.value, client);
    r := Success(creator);
  }

  class CsvCreator {
    const fieldNames: seq<string> := FieldNames
    const skipNoAct: bool
    /** The service's verdict on an uploaded CSV (`client.validate_csv`). */
    const client: Csv -> bool
    var bagPath: string
    var rightsStatements: seq<Statement>
    var csvFilepath: string

    constructor (skipNoAct: bool, client: Csv -> bool)
      ensures this.skipNoAct == skipNoAct && this.client == client
      ensures bagPath == [] && rightsStatements == [] && csvFilepath == []
    {
      this.skipNoAct := skipNoAct;
      this.client := client;
      bagPath, rightsStatements, csvFilepath := [], [], [];
    }

    /** `setup_csv_file`. */
    method SetupCsvFile(existing: Option<Csv>) returns (csv: Csv)
      ensures existing.None? ==> csv == [FieldNames]
      ensures existing.Some? ==> csv == existing.value
    {
      if existing.None? {
        csv := [fieldNames];
      } else {
        csv := existing.value;
      }
    }

    /** The rows of one statement, appended to `rows` grant by grant (the inner loop of `get_rights_rows`). */
    method AppendStatementRows(path: string, st: Statement, grantRows: seq<Row>, rows0: seq<Row>)
      returns (rows: seq<Row>)
      ensures rows == rows0 + LayoutAll(path, BasisFields(st.fields), KeptGrants(grantRows, skipNoAct))
    {
      ghost var basis := BasisFields(st.fields);
      rows := rows0;
      for j := 0 to |grantRows|
        invariant rows == rows0 + LayoutAll(path, basis, KeptGrants(grantRows[..j], skipNoAct))
      {
        var grantRow := grantRows[j];
        if skipNoAct && grantRow == EmptyGrant {
          SkippedGrantStep(path, basis, grantRows, j, skipNoAct, rows0, rows);
        } else {
          KeptGrantStep(path, basis, grantRows, j, skipNoAct, rows0, rows);
          var row := [Str(path)] + BasisFields(st.fields);
          SpliceIsLayout(path, basis, grantRow);
          row := row[..10] + grantRow + row[10..];
          rows := rows + [row];
        }
      }
      assert grantRows[..|grantRows|] == grantRows;
    }

    /** `get_rights_rows`, loop as written. */
    method GetRightsRows(dirpath: string, file: string) returns (r: Result<seq<Row>, RowError>)
      ensures r == RightsRows(bagPath, rightsStatements, skipNoAct, dirpath, file)
    {
      var p := PathToFile(bagPath, dirpath, file);
      if p.Failure? {
        return Failure(p.error);
      }
      var path := p.value;
      var rows: seq<Row> := [];
      for k := 0 to |rightsStatements|
        invariant StatementsRows(path, rightsStatements[..k], skipNoAct) == Success(rows)
      {
        var st := rightsStatements[k];
        StatementsRowsStep(path, rightsStatements, k, skipNoAct);
        if st.rightsGranted.None? {
          StatementsRowsFailureSticks(path, rightsStatements, k + 1, |rightsStatements|, skipNoAct);
          assert rightsStatements[..|rightsStatements|] == rightsStatements;
          return Failure(MissingKey("rights_granted"));
        }
        var granted := GetGrantRestrictionRows(st.rightsGranted.value);
        if granted.Failure? {
          StatementsRowsFailureSticks(path, rightsStatements, k + 1, |rightsStatements|, skipNoAct);
          assert rightsStatements[..|rightsStatements|] == rightsStatements;
          return Failure(granted.error);
        }
        rows := AppendStatementRows(path, st, granted.value, rows);
      }
      assert rightsStatements[..|rightsStatements|] == rightsStatements;
      r := Success(rows);
    }

    /**
     * The rows of the files of one directory of the walk, file by file (the
     * inner loop of `create_rights_csv`); stops at the first file whose rows
     * cannot be built.
     */
    method WriteEntryRows(ghost rowsOf: (string, string) -> Result<seq<Row>, RowError>,
                          ghost visited: seq<(string, string)>, ghost start: Csv, ghost rows0: seq<Row>,
                          entry: WalkEntry, csv0: Csv)
      returns (csv: Csv, failure: Option<RowError>)
      requires forall dirpath, file {:trigger RightsRows(bagPath, rightsStatements, skipNoAct, dirpath, file)} ::
        rowsOf(dirpath, file) == RightsRows(bagPath, rightsStatements, skipNoAct, dirpath, file)
      requires WalkRows(rowsOf, visited) == (rows0, None)
      requires csv0 == start + RenderRows(rows0)
      ensures var (rows, err) := WalkRows(rowsOf, visited + Pairs(entry));
        failure == err && csv == start + RenderRows(rows)
    {
      csv := csv0;
      ghost var rows := rows0;
      assert visited + Pairs(WalkEntry(entry.dirpath, entry.filenames[..0])) == visited;
      for j := 0 to |entry.filenames|
        invariant WalkRows(rowsOf, visited + Pairs(WalkEntry(entry.dirpath, entry.filenames[..j]))) == (rows, None)
        invariant csv == start + RenderRows(rows)
      {
        ghost var seen := visited + Pairs(WalkEntry(entry.dirpath, entry.filenames[..j]));
        assert visited + Pairs(WalkEntry(entry.dirpath, entry.filenames[..j + 1]))
            == seen + [(entry.dirpath, entry.filenames[j])] by {
          PairsPrefix(entry, j);
        }
        var rightsRows := GetRightsRows(entry.dirpath, entry.filenames[j]);
        WalkRowsSnoc(rowsOf, seen, entry.dirpath, entry.filenames[j]);
        if rightsRows.Failure? {
          assert WalkRows(rowsOf, visited + Pairs(entry)) == (rows, Some(rightsRows.error)) by {
            var done := seen + [(entry.dirpath, entry.filenames[j])];
            var more := Pairs(WalkEntry(entry.dirpath, entry.filenames[j + 1..]));
            PairsAfter(visited, entry, j);
            WalkRowsFailureSticks(rowsOf, done, more);
          }
          return csv, Some(rightsRows.error);
        }
        CsvGrows(start, rows, rightsRows.value);
        rows := rows + rightsRows.value;
        csv := csv + RenderRows(rightsRows.value);
      }
      assert entry.filenames[..|entry.filenames|] == entry.filenames;
      assert WalkRows(rowsOf, visited + Pairs(entry)) == (rows, None);
      failure := None;
    }

    /** The rows of every walked directory, one after the other (the outer loop of `create_rights_csv`). */
    method WriteWalkRows(walk: seq<WalkEntry>, csv0: Csv)
      returns (csv: Csv, failure: Option<RowError>)
      ensures var (rows, err) := WalkRows(RowsOf(bagPath, rightsStatements, skipNoAct), Flatten(walk));
        failure == err && csv == csv0 + RenderRows(rows)
    {
      ghost var rowsOf := RowsOf(bagPath, rightsStatements, skipNoAct);
      RowsOfAgrees(bagPath, rightsStatements, skipNoAct);
      csv := csv0;
      ghost var rows: seq<Row> := [];
      for i := 0 to |walk|
        invariant WalkRows(rowsOf, Flatten(walk[..i])) == (rows, None)
        invariant csv == csv0 + RenderRows(rows)
      {
        assert Flatten(walk[..i + 1]) == Flatten(walk[..i]) + Pairs(walk[i]) by {
          assert walk[..i + 1][..i] == walk[..i];
        }
        csv, failure := WriteEntryRows(rowsOf, Flatten(walk[..i]), csv0, rows, walk[i], csv);
        rows := WalkRows(rowsOf, Flatten(walk[..i]) + Pairs(walk[i])).0;
        if failure.Some? {
          assert WalkRows(rowsOf, Flatten(walk)) == (rows, failure) by {
            Reassemble(walk, i + 1);
            FlattenAppend(walk[..i + 1], walk[i + 1..]);
            WalkRowsFailureSticks(rowsOf, Flatten(walk[..i + 1]), Flatten(walk[i + 1..]));
          }
          return;
        }
      }
      assert walk[..|walk|] == walk;
      assert WalkRows(rowsOf, Flatten(walk)) == (rows, None);
      failure := None;
    }

    /** `create_rights_csv`: header or append, the rows of every walked file, then validation. */
    method CreateRightsCsv(bagPath: string, rightsStatements: seq<Statement>, walk: seq<WalkEntry>,
                           existing: Option<Csv>)
      returns (r: Result<string, CsvError>, csv: Csv)
      modifies this
      ensures this.bagPath == bagPath && this.rightsStatements == rightsStatements
      ensures csvFilepath == RightsCsvPath(bagPath)
      ensures var (rows, err) := WalkRows(RowsOf(bagPath, rightsStatements, skipNoAct), Flatten(walk));
        && csv == CsvStart(existing) + RenderRows(rows)
        && (err.Some? ==> r == Failure(RowFailed(err.value)))
        && (err.None? ==> r == if client(csv) then Success("CSV " + csvFilepath + " created.")
                               else Failure(ValidationFailed))
    {
      this.bagPath := bagPath;
      this.rightsStatements := rightsStatements;
      csvFilepath := RightsCsvPath(bagPath);
      csv := SetupCsvFile(existing);
      var failure;
      csv, failure := WriteWalkRows(walk, csv);
      ghost var rows := WalkRows(RowsOf(bagPath, rightsStatements, skipNoAct), Flatten(walk)).0;
      assert csv == CsvStart(existing) + RenderRows(rows);
      if failure.Some? {
        return Failure(RowFailed(failure.value)), csv;
      }
      if client(csv) {
        r := Success("CSV " + csvFilepath + " created.");
      } else {
        r := Failure(ValidationFailed);
      }
    }
  }
}
