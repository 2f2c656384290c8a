/**
 * Rights statements as the package metadata carries them (JSON objects), and
 * the 18-column PREMIS rights row that every CSV builder emits.
 */
module Rights {
  import opened Common
  import opened Text
  import opened Paths

  /** A JSON scalar: `null` or a string. */
  datatype Value = Null | Str(s: string)

  /** A JSON object of scalars (a rights statement or a granted right). */
  type Dict = map<string, Value>

  /** `d.get(key, default)`. */
  function Get(d: Dict, key: string, default: Value): Value
  {
    if key in d then d[key] else default
  }

  /** Python truthiness of a scalar: a non-empty string. */
  predicate Truthy(v: Value) { v.Str? && v.s != [] }

  /** `d.get(first) if d.get(first) else d.get(second)`. */
  function Prefer(d: Dict, first: string, second: string): (v: Value)
  {
    if Truthy(Get(d, first, Null)) then d[first] else Get(d, second, Null)
  }

  /**
   * A rights statement: its scalar fields and its `rights_granted` list
   * (None when that key is missing or null).
   */
  datatype Statement = Statement(fields: Dict, rightsGranted: Option<seq<Dict>>)

  /** A row as the builders assemble it, before the CSV writer renders it. */
  type Row = seq<Value>

  /** A row as it stands in the CSV file. */
  type Record = seq<string>

  /** The content of a CSV file, one record per line. */
  type Csv = seq<Record>

  /** The CSV header (`field_names` / `firstrow`). */
  const FieldNames: seq<string> := [
    "file", "basis", "status", "determination_date", "jurisdiction",
    "start_date", "end_date", "terms", "citation", "note", "grant_act",
    "grant_restriction", "grant_start_date", "grant_end_date",
    "grant_note", "doc_id_type", "doc_id_value", "doc_id_role"]

  /** `csv.writer` writes `None` as an empty field. */
  function Render(v: Value): string
  {
    match v
    case Null => ""
    case Str(s) => s
  }

  function RenderRow(row: Row): (r: Record)
  {
    seq(|row|, i requires 0 <= i < |row| => Render(row[i]))
  }

  function RenderRows(rows: seq<Row>): (r: Csv)
  {
    seq(|rows|, i requires 0 <= i < |rows| => RenderRow(rows[i]))
  }

  lemma RenderRowsAppend(a: seq<Row>, b: seq<Row>)
    ensures RenderRows(a + b) == RenderRows(a) + RenderRows(b)
  {
    assert forall i :: 0 <= i < |a| ==> (a + b)[i] == a[i];
    assert forall i :: |a| <= i < |a| + |b| ==> (a + b)[i] == b[i - |a|];
  }

  /** The five grant columns of a statement that grants nothing: `[''] * 5`. */
  const EmptyGrant: Row := [Str(""), Str(""), Str(""), Str(""), Str("")]

  /**
   * The column layout shared by every builder: the file, the first nine
   * basis values, the five grant values, then the three document-identifier
   * values.
   */
  function Layout(path: string, basis: seq<Value>, grant: Row): Row
    requires |basis| == 12
  {
    [Str(path)] + basis[..9] + grant + basis[9..]
  }

  /** Where each part of a laid-out row ends up. */
  lemma LayoutColumns(path: string, basis: seq<Value>, grant: Row)
    requires |basis| == 12 && |grant| == 5
    ensures var row := Layout(path, basis, grant);
      && |row| == |FieldNames| == 18
      && row[0] == Str(path)
      && (forall k :: 1 <= k < 10 ==> row[k] == basis[k - 1])
      && (forall k :: 10 <= k < 15 ==> row[k] == grant[k - 10])
      && (forall k :: 15 <= k < 18 ==> row[k] == basis[k - 6])
  {
  }

  /** Putting the grant values at index 10 of `[file] + basis` gives the shared column layout. */
  lemma SpliceIsLayout(path: string, basis: seq<Value>, grant: Row)
    requires |basis| == 12
    ensures var row := [Str(path)] + basis; row[..10] + grant + row[10..] == Layout(path, basis, grant)
  {
    var row := [Str(path)] + basis;
    assert row[..10] == [Str(path)] + basis[..9];
    assert row[10..] == basis[9..];
  }

  /** Why a rights row cannot be built (the KeyError or TypeError the source raises). */
  datatype RowError =
    | MissingKey(key: string)       // `d[key]` on a dictionary without `key`
    | NoGrantList                   // `rights_granted` missing or null
    | PathOutsideBag                // `dirpath.split(bag_path)[1]` has no second piece
    | EmptyBagPath                  // `str.split('')` raises ValueError

  /** One triple of `os.walk`: a directory and the names of the files in it. */
  datatype WalkEntry = WalkEntry(dirpath: string, filenames: seq<string>)

  /** The files of one directory, each paired with the directory. */
  function Pairs(e: WalkEntry): (r: seq<(string, string)>)
  {
    seq(|e.filenames|, k requires 0 <= k < |e.filenames| => (e.dirpath, e.filenames[k]))
  }

  lemma PairsPrefix(e: WalkEntry, j: nat)
    requires j < |e.filenames|
    ensures Pairs(WalkEntry(e.dirpath, e.filenames[..j + 1]))
      == Pairs(WalkEntry(e.dirpath, e.filenames[..j])) + [(e.dirpath, e.filenames[j])]
  {
  }

  /** Every (directory, file) the walk visits, in walk order. */
  function Flatten(walk: seq<WalkEntry>): seq<(string, string)>
  {
    if walk == [] then [] else Flatten(walk[..|walk| - 1]) + Pairs(walk[|walk| - 1])
  }

  // ---------------------------------------------------------------------
  // Walking the objects directory and writing rows.
  // ---------------------------------------------------------------------

  /** `path.join(dirpath.split(bag_path)[1], file).lstrip('/')`. */
  function PathToFile(bagPath: string, dirpath: string, file: string): Result<string, RowError>
  {
    if bagPath == [] then Failure(EmptyBagPath)
    else
      var parts := Split(dirpath, bagPath);
      if |parts| < 2 then Failure(PathOutsideBag)
      else Success(LStrip(Join(parts[1], file), '/'))
  }

  /**
   * Rows written for the visited files, given the rows of each file, up to
   * the first file whose rows cannot be built (whose error is then reported).
   */
  function WalkRows(rowsOf: (string, string) -> Result<seq<Row>, RowError>, files: seq<(string, string)>)
    : (seq<Row>, Option<RowError>)
  {
    if files == [] then ([], None)
    else
      var (before, err) := WalkRows(rowsOf, files[..|files| - 1]);
      if err.Some? then (before, err)
      else
        var (dirpath, file) := files[|files| - 1];
        match rowsOf(dirpath, file)
        case Failure(e) => (before, Some(e))
        case Success(rows) => (before + rows, None)
  }

  /** Once a file fails, the files walked after it write nothing and the failure stays. */
  lemma {:induction false} WalkRowsFailureSticks(rowsOf: (string, string) -> Result<seq<Row>, RowError>,
                                                 files: seq<(string, string)>, more: seq<(string, string)>)
    requires WalkRows(rowsOf, files).1.Some?
    ensures WalkRows(rowsOf, files + more) == WalkRows(rowsOf, files)
    decreases |more|
  {
    if more != [] {
      var init := more[..|more| - 1];
      WalkRowsFailureSticks(rowsOf, files, init);
      assert (files + more)[..|files + more| - 1] == files + init;
      assert WalkRows(rowsOf, files + init).1.Some?;
    } else {
      assert files + more == files;
    }
  }

  /** One more file: its rows are added, or its failure is recorded. */
  lemma WalkRowsSnoc(rowsOf: (string, string) -> Result<seq<Row>, RowError>,
                     visited: seq<(string, string)>, dirpath: string, file: string)
    requires WalkRows(rowsOf, visited).1.None?
    ensures var rows := WalkRows(rowsOf, visited).0;
      WalkRows(rowsOf, visited + [(dirpath, file)]) ==
        match rowsOf(dirpath, file)
        case Failure(e) => (rows, Some(e))
        case Success(more) => (rows + more, None)
  {
    assert (visited + [(dirpath, file)])[..|visited|] == visited;
  }

  lemma {:induction false} FlattenAppend(a: seq<WalkEntry>, b: seq<WalkEntry>)
    ensures Flatten(a + b) == Flatten(a) + Flatten(b)
    decreases |b|
  {
    if b != [] {
      var init := b[..|b| - 1];
      FlattenAppend(a, init);
      assert (a + b)[..|a + b| - 1] == a + init;
      assert (a + b)[|a + b| - 1] == b[|b| - 1];
      calc {
        Flatten(a + b);
        Flatten(a + init) + Pairs(b[|b| - 1]);
        Flatten(a) + Flatten(init) + Pairs(b[|b| - 1]);
        Flatten(a) + Flatten(b);
      }
    } else {
      assert a + b == a;
    }
  }

  /** Writing more rows after the ones already written. */
  lemma CsvGrows(start: Csv, rows: seq<Row>, more: seq<Row>)
    ensures start + RenderRows(rows) + RenderRows(more) == start + RenderRows(rows + more)
  {
    RenderRowsAppend(rows, more);
  }

  /** The files of a directory after file `j` follow the ones up to it. */
  lemma PairsAfter(visited: seq<(string, string)>, e: WalkEntry, j: nat)
    requires j < |e.filenames|
    ensures visited + Pairs(e) ==
      (visited + Pairs(WalkEntry(e.dirpath, e.filenames[..j])) + [(e.dirpath, e.filenames[j])])
      + Pairs(WalkEntry(e.dirpath, e.filenames[j + 1..]))
  {
    var before := Pairs(WalkEntry(e.dirpath, e.filenames[..j]));
    var file := (e.dirpath, e.filenames[j]);
    var after := Pairs(WalkEntry(e.dirpath, e.filenames[j + 1..]));
    assert Pairs(e) == before + [file] + after by {
      forall k | 0 <= k < |Pairs(e)| ensures Pairs(e)[k] == (before + [file] + after)[k] {
        if k > j {
          assert after[k - j - 1] == (e.dirpath, e.filenames[j + 1..][k - j - 1]);
        }
      }
    }
    assert visited + (before + [file] + after) == (visited + before + [file]) + after;
  }

  /** `setup_csv_file`: a new file starts with the header; an existing one is appended to. */
  function CsvStart(existing: Option<Csv>): Csv
  {
    if existing.None? then [FieldNames] else existing.value
  }

  /** `path.join(bag_path, 'data', 'metadata', 'rights.csv')`. */
  function RightsCsvPath(bagPath: string): string
  {
    Join(Join(Join(bagPath, "data"), "metadata"), "rights.csv")
  }
}
