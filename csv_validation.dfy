/**
 * The rights.csv validation rules (`validate_rights_csv` in
 * sip_assembly/routines_helpers.py and sip_assembly/library.py), as pure
 * predicates over the records read back from the file.
 */
module RightsCsvValidation {
  import opened Common
  import opened Text
  import opened Rights

  /** `basis` values accepted by routines_helpers: either capitalisation. */
  const AnyCaseBases: set<string> :=
    {"copyright", "Copyright", "statute", "Statute", "license", "License", "other", "Other"}

  /** `basis` values accepted by library: capitalised only. */
  const CapitalisedBases: set<string> := {"Copyright", "Statute", "License", "Other"}

  const Statuses: set<string> := {"copyrighted", "public domain", "unknown", ""}

  const Acts: set<string> :=
    {"publish", "disseminate", "replicate", "migrate", "modify", "use", "delete"}

  const Restrictions: set<string> := {"allow", "disallow", "conditional"}

  // Column indices, in the order of FieldNames.
  const BasisColumn := 1
  const StatusColumn := 2
  const ActColumn := 10
  const RestrictionColumn := 11

  lemma ColumnNames()
    ensures FieldNames[BasisColumn] == "basis" && FieldNames[StatusColumn] == "status"
    ensures FieldNames[ActColumn] == "grant_act" && FieldNames[RestrictionColumn] == "grant_restriction"
    ensures FieldNames[3] == "determination_date" && FieldNames[5] == "start_date"
    ensures FieldNames[6] == "end_date" && FieldNames[12] == "grant_start_date"
    ensures FieldNames[13] == "grant_end_date"
  {
  }

  // ---------------------------------------------------------------------
  // `datetime.strptime(field, '%Y-%m-%d')` on ASCII text.
  // ---------------------------------------------------------------------

  function DigitValue(c: char): nat
    requires IsDigit(c)
  {
    (c - '0') as nat
  }

  predicate IsLeapYear(y: nat)
  {
    y % 4 == 0 && (y % 100 != 0 || y % 400 == 0)
  }

  function DaysInMonth(y: nat, m: nat): nat
  {
    if m == 2 then (if IsLeapYear(y) then 29 else 28)
    else if m == 4 || m == 6 || m == 9 || m == 11 then 30
    else 31
  }

  /**
   * The `%m` group `1[0-2]|0[1-9]|[1-9]` followed by the literal `-`:
   * the month and the index just after the dash.
   */
  function MatchMonthDash(s: string, i: nat): (r: Option<(nat, nat)>)
    ensures r.Some? ==> 1 <= r.value.0 <= 12 && i < r.value.1 <= |s|
  {
    if i + 2 < |s| && s[i] == '1' && '0' <= s[i + 1] <= '2' && s[i + 2] == '-' then
      Some((10 + DigitValue(s[i + 1]), i + 3))
    else if i + 2 < |s| && s[i] == '0' && '1' <= s[i + 1] <= '9' && s[i + 2] == '-' then
      Some((DigitValue(s[i + 1]), i + 3))
    else if i + 1 < |s| && '1' <= s[i] <= '9' && s[i + 1] == '-' then
      Some((DigitValue(s[i]), i + 2))
    else None
  }

  /**
   * The `%d` group `3[01]|[12]\d|0[1-9]|[1-9]| [1-9]`: the first alternative
   * that matches, as the regular expression engine takes it.
   */
  function MatchDay(s: string, i: nat): (r: Option<(nat, nat)>)
    ensures r.Some? ==> 1 <= r.value.0 <= 31 && i < r.value.1 <= |s|
  {
    if i + 1 < |s| && s[i] == '3' && '0' <= s[i + 1] <= '1' then
      Some((30 + DigitValue(s[i + 1]), i + 2))
    else if i + 1 < |s| && '1' <= s[i] <= '2' && IsDigit(s[i + 1]) then
      Some((10 * DigitValue(s[i]) + DigitValue(s[i + 1]), i + 2))
    else if i + 1 < |s| && s[i] == '0' && '1' <= s[i + 1] <= '9' then
      Some((DigitValue(s[i + 1]), i + 2))
    else if i < |s| && '1' <= s[i] <= '9' then
      Some((DigitValue(s[i]), i + 1))
    else if i + 1 < |s| && s[i] == ' ' && '1' <= s[i + 1] <= '9' then
      Some((DigitValue(s[i + 1]), i + 2))
    else None
  }

  /**
   * Does `strptime(s, '%Y-%m-%d')` succeed? Four digits, a dash, the month
   * group and a dash, the day group, nothing left over, and an existing
   * calendar date in a year from 1 on.
   */
  predicate IsDate(s: string)
  {
    && |s| > 4 && AllDigits(s[..4]) && s[4] == '-'
    && var year := DigitsValue(s[..4]);
    && match MatchMonthDash(s, 5)
       case None => false
       case Some((month, j)) =>
         match MatchDay(s, j)
         case None => false
         case Some((day, k)) => k == |s| && year >= 1 && day <= DaysInMonth(year, month)
  }

  /** One date field passes when it parses or is the literal `OPEN`. */
  predicate DateOk(s: string)
  {
    IsDate(s) || s == "OPEN"
  }

  lemma FourDigits(s: string)
    requires |s| == 4 && AllDigits(s)
    ensures DigitsValue(s) == 1000 * DigitValue(s[0]) + 100 * DigitValue(s[1]) + 10 * DigitValue(s[2]) + DigitValue(s[3])
  {
    var a, b, c := s[..1], s[..2], s[..3];
    assert a[..0] == [] && b[..1] == a && c[..2] == b && s[..3] == c;
    assert DigitsValue(a) == DigitValue(s[0]);
    assert DigitsValue(b) == 10 * DigitValue(s[0]) + DigitValue(s[1]);
    assert DigitsValue(c) == 100 * DigitValue(s[0]) + 10 * DigitValue(s[1]) + DigitValue(s[2]);
  }

  /** The digit character for `n < 10`. */
  function DigitChar(n: nat): (c: char)
    requires n < 10
    ensures IsDigit(c) && DigitValue(c) == n
  {
    ('0' as int + n) as char
  }

  /** `date(y, m, d).isoformat()`: a four-digit year, then a two-digit month and day. */
  function IsoDate(y: nat, m: nat, d: nat): string
    requires y < 10000 && m < 100 && d < 100
  {
    [DigitChar(y / 1000), DigitChar(y / 100 % 10), DigitChar(y / 10 % 10), DigitChar(y % 10), '-',
     DigitChar(m / 10), DigitChar(m % 10), '-', DigitChar(d / 10), DigitChar(d % 10)]
  }

  /**
   * A zero-padded date whose year, month and day lie in the ranges of `%Y`,
   * `%m` and `%d` parses exactly when the day exists in that month of that
   * year.
   */
  lemma IsoDateIsDate(y: nat, m: nat, d: nat)
    requires 1 <= y <= 9999 && 1 <= m <= 12 && 1 <= d <= 31
    ensures IsDate(IsoDate(y, m, d)) <==> d <= DaysInMonth(y, m)
  {
    var s := IsoDate(y, m, d);
    PaddedYear(y);
    assert s[..4] == [DigitChar(y / 1000), DigitChar(y / 100 % 10), DigitChar(y / 10 % 10), DigitChar(y % 10)];
    PaddedMonth(s, m);
    PaddedDay(s, d);
  }

  lemma PaddedYear(y: nat)
    requires y <= 9999
    ensures var t := [DigitChar(y / 1000), DigitChar(y / 100 % 10), DigitChar(y / 10 % 10), DigitChar(y % 10)];
      AllDigits(t) && DigitsValue(t) == y
  {
    var t := [DigitChar(y / 1000), DigitChar(y / 100 % 10), DigitChar(y / 10 % 10), DigitChar(y % 10)];
    FourDigits(t);
    YearDigits(y);
  }

  lemma YearDigits(y: nat)
    requires y <= 9999
    ensures 1000 * (y / 1000) + 100 * (y / 100 % 10) + 10 * (y / 10 % 10) + y % 10 == y
  {
    var a, r := y / 1000, y % 1000;
    assert y / 100 == 10 * a + r / 100;
    assert y / 10 == 100 * a + r / 10;
    assert r / 10 == 10 * (r / 100) + r / 10 % 10;
  }

  lemma PaddedMonth(s: string, m: nat)
    requires 1 <= m <= 12 && |s| >= 8
    requires s[5] == DigitChar(m / 10) && s[6] == DigitChar(m % 10) && s[7] == '-'
    ensures MatchMonthDash(s, 5) == Some((m, 8))
  {
  }

  lemma PaddedDay(s: string, d: nat)
    requires 1 <= d <= 31 && |s| == 10
    requires s[8] == DigitChar(d / 10) && s[9] == DigitChar(d % 10)
    ensures MatchDay(s, 8) == Some((d, 10))
  {
  }

  lemma LeapDayExamples()
    ensures IsDate("2020-02-29")
  {
    var leap := "2020-02-29";
    assert leap[..4] == "2020";
    FourDigits("2020");
    assert MatchMonthDash(leap, 5) == Some((2, 8)) && MatchDay(leap, 8) == Some((29, 10));
  }

  lemma CommonYearExamples()
    ensures !IsDate("2019-02-29")
  {
    var common := "2019-02-29";
    assert common[..4] == "2019";
    FourDigits("2019");
    assert MatchMonthDash(common, 5) == Some((2, 8)) && MatchDay(common, 8) == Some((29, 10));
  }

  lemma ShapeExamples()
    ensures IsDate("2021-01-01") && IsDate("2021-1-5")
  {
    var padded, bare := "2021-01-01", "2021-1-5";
    assert padded[..4] == "2021" && bare[..4] == "2021";
    FourDigits("2021");
    assert MatchMonthDash(padded, 5) == Some((1, 8)) && MatchDay(padded, 8) == Some((1, 10));
    assert MatchMonthDash(bare, 5) == Some((1, 7)) && MatchDay(bare, 7) == Some((5, 8));
  }

  lemma OutOfRangeExamples()
    ensures !IsDate("2021-13-01") && !IsDate("2021-01-32") && !DateOk("")
  {
    var month, day := "2021-13-01", "2021-01-32";
    assert MatchMonthDash(month, 5) == None;
    assert MatchMonthDash(day, 5) == Some((1, 8)) && MatchDay(day, 8) == Some((3, 9));
  }

  lemma YearZeroIsRejected()
    ensures !IsDate("0000-01-01")
  {
    assert "0000-01-01"[..4] == "0000";
    FourDigits("0000");
  }

  // ---------------------------------------------------------------------
  // The record check `check_dates`.
  // ---------------------------------------------------------------------

  /** The record as a dictionary: a field beyond the end of the row is `None`. */
  function FieldAt(r: Record, i: nat): Option<string>
  {
    if i < |r| then Some(r[i]) else None
  }

  /**
   * The list `check_dates` walks: determination_date, start_date, end_date,
   * grant_start_date, grant_end_date.
   */
  function DateFields(r: Record): seq<Option<string>>
  {
    [FieldAt(r, 3), FieldAt(r, 5), FieldAt(r, 6), FieldAt(r, 12), FieldAt(r, 13)]
  }

  /** What `check_dates` does with a record: passes, raises RecordError, or raises TypeError. */
  datatype DateCheck = DatesPass | DatesFail | DatesUnreadable

  /**
   * The verdict of `check_dates` as written: `valid` is overwritten on every
   * pass of the loop and only examined after it, so only `grant_end_date`
   * decides; a row too short to have that column makes strptime raise on a None.
   */
  function DateVerdict(r: Record): DateCheck
  {
    if |r| < 14 then DatesUnreadable
    else if DateOk(r[13]) then DatesPass
    else DatesFail
  }

  /** `check_dates`, loop as written. */
  method CheckDates(r: Record) returns (verdict: DateCheck)
    ensures verdict == DateVerdict(r)
  {
    var fields := DateFields(r);
    var valid := false;
    for k := 0 to |fields|
      invariant forall j :: 0 <= j < k ==> fields[j].Some?
      invariant k > 0 ==> valid == DateOk(fields[k - 1].value)
    {
      if fields[k].None? {
        // strptime(None, ...) raises TypeError, reported as an unexpected exception
        return DatesUnreadable;
      }
      var format := IsDate(fields[k].value);
      valid := format || fields[k].value == "OPEN";
    }
    verdict := if valid then DatesPass else DatesFail;
  }

  /** A malformed determination date passes as long as grant_end_date is `OPEN`. */
  lemma EarlierDatesAreNotChecked(r: Record)
    requires |r| == 18 && r[13] == "OPEN"
    ensures DateVerdict(r[3 := "not a date"][5 := "later"][12 := ""]) == DatesPass
  {
  }

  // ---------------------------------------------------------------------
  // The whole validator.
  // ---------------------------------------------------------------------

  /** One reported violation: the rule's code and the 1-based line. */
  datatype Problem = Problem(code: string, row: nat)

  /** One `add_value_check` with an `enumeration`: the column, its allowed values, the problem code. */
  datatype ValueCheck = ValueCheck(column: nat, allowed: set<string>, code: string)

  /** The enumeration checks, in the order they are added to the validator (EX3 to EX6). */
  function ValueChecks(bases: set<string>): seq<ValueCheck>
  {
    [ValueCheck(BasisColumn, bases, "EX3"), ValueCheck(StatusColumn, Statuses, "EX4"),
     ValueCheck(ActColumn, Acts, "EX5"), ValueCheck(RestrictionColumn, Restrictions, "EX6")]
  }

  /** A value check fails on a row that reaches its column with a value outside the enumeration. */
  predicate ValueCheckFails(r: Record, c: ValueCheck)
  {
    c.column < |r| && r[c.column] !in c.allowed
  }

  /** The problems of the value checks `checks` on one row, in order. */
  function ValueProblems(r: Record, checks: seq<ValueCheck>, line: nat): seq<Problem>
  {
    if checks == [] then []
    else
      var here := if ValueCheckFails(r, checks[0]) then [Problem(checks[0].code, line)] else [];
      here + ValueProblems(r, checks[1..], line)
  }

  /** The value checks report nothing exactly when none fails, and every report names the row's line. */
  lemma {:induction false} ValueProblemsEmpty(r: Record, checks: seq<ValueCheck>, line: nat)
    ensures ValueProblems(r, checks, line) == [] <==> forall k :: 0 <= k < |checks| ==> !ValueCheckFails(r, checks[k])
    ensures forall p :: p in ValueProblems(r, checks, line) ==> p.row == line
  {
    if checks != [] {
      ValueProblemsEmpty(r, checks[1..], line);
      var here := if ValueCheckFails(r, checks[0]) then [Problem(checks[0].code, line)] else [];
      var rest := ValueProblems(r, checks[1..], line);
      assert ValueProblems(r, checks, line) == here + rest;
      assert forall k :: 1 <= k < |checks| ==> checks[k] == checks[1..][k - 1];
    }
  }

  /**
   * Problems of one data row, in the order the validator reports them: the
   * value checks (EX3 to EX6), the record length (EX2), then the date record
   * check (EX8, or the validator's code for an unexpected exception when the
   * row is too short to hold a date). The `str` checks (EX7) cannot fail on
   * text read from a CSV file.
   */
  function RowProblems(r: Record, line: nat, bases: set<string>): seq<Problem>
  {
    ValueProblems(r, ValueChecks(bases), line)
    + (if |r| != |FieldNames| then [Problem("EX2", line)] else [])
    + match DateVerdict(r)
      case DatesPass => []
      case DatesFail => [Problem("EX8", line)]
      case DatesUnreadable => [Problem("UNEXPECTED_EXCEPTION", line)]
  }

  /** Problems of the data rows from index `i` on. */
  function DataProblems(csv: Csv, i: nat, bases: set<string>): seq<Problem>
    requires i <= |csv|
    decreases |csv| - i
  {
    if i == |csv| then [] else RowProblems(csv[i], i + 1, bases) + DataProblems(csv, i + 1, bases)
  }

  /** Every problem of the file: the header check (EX1) on line 1, then each data row. */
  function Problems(csv: Csv, bases: set<string>): seq<Problem>
  {
    if csv == [] then []
    else (if csv[0] != FieldNames then [Problem("EX1", 1)] else []) + DataProblems(csv, 1, bases)
  }

  /** A data row that satisfies every rule. */
  predicate RowAcceptable(r: Record, bases: set<string>)
  {
    && |r| == 18
    && r[1] in bases && r[2] in Statuses && r[10] in Acts && r[11] in Restrictions
    && DateOk(r[13])
  }

  /** A file the validator passes: empty, or the exact header followed by acceptable rows. */
  predicate CsvAcceptable(csv: Csv, bases: set<string>)
  {
    csv == [] || (csv[0] == FieldNames && forall i :: 1 <= i < |csv| ==> RowAcceptable(csv[i], bases))
  }

  lemma RowProblemsEmpty(r: Record, line: nat, bases: set<string>)
    ensures RowProblems(r, line, bases) == [] <==> RowAcceptable(r, bases)
    ensures forall p :: p in RowProblems(r, line, bases) ==> p.row == line
  {
    var checks := ValueChecks(bases);
    ValueProblemsEmpty(r, checks, line);
    if |r| == |FieldNames| {
      assert (forall k :: 0 <= k < |checks| ==> !ValueCheckFails(r, checks[k])) <==>
        r[1] in bases && r[2] in Statuses && r[10] in Acts && r[11] in Restrictions by {
        assert checks[0].column == 1 && checks[1].column == 2 && checks[2].column == 10 && checks[3].column == 11;
      }
    }
  }

  lemma {:induction false} DataProblemsEmpty(csv: Csv, i: nat, bases: set<string>)
    requires i <= |csv|
    ensures DataProblems(csv, i, bases) == [] <==> forall j :: i <= j < |csv| ==> RowAcceptable(csv[j], bases)
    decreases |csv| - i
  {
    if i < |csv| {
      var here, rest := RowProblems(csv[i], i + 1, bases), DataProblems(csv, i + 1, bases);
      assert DataProblems(csv, i, bases) == here + rest;
      assert here + rest == [] <==> here == [] && rest == [] by {
        if here + rest == [] { assert |here + rest| == |here| + |rest|; }
      }
      RowProblemsEmpty(csv[i], i + 1, bases);
      DataProblemsEmpty(csv, i + 1, bases);
      assert (forall j :: i <= j < |csv| ==> RowAcceptable(csv[j], bases)) <==>
        RowAcceptable(csv[i], bases) && forall j :: i + 1 <= j < |csv| ==> RowAcceptable(csv[j], bases);
    }
  }

  /** The validator reports nothing exactly when the file satisfies every rule. */
  lemma ProblemsEmptyIff(csv: Csv, bases: set<string>)
    ensures Problems(csv, bases) == [] <==> CsvAcceptable(csv, bases)
  {
    if csv != [] {
      DataProblemsEmpty(csv, 1, bases);
    }
  }

  /** A problem of one row names that row's line, and the row breaks a rule. */
  lemma RowProblemIsBad(r: Record, line: nat, p: Problem, bases: set<string>)
    requires p in RowProblems(r, line, bases)
    ensures p.row == line && !RowAcceptable(r, bases)
  {
    RowProblemsEmpty(r, line, bases);
  }

  /** A row that breaks a rule gets at least one problem. */
  lemma BadRowIsReported(r: Record, line: nat, bases: set<string>)
    requires !RowAcceptable(r, bases)
    ensures RowProblems(r, line, bases) != [] && RowProblems(r, line, bases)[0].row == line
  {
    RowProblemsEmpty(r, line, bases);
    assert RowProblems(r, line, bases)[0] in RowProblems(r, line, bases);
  }

  /** Each problem reported for the data rows names a line that breaks a rule. */
  lemma {:induction false} DataProblemSound(csv: Csv, i: nat, p: Problem, bases: set<string>)
    requires 1 <= i <= |csv| && p in DataProblems(csv, i, bases)
    ensures i + 1 <= p.row <= |csv| && !RowAcceptable(csv[p.row - 1], bases)
    decreases |csv| - i
  {
    var here := RowProblems(csv[i], i + 1, bases);
    var rest := DataProblems(csv, i + 1, bases);
    assert DataProblems(csv, i, bases) == here + rest;
    if p in here {
      RowProblemIsBad(csv[i], i + 1, p, bases);
    } else {
      assert p in rest;
      DataProblemSound(csv, i + 1, p, bases);
    }
  }

  /** Every data row that breaks a rule is reported. */
  lemma {:induction false} DataProblemsComplete(csv: Csv, i: nat, j: nat, bases: set<string>) returns (p: Problem)
    requires 1 <= i <= j < |csv| && !RowAcceptable(csv[j], bases)
    ensures p in DataProblems(csv, i, bases) && p.row == j + 1
    decreases j - i
  {
    var here := RowProblems(csv[i], i + 1, bases);
    var rest := DataProblems(csv, i + 1, bases);
    assert DataProblems(csv, i, bases) == here + rest;
    if j == i {
      BadRowIsReported(csv[i], i + 1, bases);
      p := here[0];
    } else {
      p := DataProblemsComplete(csv, i + 1, j, bases);
      assert p in rest;
    }
  }

  /** Each problem reported for the data rows names a data line that breaks a rule. */
  lemma DataProblemsAreBadRows(csv: Csv, bases: set<string>)
    requires csv != []
    ensures forall p :: p in DataProblems(csv, 1, bases) ==> 2 <= p.row <= |csv| && !RowAcceptable(csv[p.row - 1], bases)
  {
    forall p | p in DataProblems(csv, 1, bases) ensures 2 <= p.row <= |csv| && !RowAcceptable(csv[p.row - 1], bases) {
      DataProblemSound(csv, 1, p, bases);
    }
  }

  /** Each reported problem names a line that breaks a rule. */
  lemma ProblemsAreBadRows(csv: Csv, bases: set<string>)
    requires csv != []
    ensures forall p :: p in Problems(csv, bases) ==>
      (p.row == 1 && csv[0] != FieldNames) || (2 <= p.row <= |csv| && !RowAcceptable(csv[p.row - 1], bases))
  {
    DataProblemsAreBadRows(csv, bases);
    var head := if csv[0] != FieldNames then [Problem("EX1", 1)] else [];
    assert Problems(csv, bases) == head + DataProblems(csv, 1, bases);
  }

  /** Every data line that breaks a rule is reported, under its line number. */
  lemma BadRowsAreProblems(csv: Csv, bases: set<string>)
    ensures forall j :: 1 <= j < |csv| && !RowAcceptable(csv[j], bases) ==>
      exists p: Problem :: p in Problems(csv, bases) && p.row == j + 1
  {
    if csv != [] {
      var head := if csv[0] != FieldNames then [Problem("EX1", 1)] else [];
      var data := DataProblems(csv, 1, bases);
      assert Problems(csv, bases) == head + data;
      forall j | 1 <= j < |csv| && !RowAcceptable(csv[j], bases)
        ensures exists p: Problem :: p in head + data && p.row == j + 1
      {
        var p := DataProblemsComplete(csv, 1, j, bases);
        assert p in head + data;
      }
    }
  }
}
