/** What both Findaway report parsers share: the 19 expected column headers and their check,
    the `Period:` line of the Summary sheet, and the errors a report can raise. The two
    parsers carry identical copies of this code. */
module ReportFormat {
  import opened Wrappers
  import opened Text
  import opened Decimals
  import opened Calendar
  import opened Workbook

  /** Every way parsing a report can fail, one per exception the parsers raise. */
  datatype ReportError =
    | MissingSheet(sheet: string)                       // KeyError from `wb[name]`
    | IndexOutOfRange                                   // IndexError from `row[i]`
    | NotText(cell: Cell)                               // TypeError from `re.match` on a non-string
    | UnknownMonth(month: string)                       // KeyError from `MONTH_NAMES[name]`
    | YearOutOfRange(year: int)                         // ValueError from `date(year, month, 1)`
    | InvalidAmount(text: string)                       // InvalidOperation from `Decimal(text)`
    | PeriodNotFound
    | NetAmountNotFound
    | ChannelsNotFound
    | ChannelSheetMissing(channel: string)
    | HeaderMismatch(sheet: string, mismatches: seq<Mismatch>)
    | AmountMismatch(file: string, actual: Decimal, expected: Decimal)
  {
    /** The errors the parsers raise themselves, with a message of their own. */
    predicate Raised() {
      PeriodNotFound? || NetAmountNotFound? || ChannelsNotFound? || ChannelSheetMissing?
      || HeaderMismatch? || AmountMismatch?
    }
  }

  /** One entry of the header check's list. */
  datatype Mismatch =
    | ColumnMismatch(index: nat, expected: string, actual: Cell)
    | CountMismatch(expectedCount: nat, actualCount: nat)

  // ----- the header row -----

  const ExpectedHeaders: seq<string> := [
    "Title", "Sales Type", "Royalty Rate", "Display #", "ISBN #", "Publisher", "Partner",
    "Promotion", "Sale Territory", "Currency", "DLP", "Price Type", "Sales Qty", "Revenue",
    "Royalty Earned", "Less Distribution Fee", "Exchange Rate", "Royalty Payable Currency",
    "Royalty Payable"
  ]

  /** The header row holds exactly `names`, in order. */
  predicate HeaderIs(header: Row, names: seq<string>) {
    |header| == |names| && forall i | 0 <= i < |header| :: header[i] == Str(names[i])
  }

  predicate IsExpectedHeader(header: Row) {
    HeaderIs(header, ExpectedHeaders)
  }

  /** Columns `zip(header_row, names)` looks at. */
  function Overlap(header: Row, names: seq<string>): nat {
    if |header| < |names| then |header| else |names|
  }

  /** The column mismatches from index `i` on, in index order. */
  function ColumnMismatches(header: Row, names: seq<string>, i: nat): seq<Mismatch>
    requires i <= Overlap(header, names)
    decreases Overlap(header, names) - i
  {
    if i == Overlap(header, names) then []
    else if header[i] != Str(names[i]) then
      [ColumnMismatch(i, names[i], header[i])] + ColumnMismatches(header, names, i + 1)
    else ColumnMismatches(header, names, i + 1)
  }

  /** Every mismatched column of the overlap is listed, with its expected and actual value. */
  lemma {:induction false} MismatchListed(header: Row, names: seq<string>, i: nat, j: nat)
    requires i <= j < Overlap(header, names) && header[j] != Str(names[j])
    ensures ColumnMismatch(j, names[j], header[j]) in ColumnMismatches(header, names, i)
    decreases j - i
  {
    if i < j {
      MismatchListed(header, names, i + 1, j);
    }
  }

  /** Only mismatched columns of the overlap are listed. */
  lemma {:induction false} MismatchGenuine(header: Row, names: seq<string>, i: nat, m: Mismatch)
    requires i <= Overlap(header, names) && m in ColumnMismatches(header, names, i)
    ensures m.ColumnMismatch? && i <= m.index < Overlap(header, names)
    ensures header[m.index] != Str(names[m.index])
    ensures m.expected == names[m.index] && m.actual == header[m.index]
    decreases Overlap(header, names) - i
  {
    if m != ColumnMismatch(i, names[i], header[i]) || header[i] == Str(names[i]) {
      MismatchGenuine(header, names, i + 1, m);
    }
  }

  /** The columns are listed in increasing index order. */
  lemma {:induction false} MismatchesOrdered(header: Row, names: seq<string>, i: nat, k: nat, l: nat)
    requires i <= Overlap(header, names) && k < l < |ColumnMismatches(header, names, i)|
    ensures ColumnMismatches(header, names, i)[k].ColumnMismatch?
    ensures ColumnMismatches(header, names, i)[l].ColumnMismatch?
    ensures ColumnMismatches(header, names, i)[k].index < ColumnMismatches(header, names, i)[l].index
    decreases Overlap(header, names) - i
  {
    var ms := ColumnMismatches(header, names, i);
    var rest := ColumnMismatches(header, names, i + 1);
    if header[i] != Str(names[i]) {
      var head := ColumnMismatch(i, names[i], header[i]);
      assert ms == [head] + rest;
      assert ms[l] == rest[l - 1];
      MismatchGenuine(header, names, i + 1, rest[l - 1]);
      if k > 0 {
        assert ms[k] == rest[k - 1];
        MismatchesOrdered(header, names, i + 1, k - 1, l - 1);
      } else {
        assert ms[k] == head;
      }
    } else {
      assert ms == rest;
      MismatchesOrdered(header, names, i + 1, k, l);
    }
  }

  /** No column mismatch is listed exactly when the overlapping columns all agree. */
  lemma NoMismatchMeansAgree(header: Row, names: seq<string>)
    ensures |ColumnMismatches(header, names, 0)| == 0 <==>
      forall j | 0 <= j < Overlap(header, names) :: header[j] == Str(names[j])
  {
    if |ColumnMismatches(header, names, 0)| == 0 {
      forall j | 0 <= j < Overlap(header, names)
        ensures header[j] == Str(names[j])
      {
        if header[j] != Str(names[j]) {
          MismatchListed(header, names, 0, j);
        }
      }
    } else {
      MismatchGenuine(header, names, 0, ColumnMismatches(header, names, 0)[0]);
    }
  }

  lemma LastMismatchIsColumn(header: Row, names: seq<string>)
    ensures var cols := ColumnMismatches(header, names, 0); |cols| > 0 ==> cols[|cols| - 1].ColumnMismatch?
  {
    var cols := ColumnMismatches(header, names, 0);
    if |cols| > 0 {
      MismatchGenuine(header, names, 0, cols[|cols| - 1]);
    }
  }

  /** The list `_validate_headers` builds: mismatched columns, then a count mismatch. */
  function HeaderMismatches(header: Row, names: seq<string>): seq<Mismatch> {
    ColumnMismatches(header, names, 0)
    + (if |header| != |names| then [CountMismatch(|names|, |header|)] else [])
  }

  /** The header check against any list of names: it passes exactly on that list; otherwise the
      error names the sheet, and ends with a count mismatch exactly when the lengths differ. */
  function CheckHeader(header: Row, names: seq<string>, sheet: string): (r: Result<(), ReportError>)
    ensures r.Success? <==> HeaderIs(header, names)
    ensures r.Failure? ==> r.error.HeaderMismatch? && r.error.sheet == sheet && |r.error.mismatches| > 0
    ensures r.Failure? ==> (|header| != |names| <==>
      r.error.mismatches[|r.error.mismatches| - 1].CountMismatch?)
  {
    var ms := HeaderMismatches(header, names);
    NoMismatchMeansAgree(header, names);
    LastMismatchIsColumn(header, names);
    if |ms| == 0 then Success(()) else Failure(HeaderMismatch(sheet, ms))
  }

  /** `_validate_headers`: the comparison with the 19 expected names. */
  function ValidateHeaders(header: Row, sheet: string): (r: Result<(), ReportError>)
    ensures r.Success? <==> IsExpectedHeader(header)
    ensures r.Failure? ==> r.error == HeaderMismatch(sheet, HeaderMismatches(header, ExpectedHeaders))
  {
    CheckHeader(header, ExpectedHeaders, sheet)
  }

  // ----- messages -----

  function MismatchText(m: Mismatch): string {
    match m
    case ColumnMismatch(i, e, a) => "column " + IntText(i) + ": expected '" + e + "', got '" + CellText(a) + "'"
    case CountMismatch(e, a) => "expected " + IntText(e) + " columns, got " + IntText(a)
  }

  function MismatchTexts(ms: seq<Mismatch>): (r: seq<string>)
    ensures |r| == |ms|
  {
    if |ms| == 0 then [] else [MismatchText(ms[0])] + MismatchTexts(ms[1..])
  }

  /** `str(e)` of the ValueErrors the parsers raise. */
  function Message(e: ReportError): string
    requires e.Raised()
  {
    match e
    case PeriodNotFound => "Could not find Period in Summary sheet"
    case NetAmountNotFound => "Could not find Net Amount in Summary sheet"
    case ChannelsNotFound => "Could not find channels in Summary sheet"
    case ChannelSheetMissing(c) => "Channel '" + c + "' listed in Summary but sheet not found"
    case HeaderMismatch(sheet, ms) => "Header mismatch in sheet '" + sheet + "': " + Join(MismatchTexts(ms), "; ")
    case AmountMismatch(file, actual, expected) =>
      "Amount mismatch in '" + file + "': sum of rows is " + DecimalText(actual)
      + ", expected Net Amount is " + DecimalText(expected)
  }

  // ----- regular-expression prefixes -----

  /** Length of the longest prefix of `s` whose characters all satisfy `IsWordChar`. */
  function WordRun(s: string): (n: nat)
    ensures n <= |s|
    ensures forall i | 0 <= i < n :: IsWordChar(s[i])
    ensures n < |s| ==> !IsWordChar(s[n])
  {
    if |s| > 0 && IsWordChar(s[0]) then 1 + WordRun(s[1..]) else 0
  }

  /** Length of the longest prefix of `s` made of decimal digits. */
  function DigitRun(s: string): (n: nat)
    ensures n <= |s|
    ensures AllDigits(s[..n])
    ensures n < |s| ==> !IsDigit(s[n])
  {
    if |s| > 0 && IsDigit(s[0]) then
      var n := 1 + DigitRun(s[1..]);
      assert s[..n] == [s[0]] + s[1..][..n - 1];
      n
    else 0
  }

  /** `re.match(r"(\w+) \d+, (\d+)", s)`: the month-name and year groups. Each class is
      followed by a character outside it, so the greedy runs are the only possible match. */
  function MatchPeriod(s: string): (r: Option<(string, string)>)
    ensures r.Some? ==> |r.value.0| > 0 && |r.value.1| > 0 && AllDigits(r.value.1)
    ensures r.Some? ==> forall i | 0 <= i < |r.value.0| :: IsWordChar(r.value.0[i])
  {
    var w := WordRun(s);
    if w == 0 || w == |s| || s[w] != ' ' then None
    else
      var rest := s[w + 1..];
      var d := DigitRun(rest);
      if d == 0 || d + 2 > |rest| || rest[d] != ',' || rest[d + 1] != ' ' then None
      else
        var tail := rest[d + 2..];
        var y := DigitRun(tail);
        if y == 0 then None else Some((s[..w], tail[..y]))
  }

  /** The text of a period line: "<Month> <day>, <year>" followed by the rest of the line. */
  function PeriodLine(month: string, day: string, year: string, rest: string): string {
    month + (" " + (day + (", " + (year + rest))))
  }

  /** A period line yields its month name and year digits, when the year is not followed by
      another digit. */
  lemma PeriodLineMatches(month: string, day: string, year: string, rest: string)
    requires |month| > 0 && forall i | 0 <= i < |month| :: IsWordChar(month[i])
    requires |day| > 0 && AllDigits(day) && |year| > 0 && AllDigits(year)
    requires |rest| > 0 ==> !IsDigit(rest[0])
    ensures MatchPeriod(PeriodLine(month, day, year, rest)).Some?
    ensures MatchPeriod(PeriodLine(month, day, year, rest)).value.0 == month
    ensures MatchPeriod(PeriodLine(month, day, year, rest)).value.1 == year
  {
    var tail := year + rest;
    var after := day + (", " + tail);
    var s := month + (" " + after);
    WordRunExact(month, " " + after);
    assert s[|month|] == ' ' && s[|month| + 1..] == after && s[..|month|] == month;
    DigitRunExact(day, ", " + tail);
    assert after[|day|] == ',' && after[|day| + 1] == ' ' && after[|day| + 2..] == tail;
    DigitRunExact(year, rest);
    assert tail[..|year|] == year;
  }

  lemma {:induction false} WordRunExact(w: string, rest: string)
    requires forall i | 0 <= i < |w| :: IsWordChar(w[i])
    requires |rest| > 0 ==> !IsWordChar(rest[0])
    ensures WordRun(w + rest) == |w|
    decreases |w|
  {
    if |w| > 0 {
      assert (w + rest)[1..] == w[1..] + rest;
      WordRunExact(w[1..], rest);
    } else {
      assert w + rest == rest;
    }
  }

  lemma {:induction false} DigitRunExact(d: string, rest: string)
    requires AllDigits(d)
    requires |rest| > 0 ==> !IsDigit(rest[0])
    ensures DigitRun(d + rest) == |d|
    decreases |d|
  {
    if |d| > 0 {
      assert (d + rest)[1..] == d[1..] + rest;
      DigitRunExact(d[1..], rest);
    } else {
      assert d + rest == rest;
    }
  }

  // ----- the Period: line -----

  /** `date(int(year), MONTH_NAMES[month_name], 1)`. */
  function PeriodDate(month: string, year: string): (r: Result<Date, ReportError>)
    requires AllDigits(year)
    ensures r.Success? ==> r.value.day == 1 && Some(r.value.month) == MonthNumber(month)
    ensures r.Success? ==> r.value.year == DigitsValue(year) as int
    ensures r.Failure? ==> MonthNumber(month).None? || !(1 <= DigitsValue(year) <= 9999)
  {
    match MonthNumber(month)
    case None => Failure(UnknownMonth(month))
    case Some(m) =>
      var y := DigitsValue(year);
      match MakeDate(y, m, 1)
      case None => Failure(YearOutOfRange(y))
      case Some(d) => Success(d)
  }

  /** A row that `_parse_period` passes over without raising. */
  predicate SkippedByPeriod(row: Row) {
    |row| > 0
    && (row[0] == Str("Period:") ==> |row| > 1 && row[1].Str? && MatchPeriod(row[1].s).None?)
  }

  /** `_parse_period`: the first "Period:" row whose second cell matches gives the month. */
  function FindPeriod(rows: seq<Row>): (r: Result<Date, ReportError>)
    ensures r.Success? ==> r.value.day == 1 && 1 <= r.value.month <= 12 && 1 <= r.value.year <= 9999
  {
    if |rows| == 0 then Failure(PeriodNotFound)
    else
      var row := rows[0];
      if |row| == 0 then Failure(IndexOutOfRange)
      else if row[0] != Str("Period:") then FindPeriod(rows[1..])
      else if |row| < 2 then Failure(IndexOutOfRange)
      else match row[1]
        case Str(s) =>
          (match MatchPeriod(s)
           case None => FindPeriod(rows[1..])
           case Some(groups) => PeriodDate(groups.0, groups.1))
        case _ => Failure(NotText(row[1]))
  }

  /** Rows before the first matching "Period:" row do not affect the result. */
  lemma {:induction false} FindPeriodSkips(skipped: seq<Row>, rows: seq<Row>)
    requires forall i | 0 <= i < |skipped| :: SkippedByPeriod(skipped[i])
    ensures FindPeriod(skipped + rows) == FindPeriod(rows)
    decreases |skipped|
  {
    if |skipped| > 0 {
      assert (skipped + rows)[0] == skipped[0];
      assert (skipped + rows)[1..] == skipped[1..] + rows;
      FindPeriodSkips(skipped[1..], rows);
    } else {
      assert skipped + rows == rows;
    }
  }

  /** A matching "Period:" row decides the month, whatever follows it. */
  lemma PeriodRowDecides(period: string, extra: Row, rows: seq<Row>)
    requires MatchPeriod(period).Some?
    ensures FindPeriod([[Str("Period:"), Str(period)] + extra] + rows)
      == PeriodDate(MatchPeriod(period).value.0, MatchPeriod(period).value.1)
  {
  }

  /** The report's own example: "June 01, 2025 - June 30, 2025" is June 2025. */
  lemma PeriodExample()
    ensures MatchPeriod("June 01, 2025 - June 30, 2025") == Some(("June", "2025"))
  {
    assert PeriodLine("June", "01", "2025", " - June 30, 2025") == "June 01, 2025 - June 30, 2025";
    PeriodLineMatches("June", "01", "2025", " - June 30, 2025");
  }
}
