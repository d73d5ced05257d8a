/** The Findaway royalty-report parser of the partners app: it reads the Summary sheet (sale
    month, declared net amount, channel list), checks the header of every listed channel sheet,
    turns each non-blank data row into a sale-record draft paired with its ISBN code, and
    reconciles the exact decimal sum of the row amounts with the net amount. */
module Findaway {
  import opened Wrappers
  import opened Text
  import opened Decimals
  import opened Calendar
  import opened Workbook
  import opened ReportFormat

  /** An unsaved `SaleRecord`: the report's cells as they come, the amount as an exact decimal. */
  datatype SaleDraft = SaleDraft(
    month: Date, sourceFile: string, driveId: string,
    title: Cell, salesType: Cell, retailer: Cell, country: Cell,
    quantity: Cell, currency: Cell, amount: Decimal)

  /** A draft together with the ISBN code of its row ("" when the cell is blank). */
  datatype Parsed = Parsed(draft: SaleDraft, code: string)

  // ----- the Net Amount: line -----

  /** Length of the longest prefix of `s` made of digits and points (`[\d.]+`). */
  function AmountRun(s: string): (n: nat)
    ensures n <= |s|
    ensures forall i | 0 <= i < n :: IsDigit(s[i]) || s[i] == '.'
    ensures n < |s| ==> !(IsDigit(s[n]) || s[n] == '.')
  {
    if |s| > 0 && (IsDigit(s[0]) || s[0] == '.') then 1 + AmountRun(s[1..]) else 0
  }

  /** Length of the longest prefix of `s` made of whitespace (`\s+`). */
  function SpaceRun(s: string): (n: nat)
    ensures n <= |s|
    ensures forall i | 0 <= i < n :: IsSpace(s[i])
    ensures n < |s| ==> !IsSpace(s[n])
  {
    if |s| > 0 && IsSpace(s[0]) then 1 + SpaceRun(s[1..]) else 0
  }

  /** `re.match(r"([\d.]+)\s+USD", s)`: the amount group. */
  function MatchNetAmount(s: string): (r: Option<string>)
    ensures r.Some? ==> |r.value| > 0 && forall i | 0 <= i < |r.value| :: IsDigit(r.value[i]) || r.value[i] == '.'
  {
    var n := AmountRun(s);
    if n == 0 then None
    else
      var rest := s[n..];
      var w := SpaceRun(rest);
      if w == 0 || !StartsWith(rest[w..], "USD") then None else Some(s[..n])
  }

  /** The text of a net-amount line: the amount, whitespace, "USD" and the rest of the line. */
  function NetLine(amount: string, spaces: string, rest: string): string {
    amount + (spaces + ("USD" + rest))
  }

  lemma {:induction false} AmountRunExact(a: string, rest: string)
    requires forall i | 0 <= i < |a| :: IsDigit(a[i]) || a[i] == '.'
    requires |rest| > 0 ==> !(IsDigit(rest[0]) || rest[0] == '.')
    ensures AmountRun(a + rest) == |a|
    decreases |a|
  {
    if |a| > 0 {
      assert (a + rest)[1..] == a[1..] + rest;
      AmountRunExact(a[1..], rest);
    } else {
      assert a + rest == rest;
    }
  }

  lemma {:induction false} SpaceRunExact(w: string, rest: string)
    requires forall i | 0 <= i < |w| :: IsSpace(w[i])
    requires |rest| > 0 ==> !IsSpace(rest[0])
    ensures SpaceRun(w + rest) == |w|
    decreases |w|
  {
    if |w| > 0 {
      assert (w + rest)[1..] == w[1..] + rest;
      SpaceRunExact(w[1..], rest);
    } else {
      assert w + rest == rest;
    }
  }

  /** A net-amount line yields exactly its amount text. */
  lemma NetLineMatches(amount: string, spaces: string, rest: string)
    requires |amount| > 0 && forall i | 0 <= i < |amount| :: IsDigit(amount[i]) || amount[i] == '.'
    requires |spaces| > 0 && forall i | 0 <= i < |spaces| :: IsSpace(spaces[i])
    ensures MatchNetAmount(NetLine(amount, spaces, rest)).Some?
    ensures MatchNetAmount(NetLine(amount, spaces, rest)).value == amount
  {
    var after := spaces + ("USD" + rest);
    var s := amount + after;
    assert !IsDigit(after[0]) && after[0] != '.';
    AmountRunExact(amount, after);
    assert s[|amount|..] == after && s[..|amount|] == amount;
    SpaceRunExact(spaces, "USD" + rest);
    assert after[|spaces|..] == "USD" + rest;
    assert ("USD" + rest)[..3] == "USD";
  }

  /** The report's own example: "12.28 USD" declares "12.28"... */
  lemma NetLineExample()
    ensures MatchNetAmount("12.28 USD") == Some("12.28")
  {
    assert NetLine("12.28", " ", "") == "12.28 USD";
    NetLineMatches("12.28", " ", "");
  }

  /** ... which is 12.28 with two decimal places. */
  lemma NetAmountExample()
    ensures ParseDecimal("12.28").Some?
    ensures ParseDecimal("12.28").value.unscaled == 1228 && ParseDecimal("12.28").value.scale == 2
  {
    var a, b := "12", "28";
    assert a + "." + b == "12.28";
    PointedReadsBack(a, b);
    var d := a + b;
    assert d[..1] == "1" && d[..2][..1] == d[..1] && d[..3][..2] == d[..2] && d[..3] == d[..|d| - 1];
    assert DigitsValue(d[..1]) == 1;
    assert DigitsValue(d[..2]) == 12;
    assert DigitsValue(d[..3]) == 122;
  }

  /** `Decimal` of a run of digits and points, when it is a number, is not negative. */
  lemma NetAmountNonNegative(g: string)
    requires |g| > 0 && forall i | 0 <= i < |g| :: IsDigit(g[i]) || g[i] == '.'
    requires ParseDecimal(g).Some?
    ensures ParseDecimal(g).value.unscaled >= 0
  {
    StripNoSpaces(g);
  }

  /** `_parse_net_amount`: the first "Net Amount:" row whose second cell matches. */
  function FindNetAmount(rows: seq<Row>): (r: Result<Decimal, ReportError>)
    ensures r.Success? ==> r.value.unscaled >= 0
  {
    if |rows| == 0 then Failure(NetAmountNotFound)
    else
      var row := rows[0];
      if |row| == 0 then Failure(IndexOutOfRange)
      else if row[0] != Str("Net Amount:") then FindNetAmount(rows[1..])
      else if |row| < 2 then Failure(IndexOutOfRange)
      else match row[1]
        case Str(s) =>
          (match MatchNetAmount(s)
           case None => FindNetAmount(rows[1..])
           case Some(g) =>
             (match ParseDecimal(g)
              case None => Failure(InvalidAmount(g))
              case Some(d) => NetAmountNonNegative(g); Success(d)))
        case _ => Failure(NotText(row[1]))
  }

  /** A row that `_parse_net_amount` passes over without raising. */
  predicate SkippedByNetAmount(row: Row) {
    |row| > 0
    && (row[0] == Str("Net Amount:") ==> |row| > 1 && row[1].Str? && MatchNetAmount(row[1].s).None?)
  }

  /** Rows before the first matching "Net Amount:" row do not affect the result. */
  lemma {:induction false} FindNetAmountSkips(skipped: seq<Row>, rows: seq<Row>)
    requires forall i | 0 <= i < |skipped| :: SkippedByNetAmount(skipped[i])
    ensures FindNetAmount(skipped + rows) == FindNetAmount(rows)
    decreases |skipped|
  {
    if |skipped| > 0 {
      assert (skipped + rows)[0] == skipped[0];
      assert (skipped + rows)[1..] == skipped[1..] + rows;
      FindNetAmountSkips(skipped[1..], rows);
    } else {
      assert skipped + rows == rows;
    }
  }

  /** A matching "Net Amount:" row decides the amount, whatever follows it. */
  lemma NetRowDecides(line: string, extra: Row, rows: seq<Row>)
    requires MatchNetAmount(line).Some? && ParseDecimal(MatchNetAmount(line).value).Some?
    ensures FindNetAmount([[Str("Net Amount:"), Str(line)] + extra] + rows)
      == Success(ParseDecimal(MatchNetAmount(line).value).value)
  {
  }

  // ----- the Payments by Channel: list -----

  const ChannelsMarker := "Payments by Channel:"

  /** A cell that can be listed as a channel. */
  predicate ChannelCell(c: Cell) {
    c != Empty && c != Str("Channel") && c != Str(ChannelsMarker)
  }

  /** The loop of `_parse_channels`; `inSection` says whether the marker row has been seen. */
  function ScanChannels(rows: seq<Row>, inSection: bool): (r: Result<seq<Cell>, ReportError>)
    ensures r.Success? ==> forall k | 0 <= k < |r.value| :: ChannelCell(r.value[k])
  {
    if |rows| == 0 then Success([])
    else if |rows[0]| == 0 then Failure(IndexOutOfRange)
    else
      var c := rows[0][0];
      if c == Str(ChannelsMarker) then ScanChannels(rows[1..], true)
      else if !inSection || c == Str("Channel") then ScanChannels(rows[1..], inSection)
      else if c == Empty then Success([])
      else
        match ScanChannels(rows[1..], true)
        case Failure(e) => Failure(e)
        case Success(rest) => Success([c] + rest)
  }

  /** `_parse_channels`: the listed channel names, at least one. */
  function ParseChannels(rows: seq<Row>): (r: Result<seq<Cell>, ReportError>)
    ensures r.Success? ==> |r.value| > 0 && forall k | 0 <= k < |r.value| :: ChannelCell(r.value[k])
  {
    match ScanChannels(rows, false)
    case Failure(e) => Failure(e)
    case Success(cs) => if |cs| == 0 then Failure(ChannelsNotFound) else Success(cs)
  }

  /** Rows before the marker row are ignored, as long as they have a first cell. */
  lemma {:induction false} ChannelsIgnoreRowsBefore(before: seq<Row>, rows: seq<Row>)
    requires forall i | 0 <= i < |before| :: |before[i]| > 0 && before[i][0] != Str(ChannelsMarker)
    ensures ScanChannels(before + rows, false) == ScanChannels(rows, false)
    decreases |before|
  {
    if |before| > 0 {
      assert (before + rows)[0] == before[0];
      assert (before + rows)[1..] == before[1..] + rows;
      ChannelsIgnoreRowsBefore(before[1..], rows);
    } else {
      assert before + rows == rows;
    }
  }

  /** Inside the section, each listed row contributes its first cell, and an empty first cell
      ends the list whatever follows. */
  lemma {:induction false} ChannelsListed(listed: seq<Row>, stop: Row, rest: seq<Row>)
    requires forall i | 0 <= i < |listed| :: |listed[i]| > 0 && ChannelCell(listed[i][0])
    requires |stop| > 0 && stop[0] == Empty
    ensures ScanChannels(listed + [stop] + rest, true).Success?
    ensures |ScanChannels(listed + [stop] + rest, true).value| == |listed|
    ensures forall k | 0 <= k < |listed| :: ScanChannels(listed + [stop] + rest, true).value[k] == listed[k][0]
    decreases |listed|
  {
    var all := listed + [stop] + rest;
    if |listed| > 0 {
      assert all[0] == listed[0];
      assert all[1..] == listed[1..] + [stop] + rest;
      ChannelsListed(listed[1..], stop, rest);
    } else {
      assert all[0] == stop;
    }
  }

  // ----- rows -----

  /** `Decimal(str(row[18]))`, or `Decimal("0")` for an empty cell. */
  function AmountOf(c: Cell): (r: Result<Decimal, ReportError>)
    ensures c.Amount? ==> r == Success(c.d)
    ensures c.Number? ==> r == Success(Decimal(c.n, 0))
    ensures c.Empty? ==> r == Success(Zero)
    ensures r.Failure? <==> c.Str? && ParseDecimal(c.s).None?
    ensures c.Str? && ParseDecimal(c.s).Some? ==> r == Success(ParseDecimal(c.s).value)
  {
    match c
    case Empty => Success(Zero)
    case Number(n) => Success(Decimal(n, 0))
    case Amount(d) => Success(d)
    case Str(s) => (match ParseDecimal(s) case None => Failure(InvalidAmount(s)) case Some(d) => Success(d))
  }

  /** The amount is what `Decimal()` reads from the cell's text `str(row[18])`: whole-number and
      decimal cells read back as themselves, and a text cell is read as its own text. */
  lemma AmountOfReadsCellText(c: Cell)
    requires !c.Empty?
    requires c.Amount? ==> FixedNotation(c.d)
    ensures ParseDecimal(CellText(c)).None? ==> AmountOf(c).Failure?
    ensures ParseDecimal(CellText(c)).Some? ==> AmountOf(c) == Success(ParseDecimal(CellText(c)).value)
  {
    if !c.Str? {
      var d := if c.Number? then Decimal(c.n, 0) else c.d;
      assert CellText(c) == DecimalText(d);
      DecimalTextUnpadded(d);
      ParseUnpadded(DecimalText(d));
      DecimalTextRoundTrip(d);
    }
  }

  /** `row[4] or ""`: the ISBN code of a row. */
  function CodeOf(c: Cell): (r: string)
    ensures !Truthy(c) ==> r == ""
    ensures c.Str? ==> r == c.s
  {
    if Truthy(c) then CellText(c) else ""
  }

  /** `_parse_row`, paired with the row's ISBN code. */
  function ParseRow(row: Row, month: Date, file: string, driveId: string): (r: Result<Parsed, ReportError>)
    ensures r.Success? <==> |row| >= 19 && AmountOf(row[18]).Success?
    ensures r.Success? ==>
              && r.value.draft.title == row[0] && r.value.draft.salesType == row[1]
              && r.value.draft.retailer == row[6] && r.value.draft.country == row[8]
              && r.value.draft.currency == row[17] && r.value.code == CodeOf(row[4])
              && r.value.draft.quantity == OrElse(row[12], Number(0))
              && r.value.draft.amount == AmountOf(row[18]).value
    ensures r.Success? ==>
              && r.value.draft.month == month && r.value.draft.sourceFile == file
              && r.value.draft.driveId == driveId
  {
    if |row| < 19 then Failure(IndexOutOfRange)
    else
      match AmountOf(row[18])
      case Failure(e) => Failure(e)
      case Success(amount) =>
        Success(Parsed(
          SaleDraft(month, file, driveId, row[0], row[1], row[6], row[8],
                    OrElse(row[12], Number(0)), row[17], amount),
          CodeOf(row[4])))
  }

  /** The rows the parser keeps: those whose first cell is not empty. */
  predicate Kept(row: Row) {
    |row| > 0 && row[0] != Empty
  }

  /** The data rows of a sheet that become records, in sheet order. */
  function NonBlank(rows: seq<Row>): (r: seq<Row>)
    ensures |r| <= |rows|
    ensures forall k | 0 <= k < |r| :: Kept(r[k])
  {
    if |rows| == 0 then []
    else if Kept(rows[0]) then [rows[0]] + NonBlank(rows[1..])
    else NonBlank(rows[1..])
  }

  /** Parsing a list of rows one by one, stopping at the first failure. */
  function MapRows(rows: seq<Row>, month: Date, file: string, driveId: string): Result<seq<Parsed>, ReportError>
  {
    if |rows| == 0 then Success([])
    else
      match ParseRow(rows[0], month, file, driveId)
      case Failure(e) => Failure(e)
      case Success(p) =>
        match MapRows(rows[1..], month, file, driveId)
        case Failure(e) => Failure(e)
        case Success(rest) => Success([p] + rest)
  }

  /** A successful `MapRows` holds one record per row, the row's own parse, in row order; and it
      succeeds exactly when every row parses. */
  lemma {:induction false} MapRowsElementwise(rows: seq<Row>, month: Date, file: string, driveId: string)
    ensures MapRows(rows, month, file, driveId).Success? <==>
      forall k | 0 <= k < |rows| :: ParseRow(rows[k], month, file, driveId).Success?
    ensures MapRows(rows, month, file, driveId).Success? ==>
      && |MapRows(rows, month, file, driveId).value| == |rows|
      && forall k | 0 <= k < |rows| ::
           ParseRow(rows[k], month, file, driveId).value == MapRows(rows, month, file, driveId).value[k]
    decreases |rows|
  {
    if |rows| > 0 {
      MapRowsElementwise(rows[1..], month, file, driveId);
      assert forall k | 1 <= k < |rows| :: rows[k] == rows[1..][k - 1];
      var r := MapRows(rows, month, file, driveId);
      if r.Success? {
        var rest := MapRows(rows[1..], month, file, driveId).value;
        assert r.value == [ParseRow(rows[0], month, file, driveId).value] + rest;
        assert forall k | 1 <= k < |rows| :: r.value[k] == rest[k - 1];
      }
    }
  }

  /** The data-row loop of `parse_findaway_report`: blank rows are skipped, a row with no cells
      at all raises IndexError at `row[0]`. */
  function ParseSheetRows(rows: seq<Row>, month: Date, file: string, driveId: string): Result<seq<Parsed>, ReportError>
  {
    if |rows| == 0 then Success([])
    else if |rows[0]| == 0 then Failure(IndexOutOfRange)
    else if rows[0][0] == Empty then ParseSheetRows(rows[1..], month, file, driveId)
    else
      match ParseRow(rows[0], month, file, driveId)
      case Failure(e) => Failure(e)
      case Success(p) =>
        match ParseSheetRows(rows[1..], month, file, driveId)
        case Failure(e) => Failure(e)
        case Success(rest) => Success([p] + rest)
  }

  /** When every row has a first cell, the sheet loop parses exactly the non-blank rows, in
      order, and fails exactly when one of them fails. */
  lemma {:induction false} SheetRowsAreNonBlank(rows: seq<Row>, month: Date, file: string, driveId: string)
    requires forall i | 0 <= i < |rows| :: |rows[i]| > 0
    ensures ParseSheetRows(rows, month, file, driveId) == MapRows(NonBlank(rows), month, file, driveId)
    decreases |rows|
  {
    if |rows| > 0 {
      SheetRowsAreNonBlank(rows[1..], month, file, driveId);
      if Kept(rows[0]) {
        assert ([rows[0]] + NonBlank(rows[1..]))[1..] == NonBlank(rows[1..]);
      }
    }
  }

  // ----- channel sheets -----

  /** The sheet a channel cell names, if the workbook has it. */
  predicate HasSheet(book: Book, c: Cell) {
    c.Str? && c.s in book
  }

  /** The parsing loop over the listed channels: each channel's sheet must exist; an empty sheet
      is skipped; otherwise its header is checked and its data rows parsed. */
  function ParseChannelSheets(book: Book, channels: seq<Cell>, month: Date, file: string, driveId: string)
    : Result<seq<Parsed>, ReportError>
  {
    if |channels| == 0 then Success([])
    else
      var c := channels[0];
      if !HasSheet(book, c) then Failure(ChannelSheetMissing(CellText(c)))
      else
        var rows := book[c.s];
        if |rows| == 0 then ParseChannelSheets(book, channels[1..], month, file, driveId)
        else
          match ValidateHeaders(rows[0], c.s)
          case Failure(e) => Failure(e)
          case Success(_) =>
            match ParseSheetRows(rows[1..], month, file, driveId)
            case Failure(e) => Failure(e)
            case Success(here) =>
              match ParseChannelSheets(book, channels[1..], month, file, driveId)
              case Failure(e) => Failure(e)
              case Success(rest) => Success(here + rest)
  }

  /** A channel whose sheet is missing makes the whole parse fail. */
  lemma {:induction false} MissingChannelFails(book: Book, channels: seq<Cell>, k: nat, month: Date, file: string, driveId: string)
    requires k < |channels| && !HasSheet(book, channels[k])
    ensures ParseChannelSheets(book, channels, month, file, driveId).Failure?
    decreases k
  {
    if k > 0 && HasSheet(book, channels[0]) {
      MissingChannelFails(book, channels[1..], k - 1, month, file, driveId);
    }
  }

  /** An empty channel sheet contributes nothing. */
  lemma EmptySheetContributesNothing(book: Book, c: Cell, channels: seq<Cell>, month: Date, file: string, driveId: string)
    requires HasSheet(book, c) && |book[c.s]| == 0
    ensures ParseChannelSheets(book, [c] + channels, month, file, driveId)
      == ParseChannelSheets(book, channels, month, file, driveId)
  {
    assert ([c] + channels)[1..] == channels;
  }

  /** The rows the parser turns into records, over all listed channels in order: the non-blank
      data rows of each channel sheet, after its header row. */
  function Selected(book: Book, channels: seq<Cell>): seq<Row>
  {
    if |channels| == 0 then []
    else
      var c := channels[0];
      (if HasSheet(book, c) && |book[c.s]| > 0 then NonBlank(book[c.s][1..]) else [])
      + Selected(book, channels[1..])
  }

  lemma RowsAppend(a: seq<Row>, b: seq<Row>)
    ensures |a| == 0 ==> a + b == b
    ensures |a| > 0 ==> (a + b)[0] == a[0] && (a + b)[1..] == a[1..] + b
  {
  }

  lemma ParsedAppend(p: Parsed, rest: seq<Parsed>, more: seq<Parsed>)
    ensures [p] + rest + more == [p] + (rest + more)
  {
  }

  /** Parsing two lists of rows one after the other is parsing their concatenation. */
  lemma {:induction false} MapRowsAppend(a: seq<Row>, b: seq<Row>, month: Date, file: string, driveId: string)
    requires MapRows(a, month, file, driveId).Success? && MapRows(b, month, file, driveId).Success?
    ensures MapRows(a + b, month, file, driveId).Success?
    ensures MapRows(a + b, month, file, driveId).value
      == MapRows(a, month, file, driveId).value + MapRows(b, month, file, driveId).value
    decreases |a|
  {
    RowsAppend(a, b);
    if |a| > 0 {
      MapRowsAppend(a[1..], b, month, file, driveId);
      var ra := MapRows(a, month, file, driveId).value;
      var rest := MapRows(a[1..], month, file, driveId).value;
      var rb := MapRows(b, month, file, driveId).value;
      assert ra == [ra[0]] + rest;
      ParsedAppend(ra[0], rest, rb);
    }
  }

  /** A successful sheet loop saw no row without cells, so it parsed exactly the non-blank rows. */
  lemma {:induction false} SheetRowsSucceed(rows: seq<Row>, month: Date, file: string, driveId: string)
    requires ParseSheetRows(rows, month, file, driveId).Success?
    ensures MapRows(NonBlank(rows), month, file, driveId) == ParseSheetRows(rows, month, file, driveId)
    decreases |rows|
  {
    if |rows| > 0 {
      SheetRowsSucceed(rows[1..], month, file, driveId);
      if Kept(rows[0]) {
        assert ([rows[0]] + NonBlank(rows[1..]))[1..] == NonBlank(rows[1..]);
      }
    }
  }

  /** A successful parse of the channel sheets yields, in order, one record per selected row. */
  lemma {:induction false} ChannelSheetsAreSelected(book: Book, channels: seq<Cell>, month: Date, file: string, driveId: string)
    requires ParseChannelSheets(book, channels, month, file, driveId).Success?
    ensures MapRows(Selected(book, channels), month, file, driveId)
      == ParseChannelSheets(book, channels, month, file, driveId)
    decreases |channels|
  {
    if |channels| > 0 {
      var c := channels[0];
      ChannelSheetsAreSelected(book, channels[1..], month, file, driveId);
      var rows := book[c.s];
      if |rows| > 0 {
        SheetRowsSucceed(rows[1..], month, file, driveId);
        MapRowsAppend(NonBlank(rows[1..]), Selected(book, channels[1..]), month, file, driveId);
      } else {
        assert Selected(book, channels) == [] + Selected(book, channels[1..]);
        assert [] + Selected(book, channels[1..]) == Selected(book, channels[1..]);
      }
    }
  }

  // ----- reconciliation -----

  function Amounts(ps: seq<Parsed>): (r: seq<Decimal>)
    ensures |r| == |ps|
    ensures forall k | 0 <= k < |ps| :: r[k] == ps[k].draft.amount
  {
    if |ps| == 0 then [] else [ps[0].draft.amount] + Amounts(ps[1..])
  }

  /** `_verify_total_amount`: the exact sum of the amounts must equal the declared net amount. */
  function VerifyTotal(ps: seq<Parsed>, expected: Decimal, file: string): (r: Result<(), ReportError>)
    ensures r.Failure? ==> r.error == AmountMismatch(file, Sum(Amounts(ps)), expected)
  {
    var actual := Sum(Amounts(ps));
    if Same(actual, expected) then Success(()) else Failure(AmountMismatch(file, actual, expected))
  }

  /** The reconciliation passes exactly when the amounts, written at any common scale fine enough for all
      of them, add up to the net amount written at that scale. */
  lemma VerifyTotalExact(ps: seq<Parsed>, expected: Decimal, file: string, s: nat)
    requires s >= expected.scale && forall k | 0 <= k < |ps| :: ps[k].draft.amount.scale <= s
    ensures VerifyTotal(ps, expected, file).Success? <==> ValueSum(Amounts(ps), s) == ValueAt(expected, s)
  {
    var ds := Amounts(ps);
    SumExact(ds, s);
    SameAtScale(Sum(ds), expected, s);
  }

  // ----- the whole report -----

  /** `parse_findaway_report`. */
  function ParseReport(book: Book, file: string, driveId: string): (r: Result<seq<Parsed>, ReportError>)
  {
    if "Summary" !in book then Failure(MissingSheet("Summary"))
    else
      var summary := book["Summary"];
      var month :- FindPeriod(summary);
      var net :- FindNetAmount(summary);
      var channels :- ParseChannels(summary);
      var parsed :- ParseChannelSheets(book, channels, month, file, driveId);
      var _ :- VerifyTotal(parsed, net, file);
      Success(parsed)
  }

  /** What a successful parse promises: the Summary sheet gave the month, the net amount and
      the channels; the records are the selected rows, parsed in order, each stamped with the
      month, the file name and the drive id; and their amounts add up exactly to the net amount. */
  lemma {:induction false} ReportSucceeds(book: Book, file: string, driveId: string)
    requires ParseReport(book, file, driveId).Success?
    ensures "Summary" in book
    ensures FindPeriod(book["Summary"]).Success? && FindNetAmount(book["Summary"]).Success?
    ensures ParseChannels(book["Summary"]).Success?
    ensures MapRows(Selected(book, ParseChannels(book["Summary"]).value),
                    FindPeriod(book["Summary"]).value, file, driveId)
      == ParseReport(book, file, driveId)
    ensures Same(Sum(Amounts(ParseReport(book, file, driveId).value)), FindNetAmount(book["Summary"]).value)
  {
    var summary := book["Summary"];
    ChannelSheetsAreSelected(book, ParseChannels(summary).value, FindPeriod(summary).value, file, driveId);
  }

  /** Any failure of the channel-sheet loop is the failure of the whole report. */
  lemma ReportFailsWithSheets(book: Book, file: string, driveId: string)
    requires "Summary" in book
    requires FindPeriod(book["Summary"]).Success? && FindNetAmount(book["Summary"]).Success?
    requires ParseChannels(book["Summary"]).Success?
    requires ParseChannelSheets(book, ParseChannels(book["Summary"]).value,
                                FindPeriod(book["Summary"]).value, file, driveId).Failure?
    ensures ParseReport(book, file, driveId).Failure?
  {
  }

  lemma Digits1228()
    ensures NatText(1228) == "1228"
  {
    assert NatText(1) == "1";
    assert NatText(12) == "12";
    assert NatText(122) == "122";
  }

  lemma Digits2428()
    ensures NatText(2428) == "2428"
  {
    assert NatText(2) == "2";
    assert NatText(24) == "24";
    assert NatText(242) == "242";
  }

  /** The amounts in the test's "Bad Report.xlsx" mismatch message: its rows add up to 12.28
      and its Net Amount line says 24.28. */
  lemma RowsAmountText()
    ensures DecimalText(Decimal(1228, 2)) == "12.28"
  {
    Digits1228();
    RenderPositiveShape("1228", 2);
    assert "1228"[..2] == "12" && "1228"[2..] == "28";
  }

  lemma NetAmountText()
    ensures DecimalText(Decimal(2428, 2)) == "24.28"
  {
    Digits2428();
    RenderPositiveShape("2428", 2);
    assert "2428"[..2] == "24" && "2428"[2..] == "28";
  }
}
