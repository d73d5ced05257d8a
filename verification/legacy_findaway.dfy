/** The older Findaway parser on the BigQuery side: a fixed list of channel sheets, all 19
    columns copied positionally into a `RoyaltyRow`, no blank-row skipping and no reconciliation
    with the net amount. */
module LegacyFindaway {
  import opened Wrappers
  import opened Calendar
  import opened Workbook
  import opened ReportFormat

  /** A `RoyaltyRow`: the parse context and the 19 report columns, untouched. */
  datatype RoyaltyRow = RoyaltyRow(
    saleMonth: Date, sourceFile: string,
    title: Cell, salesType: Cell, royaltyRate: Cell, displayNumber: Cell, isbn: Cell,
    publisher: Cell, partner: Cell, promotion: Cell, saleTerritory: Cell, currency: Cell,
    dlp: Cell, priceType: Cell, salesQty: Cell, revenue: Cell, royaltyEarned: Cell,
    lessDistributionFee: Cell, exchangeRate: Cell, royaltyPayableCurrency: Cell,
    royaltyPayable: Cell)
  {
    /** The 19 column fields in header order. */
    function Columns(): (cs: seq<Cell>)
      ensures |cs| == 19
    {
      [title, salesType, royaltyRate, displayNumber, isbn, publisher, partner, promotion,
       saleTerritory, currency, dlp, priceType, salesQty, revenue, royaltyEarned,
       lessDistributionFee, exchangeRate, royaltyPayableCurrency, royaltyPayable]
    }
  }

  /** The sheets the parser reads, in this order. */
  const ChannelSheets: seq<string> := ["Retail", "Subscription", "Pool"]

  /** `_parse_row`: column `i` of the row becomes the `i`-th field. */
  function ParseRow(row: Row, month: Date, file: string): (r: Option<RoyaltyRow>)
    ensures r.Some? <==> |row| >= 19
    ensures r.Some? ==> r.value.Columns() == row[..19]
    ensures r.Some? ==> r.value.saleMonth == month && r.value.sourceFile == file
  {
    if |row| < 19 then None
    else Some(RoyaltyRow(month, file, row[0], row[1], row[2], row[3], row[4], row[5], row[6],
                         row[7], row[8], row[9], row[10], row[11], row[12], row[13], row[14],
                         row[15], row[16], row[17], row[18]))
  }

  /** Every data row becomes a record, blank or not; a short row raises IndexError. */
  function ParseRows(rows: seq<Row>, month: Date, file: string): (r: Result<seq<RoyaltyRow>, ReportError>)
    ensures r.Success? <==> forall k | 0 <= k < |rows| :: |rows[k]| >= 19
    ensures r.Success? ==> |r.value| == |rows|
    ensures r.Success? ==> forall k | 0 <= k < |rows| ::
      r.value[k].Columns() == rows[k][..19] && r.value[k].saleMonth == month && r.value[k].sourceFile == file
  {
    if |rows| == 0 then Success([])
    else
      match ParseRow(rows[0], month, file)
      case None => Failure(IndexOutOfRange)
      case Some(first) =>
        match ParseRows(rows[1..], month, file)
        case Failure(e) =>
          assert exists k | 1 <= k < |rows| :: |rows[k]| < 19 by {
            var k :| 0 <= k < |rows[1..]| && |rows[1..][k]| < 19;
            assert rows[k + 1] == rows[1..][k];
          }
          Failure(e)
        case Success(rest) =>
          var r := [first] + rest;
          assert forall k | 1 <= k < |rows| :: rows[k] == rows[1..][k - 1] && r[k] == rest[k - 1];
          Success(r)
  }

  /** The rows of the listed sheets after their header rows, sheets in list order; absent and
      empty sheets contribute nothing. */
  function DataRows(book: Book, sheets: seq<string>): seq<Row>
  {
    if |sheets| == 0 then []
    else
      (if sheets[0] in book && |book[sheets[0]]| > 0 then book[sheets[0]][1..] else [])
      + DataRows(book, sheets[1..])
  }

  /** The loop over `sheets`: absent sheets are skipped silently, empty ones too; otherwise the
      header is checked and every later row parsed. */
  function ParseSheets(book: Book, sheets: seq<string>, month: Date, file: string): Result<seq<RoyaltyRow>, ReportError>
  {
    if |sheets| == 0 then Success([])
    else
      var name := sheets[0];
      if name !in book || |book[name]| == 0 then ParseSheets(book, sheets[1..], month, file)
      else
        var rows := book[name];
        match ValidateHeaders(rows[0], name)
        case Failure(e) => Failure(e)
        case Success(_) =>
          match ParseRows(rows[1..], month, file)
          case Failure(e) => Failure(e)
          case Success(here) =>
            match ParseSheets(book, sheets[1..], month, file)
            case Failure(e) => Failure(e)
            case Success(rest) => Success(here + rest)
  }

  /** A successful loop yields one record per data row of the listed sheets, blank rows
      included, each holding that row's first 19 cells. */
  lemma {:induction false} SheetsYieldDataRows(book: Book, sheets: seq<string>, month: Date, file: string)
    requires ParseSheets(book, sheets, month, file).Success?
    ensures |ParseSheets(book, sheets, month, file).value| == |DataRows(book, sheets)|
    ensures forall k | 0 <= k < |DataRows(book, sheets)| ::
      |DataRows(book, sheets)[k]| >= 19
      && ParseSheets(book, sheets, month, file).value[k].Columns() == DataRows(book, sheets)[k][..19]
      && ParseSheets(book, sheets, month, file).value[k].saleMonth == month
    decreases |sheets|
  {
    if |sheets| > 0 {
      SheetsYieldDataRows(book, sheets[1..], month, file);
      var name := sheets[0];
      var rest := DataRows(book, sheets[1..]);
      var out := ParseSheets(book, sheets, month, file).value;
      var outRest := ParseSheets(book, sheets[1..], month, file).value;
      if name in book && |book[name]| > 0 {
        var here := book[name][1..];
        var parsedHere := ParseRows(here, month, file).value;
        assert out == parsedHere + outRest;
        assert DataRows(book, sheets) == here + rest;
        forall k | 0 <= k < |here + rest|
          ensures |(here + rest)[k]| >= 19 && out[k].Columns() == (here + rest)[k][..19]
          ensures out[k].saleMonth == month
        {
          if k >= |here| {
            assert (here + rest)[k] == rest[k - |here|] && out[k] == outRest[k - |here|];
          }
        }
      } else {
        assert DataRows(book, sheets) == rest;
      }
    }
  }

  /** A sheet the list does not name has no influence on the result. */
  lemma {:induction false} OtherSheetsIgnored(book: Book, sheets: seq<string>, other: string, rows: seq<Row>, month: Date, file: string)
    requires other !in sheets
    ensures ParseSheets(book[other := rows], sheets, month, file) == ParseSheets(book, sheets, month, file)
    decreases |sheets|
  {
    if |sheets| > 0 {
      OtherSheetsIgnored(book, sheets[1..], other, rows, month, file);
    }
  }

  /** The legacy `parse_findaway_report`: the Summary sheet's period, then the three fixed sheets. */
  function ParseReport(book: Book, file: string): Result<seq<RoyaltyRow>, ReportError>
  {
    if "Summary" !in book then Failure(MissingSheet("Summary"))
    else
      var month :- FindPeriod(book["Summary"]);
      ParseSheets(book, ChannelSheets, month, file)
  }

  /** Only Summary, Retail, Subscription and Pool are read: any other sheet can change freely. */
  lemma OnlyFixedSheetsRead(book: Book, other: string, rows: seq<Row>, file: string)
    requires other != "Summary" && other !in ChannelSheets
    ensures ParseReport(book[other := rows], file) == ParseReport(book, file)
  {
    var book' := book[other := rows];
    if "Summary" in book {
      assert book'["Summary"] == book["Summary"];
      var month := FindPeriod(book["Summary"]);
      if month.Success? {
        OtherSheetsIgnored(book, ChannelSheets, other, rows, month.value, file);
      }
    }
  }

  /** What a successful parse promises: one record per data row of Retail, Subscription and Pool
      (in that order, blank rows included), each carrying the sale month of the Summary sheet. */
  lemma ReportRows(book: Book, file: string)
    requires ParseReport(book, file).Success?
    ensures "Summary" in book && FindPeriod(book["Summary"]).Success?
    ensures |ParseReport(book, file).value| == |DataRows(book, ChannelSheets)|
    ensures forall k | 0 <= k < |DataRows(book, ChannelSheets)| ::
      |DataRows(book, ChannelSheets)[k]| >= 19
      && ParseReport(book, file).value[k].Columns() == DataRows(book, ChannelSheets)[k][..19]
      && ParseReport(book, file).value[k].saleMonth == FindPeriod(book["Summary"]).value
  {
    SheetsYieldDataRows(book, ChannelSheets, FindPeriod(book["Summary"]).value, file);
  }
}
