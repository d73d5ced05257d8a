/** An XLSX workbook as the parsers see it after loading with `values_only=True`: each sheet
    is a sequence of rows, each row a tuple of cells, and each cell is `None`, a string, an
    integer or an exact decimal. */
module Workbook {
  import opened Wrappers
  import opened Text
  import opened Decimals

  datatype Cell = Empty | Str(s: string) | Number(n: int) | Amount(d: Decimal)

  type Row = seq<Cell>

  /** Sheet name to rows; `wb.sheetnames` is the key set. */
  type Book = map<string, seq<Row>>

  /** Python truthiness of a cell value, as `x or default` uses it. */
  predicate Truthy(c: Cell) {
    match c
    case Empty => false
    case Str(s) => |s| > 0
    case Number(n) => n != 0
    case Amount(d) => d.unscaled != 0
  }

  /** `x or default`. */
  function OrElse(c: Cell, default: Cell): (r: Cell)
    ensures Truthy(c) ==> r == c
    ensures !Truthy(c) ==> r == default
  {
    if Truthy(c) then c else default
  }

  /** `str(x)` of a cell value: `None` prints as "None". */
  function CellText(c: Cell): string {
    match c
    case Empty => "None"
    case Str(s) => s
    case Number(n) => IntText(n)
    case Amount(d) => DecimalText(d)
  }

  /** `row[i]`, which raises IndexError (here `None`) past the end of the tuple. */
  function At(row: Row, i: nat): (r: Option<Cell>)
    ensures r.Some? <==> i < |row|
    ensures r.Some? ==> r.value == row[i]
  {
    if i < |row| then Some(row[i]) else None
  }

  /** Whether cell 0 of a row holds exactly the string `tag` (`row[0] == tag`). */
  predicate Labelled(row: Row, tag: string) {
    |row| > 0 && row[0] == Str(tag)
  }
}
