/** The partner sales page: monthly rows as the server sends them, their fold into yearly rows
    (`aggregateByYear`), the footer totals, and the default orderings of the two tables.
    Money is in integer cents. */
module SalesView {
  import opened Wrappers
  import opened Text
  import Decimals

  /** One monthly row of `#sales-data`. */
  datatype MonthRow = MonthRow(
    title: string, slug: string, author: string, year: int, month: int, monthName: string,
    quantity: int, originalAmount: int, share: int, payable: int)

  /** One row of the yearly table. */
  datatype YearRow = YearRow(
    title: string, slug: string, author: string, year: int,
    quantity: int, originalAmount: int, share: int, payable: int)

  /** The grouping key `(book_slug, year)`. */
  datatype Key = Key(slug: string, year: int)

  function KeyOf(r: MonthRow): Key { Key(r.slug, r.year) }
  function YearKey(g: YearRow): Key { Key(g.slug, g.year) }

  /** The summed columns. */
  datatype Measure = Quantity | Original | Payable

  function MonthMeasure(r: MonthRow, m: Measure): int {
    match m
    case Quantity => r.quantity
    case Original => r.originalAmount
    case Payable => r.payable
  }

  function YearMeasure(g: YearRow, m: Measure): int {
    match m
    case Quantity => g.quantity
    case Original => g.originalAmount
    case Payable => g.payable
  }

  // ----- the string key -----

  /** The object key the script builds: `book_slug + '|' + year`. */
  function KeyText(k: Key): string {
    k.slug + "|" + IntText(k.year)
  }

  /** In a key's text the only `|` after the slug is the separator. */
  lemma SeparatorIsLastBar(k: Key)
    ensures forall j | |k.slug| < j < |KeyText(k)| :: KeyText(k)[j] != '|'
  {
    var t := IntText(k.year);
    IntTextSymbols(k.year);
    assert forall j | |k.slug| < j < |KeyText(k)| :: KeyText(k)[j] == t[j - |k.slug| - 1];
  }

  /** Slugs may contain `|`, but a year's text never does, so distinct keys give distinct
      strings and grouping by the string is grouping by `(book_slug, year)`. */
  lemma KeyTextInjective(a: Key, b: Key)
    requires KeyText(a) == KeyText(b)
    ensures a == b
  {
    var t := KeyText(a);
    assert |a.slug| == |b.slug| by {
      SeparatorIsLastBar(a);
      SeparatorIsLastBar(b);
      assert t[|a.slug|] == '|' && t[|b.slug|] == '|';
    }
    assert a.slug == t[..|a.slug|] == b.slug;
    assert IntText(a.year) == t[|a.slug| + 1..] == IntText(b.year);
    SignedIntRoundTrip(a.year);
    SignedIntRoundTrip(b.year);
  }

  // ----- reference definitions over the monthly rows -----

  /** The position of the first monthly row with key `k`. */
  function FirstIndex(data: seq<MonthRow>, k: Key): (r: Option<nat>)
    ensures r.Some? ==> r.value < |data| && KeyOf(data[r.value]) == k
    ensures r.Some? ==> forall j | 0 <= j < r.value :: KeyOf(data[j]) != k
    ensures r.None? ==> forall j | 0 <= j < |data| :: KeyOf(data[j]) != k
  {
    if |data| == 0 then None
    else
      var init := data[..|data| - 1];
      assert forall j | 0 <= j < |init| :: init[j] == data[j];
      match FirstIndex(init, k)
      case Some(i) => Some(i)
      case None => if KeyOf(data[|data| - 1]) == k then Some(|data| - 1) else None
  }

  /** The sum of one column over the monthly rows with key `k`. */
  function Total(data: seq<MonthRow>, k: Key, m: Measure): int {
    if |data| == 0 then 0
    else
      Total(data[..|data| - 1], k, m)
      + (if KeyOf(data[|data| - 1]) == k then MonthMeasure(data[|data| - 1], m) else 0)
  }

  /** The sum of one column over all monthly rows. */
  function MonthSum(data: seq<MonthRow>, m: Measure): int {
    if |data| == 0 then 0 else MonthSum(data[..|data| - 1], m) + MonthMeasure(data[|data| - 1], m)
  }

  /** The sum of one column over yearly rows. */
  function YearSum(groups: seq<YearRow>, m: Measure): int {
    if |groups| == 0 then 0 else YearSum(groups[..|groups| - 1], m) + YearMeasure(groups[|groups| - 1], m)
  }

  // ----- aggregateByYear -----

  /** Where the yearly row with key `k` sits, if there is one. */
  function IndexOf(groups: seq<YearRow>, k: Key): (r: Option<nat>)
    ensures r.Some? ==> r.value < |groups| && YearKey(groups[r.value]) == k
    ensures r.None? ==> forall i | 0 <= i < |groups| :: YearKey(groups[i]) != k
  {
    if |groups| == 0 then None
    else if YearKey(groups[0]) == k then Some(0)
    else
      match IndexOf(groups[1..], k)
      case None =>
        assert forall i | 1 <= i < |groups| :: groups[i] == groups[1..][i - 1];
        None
      case Some(i) => Some(i + 1)
  }

  /** A new group takes title, slug, author, year and share from its first row, with zero sums. */
  function Start(r: MonthRow): YearRow {
    YearRow(r.title, r.slug, r.author, r.year, 0, 0, r.share, 0)
  }

  /** The three `+=` of the loop body. */
  function Accrue(g: YearRow, r: MonthRow): YearRow {
    g.(quantity := g.quantity + r.quantity,
       originalAmount := g.originalAmount + r.originalAmount,
       payable := g.payable + r.payable)
  }

  /** One iteration of `data.forEach`. */
  function Fold(groups: seq<YearRow>, r: MonthRow): seq<YearRow> {
    match IndexOf(groups, KeyOf(r))
    case None => groups + [Accrue(Start(r), r)]
    case Some(i) => groups[i := Accrue(groups[i], r)]
  }

  /** `aggregateByYear(data)`: the groups in insertion order. The keys always contain `|`, so
      none is an array index and `Object.values` keeps insertion order. */
  function Aggregate(data: seq<MonthRow>): seq<YearRow> {
    if |data| == 0 then [] else Fold(Aggregate(data[..|data| - 1]), data[|data| - 1])
  }

  // ----- what the yearly rows mean -----

  /** A yearly row agrees with the monthly rows: it names a key present there, takes its
      descriptive fields from the first row with that key, and sums the rest. */
  predicate Fits(g: YearRow, data: seq<MonthRow>) {
    var first := FirstIndex(data, YearKey(g));
    && first.Some?
    && g.title == data[first.value].title
    && g.author == data[first.value].author
    && g.share == data[first.value].share
    && g.quantity == Total(data, YearKey(g), Quantity)
    && g.originalAmount == Total(data, YearKey(g), Original)
    && g.payable == Total(data, YearKey(g), Payable)
  }

  /** Key `a` first occurs before key `b`. */
  predicate OccursBefore(data: seq<MonthRow>, a: Key, b: Key) {
    FirstIndex(data, a).Some? && FirstIndex(data, b).Some? && FirstIndex(data, a).value < FirstIndex(data, b).value
  }

  /** The yearly rows describe the monthly rows: each fits, they are in first-occurrence order,
      and every monthly row's key has a yearly row. */
  predicate Describes(groups: seq<YearRow>, data: seq<MonthRow>) {
    && (forall i | 0 <= i < |groups| :: Fits(groups[i], data))
    && (forall i, j | 0 <= i < j < |groups| :: OccursBefore(data, YearKey(groups[i]), YearKey(groups[j])))
    && (forall n | 0 <= n < |data| :: IndexOf(groups, KeyOf(data[n])).Some?)
  }

  lemma ExtendFirst(data: seq<MonthRow>, r: MonthRow, k: Key)
    ensures FirstIndex(data + [r], k) ==
      if FirstIndex(data, k).Some? then FirstIndex(data, k)
      else if KeyOf(r) == k then Some(|data|) else None
  {
    assert (data + [r])[..|data|] == data;
  }

  lemma ExtendTotal(data: seq<MonthRow>, r: MonthRow, k: Key, m: Measure)
    ensures Total(data + [r], k, m) == Total(data, k, m) + (if KeyOf(r) == k then MonthMeasure(r, m) else 0)
  {
    assert (data + [r])[..|data|] == data;
  }

  lemma {:induction false} TotalAbsent(data: seq<MonthRow>, k: Key, m: Measure)
    requires FirstIndex(data, k).None?
    ensures Total(data, k, m) == 0
    decreases |data|
  {
    if |data| > 0 {
      var init := data[..|data| - 1];
      assert FirstIndex(init, k).None?;
      TotalAbsent(init, k, m);
    }
  }

  /** A group that fits keeps fitting when a row with another key arrives. */
  lemma FitsOtherKey(g: YearRow, data: seq<MonthRow>, r: MonthRow)
    requires Fits(g, data) && KeyOf(r) != YearKey(g)
    ensures Fits(g, data + [r])
  {
    var k := YearKey(g);
    ExtendFirst(data, r, k);
    ExtendTotal(data, r, k, Quantity);
    ExtendTotal(data, r, k, Original);
    ExtendTotal(data, r, k, Payable);
    assert (data + [r])[FirstIndex(data, k).value] == data[FirstIndex(data, k).value];
  }

  /** A group that fits, accrued with a row of its key, fits the longer list. */
  lemma FitsSameKey(g: YearRow, data: seq<MonthRow>, r: MonthRow)
    requires Fits(g, data) && KeyOf(r) == YearKey(g)
    ensures Fits(Accrue(g, r), data + [r])
  {
    var k := YearKey(g);
    ExtendFirst(data, r, k);
    ExtendTotal(data, r, k, Quantity);
    ExtendTotal(data, r, k, Original);
    ExtendTotal(data, r, k, Payable);
    assert (data + [r])[FirstIndex(data, k).value] == data[FirstIndex(data, k).value];
  }

  /** A new group fits once its first row arrives. */
  lemma FitsNewKey(data: seq<MonthRow>, r: MonthRow)
    requires FirstIndex(data, KeyOf(r)).None?
    ensures Fits(Accrue(Start(r), r), data + [r])
  {
    var k := KeyOf(r);
    ExtendFirst(data, r, k);
    ExtendTotal(data, r, k, Quantity);
    ExtendTotal(data, r, k, Original);
    ExtendTotal(data, r, k, Payable);
    TotalAbsent(data, k, Quantity);
    TotalAbsent(data, k, Original);
    TotalAbsent(data, k, Payable);
    assert (data + [r])[|data|] == r;
  }

  lemma OccursBeforeExtends(data: seq<MonthRow>, r: MonthRow, a: Key, b: Key)
    requires OccursBefore(data, a, b)
    ensures OccursBefore(data + [r], a, b)
  {
    ExtendFirst(data, r, a);
    ExtendFirst(data, r, b);
  }

  /** A key without a yearly row has no monthly row either, when every monthly row is covered. */
  lemma NewKeyAbsent(groups: seq<YearRow>, data: seq<MonthRow>, k: Key)
    requires forall n | 0 <= n < |data| :: IndexOf(groups, KeyOf(data[n])).Some?
    requires IndexOf(groups, k).None?
    ensures FirstIndex(data, k).None?
  {
    forall n | 0 <= n < |data| ensures KeyOf(data[n]) != k {
      assert IndexOf(groups, KeyOf(data[n])).Some?;
    }
  }

  lemma FoldFits(groups: seq<YearRow>, data: seq<MonthRow>, r: MonthRow)
    requires Describes(groups, data)
    ensures forall i | 0 <= i < |Fold(groups, r)| :: Fits(Fold(groups, r)[i], data + [r])
  {
    var out := Fold(groups, r);
    match IndexOf(groups, KeyOf(r))
    case None =>
      NewKeyAbsent(groups, data, KeyOf(r));
      forall i | 0 <= i < |out| ensures Fits(out[i], data + [r]) {
        if i < |groups| { FitsOtherKey(groups[i], data, r); } else { FitsNewKey(data, r); }
      }
    case Some(i) =>
      forall j | 0 <= j < |out| ensures Fits(out[j], data + [r]) {
        if j == i { FitsSameKey(groups[i], data, r); } else { FitsOtherKey(groups[j], data, r); }
      }
  }

  lemma FoldOrdered(groups: seq<YearRow>, data: seq<MonthRow>, r: MonthRow)
    requires Describes(groups, data)
    ensures forall i, j | 0 <= i < j < |Fold(groups, r)| ::
      OccursBefore(data + [r], YearKey(Fold(groups, r)[i]), YearKey(Fold(groups, r)[j]))
  {
    var out := Fold(groups, r);
    var k := KeyOf(r);
    match IndexOf(groups, k)
    case None =>
      NewKeyAbsent(groups, data, k);
      forall i, j | 0 <= i < j < |out| ensures OccursBefore(data + [r], YearKey(out[i]), YearKey(out[j])) {
        if j < |groups| {
          OccursBeforeExtends(data, r, YearKey(groups[i]), YearKey(groups[j]));
        } else {
          assert Fits(groups[i], data);
          ExtendFirst(data, r, YearKey(groups[i]));
          ExtendFirst(data, r, k);
        }
      }
    case Some(_) =>
      forall a, b | 0 <= a < b < |out| ensures OccursBefore(data + [r], YearKey(out[a]), YearKey(out[b])) {
        OccursBeforeExtends(data, r, YearKey(groups[a]), YearKey(groups[b]));
      }
  }

  lemma FoldCovers(groups: seq<YearRow>, data: seq<MonthRow>, r: MonthRow)
    requires forall n | 0 <= n < |data| :: IndexOf(groups, KeyOf(data[n])).Some?
    ensures forall n | 0 <= n < |data + [r]| :: IndexOf(Fold(groups, r), KeyOf((data + [r])[n])).Some?
  {
    var out := Fold(groups, r);
    var data' := data + [r];
    forall n | 0 <= n < |data'| ensures IndexOf(out, KeyOf(data'[n])).Some? {
      if n < |data| {
        assert data'[n] == data[n];
        var j := IndexOf(groups, KeyOf(data[n])).value;
        assert YearKey(out[j]) == KeyOf(data'[n]);
      } else {
        match IndexOf(groups, KeyOf(r))
        case None => assert YearKey(out[|groups|]) == KeyOf(r);
        case Some(i) => assert YearKey(out[i]) == KeyOf(r);
      }
    }
  }

  lemma InitLast(data: seq<MonthRow>)
    requires |data| > 0
    ensures data[..|data| - 1] + [data[|data| - 1]] == data
  {
  }

  /** Folding one more monthly row keeps the yearly rows describing the monthly rows. */
  lemma FoldDescribes(groups: seq<YearRow>, data: seq<MonthRow>, r: MonthRow)
    requires Describes(groups, data)
    ensures Describes(Fold(groups, r), data + [r])
  {
    FoldFits(groups, data, r);
    FoldOrdered(groups, data, r);
    FoldCovers(groups, data, r);
  }

  /** `aggregateByYear` yields one row per distinct `(book_slug, year)`, in order of first
      occurrence; each sums quantity, original amount and payable royalty over its monthly rows,
      and takes title, author and royalty share from the first of them. */
  lemma {:induction false} AggregateDescribes(data: seq<MonthRow>)
    ensures Describes(Aggregate(data), data)
    decreases |data|
  {
    if |data| > 0 {
      var init := data[..|data| - 1];
      var r := data[|data| - 1];
      InitLast(data);
      AggregateDescribes(init);
      FoldDescribes(Aggregate(init), init, r);
    }
  }

  /** Every yearly row's key occurs among the monthly rows. */
  lemma AggregateKeysOccur(data: seq<MonthRow>, i: nat)
    requires i < |Aggregate(data)|
    ensures FirstIndex(data, YearKey(Aggregate(data)[i])).Some?
  {
    AggregateDescribes(data);
    assert Fits(Aggregate(data)[i], data);
  }

  /** Every monthly row's key has a yearly row. */
  lemma AggregateKeysCovered(data: seq<MonthRow>, n: nat)
    requires n < |data|
    ensures IndexOf(Aggregate(data), KeyOf(data[n])).Some?
  {
    AggregateDescribes(data);
  }

  /** No key has two yearly rows. */
  lemma AggregateKeysDistinct(data: seq<MonthRow>)
    ensures forall i, j | 0 <= i < j < |Aggregate(data)| :: YearKey(Aggregate(data)[i]) != YearKey(Aggregate(data)[j])
  {
    AggregateDescribes(data);
  }

  // ----- totals -----

  lemma {:induction false} YearSumAppend(groups: seq<YearRow>, g: YearRow, m: Measure)
    ensures YearSum(groups + [g], m) == YearSum(groups, m) + YearMeasure(g, m)
  {
    assert (groups + [g])[..|groups|] == groups;
  }

  lemma {:induction false} YearSumUpdate(groups: seq<YearRow>, i: nat, g: YearRow, m: Measure)
    requires i < |groups|
    ensures YearSum(groups[i := g], m) == YearSum(groups, m) - YearMeasure(groups[i], m) + YearMeasure(g, m)
    decreases |groups|
  {
    var n := |groups| - 1;
    var init := groups[..n];
    assert groups[i := g][..n] == (if i < n then init[i := g] else init);
    if i < n {
      YearSumUpdate(init, i, g, m);
    }
  }

  /** Folding keeps the column sums equal across the two views. */
  lemma {:induction false} AggregateKeepsTotals(data: seq<MonthRow>, m: Measure)
    ensures YearSum(Aggregate(data), m) == MonthSum(data, m)
    decreases |data|
  {
    if |data| > 0 {
      var init := data[..|data| - 1];
      var r := data[|data| - 1];
      var groups := Aggregate(init);
      AggregateKeepsTotals(init, m);
      match IndexOf(groups, KeyOf(r))
      case None => YearSumAppend(groups, Accrue(Start(r), r), m);
      case Some(i) => YearSumUpdate(groups, i, Accrue(groups[i], r), m);
    }
  }

  // ----- footer -----

  /** The footer texts: the quantity total as an integer and the payable total as
      `'$' + total.toFixed(2)`. */
  datatype Footer = Footer(quantity: string, payable: string)

  /** Cents as `toFixed(2)` writes the amount in dollars. */
  function Money(cents: int): (r: string)
    ensures |r| >= 2 && r[0] == '$'
  {
    "$" + Decimals.DecimalText(Decimals.Decimal(cents, 2))
  }

  /** `createFooterCallback` over the displayed monthly rows. */
  function MonthlyFooter(shown: seq<MonthRow>): Footer {
    Footer(IntText(MonthSum(shown, Quantity)), Money(MonthSum(shown, Payable)))
  }

  /** `createFooterCallback` over the displayed yearly rows. */
  function YearlyFooter(shown: seq<YearRow>): Footer {
    Footer(IntText(YearSum(shown, Quantity)), Money(YearSum(shown, Payable)))
  }

  /** The footer reads back: the quantity text parses to the quantity total and the money text,
      after `$`, to the payable total in cents. */
  lemma FooterReadsBack(shown: seq<MonthRow>)
    ensures ParseInt(MonthlyFooter(shown).quantity) == Some(MonthSum(shown, Quantity))
    ensures Decimals.ParseSigned(MonthlyFooter(shown).payable[1..]).Some?
    ensures Decimals.ParseSigned(MonthlyFooter(shown).payable[1..]).value.unscaled == MonthSum(shown, Payable)
    ensures Decimals.ParseSigned(MonthlyFooter(shown).payable[1..]).value.scale == 2
  {
    IntTextRoundTrip(MonthSum(shown, Quantity));
    var d := Decimals.Decimal(MonthSum(shown, Payable), 2);
    Decimals.DecimalTextRoundTrip(d);
    assert MonthlyFooter(shown).payable[1..] == Decimals.DecimalText(d);
  }

  /** Switching views does not change the footer over the full table. */
  lemma FootersAgree(data: seq<MonthRow>)
    ensures YearlyFooter(Aggregate(data)) == MonthlyFooter(data)
  {
    AggregateKeepsTotals(data, Quantity);
    AggregateKeepsTotals(data, Payable);
  }

  // ----- default ordering -----

  datatype Direction = Asc | Desc

  /** The value a column sorts by: the month column sorts by month number. */
  datatype SortValue = Num(n: int) | Str(s: string)

  const MonthlyColumns: seq<string> := ["book_title", "author", "year", "month_name", "quantity",
                                        "original_amount", "royalty_share", "payable_royalty"]
  const YearlyColumns: seq<string> := ["book_title", "author", "year", "quantity",
                                       "original_amount", "royalty_share", "payable_royalty"]

  /** `order: [[2, 'desc'], [3, 'desc'], [0, 'asc']]`. */
  const MonthlyOrder: seq<(nat, Direction)> := [(2, Desc), (3, Desc), (0, Asc)]
  /** `order: [[2, 'desc'], [0, 'asc']]`. */
  const YearlyOrder: seq<(nat, Direction)> := [(2, Desc), (0, Asc)]

  /** The values the monthly columns sort by, after the string columns' pre-formatting, which
      lower-cases them; the month column sorts by month number. */
  function MonthlyValues(r: MonthRow): (vs: seq<SortValue>)
    ensures |vs| == |MonthlyColumns|
  {
    [Str(Lower(r.title)), Str(Lower(r.author)), Num(r.year), Num(r.month), Num(r.quantity),
     Num(r.originalAmount), Num(r.share), Num(r.payable)]
  }

  function YearlyValues(g: YearRow): (vs: seq<SortValue>)
    ensures |vs| == |YearlyColumns|
  {
    [Str(Lower(g.title)), Str(Lower(g.author)), Num(g.year), Num(g.quantity), Num(g.originalAmount),
     Num(g.share), Num(g.payable)]
  }

  /** Code-point lexicographic order on strings. */
  predicate TextLess(a: string, b: string) {
    if |a| == 0 then |b| > 0
    else if |b| == 0 then false
    else a[0] < b[0] || (a[0] == b[0] && TextLess(a[1..], b[1..]))
  }

  lemma {:induction false} TextLessIrreflexive(s: string)
    ensures !TextLess(s, s)
  {
    if |s| > 0 { TextLessIrreflexive(s[1..]); }
  }

  predicate ValueLess(a: SortValue, b: SortValue) {
    match (a, b)
    case (Num(x), Num(y)) => x < y
    case (Str(x), Str(y)) => TextLess(x, y)
    case (Num(_), Str(_)) => true
    case (Str(_), Num(_)) => false
  }

  predicate Within(order: seq<(nat, Direction)>, width: nat) {
    forall i | 0 <= i < |order| :: order[i].0 < width
  }

  /** Multi-column ordering: the first column where the rows differ decides, in its direction. */
  predicate Precedes(order: seq<(nat, Direction)>, a: seq<SortValue>, b: seq<SortValue>)
    requires Within(order, |a|) && Within(order, |b|)
    decreases |order|
  {
    if |order| == 0 then false
    else
      var (column, dir) := order[0];
      if a[column] != b[column] then
        (if dir == Asc then ValueLess(a[column], b[column]) else ValueLess(b[column], a[column]))
      else Precedes(order[1..], a, b)
  }

  predicate MonthlyPrecedes(a: MonthRow, b: MonthRow) {
    Precedes(MonthlyOrder, MonthlyValues(a), MonthlyValues(b))
  }

  predicate YearlyPrecedes(a: YearRow, b: YearRow) {
    Precedes(YearlyOrder, YearlyValues(a), YearlyValues(b))
  }

  /** The monthly default order is year descending, then month descending (by number, not
      name), then title ascending regardless of letter case; titles equal but for case tie. */
  lemma MonthlyOrderMeaning(a: MonthRow, b: MonthRow)
    ensures MonthlyColumns[2] == "year" && MonthlyColumns[3] == "month_name" && MonthlyColumns[0] == "book_title"
    ensures MonthlyPrecedes(a, b) <==>
      || a.year > b.year
      || (a.year == b.year && a.month > b.month)
      || (a.year == b.year && a.month == b.month && TextLess(Lower(a.title), Lower(b.title)))
  {
    var va, vb := MonthlyValues(a), MonthlyValues(b);
    assert va[2] == Num(a.year) && va[3] == Num(a.month) && va[0] == Str(Lower(a.title));
    assert vb[2] == Num(b.year) && vb[3] == Num(b.month) && vb[0] == Str(Lower(b.title));
    var o1 := MonthlyOrder[1..];
    var o2 := o1[1..];
    assert o1 == [(3, Desc), (0, Asc)] && o2 == [(0, Asc)] && o2[1..] == [];
    TextLessIrreflexive(Lower(a.title));
    assert Precedes(o2, va, vb) <==> TextLess(Lower(a.title), Lower(b.title));
    assert Precedes(o1, va, vb) <==> a.month > b.month || (a.month == b.month && TextLess(Lower(a.title), Lower(b.title)));
  }

  /** The yearly default order is year descending, then title ascending regardless of letter
      case. */
  lemma YearlyOrderMeaning(a: YearRow, b: YearRow)
    ensures YearlyColumns[2] == "year" && YearlyColumns[0] == "book_title"
    ensures YearlyPrecedes(a, b) <==>
      a.year > b.year || (a.year == b.year && TextLess(Lower(a.title), Lower(b.title)))
  {
    var va, vb := YearlyValues(a), YearlyValues(b);
    assert va[2] == Num(a.year) && va[0] == Str(Lower(a.title));
    assert vb[2] == Num(b.year) && vb[0] == Str(Lower(b.title));
    var o1 := YearlyOrder[1..];
    assert o1 == [(0, Asc)] && o1[1..] == [];
    TextLessIrreflexive(Lower(a.title));
    assert Precedes(o1, va, vb) <==> TextLess(Lower(a.title), Lower(b.title));
  }

  /** Letter case does not decide: "apple" comes before "Banana", although 'B' comes before
      'a' in code-point order. */
  lemma TitlesIgnoreCase()
    ensures TextLess("Banana", "apple")
    ensures YearlyPrecedes(YearRow("apple", "apple", "A", 2025, 1, 100, 50, 50),
                           YearRow("Banana", "banana", "B", 2025, 1, 100, 50, 50))
  {
    var a, b := YearRow("apple", "apple", "A", 2025, 1, 100, 50, 50), YearRow("Banana", "banana", "B", 2025, 1, 100, 50, 50);
    YearlyOrderMeaning(a, b);
    assert Lower("Banana") == "banana";
    assert TextLess("apple", "banana");
  }

  /** The footers total the quantity and payable-royalty columns of each table. */
  lemma FooterColumns()
    ensures MonthlyColumns[4] == "quantity" && MonthlyColumns[7] == "payable_royalty"
    ensures YearlyColumns[3] == "quantity" && YearlyColumns[6] == "payable_royalty"
    ensures forall r: MonthRow :: MonthlyValues(r)[4] == Num(r.quantity) && MonthlyValues(r)[7] == Num(r.payable)
    ensures forall g: YearRow :: YearlyValues(g)[3] == Num(g.quantity) && YearlyValues(g)[6] == Num(g.payable)
  {
  }

  // ----- the sales page fixture -----

  /** Two books: the first sold 10 and 5 copies in November and December 2025 at a 50% share,
      the second 28 copies in January 2026 at 25%; amounts in cents. */
  const FixtureMonths: seq<MonthRow> := [
    MonthRow("Second Book", "second-book", "Viktar", 2026, 1, "Студзень", 28, 28000, 25, 7000),
    MonthRow("First Book", "first-book", "Ales", 2025, 12, "Снежань", 5, 5000, 50, 2500),
    MonthRow("First Book", "first-book", "Ales", 2025, 11, "Лістапад", 10, 10000, 50, 5000)]

  /** The yearly table of the fixture: two rows, the first book's months summed. */
  lemma FixtureYearly()
    ensures Aggregate(FixtureMonths) == [
      YearRow("Second Book", "second-book", "Viktar", 2026, 28, 28000, 25, 7000),
      YearRow("First Book", "first-book", "Ales", 2025, 15, 15000, 50, 7500)]
  {
    var d := FixtureMonths;
    var second := YearRow("Second Book", "second-book", "Viktar", 2026, 28, 28000, 25, 7000);
    var first := YearRow("First Book", "first-book", "Ales", 2025, 5, 5000, 50, 2500);
    assert d[..1][..0] == [] && d[..2][..1] == d[..1] && d[..3][..2] == d[..2] && d[..3] == d;
    assert Aggregate(d[..1]) == Fold([], d[0]) == [second];
    assert IndexOf([second], KeyOf(d[1])) == None;
    assert Aggregate(d[..2]) == Fold([second], d[1]) == [second, first];
    assert IndexOf([second, first], KeyOf(d[2])) == Some(1);
    assert Aggregate(d) == Fold([second, first], d[2]);
  }

  /** Both tables are in their default order as listed. */
  lemma FixtureOrdered()
    ensures MonthlyPrecedes(FixtureMonths[0], FixtureMonths[1])
    ensures MonthlyPrecedes(FixtureMonths[1], FixtureMonths[2])
    ensures YearlyPrecedes(YearRow("Second Book", "second-book", "Viktar", 2026, 28, 28000, 25, 7000),
                           YearRow("First Book", "first-book", "Ales", 2025, 15, 15000, 50, 7500))
  {
    MonthlyOrderMeaning(FixtureMonths[0], FixtureMonths[1]);
    MonthlyOrderMeaning(FixtureMonths[1], FixtureMonths[2]);
    YearlyOrderMeaning(YearRow("Second Book", "second-book", "Viktar", 2026, 28, 28000, 25, 7000),
                       YearRow("First Book", "first-book", "Ales", 2025, 15, 15000, 50, 7500));
  }

  /** The fixture's totals: 43 copies and 14500 cents payable. */
  lemma FixtureTotals()
    ensures MonthSum(FixtureMonths, Quantity) == 43 && MonthSum(FixtureMonths, Payable) == 14500
  {
    var d := FixtureMonths;
    assert d[..1][..0] == [] && d[..2][..1] == d[..1] && d[..3][..2] == d[..2] && d[..3] == d;
    assert d[..1][0] == d[0] && d[..2][1] == d[1];
    assert MonthSum(d[..1], Quantity) == 28;
    assert MonthSum(d[..2], Quantity) == 33;
    assert MonthSum(d[..1], Payable) == 7000;
    assert MonthSum(d[..2], Payable) == 9500;
  }

  /** 14500 cents are written "$145.00". */
  lemma MoneyExample()
    ensures Money(14500) == "$145.00"
  {
    assert NatText(1) == "1" && NatText(14) == "14" && NatText(145) == "145";
    assert NatText(1450) == "1450" && NatText(14500) == "14500";
    assert Decimals.DecimalText(Decimals.Decimal(14500, 2)) == "145.00";
  }

  /** The footer of either table shows 43 copies and $145.00. */
  lemma FixtureFooter()
    ensures MonthlyFooter(FixtureMonths) == Footer("43", "$145.00")
    ensures YearlyFooter(Aggregate(FixtureMonths)) == Footer("43", "$145.00")
  {
    FixtureTotals();
    MoneyExample();
    assert NatText(4) == "4" && NatText(43) == "43";
    FootersAgree(FixtureMonths);
  }
}
