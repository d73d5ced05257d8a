/** The statistics pages: the upcoming birthdays of the people in the catalogue, and the digest
    of the latest narrations grouped by month. The current date is a parameter. */
module Stats {
  import opened Wrappers
  import opened Calendar
  import opened Dicts
  import opened Text

  // ----- birthdays -----

  /** A person with a date of birth, as the birthday page reads them, with the number of books
      they wrote, translated and narrated. */
  datatype Person = Person(name: string, birth: Date, authored: nat, translated: nat, narrated: nat)

  /** `month * 31 + day`, the key the list is searched by. */
  function DayKey(d: Date): int
  {
    d.month * 31 + d.day
  }

  /** Python's order on (month, day) pairs. */
  predicate DayBefore(a: Date, b: Date) {
    a.month < b.month || (a.month == b.month && a.day < b.day)
  }

  /** The key orders days of the year as (month, day) does, and tells them apart. */
  lemma DayKeyOrder(a: Date, b: Date)
    requires 1 <= a.day <= 31 && 1 <= b.day <= 31
    ensures DayKey(a) < DayKey(b) <==> DayBefore(a, b)
    ensures DayKey(a) == DayKey(b) <==> a.month == b.month && a.day == b.day
  {
  }

  /** The people as the query returns them: with valid dates of birth, ordered by month and
      day. */
  predicate Listed(people: seq<Person>) {
    && (forall i | 0 <= i < |people| :: ValidDate(people[i].birth.year, people[i].birth.month, people[i].birth.day))
    && (forall i, j | 0 <= i < j < |people| :: !DayBefore(people[j].birth, people[i].birth))
  }

  /** The `days` list. */
  function DayKeys(people: seq<Person>): (r: seq<int>)
    ensures |r| == |people|
    ensures forall i | 0 <= i < |people| :: r[i] == DayKey(people[i].birth)
  {
    seq(|people|, i requires 0 <= i < |people| => DayKey(people[i].birth))
  }

  predicate Ascending(keys: seq<int>) {
    forall i, j | 0 <= i < j < |keys| :: keys[i] <= keys[j]
  }

  lemma ListedAscending(people: seq<Person>)
    requires Listed(people)
    ensures Ascending(DayKeys(people))
  {
    forall i, j | 0 <= i < j < |people| ensures DayKey(people[i].birth) <= DayKey(people[j].birth) {
      DayKeyOrder(people[j].birth, people[i].birth);
    }
  }

  /** The first position whose key is at least `x`, found by looking at each in turn. */
  function FirstAtLeast(keys: seq<int>, x: int): (i: nat)
    ensures i <= |keys|
    ensures forall j | 0 <= j < i :: keys[j] < x
    ensures i < |keys| ==> keys[i] >= x
    decreases |keys|
  {
    if |keys| == 0 || keys[0] >= x then 0 else 1 + FirstAtLeast(keys[1..], x)
  }

  /** A split point with smaller keys before it and no smaller key after it is the first
      position whose key is at least `x`. */
  lemma {:induction false} FirstAtLeastUnique(keys: seq<int>, x: int, i: nat)
    requires i <= |keys|
    requires forall j | 0 <= j < i :: keys[j] < x
    requires forall j | i <= j < |keys| :: keys[j] >= x
    ensures i == FirstAtLeast(keys, x)
  {
    if i > 0 {
      FirstAtLeastUnique(keys[1..], x, i - 1);
    }
  }

  /** `bisect.bisect_left`: binary search, halving the range that can hold the split point. */
  method BisectLeft(keys: seq<int>, x: int) returns (lo: nat)
    requires Ascending(keys)
    ensures lo == FirstAtLeast(keys, x)
  {
    lo := 0;
    var hi := |keys|;
    while lo < hi
      invariant lo <= hi <= |keys|
      invariant forall j | 0 <= j < lo :: keys[j] < x
      invariant forall j | hi <= j < |keys| :: keys[j] >= x
      decreases hi - lo
    {
      var mid := (lo + hi) / 2;
      if keys[mid] < x {
        lo := mid + 1;
      } else {
        hi := mid;
      }
    }
    FirstAtLeastUnique(keys, x, lo);
  }

  /** `people[ind:] + people[:ind]`. */
  function Rotate(people: seq<Person>, k: nat): (r: seq<Person>)
    requires k <= |people|
    ensures |r| == |people|
    ensures multiset(r) == multiset(people)
    ensures forall i | 0 <= i < |people| - k :: r[i] == people[k + i]
    ensures forall i | |people| - k <= i < |people| :: r[i] == people[i - (|people| - k)]
  {
    assert people == people[..k] + people[k..];
    people[k..] + people[..k]
  }

  /** All the people, from the first whose birthday is today or later, around the year. */
  function Around(people: seq<Person>, today: Date): seq<Person>
  {
    Rotate(people, FirstAtLeast(DayKeys(people), DayKey(today)))
  }

  /** The people the page lists: the first 30 around the year. */
  function Upcoming(people: seq<Person>, today: Date): (r: seq<Person>)
    ensures |r| == if |people| < 30 then |people| else 30
  {
    var around := Around(people, today);
    around[..if |around| < 30 then |around| else 30]
  }

  /** Around the year: everyone once; first the birthdays still to come this year, in calendar
      order, then those already past, in calendar order. */
  lemma AroundTheYear(people: seq<Person>, today: Date)
    requires Listed(people)
    ensures var r, m := Around(people, today), |people| - FirstAtLeast(DayKeys(people), DayKey(today));
      && multiset(r) == multiset(people)
      && (forall i | 0 <= i < m :: DayKey(r[i].birth) >= DayKey(today))
      && (forall i | m <= i < |r| :: DayKey(r[i].birth) < DayKey(today))
      && (forall i, j | 0 <= i < j < m :: DayKey(r[i].birth) <= DayKey(r[j].birth))
      && (forall i, j | m <= i < j < |r| :: DayKey(r[i].birth) <= DayKey(r[j].birth))
  {
    ListedAscending(people);
  }

  /** The first date in `year` or later, not before `today`, that falls on the given month and
      day; none when the years `date` accepts run out first. */
  function NextOccurrence(today: Date, month: int, day: int, year: int): (r: Option<Date>)
    ensures r.Some? ==> year <= r.value.year && r.value.month == month && r.value.day == day
    ensures r.Some? ==> ValidDate(r.value.year, month, day) && !Before(r.value, today)
    decreases 10000 - year
  {
    if year > 9999 then None
    else match MakeDate(year, month, day)
      case Some(d) => if Before(d, today) then NextOccurrence(today, month, day, year + 1) else Some(d)
      case None => NextOccurrence(today, month, day, year + 1)
  }

  /** No date before the one found falls on the month and day without being before `today`. */
  lemma {:induction false} NextOccurrenceFirst(today: Date, month: int, day: int, year: int, y: int)
    requires year <= y <= 9999
    requires NextOccurrence(today, month, day, year).None? || y < NextOccurrence(today, month, day, year).value.year
    ensures MakeDate(y, month, day).None? || Before(MakeDate(y, month, day).value, today)
    decreases 10000 - year
  {
    if y > year {
      NextOccurrenceFirst(today, month, day, year + 1, y);
    }
  }

  /** The next birthday: the first day on or after today that is the person's birthday. */
  function NextBirthday(today: Date, birth: Date): Option<Date>
  {
    NextOccurrence(today, birth.month, birth.day, today.year)
  }

  /** `next_birthday` as written: this year's date, or next year's once it has passed; `date`
      raises (here `None`) for a 29 February birthday in a year without one. */
  function NextBirthdayAsWritten(today: Date, birth: Date): Option<Date>
  {
    match MakeDate(today.year, birth.month, birth.day)
    case None => None
    case Some(d) => if Before(d, today) then MakeDate(today.year + 1, birth.month, birth.day) else Some(d)
  }

  /** Whenever the code as written finds a date, it is the next birthday. */
  lemma AsWrittenAgrees(today: Date, birth: Date)
    requires NextBirthdayAsWritten(today, birth).Some?
    ensures NextBirthday(today, birth) == NextBirthdayAsWritten(today, birth)
  {
    var d := MakeDate(today.year, birth.month, birth.day).value;
    if Before(d, today) {
      var later := MakeDate(today.year + 1, birth.month, birth.day);
      assert NextOccurrence(today, birth.month, birth.day, today.year + 1) == later;
    }
  }

  /** For every birthday but 29 February the code as written finds the date: today or later,
      this year or next. */
  lemma AsWrittenFinds(today: Date, birth: Date)
    requires ValidDate(birth.year, birth.month, birth.day) && !(birth.month == 2 && birth.day == 29)
    requires 1 <= today.year < 9999
    ensures NextBirthdayAsWritten(today, birth).Some?
    ensures !Before(NextBirthdayAsWritten(today, birth).value, today)
    ensures NextBirthdayAsWritten(today, birth).value.year <= today.year + 1
  {
  }

  /** Born on 29 February 2000 and looked at on 10 March 2025: the code as written raises,
      while the next birthday is 29 February 2028. */
  lemma LeapDayAsWritten()
    ensures NextBirthdayAsWritten(Date(2025, 3, 10), Date(2000, 2, 29)).None?
    ensures NextBirthday(Date(2025, 3, 10), Date(2000, 2, 29)) == Some(Date(2028, 2, 29))
  {
    var today := Date(2025, 3, 10);
    assert !IsLeap(2025) && !IsLeap(2026) && !IsLeap(2027) && IsLeap(2028);
    assert NextOccurrence(today, 2, 29, 2028) == Some(Date(2028, 2, 29));
    assert NextOccurrence(today, 2, 29, 2027) == NextOccurrence(today, 2, 29, 2028);
    assert NextOccurrence(today, 2, 29, 2026) == NextOccurrence(today, 2, 29, 2027);
  }

  /** A valid occurrence in `y`, not before `today`, is found from any earlier starting year. */
  lemma {:induction false} NextOccurrenceFinds(today: Date, month: int, day: int, year: int, y: int)
    requires year <= y <= 9999
    requires MakeDate(y, month, day).Some? && !Before(MakeDate(y, month, day).value, today)
    ensures NextOccurrence(today, month, day, year).Some?
    decreases 10000 - year
  {
    if year < y {
      NextOccurrenceFinds(today, month, day, year + 1, y);
    }
  }

  /** Every valid birthday comes round again before the years `date` accepts run out: a
      29 February one within eight years. */
  lemma NextBirthdayFound(today: Date, birth: Date)
    requires ValidDate(birth.year, birth.month, birth.day)
    requires 1 <= today.year <= 9990
    ensures NextBirthday(today, birth).Some?
  {
    if birth.month == 2 && birth.day == 29 {
      var y := today.year + 1 + (4 - (today.year + 1) % 4) % 4;
      if y % 100 == 0 && y % 400 != 0 {
        y := y + 4;
      }
      assert IsLeap(y);
      NextOccurrenceFinds(today, 2, 29, today.year, y);
    } else {
      AsWrittenFinds(today, birth);
      AsWrittenAgrees(today, birth);
    }
  }

  /** `now.year - date_of_birth.year`. */
  function Age(today: Date, birth: Date): int
  {
    today.year - birth.year
  }

  /** The age shown is the one reached this calendar year: the age the next birthday brings
      while it is still ahead this year, the age the last one brought once it is past. */
  lemma AgeThisYear(today: Date, birth: Date)
    requires NextBirthday(today, birth).Some?
    ensures var next := NextBirthday(today, birth).value;
      && (next.year == today.year ==> Age(today, birth) == next.year - birth.year)
      && (next.year > today.year ==> Age(today, birth) == next.year - birth.year - (next.year - today.year))
  {
  }

  /** One line of the page: the date of birth, the person, the age and the counts line. */
  datatype Row = Row(birth: Date, person: Person, age: int, stats: string)

  /** `'%d - %d - %d'` of the books authored, translated and narrated. */
  function CountsLine(p: Person): string
  {
    NatText(p.authored) + " - " + NatText(p.translated) + " - " + NatText(p.narrated)
  }

  /** The counts line reads back as the three counts. */
  lemma CountsLineReadsBack(p: Person)
    ensures var line, a, t := CountsLine(p), NatText(p.authored), NatText(p.translated);
      && line[..|a|] == a
      && line[|a|..|a| + 3] == " - "
      && line[|a| + 3..|a| + 3 + |t|] == t
      && line[|a| + 3 + |t|..|a| + 6 + |t|] == " - "
      && line[|a| + 6 + |t|..] == NatText(p.narrated)
      && DigitsValue(a) == p.authored && DigitsValue(t) == p.translated
      && DigitsValue(line[|a| + 6 + |t|..]) == p.narrated
  {
    NatTextValue(p.authored);
    NatTextValue(p.translated);
    NatTextValue(p.narrated);
  }

  /** The row of one person; `None` where computing the next birthday raises. */
  function RowOf(today: Date, p: Person): (r: Option<Row>)
    ensures r.Some? <==> NextBirthday(today, p.birth).Some?
    ensures r.Some? ==> r.value.birth == p.birth && r.value.person == p && r.value.stats == CountsLine(p)
    ensures r.Some? && NextBirthday(today, p.birth).value.year == today.year ==>
      r.value.age == NextBirthday(today, p.birth).value.year - p.birth.year
  {
    match NextBirthday(today, p.birth)
    case None => None
    case Some(_) => Some(Row(p.birth, p, Age(today, p.birth), CountsLine(p)))
  }

  /** The birthday page: one row for each of the first 30 people around the year; `None` when
      some listed birthday lies past the years `date` accepts. */
  method Birthdays(people: seq<Person>, today: Date) returns (rows: Option<seq<Row>>)
    requires Listed(people)
    ensures rows.Some? <==> forall i | 0 <= i < |Upcoming(people, today)| :: RowOf(today, Upcoming(people, today)[i]).Some?
    ensures rows.Some? ==> |rows.value| == |Upcoming(people, today)|
    ensures rows.Some? ==> forall i | 0 <= i < |rows.value| :: RowOf(today, Upcoming(people, today)[i]) == Some(rows.value[i])
  {
    var days := DayKeys(people);
    ListedAscending(people);
    var ind := BisectLeft(days, DayKey(today));
    var rotated := people[ind..] + people[..ind];
    var n := if |rotated| < 30 then |rotated| else 30;
    ghost var upcoming := Upcoming(people, today);
    assert rotated[..n] == upcoming;
    var out: seq<Row> := [];
    var i := 0;
    while i < n
      invariant 0 <= i <= n
      invariant |out| == i
      invariant forall j | 0 <= j < i :: RowOf(today, rotated[j]) == Some(out[j])
    {
      var r := RowOf(today, rotated[i]);
      if r.None? {
        assert RowOf(today, upcoming[i]).None?;
        return None;
      }
      out := out + [r.value];
      i := i + 1;
    }
    return Some(out);
  }

  /** Up to year 9990 every listed person gets a row, 29 February birthdays included. */
  lemma BirthdaysListEveryone(people: seq<Person>, today: Date)
    requires Listed(people)
    requires 1 <= today.year <= 9990
    ensures forall i | 0 <= i < |Upcoming(people, today)| :: RowOf(today, Upcoming(people, today)[i]).Some?
  {
    var around := Around(people, today);
    var up := Upcoming(people, today);
    forall i | 0 <= i < |up| ensures RowOf(today, up[i]).Some? {
      assert up[i] == around[i];
      assert around[i] in multiset(around);
      assert up[i] in people;
      var j :| 0 <= j < |people| && people[j] == up[i];
      NextBirthdayFound(today, up[i].birth);
    }
  }

  /** The row of one person as written: `None` where `date` raises. */
  function RowAsWritten(today: Date, p: Person): Option<Row>
  {
    match NextBirthdayAsWritten(today, p.birth)
    case None => None
    case Some(_) => Some(Row(p.birth, p, Age(today, p.birth), CountsLine(p)))
  }

  /** The rows of the page as written, in order; `None` at the first person whose next birthday
      raises. */
  function RowsAsWritten(today: Date, ps: seq<Person>): (r: Option<seq<Row>>)
    ensures r.Some? ==> |r.value| == |ps|
    decreases |ps|
  {
    if |ps| == 0 then Some([])
    else
      match RowAsWritten(today, ps[0])
      case None => None
      case Some(row) =>
        match RowsAsWritten(today, ps[1..])
        case None => None
        case Some(rest) => Some([row] + rest)
  }

  /** The birthday page as written. */
  function BirthdaysAsWritten(people: seq<Person>, today: Date): Option<seq<Row>>
  {
    RowsAsWritten(today, Upcoming(people, today))
  }

  /** The rows as written fail exactly when some person's date raises, and otherwise are the
      rows the next birthday gives. */
  lemma {:induction false} RowsAsWrittenMeaning(today: Date, ps: seq<Person>)
    ensures RowsAsWritten(today, ps).None? <==>
      exists i | 0 <= i < |ps| :: NextBirthdayAsWritten(today, ps[i].birth).None?
    ensures RowsAsWritten(today, ps).Some? ==>
      forall i | 0 <= i < |ps| :: RowOf(today, ps[i]) == Some(RowsAsWritten(today, ps).value[i])
    decreases |ps|
  {
    if |ps| > 0 {
      RowsAsWrittenMeaning(today, ps[1..]);
      assert forall i | 1 <= i < |ps| :: ps[i] == ps[1..][i - 1];
      if NextBirthdayAsWritten(today, ps[0].birth).Some? {
        AsWrittenAgrees(today, ps[0].birth);
        if RowsAsWritten(today, ps).None? {
          var i :| 0 <= i < |ps[1..]| && NextBirthdayAsWritten(today, ps[1..][i].birth).None?;
          assert NextBirthdayAsWritten(today, ps[i + 1].birth).None?;
        }
      }
    }
  }

  /** Whenever the page as written renders, it shows the rows of the corrected page. */
  lemma BirthdaysAsWrittenAgrees(people: seq<Person>, today: Date)
    requires BirthdaysAsWritten(people, today).Some?
    ensures forall i | 0 <= i < |Upcoming(people, today)| ::
      RowOf(today, Upcoming(people, today)[i]) == Some(BirthdaysAsWritten(people, today).value[i])
  {
    RowsAsWrittenMeaning(today, Upcoming(people, today));
  }

  /** A listed person born on 29 February makes the page as written raise in any year without
      that day. */
  lemma BirthdaysAsWrittenLeapDay(people: seq<Person>, today: Date, i: nat)
    requires i < |Upcoming(people, today)|
    requires Upcoming(people, today)[i].birth.month == 2 && Upcoming(people, today)[i].birth.day == 29
    requires !IsLeap(today.year)
    ensures BirthdaysAsWritten(people, today).None?
  {
    var ps := Upcoming(people, today);
    RowsAsWrittenMeaning(today, ps);
    assert NextBirthdayAsWritten(today, ps[i].birth).None?;
  }

  // ----- digest -----

  /** A narration with the date it was published. */
  datatype Narration = Narration(id: int, date: Date)

  /** `year * 12 + month`, the key narrations are grouped by. */
  function MonthKey(d: Date): int
  {
    d.year * 12 + d.month
  }

  /** The key tells months apart and orders them as (year, month) does. */
  lemma MonthKeyOrder(a: Date, b: Date)
    requires 1 <= a.month <= 12 && 1 <= b.month <= 12
    ensures MonthKey(a) == MonthKey(b) <==> a.year == b.year && a.month == b.month
    ensures MonthKey(a) < MonthKey(b) <==> a.year < b.year || (a.year == b.year && a.month < b.month)
  {
  }

  /** The narrations of one month, in the order given. */
  function OfMonth(ns: seq<Narration>, k: int): seq<Narration>
    decreases |ns|
  {
    if |ns| == 0 then []
    else OfMonth(ns[..|ns| - 1], k) + (if MonthKey(ns[|ns| - 1].date) == k then [ns[|ns| - 1]] else [])
  }

  /** A month's narrations are exactly the given narrations of that month. */
  lemma {:induction false} OfMonthMembers(ns: seq<Narration>, k: int, n: Narration)
    ensures n in OfMonth(ns, k) <==> n in ns && MonthKey(n.date) == k
    decreases |ns|
  {
    if |ns| > 0 {
      var m := |ns| - 1;
      OfMonthMembers(ns[..m], k, n);
      assert ns == ns[..m] + [ns[m]];
    }
  }

  /** A month in the grouping and its narrations. */
  type Month = (int, seq<Narration>)

  /** The loop filling `narrations_by_month`: each narration appended to its month's list, a new
      month added last. */
  function Group(ns: seq<Narration>): (d: Table<int, seq<Narration>>)
    ensures UniqueKeys(d)
    decreases |ns|
  {
    if |ns| == 0 then []
    else
      var m := |ns| - 1;
      var before := Group(ns[..m]);
      var k := MonthKey(ns[m].date);
      var list := match Get(before, k) case Some(l) => l case None => [];
      PutKeys(before, k, list + [ns[m]]);
      Put(before, k, list + [ns[m]])
  }

  /** Each month holds its narrations in order; a month without narrations is absent. */
  lemma {:induction false} GroupHolds(ns: seq<Narration>, k: int)
    ensures Get(Group(ns), k) == if OfMonth(ns, k) == [] then None else Some(OfMonth(ns, k))
    decreases |ns|
  {
    if |ns| > 0 {
      var m := |ns| - 1;
      var before := Group(ns[..m]);
      var key := MonthKey(ns[m].date);
      var list := match Get(before, key) case Some(l) => l case None => [];
      GroupHolds(ns[..m], key);
      assert list == OfMonth(ns[..m], key);
      assert Group(ns) == Put(before, key, list + [ns[m]]);
      if k == key {
        PutGetSame(before, key, list + [ns[m]]);
      } else {
        PutGetOther(before, key, list + [ns[m]], k);
        GroupHolds(ns[..m], k);
        assert Get(Group(ns), k) == Get(before, k);
        assert OfMonth(ns, k) == OfMonth(ns[..m], k) + [];
        assert OfMonth(ns, k) == OfMonth(ns[..m], k);
      }
    }
  }

  /** Every entry of the grouping is a month with its narrations, none empty. */
  lemma GroupEntries(ns: seq<Narration>, i: nat)
    requires i < |Group(ns)|
    ensures Group(ns)[i].1 == OfMonth(ns, Group(ns)[i].0) != []
  {
    GetAt(Group(ns), i);
    GroupHolds(ns, Group(ns)[i].0);
  }

  /** Every narration's month is in the grouping. */
  lemma GroupHasMonth(ns: seq<Narration>, n: Narration)
    requires n in ns
    ensures exists i | 0 <= i < |Group(ns)| :: Group(ns)[i].0 == MonthKey(n.date)
  {
    OfMonthMembers(ns, MonthKey(n.date), n);
    GroupHolds(ns, MonthKey(n.date));
    GetFound(Group(ns), MonthKey(n.date));
  }

  /** Latest month first. */
  predicate Descending(ms: seq<Month>) {
    forall i, j | 0 <= i < j < |ms| :: ms[i].0 > ms[j].0
  }

  lemma HeadAbove(h: Month, rest: seq<Month>, tail: seq<Month>, x: Month)
    requires Descending([h] + tail) && x.0 < h.0
    requires multiset(rest) == multiset(tail) + multiset{x}
    ensures forall j | 0 <= j < |rest| :: rest[j].0 < h.0
  {
    forall j | 0 <= j < |rest| ensures rest[j].0 < h.0 {
      assert rest[j] in multiset(rest);
      if rest[j] != x {
        assert rest[j] in multiset(tail);
        var k :| 0 <= k < |tail| && tail[k] == rest[j];
        assert ([h] + tail)[0] == h && ([h] + tail)[k + 1] == tail[k];
      }
    }
  }

  /** One month put in its place among later and earlier ones. */
  function InsertDesc(ms: seq<Month>, x: Month): (r: seq<Month>)
    requires Descending(ms)
    requires forall i | 0 <= i < |ms| :: ms[i].0 != x.0
    ensures Descending(r)
    ensures multiset(r) == multiset(ms) + multiset{x}
    decreases |ms|
  {
    if |ms| == 0 || x.0 > ms[0].0 then [x] + ms
    else
      var rest := InsertDesc(ms[1..], x);
      assert ms == [ms[0]] + ms[1..];
      HeadAbove(ms[0], rest, ms[1..], x);
      [ms[0]] + rest
  }

  /** Months of a sequence with distinct keys keep their keys apart from the first one's. */
  lemma OthersDiffer(ms: seq<Month>, sorted: seq<Month>)
    requires |ms| > 0 && UniqueKeys(ms)
    requires multiset(sorted) == multiset(ms[1..])
    ensures forall i | 0 <= i < |sorted| :: sorted[i].0 != ms[0].0
  {
    forall i | 0 <= i < |sorted| ensures sorted[i].0 != ms[0].0 {
      assert sorted[i] in multiset(ms[1..]);
      var k :| 0 <= k < |ms[1..]| && ms[1..][k] == sorted[i];
      assert ms[k + 1] == sorted[i];
    }
  }

  /** `sorted(narrations_by_month.items(), reverse=True)`: the keys differ, so the months are
      ordered by key alone. */
  function SortDesc(ms: seq<Month>): (r: seq<Month>)
    requires UniqueKeys(ms)
    ensures Descending(r)
    ensures multiset(r) == multiset(ms)
    decreases |ms|
  {
    if |ms| == 0 then []
    else
      assert UniqueKeys(ms[1..]) by {
        forall i, j | 0 <= i < j < |ms[1..]| ensures ms[1..][i].0 != ms[1..][j].0 {
          assert ms[1..][i] == ms[i + 1] && ms[1..][j] == ms[j + 1];
        }
      }
      var sorted := SortDesc(ms[1..]);
      OthersDiffer(ms, sorted);
      assert ms == [ms[0]] + ms[1..];
      InsertDesc(sorted, ms[0])
  }

  /** The narrations the digest looks at: the latest 100, in the order given. */
  function Recent(narrations: seq<Narration>): (r: seq<Narration>)
    ensures |r| <= 100 && |r| <= |narrations| && r == narrations[..|r|]
  {
    narrations[..if |narrations| < 100 then |narrations| else 100]
  }

  /** The months the digest shows, latest first, at most three. */
  function Shown(narrations: seq<Narration>): (r: seq<Month>)
    ensures |r| <= 3
  {
    var months := SortDesc(Group(Recent(narrations)));
    months[..if |months| < 3 then |months| else 3]
  }

  /** The `digest` page: the narrations of each shown month. */
  function Digest(narrations: seq<Narration>): (r: seq<seq<Narration>>)
    ensures |r| == |Shown(narrations)|
    ensures forall i | 0 <= i < |r| :: r[i] == Shown(narrations)[i].1
  {
    var shown := Shown(narrations);
    seq(|shown|, i requires 0 <= i < |shown| => shown[i].1)
  }

  /** The shown months come latest first, each with all of its recent narrations in order and
      at least one. */
  lemma ShownMonths(narrations: seq<Narration>, i: nat)
    requires i < |Shown(narrations)|
    ensures Descending(Shown(narrations))
    ensures Shown(narrations)[i].1 == OfMonth(Recent(narrations), Shown(narrations)[i].0) != []
  {
    var g := Group(Recent(narrations));
    var months := SortDesc(g);
    assert Shown(narrations)[i] == months[i];
    assert months[i] in multiset(g);
    var k :| 0 <= k < |g| && g[k] == months[i];
    GroupEntries(Recent(narrations), k);
  }

  /** A recent narration's month is shown, or three later months are. */
  lemma ShownLatest(narrations: seq<Narration>, n: Narration)
    requires n in Recent(narrations)
    ensures var s := Shown(narrations);
      MonthKey(n.date) in Keys(s) || (|s| == 3 && MonthKey(n.date) < s[2].0)
  {
    var g := Group(Recent(narrations));
    var months := SortDesc(g);
    GroupHasMonth(Recent(narrations), n);
    var k :| 0 <= k < |g| && g[k].0 == MonthKey(n.date);
    assert g[k] in multiset(months);
    var p :| 0 <= p < |months| && months[p] == g[k];
    var s := Shown(narrations);
    if p < 3 {
      assert s[p] == months[p];
    } else {
      assert s[2] == months[2];
    }
  }
}
