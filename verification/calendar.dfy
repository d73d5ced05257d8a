/** Calendar dates as Python's `datetime.date` checks them, and the English month names the
    royalty reports use. */
module Calendar {
  import opened Wrappers

  datatype Date = Date(year: int, month: int, day: int)

  predicate IsLeap(year: int) {
    year % 4 == 0 && (year % 100 != 0 || year % 400 == 0)
  }

  function DaysInMonth(year: int, month: int): (r: int)
    requires 1 <= month <= 12
    ensures 28 <= r <= 31
    ensures month == 2 ==> (r == 29 <==> IsLeap(year))
  {
    if month == 2 then (if IsLeap(year) then 29 else 28)
    else if month == 4 || month == 6 || month == 9 || month == 11 then 30
    else 31
  }

  /** The range `date` accepts: years 1 to 9999, months 1 to 12, days within the month. */
  predicate ValidDate(year: int, month: int, day: int) {
    1 <= year <= 9999 && 1 <= month <= 12 && 1 <= day <= DaysInMonth(year, month)
  }

  /** `date(year, month, day)`, which raises ValueError (here `None`) outside the valid range. */
  function MakeDate(year: int, month: int, day: int): (r: Option<Date>)
    ensures r.Some? <==> ValidDate(year, month, day)
    ensures r.Some? ==> r.value.year == year && r.value.month == month && r.value.day == day
  {
    if ValidDate(year, month, day) then Some(Date(year, month, day)) else None
  }

  /** The first of the month exists for every month of every year `date` accepts. */
  lemma FirstOfMonthExists(year: int, month: int)
    requires 1 <= year <= 9999 && 1 <= month <= 12
    ensures MakeDate(year, month, 1).Some?
  {
  }

  /** February 29th exists exactly in leap years. */
  lemma LeapDayExists(year: int)
    requires 1 <= year <= 9999
    ensures MakeDate(year, 2, 29).Some? <==> IsLeap(year)
  {
  }

  /** Python's `<` on dates: lexicographic on (year, month, day). */
  predicate Before(a: Date, b: Date) {
    a.year < b.year || (a.year == b.year && (a.month < b.month || (a.month == b.month && a.day < b.day)))
  }

  /** `Before` is a strict total order. */
  lemma BeforeTotal(a: Date, b: Date)
    ensures !(Before(a, b) && Before(b, a))
    ensures a != b ==> Before(a, b) || Before(b, a)
  {
  }

  /** The `MONTH_NAMES` table: English month names to month numbers, case-sensitive. */
  function MonthNumber(name: string): (r: Option<int>)
    ensures r.Some? ==> 1 <= r.value <= 12 && MonthName(r.value) == name
  {
    if name == "January" then Some(1)
    else if name == "February" then Some(2)
    else if name == "March" then Some(3)
    else if name == "April" then Some(4)
    else if name == "May" then Some(5)
    else if name == "June" then Some(6)
    else if name == "July" then Some(7)
    else if name == "August" then Some(8)
    else if name == "September" then Some(9)
    else if name == "October" then Some(10)
    else if name == "November" then Some(11)
    else if name == "December" then Some(12)
    else None
  }

  /** The English name of a month number, the inverse of `MonthNumber`. */
  function MonthName(m: int): (r: string)
    requires 1 <= m <= 12
  {
    ["January", "February", "March", "April", "May", "June", "July", "August", "September",
     "October", "November", "December"][m - 1]
  }

  /** Every month number has exactly one name, and the table reads it back. */
  lemma MonthNamesRoundTrip(m: int)
    requires 1 <= m <= 12
    ensures MonthNumber(MonthName(m)) == Some(m)
  {
  }
}
