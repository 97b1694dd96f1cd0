/**
 * Civil (proleptic Gregorian) dates, the day values behind the day strings of
 * utils.ts. A JavaScript `Date` read as (getFullYear(), getMonth() + 1,
 * getDate()) is a valid `Date` here; `setDate(getDate() - 1)` is `PrevDay`.
 */
module Calendar {

  datatype Date = Date(year: int, month: int, day: int)

  predicate IsLeapYear(y: int) {
    y % 4 == 0 && (y % 100 != 0 || y % 400 == 0)
  }

  function DaysInMonth(y: int, m: int): (n: int)
    requires 1 <= m <= 12
    ensures 28 <= n <= 31
    ensures n == 29 <==> m == 2 && IsLeapYear(y)
    ensures n == 28 <==> m == 2 && !IsLeapYear(y)
  {
    if m == 2 then (if IsLeapYear(y) then 29 else 28)
    else if m == 4 || m == 6 || m == 9 || m == 11 then 30
    else 31
  }

  /** A day that exists on the calendar. */
  predicate Valid(d: Date) {
    1 <= d.month <= 12 && 1 <= d.day <= DaysInMonth(d.year, d.month)
  }

  /** Chronological order: `a` is an earlier day than `b`. */
  predicate Before(a: Date, b: Date) {
    a.year < b.year ||
    (a.year == b.year && (a.month < b.month || (a.month == b.month && a.day < b.day)))
  }

  predicate OnOrBefore(a: Date, b: Date) {
    a == b || Before(a, b)
  }

  /** The civil day before `d`, rolling over month and year ends. */
  function PrevDay(d: Date): (p: Date)
    requires Valid(d)
    ensures Valid(p) && Before(p, d)
  {
    if d.day > 1 then Date(d.year, d.month, d.day - 1)
    else if d.month > 1 then Date(d.year, d.month - 1, DaysInMonth(d.year, d.month - 1))
    else Date(d.year - 1, 12, 31)
  }

  /** The civil day after `d`; the inverse of `PrevDay`. */
  function NextDay(d: Date): (n: Date)
    requires Valid(d)
    ensures Valid(n) && Before(d, n)
  {
    if d.day < DaysInMonth(d.year, d.month) then Date(d.year, d.month, d.day + 1)
    else if d.month < 12 then Date(d.year, d.month + 1, 1)
    else Date(d.year + 1, 1, 1)
  }

  lemma BeforeIsStrictTotalOrder(a: Date, b: Date, c: Date)
    ensures !Before(a, a)
    ensures Before(a, b) ==> !Before(b, a)
    ensures Before(a, b) && Before(b, c) ==> Before(a, c)
    ensures a == b || Before(a, b) || Before(b, a)
  {
  }

  lemma PrevNextInverse(d: Date)
    requires Valid(d)
    ensures NextDay(PrevDay(d)) == d
    ensures PrevDay(NextDay(d)) == d
  {
  }

  /** No valid day lies strictly between `PrevDay(d)` and `d`. */
  lemma PrevDayIsImmediatePredecessor(d: Date, e: Date)
    requires Valid(d) && Valid(e)
    ensures Before(e, d) ==> OnOrBefore(e, PrevDay(d))
  {
  }

  /** Month, leap-February and year rollovers of the day before. */
  lemma PrevDayRollovers()
    ensures PrevDay(Date(2024, 5, 1)) == Date(2024, 4, 30)
    ensures PrevDay(Date(2024, 3, 1)) == Date(2024, 2, 29)
    ensures PrevDay(Date(2023, 3, 1)) == Date(2023, 2, 28)
    ensures PrevDay(Date(2100, 3, 1)) == Date(2100, 2, 28)
    ensures PrevDay(Date(2000, 3, 1)) == Date(2000, 2, 29)
    ensures PrevDay(Date(2024, 1, 1)) == Date(2023, 12, 31)
  {
  }
}
