/**
 * Gregorian calendar arithmetic used by the registry: the leap-year rule and
 * the month lengths that bound `random_date`, and the completed-years
 * computation of `Worker.get_age`, with the clock reading passed in.
 */
module Calendar {

  /** The Gregorian leap-year rule (app.py:104). */
  predicate IsLeapYear(year: int) {
    (year % 4 == 0 && year % 100 != 0) || year % 400 == 0
  }

  /** The largest day `random_date` may draw for a month (app.py:103-108). */
  function DaysInMonth(year: int, month: int): (days: int)
    requires 1 <= month <= 12
    ensures 28 <= days <= 31
    ensures days == 29 <==> month == 2 && IsLeapYear(year)
    ensures days == 30 <==> month == 4 || month == 6 || month == 9 || month == 11
    ensures month == 2 && !IsLeapYear(year) ==> days == 28
    ensures days == 31 <==> month in {1, 3, 5, 7, 8, 10, 12}
  {
    if month == 2 then (if IsLeapYear(year) then 29 else 28)
    else if month in [4, 6, 9, 11] then 30
    else 31
  }

  /** Days in the months `month` .. 12 of `year`. */
  function DaysFromMonth(year: int, month: int): int
    requires 1 <= month <= 13
    decreases 13 - month
  {
    if month == 13 then 0 else DaysInMonth(year, month) + DaysFromMonth(year, month + 1)
  }

  /** The twelve month lengths add up to the length of a Gregorian year. */
  lemma YearLength(year: int)
    ensures DaysFromMonth(year, 1) == if IsLeapYear(year) then 366 else 365
  {
  }

  /** A calendar date as `datetime` holds it. */
  datatype Date = Date(year: int, month: int, day: int)

  /** A date `datetime` accepts: years 1 to 9999, a real month and day. */
  predicate ValidDate(d: Date) {
    1 <= d.year <= 9999 && 1 <= d.month <= 12 && 1 <= d.day <= DaysInMonth(d.year, d.month)
  }

  /** Python's comparison of `(month, day)` tuples (app.py:19). */
  predicate MonthDayBefore(month1: int, day1: int, month2: int, day2: int) {
    month1 < month2 || (month1 == month2 && day1 < day2)
  }

  /** Chronological order of dates: year, then month, then day. */
  predicate DateLe(a: Date, b: Date) {
    a.year < b.year || (a.year == b.year && !MonthDayBefore(b.month, b.day, a.month, a.day))
  }

  /** The `k`-th birthday of someone born on `birth`, as a (month, day) in year birth.year + k. */
  function Anniversary(birth: Date, k: int): Date {
    Date(birth.year + k, birth.month, birth.day)
  }

  /** The `k`-th birthday falls on or before `now`. */
  predicate Reached(birth: Date, now: Date, k: int) {
    DateLe(Anniversary(birth, k), now)
  }

  /** `get_age` on an already parsed birth date and a clock reading `now` (app.py:18-21). */
  function AgeOn(birth: Date, now: Date): int {
    var years := now.year - birth.year;
    if MonthDayBefore(now.month, now.day, birth.month, birth.day) then years - 1 else years
  }

  /**
   * The age is the number of completed years: the `k`-th birthday has been
   * reached exactly when `k` is at most the age.
   */
  lemma AgeCountsBirthdays(birth: Date, now: Date)
    ensures forall k :: Reached(birth, now, k) <==> k <= AgeOn(birth, now)
  {
  }

  /** Someone born on or before `now` has a non-negative age. */
  lemma AgeNonNegative(birth: Date, now: Date)
    requires DateLe(birth, now)
    ensures AgeOn(birth, now) >= 0
  {
  }

  /** A later clock reading never gives a smaller age. */
  lemma AgeMonotone(birth: Date, now1: Date, now2: Date)
    requires DateLe(now1, now2)
    ensures AgeOn(birth, now1) <= AgeOn(birth, now2)
  {
  }
}
