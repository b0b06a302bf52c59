/**
 * The text form of dates: the zero-padded `YYYY-MM-DD` string that
 * `random_date` builds (app.py:110) and that `get_age` parses with the
 * format "%Y-%m-%d" (app.py:16).
 */
module DateText {
  import opened Wrappers
  import opened Calendar

  predicate IsDigit(c: char) {
    '0' <= c <= '9'
  }

  predicate AllDigits(s: string) {
    forall i :: 0 <= i < |s| ==> IsDigit(s[i])
  }

  function DigitChar(n: int): (c: char)
    requires 0 <= n <= 9
    ensures IsDigit(c)
  {
    ('0' as int + n) as char
  }

  function DigitValue(c: char): (n: int)
    requires IsDigit(c)
    ensures 0 <= n <= 9 && DigitChar(n) == c
  {
    c as int - '0' as int
  }

  function Pow10(width: nat): (p: nat)
    ensures p >= 1
  {
    if width == 0 then 1 else 10 * Pow10(width - 1)
  }

  /** The value of a run of decimal digits, most significant first. */
  function Number(s: string): (n: nat)
    requires AllDigits(s)
    ensures n < Pow10(|s|)
  {
    if s == [] then 0 else Number(s[..|s| - 1]) * 10 + DigitValue(s[|s| - 1])
  }

  /** `n` written with exactly `width` decimal digits, zero-padded on the left. */
  function Padded(n: nat, width: nat): (s: string)
    requires n < Pow10(width)
    ensures |s| == width && AllDigits(s) && Number(s) == n
  {
    if width == 0 then []
    else
      var s := Padded(n / 10, width - 1) + [DigitChar(n % 10)];
      assert s[..|s| - 1] == Padded(n / 10, width - 1);
      s
  }

  /** Every run of digits is the padded form of its own value. */
  lemma {:induction false} PaddedNumber(s: string)
    requires AllDigits(s)
    ensures Padded(Number(s), |s|) == s
  {
    if s != [] {
      var init := s[..|s| - 1];
      PaddedNumber(init);
      assert Number(s) / 10 == Number(init);
      assert init + [s[|s| - 1]] == s;
    }
  }

  /** `f"{year}-{month:02d}-{day:02d}"` for a four-digit year (app.py:110). */
  function FormatDate(d: Date): (s: string)
    requires 1000 <= d.year <= 9999 && 0 <= d.month <= 99 && 0 <= d.day <= 99
    ensures |s| == 10 && s[4] == '-' && s[7] == '-'
  {
    Padded(d.year, 4) + "-" + Padded(d.month, 2) + "-" + Padded(d.day, 2)
  }

  /**
   * `datetime.strptime(dob, "%Y-%m-%d")` on the zero-padded form: `None`
   * where it raises `ValueError` (a malformed string, or a day the month
   * does not have).
   */
  function ParseDate(s: string): (r: Option<Date>)
    ensures r.Some? ==> ValidDate(r.value)
  {
    if |s| == 10 && s[4] == '-' && s[7] == '-'
       && AllDigits(s[..4]) && AllDigits(s[5..7]) && AllDigits(s[8..])
    then
      var d := Date(Number(s[..4]), Number(s[5..7]), Number(s[8..]));
      if ValidDate(d) then Some(d) else None
    else None
  }

  /** Formatting a valid date and parsing it back gives the date. */
  lemma ParseFormat(d: Date)
    requires ValidDate(d) && 1000 <= d.year
    ensures ParseDate(FormatDate(d)) == Some(d)
  {
    var s := FormatDate(d);
    assert s[..4] == Padded(d.year, 4);
    assert s[5..7] == Padded(d.month, 2);
    assert s[8..] == Padded(d.day, 2);
  }

  /** A string that parses to a date with a four-digit year is that date's canonical form. */
  lemma FormatParse(s: string)
    requires ParseDate(s).Some? && ParseDate(s).value.year >= 1000
    ensures FormatDate(ParseDate(s).value) == s
  {
    PaddedNumber(s[..4]);
    PaddedNumber(s[5..7]);
    PaddedNumber(s[8..]);
    assert s == s[..4] + "-" + s[5..7] + "-" + s[8..];
  }

  /** The choices `random_date` draws from (app.py:99-108). */
  predicate InRandomDateRange(d: Date) {
    1960 <= d.year <= 2000 && 1 <= d.month <= 12 && 1 <= d.day <= DaysInMonth(d.year, d.month)
  }

  /** The bounds of `random_date` admit exactly the valid dates of the years 1960 to 2000. */
  lemma RandomDateRangeIsValidDates(d: Date)
    ensures InRandomDateRange(d) <==> ValidDate(d) && 1960 <= d.year <= 2000
  {
  }

  /** `random_date` with its random draws `pick` passed in (app.py:98-110). */
  function RandomDate(pick: Date): (s: string)
    requires InRandomDateRange(pick)
    ensures |s| == 10
  {
    FormatDate(pick)
  }

  /** Any draw within the bounds of `random_date` is a valid date, and its text parses back to it. */
  lemma RandomDateParses(pick: Date)
    requires InRandomDateRange(pick)
    ensures ValidDate(pick) && ParseDate(RandomDate(pick)) == Some(pick)
  {
    ParseFormat(pick);
  }
}
