/** Calendar dates as (year, month, day) triples, the `YYYY-MM-DD` text form
    that date inputs produce and `toISOString().split("T")[0]` yields, and
    the whole-year age the registration form derives from a date of birth. */
module Dates {
  import opened Text
  import opened Optional

  datatype Date = Date(year: int, month: int, day: int)

  /** `a` is a strictly earlier calendar day than `b`. */
  predicate Earlier(a: Date, b: Date) {
    a.year < b.year
    || (a.year == b.year && (a.month < b.month || (a.month == b.month && a.day < b.day)))
  }

  /** A date that `toISOString` writes with a four-digit year. */
  predicate Writable(d: Date) {
    0 <= d.year <= 9999 && 1 <= d.month <= 12 && 1 <= d.day <= 31
  }

  // ---------------------------------------------------------------------
  // Whole-year age (applicant-form.jsx calculateAge)
  // ---------------------------------------------------------------------

  /** The year difference, minus one when today's (month, day) comes before
      the birthday's (month, day). */
  function AgeYears(birth: Date, today: Date): int {
    var age := today.year - birth.year;
    var monthDiff := today.month - birth.month;
    if monthDiff < 0 || (monthDiff == 0 && today.day < birth.day) then age - 1 else age
  }

  /** The birthday in the given year. */
  function Anniversary(birth: Date, year: int): Date {
    Date(year, birth.month, birth.day)
  }

  /** The age is the number of birthdays reached: the `k`-th anniversary is
      not after today and the next one is. */
  lemma AgeCountsAnniversaries(birth: Date, today: Date)
    ensures var k := AgeYears(birth, today);
      !Earlier(today, Anniversary(birth, birth.year + k))
      && Earlier(today, Anniversary(birth, birth.year + k + 1))
  {
  }

  /** No other count has that property. */
  lemma AgeIsUnique(birth: Date, today: Date, k: int)
    requires !Earlier(today, Anniversary(birth, birth.year + k))
    requires Earlier(today, Anniversary(birth, birth.year + k + 1))
    ensures k == AgeYears(birth, today)
  {
  }

  /** A birth date not after today gives a non-negative age, which is the
      plain year difference from the birthday of the current year on. */
  lemma AgeOfPastBirth(birth: Date, today: Date)
    requires !Earlier(today, birth)
    ensures AgeYears(birth, today) >= 0
    ensures !Earlier(today, Anniversary(birth, today.year))
            ==> AgeYears(birth, today) == today.year - birth.year
    ensures Earlier(today, Anniversary(birth, today.year))
            ==> AgeYears(birth, today) == today.year - birth.year - 1
  {
  }

  // ---------------------------------------------------------------------
  // YYYY-MM-DD text
  // ---------------------------------------------------------------------

  function Pow10(n: nat): (r: nat)
    ensures r >= 1
  {
    if n == 0 then 1 else 10 * Pow10(n - 1)
  }

  /** `n` written with exactly `width` digits, zero-padded. */
  function Digits(n: nat, width: nat): (r: string)
    ensures |r| == width && AllDigits(r)
  {
    if width == 0 then [] else Digits(n / 10, width - 1) + [DigitChar(n % 10)]
  }

  lemma {:induction false} DigitsValue(n: nat, width: nat)
    requires n < Pow10(width)
    ensures DecimalValue(Digits(n, width)) == n
  {
    if width > 0 {
      var r := Digits(n, width);
      DigitsValue(n / 10, width - 1);
      assert r[..|r| - 1] == Digits(n / 10, width - 1);
    }
  }

  /** The `YYYY-MM-DD` text of a date. */
  function FormatIsoDate(d: Date): (r: string)
    requires Writable(d)
    ensures |r| == 10
  {
    Digits(d.year, 4) + "-" + Digits(d.month, 2) + "-" + Digits(d.day, 2)
  }

  /** What `new Date(s)` reads from a date input's value: a date for a
      well-formed `YYYY-MM-DD` string, nothing (an Invalid Date) otherwise. */
  function ParseIsoDate(s: string): (r: Option<Date>)
    ensures r.Some? ==> |s| == 10 && 1 <= r.value.month <= 12 && 1 <= r.value.day <= 31
  {
    if |s| == 10 && s[4] == '-' && s[7] == '-'
       && AllDigits(s[..4]) && AllDigits(s[5..7]) && AllDigits(s[8..])
    then
      var d := Date(DecimalValue(s[..4]), DecimalValue(s[5..7]), DecimalValue(s[8..]));
      if 1 <= d.month <= 12 && 1 <= d.day <= 31 then Some(d) else None
    else None
  }

  /** Reading back a written date gives the date. */
  lemma IsoDateRoundTrip(d: Date)
    requires Writable(d)
    ensures ParseIsoDate(FormatIsoDate(d)) == Some(d)
  {
    var y, m, dd := Digits(d.year, 4), Digits(d.month, 2), Digits(d.day, 2);
    var s := FormatIsoDate(d);
    assert s[..4] == y && s[4] == '-' && s[5..7] == m && s[7] == '-' && s[8..] == dd;
    DigitsValue(d.year, 4);
    DigitsValue(d.month, 2);
    DigitsValue(d.day, 2);
  }
}
