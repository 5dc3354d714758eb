/** What dates in cells are: which texts start with one, and that the days they name follow each other as in
    the Gregorian calendar. */
module Calendar {
  import opened JsText
  import opened RowCells
  import opened ProjectRow
  import Decimals

  /** The text begins with year, month and day. */
  predicate IsDateText(s: string, year: string, month: string, day: string, rest: string) {
    && s == year + "-" + month + "-" + day + rest
    && |year| == 4 && |month| == 2 && |day| == 2
    && Decimals.AllDigits(year) && Decimals.AllDigits(month) && Decimals.AllDigits(day)
  }

  /** A text that begins, trimmed, with a date is read as that day, whatever follows. */
  lemma DateRead(s: string, year: string, month: string, day: string, rest: string)
    requires IsDateText(Trim(s), year, month, day, rest)
    ensures ParseDateOnly(Some(Str(s)))
         == Some(UtcDay(Decimals.Read(year), Decimals.Read(month), Decimals.Read(day)))
  {
    hide Decimals.Read, UtcDay, Trim;
    var t := Trim(s);
    assert t[0..4] == year && t[5..7] == month && t[8..10] == day;
    assert forall k | 0 <= k < 4 :: t[k] == year[k];
    assert forall k | 5 <= k < 7 :: t[k] == month[k - 5];
    assert forall k | 8 <= k < 10 :: t[k] == day[k - 8];
  }

  /** No other cell is. */
  lemma OnlyDatesRead(raw: Option<Json>)
    ensures ParseDateOnly(raw).Some? <==>
              raw.Some? && raw.value.Str?
              && exists year, month, day, rest :: IsDateText(Trim(raw.value.s), year, month, day, rest)
  {
    hide Decimals.Read, UtcDay, Trim;
    if ParseDateOnly(raw).Some? {
      var t := Trim(raw.value.s);
      assert IsDateText(t, t[0..4], t[5..7], t[8..10], t[10..]);
    }
    if raw.Some? && raw.value.Str? {
      if year, month, day, rest :| IsDateText(Trim(raw.value.s), year, month, day, rest) {
        DateRead(raw.value.s, year, month, day, rest);
      }
    }
  }

  /** How many days a month has. */
  function MonthLength(year: int, month: nat): nat
    requires 1 <= month <= 12
  {
    if month in {4, 6, 9, 11} then 30
    else if month != 2 then 31
    else if year % 400 == 0 || (year % 4 == 0 && year % 100 != 0) then 29 else 28
  }

  /** How often a multiple of `d` lies before a year. */
  lemma Multiples(year: int, d: int, q: int, r: int)
    requires d in {4, 100, 400} && year == q * d + r && 0 <= r < d
    ensures (year + d) / d == q + 1 && (year + d - 1) / d == q + (if r == 0 then 0 else 1) && year % d == r
  {
    Quotient(year, d, q, r);
    Quotient(year + d, d, q + 1, r);
    if r == 0 { Quotient(year + d - 1, d, q, d - 1); } else { Quotient(year + d - 1, d, q + 1, r - 1); }
  }

  lemma Quotient(n: int, d: int, q: int, r: int)
    requires d in {4, 100, 400} && n == q * d + r && 0 <= r < d
    ensures n / d == q && n % d == r
  {
    if d == 4 {
      assert n == q * 4 + r;
    } else if d == 100 {
      assert n == q * 100 + r;
    } else {
      assert n == q * 400 + r;
    }
  }

  lemma MultipleStep(year: int, d: int)
    requires d in {4, 100, 400}
    ensures (year + d) / d == (year + d - 1) / d + if year % d == 0 then 1 else 0
  {
    Multiples(year, d, year / d, year % d);
  }

  /** A year has 337 days and its February. */
  lemma YearLength(year: int)
    ensures DaysBeforeYear(year + 1) - DaysBeforeYear(year) == 337 + MonthLength(year, 2)
  {
    MultipleStep(year, 4);
    MultipleStep(year, 100);
    MultipleStep(year, 400);
    LeapYears(year);
  }

  lemma LeapYears(year: int)
    ensures MonthLength(year, 2) == if IsLeap(year) then 29 else 28
    ensures year % 400 == 0 ==> year % 100 == 0
    ensures year % 100 == 0 ==> year % 4 == 0
  {
  }

  /** From the year 100 on, days follow each other within a month, from month to month, and from year to
      year. Days past the end of a month, and months past the end of a year, run over. */
  lemma DaysFollow(year: nat, month: nat, day: nat)
    requires year >= 100 && 1 <= month <= 12
    ensures UtcDay(year, month, day + 1) == UtcDay(year, month, day) + 1
    ensures UtcDay(year, month, MonthLength(year, month)) + 1
         == if month < 12 then UtcDay(year, month + 1, 1) else UtcDay(year + 1, 1, 1)
    ensures UtcDay(year, month + 12, day) == UtcDay(year + 1, month, day)
    ensures year > 100 ==> UtcDay(year, 0, day) == UtcDay(year - 1, 12, day)
  {
    hide DaysBeforeYear, IsLeap;
    YearLength(year);
    LeapYears(year);
    Quotient12(month - 1);
  }

  lemma Quotient12(m: int)
    requires 0 <= m < 12
    ensures m / 12 == 0 && m % 12 == m && (m + 12) / 12 == 1 && (m + 12) % 12 == m
    ensures (0 - 1) / 12 == -1 && (0 - 1) % 12 == 11
  {
  }

  /** The years 0 to 99 stand for 1900 to 1999. */
  lemma ShortYears(year: nat, month: nat, day: nat)
    requires year <= 99
    ensures UtcDay(year, month, day) == UtcDay(1900 + year, month, day)
  {
  }

  /** The first of January 1970, the zero of the clock, is 719528 days after the start of year 0. */
  lemma Epoch()
    ensures UtcDay(1970, 1, 1) == 719528
  {
  }
}
