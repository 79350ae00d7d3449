/** Calendar dates as Python's datetime.date has them: validity, order, ordinals, ISO text. */
module Dates {
  import opened Prelude
  import opened TextOrder

  datatype Date = Date(year: nat, month: nat, day: nat)

  const MAX_YEAR := 9999

  predicate IsLeap(year: nat) {
    year % 4 == 0 && (year % 100 != 0 || year % 400 == 0)
  }

  function DaysInMonth(year: nat, month: nat): (n: nat)
    ensures 28 <= n <= 31
  {
    if month == 2 then (if IsLeap(year) then 29 else 28)
    else if month in {4, 6, 9, 11} then 30
    else 31
  }

  /** `dt.date(year, month, day)` does not raise. */
  predicate ValidDate(d: Date) {
    1 <= d.year <= MAX_YEAR && 1 <= d.month <= 12 && 1 <= d.day <= DaysInMonth(d.year, d.month)
  }

  predicate Before(a: Date, b: Date) {
    a.year < b.year || (a.year == b.year && (a.month < b.month || (a.month == b.month && a.day < b.day)))
  }

  // ---------------------------------------------------------------- ordinals

  function DaysBeforeYear(year: nat): int {
    var y := year - 1;
    365 * y + y / 4 - y / 100 + y / 400
  }

  function DaysBeforeMonth(year: nat, month: nat): nat {
    if month <= 1 then 0 else DaysBeforeMonth(year, month - 1) + DaysInMonth(year, month - 1)
  }

  /** `date.toordinal()`: 1 January of year 1 is day 1. */
  function Ordinal(d: Date): int {
    DaysBeforeYear(d.year) + DaysBeforeMonth(d.year, d.month) + d.day
  }

  /** `date.isoweekday()`: 1 is Monday, 7 is Sunday. */
  function Weekday(d: Date): (w: int)
    ensures 1 <= w <= 7
  {
    (Ordinal(d) + 6) % 7 + 1
  }

  lemma {:induction false} Fourth(y: nat)
    ensures (y + 1) / 4 - y / 4 == if (y + 1) % 4 == 0 then 1 else 0
  {
  }

  lemma {:induction false} Hundredth(y: nat)
    ensures (y + 1) / 100 - y / 100 == if (y + 1) % 100 == 0 then 1 else 0
  {
  }

  lemma {:induction false} FourHundredth(y: nat)
    ensures (y + 1) / 400 - y / 400 == if (y + 1) % 400 == 0 then 1 else 0
    ensures (y + 1) % 400 == 0 ==> (y + 1) % 100 == 0
  {
  }

  lemma {:induction false} MultipleOfFour(y: nat, k: nat)
    requires y == 4 * k
    ensures y % 4 == 0
  {
  }

  lemma {:induction false} HundredthIsFourth(y: nat)
    ensures y % 100 == 0 ==> y % 4 == 0
  {
    if y % 100 == 0 {
      var q := y / 100;
      assert y == 100 * q;
      MultipleOfFour(y, 25 * q);
    }
  }

  lemma {:induction false} YearLength(year: nat)
    requires year >= 1
    ensures DaysBeforeYear(year + 1) == DaysBeforeYear(year) + if IsLeap(year) then 366 else 365
  {
    Fourth(year - 1);
    Hundredth(year - 1);
    FourHundredth(year - 1);
    HundredthIsFourth(year);
  }

  lemma {:induction false} MonthStarts(year: nat)
    ensures DaysBeforeMonth(year, 12) + 31 == if IsLeap(year) then 366 else 365
  {
    var feb := DaysInMonth(year, 2);
    assert DaysBeforeMonth(year, 2) == 31;
    assert DaysBeforeMonth(year, 3) == 31 + feb;
    assert DaysBeforeMonth(year, 4) == 31 + feb + 31;
    assert DaysBeforeMonth(year, 5) == 31 + feb + 61;
    assert DaysBeforeMonth(year, 6) == 31 + feb + 92;
    assert DaysBeforeMonth(year, 7) == 31 + feb + 122;
    assert DaysBeforeMonth(year, 8) == 31 + feb + 153;
    assert DaysBeforeMonth(year, 9) == 31 + feb + 184;
    assert DaysBeforeMonth(year, 10) == 31 + feb + 214;
    assert DaysBeforeMonth(year, 11) == 31 + feb + 245;
    assert DaysBeforeMonth(year, 12) == 31 + feb + 275;
  }

  lemma {:induction false} MonthsGrow(year: nat, m: nat, n: nat)
    requires 1 <= m < n
    ensures DaysBeforeMonth(year, n) >= DaysBeforeMonth(year, m) + DaysInMonth(year, m)
  {
    if m + 1 < n {
      MonthsGrow(year, m, n - 1);
    }
  }

  lemma {:induction false} YearsGrow(y: nat, z: nat)
    requires 1 <= y < z
    ensures DaysBeforeYear(z) >= DaysBeforeYear(y) + if IsLeap(y) then 366 else 365
  {
    YearLength(z - 1);
    if y + 1 < z {
      YearsGrow(y, z - 1);
    }
  }

  lemma {:induction false} DayOfYear(d: Date)
    requires ValidDate(d)
    ensures 1 <= DaysBeforeMonth(d.year, d.month) + d.day <= if IsLeap(d.year) then 366 else 365
  {
    MonthStarts(d.year);
    if d.month < 12 {
      MonthsGrow(d.year, d.month, 12);
    }
  }

  /** Ordinals are in date order. */
  lemma {:induction false} OrdinalOrder(a: Date, b: Date)
    requires ValidDate(a) && ValidDate(b)
    ensures Before(a, b) <==> Ordinal(a) < Ordinal(b)
    ensures a == b <==> Ordinal(a) == Ordinal(b)
  {
    if Before(a, b) {
      OrdinalGrows(a, b);
    }
    if Before(b, a) {
      OrdinalGrows(b, a);
    }
  }

  lemma {:induction false} OrdinalGrows(a: Date, b: Date)
    requires ValidDate(a) && ValidDate(b) && Before(a, b)
    ensures Ordinal(a) < Ordinal(b)
  {
    if a.year < b.year {
      YearsGrow(a.year, b.year);
      DayOfYear(a);
      DayOfYear(b);
    } else if a.month < b.month {
      MonthsGrow(a.year, a.month, b.month);
    }
  }

  lemma {:induction false} StartsOf2026(year: nat)
    requires year == 2026
    ensures DaysBeforeYear(year) == 739616
    ensures DaysBeforeMonth(year, 1) == 0
    ensures DaysBeforeMonth(year, 2) == 31
    ensures DaysBeforeMonth(year, 3) == 59
    ensures DaysBeforeMonth(year, 4) == 90
    ensures DaysBeforeMonth(year, 5) == 120
    ensures DaysBeforeMonth(year, 6) == 151
    ensures DaysBeforeMonth(year, 7) == 181
    ensures DaysBeforeMonth(year, 8) == 212
    ensures DaysBeforeMonth(year, 9) == 243
    ensures DaysBeforeMonth(year, 10) == 273
    ensures DaysBeforeMonth(year, 11) == 304
    ensures DaysBeforeMonth(year, 12) == 334
  {
  }

  lemma {:induction false} DayOf2026(year: nat, month: nat, start: nat, day: nat, w: int)
    requires DaysBeforeYear(year) == 739616 && DaysBeforeMonth(year, month) == start && (start + day + 2) % 7 == w - 1
    ensures Weekday(Date(year, month, day)) == w
  {
    SevenApart(start + day);
  }

  lemma {:induction false} SevenApart(x: nat)
    ensures (739616 + x + 6) % 7 == (x + 2) % 7
  {
  }

  /** The first Mondays of the twelve months of 2026. */
  lemma {:induction false} CalendarKnown(year: nat, month: nat)
    requires year == 2026 && 1 <= month <= 12
    ensures Weekday(Date(year, month, [5, 2, 2, 6, 4, 1, 6, 3, 7, 5, 2, 7][month - 1])) == 1
  {
    var starts := [0, 31, 59, 90, 120, 151, 181, 212, 243, 273, 304, 334];
    StartsOf2026(year);
    DayOf2026(year, month, starts[month - 1], [5, 2, 2, 6, 4, 1, 6, 3, 7, 5, 2, 7][month - 1], 1);
  }

  /** Leap days: every four years, in every fourth century. */
  lemma {:induction false} LeapDays()
    ensures ValidDate(Date(2024, 2, 29)) && ValidDate(Date(2000, 2, 29))
    ensures !ValidDate(Date(2026, 2, 29)) && !ValidDate(Date(1900, 2, 29)) && !ValidDate(Date(2100, 2, 29)) && !ValidDate(Date(2024, 2, 30))
  {
  }

  // ----------------------------------------------------------------- stepping

  function NextDay(d: Date): Date {
    if d.day < DaysInMonth(d.year, d.month) then d.(day := d.day + 1)
    else if d.month < 12 then Date(d.year, d.month + 1, 1)
    else Date(d.year + 1, 1, 1)
  }

  lemma {:induction false} NextDayIsNext(d: Date)
    requires ValidDate(d)
    ensures Ordinal(NextDay(d)) == Ordinal(d) + 1
    ensures NextDay(d).year <= MAX_YEAR ==> ValidDate(NextDay(d))
  {
    if d.day == 31 && d.month == 12 {
      YearLength(d.year);
      MonthStarts(d.year);
    }
  }

  /** `[start + timedelta(days=i) for i in range(n)]`. */
  function DaysFrom(start: Date, n: nat): (ds: seq<Date>)
    ensures |ds| == n
    decreases n
  {
    if n == 0 then [] else [start] + DaysFrom(NextDay(start), n - 1)
  }

  /** The days from `start` on, up to `end`, are exactly the valid dates between the two. */
  lemma {:induction false} DaysFromCover(start: Date, end: Date, n: nat)
    requires ValidDate(start) && ValidDate(end) && n == Ordinal(end) - Ordinal(start) + 1
    ensures forall d :: d in DaysFrom(start, n) <==> ValidDate(d) && !Before(d, start) && !Before(end, d)
    decreases n
  {
    OrdinalOrder(start, end);
    if n == 0 {
      forall d | ValidDate(d) && !Before(d, start) && !Before(end, d) ensures false {
        OrdinalOrder(d, start);
        OrdinalOrder(end, d);
      }
    } else {
      NextDayIsNext(start);
      var next := NextDay(start);
      if n == 1 {
        assert DaysFrom(start, 1) == [start] + DaysFrom(next, 0);
        forall d | ValidDate(d) && !Before(d, start) && !Before(end, d) ensures d == start {
          OrdinalOrder(d, start);
          OrdinalOrder(end, d);
        }
      } else {
        NextStaysValid(start, end);
        DaysFromCover(next, end, n - 1);
        forall d | ValidDate(d) ensures !Before(d, start) <==> d == start || !Before(d, next) {
          OrdinalOrder(d, start);
          OrdinalOrder(d, next);
        }
      }
    }
  }

  lemma {:induction false} NextStaysValid(start: Date, end: Date)
    requires ValidDate(start) && ValidDate(end) && Before(start, end)
    ensures ValidDate(NextDay(start))
  {
  }

  // ---------------------------------------------------------------- ISO text

  /** `date.isoformat()`. */
  function Iso(d: Date): string {
    Dec(d.year, 4) + ("-" + (Dec(d.month, 2) + ("-" + Dec(d.day, 2))))
  }

  /** `date.fromisoformat` on the yyyy-mm-dd form. */
  function ParseIso(text: string): Option<Date> {
    if |text| != 10 || text[4] != '-' || text[7] != '-' then None
    else
      match (ParseDigits(text[..4]), ParseDigits(text[5..7]), ParseDigits(text[8..]))
      case (Some(y), Some(m), Some(d)) => if ValidDate(Date(y, m, d)) then Some(Date(y, m, d)) else None
      case _ => None
  }

  lemma {:induction false} DigitsAreDec(s: string)
    requires ParseDigits(s).Some?
    ensures s == Dec(ParseDigits(s).value, |s|)
  {
    var n := ParseDigits(s).value;
    if |s| > 1 {
      DigitsAreDec(s[..|s| - 1]);
      assert n / 10 == ParseDigits(s[..|s| - 1]).value;
    }
    assert s == s[..|s| - 1] + [s[|s| - 1]];
    assert Digit(n % 10) == s[|s| - 1];
    assert Dec(n, |s|) == Dec(n / 10, |s| - 1) + [Digit(n % 10)];
    if |s| == 1 { assert Dec(n / 10, 0) == []; }
  }

  lemma {:induction false} Pow10s()
    ensures Pow10(2) == 100 && Pow10(4) == 10000
  {
    assert Pow10(1) == 10 * Pow10(0);
    assert Pow10(3) == 10 * Pow10(2);
  }

  lemma {:induction false} IsoParts(d: Date)
    ensures |Iso(d)| == 10 && Iso(d)[4] == '-' && Iso(d)[7] == '-'
    ensures Iso(d)[..4] == Dec(d.year, 4) && Iso(d)[5..7] == Dec(d.month, 2) && Iso(d)[8..] == Dec(d.day, 2)
  {
  }

  /** A text parses to `d` exactly when it is `d`'s own ISO form. */
  lemma {:induction false} ParseIsoExact(text: string, d: Date)
    ensures ParseIso(text) == Some(d) <==> ValidDate(d) && text == Iso(d)
  {
    Pow10s();
    if ParseIso(text) == Some(d) {
      DigitsAreDec(text[..4]);
      DigitsAreDec(text[5..7]);
      DigitsAreDec(text[8..]);
      IsoParts(d);
      assert text == text[..4] + [text[4]] + text[5..7] + [text[7]] + text[8..];
      assert Iso(d) == Iso(d)[..4] + [Iso(d)[4]] + Iso(d)[5..7] + [Iso(d)[7]] + Iso(d)[8..];
    }
    if ValidDate(d) && text == Iso(d) {
      IsoParts(d);
      ParseDec(d.year, 4);
      ParseDec(d.month, 2);
      ParseDec(d.day, 2);
    }
  }

  /** String order on yyyy-mm-dd is date order. */
  lemma {:induction false} IsoOrder(a: Date, b: Date)
    requires ValidDate(a) && ValidDate(b)
    ensures Less(Iso(a), Iso(b)) <==> Before(a, b)
    ensures Iso(a) == Iso(b) <==> a == b
  {
    Pow10s();
    LessIrreflexive("-");
    DecOrder(a.year, b.year, 4);
    DecOrder(a.month, b.month, 2);
    DecOrder(a.day, b.day, 2);
    var da, db := "-" + Dec(a.day, 2), "-" + Dec(b.day, 2);
    LessConcat("-", Dec(a.day, 2), "-", Dec(b.day, 2));
    var ma, mb := Dec(a.month, 2) + da, Dec(b.month, 2) + db;
    LessConcat(Dec(a.month, 2), da, Dec(b.month, 2), db);
    LessConcat("-", ma, "-", mb);
    LessConcat(Dec(a.year, 4), "-" + ma, Dec(b.year, 4), "-" + mb);
    IsoParts(a);
    IsoParts(b);
  }
}
