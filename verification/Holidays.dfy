/** Holiday rules as BACnet calendar entries and as concrete dates (bms/holidays.py). */
module Holidays {
  import opened Prelude
  import opened Dates
  import opened BacnetObjects

  datatype RuleType = Fixed | Range | Floating

  /** One stored rule; its optional columns may be null, whatever its type. */
  datatype Holiday = Holiday(
    rule: RuleType, state: int,
    year: Option<nat>, month: Option<nat>, day: Option<nat>,
    endMonth: Option<nat>, endDay: Option<nat>,
    weekOfMonth: Option<nat>, dayOfWeek: Option<nat>)

  datatype Error = MissingField | BadWeek | BadDayOfWeek | NotADate

  /** The year a rule is tied to; null and 0 both mean every year. */
  function RuleYear(h: Holiday): Option<nat> {
    if h.year.Some? && h.year.value != 0 then h.year else None
  }

  // ------------------------------------------------------- the calendar entry

  function EntryDate(year: Option<nat>, month: nat, day: nat): BacnetDate {
    BacnetDate(if year.Some? then year.value as int - 1900 else ANY, month, day, ANY)
  }

  function ToCalendarEntry(h: Holiday): Result<CalendarEntry, Error> {
    match h.rule
    case Fixed =>
      if h.month.None? || h.day.None? then Failure(MissingField)
      else Success(SingleDate(EntryDate(RuleYear(h), h.month.value, h.day.value)))
    case Range =>
      if h.month.None? || h.day.None? || h.endMonth.None? || h.endDay.None? then Failure(MissingField)
      else Success(DateRange(EntryDate(RuleYear(h), h.month.value, h.day.value),
                             EntryDate(RuleYear(h), h.endMonth.value, h.endDay.value)))
    case Floating =>
      if h.month.None? || h.weekOfMonth.None? || h.dayOfWeek.None? then Failure(MissingField)
      else if !(1 <= h.weekOfMonth.value <= 5) then Failure(BadWeek)
      else if !(1 <= h.dayOfWeek.value <= 7) then Failure(BadDayOfWeek)
      else Success(WeekNDay(h.month.value, h.weekOfMonth.value, h.dayOfWeek.value))
  }

  /** All the rules of a device, or the first complaint: a malformed rule keeps them all off the calendar. */
  function ToCalendarEntries(hs: seq<Holiday>): (r: Result<seq<CalendarEntry>, Error>)
    ensures r.Success? ==> |r.value| == |hs|
  {
    if hs == [] then Success([])
    else
      match (ToCalendarEntries(hs[..|hs| - 1]), ToCalendarEntry(hs[|hs| - 1]))
      case (Failure(e), _) => Failure(e)
      case (Success(_), Failure(e)) => Failure(e)
      case (Success(es), Success(e)) => Success(es + [e])
  }

  /** What a rule needs to become an entry. */
  predicate Complete(h: Holiday) {
    match h.rule
    case Fixed => h.month.Some? && h.day.Some?
    case Range => h.month.Some? && h.day.Some? && h.endMonth.Some? && h.endDay.Some?
    case Floating => h.month.Some? && h.weekOfMonth.Some? && h.weekOfMonth.value in {1, 2, 3, 4, 5}
                     && h.dayOfWeek.Some? && h.dayOfWeek.value in {1, 2, 3, 4, 5, 6, 7}
  }

  /** The calendar can be written exactly if every rule is complete; one that is not keeps them all off it. */
  lemma {:induction false} EntriesExactly(hs: seq<Holiday>)
    ensures ToCalendarEntries(hs).Success? <==> forall i :: 0 <= i < |hs| ==> Complete(hs[i])
  {
    if hs != [] {
      var n := |hs| - 1;
      EntriesExactly(hs[..n]);
      assert ToCalendarEntry(hs[n]).Success? <==> Complete(hs[n]);
    }
  }

  // -------------------------------------------------------- the concrete dates

  /** `dt.date(year, month, day)`. */
  function MakeDate(year: nat, month: nat, day: nat): Result<Date, Error> {
    if ValidDate(Date(year, month, day)) then Success(Date(year, month, day)) else Failure(NotADate)
  }

  /** The first `n` days of the month that fall on weekday `w`, in order. */
  function Matching(year: nat, month: nat, w: nat, n: nat): seq<Date> {
    if n == 0 then []
    else Matching(year, month, w, n - 1) + if Weekday(Date(year, month, n)) == w then [Date(year, month, n)] else []
  }

  /** The dates of a rule in `year`; a missing column or an impossible date raises. */
  function Occurrences(h: Holiday, year: nat): Result<seq<Date>, Error> {
    match h.rule
    case Fixed =>
      if RuleYear(h).Some? && RuleYear(h).value != year then Success([])
      else if h.month.None? || h.day.None? then Failure(MissingField)
      else (match MakeDate(year, h.month.value, h.day.value)
            case Failure(e) => Failure(e)
            case Success(d) => Success([d]))
    case Range =>
      if RuleYear(h).Some? && RuleYear(h).value != year then Success([])
      else if h.month.None? || h.day.None? || h.endMonth.None? || h.endDay.None? then Failure(MissingField)
      else (match (MakeDate(year, h.month.value, h.day.value), MakeDate(year, h.endMonth.value, h.endDay.value))
            case (Success(start), Success(end)) =>
              if Before(end, start) then
                // spanning the new year
                match MakeDate(year + 1, h.endMonth.value, h.endDay.value)
                case Failure(e) => Failure(e)
                case Success(end) => Success(Between(start, end))
              else Success(Between(start, end))
            case _ => Failure(NotADate))
    case Floating =>
      if h.month.None? then Failure(MissingField)
      else if !(1 <= h.month.value <= 12 && 1 <= year <= MAX_YEAR) then Failure(NotADate)
      else if h.dayOfWeek.None? then Success([])  // no day falls on no weekday
      else
        var matching := Matching(year, h.month.value, h.dayOfWeek.value, DaysInMonth(year, h.month.value));
        if matching == [] then Success([])
        else if h.weekOfMonth.None? then Failure(MissingField)
        else
        var week := h.weekOfMonth.value;
        if week == 5 then Success([matching[|matching| - 1]])
        // index week-1; for week 0 that is -1, Python's last element
        else if week == 0 then Success([matching[|matching| - 1]])
        else if week - 1 < |matching| then Success([matching[week - 1]])
        else Success([])
  }

  function Between(start: Date, end: Date): seq<Date> {
    var n := Ordinal(end) - Ordinal(start) + 1;
    if n <= 0 then [] else DaysFrom(start, n)
  }

  // ------------------------------------------------- weekdays within one month

  /** The first day of the month that falls on weekday `w`. */
  function FirstOn(year: nat, month: nat, w: nat): (d: nat)
    requires 1 <= w <= 7
    ensures 1 <= d <= 7
  {
    (w + 7 - Weekday(Date(year, month, 1))) % 7 + 1
  }

  lemma {:induction false} WeekdayInMonth(year: nat, month: nat, w: nat, day: nat)
    requires 1 <= w <= 7 && day >= 1
    ensures Weekday(Date(year, month, day)) == w <==> (day - FirstOn(year, month, w)) % 7 == 0
  {
    var o := Ordinal(Date(year, month, 1)) + 6;
    var f := FirstOn(year, month, w);
    assert Ordinal(Date(year, month, day)) + 6 == o + (day - 1);
    ShiftMod(o, day - 1, w - 1, f - 1);
  }

  /** (o + x) and v agree modulo 7 exactly when x and f do, f being v - o modulo 7. */
  lemma {:induction false} ShiftMod(o: int, x: int, v: int, f: int)
    requires 0 <= v < 7 && f == (v + 7 - o % 7) % 7
    ensures (o + x) % 7 == v <==> (x - f) % 7 == 0
  {
    var q, r := o / 7, o % 7;
    assert (o + x) % 7 == (r + x) % 7 by {
      assert o + x == 7 * q + (r + x);
      ModAdds(q, r + x);
    }
    var k := (v + 7 - r) / 7;
    assert f == v + 7 - r - 7 * k;
    assert x - f == 7 * (k - 1) + (r + x - v);
    ModAdds(k - 1, r + x - v);
  }

  lemma {:induction false} ModAdds(q: int, x: int)
    ensures (7 * q + x) % 7 == x % 7
  {
  }

  /** The weekday filter has one hit per week: its k-th is day FirstOn + 7k. */
  lemma {:induction false} MatchingIs(year: nat, month: nat, w: nat, n: nat)
    requires 1 <= w <= 7
    ensures |Matching(year, month, w, n)| == (n + 7 - FirstOn(year, month, w)) / 7
    ensures forall k :: 0 <= k < |Matching(year, month, w, n)|
                        ==> Matching(year, month, w, n)[k] == Date(year, month, FirstOn(year, month, w) + 7 * k)
  {
    var f := FirstOn(year, month, w);
    if n > 0 {
      MatchingIs(year, month, w, n - 1);
      WeekdayInMonth(year, month, w, n);
      if (n - f) % 7 == 0 {
        assert (n + 7 - f) / 7 == (n - 1 + 7 - f) / 7 + 1;
        assert f + 7 * ((n - 1 + 7 - f) / 7) == n;
      }
    }
  }

  /** The last day of the month that falls on weekday `w`. */
  function LastOn(year: nat, month: nat, w: nat): nat
    requires 1 <= w <= 7
  {
    if FirstOn(year, month, w) + 28 <= DaysInMonth(year, month) then FirstOn(year, month, w) + 28
    else FirstOn(year, month, w) + 21
  }

  /** A floating rule with all its columns in range. */
  predicate GoodFloating(h: Holiday) {
    && h.rule == Floating && h.month.Some? && h.weekOfMonth.Some? && h.dayOfWeek.Some?
    && 1 <= h.month.value <= 12 && 1 <= h.weekOfMonth.value <= 5 && 1 <= h.dayOfWeek.value <= 7
  }

  /** The day a floating rule names, in closed form. */
  function FloatingDay(h: Holiday, year: nat): nat
    requires GoodFloating(h)
  {
    var f := FirstOn(year, h.month.value, h.dayOfWeek.value);
    if h.weekOfMonth.value == 5 then LastOn(year, h.month.value, h.dayOfWeek.value)
    else f + 7 * (h.weekOfMonth.value - 1)
  }

  /**
  A floating rule gives exactly one date in every year, the filtering
  comprehension's and the closed form's; it falls on the right weekday, in
  7n-6..7n for week n, and in the last seven days of the month for week 5.
  */
  lemma {:induction false} FloatingGivesOneDate(h: Holiday, year: nat)
    requires GoodFloating(h) && 1 <= year <= MAX_YEAR
    ensures var d := Date(year, h.month.value, FloatingDay(h, year));
            && Occurrences(h, year) == Success([d]) && ValidDate(d) && Weekday(d) == h.dayOfWeek.value
            && (h.weekOfMonth.value < 5 ==> 7 * h.weekOfMonth.value - 6 <= d.day <= 7 * h.weekOfMonth.value)
            && (h.weekOfMonth.value == 5 ==> d.day + 7 > DaysInMonth(year, h.month.value))
  {
    var m, w := h.month.value, h.dayOfWeek.value;
    MatchingIs(year, m, w, DaysInMonth(year, m));
    WeeksInMonth(FirstOn(year, m, w), DaysInMonth(year, m));
    FloatingDayFacts(h, year);
  }

  lemma {:induction false} FloatingDayFacts(h: Holiday, year: nat)
    requires GoodFloating(h)
    ensures var m, w, day := h.month.value, h.dayOfWeek.value, FloatingDay(h, year);
            && 1 <= day <= DaysInMonth(year, m) && Weekday(Date(year, m, day)) == w
            && (h.weekOfMonth.value < 5 ==> 7 * h.weekOfMonth.value - 6 <= day <= 7 * h.weekOfMonth.value)
            && (h.weekOfMonth.value == 5 ==> day + 7 > DaysInMonth(year, m))
  {
    var m, w, day := h.month.value, h.dayOfWeek.value, FloatingDay(h, year);
    DayInWeek(FirstOn(year, m, w), DaysInMonth(year, m), h.weekOfMonth.value, day);
    WeekdayInMonth(year, m, w, day);
  }

  lemma {:induction false} DayInWeek(f: nat, n: nat, week: nat, day: nat)
    requires 1 <= f <= 7 && 28 <= n <= 31 && 1 <= week <= 5
    requires day == if week < 5 then f + 7 * (week - 1) else if f + 28 <= n then f + 28 else f + 21
    ensures 1 <= day <= n && (day - f) % 7 == 0
    ensures if week < 5 then 7 * week - 6 <= day <= 7 * week else day + 7 > n
  {
    ModAdds(if week < 5 then week - 1 else if f + 28 <= n then 4 else 3, 0);
  }

  /** A weekday comes up four times in a month, or five if its first day leaves room. */
  lemma {:induction false} WeeksInMonth(f: nat, n: nat)
    requires 1 <= f <= 7 && 28 <= n <= 31
    ensures (n + 7 - f) / 7 == if f + 28 <= n then 5 else 4
  {
  }

  // ------------------------------------------ the rule and the calendar agree

  /** The rule lists, for each year, exactly the dates its calendar entry matches. */
  ghost predicate Agrees(h: Holiday, e: CalendarEntry, year: nat) {
    Occurrences(h, year).Success? && forall d :: ValidDate(d) && d.year == year ==> (d in Occurrences(h, year).value <==> Matches(e, d))
  }

  /** BACnet counts years from 1900 in an octet, and octet 255 means any: 2155 cannot be said. */
  const UNSAYABLE := ANY + 1900

  /**
  A fixed rule agrees in every year in which its date exists.  The one exception
  is a rule tied to 2155: the device takes it for every year.
  */
  lemma {:induction false} FixedAgrees(h: Holiday, year: nat)
    requires h.rule == Fixed && h.month.Some? && h.day.Some? && 1 <= year <= MAX_YEAR
    requires h.month.value <= 12 && h.day.value <= 31
    ensures ToCalendarEntry(h).Success?
    ensures var exists_ := ValidDate(Date(year, h.month.value, h.day.value));
            Agrees(h, ToCalendarEntry(h).value, year)
            <==> if RuleYear(h).None? || RuleYear(h).value == year then exists_
                 else RuleYear(h).value != UNSAYABLE || !exists_
    ensures !ValidDate(Date(year, h.month.value, h.day.value)) ==>
              forall d :: ValidDate(d) && d.year == year ==> !Matches(ToCalendarEntry(h).value, d)
  {
    var d := Date(year, h.month.value, h.day.value);
    if ValidDate(d) && RuleYear(h) == Some(UNSAYABLE) && year != UNSAYABLE {
      assert Matches(ToCalendarEntry(h).value, d);
    }
  }

  /** Christmas Eve 2155, on the device: every Christmas Eve. */
  lemma {:induction false} YearOctet()
    ensures var h := Holiday(Fixed, 1, Some(2155), Some(12), Some(24), None, None, None, None);
            && Occurrences(h, 2026) == Success([])
            && Matches(ToCalendarEntry(h).value, Date(2026, 12, 24)) && ValidDate(Date(2026, 12, 24))
  {
  }

  /** The last day of a range, in the next year if it wraps. */
  function RangeEnd(start: Date, end: Date): Date {
    if Before(end, start) then Date(end.year + 1, end.month, end.day) else end
  }

  predicate WholeRange(h: Holiday) {
    h.rule == Range && h.month.Some? && h.day.Some? && h.endMonth.Some? && h.endDay.Some?
  }

  lemma {:induction false} RangeIsBetween(h: Holiday, year: nat, start: Date, end: Date)
    requires WholeRange(h) && (RuleYear(h).None? || RuleYear(h).value == year)
    requires start == Date(year, h.month.value, h.day.value) && end == Date(year, h.endMonth.value, h.endDay.value)
    ensures Occurrences(h, year).Success? <==> ValidDate(start) && ValidDate(end) && ValidDate(RangeEnd(start, end))
    ensures Occurrences(h, year).Success? ==> Occurrences(h, year).value == Between(start, RangeEnd(start, end))
  {
  }

  lemma {:induction false} BetweenCovers(start: Date, last: Date)
    requires ValidDate(start) && ValidDate(last)
    ensures forall d :: d in Between(start, last) <==> ValidDate(d) && !Before(d, start) && !Before(last, d)
  {
    var n := Ordinal(last) - Ordinal(start) + 1;
    if n >= 0 {
      DaysFromCover(start, last, n);
    } else {
      forall d | ValidDate(d) ensures Before(d, start) || Before(last, d) {
        OrdinalOrder(d, start);
        OrdinalOrder(last, d);
      }
    }
  }

  /** A range lists the valid dates from its start to its end. */
  lemma {:induction false} RangeOccurs(h: Holiday, year: nat)
    requires WholeRange(h) && (RuleYear(h).None? || RuleYear(h).value == year)
    ensures var start, end := Date(year, h.month.value, h.day.value), Date(year, h.endMonth.value, h.endDay.value);
            var last := RangeEnd(start, end);
            && (Occurrences(h, year).Success? <==> ValidDate(start) && ValidDate(end) && ValidDate(last))
            && (Occurrences(h, year).Success? ==>
                  forall d :: d in Occurrences(h, year).value <==> ValidDate(d) && !Before(d, start) && !Before(last, d))
  {
    var start, end := Date(year, h.month.value, h.day.value), Date(year, h.endMonth.value, h.endDay.value);
    RangeIsBetween(h, year, start, end);
    if Occurrences(h, year).Success? {
      BetweenCovers(start, RangeEnd(start, end));
    }
  }

  lemma {:induction false} DatedRangeMatches(h: Holiday, ruleYear: nat, d: Date)
    requires WholeRange(h) && RuleYear(h) == Some(ruleYear)
    ensures ToCalendarEntry(h).Success?
    ensures Matches(ToCalendarEntry(h).value, d)
            <==> ruleYear != UNSAYABLE && !Before(d, Date(ruleYear, h.month.value, h.day.value))
                 && !Before(Date(ruleYear, h.endMonth.value, h.endDay.value), d)
  {
  }

  /**
  A range tied to a year agrees in every other year, and in its own exactly when
  its ends exist, it does not wrap and the year can be said: of a wrapping one
  the device sees an end before the start, and no day at all.
  */
  lemma {:induction false} DatedRangeAgrees(h: Holiday, ruleYear: nat, year: nat)
    requires WholeRange(h) && RuleYear(h) == Some(ruleYear)
    ensures ToCalendarEntry(h).Success?
    ensures var start, end := Date(ruleYear, h.month.value, h.day.value), Date(ruleYear, h.endMonth.value, h.endDay.value);
            Agrees(h, ToCalendarEntry(h).value, year)
            <==> year != ruleYear || (ruleYear != UNSAYABLE && ValidDate(start) && ValidDate(end) && !Before(end, start))
  {
    var start, end := Date(ruleYear, h.month.value, h.day.value), Date(ruleYear, h.endMonth.value, h.endDay.value);
    DatedRangeMatches(h, ruleYear, start);
    forall d ensures Matches(ToCalendarEntry(h).value, d)
                     <==> ruleYear != UNSAYABLE && !Before(d, start) && !Before(end, d)
    {
      DatedRangeMatches(h, ruleYear, d);
    }
    if year == ruleYear {
      RangeOccurs(h, year);
    }
  }

  /** 20 December to 5 January: 17 days to the gateway, none to the device. */
  lemma {:induction false} NewYearRange(h: Holiday)
    requires h == Holiday(Range, 1, Some(2026), Some(12), Some(20), Some(1), Some(5), None, None)
    ensures Occurrences(h, 2026).Success? && Date(2026, 12, 25) in Occurrences(h, 2026).value
    ensures ToCalendarEntry(h).Success? && !Agrees(h, ToCalendarEntry(h).value, 2026)
    ensures forall d :: !Matches(ToCalendarEntry(h).value, d)
  {
    RangeOccurs(h, 2026);
    assert ValidDate(Date(2026, 12, 20)) && ValidDate(Date(2026, 1, 5)) && ValidDate(Date(2027, 1, 5));
    DatedRangeAgrees(h, 2026, 2026);
    WrappingMatchesNone(h, 2026);
  }

  lemma {:induction false} WrappingMatchesNone(h: Holiday, ruleYear: nat)
    requires WholeRange(h) && RuleYear(h) == Some(ruleYear)
    requires Before(Date(ruleYear, h.endMonth.value, h.endDay.value), Date(ruleYear, h.month.value, h.day.value))
    ensures ToCalendarEntry(h).Success? && forall d :: !Matches(ToCalendarEntry(h).value, d)
  {
    forall d ensures ToCalendarEntry(h).Success? && !Matches(ToCalendarEntry(h).value, d) {
      DatedRangeMatches(h, ruleYear, d);
    }
  }

  lemma {:induction false} FloatingMatches(h: Holiday, d: Date)
    requires GoodFloating(h)
    ensures ToCalendarEntry(h).Success?
    ensures Matches(ToCalendarEntry(h).value, d)
            <==> d.month == h.month.value && WeekMatches(h.weekOfMonth.value, d) && Weekday(d) == h.dayOfWeek.value
  {
  }

  lemma {:induction false} SameWeek(day: nat, f: nat, week: nat)
    requires 1 <= f <= 7 && 1 <= week <= 5 && (day - f) % 7 == 0 && 7 * week - 6 <= day <= 7 * week
    ensures day == f + 7 * (week - 1)
  {
  }

  /** The device matches at most the day the gateway computes. */
  lemma {:induction false} FloatingOnlyHit(h: Holiday, d: Date)
    requires GoodFloating(h) && ValidDate(d) && WeekMatches(h.weekOfMonth.value, d)
    requires d.month == h.month.value && Weekday(d) == h.dayOfWeek.value
    ensures d.day == FloatingDay(h, d.year)
  {
    WeekdayInMonth(d.year, d.month, h.dayOfWeek.value, d.day);
    SameWeek(d.day, FirstOn(d.year, d.month, h.dayOfWeek.value), h.weekOfMonth.value);
  }

  /**
  A floating rule agrees in weeks 1 to 4.  Week 5 is "last" to the gateway and
  days 29-31 to the device: they agree exactly when the last such weekday of the
  month falls on day 29 or later.
  */
  lemma {:induction false} FloatingAgrees(h: Holiday, year: nat)
    requires GoodFloating(h) && 1 <= year <= MAX_YEAR
    ensures ToCalendarEntry(h).Success?
    ensures Agrees(h, ToCalendarEntry(h).value, year)
            <==> h.weekOfMonth.value < 5 || LastOn(year, h.month.value, h.dayOfWeek.value) >= 29
  {
    var hit := Date(year, h.month.value, FloatingDay(h, year));
    var e := ToCalendarEntry(h).value;
    FloatingGivesOneDate(h, year);
    FloatingMatches(h, hit);
    forall d | ValidDate(d) && d.year == year && Matches(e, d) ensures d == hit {
      FloatingMatches(h, d);
      FloatingOnlyHit(h, d);
    }
    HitIsMatched(h, year);
  }

  lemma {:induction false} HitIsMatched(h: Holiday, year: nat)
    requires GoodFloating(h)
    ensures WeekMatches(h.weekOfMonth.value, Date(year, h.month.value, FloatingDay(h, year)))
            <==> h.weekOfMonth.value < 5 || LastOn(year, h.month.value, h.dayOfWeek.value) >= 29
  {
  }

  /** 1 May is a Friday in 2026 and a Saturday in 2027. */
  lemma {:induction false} FirstOfMay()
    ensures Weekday(Date(2026, 5, 1)) == 5 && Weekday(Date(2027, 5, 1)) == 6
  {
    assert DaysBeforeMonth(2026, 2) == 31 && DaysBeforeMonth(2026, 3) == 59;
    assert DaysBeforeMonth(2026, 5) == 120;
    assert DaysBeforeMonth(2027, 2) == 31 && DaysBeforeMonth(2027, 3) == 59;
    assert DaysBeforeMonth(2027, 5) == 120;
    assert DaysBeforeYear(2026) == 739616 && DaysBeforeYear(2027) == 739981;
  }

  /** Memorial Day 2027, "last Monday of May", is the 31st and agrees; in 2026 it is the 25th, and the device sees no holiday. */
  lemma {:induction false} LastMondayOfMay()
    ensures var h := Holiday(Floating, 1, None, Some(5), None, None, None, Some(5), Some(1));
            GoodFloating(h) && Agrees(h, ToCalendarEntry(h).value, 2027) && !Agrees(h, ToCalendarEntry(h).value, 2026)
  {
    var h := Holiday(Floating, 1, None, Some(5), None, None, None, Some(5), Some(1));
    FirstOfMay();
    LastOnMay(2026, 5);
    LastOnMay(2027, 6);
    FloatingAgrees(h, 2026);
    FloatingAgrees(h, 2027);
  }

  lemma {:induction false} LastOnMay(year: nat, first: nat)
    requires Weekday(Date(year, 5, 1)) == first && first in {5, 6}
    ensures LastOn(year, 5, 1) == if first == 6 then 31 else 25
  {
    FirstMonday(first);
    assert FirstOn(year, 5, 1) == (1 + 7 - first) % 7 + 1;
  }

  lemma {:induction false} FirstMonday(first: nat)
    requires first in {5, 6}
    ensures (1 + 7 - first) % 7 + 1 == if first == 6 then 3 else 4
  {
  }

  // ------------------------------------------------- when a stored rule falls

  predicate OccursIn(h: Holiday, year: nat, d: Date) {
    Occurrences(h, year).Success? && d in Occurrences(h, year).value
  }

  /** The rule names this date, as one of its year's or as the tail of a range from the year before. */
  predicate Falls(h: Holiday, d: Date) {
    OccursIn(h, d.year, d) || (d.year > 0 && OccursIn(h, d.year - 1, d))
  }

  /** A rule with the columns its type needs, within the API's bounds, and a range with its year. */
  predicate WellStored(h: Holiday) {
    match h.rule
    case Fixed => h.month.Some? && h.month.value <= 12 && h.day.Some? && h.day.value <= 31
    case Range => WholeRange(h) && RuleYear(h).Some?
    case Floating => GoodFloating(h)
  }

  function RangeStart(h: Holiday): Date
    requires WholeRange(h) && RuleYear(h).Some?
  {
    Date(RuleYear(h).value, h.month.value, h.day.value)
  }

  function StoredEnd(h: Holiday): Date
    requires WholeRange(h) && RuleYear(h).Some?
  {
    Date(RuleYear(h).value, h.endMonth.value, h.endDay.value)
  }

  /** The date is one of those a dated range runs over, wrapped if it wraps. */
  predicate RunsOver(h: Holiday, d: Date)
    requires WholeRange(h) && RuleYear(h).Some?
  {
    !Before(d, RangeStart(h)) && !Before(RangeEnd(RangeStart(h), StoredEnd(h)), d)
  }

  /** The gateway takes a dated range: all the dates that bound it exist. */
  predicate BoundsExist(h: Holiday)
    requires WholeRange(h) && RuleYear(h).Some?
  {
    ValidDate(RangeStart(h)) && ValidDate(StoredEnd(h)) && ValidDate(RangeEnd(RangeStart(h), StoredEnd(h)))
  }

  /**
  Gateway and device read the rule alike on a date.  They do not on the day of
  the year that a rule of 2155 names, in another year; within a range that the
  gateway takes and that wraps or is of 2155, or that neither is and the gateway
  does not take; and on a "last" weekday before the 29th.
  */
  predicate RuleAgrees(h: Holiday, d: Date) {
    && WellStored(h)
    && match h.rule {
         case Fixed => !(RuleYear(h) == Some(UNSAYABLE) && d.year != UNSAYABLE && d.month == h.month.value && d.day == h.day.value)
         case Range =>
           RunsOver(h, d) ==> (BoundsExist(h) <==> RuleYear(h).value != UNSAYABLE && !Before(StoredEnd(h), RangeStart(h)))
         case Floating =>
           !(h.weekOfMonth.value == 5 && d.month == h.month.value && d.day == LastOn(d.year, d.month, h.dayOfWeek.value) && d.day < 29)
       }
  }

  /** The gateway's side of a dated range. */
  lemma {:induction false} RangeFalls(h: Holiday, d: Date)
    requires h.rule == Range && WellStored(h) && ValidDate(d)
    ensures Falls(h, d) <==> BoundsExist(h) && RunsOver(h, d)
  {
    var year := RuleYear(h).value;
    RangeOccurs(h, year);
    OnlyInItsYear(h, d.year, d);
    OnlyInItsYear(h, d.year - 1, d);
  }

  lemma {:induction false} OnlyInItsYear(h: Holiday, year: nat, d: Date)
    requires h.rule == Range && RuleYear(h).Some?
    ensures OccursIn(h, year, d) ==> year == RuleYear(h).value
  {
  }

  lemma {:induction false} RangeReadAlike(h: Holiday, d: Date)
    requires h.rule == Range && WellStored(h) && ValidDate(d)
    ensures ToCalendarEntry(h).Success?
    ensures (Falls(h, d) <==> Matches(ToCalendarEntry(h).value, d)) <==> RuleAgrees(h, d)
  {
    RangeFalls(h, d);
    DatedRangeMatches(h, RuleYear(h).value, d);
  }

  /** The gateway's side of a floating rule. */
  lemma {:induction false} FloatingFalls(h: Holiday, d: Date)
    requires GoodFloating(h) && ValidDate(d)
    ensures Falls(h, d) <==> d == Date(d.year, h.month.value, FloatingDay(h, d.year))
  {
    FloatingGivesOneDate(h, d.year);
    NotFromYearBefore(h, d);
  }

  lemma {:induction false} FloatingReadAlike(h: Holiday, d: Date)
    requires h.rule == Floating && WellStored(h) && ValidDate(d)
    ensures ToCalendarEntry(h).Success?
    ensures (Falls(h, d) <==> Matches(ToCalendarEntry(h).value, d)) <==> RuleAgrees(h, d)
  {
    FloatingFalls(h, d);
    FloatingMatches(h, d);
    if d.month == h.month.value {
      if d.day == FloatingDay(h, d.year) {
        FloatingDayFacts(h, d.year);
        HitIsMatched(h, d.year);
      } else if Matches(ToCalendarEntry(h).value, d) {
        FloatingOnlyHit(h, d);
      }
    }
  }

  /** Exactly when a stored rule falls on the dates its entry matches: a condition on rule and date alone. */
  lemma {:induction false} FallsAsMatched(h: Holiday, d: Date)
    requires WellStored(h) && ValidDate(d)
    ensures ToCalendarEntry(h).Success?
    ensures (Falls(h, d) <==> Matches(ToCalendarEntry(h).value, d)) <==> RuleAgrees(h, d)
  {
    match h.rule {
      case Fixed => FixedReadAlike(h, d);
      case Range => RangeReadAlike(h, d);
      case Floating => FloatingReadAlike(h, d);
    }
  }

  /** The gateway's side of a fixed rule; the year 0, like none, is every year. */
  lemma {:induction false} FixedFalls(h: Holiday, d: Date)
    requires h.rule == Fixed && h.month.Some? && h.day.Some? && ValidDate(d)
    ensures Falls(h, d)
            <==> d.month == h.month.value && d.day == h.day.value && (h.year.None? || h.year.value == 0 || h.year.value == d.year)
  {
  }

  /** A floating rule has no dates in a month there is not, or outside the years there are. */
  lemma {:induction false} NoSuchMonth(h: Holiday, year: nat)
    requires h.rule == Floating && h.month.Some? && (h.month.value !in {1, 2, 3, 4, 5, 6, 7, 8, 9, 10, 11, 12} || year == 0 || year > 9999)
    ensures Occurrences(h, year) == Failure(NotADate)
  {
  }

  lemma {:induction false} FixedReadAlike(h: Holiday, d: Date)
    requires h.rule == Fixed && WellStored(h) && ValidDate(d)
    ensures ToCalendarEntry(h).Success?
    ensures (Falls(h, d) <==> Matches(ToCalendarEntry(h).value, d)) <==> RuleAgrees(h, d)
  {
  }

  lemma {:induction false} NotFromYearBefore(h: Holiday, d: Date)
    requires GoodFloating(h) && ValidDate(d)
    ensures !OccursIn(h, d.year - 1, d)
  {
    if d.year > 1 {
      FloatingGivesOneDate(h, d.year - 1);
    }
  }

  // ------------------------------------------------------- the federal holidays

  function FixedRule(state: int, month: nat, day: nat): Holiday {
    Holiday(Fixed, state, None, Some(month), Some(day), None, None, None, None)
  }

  function FloatingRule(state: int, month: nat, week: nat, weekday: nat): Holiday {
    Holiday(Floating, state, None, Some(month), None, None, None, Some(week), Some(weekday))
  }

  /** The starting set the gateway offers. */
  function FederalDefaults(state: int): seq<Holiday> {
    [FixedRule(state, 1, 1), FloatingRule(state, 1, 3, 1), FloatingRule(state, 2, 3, 1), FloatingRule(state, 5, 5, 1),
     FixedRule(state, 6, 19), FixedRule(state, 7, 4), FloatingRule(state, 9, 1, 1), FloatingRule(state, 11, 4, 4),
     FloatingRule(state, 11, 4, 5), FixedRule(state, 12, 25)]
  }

  /** Of these only Memorial Day is ever read differently, on its day, in a year in which that is before the 29th. */
  lemma {:induction false} FederalReadAlike(state: int, d: Date)
    requires ValidDate(d)
    ensures (forall i :: 0 <= i < |FederalDefaults(state)| ==> RuleAgrees(FederalDefaults(state)[i], d))
            <==> !(d.month == 5 && d.day == LastOn(d.year, 5, 1) && d.day < 29)
  {
    assert RuleAgrees(FederalDefaults(state)[3], d) <==> !(d.month == 5 && d.day == LastOn(d.year, 5, 1) && d.day < 29);
  }

  /** The k-th given weekday of a month, from one day of the month that is known to fall on it in its first week. */
  lemma {:induction false} KnownFirst(year: nat, month: nat, w: nat, day: nat)
    requires 1 <= w <= 7 && 1 <= day <= 7 && Weekday(Date(year, month, day)) == w
    ensures FirstOn(year, month, w) == day
  {
    WeekdayInMonth(year, month, w, day);
    SameInWeek(day, FirstOn(year, month, w));
  }

  lemma {:induction false} SameInWeek(a: nat, b: nat)
    requires 1 <= a <= 7 && 1 <= b <= 7 && (a - b) % 7 == 0
    ensures a == b
  {
  }

  lemma {:induction false} FloatingOn(h: Holiday, d: Date, first: nat)
    requires GoodFloating(h) && h.weekOfMonth.value < 5 && ValidDate(d) && d.month == h.month.value
    requires 1 <= first <= 7 && Weekday(Date(d.year, d.month, first)) == h.dayOfWeek.value && d.day == first + 7 * (h.weekOfMonth.value - 1)
    ensures Falls(h, d)
  {
    KnownFirst(d.year, d.month, h.dayOfWeek.value, first);
    FloatingFalls(h, d);
  }

  lemma {:induction false} WeekdayOn(year: nat, month: nat, a: nat, b: nat)
    ensures (Ordinal(Date(year, month, b)) - Ordinal(Date(year, month, a))) == b - a
  {
  }

  /** Later in a week of Monday the `monday`-th. */
  lemma {:induction false} AfterMonday(year: nat, month: nat, monday: nat, k: nat)
    requires Weekday(Date(year, month, monday)) == 1 && k <= 6
    ensures Weekday(Date(year, month, monday + k)) == 1 + k
  {
    WeekdayOn(year, month, monday, monday + k);
    LaterInWeek(Ordinal(Date(year, month, monday)) + 6, k);
  }

  lemma {:induction false} LaterInWeek(o: int, k: nat)
    requires o % 7 == 0 && k <= 6
    ensures (o + k) % 7 == k
  {
  }

  /** A floating rule in a month whose first Monday is known. */
  lemma {:induction false} FloatingAfterMonday(h: Holiday, year: nat, monday: nat, day: nat)
    requires GoodFloating(h) && h.weekOfMonth.value < 5 && 1 <= year <= MAX_YEAR
    requires Weekday(Date(year, h.month.value, monday)) == 1 && 1 <= monday && monday + h.dayOfWeek.value <= 8
    requires day == monday + h.dayOfWeek.value - 1 + 7 * (h.weekOfMonth.value - 1)
    ensures ValidDate(Date(year, h.month.value, day)) && Falls(h, Date(year, h.month.value, day))
  {
    AfterMonday(year, h.month.value, monday, h.dayOfWeek.value - 1);
    FloatingOn(h, Date(year, h.month.value, day), monday + h.dayOfWeek.value - 1);
  }

  /** The months and days of the set in 2026, holiday by holiday. */
  function Federal2026(i: nat): (nat, nat)
    requires i < 10
  {
    [(1, 1), (1, 19), (2, 16), (5, 25), (6, 19), (7, 4), (9, 7), (11, 26), (11, 27), (12, 25)][i]
  }

  lemma {:induction false} FederalFixed(state: int, i: nat, year: nat)
    requires i in {0, 4, 5, 9} && year == 2026
    ensures Falls(FederalDefaults(state)[i], Date(year, Federal2026(i).0, Federal2026(i).1))
  {
    FixedFalls(FederalDefaults(state)[i], Date(year, Federal2026(i).0, Federal2026(i).1));
  }

  lemma {:induction false} RuleIn2026(state: int, month: nat, week: nat, weekday: nat, year: nat, monday: nat, day: nat)
    requires year == 2026 && 1 <= month <= 12 && monday == [5, 2, 2, 6, 4, 1, 6, 3, 7, 5, 2, 7][month - 1]
    requires 1 <= week < 5 && 1 <= weekday <= 7 && monday + weekday <= 8 && day == monday + weekday - 1 + 7 * (week - 1)
    ensures Falls(FloatingRule(state, month, week, weekday), Date(year, month, day))
  {
    CalendarKnown(year, month);
    FloatingAfterMonday(FloatingRule(state, month, week, weekday), year, monday, day);
  }

  lemma {:induction false} FederalFloating(state: int, i: nat, year: nat)
    requires i in {1, 2, 6, 7, 8} && year == 2026
    ensures Falls(FederalDefaults(state)[i], Date(year, Federal2026(i).0, Federal2026(i).1))
  {
    var month, week, weekday, monday := FloatingFederal(state, i);
    RuleIn2026(state, month, week, weekday, year, monday, Federal2026(i).1);
  }

  lemma {:induction false} FloatingFederal(state: int, i: nat) returns (month: nat, week: nat, weekday: nat, monday: nat)
    requires i in {1, 2, 6, 7, 8}
    ensures FederalDefaults(state)[i] == FloatingRule(state, month, week, weekday) && Federal2026(i).0 == month
    ensures 1 <= month <= 12 && monday == [5, 2, 2, 6, 4, 1, 6, 3, 7, 5, 2, 7][month - 1]
    ensures 1 <= week < 5 && 1 <= weekday <= 7 && monday + weekday <= 8 && Federal2026(i).1 == monday + weekday - 1 + 7 * (week - 1)
  {
    month := if i == 1 then 1 else if i == 2 then 2 else if i == 6 then 9 else 11;
    week := if i <= 2 then 3 else if i == 6 then 1 else 4;
    weekday := if i == 7 then 4 else if i == 8 then 5 else 1;
    monday := if i == 1 then 5 else if i == 6 then 7 else 2;
  }

  lemma {:induction false} FederalMemorial(state: int, d: Date)
    requires d == Date(2026, 5, 25)
    ensures Falls(FederalDefaults(state)[3], d)
  {
    MemorialDay2026(state);
  }

  /** Holiday by holiday, the dates of the set in 2026. */
  lemma {:induction false} FederalDates(state: int, i: nat, d: Date)
    requires i < 10 && d == Date(2026, Federal2026(i).0, Federal2026(i).1)
    ensures Falls(FederalDefaults(state)[i], d)
  {
    if i == 3 {
      FederalMemorial(state, d);
    } else if i in {0, 4, 5, 9} {
      FederalFixed(state, i, d.year);
    } else {
      FederalFloating(state, i, d.year);
    }
  }

  /**
  The day after Thanksgiving is kept as the fourth Friday of November.  It is the
  day after the fourth Thursday exactly in the years in which November does not
  begin on a Friday; in those it comes six days before.
  */
  lemma {:induction false} DayAfterThanksgiving(state: int, year: nat)
    ensures var thanksgiving, dayAfter := FloatingDay(FederalDefaults(state)[7], year), FloatingDay(FederalDefaults(state)[8], year);
            if Weekday(Date(year, 11, 1)) == 5 then dayAfter == thanksgiving - 6 else dayAfter == thanksgiving + 1
  {
    FromFirst(Weekday(Date(year, 11, 1)));
  }

  lemma {:induction false} FromFirst(first: int)
    requires 1 <= first <= 7
    ensures var thursday, friday := (4 + 7 - first) % 7 + 1, (5 + 7 - first) % 7 + 1;
            if first == 5 then friday == thursday - 6 else friday == thursday + 1
  {
  }

  /** Memorial Day 2026: the gateway has it on the 25th, and its entry does not match that day. */
  lemma {:induction false} MemorialDay2026(state: int)
    ensures var h, d := FloatingRule(state, 5, 5, 1), Date(2026, 5, 25);
            && ValidDate(d) && Falls(h, d) && !RuleAgrees(h, d)
            && ToCalendarEntry(h).Success? && !Matches(ToCalendarEntry(h).value, d)
  {
    var h, d := FloatingRule(state, 5, 5, 1), Date(2026, 5, 25);
    FirstOfMay();
    LastOnMay(2026, 5);
    FloatingFalls(h, d);
    FallsAsMatched(h, d);
  }

  lemma {:induction false} EntriesAt(hs: seq<Holiday>, calendar: seq<CalendarEntry>, i: nat)
    requires ToCalendarEntries(hs) == Success(calendar) && i < |hs|
    ensures |calendar| == |hs| && ToCalendarEntry(hs[i]) == Success(calendar[i])
  {
    var n := |hs| - 1;
    if i < n {
      EntriesAt(hs[..n], ToCalendarEntries(hs[..n]).value, i);
    }
  }

  // --------------------------------------------------- can a rule ever match

  /** The first valid month and day from a possibly impossible date on. */
  function FirstFrom(d: Date): Date {
    if d.month < 1 then Date(d.year, 1, 1)
    else if d.month > 12 then Date(d.year + 1, 1, 1)
    else if d.day < 1 then Date(d.year, d.month, 1)
    else if d.day <= DaysInMonth(d.year, d.month) then d
    else if d.month == 12 then Date(d.year + 1, 1, 1)
    else Date(d.year, d.month + 1, 1)
  }

  lemma {:induction false} FirstFromIsFirst(d: Date, x: Date)
    requires ValidDate(x) && d.year >= 1
    ensures !Before(x, d) <==> !Before(x, FirstFrom(d))
    ensures ValidDate(FirstFrom(d)) <==> FirstFrom(d).year <= MAX_YEAR
  {
  }

  /** An undated range holds wildcard years, which have no order in the standard. */
  predicate Dated(h: Holiday) {
    h.rule == Range ==> RuleYear(h).Some?
  }

  /** Some date, in some year, is one the rule's entry names; an undated range may match whatever the device makes of it. */
  predicate CanMatch(h: Holiday)
    requires ToCalendarEntry(h).Success?
  {
    match h.rule
    case Fixed =>
      var year := if RuleYear(h).None? || RuleYear(h).value == UNSAYABLE then 2000 else RuleYear(h).value;
      ValidDate(Date(year, if h.month.value == ANY then 1 else h.month.value, if h.day.value == ANY then 1 else h.day.value))
    case Range =>
      if RuleYear(h).None? then true
      else
        var first := FirstFrom(RangeStart(h));
        RuleYear(h).value != UNSAYABLE && ValidDate(first) && !Before(StoredEnd(h), first)
    case Floating => h.month.value == ANY || 1 <= h.month.value <= 12
  }

  /** In a leap year every month has its 29th, and the years 2000 to 2024 by fours put it on every weekday. */
  lemma {:induction false} LeapMonths(year: nat, month: nat)
    requires IsLeap(year)
    ensures DaysBeforeMonth(year, month) == DaysBeforeMonth(2000, month)
    ensures DaysInMonth(year, month) == DaysInMonth(2000, month) >= 29
  {
    if month > 1 {
      LeapMonths(year, month - 1);
    }
  }

  lemma {:induction false} FourYearsOn(k: nat, month: nat, day: nat)
    requires k <= 6
    ensures IsLeap(2000 + 4 * k)
    ensures Ordinal(Date(2000 + 4 * k, month, day)) == Ordinal(Date(2000, month, day)) + 1461 * k
  {
    assert (2000 + 4 * k) % 4 == 0;
    LeapMonths(2000 + 4 * k, month);
    assert DaysBeforeYear(2000 + 4 * k) == DaysBeforeYear(2000) + 1461 * k;
  }

  /** Five is invertible modulo seven. */
  lemma {:induction false} Inverse(x: nat)
    ensures (5 * ((3 * x) % 7)) % 7 == x % 7
  {
    var q, k := (3 * x) / 7, (3 * x) % 7;
    assert 5 * k == 7 * (2 * x - 5 * q) + x;
    ModAdds(2 * x - 5 * q, x);
  }

  lemma {:induction false} EachWeekday(month: nat, day: nat, w: int) returns (year: nat)
    requires 1 <= w <= 7
    ensures IsLeap(year) && 2000 <= year <= 2024 && Weekday(Date(year, month, day)) == w
  {
    var o := Ordinal(Date(2000, month, day)) + 6;
    var r := o % 7;
    var x := w - 1 - r + 7;
    var k := (3 * x) % 7;
    Inverse(x);
    FourYearsOn(k, month, day);
    year := 2000 + 4 * k;
    SameWeekday(o, r, k, w, x);
  }

  lemma {:induction false} SameWeekday(o: int, r: int, k: nat, w: int, x: int)
    requires r == o % 7 && 1 <= w <= 7 && x == w - 1 - r + 7 && (5 * k) % 7 == x % 7
    ensures (o + 1461 * k) % 7 == w - 1
  {
    var q, a := o / 7, (5 * k) / 7;
    var b := x / 7;
    assert o + 1461 * k == 7 * (q + 208 * k) + (r + 5 * k);
    ModAdds(q + 208 * k, r + 5 * k);
    assert r + 5 * k == 7 * (a - b + 1) + (w - 1);
    ModAdds(a - b + 1, w - 1);
  }

  lemma {:induction false} FloatingCanMatch(h: Holiday) returns (d: Date)
    requires h.rule == Floating && ToCalendarEntry(h).Success? && CanMatch(h)
    ensures ValidDate(d) && Matches(ToCalendarEntry(h).value, d)
  {
    var month := if h.month.value == ANY then 1 else h.month.value;
    var day := 7 * h.weekOfMonth.value - 6;
    var year := EachWeekday(month, day, h.dayOfWeek.value);
    LeapMonths(year, month);
    d := Date(year, month, day);
  }

  lemma {:induction false} FixedCanMatch(h: Holiday) returns (d: Date)
    requires h.rule == Fixed && ToCalendarEntry(h).Success? && CanMatch(h)
    ensures ValidDate(d) && Matches(ToCalendarEntry(h).value, d)
  {
    var year := if RuleYear(h).None? || RuleYear(h).value == UNSAYABLE then 2000 else RuleYear(h).value;
    d := Date(year, if h.month.value == ANY then 1 else h.month.value, if h.day.value == ANY then 1 else h.day.value);
  }

  lemma {:induction false} MatchedCan(h: Holiday, d: Date)
    requires ToCalendarEntry(h).Success? && ValidDate(d) && Matches(ToCalendarEntry(h).value, d)
    ensures CanMatch(h)
  {
    if h.rule == Range && RuleYear(h).Some? {
      DatedRangeMatches(h, RuleYear(h).value, d);
      FirstFromIsFirst(Date(RuleYear(h).value, h.month.value, h.day.value), d);
    }
  }

  /** The test is exact: a rule, a range with its year, can match if and only if its entry names some date there is. */
  lemma {:induction false} CanMatchExactly(h: Holiday)
    requires ToCalendarEntry(h).Success? && Dated(h)
    ensures CanMatch(h) <==> exists d :: ValidDate(d) && Matches(ToCalendarEntry(h).value, d)
  {
    if d :| ValidDate(d) && Matches(ToCalendarEntry(h).value, d) {
      MatchedCan(h, d);
    }
    if CanMatch(h) {
      match h.rule {
        case Fixed => var d := FixedCanMatch(h);
        case Range =>
          var start := Date(RuleYear(h).value, h.month.value, h.day.value);
          FirstFromIsFirst(start, FirstFrom(start));
          DatedRangeMatches(h, RuleYear(h).value, FirstFrom(start));
        case Floating => var d := FloatingCanMatch(h);
      }
    }
  }
}
