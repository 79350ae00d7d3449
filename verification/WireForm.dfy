/**
The text `_norm` gives a calendar entry (bms/reconciler.py:490-496) tells entries
apart.  A decoded entry is a dictionary with its one choice (bms/holidays.py:32-65
and bms/bacnet.py:468-490 build the same three); dates are tuples of four numbers,
and a week-and-day is taken here as its three octets.
*/
module WireForm {
  import opened TextOrder
  import opened BacnetObjects
  import opened EntryCompare

  // ----------------------------------------------------------- the wire form

  function DateValue(d: BacnetDate): Value {
    Tuple([Int(d.year), Int(d.month), Int(d.day), Int(d.weekday)])
  }

  function RangeValue(s: BacnetDate, e: BacnetDate): Value {
    Dict(map["startDate" := DateValue(s), "endDate" := DateValue(e)])
  }

  function Wire(e: CalendarEntry): Value {
    match e
    case SingleDate(d) => Dict(map["date" := DateValue(d)])
    case DateRange(s, e) => Dict(map["dateRange" := RangeValue(s, e)])
    case WeekNDay(m, w, k) => Dict(map["weekNDay" := Tuple([Int(m), Int(w), Int(k)])])
  }

  /** What the comparison sees of an entry. */
  ghost function EntryText(floatText: real -> string, e: CalendarEntry): string {
    NormText(Wire(e), floatText)
  }

  lemma {:induction false} DateIsPlain(d: BacnetDate)
    ensures Plain(DateValue(d))
  {
  }

  lemma {:induction false} RangeIsPlain(s: BacnetDate, e: BacnetDate)
    ensures Plain(RangeValue(s, e))
  {
    DateIsPlain(s);
    DateIsPlain(e);
  }

  lemma {:induction false} OneIsPlain(k: string, v: Value)
    requires Plain(v)
    ensures Plain(Dict(map[k := v]))
  {
  }

  /** Such values hold no float and no boolean, so equal entries are identical. */
  lemma {:induction false} WireIsPlain(e: CalendarEntry)
    ensures Plain(Wire(e))
  {
    match e {
      case SingleDate(d) => DateIsPlain(d); OneIsPlain("date", DateValue(d));
      case DateRange(s, e) => RangeIsPlain(s, e); OneIsPlain("dateRange", RangeValue(s, e));
      case WeekNDay(m, w, k) =>
        var v := Tuple([Int(m), Int(w), Int(k)]);
        assert Plain(v);
        OneIsPlain("weekNDay", v);
    }
  }

  // ------------------------------------------------------------ texts taken apart

  lemma {:induction false} SameFront(p: string, r: string, t: string)
    requires p + r == p + t
    ensures r == t
  {
    assert (p + r)[|p|..] == r && (p + t)[|p|..] == t;
  }

  lemma {:induction false} SameBack(x: string, y: string, q: string)
    requires x + q == y + q
    ensures x == y
  {
    assert |x| == |y|;
    assert (x + q)[..|x|] == x && (y + q)[..|y|] == y;
  }

  lemma {:induction false} SameInside(p: string, x: string, y: string, q: string)
    requires p + x + q == p + y + q
    ensures x == y
  {
    SameBack(p + x, p + y, q);
    SameFront(p, x, y);
  }

  lemma {:induction false} LastIsShorter(x: string, y: string, sep: char, r: string, t: string)
    requires sep !in t && x + [sep] + r == y + [sep] + t
    ensures |t| <= |r|
  {
    var a, b := x + [sep] + r, y + [sep] + t;
    assert a[|x|] == sep;
    assert forall i :: |y| < i < |b| ==> b[i] == t[i - |y| - 1];
  }

  /** Where a separator comes last, the texts before and after it are settled. */
  lemma {:induction false} LastCut(x: string, y: string, sep: char, r: string, t: string)
    requires sep !in r && sep !in t && x + [sep] + r == y + [sep] + t
    ensures x == y && r == t
  {
    LastIsShorter(x, y, sep, r, t);
    LastIsShorter(y, x, sep, t, r);
    var a, b := x + [sep] + r, y + [sep] + t;
    assert |x| == |y|;
    assert a[..|x|] == x && b[..|y|] == y;
    assert a[|x| + 1..] == r && b[|y| + 1..] == t;
  }

  // ------------------------------------------------------------ numbers apart

  lemma {:induction false} NatTextIsDigits(n: nat)
    ensures NatText(n) != [] && forall i :: 0 <= i < |NatText(n)| ==> '0' <= NatText(n)[i] <= '9'
  {
    if n >= 10 {
      NatTextIsDigits(n / 10);
    }
  }

  lemma {:induction false} NatTextApart(m: nat, n: nat)
    requires NatText(m) == NatText(n)
    ensures m == n
  {
    NatTextIsDigits(m / 10);
    NatTextIsDigits(n / 10);
    var s, t := NatText(m), NatText(n);
    assert s[|s| - 1] == Digit(m % 10) && t[|t| - 1] == Digit(n % 10);
    if m >= 10 && n >= 10 {
      assert s[..|s| - 1] == NatText(m / 10) && t[..|t| - 1] == NatText(n / 10);
      NatTextApart(m / 10, n / 10);
    }
  }

  lemma {:induction false} SignShows(n: int)
    ensures IntText(n) != [] && (IntText(n)[0] == '-' <==> n < 0)
    ensures ',' !in IntText(n) && '[' !in IntText(n)
    ensures n < 0 ==> IntText(n)[1..] == NatText(-n)
  {
    NatTextIsDigits(if n < 0 then -n else n);
  }

  lemma {:induction false} IntTextApart(m: int, n: int)
    requires IntText(m) == IntText(n)
    ensures m == n
  {
    SignShows(m);
    SignShows(n);
    if m < 0 {
      NatTextApart(-m, -n);
    } else {
      NatTextApart(m, n);
    }
  }

  // ------------------------------------------------------------- tuples apart

  ghost predicate AllInts(vs: seq<Value>) {
    forall i :: 0 <= i < |vs| ==> vs[i].Int?
  }

  ghost predicate PartsOf(vs: seq<Value>, owner: Value) {
    forall i :: 0 <= i < |vs| ==> vs[i] < owner
  }

  lemma {:induction false} ItemsHoldNoBracket(o: Value, a: seq<Value>, floatText: real -> string)
    requires AllInts(a) && PartsOf(a, o)
    ensures '[' !in JoinItems(o, a, floatText)
  {
    if a != [] {
      SignShows(a[|a| - 1].n);
      ItemsHoldNoBracket(o, a[..|a| - 1], floatText);
    }
  }

  lemma {:induction false} ItemsApart(o: Value, p: Value, a: seq<Value>, b: seq<Value>, floatText: real -> string)
    requires AllInts(a) && AllInts(b) && |a| == |b| && PartsOf(a, o) && PartsOf(b, p)
    requires JoinItems(o, a, floatText) == JoinItems(p, b, floatText)
    ensures a == b
    decreases |a|
  {
    if a != [] {
      var n := |a| - 1;
      SignShows(a[n].n);
      SignShows(b[n].n);
      if n > 0 {
        LastCut(JoinItems(o, a[..n], floatText), JoinItems(p, b[..n], floatText), ',', IntText(a[n].n), IntText(b[n].n));
        ItemsApart(o, p, a[..n], b[..n], floatText);
      } else {
        assert JoinItems(o, a, floatText) == IntText(a[0].n) && JoinItems(p, b, floatText) == IntText(b[0].n);
      }
      IntTextApart(a[n].n, b[n].n);
      assert a == a[..n] + [a[n]] && b == b[..n] + [b[n]];
    }
  }

  lemma {:induction false} OwnParts(v: Value)
    requires v.Tuple?
    ensures PartsOf(v.items, v)
  {
  }

  lemma {:induction false} TupleApart(v: Value, w: Value, floatText: real -> string)
    requires v.Tuple? && w.Tuple? && |v.items| == |w.items| && AllInts(v.items) && AllInts(w.items)
    requires NormText(v, floatText) == NormText(w, floatText)
    ensures v == w
  {
    OwnParts(v);
    OwnParts(w);
    SameInside("[", JoinItems(v, v.items, floatText), JoinItems(w, w.items, floatText), "]");
    ItemsApart(v, w, v.items, w.items, floatText);
  }

  /** Brackets around something that holds none. */
  ghost predicate Bracketed(s: string) {
    |s| >= 2 && s[0] == '[' && '[' !in s[1..]
  }

  lemma {:induction false} DateIsBracketed(d: BacnetDate, floatText: real -> string)
    ensures Bracketed(NormText(DateValue(d), floatText))
  {
    var v := DateValue(d);
    OwnParts(v);
    ItemsHoldNoBracket(v, v.items, floatText);
    var j := JoinItems(v, v.items, floatText);
    assert ("[" + j + "]")[1..] == j + "]";
  }

  // ------------------------------------------------------- dictionaries apart

  lemma {:induction false} OneKey(k: string)
    ensures SortedKeys({k}) == [k]
  {
    LeastExists({k});
    assert {k} - {k} == {};
    assert SortedKeys({}) == [];
  }

  lemma {:induction false} TwoKeys(a: string, b: string)
    requires Less(a, b) && a != b
    ensures SortedKeys({a, b}) == [a, b]
  {
    LeastExists({a, b});
    assert forall k :: Least(k, {a, b}) ==> k == a;
    assert {a, b} - {a} == {b};
    OneKey(b);
  }

  function KeyText(k: string, v: string): string {
    k + ":" + v
  }

  lemma {:induction false} OnePair(o: Value, k: string, floatText: real -> string)
    requires o.Dict? && k in o.m
    ensures JoinPairs(o, [k], floatText) == KeyText(k, NormText(o.m[k], floatText))
  {
  }

  lemma {:induction false} DictOfOne(k: string, v: Value, floatText: real -> string)
    ensures NormText(Dict(map[k := v]), floatText) == "{" + KeyText(k, NormText(v, floatText)) + "}"
  {
    var o := Dict(map[k := v]);
    assert o.m.Keys == {k};
    OneKey(k);
    OnePair(o, k, floatText);
  }

  function TwoTexts(a: string, v: string, b: string, w: string): string {
    KeyText(a, v) + "," + b + ":" + w
  }

  lemma {:induction false} TwoPairs(o: Value, a: string, b: string, floatText: real -> string)
    requires o.Dict? && a in o.m && b in o.m
    ensures JoinPairs(o, [a, b], floatText) == TwoTexts(a, NormText(o.m[a], floatText), b, NormText(o.m[b], floatText))
  {
    assert [a, b][..1] == [a];
    OnePair(o, a, floatText);
  }

  lemma {:induction false} DictOfTwo(m: map<string, Value>, a: string, b: string, floatText: real -> string)
    requires m.Keys == {a, b} && Less(a, b) && a != b
    ensures NormText(Dict(m), floatText)
            == "{" + TwoTexts(a, NormText(m[a], floatText), b, NormText(m[b], floatText)) + "}"
  {
    TwoKeys(a, b);
    TwoPairs(Dict(m), a, b, floatText);
  }

  lemma {:induction false} OneApart(k: string, v: Value, w: Value, floatText: real -> string)
    requires NormText(Dict(map[k := v]), floatText) == NormText(Dict(map[k := w]), floatText)
    ensures NormText(v, floatText) == NormText(w, floatText)
  {
    DictOfOne(k, v, floatText);
    DictOfOne(k, w, floatText);
    SameInside("{", KeyText(k, NormText(v, floatText)), KeyText(k, NormText(w, floatText)), "}");
    SameFront(k + ":", NormText(v, floatText), NormText(w, floatText));
  }

  lemma {:induction false} Regroup(x: string, w: string)
    requires Bracketed(w)
    ensures x + w == x + ['['] + w[1..]
  {
    assert w == ['['] + w[1..];
  }

  lemma {:induction false} BracketCut(x: string, w: string, y: string, u: string)
    requires Bracketed(w) && Bracketed(u) && x + w == y + u
    ensures x == y && w == u
  {
    Regroup(x, w);
    Regroup(y, u);
    LastCut(x, y, '[', w[1..], u[1..]);
    assert w == ['['] + w[1..] && u == ['['] + u[1..];
  }

  lemma {:induction false} TwoTextsApart(a: string, v: string, b: string, w: string, v': string, w': string)
    requires Bracketed(w) && Bracketed(w') && TwoTexts(a, v, b, w) == TwoTexts(a, v', b, w')
    ensures v == v' && w == w'
  {
    BracketCut(KeyText(a, v) + "," + b + ":", w, KeyText(a, v') + "," + b + ":", w');
    SameBack(KeyText(a, v) + "," + b, KeyText(a, v') + "," + b, ":");
    SameBack(KeyText(a, v) + ",", KeyText(a, v') + ",", b);
    SameBack(KeyText(a, v), KeyText(a, v'), ",");
    SameFront(a + ":", v, v');
  }

  lemma {:induction false} DateApart(c: BacnetDate, d: BacnetDate, floatText: real -> string)
    requires NormText(DateValue(c), floatText) == NormText(DateValue(d), floatText)
    ensures c == d
  {
    var v, w := DateValue(c), DateValue(d);
    TupleApart(v, w, floatText);
    assert forall i :: 0 <= i < 4 ==> v.items[i] == w.items[i];
    assert v.items[0].n == c.year && v.items[1].n == c.month && v.items[2].n == c.day && v.items[3].n == c.weekday;
    assert w.items[0].n == d.year && w.items[1].n == d.month && w.items[2].n == d.day && w.items[3].n == d.weekday;
  }

  lemma {:induction false} RangeText(s: BacnetDate, e: BacnetDate, floatText: real -> string)
    ensures NormText(RangeValue(s, e), floatText)
            == "{" + TwoTexts("endDate", NormText(DateValue(e), floatText), "startDate", NormText(DateValue(s), floatText)) + "}"
  {
    DictOfTwo(RangeValue(s, e).m, "endDate", "startDate", floatText);
  }

  lemma {:induction false} RangeApart(s: BacnetDate, e: BacnetDate, s': BacnetDate, e': BacnetDate, floatText: real -> string)
    requires NormText(RangeValue(s, e), floatText) == NormText(RangeValue(s', e'), floatText)
    ensures s == s' && e == e'
  {
    RangeText(s, e, floatText);
    RangeText(s', e', floatText);
    DateIsBracketed(s, floatText);
    DateIsBracketed(s', floatText);
    var v, w := NormText(DateValue(e), floatText), NormText(DateValue(s), floatText);
    var v', w' := NormText(DateValue(e'), floatText), NormText(DateValue(s'), floatText);
    SameInside("{", TwoTexts("endDate", v, "startDate", w), TwoTexts("endDate", v', "startDate", w'), "}");
    TwoTextsApart("endDate", v, "startDate", w, v', w');
    DateApart(s, s', floatText);
    DateApart(e, e', floatText);
  }

  lemma {:induction false} WeekApart(a: CalendarEntry, b: CalendarEntry, floatText: real -> string)
    requires a.WeekNDay? && b.WeekNDay?
    requires NormText(Tuple([Int(a.month), Int(a.week), Int(a.weekday)]), floatText)
             == NormText(Tuple([Int(b.month), Int(b.week), Int(b.weekday)]), floatText)
    ensures a == b
  {
    var v, w := Tuple([Int(a.month), Int(a.week), Int(a.weekday)]), Tuple([Int(b.month), Int(b.week), Int(b.weekday)]);
    TupleApart(v, w, floatText);
    assert forall i :: 0 <= i < 3 ==> v.items[i] == w.items[i];
    assert v.items[0].n == a.month && v.items[1].n == a.week && v.items[2].n == a.weekday;
    assert w.items[0].n == b.month && w.items[1].n == b.week && w.items[2].n == b.weekday;
  }

  // ------------------------------------------------------------ entries apart

  function Kind(e: CalendarEntry): string {
    match e
    case SingleDate(_) => "date"
    case DateRange(_, _) => "dateRange"
    case WeekNDay(_, _, _) => "weekNDay"
  }

  lemma {:induction false} KeyShows(k: string, v: string, i: nat)
    requires i <= |k|
    ensures var s := "{" + KeyText(k, v) + "}"; |s| > i + 1 && s[i + 1] == (k + ":")[i]
  {
    var t := KeyText(k, v);
    assert |t| > i && t[i] == (k + ":")[i];
  }

  lemma {:induction false} WireKey(e: CalendarEntry)
    ensures Wire(e).Dict? && Wire(e).m.Keys == {Kind(e)} && Wire(e) == Dict(map[Kind(e) := Wire(e).m[Kind(e)]])
  {
  }

  /** The kind of an entry shows in its text. */
  lemma {:induction false} KindShows(e: CalendarEntry, i: nat, floatText: real -> string)
    requires i <= |Kind(e)|
    ensures var s := EntryText(floatText, e); |s| > i + 1 && s[i + 1] == (Kind(e) + ":")[i]
  {
    WireKey(e);
    DictOfOne(Kind(e), Wire(e).m[Kind(e)], floatText);
    KeyShows(Kind(e), NormText(Wire(e).m[Kind(e)], floatText), i);
  }

  lemma {:induction false} SameKind(a: CalendarEntry, b: CalendarEntry, floatText: real -> string)
    requires EntryText(floatText, a) == EntryText(floatText, b)
    ensures Kind(a) == Kind(b)
  {
    KindShows(a, 0, floatText);
    KindShows(b, 0, floatText);
    KindShows(a, 4, floatText);
    KindShows(b, 4, floatText);
  }

  /** No two entries have the same text. */
  lemma {:induction false} TextTellsApart(a: CalendarEntry, b: CalendarEntry, floatText: real -> string)
    requires EntryText(floatText, a) == EntryText(floatText, b)
    ensures a == b
  {
    SameKind(a, b, floatText);
    WireKey(a);
    WireKey(b);
    OneApart(Kind(a), Wire(a).m[Kind(a)], Wire(b).m[Kind(a)], floatText);
    match a {
      case SingleDate(c) => DateApart(c, b.date, floatText);
      case DateRange(s, e) => RangeApart(s, e, b.startDate, b.endDate, floatText);
      case WeekNDay(m, w, k) => WeekApart(a, b, floatText);
    }
  }

  lemma {:induction false} EqualToItself(v: Value)
    ensures PyEq(v, v)
    decreases v
  {
    match v {
      case List(a) => forall i | 0 <= i < |a| ensures PyEq(a[i], a[i]) { EqualToItself(a[i]); }
      case Tuple(a) => forall i | 0 <= i < |a| ensures PyEq(a[i], a[i]) { EqualToItself(a[i]); }
      case Dict(a) => forall k | k in a ensures PyEq(a[k], a[k]) { EqualToItself(a[k]); }
      case _ =>
    }
  }

  /** Finding an entry by its text and finding it by Python's equality are the same thing. */
  lemma {:induction false} TextIsEquality(a: CalendarEntry, b: CalendarEntry, floatText: real -> string)
    ensures EntryText(floatText, a) == EntryText(floatText, b) <==> PyEq(Wire(a), Wire(b))
  {
    if EntryText(floatText, a) == EntryText(floatText, b) {
      TextTellsApart(a, b, floatText);
      EqualToItself(Wire(a));
    } else if PyEq(Wire(a), Wire(b)) {
      WireIsPlain(a);
      WireIsPlain(b);
      PlainEqual(Wire(a), Wire(b));
    }
  }
}
