/**
Pairing one suite's samples with another's, and the windows after each
adjustment (tools/correlate.py, aligned and adjustment_windows).
*/
module Alignment {
  import opened Prelude
  import opened Reals

  /** A sample: when, and the field asked for, if it was there. */
  datatype Sample = Sample(at: real, value: Option<real>)

  /** A series comes from a dictionary sorted by time: every time once, in order. */
  ghost predicate InTime(s: seq<Sample>) {
    forall i, j :: 0 <= i < j < |s| ==> s[i].at < s[j].at
  }

  function Distance(x: real, y: real): (d: real)
    ensures d >= 0.0 && (d == x - y || d == y - x)
  {
    if x >= y then x - y else y - x
  }

  // ----------------------------------------------------------------- aligned

  /** `min(b_times, key=...)`: the first of the nearest. */
  function Nearest(b: seq<Sample>, want: real): (k: nat)
    requires b != []
    ensures k < |b|
  {
    if |b| == 1 then 0
    else
      var k := Nearest(b[..|b| - 1], want);
      if Distance(b[|b| - 1].at, want) < Distance(b[k].at, want) then |b| - 1 else k
  }

  /** No sample is nearer, and none before it is as near. */
  lemma {:induction false} NearestIsFirst(b: seq<Sample>, want: real, i: nat)
    requires i < |b|
    ensures Distance(b[Nearest(b, want)].at, want) <= Distance(b[i].at, want)
    ensures i < Nearest(b, want) ==> Distance(b[Nearest(b, want)].at, want) < Distance(b[i].at, want)
  {
    if |b| > 1 {
      var init := b[..|b| - 1];
      if i < |init| {
        NearestIsFirst(init, want, i);
      }
    }
  }

  /** Three quarters of the mean interval, and at least a minute. */
  function Tolerance(b: seq<Sample>): real
    requires b != []
  {
    var intervals := if |b| - 1 > 1 then (|b| - 1) as real else 1.0;
    var step := Over(b[|b| - 1].at - b[0].at, intervals);
    if step * 0.75 > 60.0 then step * 0.75 else 60.0
  }

  /** What one of A's samples contributes. */
  function PairOf(s: Sample, b: seq<Sample>, lag: real): Option<(real, real)>
    requires b != []
  {
    var want := s.at + lag;
    var near := b[Nearest(b, want)];
    if Distance(near.at, want) > Tolerance(b) then None
    else
      match (s.value, near.value)
      case (Some(x), Some(y)) => Some((x, y))
      case _ => None
  }

  /** B's sample `k` is the first of those nearest to the time. */
  ghost predicate FirstNearest(b: seq<Sample>, k: int, want: real) {
    && 0 <= k < |b|
    && (forall i :: 0 <= i < k ==> Distance(b[k].at, want) < Distance(b[i].at, want))
    && (forall i :: k < i < |b| ==> Distance(b[k].at, want) <= Distance(b[i].at, want))
  }

  /** B's samples lie this far apart on average, and a time may be off by three quarters of it or by a minute. */
  ghost predicate Tolerated(b: seq<Sample>, off: real)
    requires b != []
  {
    var step := Over(b[|b| - 1].at - b[0].at, if |b| > 2 then (|b| - 1) as real else 1.0);
    off <= 60.0 || off <= 0.75 * step
  }

  lemma {:induction false} FirstNearestIs(b: seq<Sample>, k: int, want: real)
    requires b != []
    ensures FirstNearest(b, k, want) <==> k == Nearest(b, want)
  {
    forall i | 0 <= i < |b|
      ensures Distance(b[Nearest(b, want)].at, want) <= Distance(b[i].at, want)
      ensures i < Nearest(b, want) ==> Distance(b[Nearest(b, want)].at, want) < Distance(b[i].at, want)
    {
      NearestIsFirst(b, want, i);
    }
    assert FirstNearest(b, Nearest(b, want), want);
  }

  lemma {:induction false} ToleratedIs(b: seq<Sample>, off: real)
    requires b != []
    ensures Tolerated(b, off) <==> off <= Tolerance(b)
  {
    var step := Over(b[|b| - 1].at - b[0].at, if |b| > 2 then (|b| - 1) as real else 1.0);
    assert Tolerance(b) == if step * 0.75 > 60.0 then step * 0.75 else 60.0;
  }

  /** A sample gives a pair exactly if both it and B's sample nearest to its time plus the lag have a value, the latter near enough. */
  lemma {:induction false} PairOfExactly(s: Sample, b: seq<Sample>, lag: real, x: real, y: real)
    requires b != []
    ensures PairOf(s, b, lag) == Some((x, y))
            <==> s.value == Some(x)
                 && exists k :: FirstNearest(b, k, s.at + lag) && b[k].value == Some(y) && Tolerated(b, Distance(b[k].at, s.at + lag))
  {
    var want := s.at + lag;
    var near := Nearest(b, want);
    forall k ensures FirstNearest(b, k, want) <==> k == near {
      FirstNearestIs(b, k, want);
    }
    ToleratedIs(b, Distance(b[near].at, want));
    NearPair(s, b, lag, near, x, y);
  }

  lemma {:induction false} NearPair(s: Sample, b: seq<Sample>, lag: real, near: nat, x: real, y: real)
    requires near < |b| && near == Nearest(b, s.at + lag)
    ensures PairOf(s, b, lag) == Some((x, y))
            <==> s.value == Some(x) && b[near].value == Some(y) && Distance(b[near].at, s.at + lag) <= Tolerance(b)
  {
  }

  /** The pairs, in A's order. */
  function Pairs(a: seq<Sample>, b: seq<Sample>, lag: real): seq<(real, real)>
    requires b != []
  {
    if a == [] then []
    else Pairs(a[..|a| - 1], b, lag)
         + match PairOf(a[|a| - 1], b, lag) case None => [] case Some(p) => [p]
  }

  /** What some of a list's elements give, in order. */
  function Collected<T(!new), V>(rows: seq<T>, f: T -> Option<V>): seq<V> {
    if rows == [] then []
    else Collected(rows[..|rows| - 1], f) + match f(rows[|rows| - 1]) case None => [] case Some(v) => [v]
  }

  ghost predicate Rising(from: seq<nat>, n: nat) {
    (forall i, j :: 0 <= i < j < |from| ==> from[i] < from[j]) && forall j :: 0 <= j < |from| ==> from[j] < n
  }

  /** These are the positions of the elements that give something, and this is what they give. */
  ghost predicate Selects<T(!new), V>(rows: seq<T>, f: T -> Option<V>, from: seq<nat>, out: seq<V>) {
    && |from| == |out| && Rising(from, |rows|)
    && (forall j :: 0 <= j < |from| ==> f(rows[from[j]]) == Some(out[j]))
    && (forall i :: 0 <= i < |rows| && f(rows[i]).Some? ==> i in from)
  }

  lemma {:induction false} SelectsOneMore<T(!new), V>(rows: seq<T>, r: T, f: T -> Option<V>, from: seq<nat>, out: seq<V>)
    requires Selects(rows, f, from, out)
    ensures match f(r)
            case None => Selects(rows + [r], f, from, out)
            case Some(v) => Selects(rows + [r], f, from + [|rows|], out + [v])
  {
    if f(r).Some? {
      forall i | 0 <= i < |rows + [r]| && f((rows + [r])[i]).Some? ensures i in from + [|rows|] {
        if i == |rows| { assert (from + [|rows|])[|from|] == i; }
      }
    }
  }

  lemma {:induction false} CollectedFrom<T(!new), V>(rows: seq<T>, f: T -> Option<V>) returns (from: seq<nat>)
    ensures Selects(rows, f, from, Collected(rows, f))
  {
    from := [];
    if rows != [] {
      var n := |rows| - 1;
      from := CollectedFrom(rows[..n], f);
      assert rows == rows[..n] + [rows[n]];
      SelectsOneMore(rows[..n], rows[n], f, from, Collected(rows[..n], f));
      if f(rows[n]).Some? {
        from := from + [n];
      }
    }
  }

  lemma {:induction false} PairsCollected(a: seq<Sample>, b: seq<Sample>, lag: real, f: Sample -> Option<(real, real)>)
    requires b != [] && forall s :: f(s) == PairOf(s, b, lag)
    ensures Pairs(a, b, lag) == Collected(a, f)
  {
    if a != [] {
      PairsCollected(a[..|a| - 1], b, lag, f);
    }
  }

  /** The pairs are those of the samples that give one, in order and each once. */
  lemma {:induction false} PairsAre(a: seq<Sample>, b: seq<Sample>, lag: real) returns (from: seq<nat>)
    requires b != []
    ensures |from| == |Pairs(a, b, lag)| && forall i, j :: 0 <= i < j < |from| ==> from[i] < from[j]
    ensures forall j :: 0 <= j < |from| ==> from[j] < |a| && PairOf(a[from[j]], b, lag) == Some(Pairs(a, b, lag)[j])
    ensures forall i :: 0 <= i < |a| && PairOf(a[i], b, lag).Some? ==> i in from
  {
    var f := (s: Sample) => PairOf(s, b, lag);
    PairsCollected(a, b, lag, f);
    from := CollectedFrom(a, f);
  }

  function Firsts(ps: seq<(real, real)>): (r: seq<real>)
    ensures |r| == |ps|
  {
    if ps == [] then [] else Firsts(ps[..|ps| - 1]) + [ps[|ps| - 1].0]
  }

  function Seconds(ps: seq<(real, real)>): (r: seq<real>)
    ensures |r| == |ps|
  {
    if ps == [] then [] else Seconds(ps[..|ps| - 1]) + [ps[|ps| - 1].1]
  }

  lemma {:induction false} PairsSnoc(ps: seq<(real, real)>, p: (real, real))
    ensures Firsts(ps + [p]) == Firsts(ps) + [p.0] && Seconds(ps + [p]) == Seconds(ps) + [p.1]
  {
    assert (ps + [p])[..|ps|] == ps;
  }

  method Aligned(a: seq<Sample>, b: seq<Sample>, lagMinutes: real) returns (xs: seq<real>, ys: seq<real>)
    ensures |xs| == |ys|
    ensures b == [] ==> xs == []
    ensures b != [] ==> var ps := Pairs(a, b, lagMinutes * 60.0); xs == Firsts(ps) && ys == Seconds(ps)
  {
    xs, ys := [], [];
    if b == [] {
      return;
    }
    var lag := lagMinutes * 60.0;
    var tolerance := Tolerance(b);
    for i := 0 to |a|
      invariant xs == Firsts(Pairs(a[..i], b, lag)) && ys == Seconds(Pairs(a[..i], b, lag))
    {
      PairsStep(a, i, b, lag);
      var want := a[i].at + lag;
      var near := b[Nearest(b, want)];
      if Distance(near.at, want) > tolerance {
        continue;
      }
      if a[i].value.None? || near.value.None? {
        continue;
      }
      xs := xs + [a[i].value.value];
      ys := ys + [near.value.value];
    }
    assert a[..|a|] == a;
  }

  /** One more of A's samples: a pair more, or none. */
  lemma {:induction false} PairsStep(a: seq<Sample>, i: nat, b: seq<Sample>, lag: real)
    requires i < |a| && b != []
    ensures var near := b[Nearest(b, a[i].at + lag)];
            var before, after := Pairs(a[..i], b, lag), Pairs(a[..i + 1], b, lag);
            if Distance(near.at, a[i].at + lag) > Tolerance(b) || a[i].value.None? || near.value.None?
            then after == before
            else Firsts(after) == Firsts(before) + [a[i].value.value] && Seconds(after) == Seconds(before) + [near.value.value]
  {
    assert a[..i + 1][..i] == a[..i];
    var p := PairOf(a[i], b, lag);
    if p.Some? {
      PairsSnoc(Pairs(a[..i], b, lag), p.value);
    }
  }

  // --------------------------------------------- nothing regular is left out

  /** Every interval is `step`. */
  ghost predicate Regular(b: seq<Sample>, step: real) {
    forall i :: 0 < i < |b| ==> b[i].at - b[i - 1].at == step
  }

  lemma {:induction false} RegularSpan(b: seq<Sample>, step: real)
    requires b != [] && Regular(b, step)
    ensures b[|b| - 1].at - b[0].at == Times((|b| - 1) as real, step)
  {
    if |b| == 1 {
      Units(step);
    } else {
      var init := b[..|b| - 1];
      RegularSpan(init, step);
      Commutes((|b| - 2) as real, step);
      Commutes((|b| - 1) as real, step);
      Distributes(step, (|b| - 2) as real, 1.0);
      Commutes(step, 1.0);
      Units(step);
    }
  }

  lemma {:induction false} RegularTolerance(b: seq<Sample>, step: real)
    requires |b| >= 2 && Regular(b, step)
    ensures Tolerance(b) == if step * 0.75 > 60.0 then step * 0.75 else 60.0
  {
    RegularSpan(b, step);
    Commutes((|b| - 1) as real, step);
    OverUnique(b[|b| - 1].at - b[0].at, (|b| - 1) as real, step);
  }

  /** Between two neighbours, one is within half an interval. */
  lemma {:induction false} SomeSampleNear(b: seq<Sample>, step: real, want: real) returns (k: nat)
    requires b != [] && step >= 0.0 && Regular(b, step)
    requires b[0].at - step / 2.0 <= want <= b[|b| - 1].at + step / 2.0
    ensures k < |b| && Distance(b[k].at, want) <= step / 2.0
  {
    var last := |b| - 1;
    if want >= b[last].at - step / 2.0 {
      k := last;
    } else {
      k := SomeSampleNear(b[..last], step, want);
    }
  }

  /**
  While B is sampled regularly and A's moment plus the lag falls within B's
  series, no pair is lost to the tolerance, whatever the interval: the pair is
  made exactly when both values are there.
  */
  lemma {:induction false} RegularNeverDropped(s: Sample, b: seq<Sample>, lag: real, step: real)
    requires |b| >= 2 && step >= 0.0 && Regular(b, step)
    requires b[0].at - step / 2.0 <= s.at + lag <= b[|b| - 1].at + step / 2.0
    ensures Distance(b[Nearest(b, s.at + lag)].at, s.at + lag) <= step / 2.0
    ensures PairOf(s, b, lag).Some? <==> s.value.Some? && b[Nearest(b, s.at + lag)].value.Some?
  {
    var k := SomeSampleNear(b, step, s.at + lag);
    NearestIsFirst(b, s.at + lag, k);
    RegularTolerance(b, step);
  }

  // ------------------------------------------------------ adjustment windows

  const TEMPORARY := Some(3.0)

  /** A moved into Temporary at `i`: the sample before said something else. */
  ghost predicate AdjustedAt(a: seq<Sample>, i: int) {
    0 < i < |a| && a[i].value == Some(3.0) && a[i - 1].value.Some? && a[i - 1].value != Some(3.0)
  }

  /** The windows of the first `n` samples. */
  function Windows(a: seq<Sample>, hours: real): seq<(real, real)> {
    if |a| <= 1 then []
    else
      var i := |a| - 1;
      Windows(a[..i], hours)
      + if a[i].value == TEMPORARY && a[i - 1].value.Some? && a[i - 1].value != TEMPORARY
        then [(a[i].at, a[i].at + hours * 3600.0)] else []
  }

  method AdjustmentWindows(a: seq<Sample>, hours: real) returns (events: seq<(real, real)>)
    ensures events == Windows(a, hours)
  {
    events := [];
    var was: Option<real> := None;
    for i := 0 to |a|
      invariant events == Windows(a[..i], hours)
      invariant was == if i == 0 then None else a[i - 1].value
    {
      assert a[..i + 1][..i] == a[..i];
      var now := a[i].value;
      if was.Some? && now == TEMPORARY && was != TEMPORARY {
        events := events + [(a[i].at, a[i].at + hours * 3600.0)];
      }
      was := now;
    }
    assert a[..|a|] == a;
  }

  lemma {:induction false} WindowHasMoment(a: seq<Sample>, hours: real, w: (real, real)) returns (i: int)
    requires w in Windows(a, hours)
    ensures AdjustedAt(a, i) && w == (a[i].at, a[i].at + hours * 3600.0)
  {
    var n := |a| - 1;
    if w in Windows(a[..n], hours) {
      i := WindowHasMoment(a[..n], hours, w);
    } else {
      i := n;
    }
  }

  lemma {:induction false} MomentHasWindow(a: seq<Sample>, hours: real, i: int)
    requires AdjustedAt(a, i)
    ensures (a[i].at, a[i].at + hours * 3600.0) in Windows(a, hours)
  {
    if i < |a| - 1 {
      MomentHasWindow(a[..|a| - 1], hours, i);
    }
  }

  /** A window is reported exactly for the moments the status became Temporary from another one read just before. */
  lemma {:induction false} WindowsExactly(a: seq<Sample>, hours: real, w: (real, real))
    ensures w in Windows(a, hours) <==> exists i :: AdjustedAt(a, i) && w == (a[i].at, a[i].at + hours * 3600.0)
  {
    if w in Windows(a, hours) {
      var i := WindowHasMoment(a, hours, w);
    }
    if i :| AdjustedAt(a, i) && w == (a[i].at, a[i].at + hours * 3600.0) {
      MomentHasWindow(a, hours, i);
    }
  }

  /** And each once, in order of time. */
  lemma {:induction false} WindowsInOrder(a: seq<Sample>, hours: real)
    requires InTime(a)
    ensures forall j, k :: 0 <= j < k < |Windows(a, hours)| ==> Windows(a, hours)[j].0 < Windows(a, hours)[k].0
    ensures a != [] ==> forall j :: 0 <= j < |Windows(a, hours)| ==> Windows(a, hours)[j].0 <= a[|a| - 1].at
  {
    if |a| > 1 {
      WindowsInOrder(a[..|a| - 1], hours);
    }
  }
}
