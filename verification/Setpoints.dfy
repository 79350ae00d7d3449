/**
Setpoint intent: which value a device should have for a point, and the loop that
writes it (bms/store.py, setpoints_for; bms/reconciler.py, _reconcile_setpoints;
the limits of bms/points.py).
*/
module Setpoints {
  import opened Prelude
  import opened Exceptions

  /** A row of `setpoint_intent`. */
  datatype SetpointRow = SetpointRow(scope: Scope, key: string, value: real)

  // ------------------------------------------------------ a Python dictionary

  /** A dictionary in insertion order. */
  type Ordered = seq<(string, real)>

  predicate DistinctKeys(d: Ordered) {
    forall i, j :: 0 <= i < j < |d| ==> d[i].0 != d[j].0
  }

  function Get(d: Ordered, key: string): (r: Option<real>)
    ensures r.Some? <==> exists i :: 0 <= i < |d| && d[i].0 == key
  {
    if d == [] then None
    else if d[0].0 == key then Some(d[0].1)
    else
      var r := Get(d[1..], key);
      assert r.Some? ==> exists j :: 0 <= j < |d[1..]| && d[1..][j].0 == key;
      assert forall j :: 0 < j < |d| ==> d[j] == d[1..][j - 1];
      assert forall j :: 0 <= j < |d[1..]| ==> d[1..][j] == d[j + 1];
      r
  }

  /** `d[key] = value`: in place when the key is there, else at the end. */
  function Put(d: Ordered, key: string, value: real): (r: Ordered)
    ensures |r| >= 1
  {
    if d == [] then [(key, value)]
    else if d[0].0 == key then [(key, value)] + d[1..]
    else [d[0]] + Put(d[1..], key, value)
  }

  lemma {:induction false} PutThenGet(d: Ordered, key: string, value: real, k: string)
    ensures Get(Put(d, key, value), k) == if k == key then Some(value) else Get(d, k)
  {
    if d != [] {
      assert Put(d, key, value)[1..] == if d[0].0 == key then d[1..] else Put(d[1..], key, value);
      PutThenGet(d[1..], key, value, k);
    }
  }

  lemma {:induction false} PutKeys(d: Ordered, key: string, value: real, k: string)
    requires k != key && forall i :: 0 <= i < |d| ==> d[i].0 != k
    ensures forall i :: 0 <= i < |Put(d, key, value)| ==> Put(d, key, value)[i].0 != k
  {
    PutThenGet(d, key, value, k);
  }

  lemma {:induction false} PutDistinct(d: Ordered, key: string, value: real)
    requires DistinctKeys(d)
    ensures DistinctKeys(Put(d, key, value))
  {
    if d != [] {
      if d[0].0 != key {
        var rest := d[1..];
        assert forall i :: 0 <= i < |rest| ==> rest[i] == d[i + 1];
        PutDistinct(rest, key, value);
        PutKeys(rest, key, value, d[0].0);
      }
    }
  }

  lemma {:induction false} GetAt(d: Ordered, i: nat)
    requires DistinctKeys(d) && i < |d|
    ensures Get(d, d[i].0) == Some(d[i].1)
  {
    if i > 0 {
      assert d[0].0 != d[i].0;
      assert d[1..][i - 1] == d[i];
      GetAt(d[1..], i - 1);
    }
  }

  // ------------------------------------------------------------- resolution

  /** What one scope says about `key`: its row, the last read if there were several. */
  function ScopeValue(rows: seq<SetpointRow>, scope: Scope, key: string): Option<real> {
    if rows == [] then None
    else
      var last := rows[|rows| - 1];
      if last.scope == scope && last.key == key then Some(last.value)
      else ScopeValue(rows[..|rows| - 1], scope, key)
  }

  function Over<T>(a: Option<T>, b: Option<T>): Option<T> {
    if a.Some? then a else b
  }

  /** Device over zone over global. */
  function MostSpecific(rows: seq<SetpointRow>, device: string, zone: string, key: string): Option<real> {
    Over(ScopeValue(rows, DeviceScope(device), key),
         Over(ScopeValue(rows, ZoneScope(zone), key), ScopeValue(rows, GlobalScope, key)))
  }

  /** The rows of one scope put into the dictionary, as the inner loop does. */
  function PutScope(resolved: Ordered, rows: seq<SetpointRow>, scope: Scope): Ordered {
    if rows == [] then resolved
    else
      var before, last := PutScope(resolved, rows[..|rows| - 1], scope), rows[|rows| - 1];
      if last.scope == scope then Put(before, last.key, last.value) else before
  }

  lemma {:induction false} PutScopeGives(resolved: Ordered, rows: seq<SetpointRow>, scope: Scope, key: string)
    requires DistinctKeys(resolved)
    ensures DistinctKeys(PutScope(resolved, rows, scope))
    ensures Get(PutScope(resolved, rows, scope), key) == Over(ScopeValue(rows, scope, key), Get(resolved, key))
  {
    if rows != [] {
      var before, last := PutScope(resolved, rows[..|rows| - 1], scope), rows[|rows| - 1];
      PutScopeGives(resolved, rows[..|rows| - 1], scope, key);
      PutThenGet(before, last.key, last.value, key);
      PutDistinct(before, last.key, last.value);
    }
  }

  /** The dictionary `setpoints_for` returns. */
  function Resolved(rows: seq<SetpointRow>, device: string, zone: string): Ordered {
    PutScope(PutScope(PutScope([], rows, GlobalScope), rows, ZoneScope(zone)), rows, DeviceScope(device))
  }

  /** Most specific scope wins, and no key appears twice. */
  lemma {:induction false} ResolvedIsMostSpecific(rows: seq<SetpointRow>, device: string, zone: string, key: string)
    ensures DistinctKeys(Resolved(rows, device, zone))
    ensures Get(Resolved(rows, device, zone), key) == MostSpecific(rows, device, zone, key)
  {
    var global := PutScope([], rows, GlobalScope);
    var zoned := PutScope(global, rows, ZoneScope(zone));
    PutScopeGives([], rows, GlobalScope, key);
    PutScopeGives(global, rows, ZoneScope(zone), key);
    PutScopeGives(zoned, rows, DeviceScope(device), key);
  }

  method SetpointsFor(rows: seq<SetpointRow>, device: string, zone: string) returns (resolved: Ordered)
    ensures resolved == Resolved(rows, device, zone)
    ensures DistinctKeys(resolved)
    ensures forall key :: Get(resolved, key) == MostSpecific(rows, device, zone, key)
  {
    resolved := [];
    var scopes := [GlobalScope, ZoneScope(zone), DeviceScope(device)];
    ghost var global := PutScope([], rows, GlobalScope);
    ghost var zoned := PutScope(global, rows, ZoneScope(zone));
    for i := 0 to 3
      invariant resolved == if i == 0 then [] else if i == 1 then global else if i == 2 then zoned else Resolved(rows, device, zone)
    {
      ghost var before := resolved;
      for j := 0 to |rows|
        invariant resolved == PutScope(before, rows[..j], scopes[i])
      {
        assert rows[..j + 1][..j] == rows[..j];
        if rows[j].scope == scopes[i] {
          resolved := Put(resolved, rows[j].key, rows[j].value);
        }
      }
      assert rows[..|rows|] == rows;
    }
    ResolvedIsMostSpecific(rows, device, zone, "");
    forall key ensures Get(resolved, key) == MostSpecific(rows, device, zone, key) {
      ResolvedIsMostSpecific(rows, device, zone, key);
    }
  }

  // ------------------------------------------------------------------ limits

  /** `SETPOINT_LIMITS`. */
  function Limits(key: string): (r: Option<(real, real)>)
    ensures r.Some? ==> r.value.0 <= r.value.1
  {
    if key == "occ_cool_sp" then Some((65.0, 85.0))
    else if key == "occ_heat_sp" then Some((60.0, 78.0))
    else if key == "standby_cool_sp" then Some((68.0, 88.0))
    else if key == "standby_heat_sp" then Some((55.0, 75.0))
    else if key == "unocc_cool_sp" then Some((75.0, 95.0))
    else if key == "unocc_heat_sp" then Some((50.0, 68.0))
    else None
  }

  /** `min(hi, max(lo, want))`, and no limit for any other key. */
  function Clamp(key: string, want: real): (r: real)
    ensures Limits(key).Some? ==> Limits(key).value.0 <= r <= Limits(key).value.1
    ensures Limits(key).None? || Limits(key).value.0 <= want <= Limits(key).value.1 ==> r == want
  {
    match Limits(key)
    case None => want
    case Some((lo, hi)) =>
      var raised := if want > lo then want else lo;
      if raised < hi then raised else hi
  }

  function Gap(x: real, y: real): real {
    if x >= y then x - y else y - x
  }

  /** A value the point may be given: the guard rails of the six setpoints, and anything for other points. */
  predicate Allowed(key: string, v: real) {
    && (key == "occ_cool_sp" ==> 65.0 <= v <= 85.0) && (key == "occ_heat_sp" ==> 60.0 <= v <= 78.0)
    && (key == "standby_cool_sp" ==> 68.0 <= v <= 88.0) && (key == "standby_heat_sp" ==> 55.0 <= v <= 75.0)
    && (key == "unocc_cool_sp" ==> 75.0 <= v <= 95.0) && (key == "unocc_heat_sp" ==> 50.0 <= v <= 68.0)
  }

  /** Clamping gives the allowed value nearest to the wanted one, and it is the only one so near. */
  lemma {:induction false} ClampIsNearest(key: string, want: real, other: real)
    requires Allowed(key, other)
    ensures Allowed(key, Clamp(key, want)) && Gap(Clamp(key, want), want) <= Gap(other, want)
    ensures Gap(Clamp(key, want), want) == Gap(other, want) ==> other == Clamp(key, want)
  {
  }

  /** `abs(have - want) < 0.1`. */
  predicate Close(have: real, want: real) {
    -0.1 < have - want < 0.1
  }
}
