/**
The order-insensitive comparison of calendar entries (bms/reconciler.py, _same
and _norm).

`_same` looks for an entry by its normalised text, but takes it out of the list
with `list.remove`, which looks by Python equality.  The two can disagree: 1 and
1.0 are equal and read differently.  The comparison is exact for a desired list
if and only if no two of its entries are equal with different texts.
*/
module EntryCompare {
  import opened Prelude
  import opened TextOrder

  // ---------------------------------------------------------- the comparison

  /** The first index whose normalised form is `n`. */
  function FirstNorm<T(!new), N(==)>(remaining: seq<T>, n: N, norm: T -> N): (r: Option<nat>)
    ensures r.Some? ==> r.value < |remaining| && norm(remaining[r.value]) == n
  {
    if remaining == [] then None
    else if norm(remaining[0]) == n then Some(0)
    else match FirstNorm(remaining[1..], n, norm)
         case None => None
         case Some(i) => Some(i + 1)
  }

  /** `list.remove(x)`: the index of the first element equal to `x`, itself present at index `k`. */
  function FirstEqual<T(!new)>(remaining: seq<T>, k: nat, eq: (T, T) -> bool): (r: nat)
    requires k < |remaining|
    ensures r <= k
  {
    if k == 0 || eq(remaining[0], remaining[k]) then 0
    else FirstEqual(remaining[1..], k - 1, eq) + 1
  }

  function Without<T>(s: seq<T>, i: nat): (r: seq<T>)
    requires i < |s|
    ensures |r| == |s| - 1
  {
    s[..i] + s[i + 1..]
  }

  lemma {:induction false} FirstNormIsFirst<T(!new), N>(remaining: seq<T>, n: N, norm: T -> N)
    ensures var r := FirstNorm(remaining, n, norm);
            forall i :: 0 <= i < r.GetOr(|remaining|) ==> norm(remaining[i]) != n
  {
    if remaining != [] && norm(remaining[0]) != n {
      FirstNormIsFirst(remaining[1..], n, norm);
      forall i | 0 <= i < FirstNorm(remaining, n, norm).GetOr(|remaining|) ensures norm(remaining[i]) != n {
        if i > 0 { assert remaining[i] == remaining[1..][i - 1]; }
      }
    }
  }

  lemma {:induction false} FirstEqualIsFirst<T(!new)>(remaining: seq<T>, k: nat, eq: (T, T) -> bool)
    requires k < |remaining|
    ensures var r := FirstEqual(remaining, k, eq);
            && (r < k ==> eq(remaining[r], remaining[k]))
            && forall i :: 0 <= i < r ==> !eq(remaining[i], remaining[k])
  {
    if k > 0 && !eq(remaining[0], remaining[k]) {
      FirstEqualIsFirst(remaining[1..], k - 1, eq);
      var r := FirstEqual(remaining, k, eq);
      forall i | 0 <= i < r ensures !eq(remaining[i], remaining[k]) {
        if i > 0 { assert remaining[i] == remaining[1..][i - 1]; }
      }
    }
  }

  /** The loop of `_same`, from the entries still to be matched on. */
  function Loop<T(!new), N(==)>(current: seq<T>, remaining: seq<T>, norm: T -> N, eq: (T, T) -> bool): bool {
    if current == [] then true
    else
      match FirstNorm(remaining, norm(current[0]), norm)
      case None => false
      case Some(k) => Loop(current[1..], Without(remaining, FirstEqual(remaining, k, eq)), norm, eq)
  }

  function SameSpec<T(!new), N(==)>(current: seq<T>, desired: seq<T>, norm: T -> N, eq: (T, T) -> bool): bool {
    |current| == |desired| && Loop(current, desired, norm, eq)
  }

  method Same<T(!new), N(==)>(current: seq<T>, desired: seq<T>, norm: T -> N, eq: (T, T) -> bool) returns (same: bool)
    ensures same == SameSpec(current, desired, norm, eq)
  {
    if |current| != |desired| {
      return false;
    }
    var remaining := desired;
    for i := 0 to |current|
      invariant Loop(current, desired, norm, eq) == Loop(current[i..], remaining, norm, eq)
    {
      assert current[i..][0] == current[i] && current[i..][1..] == current[i + 1..];
      var match_ := FirstNorm(remaining, norm(current[i]), norm);
      if match_.None? {
        return false;
      }
      remaining := Without(remaining, FirstEqual(remaining, match_.value, eq));
    }
    return true;
  }

  // -------------------------------------------------------------- exactness

  ghost function Norms<T(!new), N>(s: seq<T>, norm: T -> N): multiset<N> {
    if s == [] then multiset{} else multiset{norm(s[0])} + Norms(s[1..], norm)
  }

  /** Equal entries read the same. */
  ghost predicate Coherent<T(!new), N>(s: seq<T>, norm: T -> N, eq: (T, T) -> bool) {
    forall i, j :: 0 <= i < j < |s| && eq(s[i], s[j]) ==> norm(s[i]) == norm(s[j])
  }

  lemma {:induction false} NormsCons<T(!new), N>(a: T, rest: seq<T>, norm: T -> N)
    ensures Norms([a] + rest, norm) == multiset{norm(a)} + Norms(rest, norm)
  {
    assert ([a] + rest)[1..] == rest;
  }

  lemma {:induction false} NormsWithout<T(!new), N>(s: seq<T>, i: nat, norm: T -> N)
    requires i < |s|
    ensures Norms(s, norm) == Norms(Without(s, i), norm) + multiset{norm(s[i])}
  {
    if i == 0 {
      assert Without(s, 0) == s[1..];
    } else {
      var rest := s[1..];
      assert s == [s[0]] + rest;
      WithoutCons(s[0], rest, i - 1);
      NormsWithout(rest, i - 1, norm);
      NormsCons(s[0], Without(rest, i - 1), norm);
    }
  }

  lemma {:induction false} NormsSize<T(!new), N>(s: seq<T>, norm: T -> N)
    ensures |Norms(s, norm)| == |s|
  {
    if s != [] {
      NormsSize(s[1..], norm);
    }
  }

  lemma {:induction false} NormsMember<T(!new), N>(s: seq<T>, n: N, norm: T -> N)
    ensures n in Norms(s, norm) <==> exists i :: 0 <= i < |s| && norm(s[i]) == n
  {
    if s != [] {
      NormsMember(s[1..], n, norm);
      if i :| 0 <= i < |s| && norm(s[i]) == n {
        if i > 0 { assert s[1..][i - 1] == s[i]; }
      }
      if j :| 0 <= j < |s[1..]| && norm(s[1..][j]) == n {
        assert s[j + 1] == s[1..][j];
      }
    }
  }

  lemma {:induction false} CoherentWithout<T(!new), N>(s: seq<T>, i: nat, norm: T -> N, eq: (T, T) -> bool)
    requires Coherent(s, norm, eq) && i < |s|
    ensures Coherent(Without(s, i), norm, eq)
  {
    var w := Without(s, i);
    forall a, b | 0 <= a < b < |w| && eq(w[a], w[b]) ensures norm(w[a]) == norm(w[b]) {
      assert w[a] == s[if a < i then a else a + 1] && w[b] == s[if b < i then b else b + 1];
    }
  }

  /** In a coherent list the element removed is the one that matched. */
  lemma {:induction false} RemovesMatch<T(!new), N>(s: seq<T>, n: N, norm: T -> N, eq: (T, T) -> bool)
    requires Coherent(s, norm, eq) && FirstNorm(s, n, norm).Some?
    ensures FirstEqual(s, FirstNorm(s, n, norm).value, eq) == FirstNorm(s, n, norm).value
  {
    FirstNormIsFirst(s, n, norm);
    FirstEqualIsFirst(s, FirstNorm(s, n, norm).value, eq);
  }

  /** On a coherent desired list the loop compares multisets of normalised forms. */
  lemma {:induction false} LoopExact<T(!new), N>(current: seq<T>, remaining: seq<T>, norm: T -> N, eq: (T, T) -> bool)
    requires |current| == |remaining| && Coherent(remaining, norm, eq)
    ensures Loop(current, remaining, norm, eq) <==> Norms(current, norm) == Norms(remaining, norm)
  {
    if current != [] {
      var n := norm(current[0]);
      NormsMember(remaining, n, norm);
      FirstNormIsFirst(remaining, n, norm);
      var found := FirstNorm(remaining, n, norm);
      if found.None? {
        assert n in Norms(current, norm);
      } else {
        RemovesMatch(remaining, n, norm, eq);
        CoherentWithout(remaining, found.value, norm, eq);
        LoopExact(current[1..], Without(remaining, found.value), norm, eq);
        NormsWithout(remaining, found.value, norm);
        Cancel(Norms(current[1..], norm), Norms(Without(remaining, found.value), norm), n);
      }
    }
  }

  lemma {:induction false} Cancel<N>(a: multiset<N>, b: multiset<N>, n: N)
    ensures a == b <==> multiset{n} + a == b + multiset{n}
  {
    if multiset{n} + a == b + multiset{n} {
      assert a == (multiset{n} + a) - multiset{n};
      assert b == (b + multiset{n}) - multiset{n};
    }
  }

  lemma {:induction false} SameExact<T(!new), N>(current: seq<T>, desired: seq<T>, norm: T -> N, eq: (T, T) -> bool)
    requires Coherent(desired, norm, eq)
    ensures SameSpec(current, desired, norm, eq) <==> Norms(current, norm) == Norms(desired, norm)
  {
    NormsSize(current, norm);
    NormsSize(desired, norm);
    if |current| == |desired| {
      LoopExact(current, desired, norm, eq);
    }
  }

  // ------------------------------------------------- and only on coherent lists

  lemma {:induction false} FirstNormCons<T(!new), N>(a: T, rest: seq<T>, n: N, norm: T -> N)
    requires norm(a) != n && FirstNorm(rest, n, norm).Some?
    ensures FirstNorm([a] + rest, n, norm) == Some(FirstNorm(rest, n, norm).value + 1)
  {
    assert ([a] + rest)[1..] == rest;
  }

  /** One turn of the loop. */
  lemma {:induction false} LoopStep<T(!new), N>(x: T, more: seq<T>, remaining: seq<T>, left: seq<T>, k: nat, norm: T -> N, eq: (T, T) -> bool)
    requires FirstNorm(remaining, norm(x), norm) == Some(k)
    requires left == Without(remaining, FirstEqual(remaining, k, eq))
    ensures Loop([x] + more, remaining, norm, eq) == Loop(more, left, norm, eq)
  {
    assert ([x] + more)[1..] == more;
  }

  lemma {:induction false} FirstEqualCons<T(!new)>(a: T, rest: seq<T>, k: nat, eq: (T, T) -> bool)
    requires k < |rest|
    ensures FirstEqual([a] + rest, k + 1, eq) == if eq(a, rest[k]) then 0 else FirstEqual(rest, k, eq) + 1
  {
    assert ([a] + rest)[1..] == rest && ([a] + rest)[k + 1] == rest[k];
  }

  lemma {:induction false} WithoutCons<T>(a: T, rest: seq<T>, k: nat)
    requires k < |rest|
    ensures Without([a] + rest, 0) == rest
    ensures Without([a] + rest, k + 1) == [a] + Without(rest, k)
  {
  }

  /** Swapping `a` for an entry that reads differently changes the multiset. */
  lemma {:induction false} SwapShows<T(!new), N>(a: T, rest: seq<T>, k: nat, norm: T -> N)
    requires k < |rest| && norm(a) != norm(rest[k])
    ensures Norms([a] + Without(rest, k), norm) != Norms(rest, norm)
    ensures Norms([rest[k]] + ([a] + Without(rest, k)), norm) == Norms([a] + rest, norm)
  {
    var others := Without(rest, k);
    NormsCons(a, others, norm);
    NormsCons(a, rest, norm);
    NormsCons(rest[k], [a] + others, norm);
    NormsWithout(rest, k, norm);
    var m := Norms(others, norm);
    assert (multiset{norm(a)} + m)[norm(a)] == m[norm(a)] + 1;
  }

  lemma {:induction false} SameLoop<T(!new), N>(a: T, rest: seq<T>, k: nat, norm: T -> N, eq: (T, T) -> bool)
    requires Coherent(rest, norm, eq) && k < |rest| && Norms([a] + Without(rest, k), norm) != Norms(rest, norm)
    ensures !Loop([a] + Without(rest, k), rest, norm, eq)
  {
    LoopExact([a] + Without(rest, k), rest, norm, eq);
  }

  /** What a turn for the text of `rest[k]` leaves, with `a` in front. */
  lemma {:induction false} TurnLeaves<T(!new), N>(a: T, rest: seq<T>, k: nat, norm: T -> N, eq: (T, T) -> bool)
    requires k < |rest| && norm(a) != norm(rest[k])
    ensures Without([a] + rest, FirstEqual([a] + rest, k + 1, eq))
            == if eq(a, rest[k]) then rest else [a] + Without(rest, FirstEqual(rest, k, eq))
  {
    FirstEqualCons(a, rest, k, eq);
    WithoutCons(a, rest, FirstEqual(rest, k, eq));
  }

  /** `a` is equal to the entry that matches first: the loop removes `a`, and later misses its text. */
  lemma {:induction false} StealNow<T(!new), N>(a: T, rest: seq<T>, k: nat, norm: T -> N, eq: (T, T) -> bool)
    requires k < |rest| && FirstNorm(rest, norm(rest[k]), norm) == Some(k)
    requires eq(a, rest[k]) && norm(a) != norm(rest[k])
    requires !Loop([a] + Without(rest, k), rest, norm, eq)
    ensures !Loop([rest[k]] + ([a] + Without(rest, k)), [a] + rest, norm, eq)
  {
    FirstNormCons(a, rest, norm(rest[k]), norm);
    TurnLeaves(a, rest, k, norm, eq);
    LoopStep(rest[k], [a] + Without(rest, k), [a] + rest, rest, k + 1, norm, eq);
  }

  /** `a` is not equal to the entry that matches first: that entry is removed, and `a` stays. */
  lemma {:induction false} StealLater<T(!new), N>(a: T, rest: seq<T>, k: nat, left: seq<T>, more: seq<T>, norm: T -> N, eq: (T, T) -> bool)
    requires k < |rest| && FirstNorm(rest, norm(rest[k]), norm) == Some(k)
    requires !eq(a, rest[k]) && norm(a) != norm(rest[k])
    requires left == [a] + Without(rest, FirstEqual(rest, k, eq)) && !Loop(more, left, norm, eq)
    ensures !Loop([rest[k]] + more, [a] + rest, norm, eq)
  {
    FirstNormCons(a, rest, norm(rest[k]), norm);
    TurnLeaves(a, rest, k, norm, eq);
    Missed(rest[k], more, [a] + rest, left, k + 1, norm, eq);
  }

  lemma {:induction false} Missed<T(!new), N>(x: T, more: seq<T>, remaining: seq<T>, left: seq<T>, k: nat, norm: T -> N, eq: (T, T) -> bool)
    requires FirstNorm(remaining, norm(x), norm) == Some(k)
    requires left == Without(remaining, FirstEqual(remaining, k, eq)) && !Loop(more, left, norm, eq)
    ensures !Loop([x] + more, remaining, norm, eq)
  {
    LoopStep(x, more, remaining, left, k, norm, eq);
  }

  /**
  `a` equals a later entry that reads differently.  Asking for that entry's text
  again and again ends up removing `a`, and then `a`'s own text is missed.
  */
  lemma {:induction false} Steal<T(!new), N>(a: T, rest: seq<T>, j: nat, norm: T -> N, eq: (T, T) -> bool) returns (current: seq<T>)
    requires Coherent(rest, norm, eq) && j < |rest| && eq(a, rest[j]) && norm(a) != norm(rest[j])
    ensures Norms(current, norm) == Norms([a] + rest, norm)
    ensures !Loop(current, [a] + rest, norm, eq)
    decreases |rest|
  {
    FirstNormIsFirst(rest, norm(rest[j]), norm);
    var k := FirstNorm(rest, norm(rest[j]), norm).value;
    SwapShows(a, rest, k, norm);
    if eq(a, rest[k]) {
      SameLoop(a, rest, k, norm, eq);
      StealNow(a, rest, k, norm, eq);
      current := [rest[k]] + ([a] + Without(rest, k));
    } else {
      CoherentWithout(rest, k, norm, eq);
      var more := StealAgain(a, rest, k, j, norm, eq);
      RemovesMatch(rest, norm(rest[j]), norm, eq);
      StealLater(a, rest, k, [a] + Without(rest, k), more, norm, eq);
      NormsCons(rest[k], more, norm);
      NormsCons(rest[k], [a] + Without(rest, k), norm);
      current := [rest[k]] + more;
    }
  }

  lemma {:induction false} StealAgain<T(!new), N>(a: T, rest: seq<T>, k: nat, j: nat, norm: T -> N, eq: (T, T) -> bool)
    returns (more: seq<T>)
    requires k < j < |rest| && eq(a, rest[j]) && norm(a) != norm(rest[j])
    requires Coherent(Without(rest, k), norm, eq)
    ensures Norms(more, norm) == Norms([a] + Without(rest, k), norm)
    ensures !Loop(more, [a] + Without(rest, k), norm, eq)
    decreases |rest|, 0
  {
    assert Without(rest, k)[j - 1] == rest[j];
    more := Steal(a, Without(rest, k), j - 1, norm, eq);
  }

  /** A list whose tail is coherent and that is not has a first entry that clashes. */
  lemma {:induction false} FirstClashes<T(!new), N>(a: T, rest: seq<T>, norm: T -> N, eq: (T, T) -> bool) returns (j: nat)
    requires !Coherent([a] + rest, norm, eq) && Coherent(rest, norm, eq)
    ensures j < |rest| && eq(a, rest[j]) && norm(a) != norm(rest[j])
  {
    var all := [a] + rest;
    forall i, l | 0 < i < l < |all| && eq(all[i], all[l]) ensures norm(all[i]) == norm(all[l]) {
      assert all[i] == rest[i - 1] && all[l] == rest[l - 1];
    }
    var i, l :| 0 <= i < l < |all| && eq(all[i], all[l]) && norm(all[i]) != norm(all[l]);
    j := l - 1;
  }

  /** A turn whose entry matches the first one left removes that one. */
  lemma {:induction false} LoopSkip<T(!new), N>(a: T, more: seq<T>, rest: seq<T>, norm: T -> N, eq: (T, T) -> bool)
    ensures Loop([a] + more, [a] + rest, norm, eq) == Loop(more, rest, norm, eq)
  {
    assert FirstNorm([a] + rest, norm(a), norm) == Some(0);
    assert Without([a] + rest, 0) == rest;
    LoopStep(a, more, [a] + rest, rest, 0, norm, eq);
  }

  /** For an incoherent desired list, some list with the same texts is reported as different. */
  lemma {:induction false} Misled<T(!new), N>(desired: seq<T>, norm: T -> N, eq: (T, T) -> bool) returns (current: seq<T>)
    requires !Coherent(desired, norm, eq)
    ensures Norms(current, norm) == Norms(desired, norm)
    ensures !Loop(current, desired, norm, eq)
  {
    var a, rest := desired[0], desired[1..];
    assert desired == [a] + rest;
    if Coherent(rest, norm, eq) {
      var j := FirstClashes(a, rest, norm, eq);
      current := Steal(a, rest, j, norm, eq);
    } else {
      var more := Misled(rest, norm, eq);
      current := [a] + more;
      LoopSkip(a, more, rest, norm, eq);
      NormsCons(a, more, norm);
      NormsCons(a, rest, norm);
    }
  }

  /** `_same` compares multisets of normalised forms, whatever the device returned, exactly on coherent desired lists. */
  lemma {:induction false} SameIsExactOnCoherent<T(!new), N>(desired: seq<T>, norm: T -> N, eq: (T, T) -> bool)
    ensures Coherent(desired, norm, eq)
            <==> forall current :: SameSpec(current, desired, norm, eq) <==> Norms(current, norm) == Norms(desired, norm)
  {
    if Coherent(desired, norm, eq) {
      forall current ensures SameSpec(current, desired, norm, eq) <==> Norms(current, norm) == Norms(desired, norm) {
        SameExact(current, desired, norm, eq);
      }
    } else {
      var current := Misled(desired, norm, eq);
      assert Norms(current, norm) == Norms(desired, norm) && !SameSpec(current, desired, norm, eq);
    }
  }

  // --------------------------------------------------------- Python's values

  /** The values a decoded BACnet structure is made of. */
  datatype Value =
    | Int(n: int)
    | Bool(b: bool)
    | Float(x: real)
    | Text(s: string)
    | List(items: seq<Value>)
    | Tuple(items: seq<Value>)
    | Dict(m: map<string, Value>)

  function AsNumber(v: Value): real
    requires v.Int? || v.Bool? || v.Float?
  {
    match v
    case Int(n) => n as real
    case Bool(b) => if b then 1.0 else 0.0
    case Float(x) => x
  }

  /** Python's `==`: numbers by value whatever their type, a list never equals a tuple. */
  ghost predicate PyEq(v: Value, w: Value)
    decreases v
  {
    if (v.Int? || v.Bool? || v.Float?) && (w.Int? || w.Bool? || w.Float?) then AsNumber(v) == AsNumber(w)
    else
      match (v, w)
      case (Text(s), Text(t)) => s == t
      case (List(a), List(b)) => |a| == |b| && forall i :: 0 <= i < |a| ==> PyEq(a[i], b[i])
      case (Tuple(a), Tuple(b)) => |a| == |b| && forall i :: 0 <= i < |a| ==> PyEq(a[i], b[i])
      case (Dict(a), Dict(b)) => a.Keys == b.Keys && forall k :: k in a && k in b ==> PyEq(a[k], b[k])
      case _ => false
  }

  function NatText(n: nat): string {
    if n < 10 then [Digit(n)] else NatText(n / 10) + [Digit(n % 10)]
  }

  function IntText(n: int): string {
    if n < 0 then "-" + NatText(-n) else NatText(n)
  }

  /** `sorted(keys)`. */
  ghost function SortedKeys(keys: set<string>): seq<string> {
    if keys == {} then []
    else
      LeastExists(keys);
      var k :| Least(k, keys);
      [k] + SortedKeys(keys - {k})
  }

  ghost predicate Least(k: string, keys: set<string>) {
    k in keys && forall x :: x in keys ==> !Less(x, k)
  }

  lemma {:induction false} LeastExists(keys: set<string>)
    requires keys != {}
    ensures exists k :: Least(k, keys)
  {
    var k :| k in keys;
    var rest := keys - {k};
    LessIrreflexive(k);
    if rest == {} {
      assert keys == {k};
      assert Least(k, keys);
    } else {
      LeastExists(rest);
      var m :| Least(m, rest);
      LeastOfTwo(k, m, keys);
    }
  }

  lemma {:induction false} LeastOfTwo(k: string, m: string, keys: set<string>)
    requires k in keys && Least(m, keys - {k}) && !Less(k, k)
    ensures Least(if Less(k, m) then k else m, keys)
  {
    forall x | x in keys ensures !Less(x, if Less(k, m) then k else m) {
      if x != k {
        assert x in keys - {k};
        if Less(k, m) && Less(x, k) { LessTransitive(x, k, m); }
      }
    }
  }

  /** `_norm`, given how `str` writes a float. */
  ghost function NormText(v: Value, floatText: real -> string): string
    decreases v, 2, 0
  {
    match v
    case Int(n) => IntText(n)
    case Bool(b) => if b then "True" else "False"
    case Float(x) => floatText(x)
    case Text(s) => s
    case List(items) => "[" + JoinItems(v, items, floatText) + "]"
    case Tuple(items) => "[" + JoinItems(v, items, floatText) + "]"
    case Dict(m) => "{" + JoinPairs(v, SortedKeys(m.Keys), floatText) + "}"
  }

  ghost function JoinItems(owner: Value, items: seq<Value>, floatText: real -> string): string
    requires forall i :: 0 <= i < |items| ==> items[i] < owner
    decreases owner, 1, |items|
  {
    if items == [] then ""
    else (if |items| == 1 then "" else JoinItems(owner, items[..|items| - 1], floatText) + ",")
         + NormText(items[|items| - 1], floatText)
  }

  ghost function JoinPairs(owner: Value, keys: seq<string>, floatText: real -> string): string
    requires owner.Dict?
    decreases owner, 1, |keys|
  {
    if keys == [] then ""
    else (if |keys| == 1 then "" else JoinPairs(owner, keys[..|keys| - 1], floatText) + ",")
         + keys[|keys| - 1] + ":"
         + if keys[|keys| - 1] in owner.m then NormText(owner.m[keys[|keys| - 1]], floatText) else ""
  }

  lemma {:induction false} OwnerDoesNotShow(a: Value, b: Value, items: seq<Value>, floatText: real -> string)
    requires forall i :: 0 <= i < |items| ==> items[i] < a && items[i] < b
    ensures JoinItems(a, items, floatText) == JoinItems(b, items, floatText)
    decreases |items|
  {
    if |items| > 1 {
      OwnerDoesNotShow(a, b, items[..|items| - 1], floatText);
    }
  }

  /** A list reads like the tuple of its elements, though the two are never equal. */
  lemma {:induction false} ListReadsLikeTuple(items: seq<Value>, floatText: real -> string)
    ensures NormText(List(items), floatText) == NormText(Tuple(items), floatText) && !PyEq(List(items), Tuple(items))
  {
    var a, b := List(items), Tuple(items);
    assert forall i :: 0 <= i < |items| ==> a.items[i] < a && b.items[i] < b;
    OwnerDoesNotShow(a, b, items, floatText);
  }

  /** No float and no boolean anywhere: what calendar entries decode to. */
  ghost predicate Plain(v: Value)
    decreases v
  {
    match v
    case Bool(_) => false
    case Float(_) => false
    case List(items) => forall i :: 0 <= i < |items| ==> Plain(items[i])
    case Tuple(items) => forall i :: 0 <= i < |items| ==> Plain(items[i])
    case Dict(m) => forall k :: k in m ==> Plain(m[k])
    case _ => true
  }

  lemma {:induction false} PlainEqual(v: Value, w: Value)
    requires Plain(v) && Plain(w) && PyEq(v, w)
    ensures v == w
    decreases v
  {
    match v {
      case List(a) =>
        forall i | 0 <= i < |a| ensures a[i] == w.items[i] { PlainEqual(a[i], w.items[i]); }
        assert a == w.items;
      case Tuple(a) =>
        forall i | 0 <= i < |a| ensures a[i] == w.items[i] { PlainEqual(a[i], w.items[i]); }
        assert a == w.items;
      case Dict(a) =>
        forall k | k in a ensures a[k] == w.m[k] { PlainEqual(a[k], w.m[k]); }
        assert a == w.m;
      case _ =>
    }
  }

  ghost predicate AllPlain(vs: seq<Value>) {
    forall i :: 0 <= i < |vs| ==> Plain(vs[i])
  }

  /** Plain entries are always coherent, whatever is used to write them. */
  lemma {:induction false} PlainIsCoherent<N>(vs: seq<Value>, norm: Value -> N, eq: (Value, Value) -> bool)
    requires AllPlain(vs) && forall v, w :: eq(v, w) ==> PyEq(v, w)
    ensures Coherent(vs, norm, eq)
  {
    forall i, j | 0 <= i < j < |vs| && eq(vs[i], vs[j]) ensures norm(vs[i]) == norm(vs[j]) {
      PlainEqual(vs[i], vs[j]);
    }
  }

  /** On plain lists the comparison is an equivalence. */
  lemma {:induction false} SameIsEquivalence<N>(a: seq<Value>, b: seq<Value>, c: seq<Value>, norm: Value -> N, eq: (Value, Value) -> bool)
    requires AllPlain(a) && AllPlain(b) && AllPlain(c) && forall v, w :: eq(v, w) ==> PyEq(v, w)
    ensures SameSpec(a, a, norm, eq)
    ensures SameSpec(a, b, norm, eq) <==> SameSpec(b, a, norm, eq)
    ensures SameSpec(a, b, norm, eq) && SameSpec(b, c, norm, eq) ==> SameSpec(a, c, norm, eq)
  {
    PlainIsCoherent(a, norm, eq);
    PlainIsCoherent(b, norm, eq);
    PlainIsCoherent(c, norm, eq);
    SameExact(a, a, norm, eq);
    SameExact(a, b, norm, eq);
    SameExact(b, a, norm, eq);
    SameExact(b, c, norm, eq);
    SameExact(a, c, norm, eq);
  }

  /** A truth value is the number one or zero, and reads otherwise. */
  lemma {:induction false} TruthIsANumber(floatText: real -> string)
    ensures PyEq(Bool(true), Int(1)) && PyEq(Bool(false), Int(0)) && !PyEq(Bool(true), Bool(false))
    ensures NormText(Bool(true), floatText) != NormText(Int(1), floatText)
  {
  }

  /**
  [1, 1.0] against [1.0, 1]: the same texts, reported as different, because
  removing the 1 that matched takes the 1.0 before it.
  */
  lemma {:induction false} FloatMisleads(floatText: real -> string)
    requires floatText(1.0) == "1.0"
    ensures var norm := (v: Value) => if v == Int(1) then "1" else if v == Float(1.0) then "1.0" else "";
            var eq := (v: Value, w: Value) => (v == Int(1) || v == Float(1.0)) && (w == Int(1) || w == Float(1.0));
            && norm(Int(1)) == NormText(Int(1), floatText) && norm(Float(1.0)) == NormText(Float(1.0), floatText)
            && eq(Float(1.0), Int(1)) == PyEq(Float(1.0), Int(1))
            && Norms([Int(1), Float(1.0)], norm) == Norms([Float(1.0), Int(1)], norm)
            && !SameSpec([Int(1), Float(1.0)], [Float(1.0), Int(1)], norm, eq)
  {
    var norm := (v: Value) => if v == Int(1) then "1" else if v == Float(1.0) then "1.0" else "";
    var eq := (v: Value, w: Value) => (v == Int(1) || v == Float(1.0)) && (w == Int(1) || w == Float(1.0));
    var desired, current := [Float(1.0), Int(1)], [Int(1), Float(1.0)];
    assert desired[1..] == [Int(1)] && current[1..] == [Float(1.0)];
    assert FirstNorm(desired, "1", norm) == Some(1);
    assert Without(desired, 0) == [Int(1)];
    assert FirstNorm([Int(1)], "1.0", norm) == None;
    assert !Loop([Float(1.0)], [Int(1)], norm, eq);
  }
}
