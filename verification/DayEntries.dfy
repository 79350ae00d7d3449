/** Lists of (minute of the day, state), whatever their written form: what they mean and when two mean the same. */
module DayEntries {

  datatype Entry = Entry(minute: nat, state: int)

  /** Strictly later and later: no two entries share a minute. */
  ghost predicate Increasing(es: seq<Entry>) {
    forall i, j :: 0 <= i < j < |es| ==> es[i].minute < es[j].minute
  }

  ghost predicate Distinct(es: seq<Entry>) {
    forall i, j :: 0 <= i < j < |es| ==> es[i].minute != es[j].minute
  }

  /** What a list says: at which minutes the state changes, and to what. */
  function Meaning(es: seq<Entry>): map<nat, int> {
    if es == [] then map[]
    else Meaning(es[..|es| - 1])[es[|es| - 1].minute := es[|es| - 1].state]
  }

  lemma {:induction false} MeaningHas(es: seq<Entry>, k: nat)
    requires Distinct(es) && k < |es|
    ensures es[k].minute in Meaning(es) && Meaning(es)[es[k].minute] == es[k].state
  {
    if k < |es| - 1 {
      MeaningHas(es[..|es| - 1], k);
    }
  }

  lemma {:induction false} MeaningOnly(es: seq<Entry>, m: nat) returns (k: nat)
    requires m in Meaning(es)
    ensures k < |es| && es[k].minute == m
  {
    if es[|es| - 1].minute == m {
      k := |es| - 1;
    } else {
      k := MeaningOnly(es[..|es| - 1], m);
    }
  }

  lemma {:induction false} WithoutLast(es: seq<Entry>)
    requires es != [] && Distinct(es)
    ensures Meaning(es[..|es| - 1]) == Meaning(es) - {es[|es| - 1].minute}
  {
    var m := es[|es| - 1].minute;
    if m in Meaning(es[..|es| - 1]) {
      var k := MeaningOnly(es[..|es| - 1], m);
    }
  }

  /** A strictly increasing list is determined by its meaning. */
  lemma {:induction false} MeaningDetermines(a: seq<Entry>, b: seq<Entry>)
    requires Increasing(a) && Increasing(b) && Meaning(a) == Meaning(b)
    ensures a == b
  {
    if a == [] || b == [] {
      if a != [] { MeaningHas(a, 0); }
      if b != [] { MeaningHas(b, 0); }
    } else {
      var x, y := a[|a| - 1], b[|b| - 1];
      MeaningHas(a, |a| - 1);
      MeaningHas(b, |b| - 1);
      var i := MeaningOnly(a, y.minute);
      var j := MeaningOnly(b, x.minute);
      assert x == y;
      WithoutLast(a);
      WithoutLast(b);
      MeaningDetermines(a[..|a| - 1], b[..|b| - 1]);
      assert a == a[..|a| - 1] + [x] && b == b[..|b| - 1] + [y];
    }
  }

  // -------------------------------------------------------------------- sort

  /** Insertion into a sorted list, after the entries it does not precede: a stable sort's step. */
  function Insert(e: Entry, es: seq<Entry>): seq<Entry> {
    if es == [] || !(e.minute < es[|es| - 1].minute) then es + [e]
    else Insert(e, es[..|es| - 1]) + [es[|es| - 1]]
  }

  function Sort(es: seq<Entry>): seq<Entry> {
    if es == [] then [] else Insert(es[|es| - 1], Sort(es[..|es| - 1]))
  }

  lemma {:induction false} InsertMembers(e: Entry, es: seq<Entry>)
    ensures |Insert(e, es)| == |es| + 1
    ensures forall x :: x in Insert(e, es) <==> x == e || x in es
  {
    if es != [] && e.minute < es[|es| - 1].minute {
      InsertMembers(e, es[..|es| - 1]);
      assert forall x :: x in es <==> x in es[..|es| - 1] || x == es[|es| - 1];
    }
  }

  lemma {:induction false} InsertOrders(e: Entry, es: seq<Entry>)
    requires Increasing(es) && forall i :: 0 <= i < |es| ==> es[i].minute != e.minute
    ensures Increasing(Insert(e, es))
  {
    if es != [] && e.minute < es[|es| - 1].minute {
      var front, last := es[..|es| - 1], es[|es| - 1];
      InsertOrders(e, front);
      InsertMembers(e, front);
      var r := Insert(e, front);
      forall i | 0 <= i < |r| ensures r[i].minute < last.minute {
        assert r[i] in r;
      }
    }
  }

  lemma {:induction false} InsertMeans(e: Entry, es: seq<Entry>)
    requires forall i :: 0 <= i < |es| ==> es[i].minute != e.minute
    ensures Meaning(Insert(e, es)) == Meaning(es)[e.minute := e.state]
  {
    if es == [] || !(e.minute < es[|es| - 1].minute) {
      assert Insert(e, es)[..|es|] == es;
    } else {
      var front, last := es[..|es| - 1], es[|es| - 1];
      InsertMeans(e, front);
      assert (Insert(e, front) + [last])[..|Insert(e, front)|] == Insert(e, front);
      assert Meaning(front)[e.minute := e.state][last.minute := last.state]
          == Meaning(front)[last.minute := last.state][e.minute := e.state];
    }
  }

  lemma {:induction false} SortKeeps(es: seq<Entry>)
    requires Distinct(es)
    ensures Increasing(Sort(es)) && |Sort(es)| == |es| && Meaning(Sort(es)) == Meaning(es)
    ensures forall x :: x in Sort(es) <==> x in es
  {
    if es != [] {
      var front, last := es[..|es| - 1], es[|es| - 1];
      SortKeeps(front);
      var r := Sort(front);
      forall i | 0 <= i < |r| ensures r[i].minute != last.minute {
        assert r[i] in front;
      }
      InsertMembers(last, r);
      InsertOrders(last, r);
      InsertMeans(last, r);
      assert forall x :: x in es <==> x in front || x == last;
    }
  }

  // ------------------------------------------------------------- permutations

  function Minutes(es: seq<Entry>): set<nat> {
    if es == [] then {} else Minutes(es[..|es| - 1]) + {es[|es| - 1].minute}
  }

  lemma {:induction false} MinutesAre(es: seq<Entry>, m: nat)
    ensures m in Minutes(es) <==> exists i :: 0 <= i < |es| && es[i].minute == m
  {
    if es != [] {
      MinutesAre(es[..|es| - 1], m);
    }
  }

  lemma {:induction false} AppendDistinct(es: seq<Entry>, e: Entry)
    ensures Distinct(es + [e]) <==> Distinct(es) && e.minute !in Minutes(es)
    ensures Minutes(es + [e]) == Minutes(es) + {e.minute}
  {
    MinutesAre(es, e.minute);
    assert (es + [e])[..|es|] == es;
    if Distinct(es + [e]) {
      assert forall i :: 0 <= i < |es| ==> (es + [e])[i].minute != (es + [e])[|es|].minute;
      assert forall i, j :: 0 <= i < j < |es| ==> (es + [e])[i].minute != (es + [e])[j].minute;
    }
  }

  lemma {:induction false} DistinctIsCount(es: seq<Entry>)
    ensures |Minutes(es)| <= |es|
    ensures Distinct(es) <==> |Minutes(es)| == |es|
  {
    if es != [] {
      var front, m := es[..|es| - 1], es[|es| - 1].minute;
      DistinctIsCount(front);
      AppendDistinct(front, es[|es| - 1]);
      assert es == front + [es[|es| - 1]];
    }
  }

  /** Distinctness and meaning do not depend on the order of the list. */
  lemma {:induction false} Permuted(a: seq<Entry>, b: seq<Entry>)
    requires |a| == |b| && (forall x :: x in a <==> x in b) && Distinct(a)
    ensures Distinct(b) && Meaning(a) == Meaning(b)
  {
    forall m ensures m in Minutes(a) <==> m in Minutes(b) {
      MinutesAre(a, m);
      MinutesAre(b, m);
      if i :| 0 <= i < |a| && a[i].minute == m { assert a[i] in b; }
      if i :| 0 <= i < |b| && b[i].minute == m { assert b[i] in a; }
    }
    assert Minutes(a) == Minutes(b);
    DistinctIsCount(a);
    DistinctIsCount(b);
    SameMeaning(a, b);
    SameMeaning(b, a);
  }

  lemma {:induction false} SameMeaning(a: seq<Entry>, b: seq<Entry>)
    requires Distinct(a) && Distinct(b) && forall x :: x in a ==> x in b
    ensures forall m :: m in Meaning(a) ==> m in Meaning(b) && Meaning(a)[m] == Meaning(b)[m]
  {
    forall m | m in Meaning(a) ensures m in Meaning(b) && Meaning(a)[m] == Meaning(b)[m] {
      var k := MeaningOnly(a, m);
      MeaningHas(a, k);
      assert a[k] in b;
      var j :| 0 <= j < |b| && b[j] == a[k];
      MeaningHas(b, j);
    }
  }
}
