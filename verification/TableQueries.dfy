/** `SELECT ... WHERE ... ORDER BY text`: filtering and stable sorting, and how they commute. */
module TableQueries {
  import opened Prelude
  import opened TextOrder

  function Keep<T(!new)>(rows: seq<T>, p: T -> bool): seq<T> {
    if rows == [] then [] else (if p(rows[0]) then [rows[0]] else []) + Keep(rows[1..], p)
  }

  /** A row goes before the rows it is not after; equal keys keep the table's order. */
  function InsertBy<T(!new)>(r: T, rows: seq<T>, key: T -> string): seq<T> {
    if rows == [] || !Less(key(rows[0]), key(r)) then [r] + rows
    else [rows[0]] + InsertBy(r, rows[1..], key)
  }

  function OrderBy<T(!new)>(rows: seq<T>, key: T -> string): seq<T> {
    if rows == [] then [] else InsertBy(rows[0], OrderBy(rows[1..], key), key)
  }

  /** The first value any row has. */
  function FirstOf<T(!new), V>(rows: seq<T>, val: T -> Option<V>): Option<V> {
    if rows == [] then None
    else if val(rows[0]).Some? then val(rows[0])
    else FirstOf(rows[1..], val)
  }

  ghost predicate InOrder<T(!new)>(rows: seq<T>, key: T -> string) {
    rows == [] || (InOrder(rows[1..], key) && forall x | x in rows[1..] :: !Less(key(x), key(rows[0])))
  }

  lemma {:induction false} InsertMembers<T(!new)>(r: T, rows: seq<T>, key: T -> string)
    ensures forall x :: x in InsertBy(r, rows, key) <==> x == r || x in rows
  {
    if rows != [] && Less(key(rows[0]), key(r)) {
      InsertMembers(r, rows[1..], key);
      assert rows == [rows[0]] + rows[1..];
    }
  }

  lemma {:induction false} KeepMembers<T(!new)>(rows: seq<T>, p: T -> bool)
    ensures forall x :: x in Keep(rows, p) <==> x in rows && p(x)
  {
    if rows != [] {
      KeepMembers(rows[1..], p);
      assert rows == [rows[0]] + rows[1..];
    }
  }

  /** If a is not before b and b not before c, a is not before c. */
  lemma {:induction false} NotBefore(a: string, b: string, c: string)
    requires !Less(a, b) && !Less(b, c)
    ensures !Less(a, c)
  {
    LessTotal(a, b);
    LessTotal(b, c);
    if Less(a, c) {
      if Less(b, a) {
        LessTransitive(b, a, c);
      }
    }
  }

  lemma {:induction false} InsertInOrder<T(!new)>(r: T, rows: seq<T>, key: T -> string)
    requires InOrder(rows, key)
    ensures InOrder(InsertBy(r, rows, key), key)
  {
    if rows == [] {
      assert [r][1..] == [];
    } else if !Less(key(rows[0]), key(r)) {
      assert ([r] + rows)[1..] == rows;
      NoneBefore(r, rows, key);
    } else {
      var ins := InsertBy(r, rows[1..], key);
      InsertInOrder(r, rows[1..], key);
      InsertMembers(r, rows[1..], key);
      assert ([rows[0]] + ins)[1..] == ins;
      forall x | x in ins ensures !Less(key(x), key(rows[0])) {
        if x == r {
          NotBothWays(key(rows[0]), key(r));
        }
      }
    }
  }

  /** Nothing in an ordered list is before a row its first element is not before. */
  lemma {:induction false} NoneBefore<T(!new)>(r: T, rows: seq<T>, key: T -> string)
    requires InOrder(rows, key) && (rows == [] || !Less(key(rows[0]), key(r)))
    ensures forall x | x in rows :: !Less(key(x), key(r))
  {
    if rows != [] {
      assert rows == [rows[0]] + rows[1..];
      forall x | x in rows[1..] ensures !Less(key(x), key(r)) {
        NotBefore(key(x), key(rows[0]), key(r));
      }
    }
  }

  lemma {:induction false} NotBothWays(a: string, b: string)
    requires Less(a, b)
    ensures !Less(b, a)
  {
    if Less(b, a) {
      LessTransitive(a, b, a);
      LessIrreflexive(a);
    }
  }

  lemma {:induction false} OrderIsInOrder<T(!new)>(rows: seq<T>, key: T -> string)
    ensures InOrder(OrderBy(rows, key), key)
  {
    if rows != [] {
      OrderIsInOrder(rows[1..], key);
      InsertInOrder(rows[0], OrderBy(rows[1..], key), key);
    }
  }

  lemma {:induction false} KeepCons<T(!new)>(r: T, rows: seq<T>, p: T -> bool)
    ensures Keep([r] + rows, p) == (if p(r) then [r] else []) + Keep(rows, p)
  {
    assert ([r] + rows)[1..] == rows;
  }

  lemma {:induction false} InsertKeep<T(!new)>(r: T, rows: seq<T>, key: T -> string, p: T -> bool)
    requires InOrder(rows, key)
    ensures Keep(InsertBy(r, rows, key), p) == if p(r) then InsertBy(r, Keep(rows, p), key) else Keep(rows, p)
  {
    var kept := Keep(rows, p);
    if rows == [] || !Less(key(rows[0]), key(r)) {
      KeepCons(r, rows, p);
      KeepMembers(rows, p);
      NoneBefore(r, rows, key);
      assert [] + kept == kept;
      if kept != [] {
        assert kept[0] in kept;
        assert !Less(key(kept[0]), key(r));
      }
    } else {
      InsertKeep(r, rows[1..], key, p);
      KeepCons(rows[0], InsertBy(r, rows[1..], key), p);
      KeepCons(rows[0], rows[1..], p);
      assert rows == [rows[0]] + rows[1..];
      BehindFirst(r, rows[0], Keep(rows[1..], p), key);
    }
  }

  lemma {:induction false} BehindFirst<T(!new)>(r: T, first: T, rest: seq<T>, key: T -> string)
    requires Less(key(first), key(r))
    ensures InsertBy(r, [first] + rest, key) == [first] + InsertBy(r, rest, key)
    ensures [] + rest == rest && [] + InsertBy(r, rest, key) == InsertBy(r, rest, key)
  {
    assert ([first] + rest)[1..] == rest;
  }

  /** Filtering an ordered table is ordering the filtered one. */
  lemma {:induction false} OrderKeep<T(!new)>(rows: seq<T>, key: T -> string, p: T -> bool)
    ensures Keep(OrderBy(rows, key), p) == OrderBy(Keep(rows, p), key)
  {
    if rows != [] {
      OrderKeep(rows[1..], key, p);
      OrderIsInOrder(rows[1..], key);
      InsertKeep(rows[0], OrderBy(rows[1..], key), key, p);
      var rest := Keep(rows[1..], p);
      assert ([rows[0]] + rest)[1..] == rest;
      assert [] + rest == rest;
    }
  }

  lemma {:induction false} KeepBoth<T(!new)>(rows: seq<T>, p: T -> bool, q: T -> bool, both: T -> bool)
    requires forall i :: 0 <= i < |rows| ==> (both(rows[i]) <==> p(rows[i]) && q(rows[i]))
    ensures Keep(rows, both) == Keep(Keep(rows, p), q)
  {
    if rows != [] {
      KeepBoth(rows[1..], p, q, both);
      var rest := Keep(rows[1..], p);
      KeepCons(rows[0], rest, q);
      assert [] + rest == rest;
      assert [] + Keep(rest, q) == Keep(rest, q);
    }
  }

  /** Rows without a value can be dropped. */
  lemma {:induction false} FirstOfKeep<T(!new), V>(rows: seq<T>, p: T -> bool, val: T -> Option<V>)
    requires forall i :: 0 <= i < |rows| && !p(rows[i]) ==> val(rows[i]).None?
    ensures FirstOf(Keep(rows, p), val) == FirstOf(rows, val)
  {
    if rows != [] {
      FirstOfKeep(rows[1..], p, val);
      var rest := Keep(rows[1..], p);
      assert ([rows[0]] + rest)[1..] == rest;
      assert [] + rest == rest;
    }
  }

  // ------------------------------------------- which row comes first, and how many

  /** The first row that has a value. */
  function FirstWith<T(!new), V>(rows: seq<T>, val: T -> Option<V>): Option<T> {
    if rows == [] then None
    else if val(rows[0]).Some? then Some(rows[0])
    else FirstWith(rows[1..], val)
  }

  lemma {:induction false} FirstOfIs<T(!new), V>(rows: seq<T>, val: T -> Option<V>)
    ensures FirstWith(rows, val).Some? ==> FirstWith(rows, val).value in rows
    ensures FirstOf(rows, val) == match FirstWith(rows, val) case None => None case Some(r) => val(r)
  {
    if rows != [] {
      FirstOfIs(rows[1..], val);
    }
  }

  /** An inserted row with a value comes first unless a row with one has a lesser key. */
  lemma {:induction false} FirstInserted<T(!new), V>(r: T, rows: seq<T>, key: T -> string, val: T -> Option<V>)
    requires InOrder(rows, key)
    ensures var f := FirstWith(rows, val);
            FirstWith(InsertBy(r, rows, key), val)
            == if val(r).Some? && (f.None? || !Less(key(f.value), key(r))) then Some(r) else f
  {
    FirstOfIs(rows, val);
    if rows == [] || !Less(key(rows[0]), key(r)) {
      NoneBefore(r, rows, key);
      assert ([r] + rows)[1..] == rows;
    } else {
      FirstInserted(r, rows[1..], key, val);
      var rest := InsertBy(r, rows[1..], key);
      assert ([rows[0]] + rest)[1..] == rest;
    }
  }

  lemma {:induction false} InsertCounts<T(!new)>(r: T, rows: seq<T>, key: T -> string)
    ensures multiset(InsertBy(r, rows, key)) == multiset(rows) + multiset{r}
  {
    if rows != [] && Less(key(rows[0]), key(r)) {
      InsertCounts(r, rows[1..], key);
      assert rows == [rows[0]] + rows[1..];
    }
  }

  /** Ordering loses no row and adds none. */
  lemma {:induction false} OrderCounts<T(!new)>(rows: seq<T>, key: T -> string)
    ensures multiset(OrderBy(rows, key)) == multiset(rows)
  {
    if rows != [] {
      OrderCounts(rows[1..], key);
      InsertCounts(rows[0], OrderBy(rows[1..], key), key);
      assert rows == [rows[0]] + rows[1..];
    }
  }

  /** A row is kept as often as it is there, or not at all. */
  lemma {:induction false} KeepCounts<T(!new)>(rows: seq<T>, p: T -> bool, r: T)
    ensures multiset(Keep(rows, p))[r] == if p(r) then multiset(rows)[r] else 0
  {
    if rows != [] {
      KeepCounts(rows[1..], p, r);
      assert rows == [rows[0]] + rows[1..];
    }
  }

  /** No row comes after one with a greater key. */
  lemma {:induction false} InOrderAt<T(!new)>(rows: seq<T>, key: T -> string, i: nat, j: nat)
    requires InOrder(rows, key) && i < j < |rows|
    ensures !Less(key(rows[j]), key(rows[i]))
  {
    if i > 0 {
      InOrderAt(rows[1..], key, i - 1, j - 1);
    } else {
      assert rows[j] == rows[1..][j - 1];
    }
  }

  /** Of the rows that qualify, the one with the least key, the first in the table among equals. */
  function Leader<T(!new)>(rows: seq<T>, asks: T -> bool, key: T -> string): (i: Option<nat>)
    ensures i.Some? ==> i.value < |rows|
  {
    if rows == [] then None
    else
      var rest := Leader(rows[1..], asks, key);
      if asks(rows[0]) && (rest.None? || !Less(key(rows[1 + rest.value]), key(rows[0]))) then Some(0)
      else if rest.Some? then Some(1 + rest.value) else None
  }

  /** It qualifies; those before it that do have greater keys, and those after it no lesser ones. */
  ghost predicate Leads<T(!new)>(rows: seq<T>, i: int, asks: T -> bool, key: T -> string) {
    && 0 <= i < |rows| && asks(rows[i])
    && (forall j :: 0 <= j < i && asks(rows[j]) ==> Less(key(rows[i]), key(rows[j])))
    && (forall j :: i < j < |rows| && asks(rows[j]) ==> !Less(key(rows[j]), key(rows[i])))
  }

  lemma {:induction false} LeaderLeads<T(!new)>(rows: seq<T>, asks: T -> bool, key: T -> string)
    ensures match Leader(rows, asks, key)
            case None => forall j :: 0 <= j < |rows| ==> !asks(rows[j])
            case Some(i) => Leads(rows, i, asks, key)
  {
    if rows != [] {
      var rest := rows[1..];
      LeaderLeads(rest, asks, key);
      assert forall j :: 0 < j < |rows| ==> rows[j] == rest[j - 1];
      if Leader(rest, asks, key).Some? {
        AheadOfLeader(rows[0], rest, Leader(rest, asks, key).value, asks, key);
      }
    }
  }

  /** A row that the leader of the others is not before is before none of them. */
  lemma {:induction false} AheadOfLeader<T(!new)>(r: T, rest: seq<T>, i: int, asks: T -> bool, key: T -> string)
    requires Leads(rest, i, asks, key)
    ensures !Less(key(rest[i]), key(r)) ==> forall j :: 0 <= j < |rest| && asks(rest[j]) ==> !Less(key(rest[j]), key(r))
  {
    forall j | 0 <= j < |rest| && asks(rest[j]) && !Less(key(rest[i]), key(r)) ensures !Less(key(rest[j]), key(r)) {
      if j < i {
        NotBothWays(key(rest[i]), key(rest[j]));
      }
      if j != i {
        NotBefore(key(rest[j]), key(rest[i]), key(r));
      }
    }
  }

  /** There is no other leader. */
  lemma {:induction false} OneLeads<T(!new)>(rows: seq<T>, i: int, asks: T -> bool, key: T -> string)
    ensures Leads(rows, i, asks, key) <==> Leader(rows, asks, key) == Some(i)
  {
    LeaderLeads(rows, asks, key);
  }

  /** The first row with a value among those kept, in order, is the leader of those kept that have one. */
  lemma {:induction false} FirstIsLeader<T(!new), V>(rows: seq<T>, kept: T -> bool, key: T -> string, val: T -> Option<V>, asks: T -> bool)
    requires forall r :: asks(r) <==> kept(r) && val(r).Some?
    ensures FirstWith(OrderBy(Keep(rows, kept), key), val)
            == match Leader(rows, asks, key) case None => None case Some(i) => Some(rows[i])
  {
    if rows != [] {
      var rest := Keep(rows[1..], kept);
      FirstIsLeader(rows[1..], kept, key, val, asks);
      OrderIsInOrder(rest, key);
      FirstInserted(rows[0], OrderBy(rest, key), key, val);
      assert ([rows[0]] + rest)[1..] == rest && [] + rest == rest;
    }
  }
}
