/**
Products and quotients of reals as named functions, so that proofs about sums
over sequences meet no multiplication of two variables.
*/
module Reals {

  function Times(a: real, b: real): real {
    a * b
  }

  function Over(a: real, n: real): real
    requires n > 0.0
  {
    a / n
  }

  function Square(d: real): real {
    Times(d, d)
  }

  lemma {:induction false} Commutes(a: real, b: real)
    ensures Times(a, b) == Times(b, a)
  {
  }

  lemma {:induction false} Associates(a: real, b: real, c: real)
    ensures Times(Times(a, b), c) == Times(a, Times(b, c))
  {
  }

  lemma {:induction false} Distributes(k: real, a: real, b: real)
    ensures Times(k, a + b) == Times(k, a) + Times(k, b)
    ensures Times(k, a - b) == Times(k, a) - Times(k, b)
  {
  }

  lemma {:induction false} Units(a: real)
    ensures Times(1.0, a) == a && Times(0.0, a) == 0.0 && Times(a, 0.0) == 0.0
  {
  }

  lemma {:induction false} BothPositive(a: real, b: real)
    requires a > 0.0 && b > 0.0
    ensures Times(a, b) > 0.0
  {
  }

  lemma {:induction false} PositiveNegative(a: real, b: real)
    requires a > 0.0 && b < 0.0
    ensures Times(a, b) < 0.0
  {
  }

  /** A positive factor keeps the sign. */
  lemma {:induction false} KeepsSign(k: real, c: real)
    requires k > 0.0
    ensures Times(k, c) < 0.0 <==> c < 0.0
    ensures Times(k, c) == 0.0 <==> c == 0.0
    ensures Times(k, c) > 0.0 <==> c > 0.0
  {
    if c > 0.0 {
      BothPositive(k, c);
    } else if c < 0.0 {
      PositiveNegative(k, c);
    } else {
      Units(k);
    }
  }

  lemma {:induction false} NegativeSquare(d: real, e: real)
    requires d == -e
    ensures Times(d, d) == Times(e, e)
  {
  }

  lemma {:induction false} SquareSign(d: real)
    ensures Square(d) >= 0.0 && (Square(d) == 0.0 <==> d == 0.0)
  {
    if d > 0.0 {
      BothPositive(d, d);
    } else if d < 0.0 {
      BothPositive(-d, -d);
      NegativeSquare(d, -d);
    } else {
      Units(d);
    }
  }

  lemma {:induction false} Cancel(x: real, y: real, p: real)
    requires p > 0.0 && Times(x, p) == Times(y, p)
    ensures x == y
  {
    Commutes(x, p);
    Commutes(y, p);
    Distributes(p, x, y);
    KeepsSign(p, x - y);
  }

  lemma {:induction false} OverIs(a: real, n: real)
    requires n > 0.0
    ensures Times(Over(a, n), n) == a
  {
  }

  lemma {:induction false} OverUnique(a: real, n: real, m: real)
    requires n > 0.0 && Times(m, n) == a
    ensures m == Over(a, n)
  {
    OverIs(a, n);
    Cancel(m, Over(a, n), n);
  }

  lemma {:induction false} OverSign(a: real, n: real)
    requires n > 0.0
    ensures Over(a, n) < 0.0 <==> a < 0.0
    ensures Over(a, n) == 0.0 <==> a == 0.0
    ensures Over(a, n) > 0.0 <==> a > 0.0
  {
    OverIs(a, n);
    Commutes(Over(a, n), n);
    KeepsSign(n, Over(a, n));
  }

  /** Dividing is multiplying by the inverse. */
  lemma {:induction false} OverInverse(a: real, n: real)
    requires n > 0.0
    ensures Over(1.0, n) > 0.0 && Over(a, n) == Times(Over(1.0, n), a)
  {
    var i := Over(1.0, n);
    OverSign(1.0, n);
    OverIs(1.0, n);
    Commutes(i, a);
    Associates(a, i, n);
    Commutes(a, 1.0);
    Units(a);
    OverUnique(a, n, Times(i, a));
  }

  /** (x a)(y b) == (x y)(a b). */
  lemma {:induction false} ProductOfProducts(x: real, a: real, y: real, b: real)
    ensures Times(Times(x, a), Times(y, b)) == Times(Times(x, y), Times(a, b))
  {
    Associates(x, a, Times(y, b));
    Associates(a, y, b);
    Commutes(a, y);
    Associates(y, a, b);
    Associates(x, y, Times(a, b));
  }

  // -------------------------------------------------------------- c c / (a b)

  function Quotient(c: real, a: real, b: real): real
    requires a > 0.0 && b > 0.0
  {
    BothPositive(a, b);
    Over(Square(c), Times(a, b))
  }

  lemma {:induction false} QuotientUnique(c: real, a: real, b: real, r: real)
    requires a > 0.0 && b > 0.0 && Times(r, Times(a, b)) == Square(c)
    ensures r == Quotient(c, a, b)
  {
    BothPositive(a, b);
    OverUnique(Square(c), Times(a, b), r);
  }

  /** Scaling a by p, b by q and c by a k whose square is p q changes nothing. */
  lemma {:induction false} QuotientScaled(c: real, a: real, b: real, k: real, p: real, q: real)
    requires a > 0.0 && b > 0.0 && p > 0.0 && q > 0.0 && Square(k) == Times(p, q)
    ensures Times(p, a) > 0.0 && Times(q, b) > 0.0
    ensures Quotient(Times(k, c), Times(p, a), Times(q, b)) == Quotient(c, a, b)
  {
    BothPositive(p, a);
    BothPositive(q, b);
    BothPositive(a, b);
    var r, ab, pq := Quotient(c, a, b), Times(a, b), Times(p, q);
    OverIs(Square(c), ab);
    ProductOfProducts(p, a, q, b);
    ProductOfProducts(k, c, k, c);
    Commutes(r, Times(pq, ab));
    Associates(pq, ab, r);
    Commutes(ab, r);
    QuotientUnique(Times(k, c), Times(p, a), Times(q, b), r);
  }

  lemma {:induction false} QuotientAtMostOne(c: real, a: real, b: real)
    requires a > 0.0 && b > 0.0 && Square(c) <= Times(a, b)
    ensures 0.0 <= Quotient(c, a, b) <= 1.0 && (Quotient(c, a, b) == 1.0 <==> Square(c) == Times(a, b))
  {
    var r, p := Quotient(c, a, b), Times(a, b);
    BothPositive(a, b);
    OverIs(Square(c), p);
    SquareSign(c);
    OverSign(Square(c), p);
    Commutes(r, p);
    Commutes(p, 1.0);
    Units(p);
    Distributes(p, 1.0, r);
    KeepsSign(p, 1.0 - r);
  }

  // ------------------------------------------------------------- a quadratic

  /** b - 2 t c + t t a. */
  function Quadratic(a: real, b: real, c: real, t: real): real {
    b - 2.0 * Times(t, c) + Times(Square(t), a)
  }

  lemma {:induction false} Expand(x: real, y: real, t: real)
    ensures Square(y - Times(t, x)) == Square(y) - 2.0 * Times(t, Times(x, y)) + Times(Square(t), Square(x))
  {
    var z := Times(t, x);
    Distributes(y - z, y, z);
    Commutes(y - z, y);
    Commutes(y - z, z);
    Distributes(y, y, z);
    Distributes(z, y, z);
    Commutes(y, z);
    Associates(t, x, y);
    ProductOfProducts(t, x, t, x);
  }

  lemma {:induction false} Collect(a: real, b: real, c: real, t: real, xx: real, yy: real, xy: real)
    ensures Quadratic(a, b, c, t) + (yy - 2.0 * Times(t, xy) + Times(Square(t), xx)) == Quadratic(a + xx, b + yy, c + xy, t)
  {
    Distributes(t, c, xy);
    Distributes(Square(t), a, xx);
  }

  /** The slope at which the quadratic is least. */
  function Slope(c: real, a: real): real
    requires a > 0.0
  {
    Over(c, a)
  }

  /** There, it is ab - cc over a. */
  lemma {:induction false} AtBestSlope(a: real, b: real, c: real)
    requires a > 0.0
    ensures Times(Quadratic(a, b, c, Slope(c, a)), a) == Times(a, b) - Square(c)
  {
    var t := Slope(c, a);
    OverIs(c, a);
    // t a == c, so t t a == t c and the quadratic is b - t c
    Associates(t, t, a);
    assert Quadratic(a, b, c, t) == b - Times(t, c);
    Commutes(b - Times(t, c), a);
    Distributes(a, b, Times(t, c));
    Commutes(a, Times(t, c));
    Associates(t, c, a);
    Commutes(c, a);
    Associates(t, a, c);
  }

  lemma {:induction false} Discriminant(a: real, b: real, c: real)
    requires a > 0.0 && Quadratic(a, b, c, Slope(c, a)) >= 0.0
    ensures Square(c) <= Times(a, b) && (Square(c) == Times(a, b) <==> Quadratic(a, b, c, Slope(c, a)) == 0.0)
  {
    var q := Quadratic(a, b, c, Slope(c, a));
    AtBestSlope(a, b, c);
    Commutes(q, a);
    KeepsSign(a, q);
  }
}
