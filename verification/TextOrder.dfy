/**
Strings as Python and SQLite compare them, and the fixed-width decimal forms
(`HH:MM`, `yyyy-mm-dd`) whose string order is the order of what they denote.
*/
module TextOrder {
  import opened Prelude

  /** `a < b`, character by character. */
  predicate Less(a: string, b: string) {
    b != [] && (a == [] || a[0] < b[0] || (a[0] == b[0] && Less(a[1..], b[1..])))
  }

  lemma {:induction false} LessConcat(a: string, b: string, c: string, d: string)
    requires |a| == |c|
    ensures Less(a + b, c + d) <==> Less(a, c) || (a == c && Less(b, d))
  {
    if a == [] {
      assert a + b == b && c + d == d;
    } else {
      assert (a + b)[1..] == a[1..] + b;
      assert (c + d)[1..] == c[1..] + d;
      assert a == [a[0]] + a[1..] && c == [c[0]] + c[1..];
      LessConcat(a[1..], b, c[1..], d);
    }
  }

  lemma {:induction false} LessIrreflexive(a: string)
    ensures !Less(a, a)
  {
    if a != [] {
      LessIrreflexive(a[1..]);
    }
  }

  lemma {:induction false} LessTransitive(a: string, b: string, c: string)
    requires Less(a, b) && Less(b, c)
    ensures Less(a, c)
  {
    if a != [] && a[0] == b[0] && b[0] == c[0] {
      LessTransitive(a[1..], b[1..], c[1..]);
    }
  }

  lemma {:induction false} LessTotal(a: string, b: string)
    ensures a == b || Less(a, b) || Less(b, a)
  {
    if a != [] && b != [] && a[0] == b[0] {
      LessTotal(a[1..], b[1..]);
      assert a == [a[0]] + a[1..] && b == [b[0]] + b[1..];
    }
  }

  // ---------------------------------------------------------------- decimals

  function Digit(d: int): char
    requires 0 <= d < 10
  {
    ('0' as int + d) as char
  }

  function Pow10(w: nat): nat {
    if w == 0 then 1 else 10 * Pow10(w - 1)
  }

  /** `n` in decimal, padded with zeros to `w` characters. */
  function Dec(n: nat, w: nat): (s: string)
    ensures |s| == w
  {
    if w == 0 then [] else Dec(n / 10, w - 1) + [Digit(n % 10)]
  }

  lemma {:induction false} DecOrder(a: nat, b: nat, w: nat)
    requires a < Pow10(w) && b < Pow10(w)
    ensures Less(Dec(a, w), Dec(b, w)) <==> a < b
    ensures Dec(a, w) == Dec(b, w) <==> a == b
  {
    if w > 0 {
      var x, y := Dec(a / 10, w - 1), Dec(b / 10, w - 1);
      var c, d := [Digit(a % 10)], [Digit(b % 10)];
      DecOrder(a / 10, b / 10, w - 1);
      LessConcat(x, c, y, d);
      assert Less(c, d) <==> a % 10 < b % 10;
      assert (x + c)[..w - 1] == x && (y + d)[..w - 1] == y;
      assert (x + c)[w - 1] == c[0] && (y + d)[w - 1] == d[0];
    }
  }

  // ------------------------------------------------------------------ int()

  predicate IsDigit(c: char) {
    '0' <= c <= '9'
  }

  predicate IsSpace(c: char) {
    c == ' ' || ('\t' <= c <= '\r')
  }

  function StripLeft(s: string): string {
    if s != [] && IsSpace(s[0]) then StripLeft(s[1..]) else s
  }

  function StripRight(s: string): string {
    if s != [] && IsSpace(s[|s| - 1]) then StripRight(s[..|s| - 1]) else s
  }

  /** The value of a non-empty run of digits. */
  function ParseDigits(s: string): Option<nat> {
    if s == [] || !IsDigit(s[|s| - 1]) then None
    else
      var d := s[|s| - 1] as int - '0' as int;
      if |s| == 1 then Some(d)
      else match ParseDigits(s[..|s| - 1])
           case None => None
           case Some(n) => Some(10 * n + d)
  }

  /** Python's `int(text)`: blanks around, an optional sign, digits. */
  function ParseInt(text: string): Option<int> {
    var s := StripRight(StripLeft(text));
    if s != [] && (s[0] == '-' || s[0] == '+') then
      match ParseDigits(s[1..])
      case None => None
      case Some(n) => var v: int := n; Some(if s[0] == '-' then -v else v)
    else
      match ParseDigits(s)
      case None => None
      case Some(n) => Some(n)
  }

  lemma {:induction false} ParseDec(n: nat, w: nat)
    requires w > 0 && n < Pow10(w)
    ensures ParseDigits(Dec(n, w)) == Some(n)
    ensures forall i :: 0 <= i < w ==> IsDigit(Dec(n, w)[i])
  {
    var s := Dec(n, w);
    assert s[..w - 1] == Dec(n / 10, w - 1);
    if w == 1 {
      assert Pow10(1) == 10 * Pow10(0) == 10;
    } else {
      ParseDec(n / 10, w - 1);
      assert forall i :: 0 <= i < w - 1 ==> s[i] == s[..w - 1][i];
    }
  }

  /** `int()` of a zero-padded number is that number. */
  lemma {:induction false} ParseIntDec(n: nat, w: nat)
    requires w > 0 && n < Pow10(w)
    ensures ParseInt(Dec(n, w)) == Some(n)
  {
    ParseDec(n, w);
    var s := Dec(n, w);
    assert IsDigit(s[0]) && IsDigit(s[w - 1]);
    assert StripLeft(s) == s && StripRight(s) == s;
  }

  /** A sign before the digits counts. */
  lemma {:induction false} ParseIntSigned(n: nat, w: nat)
    requires w > 0 && n < Pow10(w)
    ensures ParseInt("-" + Dec(n, w)).Some? && ParseInt("-" + Dec(n, w)).value + n == 0 && ParseInt("+" + Dec(n, w)) == Some(n)
  {
    ParseDec(n, w);
    var s, minus, plus := Dec(n, w), "-" + Dec(n, w), "+" + Dec(n, w);
    assert IsDigit(s[w - 1]) && minus[w] == s[w - 1] && plus[w] == s[w - 1];
    assert StripLeft(minus) == minus && StripRight(minus) == minus && StripLeft(plus) == plus && StripRight(plus) == plus;
    assert minus[1..] == s && plus[1..] == s;
  }

  /** Blanks as `str.strip` takes them off, in ASCII. */
  predicate AllBlank(s: string) {
    forall i :: 0 <= i < |s| ==> s[i] in {' ', '\t', '\n', 11 as char, 12 as char, '\r'}
  }

  lemma {:induction false} StripsLeft(pad: string, s: string)
    requires AllBlank(pad) && (s == [] || !IsSpace(s[0]))
    ensures StripLeft(pad + s) == s
  {
    if pad == [] {
      assert pad + s == s;
    } else {
      assert (pad + s)[1..] == pad[1..] + s;
      StripsLeft(pad[1..], s);
    }
  }

  lemma {:induction false} StripsRight(s: string, pad: string)
    requires AllBlank(pad) && (s == [] || !IsSpace(s[|s| - 1]))
    ensures StripRight(s + pad) == s
  {
    if pad == [] {
      assert s + pad == s;
    } else {
      var n := |pad| - 1;
      assert (s + pad)[..|s + pad| - 1] == s + pad[..n];
      StripsRight(s, pad[..n]);
    }
  }

  /** Blanks around a number do not. */
  lemma {:induction false} ParseIntPadded(before: string, n: nat, w: nat, after: string)
    requires AllBlank(before) && AllBlank(after) && w > 0 && n < Pow10(w)
    ensures ParseInt(before + (Dec(n, w) + after)) == Some(n)
  {
    ParseDec(n, w);
    var s := Dec(n, w);
    assert IsDigit(s[0]) && IsDigit(s[w - 1]);
    assert (s + after)[0] == s[0];
    StripsLeft(before, s + after);
    StripsRight(s, after);
  }

  // ------------------------------------------------------------------ split

  /** `text.split(sep)`. */
  function Split(text: string, sep: char): (parts: seq<string>)
    ensures parts != []
  {
    if text == [] then [[]]
    else
      var rest := Split(text[1..], sep);
      if text[0] == sep then [[]] + rest else [[text[0]] + rest[0]] + rest[1..]
  }

  lemma {:induction false} SplitFirst(head: string, sep: char, tail: string)
    requires sep !in head
    ensures Split(head + [sep] + tail, sep) == [head] + Split(tail, sep)
  {
    var text := head + [sep] + tail;
    if head == [] {
      assert text[1..] == tail;
    } else {
      assert text[1..] == head[1..] + [sep] + tail;
      SplitFirst(head[1..], sep, tail);
      assert [head[0]] + head[1..] == head;
    }
  }

  lemma {:induction false} SplitNone(text: string, sep: char)
    requires sep !in text
    ensures Split(text, sep) == [text]
  {
    if text != [] {
      SplitNone(text[1..], sep);
      assert [text[0]] + text[1..] == text;
    }
  }
}
