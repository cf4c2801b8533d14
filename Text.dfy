/**
 * The PHP string helpers the controllers rely on: `trim`, `empty` on strings, byte-wise
 * comparison of strings (`<`, `<=` and `strcmp` on non-numeric strings), `LIKE '%s%'`
 * containment, and fixed-width decimal rendering and parsing of numbers.
 * Model strings are `seq<char>`; one model character stands for one byte that `strlen` counts.
 */
module Text {

  /** The characters PHP's `trim` strips by default: space, tab, LF, CR, NUL and vertical tab. */
  predicate IsTrimChar(c: char) {
    c == ' ' || c == '\t' || c == '\n' || c == '\r' || c == '\0' || c == '\U{0B}'
  }

  /** PHP's `empty` on a string: true for "" and for "0". */
  predicate PhpEmpty(s: string) {
    s == "" || s == "0"
  }

  function TrimLeft(s: string): (r: string)
    ensures |r| <= |s| && r == s[|s| - |r|..]
    ensures forall k :: 0 <= k < |s| - |r| ==> IsTrimChar(s[k])
    ensures |r| > 0 ==> !IsTrimChar(r[0])
  {
    if |s| > 0 && IsTrimChar(s[0]) then TrimLeft(s[1..]) else s
  }

  function TrimRight(s: string): (r: string)
    ensures |r| <= |s| && r == s[..|r|]
    ensures forall k :: |r| <= k < |s| ==> IsTrimChar(s[k])
    ensures |r| > 0 ==> !IsTrimChar(r[|r| - 1])
  {
    if |s| > 0 && IsTrimChar(s[|s| - 1]) then TrimRight(s[..|s| - 1]) else s
  }

  /** PHP `trim`: the longest infix of `s` that neither starts nor ends with a trim character. */
  function Trim(s: string): (r: string)
  {
    TrimRight(TrimLeft(s))
  }

  /** What `TrimRight` keeps of the suffix `l` of `s` from `i` on is an infix of `s`, followed only by trim characters. */
  lemma TrimRightOfSuffix(s: string, i: nat, l: string)
    requires i <= |s| && l == s[i..]
    ensures var r := TrimRight(l);
      && i + |r| <= |s| && r == s[i..i + |r|]
      && (forall k :: i + |r| <= k < |s| ==> IsTrimChar(s[k]))
  {
    var r := TrimRight(l);
    assert r == l[..|r|];
    forall k | i + |r| <= k < |s|
      ensures IsTrimChar(s[k])
    {
      assert s[k] == l[k - i];
    }
  }

  /** `Trim` keeps an infix `s[i..j]` of its input; everything outside it is a trim character. */
  lemma TrimIsInfix(s: string) returns (i: nat, j: nat)
    ensures i <= j <= |s| && Trim(s) == s[i..j]
    ensures forall k :: 0 <= k < i ==> IsTrimChar(s[k])
    ensures forall k :: j <= k < |s| ==> IsTrimChar(s[k])
  {
    var l := TrimLeft(s);
    i := |s| - |l|;
    TrimRightOfSuffix(s, i, l);
    j := i + |TrimRight(l)|;
  }

  /** What `Trim` keeps neither starts nor ends with a trim character. */
  lemma TrimEnds(s: string)
    ensures var r := Trim(s); |r| > 0 ==> !IsTrimChar(r[0]) && !IsTrimChar(r[|r| - 1])
  {
    var l := TrimLeft(s);
    var r := TrimRight(l);
    if |r| > 0 {
      assert r[0] == l[0];
    }
  }

  /** A string with no trim character at either end is its own trim. */
  lemma {:induction false} TrimFixpoint(s: string)
    requires |s| > 0 ==> !IsTrimChar(s[0]) && !IsTrimChar(s[|s| - 1])
    ensures Trim(s) == s
  {
  }

  lemma TrimIdempotent(s: string)
    ensures Trim(Trim(s)) == Trim(s)
  {
    TrimFixpoint(Trim(s));
  }

  /** Byte-wise strict order of strings, as `strcmp(a, b) < 0`. */
  predicate LexLess(a: string, b: string)
  {
    if |a| == 0 then |b| > 0
    else if |b| == 0 then false
    else if a[0] != b[0] then a[0] < b[0]
    else LexLess(a[1..], b[1..])
  }

  /** `a <= b` on non-numeric PHP strings. */
  predicate LexLeq(a: string, b: string) {
    a == b || LexLess(a, b)
  }

  lemma {:induction false} LexLessIrreflexive(a: string)
    ensures !LexLess(a, a)
  {
    if |a| > 0 { LexLessIrreflexive(a[1..]); }
  }

  /** Two distinct strings are always ordered one way or the other, and never both ways. */
  lemma {:induction false} LexTotal(a: string, b: string)
    ensures a != b ==> LexLess(a, b) || LexLess(b, a)
    ensures !(LexLess(a, b) && LexLess(b, a))
  {
    if |a| > 0 && |b| > 0 && a[0] == b[0] {
      LexTotal(a[1..], b[1..]);
      if a != b { assert a == [a[0]] + a[1..] && b == [b[0]] + b[1..]; }
    }
  }

  lemma {:induction false} LexLessTransitive(a: string, b: string, c: string)
    requires LexLess(a, b) && LexLess(b, c)
    ensures LexLess(a, c)
  {
    if |a| > 0 && a[0] == b[0] && b[0] == c[0] {
      LexLessTransitive(a[1..], b[1..], c[1..]);
    }
  }

  /** `a <= b` on strings is a total order. */
  lemma LexLeqOrders(a: string, b: string, c: string)
    ensures LexLeq(a, b) || LexLeq(b, a)
    ensures LexLeq(a, b) && LexLeq(b, c) ==> LexLeq(a, c)
  {
    LexTotal(a, b);
    if LexLess(a, b) && LexLess(b, c) {
      LexLessTransitive(a, b, c);
    }
  }

  /** `strtolower`: the ASCII capital letters become small letters, every other character is kept. */
  function Lower(s: string): (r: string)
    ensures |r| == |s|
  {
    seq(|s|, i requires 0 <= i < |s| => if 'A' <= s[i] <= 'Z' then (s[i] as int + 32) as char else s[i])
  }

  /** Comparing two concatenations whose first parts have the same length. */
  lemma {:induction false} LexConcat(p1: string, q1: string, p2: string, q2: string)
    requires |p1| == |p2|
    ensures LexLess(p1 + q1, p2 + q2) <==> LexLess(p1, p2) || (p1 == p2 && LexLess(q1, q2))
  {
    if |p1| == 0 {
      assert p1 + q1 == q1 && p2 + q2 == q2;
    } else {
      assert (p1 + q1)[0] == p1[0] && (p2 + q2)[0] == p2[0];
      assert (p1 + q1)[1..] == p1[1..] + q1 && (p2 + q2)[1..] == p2[1..] + q2;
      LexConcat(p1[1..], q1, p2[1..], q2);
      if p1[0] == p2[0] {
        assert p1 == [p1[0]] + p1[1..] && p2 == [p2[0]] + p2[1..];
      }
    }
  }

  /** SQL `LIKE '%needle%'` without wildcards inside the needle: `needle` occurs in `hay`. */
  predicate Contains(hay: string, needle: string)
  {
    exists i :: 0 <= i <= |hay| && OccursAt(hay, needle, i)
  }

  predicate OccursAt(hay: string, needle: string, i: int)
  {
    0 <= i && i + |needle| <= |hay| && hay[i..i + |needle|] == needle
  }

  function Pow10(n: nat): (r: nat)
    ensures r >= 1
  {
    if n == 0 then 1 else 10 * Pow10(n - 1)
  }

  function Digit(d: nat): (c: char)
    requires d < 10
  {
    ['0', '1', '2', '3', '4', '5', '6', '7', '8', '9'][d]
  }

  predicate IsDigit(c: char) {
    '0' <= c <= '9'
  }

  function DigitValue(c: char): (d: nat)
    requires IsDigit(c)
    ensures d < 10 && Digit(d) == c
  {
    if c == '0' then 0 else if c == '1' then 1 else if c == '2' then 2 else if c == '3' then 3
    else if c == '4' then 4 else if c == '5' then 5 else if c == '6' then 6 else if c == '7' then 7
    else if c == '8' then 8 else 9
  }

  /** The last `n` decimal digits of `x`, zero-padded on the left. */
  function FixedDigits(x: nat, n: nat): (r: string)
    ensures |r| == n
    ensures forall k :: 0 <= k < n ==> IsDigit(r[k])
  {
    if n == 0 then "" else FixedDigits(x / 10, n - 1) + [Digit(x % 10)]
  }

  /** The value of a string of decimal digits. */
  function DigitsValue(s: string): (v: nat)
    requires forall k :: 0 <= k < |s| ==> IsDigit(s[k])
    ensures v < Pow10(|s|)
  {
    if s == [] then 0 else DigitsValue(s[..|s| - 1]) * 10 + DigitValue(s[|s| - 1])
  }

  /** Reading back a zero-padded rendering gives the number. */
  lemma {:induction false} DigitsRoundTrip(x: nat, n: nat)
    requires x < Pow10(n)
    ensures DigitsValue(FixedDigits(x, n)) == x
  {
    if n > 0 {
      var s := FixedDigits(x, n);
      var q, d := x / 10, x % 10;
      assert q < Pow10(n - 1);
      assert s[..n - 1] == FixedDigits(q, n - 1);
      DigitInverse(d);
      DigitsRoundTrip(q, n - 1);
      assert DigitsValue(s) == q * 10 + d;
    }
  }

  /** Appending a digit `d` to the number `a`: dividing by ten takes it off again. */
  lemma LastDigit(a: nat, d: nat)
    requires d < 10
    ensures (a * 10 + d) / 10 == a && (a * 10 + d) % 10 == d
  {
  }

  lemma DigitInverse(d: nat)
    requires d < 10
    ensures DigitValue(Digit(d)) == d
  {
  }

  /** Rendering the value of a digit string gives the string back. */
  lemma {:induction false} DigitsRoundTripBack(s: string)
    requires forall k :: 0 <= k < |s| ==> IsDigit(s[k])
    ensures FixedDigits(DigitsValue(s), |s|) == s
  {
    if s != [] {
      var p := s[..|s| - 1];
      var v := DigitsValue(s);
      LastDigit(DigitsValue(p), DigitValue(s[|s| - 1]));
      DigitsRoundTripBack(p);
      assert s == p + [s[|s| - 1]];
    }
  }

  /** For numbers of at most `n` digits, byte order of their zero-padded renderings is numeric order. */
  lemma {:induction false} FixedDigitsOrder(x: nat, y: nat, n: nat)
    requires x < Pow10(n) && y < Pow10(n)
    ensures LexLess(FixedDigits(x, n), FixedDigits(y, n)) <==> x < y
    ensures FixedDigits(x, n) == FixedDigits(y, n) <==> x == y
  {
    if n == 0 {
    } else {
      var px, py := FixedDigits(x / 10, n - 1), FixedDigits(y / 10, n - 1);
      var cx, cy := Digit(x % 10), Digit(y % 10);
      FixedDigitsOrder(x / 10, y / 10, n - 1);
      LexConcat(px, [cx], py, [cy]);
      assert LexLess([cx], [cy]) <==> cx < cy;
      DigitOrder(x % 10, y % 10);
      if FixedDigits(x, n) == FixedDigits(y, n) {
        assert px == FixedDigits(x, n)[..n - 1] == FixedDigits(y, n)[..n - 1] == py;
        assert cx == FixedDigits(x, n)[n - 1] == cy;
      }
    }
  }

  lemma DigitOrder(a: nat, b: nat)
    requires a < 10 && b < 10
    ensures Digit(a) < Digit(b) <==> a < b
    ensures Digit(a) == Digit(b) <==> a == b
  {
  }
}
