/**
  Decimal text for whole numbers, as a JavaScript template literal renders an
  integral Number below 10^21: optional minus sign, then the digits with no
  leading zero. The readers here are the inverse direction, used to show that
  the renderings lose no information.
 */
module Decimal {

  predicate IsDigit(c: char) {
    '0' <= c <= '9'
  }

  /** Every character is a digit; checked from the last character, the order
      in which ParseNat reads. */
  predicate AllDigits(s: string)
    decreases |s|
  {
    |s| == 0 || (IsDigit(s[|s| - 1]) && AllDigits(s[..|s| - 1]))
  }

  /** The same property, character by character. */
  lemma {:induction false} AllDigitsAt(s: string)
    ensures AllDigits(s) <==> forall i :: 0 <= i < |s| ==> IsDigit(s[i])
    decreases |s|
  {
    if |s| > 0 {
      var p := s[..|s| - 1];
      AllDigitsAt(p);
      assert forall i :: 0 <= i < |p| ==> p[i] == s[i];
    }
  }

  /** A run of digits with no redundant leading zero ("0" itself is canonical). */
  predicate Canonical(s: string) {
    |s| >= 1 && AllDigits(s) && (s[0] == '0' ==> |s| == 1)
  }

  /** The value of a digit character; other characters count as zero (the
      readers check for digits before they rely on a value). */
  function DigitValue(c: char): (d: nat)
    ensures d < 10
  {
    if IsDigit(c) then c as int - '0' as int else 0
  }

  function DigitChar(d: nat): (c: char)
    requires d < 10
    ensures IsDigit(c)
    ensures DigitValue(c) == d
  {
    ('0' as int + d) as char
  }

  /** The decimal rendering of a natural number. */
  function NatStr(n: nat): (s: string)
    ensures Canonical(s)
    ensures s[0] == '0' <==> n == 0
    decreases n
  {
    if n < 10 then [DigitChar(n)] else NatStr(n / 10) + [DigitChar(n % 10)]
  }

  /** The decimal rendering of an integer: a minus sign before a negative one. */
  function IntStr(i: int): (s: string)
    ensures |s| >= 1
    ensures i >= 0 ==> Canonical(s)
    ensures i < 0 ==> s[0] == '-' && Canonical(s[1..])
  {
    if i < 0 then "-" + NatStr(-i) else NatStr(i)
  }

  /** The value of a run of digits, most significant first. */
  function ParseNat(s: string): nat
    decreases |s|
  {
    if |s| == 0 then 0 else 10 * ParseNat(s[..|s| - 1]) + DigitValue(s[|s| - 1])
  }

  /** b raised to the k-th power. */
  function Pow(b: nat, k: nat): (r: nat)
    ensures b >= 1 ==> r >= 1
  {
    if k == 0 then 1 else b * Pow(b, k - 1)
  }

  /** Reading a rendering back gives the number that was rendered. */
  lemma {:induction false} ParseNatStr(n: nat)
    ensures ParseNat(NatStr(n)) == n
    decreases n
  {
    if n >= 10 {
      var s := NatStr(n);
      assert s[..|s| - 1] == NatStr(n / 10);
      ParseNatStr(n / 10);
    }
  }

  /** The other direction: rendering the value of a canonical digit string gives the string back. */
  lemma {:induction false} NatStrParse(s: string)
    requires Canonical(s)
    ensures NatStr(ParseNat(s)) == s
    decreases |s|
  {
    var p := s[..|s| - 1];
    var c := s[|s| - 1];
    var d := DigitValue(c);
    assert s == p + [c];
    assert IsDigit(c) && DigitChar(d) == c;
    if |p| == 0 {
      assert ParseNat(s) == d;
    } else {
      assert Canonical(p) by {
        assert p[0] == s[0];
      }
      NatStrParse(p);
      var x := ParseNat(p);
      assert x != 0 by {
        assert NatStr(x)[0] == p[0] != '0';
      }
      assert ParseNat(s) == 10 * x + d;
      SplitLastDigit(x, d);
    }
  }

  lemma SplitLastDigit(x: nat, d: nat)
    requires d < 10
    ensures (10 * x + d) / 10 == x && (10 * x + d) % 10 == d
  {
  }

  /** The value of a concatenation: the left part is shifted by the length of the right part. */
  lemma {:induction false} ParseNatAppend(a: string, b: string)
    ensures ParseNat(a + b) == ParseNat(a) * Pow(10, |b|) + ParseNat(b)
    decreases |b|
  {
    var ab := a + b;
    if |b| == 0 {
      assert ab == a;
    } else {
      var b' := b[..|b| - 1];
      var d := DigitValue(b[|b| - 1]);
      assert ab[..|ab| - 1] == a + b';
      assert ParseNat(ab) == 10 * ParseNat(a + b') + d;
      ParseNatAppend(a, b');
      var x, p, y := ParseNat(a), Pow(10, |b'|), ParseNat(b');
      assert Pow(10, |b|) == 10 * p;
      assert ParseNat(b) == 10 * y + d;
      ShiftDistributes(x, p, y, d);
    }
  }

  lemma ShiftDistributes(x: nat, p: nat, y: nat, d: nat)
    ensures 10 * (x * p + y) + d == x * (10 * p) + (10 * y + d)
  {
  }

  /** Leading zeros do not change the value of a digit string. */
  lemma ParseNatLeadingZeros(z: string, s: string)
    requires forall i :: 0 <= i < |z| ==> z[i] == '0'
    ensures ParseNat(z + s) == ParseNat(s)
  {
    ParseNatAppend(z, s);
    ParseNatZeros(z);
  }

  lemma {:induction false} ParseNatZeros(z: string)
    requires forall i :: 0 <= i < |z| ==> z[i] == '0'
    ensures ParseNat(z) == 0
    decreases |z|
  {
    if |z| > 0 {
      ParseNatZeros(z[..|z| - 1]);
    }
  }
}
