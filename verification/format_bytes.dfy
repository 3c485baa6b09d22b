/**
  The size text of a preview card (formatBytes in app/page.jsx).

  A byte count is divided by the largest power of 1024 it reaches, capped at
  1024^3 (GB), and the quotient is printed as Number.prototype.toFixed prints
  it (section 21.1.3.3 of ECMA-262): with no decimals when the unit is bytes or
  the quotient is at least ten, with one decimal otherwise. Dividing an
  integer below 2^53 by a power of two is exact in binary floating point, so
  the quotient is modelled as the exact rational bytes / 1024^unit, and toFixed
  works on that exact value.
 */
module Bytes {
  import opened Decimal
  import opened Options

  const Units: seq<string> := ["B", "KB", "MB", "GB"]

  lemma {:induction false} PowMonotone(b: nat, i: nat, j: nat)
    requires b >= 1 && i <= j
    ensures Pow(b, i) <= Pow(b, j)
    decreases j
  {
    if i < j {
      PowMonotone(b, i, j - 1);
      MulAtLeast(b, Pow(b, j - 1));
    }
  }

  /** The integer part of the base-1024 logarithm. */
  function Log1024(n: nat): (k: nat)
    requires n >= 1
    ensures Pow(1024, k) <= n < Pow(1024, k + 1)
    decreases n
  {
    if n < 1024 then 0
    else
      var q := n / 1024;
      var k := Log1024(q);
      assert Pow(1024, k + 1) == 1024 * Pow(1024, k);
      assert Pow(1024, k + 2) == 1024 * Pow(1024, k + 1);
      assert 1024 * Pow(1024, k) <= 1024 * q <= n;
      assert n < 1024 * (q + 1) <= 1024 * Pow(1024, k + 1);
      k + 1
  }

  /** The unit index: the largest k not past GB with 1024^k <= bytes. */
  function Exponent(bytes: nat): (k: nat)
    requires bytes >= 1
    ensures k < |Units|
    ensures Pow(1024, k) <= bytes
    ensures k < |Units| - 1 ==> bytes < Pow(1024, k + 1)
  {
    var l := Log1024(bytes);
    if l < |Units| - 1 then l
    else
      PowMonotone(1024, |Units| - 1, l);
      |Units| - 1
  }

  /** How far m / den lies from the rational num / den, scaled by den. */
  function Gap(m: int, num: int, den: int): nat {
    if m * den >= num then m * den - num else num - m * den
  }

  /** n / den is as close to num / den as any integer over den gets, and at a
      tie n is the larger candidate: the choice toFixed makes. */
  ghost predicate NearestTiesUp(n: int, num: int, den: int) {
    forall m: int :: Gap(n, num, den) < Gap(m, num, den) || (Gap(n, num, den) == Gap(m, num, den) && m <= n)
  }

  lemma MulAtLeast(t: int, den: nat)
    requires t >= 1
    ensures t * den >= den
  {
  }

  lemma MulAtMost(t: int, den: nat)
    requires t <= -1
    ensures t * den <= -(den as int)
  {
  }

  /** The integer nearest to num / den, the larger one at a tie. */
  function RoundHalfUp(num: nat, den: nat): (n: nat)
    requires den > 0
    ensures NearestTiesUp(n, num, den)
  {
    var n := (2 * num + den) / (2 * den);
    RoundHalfUpIsNearest(num, den, n);
    n
  }

  lemma RoundHalfUpIsNearest(num: nat, den: nat, n: nat)
    requires den > 0
    requires n == (2 * num + den) / (2 * den)
    ensures NearestTiesUp(n, num, den)
  {
    var r := (2 * num + den) % (2 * den);
    assert 2 * num + den == 2 * den * n + r;
    var d := n * den - num;
    assert 2 * d == den - r;
    assert -(den as int) < 2 * d <= den;
    forall m: int
      ensures Gap(n, num, den) < Gap(m, num, den) || (Gap(n, num, den) == Gap(m, num, den) && m <= n)
    {
      var t := m - n;
      assert m * den - num == d + t * den;
      if t >= 1 {
        MulAtLeast(t, den);
      } else if t <= -1 {
        MulAtMost(t, den);
      }
    }
  }

  /** The quotient toFixed receives: bytes in units of 1024^unit. */
  ghost function Value(bytes: nat, unit: nat): real {
    bytes as real / Pow(1024, unit) as real
  }

  /** The number shown for a non-empty file, before it becomes text: the unit
      index, the count of decimals, and the quotient times 10^decimals as toFixed
      rounds it. */
  datatype Display = Display(scaled: nat, decimals: nat, unit: nat)

  function Measure(bytes: nat): (d: Display)
    requires bytes >= 1
    ensures d.unit < |Units|
    ensures Pow(1024, d.unit) <= bytes
    ensures d.unit < |Units| - 1 ==> bytes < Pow(1024, d.unit + 1)
    ensures d.decimals <= 1
    ensures d.decimals == 0 <==> d.unit == 0 || Value(bytes, d.unit) >= 10.0
    ensures NearestTiesUp(d.scaled, bytes * Pow(10, d.decimals), Pow(1024, d.unit))
  {
    var unit := Exponent(bytes);
    var den := Pow(1024, unit);
    var decimals := if bytes >= 10 * den || unit == 0 then 0 else 1;
    assert Value(bytes, unit) >= 10.0 <==> bytes >= 10 * den by {
      TenTimes(bytes, den);
    }
    Display(RoundHalfUp(bytes * Pow(10, decimals), den), decimals, unit)
  }

  lemma TenTimes(bytes: nat, den: nat)
    requires den >= 1
    ensures bytes as real / den as real >= 10.0 <==> bytes >= 10 * den
  {
    var x := bytes as real / den as real;
    assert x * den as real == bytes as real;
  }

  /** The floor logarithm is the only k with 1024^k <= n < 1024^(k+1). */
  lemma Log1024Unique(n: nat, k: nat)
    requires n >= 1 && Pow(1024, k) <= n < Pow(1024, k + 1)
    ensures Log1024(n) == k
  {
    var l := Log1024(n);
    if l < k {
      PowMonotone(1024, l + 1, k);
    } else if l > k {
      PowMonotone(1024, k + 1, l);
    }
  }

  /** Every non-empty size lies in its unit, and sizes of at least 1024^3 bytes,
      however large, are given in GB. */
  lemma MeasureUnit(bytes: nat)
    requires bytes >= 1
    ensures Measure(bytes).unit == |Units| - 1 <==> bytes >= Pow(1024, |Units| - 1)
  {
    var u := Measure(bytes).unit;
    if u < |Units| - 1 {
      PowMonotone(1024, u + 1, |Units| - 1);
    }
  }

  /** A rational at least p rounds to at least p. */
  lemma NearestAtLeast(n: int, num: int, den: nat, p: int)
    requires den > 0 && NearestTiesUp(n, num, den)
    requires num >= p * den
    ensures n >= p
  {
    assert Gap(n, num, den) < Gap(p, num, den) || (Gap(n, num, den) == Gap(p, num, den) && p <= n);
    if n < p {
      MulAtLeast(p - n, den);
    }
  }

  /** A rational below top rounds to at most top. */
  lemma NearestAtMost(n: int, num: int, den: nat, top: int)
    requires den > 0 && NearestTiesUp(n, num, den)
    requires num < top * den
    ensures n <= top
  {
    assert Gap(n, num, den) < Gap(top, num, den) || (Gap(n, num, den) == Gap(top, num, den) && top <= n);
    if n > top {
      MulAtLeast(n - top, den);
    }
  }

  /** The shown number is at least one, and below GB it is at most 1024: rounding
      up to 1024 is not carried into the next unit. Plain bytes are shown as they are. */
  lemma MeasureBounds(bytes: nat)
    requires bytes >= 1
    ensures var d := Measure(bytes);
      Pow(10, d.decimals) <= d.scaled
    ensures var d := Measure(bytes);
      d.unit < |Units| - 1 ==> d.scaled <= 1024 * Pow(10, d.decimals)
    ensures Measure(bytes).unit == 0 ==> Measure(bytes).scaled == bytes
  {
    var d := Measure(bytes);
    var den := Pow(1024, d.unit);
    var p := Pow(10, d.decimals);
    var num := bytes * p;
    assert num >= p * den by {
      assert bytes >= den;
    }
    NearestAtLeast(d.scaled, num, den, p);
    if d.unit < |Units| - 1 {
      assert num < (1024 * p) * den by {
        assert bytes < 1024 * den;
        assert num < (1024 * den) * p;
      }
      NearestAtMost(d.scaled, num, den, 1024 * p);
    }
    if d.unit == 0 {
      assert den == 1 && p == 1;
      NearestAtMost(d.scaled, num, den, bytes + 1);
      NearestAtLeast(d.scaled, num, den, bytes);
    }
  }

  // ---------------------------------------------------------------------------
  // Text

  function Zeros(count: nat): (z: string)
    ensures |z| == count
    ensures forall i :: 0 <= i < count ==> z[i] == '0'
  {
    seq(count, _ => '0')
  }

  /** Left-pads a digit string with zeros to at least `width` characters. */
  function Pad(m: string, width: nat): (padded: string)
    ensures |padded| == if |m| < width then width else |m|
  {
    if |m| < width then Zeros(width - |m|) + m else m
  }

  /** Puts a decimal point before the last `digits` characters. */
  function Point(m: string, digits: nat): string
    requires |m| > digits
  {
    m[..|m| - digits] + "." + m[|m| - digits..]
  }

  /** toFixed for a value already multiplied by 10^digits and rounded to the
      integer n: the digits of n, padded with zeros to at least digits + 1 of
      them, with a point before the last `digits` of them. */
  function ToFixed(n: nat, digits: nat): string {
    if digits == 0 then NatStr(n) else Point(Pad(NatStr(n), digits + 1), digits)
  }

  /** The size text of a preview card. */
  function FormatBytes(bytes: nat): string {
    if bytes == 0 then "0 B"
    else
      var d := Measure(bytes);
      ToFixed(d.scaled, d.decimals) + " " + Units[d.unit]
  }

  // ---------------------------------------------------------------------------
  // Reading the text back

  /** The position of the first `c` in `t`, or |t| when there is none. */
  function Find(t: string, c: char): (p: nat)
    ensures p <= |t|
  {
    if t == [] || t[0] == c then 0 else 1 + Find(t[1..], c)
  }

  /** Reads a fixed-point number back as its digits and the count of them after the point. */
  function ReadFixed(t: string): Option<(nat, nat)> {
    var p := Find(t, '.');
    var digits := if p == |t| then t else t[..p] + t[p + 1..];
    var decimals := if p == |t| then 0 else |t| - p - 1;
    if (p == |t| && |t| >= 1) || (1 <= p && p + 1 < |t|) then
      if AllDigits(digits) then Some((ParseNat(digits), decimals)) else None
    else None
  }

  function UnitIndex(u: string): (k: Option<nat>)
    ensures k.Some? ==> k.value < |Units| && Units[k.value] == u
  {
    if u == "B" then Some(0) else if u == "KB" then Some(1)
    else if u == "MB" then Some(2) else if u == "GB" then Some(3) else None
  }

  /** Reads a size text back as the number, decimals and unit it shows. */
  function ReadSize(s: string): Option<Display> {
    var p := Find(s, ' ');
    if p == |s| then None
    else
      match (ReadFixed(s[..p]), UnitIndex(s[p + 1..]))
      case (Some((n, decimals)), Some(unit)) => Some(Display(n, decimals, unit))
      case _ => None
  }

  lemma {:induction false} FindAbsent(t: string, c: char)
    requires forall i :: 0 <= i < |t| ==> t[i] != c
    ensures Find(t, c) == |t|
    decreases |t|
  {
    if |t| > 0 {
      FindAbsent(t[1..], c);
    }
  }

  lemma {:induction false} FindAfter(a: string, c: char, rest: string)
    requires forall i :: 0 <= i < |a| ==> a[i] != c
    ensures Find(a + [c] + rest, c) == |a|
    decreases |a|
  {
    if |a| > 0 {
      assert (a + [c] + rest)[1..] == a[1..] + [c] + rest;
      FindAfter(a[1..], c, rest);
    }
  }

  lemma PadDigits(m: string, width: nat)
    requires AllDigits(m)
    ensures AllDigits(Pad(m, width)) && ParseNat(Pad(m, width)) == ParseNat(m)
  {
    AllDigitsAt(m);
    AllDigitsAt(Pad(m, width));
    if |m| < width {
      ParseNatLeadingZeros(Zeros(width - |m|), m);
    }
  }

  lemma DigitsSplit(s: string, i: nat)
    requires AllDigits(s) && i <= |s|
    ensures AllDigits(s[..i]) && AllDigits(s[i..]) && s[..i] + s[i..] == s
  {
    AllDigitsAt(s);
    AllDigitsAt(s[..i]);
    AllDigitsAt(s[i..]);
    assert forall j :: 0 <= j < i ==> s[..i][j] == s[j];
    assert forall j :: 0 <= j < |s| - i ==> s[i..][j] == s[i + j];
  }

  lemma ReadFixedAt(t: string, p: nat, rest: string)
    requires 1 <= p && p + 1 < |t| && Find(t, '.') == p
    requires t[..p] + t[p + 1..] == rest && AllDigits(rest)
    ensures ReadFixed(t) == Some((ParseNat(rest), |t| - p - 1))
  {
  }

  /** The point sits after the first |m| - digits characters, and removing it gives m back. */
  lemma PointFacts(m: string, digits: nat)
    requires AllDigits(m) && |m| > digits
    ensures |Point(m, digits)| == |m| + 1
    ensures Find(Point(m, digits), '.') == |m| - digits
    ensures Point(m, digits)[..|m| - digits] + Point(m, digits)[|m| - digits + 1..] == m
  {
    var k := |m| - digits;
    var t := Point(m, digits);
    var a, b := m[..k], m[k..];
    assert t == a + ['.'] + b;
    assert forall i :: 0 <= i < |a| ==> a[i] != '.' by {
      AllDigitsAt(m);
      assert forall i :: 0 <= i < |a| ==> a[i] == m[i];
    }
    FindAfter(a, '.', b);
    assert t[..k] == a;
    assert t[k + 1..] == b;
    assert a + b == m;
  }

  /** Digits split by a point read back as the value of all the digits and the count after the point. */
  lemma ReadPoint(m: string, digits: nat)
    requires AllDigits(m) && |m| > digits >= 1
    ensures ReadFixed(Point(m, digits)) == Some((ParseNat(m), digits))
  {
    PointFacts(m, digits);
    ReadFixedAt(Point(m, digits), |m| - digits, m);
  }

  lemma ReadWhole(n: nat)
    ensures ReadFixed(NatStr(n)) == Some((n, 0))
  {
    ParseNatStr(n);
    AllDigitsAt(NatStr(n));
    FindAbsent(NatStr(n), '.');
  }

  /** toFixed text reads back as the scaled number and the decimals it was printed with. */
  lemma ReadToFixed(n: nat, digits: nat)
    ensures ReadFixed(ToFixed(n, digits)) == Some((n, digits))
  {
    if digits == 0 {
      ReadWhole(n);
    } else {
      PadDigits(NatStr(n), digits + 1);
      ParseNatStr(n);
      ReadPoint(Pad(NatStr(n), digits + 1), digits);
    }
  }

  /** The shape toFixed gives its text: with no decimals, canonical digits;
      otherwise canonical digits (no redundant leading zero), a point, and
      exactly `digits` digits after it. With ReadToFixed this leaves one text
      for each figure and number of decimals. */
  lemma ToFixedShape(n: nat, digits: nat)
    ensures digits == 0 ==> Canonical(ToFixed(n, digits))
    ensures digits > 0 ==> var t := ToFixed(n, digits);
      && |t| >= digits + 2
      && t[|t| - digits - 1] == '.'
      && Canonical(t[..|t| - digits - 1])
      && AllDigits(t[|t| - digits..])
  {
    if digits > 0 {
      var s := NatStr(n);
      var m := Pad(s, digits + 1);
      PadDigits(s, digits + 1);
      var k := |m| - digits;
      DigitsSplit(m, k);
      var t := ToFixed(n, digits);
      assert t == m[..k] + "." + m[k..];
      assert t[..k] == m[..k] && t[k + 1..] == m[k..];
      if |s| >= digits + 1 {
        assert m == s && m[..k][0] == s[0];
      }
    }
  }

  lemma NoSpaceInFixed(n: nat, digits: nat)
    ensures forall i :: 0 <= i < |ToFixed(n, digits)| ==> ToFixed(n, digits)[i] != ' '
  {
    AllDigitsAt(NatStr(n));
    if digits > 0 {
      var m := Pad(NatStr(n), digits + 1);
      PadDigits(NatStr(n), digits + 1);
      var k := |m| - digits;
      DigitsSplit(m, k);
      AllDigitsAt(m[..k]);
      AllDigitsAt(m[k..]);
      assert Point(m, digits) == m[..k] + "." + m[k..];
    }
  }

  lemma ReadSizeAt(t: string, u: string, n: nat, decimals: nat, unit: nat)
    requires forall i :: 0 <= i < |t| ==> t[i] != ' '
    requires ReadFixed(t) == Some((n, decimals))
    requires UnitIndex(u) == Some(unit)
    ensures ReadSize(t + [' '] + u) == Some(Display(n, decimals, unit))
  {
    var s := t + [' '] + u;
    FindAfter(t, ' ', u);
    assert s[..|t|] == t && s[|t| + 1..] == u;
  }

  lemma UnitIndexOfUnits(k: nat)
    requires k < |Units|
    ensures UnitIndex(Units[k]) == Some(k)
  {
  }

  /** The text of a size whose unit lies in the given range and whose figure,
      times 10^decimals, rounds half up to `scaled`. */
  lemma ShowsAs(bytes: nat, unit: nat, decimals: nat, scaled: nat)
    requires bytes >= 1 && unit < |Units|
    requires Pow(1024, unit) <= bytes
    requires unit < |Units| - 1 ==> bytes < Pow(1024, unit + 1)
    requires decimals == if bytes >= 10 * Pow(1024, unit) || unit == 0 then 0 else 1
    requires scaled * (2 * Pow(1024, unit)) <= 2 * (bytes * Pow(10, decimals)) + Pow(1024, unit)
    requires 2 * (bytes * Pow(10, decimals)) + Pow(1024, unit) < (scaled + 1) * (2 * Pow(1024, unit))
    ensures Measure(bytes) == Display(scaled, decimals, unit)
    ensures FormatBytes(bytes) == ToFixed(scaled, decimals) + " " + Units[unit]
  {
    var den := Pow(1024, unit);
    assert Exponent(bytes) == unit by {
      if unit < |Units| - 1 {
        Log1024Unique(bytes, unit);
      } else {
        PowMonotone(1024, unit, Log1024(bytes));
      }
    }
    var num := bytes * Pow(10, decimals);
    DivUnique(2 * num + den, 2 * den, scaled);
    assert RoundHalfUp(num, den) == scaled;
  }

  lemma DivUnique(x: nat, y: nat, q: nat)
    requires y > 0 && q * y <= x < (q + 1) * y
    ensures x / y == q
  {
    var d, r := x / y, x % y;
    assert x == d * y + r && 0 <= r < y;
    if d < q {
      MulGap(d, q, y);
    } else if d > q {
      MulGap(q, d, y);
    }
  }

  lemma MulGap(a: nat, b: nat, y: nat)
    requires a < b
    ensures a * y + y <= b * y
  {
    MulAtLeast(b - a, y);
    assert (b - a) * y == b * y - a * y;
  }

  /** A figure with one decimal below ten: digit, point, digit. */
  lemma ToFixedOneDecimal(a: nat, b: nat)
    requires 1 <= a < 10 && b < 10
    ensures ToFixed(10 * a + b, 1) == [DigitChar(a), '.', DigitChar(b)]
  {
    var m := NatStr(10 * a + b);
    SplitLastDigit(a, b);
    assert m == NatStr(a) + [DigitChar(b)];
    assert m == [DigitChar(a), DigitChar(b)];
    assert Pad(m, 2) == m;
  }

  /** A size below 1024 is shown as the exact count of bytes, with no decimals. */
  lemma FormatBytesUnderKilobyte(bytes: nat)
    requires 1 <= bytes < 1024
    ensures FormatBytes(bytes) == NatStr(bytes) + " B"
  {
    assert Pow(1024, 0) == 1 && Pow(1024, 1) == 1024 && Pow(10, 0) == 1;
    ShowsAs(bytes, 0, 0, bytes);
  }

  // Sizes around the unit boundaries, as the page shows them: bytes are whole,
  // a quotient below ten gets one decimal, a tie rounds up, and a quotient
  // that rounds to 1024 stays in the smaller unit.

  lemma FormatBytes0()
    ensures FormatBytes(0) == "0 B"
  {
  }

  lemma FormatBytes1023()
    ensures FormatBytes(1023) == "1023 B"
  {
    FormatBytesUnderKilobyte(1023);
    assert NatStr(1023) == "1023";
  }

  lemma FormatBytes1024()
    ensures FormatBytes(1024) == "1.0 KB"
  {
    assert Pow(1024, 1) == 1024 && Pow(1024, 2) == 1048576 && Pow(10, 1) == 10;
    ShowsAs(1024, 1, 1, 10);
    ToFixedOneDecimal(1, 0);
  }

  lemma FormatBytes1280()
    ensures FormatBytes(1280) == "1.3 KB"
  {
    assert Pow(1024, 1) == 1024 && Pow(1024, 2) == 1048576 && Pow(10, 1) == 10;
    ShowsAs(1280, 1, 1, 13);
    ToFixedOneDecimal(1, 3);
  }

  lemma FormatBytes1536()
    ensures FormatBytes(1536) == "1.5 KB"
  {
    assert Pow(1024, 1) == 1024 && Pow(1024, 2) == 1048576 && Pow(10, 1) == 10;
    ShowsAs(1536, 1, 1, 15);
    ToFixedOneDecimal(1, 5);
  }

  lemma FormatBytes2048()
    ensures FormatBytes(2048) == "2.0 KB"
  {
    assert Pow(1024, 1) == 1024 && Pow(1024, 2) == 1048576 && Pow(10, 1) == 10;
    ShowsAs(2048, 1, 1, 20);
    ToFixedOneDecimal(2, 0);
  }

  lemma FormatBytes10240()
    ensures FormatBytes(10240) == "10 KB"
  {
    assert Pow(1024, 1) == 1024 && Pow(1024, 2) == 1048576 && Pow(10, 0) == 1;
    ShowsAs(10240, 1, 0, 10);
    assert NatStr(10) == "10";
  }

  lemma FormatBytes10752()
    ensures FormatBytes(10752) == "11 KB"
  {
    assert Pow(1024, 1) == 1024 && Pow(1024, 2) == 1048576 && Pow(10, 0) == 1;
    ShowsAs(10752, 1, 0, 11);
    assert NatStr(11) == "11";
  }

  lemma FormatBytes1048575()
    ensures FormatBytes(1048575) == "1024 KB"
  {
    assert Pow(1024, 1) == 1024 && Pow(1024, 2) == 1048576 && Pow(10, 0) == 1;
    ShowsAs(1048575, 1, 0, 1024);
    assert NatStr(1024) == "1024";
  }

  lemma FormatBytes1048576()
    ensures FormatBytes(1048576) == "1.0 MB"
  {
    assert Pow(1024, 2) == 1048576 && Pow(1024, 3) == 1073741824 && Pow(10, 1) == 10;
    ShowsAs(1048576, 2, 1, 10);
    ToFixedOneDecimal(1, 0);
  }

  /** The size text reads back as the figure, decimals and unit that Measure
      computes for the size (not as the byte count itself), and "0 B" reads
      back as zero bytes. */
  lemma FormatBytesRoundTrip(bytes: nat)
    ensures ReadSize(FormatBytes(bytes)) == Some(if bytes == 0 then Display(0, 0, 0) else Measure(bytes))
  {
    if bytes == 0 {
      ReadToFixed(0, 0);
      NoSpaceInFixed(0, 0);
      assert FormatBytes(0) == ToFixed(0, 0) + [' '] + Units[0];
      UnitIndexOfUnits(0);
      ReadSizeAt(ToFixed(0, 0), Units[0], 0, 0, 0);
    } else {
      var d := Measure(bytes);
      ReadToFixed(d.scaled, d.decimals);
      NoSpaceInFixed(d.scaled, d.decimals);
      UnitIndexOfUnits(d.unit);
      ReadSizeAt(ToFixed(d.scaled, d.decimals), Units[d.unit], d.scaled, d.decimals, d.unit);
    }
  }
}
