/** Positional numerals: big-endian digit sequences, the numbers they denote, and the
    sizes of powers.  Byte strings, Base58 strings and decimal strings all read through it. */
module Positional {
  import opened Common

  function Pow(b: nat, n: nat): nat
  {
    if n == 0 then 1 else b * Pow(b, n - 1)
  }

  /** The number denoted by digits `d`, most significant first. */
  function Value(d: seq<nat>, b: nat): nat
  {
    if d == [] then 0 else Value(d[..|d| - 1], b) * b + d[|d| - 1]
  }

  /** The digits of `v` in base `b` without leading zeros; zero has no digits. */
  function Digits(v: nat, b: nat): (d: seq<nat>)
    requires b >= 2
    ensures v == 0 <==> d == []
    ensures forall i :: 0 <= i < |d| ==> d[i] < b
    ensures d != [] ==> d[0] != 0
    decreases v
  {
    if v == 0 then [] else
      DivSmaller(v, b);
      Digits(v / b, b) + [v % b]
  }

  ghost predicate DigitsBelow(d: seq<nat>, b: nat) {
    forall i :: 0 <= i < |d| ==> d[i] < b
  }

  function LeadingZeros(d: seq<nat>): (n: nat)
    ensures n <= |d|
    ensures forall i :: 0 <= i < n ==> d[i] == 0
    ensures n < |d| ==> d[n] != 0
  {
    if d == [] || d[0] != 0 then 0 else 1 + LeadingZeros(d[1..])
  }

  function Zeros(n: nat): (z: seq<nat>)
    ensures |z| == n && forall i :: 0 <= i < n ==> z[i] == 0
  {
    if n == 0 then [] else [0] + Zeros(n - 1)
  }

  lemma DivSmaller(v: nat, b: nat)
    requires b >= 2 && v > 0
    ensures v / b < v
  {
    var q, r := v / b, v % b;
    assert v == b * q + r;
    if q >= v {
      MulMono(2, b, q);
    }
  }

  lemma MulMono(x: nat, y: nat, z: nat)
    requires x <= y
    ensures x * z <= y * z && z * x <= z * y
  {
  }

  lemma DivModSum(v: nat, b: nat)
    requires b > 0
    ensures v / b * b + v % b == v
  {
    assert v == b * (v / b) + v % b;
  }

  /** A quotient and remainder determine, and are determined by, the dividend. */
  lemma DivModUnique(v: nat, b: nat, q: nat, r: nat)
    requires 0 < b && r < b && v == q * b + r
    ensures v / b == q && v % b == r
  {
    var q', r' := v / b, v % b;
    assert v == q' * b + r';
    if q < q' {
      MulMono(q + 1, q', b);
    } else if q' < q {
      MulMono(q' + 1, q, b);
    }
  }

  lemma {:induction false} PowPositive(b: nat, n: nat)
    requires b > 0
    ensures Pow(b, n) > 0
  {
    if n > 0 {
      PowPositive(b, n - 1);
    }
  }

  lemma {:induction false} PowAdd(b: nat, m: nat, n: nat)
    ensures Pow(b, m + n) == Pow(b, m) * Pow(b, n)
  {
    if m > 0 {
      hide Pow;
      PowAdd(b, m - 1, n);
      PowStep(b, m);
      PowStep(b, m + n);
      MulGroup(b, Pow(b, m - 1), Pow(b, n));
    }
  }

  lemma PowStep(b: nat, n: nat)
    requires n > 0
    ensures Pow(b, n) == b * Pow(b, n - 1)
  {
  }

  lemma MulGroup(x: int, y: int, z: int)
    ensures x * (y * z) == x * y * z
  {
  }

  lemma {:induction false} PowMono(b: nat, m: nat, n: nat)
    requires b > 0 && m <= n
    ensures Pow(b, m) <= Pow(b, n)
  {
    if m < n {
      PowMono(b, m, n - 1);
      MulMono(1, b, Pow(b, n - 1));
    }
  }

  /** Powers of base at least two are ordered exactly as their exponents. */
  lemma PowOrder(b: nat, m: nat, n: nat)
    requires b >= 2 && Pow(b, m) < Pow(b, n)
    ensures m < n
  {
    if n <= m {
      PowMono(b, n, m);
    }
  }

  /** Inequalities between powers multiply. */
  lemma PowProduct(a: nat, m: nat, m': nat, b: nat, n: nat, n': nat)
    requires Pow(a, m) <= Pow(b, n) && Pow(a, m') <= Pow(b, n')
    ensures Pow(a, m + m') <= Pow(b, n + n')
  {
    PowAdd(a, m, m');
    PowAdd(b, n, n');
    MulMono(Pow(a, m), Pow(b, n), Pow(a, m'));
    MulMono(Pow(a, m'), Pow(b, n'), Pow(b, n));
  }

  /** Raising an inequality between powers to the k-th power keeps it. */
  lemma {:induction false} PowScale(a: nat, m: nat, b: nat, n: nat, k: nat)
    requires Pow(a, m) <= Pow(b, n)
    ensures Pow(a, m * k) <= Pow(b, n * k)
  {
    if k > 0 {
      PowScale(a, m, b, n, k - 1);
      assert m * k == m + m * (k - 1) && n * k == n + n * (k - 1);
      PowProduct(a, m, m * (k - 1), b, n, n * (k - 1));
    }
  }

  lemma ValueAppend(d: seq<nat>, last: nat, b: nat)
    ensures Value(d + [last], b) == Value(d, b) * b + last
  {
    assert (d + [last])[..|d|] == d;
  }

  lemma {:induction false} ValueConcat(x: seq<nat>, y: seq<nat>, b: nat)
    ensures Value(x + y, b) == Value(x, b) * Pow(b, |y|) + Value(y, b)
  {
    if y == [] {
      assert x + y == x;
    } else {
      hide Value, Pow;
      var y', last := y[..|y| - 1], y[|y| - 1];
      assert x + y == (x + y') + [last] && y == y' + [last];
      ValueConcat(x, y', b);
      ValueAppend(x + y', last, b);
      ValueAppend(y', last, b);
      PowStep(b, |y|);
      ShiftSum(Value(x, b), Pow(b, |y'|), Value(y', b), b);
    }
  }

  lemma ShiftSum(x: int, p: int, y: int, b: int)
    ensures (x * p + y) * b == x * (b * p) + y * b
  {
    MulGroup(x, b, p);
  }

  /** The first digit weighs the base raised to the number of digits after it. */
  lemma ValueFirst(d: seq<nat>, b: nat)
    requires d != []
    ensures Value(d, b) == d[0] * Pow(b, |d| - 1) + Value(d[1..], b)
  {
    assert d == d[..1] + d[1..];
    ValueConcat(d[..1], d[1..], b);
    assert Value(d[..1], b) == d[0] by {
      assert d[..1][..0] == [];
    }
  }

  lemma ValueCons(first: nat, d: seq<nat>, b: nat)
    ensures Value([first] + d, b) == first * Pow(b, |d|) + Value(d, b)
  {
    ValueFirst([first] + d, b);
    assert ([first] + d)[1..] == d;
  }

  lemma ValueSuffix(d: seq<nat>, j: nat, b: nat)
    requires j <= |d|
    ensures Value(d[j..], b) <= Value(d, b)
  {
    hide Value, Pow;
    assert d == d[..j] + d[j..];
    ValueConcat(d[..j], d[j..], b);
    MulMono(0, Value(d[..j], b), Pow(b, |d[j..]|));
  }

  /** Zeros in front do not count. */
  lemma ZeroPrefix(d: seq<nat>, j: nat, b: nat)
    requires j <= |d| && forall i :: 0 <= i < j ==> d[i] == 0
    ensures Value(d, b) == Value(d[j..], b)
  {
    assert d == Zeros(j) + d[j..];
    ValueZeros(j, d[j..], b);
  }

  lemma AllZero(d: seq<nat>, b: nat)
    requires forall i :: 0 <= i < |d| ==> d[i] == 0
    ensures Value(d, b) == 0
  {
    ZeroPrefix(d, |d|, b);
  }

  lemma {:induction false} ValueZeros(n: nat, d: seq<nat>, b: nat)
    ensures Value(Zeros(n) + d, b) == Value(d, b)
  {
    if n == 0 {
      assert Zeros(n) + d == d;
    } else {
      assert (Zeros(n) + d)[1..] == Zeros(n - 1) + d;
      ValueFirst(Zeros(n) + d, b);
      ValueZeros(n - 1, d, b);
    }
  }

  lemma AppendBelow(x: nat, bound: nat, b: nat, last: nat)
    requires x < bound && last < b
    ensures x * b + last < b * bound
  {
    MulMono(x + 1, bound, b);
    assert (x + 1) * b == x * b + b;
  }

  lemma {:induction false} ValueBound(d: seq<nat>, b: nat)
    requires DigitsBelow(d, b)
    ensures Value(d, b) < Pow(b, |d|)
  {
    if d != [] {
      var d' := d[..|d| - 1];
      ValueBound(d', b);
      assert |d| - 1 == |d'|;
      AppendBelow(Value(d', b), Pow(b, |d'|), b, d[|d| - 1]);
    }
  }

  /** A number with a non-zero first digit is at least the base to the remaining length. */
  lemma ValueAtLeast(d: seq<nat>, b: nat)
    requires d != [] && d[0] != 0
    ensures Value(d, b) >= Pow(b, |d| - 1)
  {
    ValueFirst(d, b);
    MulMono(1, d[0], Pow(b, |d| - 1));
  }

  lemma {:induction false} DigitsValue(v: nat, b: nat)
    requires b >= 2
    ensures Value(Digits(v, b), b) == v
    decreases v
  {
    if v > 0 {
      DivSmaller(v, b);
      DigitsValue(v / b, b);
      ValueAppend(Digits(v / b, b), v % b, b);
      DivModSum(v, b);
    }
  }

  /** Digits is the only numeral without leading zeros that denotes the number. */
  lemma {:induction false} DigitsUnique(d: seq<nat>, b: nat)
    requires b >= 2 && DigitsBelow(d, b) && (d != [] ==> d[0] != 0)
    ensures Digits(Value(d, b), b) == d
  {
    if d != [] {
      var d' := d[..|d| - 1];
      DigitsUnique(d', b);
      DivModUnique(Value(d, b), b, Value(d', b), d[|d| - 1]);
      ValueAtLeast(d, b);
      PowPositive(b, |d| - 1);
      assert d == d' + [d[|d| - 1]];
    }
  }

  /** Stripping the leading zeros of a numeral leaves the digits of its value. */
  lemma StripZeros(d: seq<nat>, b: nat)
    requires b >= 2 && DigitsBelow(d, b)
    ensures d[LeadingZeros(d)..] == Digits(Value(d, b), b)
  {
    var n := LeadingZeros(d);
    assert d == Zeros(n) + d[n..];
    ValueZeros(n, d[n..], b);
    DigitsUnique(d[n..], b);
  }

  /** A numeral is its leading zeros followed by the digits of its value. */
  lemma Normalise(d: seq<nat>, b: nat)
    requires b >= 2 && DigitsBelow(d, b)
    ensures Zeros(LeadingZeros(d)) + Digits(Value(d, b), b) == d
  {
    StripZeros(d, b);
    assert d == Zeros(LeadingZeros(d)) + d[LeadingZeros(d)..];
  }

  /** Leading zeros in front of the digits of `v` are counted back, and do not change `v`. */
  lemma Padded(n: nat, v: nat, b: nat)
    requires b >= 2
    ensures LeadingZeros(Zeros(n) + Digits(v, b)) == n
    ensures Value(Zeros(n) + Digits(v, b), b) == v
  {
    LeadingZerosOf(n, Digits(v, b));
    ValueZeros(n, Digits(v, b), b);
    DigitsValue(v, b);
  }

  lemma {:induction false} LeadingZerosIs(d: seq<nat>, n: nat)
    requires n <= |d| && (forall i :: 0 <= i < n ==> d[i] == 0) && (n < |d| ==> d[n] != 0)
    ensures LeadingZeros(d) == n
  {
    if n > 0 {
      LeadingZerosIs(d[1..], n - 1);
    }
  }

  /** The scan for leading zeros in `a[lo..hi]`. */
  method SkipZeros(a: array<byte>, lo: nat, hi: nat) returns (j: nat)
    requires lo <= hi <= a.Length
    ensures j == lo + LeadingZeros(a[lo..hi])
  {
    j := lo;
    while j < hi && a[j] == 0
      invariant lo <= j <= hi && forall i :: lo <= i < j ==> a[i] == 0
    {
      j := j + 1;
    }
    LeadingZerosIs(a[lo..hi], j - lo);
  }

  lemma {:induction false} LeadingZerosOf(n: nat, d: seq<nat>)
    requires d != [] ==> d[0] != 0
    ensures LeadingZeros(Zeros(n) + d) == n
  {
    if n == 0 {
      assert Zeros(n) + d == d;
    } else {
      LeadingZerosOf(n - 1, d);
      assert (Zeros(n) + d)[1..] == Zeros(n - 1) + d;
    }
  }

  /** The count of digits is bounded by every power above the number, and by no other. */
  lemma DigitCount(v: nat, b: nat, n: nat)
    requires b >= 2
    ensures |Digits(v, b)| <= n <==> v < Pow(b, n)
  {
    var d := Digits(v, b);
    DigitsValue(v, b);
    ValueBound(d, b);
    if |d| <= n {
      PowMono(b, |d|, n);
    } else {
      ValueAtLeast(d, b);
      PowMono(b, n, |d| - 1);
    }
  }

  // ---- Fixed-width big-endian bytes ----

  /** The low `n` bytes of `v`, most significant first. */
  function ToBytes(v: nat, n: nat): (b: seq<byte>)
    ensures |b| == n
  {
    if n == 0 then [] else ToBytes(v / 256, n - 1) + [v % 256]
  }

  lemma {:induction false} BytesValue(v: nat, n: nat)
    requires v < Pow(256, n)
    ensures Value(ToBytes(v, n), 256) == v
  {
    if n > 0 {
      BytesValue(v / 256, n - 1);
      ValueAppend(ToBytes(v / 256, n - 1), v % 256, 256);
    }
  }

  lemma LastByte(v: nat, last: byte)
    ensures (v * 256 + last) / 256 == v && (v * 256 + last) % 256 == last
  {
  }

  lemma {:induction false} ValueBytes(b: seq<byte>)
    ensures ToBytes(Value(b, 256), |b|) == b
  {
    if b != [] {
      var b', last := b[..|b| - 1], b[|b| - 1];
      ValueBytes(b');
      LastByte(Value(b', 256), last);
      assert b == b' + [last];
    }
  }

  lemma ValueOf2(b: seq<byte>)
    requires |b| == 2
    ensures Value(b, 256) == 0x100 * b[0] as nat + b[1] as nat
  {
    ValueAppend(b[..1], b[1], 256);
    ValueAppend([], b[0], 256);
    assert b == b[..1] + [b[1]] && b[..1] == [] + [b[0]];
  }

  lemma ValueOf4(b: seq<byte>)
    requires |b| == 4
    ensures Value(b, 256) == 0x1000000 * b[0] as nat + 0x10000 * b[1] as nat + 0x100 * b[2] as nat + b[3] as nat
  {
    ValueConcat(b[..2], b[2..], 256);
    ValueOf2(b[..2]);
    ValueOf2(b[2..]);
    assert b == b[..2] + b[2..] && Pow(256, 2) == 0x10000;
  }

  lemma ValueOf8(b: seq<byte>)
    requires |b| == 8
    ensures Value(b, 256) == 0x1_0000_0000 * Value(b[..4], 256) + Value(b[4..], 256)
  {
    ValueConcat(b[..4], b[4..], 256);
    assert b == b[..4] + b[4..] && Pow(256, 4) == 0x1_0000_0000;
  }
}
