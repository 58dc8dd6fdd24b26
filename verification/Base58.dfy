/** The Base58 codec: digit-by-digit radix conversion in place, against the arithmetic
    definition of draft-msporny-base58-02 (sections 3 and 4). */
module Base58 {
  import opened Common
  import opened Positional

  const MAX_DEC_INPUT_SIZE: nat := 164
  const MAX_ENC_INPUT_SIZE: nat := 120
  const TABLE_SIZE: nat := 132
  const NOT_BASE58: byte := 0xFF

  // ---- The alphabet: two tables in the source, given here by their ranges ----

  /** The character of digit `d`: '1'-'9', 'A'-'Z' without I and O, 'a'-'z' without l. */
  function Alphabet(d: nat): char
    requires d < 58
  {
    if d < 9 then (49 + d) as char
    else if d < 17 then (56 + d) as char
    else if d < 22 then (57 + d) as char
    else if d < 33 then (58 + d) as char
    else if d < 44 then (64 + d) as char
    else (65 + d) as char
  }

  /** The entry of the reverse table for character code `c`. */
  function Table(c: nat): (d: byte)
    requires c < TABLE_SIZE
    ensures d == NOT_BASE58 || d < 58
  {
    if 49 <= c <= 57 then c - 49
    else if 65 <= c <= 72 then c - 56
    else if 74 <= c <= 78 then c - 57
    else if 80 <= c <= 90 then c - 58
    else if 97 <= c <= 107 then c - 64
    else if 109 <= c <= 122 then c - 65
    else NOT_BASE58
  }

  predicate IsBase58Char(c: char) {
    (c as int) < TABLE_SIZE && Table(c as int) != NOT_BASE58
  }

  predicate AllBase58(s: string) {
    forall i :: 0 <= i < |s| ==> IsBase58Char(s[i])
  }

  /** The two tables are inverse to each other. */
  lemma AlphabetInverse(d: nat, c: char)
    ensures d < 58 ==> IsBase58Char(Alphabet(d)) && Table(Alphabet(d) as int) == d
    ensures IsBase58Char(c) ==> Table(c as int) < 58 && Alphabet(Table(c as int)) == c
  {
  }

  /** The characters in order: the digits and letters without 0, O, I and l, ascending by code. */
  lemma AlphabetOrder(d: nat, e: nat, c: char)
    ensures d < e < 58 ==> Alphabet(d) < Alphabet(e)
    ensures IsBase58Char(c) <==>
            '1' <= c <= '9' || ('A' <= c <= 'Z' && c != 'I' && c != 'O') || ('a' <= c <= 'z' && c != 'l')
  {
  }

  // ---- What the codec is for ----

  function Chars(d: seq<nat>): (s: string)
    requires DigitsBelow(d, 58)
    ensures |s| == |d| && forall i :: 0 <= i < |d| ==> s[i] == Alphabet(d[i])
  {
    seq(|d|, i requires 0 <= i < |d| => Alphabet(d[i]))
  }

  function CharDigits(s: string): (d: seq<nat>)
    requires AllBase58(s)
    ensures |d| == |s| && DigitsBelow(d, 58)
    ensures forall i :: 0 <= i < |s| ==> d[i] == Table(s[i] as int)
  {
    seq(|s|, i requires 0 <= i < |s| => Table(s[i] as int))
  }

  /** One '1' for each leading zero byte, then the base-58 digits of the number. */
  function Encode58(x: seq<byte>): string {
    Chars(Zeros(LeadingZeros(x)) + Digits(Value(x, 256), 58))
  }

  /** One zero byte for each leading '1', then the base-256 digits of the number. */
  function Decode58(s: string): (x: seq<byte>)
    requires AllBase58(s)
  {
    Zeros(LeadingZeros(CharDigits(s))) + Digits(Value(CharDigits(s), 58), 256)
  }

  lemma CharsInverse(d: seq<nat>)
    requires DigitsBelow(d, 58)
    ensures AllBase58(Chars(d))
    ensures CharDigits(Chars(d)) == d
  {
    forall i | 0 <= i < |d|
      ensures IsBase58Char(Chars(d)[i]) && Table(Chars(d)[i] as int) == d[i]
    {
      AlphabetInverse(d[i], '1');
    }
  }

  lemma DigitsInverse(s: string)
    requires AllBase58(s)
    ensures Chars(CharDigits(s)) == s
  {
    forall i | 0 <= i < |s|
      ensures Chars(CharDigits(s))[i] == s[i]
    {
      AlphabetInverse(0, s[i]);
    }
  }

  /** Decoding an encoding gives the bytes back, leading zeros included. */
  lemma DecodeEncode(x: seq<byte>)
    ensures AllBase58(Encode58(x))
    ensures Decode58(Encode58(x)) == x
  {
    var v, z := Value(x, 256), LeadingZeros(x);
    CharsInverse(Zeros(z) + Digits(v, 58));
    Padded(z, v, 58);
    Normalise(x, 256);
  }

  /** Encoding a decoding gives the characters back, leading '1's included. */
  lemma EncodeDecode(s: string)
    requires AllBase58(s)
    ensures Encode58(Decode58(s)) == s
  {
    var e := CharDigits(s);
    Padded(LeadingZeros(e), Value(e, 58), 256);
    Normalise(e, 58);
    DigitsInverse(s);
  }

  // ---- Sizes ----

  lemma Pow256To58()
    ensures Pow(256, 8) <= Pow(58, 11)
    ensures forall r: nat :: r < 8 ==> Pow(256, r) <= Pow(58, (11 * r + 7) / 8)
  {
  }

  lemma EstimateCovers(q: nat, r: nat)
    requires r < 8
    ensures 11 * q + (11 * r + 7) / 8 <= 138 * (8 * q + r) / 100 + 1
  {
  }

  /** The estimate 138/100 leaves enough base-58 digits for every number of bytes. */
  lemma EncoderRoom(n: nat)
    ensures Pow(256, n) <= Pow(58, 138 * n / 100 + 1)
  {
    hide Pow;
    var q, r := n / 8, n % 8;
    Pow256To58();
    PowScale(256, 8, 58, 11, q);
    var e := (11 * r + 7) / 8;
    PowProduct(256, 8 * q, r, 58, 11 * q, e);
    EstimateCovers(q, r);
    PowMono(58, 11 * q + e, 138 * n / 100 + 1);
  }

  /** What the encoder returns for `x` when the output buffer is large enough. */
  function Encoded(x: seq<byte>): Option<string> {
    if |x| > MAX_ENC_INPUT_SIZE then None else Some(Encode58(x))
  }

  /** What the decoder returns for `s` when the output buffer is large enough. */
  function Decoded(s: string): Option<seq<byte>> {
    if |s| > MAX_DEC_INPUT_SIZE || |s| < 2 || !AllBase58(s) then None else Some(Decode58(s))
  }

  lemma EncodedCases(x: seq<byte>)
    ensures Encoded(x) == if |x| > MAX_ENC_INPUT_SIZE then None else Some(Encode58(x))
  {
  }

  lemma DecodedCases(s: string)
    ensures Decoded(s).Some? <==> 2 <= |s| <= MAX_DEC_INPUT_SIZE && AllBase58(s)
    ensures Decoded(s).Some? ==> Decoded(s).value == Decode58(s)
  {
  }

  /** Decoding inverts encoding, except on the inputs whose encoding is shorter than the two
      characters the decoder insists on: the empty input and a single byte below 58. */
  lemma RoundTripBytes(x: seq<byte>)
    requires |x| <= MAX_ENC_INPUT_SIZE
    ensures Decoded(Encoded(x).value) == Some(x) <==> |x| >= 2 || (|x| == 1 && x[0] >= 58)
    ensures Decoded(Encoded(x).value) != Some(x) ==> Decoded(Encoded(x).value) == None
  {
    DecodeEncode(x);
    EncodedFitsDecoder(x);
    EncodedTooShort(x);
  }

  lemma EncodedTooShort(x: seq<byte>)
    ensures |Encode58(x)| < 2 <==> |x| == 0 || (|x| == 1 && x[0] < 58)
  {
    hide Value, Pow, Digits;
    var z := LeadingZeros(x);
    Normalise(x, 256);
    DigitCount(Value(x, 256), 58, 0);
    DigitCount(Value(x, 256), 58, 1);
    DigitCount(Value(x, 256), 256, 0);
    DigitCount(Value(x, 256), 256, 1);
    SmallPowers();
    if |x| == 1 {
      ValueCons(x[0], [], 256);
      assert x == [x[0]] + [];
    }
  }

  lemma SmallPowers()
    ensures Pow(58, 0) == Pow(256, 0) == 1 && Pow(58, 1) == 58 && Pow(256, 1) == 256
    ensures Value([], 256) == 0
  {
  }

  /** Encoding inverts decoding exactly when the decoded bytes are within the encoder's limit. */
  lemma RoundTripChars(s: string)
    requires Decoded(s).Some?
    ensures Encoded(Decoded(s).value) == Some(s) <==> |Decode58(s)| <= MAX_ENC_INPUT_SIZE
  {
    EncodeDecode(s);
  }

  lemma PowSteps()
    ensures Pow(58, 10) == 430804206899405824 && Pow(58, 20) == Pow(58, 10) * Pow(58, 10)
    ensures Pow(256, 10) == 1208925819614629174706176 && Pow(256, 20) == Pow(256, 10) * Pow(256, 10)
  {
    PowAdd(58, 10, 10);
    PowAdd(256, 10, 10);
  }

  lemma LongestInput()
    ensures Pow(256, 120) <= Pow(58, 164)
  {
    hide Pow;
    PowSteps();
    SmallPowers();
    PowAdd(58, 20, 20);
    PowAdd(58, 40, 1);
    PowAdd(256, 20, 10);
    PowScale(256, 30, 58, 41, 4);
  }

  lemma {:induction false} DigitsPerByte(m: nat)
    requires m <= 120
    ensures Pow(256, m) <= Pow(58, m + 44)
    decreases 120 - m
  {
    if m == 120 {
      LongestInput();
    } else {
      DigitsPerByte(m + 1);
      assert 256 * Pow(256, m) <= 58 * Pow(58, m + 44);
    }
  }

  /** Whatever the encoder accepts encodes to at most the length the decoder accepts. */
  lemma EncodedFitsDecoder(x: seq<byte>)
    requires |x| <= MAX_ENC_INPUT_SIZE
    ensures |Encode58(x)| <= MAX_DEC_INPUT_SIZE
  {
    var z := LeadingZeros(x);
    Normalise(x, 256);
    var v := Value(x, 256);
    DigitCount(v, 256, |x| - z);
    DigitsPerByte(|x| - z);
    DigitCount(v, 58, |x| - z + 44);
  }

  lemma VersionByteRange()
    ensures Pow(58, 33) <= 0x28 * Pow(256, 24) && 0x4A * Pow(256, 24) <= Pow(58, 34)
  {
    PowSteps();
    PowAdd(58, 20, 10);
    PowAdd(58, 30, 3);
    PowAdd(58, 30, 4);
    PowAdd(256, 20, 4);
  }

  /** Every 25-byte address with a Hathor version byte is exactly 34 characters long. */
  lemma AddressLength(x: seq<byte>)
    requires |x| == 25 && (x[0] == 0x28 || x[0] == 0x49)
    ensures |Encode58(x)| == 34
  {
    hide *;
    VersionByteRange();
    LengthFromFirstByte(x, 24, 0x28, 0x49, 33);
  }

  lemma FirstByteRange(x: seq<byte>, k: nat, lo: nat, hi: nat)
    requires |x| == k + 1 && lo <= x[0] <= hi
    ensures lo * Pow(256, k) <= Value(x, 256) < (hi + 1) * Pow(256, k)
  {
    hide Value, Pow;
    var p, first: nat := Pow(256, k), x[0];
    ValueFirst(x, 256);
    ValueBound(x[1..], 256);
    MulMono(lo, first, p);
    MulMono(first + 1, hi + 1, p);
    Distribute(first, p);
  }

  lemma Distribute(x: nat, p: nat)
    ensures (x + 1) * p == x * p + p
  {
  }

  /** A first byte between `lo` and `hi` pins the encoded length down between two powers of 58. */
  lemma LengthFromFirstByte(x: seq<byte>, k: nat, lo: nat, hi: nat, m: nat)
    requires |x| == k + 1 && 0 < lo <= x[0] <= hi
    requires Pow(58, m) <= lo * Pow(256, k) && (hi + 1) * Pow(256, k) <= Pow(58, m + 1)
    ensures |Encode58(x)| == m + 1
  {
    FirstByteRange(x, k, lo, hi);
    DigitCount(Value(x, 256), 58, m);
    DigitCount(Value(x, 256), 58, m + 1);
    assert LeadingZeros(x) == 0;
  }

  // ---- base58_encode ----

  // A pending carry is written as one oversized digit in front of the finished ones, so that
  // `Value([carry] + digits, 58)` is the number they stand for together.

  lemma SplitDigit(t: nat, n: seq<nat>, b: nat)
    requires b > 0
    ensures Value([t / b] + ([t % b] + n), b) == Value([t] + n, b)
  {
    var p := Pow(b, |n|);
    ValueCons(t, n, b);
    ValueCons(t % b, n, b);
    ValueCons(t / b, [t % b] + n, b);
    DivModSum(t, b);
    SplitDigitArith(t / b, t % b, b, p);
  }

  lemma SplitDigitArith(q: nat, r: nat, b: nat, p: nat)
    ensures q * (b * p) + r * p == (q * b + r) * p
  {
  }

  /** One digit of multiply-by-256-and-add: the finished suffix and its carry stay exact. */
  lemma MulAddStep(n: seq<nat>, old_: seq<nat>, d: nat, carry: nat, a: nat)
    requires |n| == |old_|
    requires Value([carry] + n, 58) == Value(old_, 58) * 256 + a
    ensures var t := carry + 256 * d;
            Value([t / 58] + ([t % 58] + n), 58) == Value([d] + old_, 58) * 256 + a
  {
    var t := carry + 256 * d;
    SplitDigit(t, n, 58);
    ValueCons(t, n, 58);
    ValueCons(carry, n, 58);
    ValueCons(d, old_, 58);
    AddedDigit(carry, d, Pow(58, |n|));
  }

  lemma AddedDigit(carry: nat, d: nat, p: nat)
    ensures (carry + 256 * d) * p == carry * p + 256 * (d * p)
  {
  }

  /** A carry left after the last `|n|` digits means the number needs more than `|n|` digits. */
  lemma CarryMeansRoom(n: seq<nat>, old_: seq<nat>, j: nat, carry: nat, a: nat, k: nat)
    requires j <= |old_| && carry > 0 && a < 256
    requires Value([carry] + n, 58) == Value(old_[j..], 58) * 256 + a
    requires Value(old_, 58) < Pow(256, k)
    ensures |n| <= 138 * (k + 1) / 100
  {
    ValueSuffix(old_, j, 58);
    ValueAtLeast([carry] + n, 58);
    PowerFits(|n|, Value(old_, 58), a, k);
  }

  lemma PowerFits(m: nat, v: nat, a: nat, k: nat)
    requires Pow(58, m) <= v * 256 + a && a < 256 && v < Pow(256, k)
    ensures m <= 138 * (k + 1) / 100
  {
    var e := 138 * (k + 1) / 100 + 1;
    EncoderRoom(k + 1);
    assert Pow(256, k + 1) == 256 * Pow(256, k);
    PowOrder(58, m, e);
  }

  /** The encoder's inner loop: multiplies the digits in `buffer[..size]` by 256 and adds `a`,
      stopping at the first zero carry left of the digits in use. */
  method MultiplyAdd(buffer: array<byte>, size: nat, stopAt: nat, a: byte, ghost k: nat)
    returns (j: nat)
    requires 1 <= stopAt < size <= buffer.Length
    requires DigitsBelow(buffer[..size], 58) && Value(buffer[..size], 58) < Pow(256, k)
    requires forall i :: 0 <= i < stopAt ==> buffer[i] == 0
    requires size - 1 - 138 * k / 100 <= stopAt && 138 * (k + 1) / 100 <= size - 1
    modifies buffer
    ensures DigitsBelow(buffer[..size], 58)
    ensures Value(buffer[..size], 58) == old(Value(buffer[..size], 58)) * 256 + a
    ensures j < size && forall i :: 0 <= i < j ==> buffer[i] == 0
    ensures size - 1 - 138 * (k + 1) / 100 <= j
  {
    hide Carried, Value, Pow;
    ghost var d: seq<nat>, n: seq<nat>, m := buffer[..size], [], size;
    CarriedStart(d, a);
    var carry: nat := a;
    j := size - 1;
    while true
      invariant 0 <= j < size && m == j + 1 && carry <= 255
      invariant buffer[..size] == d[..m] + n
      invariant Carried(d, n, m, carry, a)
      invariant size - 1 - 138 * (k + 1) / 100 <= j
      decreases j
    {
      var digit: nat := buffer[j];
      n := CarriedStep(d, n, j, digit, carry, a, k);
      m := j;
      carry := carry + 256 * digit;
      buffer[j] := carry % 58;
      carry := carry / 58;
      if j <= stopAt - 1 && carry == 0 {
        LeadingDigitsUntouched(buffer[..size], d, n, m, carry, a);
        break;
      }
      j := j - 1;
    }
  }

  /** The digits of `d` from `m` on are finished as `n`, with `carry` pending in front of them. */
  ghost predicate Carried(d: seq<nat>, n: seq<nat>, m: nat, carry: nat, a: nat) {
    && m <= |d| && |n| == |d| - m && DigitsBelow(n, 58)
    && Value([carry] + n, 58) == Value(d[m..], 58) * 256 + a
  }

  lemma CarriedStart(d: seq<nat>, a: nat)
    ensures Carried(d, [], |d|, a, a)
  {
    assert d[|d|..] == [];
    ValueCons(a, [], 58);
  }

  lemma CarriedStep(d: seq<nat>, n: seq<nat>, j: nat, digit: nat, carry: nat, a: nat, k: nat)
    returns (n': seq<nat>)
    requires Carried(d, n, j + 1, carry, a) && d[j] == digit
    requires Value(d, 58) < Pow(256, k) && a < 256
    ensures var t := carry + 256 * digit;
            && n' == [t % 58] + n && Carried(d, n', j, t / 58, a)
            && (d[..j + 1] + n)[j := t % 58] == d[..j] + n'
            && (t / 58 > 0 ==> |n'| <= 138 * (k + 1) / 100)
  {
    var t := carry + 256 * digit;
    n' := [t % 58] + n;
    MulAddStep(n, d[j + 1..], digit, carry, a);
    assert d[j..] == [d[j]] + d[j + 1..];
    assert (d[..j + 1] + n)[j := t % 58] == d[..j] + n';
    if t / 58 > 0 {
      CarryMeansRoom(n', d, j, t / 58, a, k);
    }
  }

  lemma LeadingDigitsUntouched(b: seq<nat>, d: seq<nat>, n: seq<nat>, j: nat, carry: nat, a: nat)
    requires Carried(d, n, j, carry, a) && carry == 0 && b == d[..j] + n
    requires DigitsBelow(d, 58) && forall i :: 0 <= i < j ==> d[i] == 0
    ensures Value(b, 58) == Value(d, 58) * 256 + a
    ensures DigitsBelow(b, 58) && forall i :: 0 <= i < j ==> b[i] == 0
  {
    ZeroPrefix(b, j, 58);
    ZeroPrefix(d, j, 58);
    ZeroPrefix([0] + n, 1, 58);
    assert b[j..] == n == ([0] + n)[1..];
  }

  /** The encoder's outer loop: reads the bytes of `x` from `start` on into `buffer[..size]`. */
  method ConvertBytes(x: array<byte>, start: nat, inLen: nat, buffer: array<byte>, size: nat)
    requires start <= inLen <= x.Length && buffer != x
    requires size == 138 * (inLen - start) / 100 + 1 <= buffer.Length
    requires forall i :: 0 <= i < size ==> buffer[i] == 0
    modifies buffer
    ensures DigitsBelow(buffer[..size], 58)
    ensures Value(buffer[..size], 58) == Value(x[start..inLen], 256)
  {
    hide Value, Pow;
    var stopAt := size - 1;
    var startAt := start;
    AllZero(buffer[..size], 58);
    AllZero(x[start..start], 256);
    while startAt < inLen
      invariant start <= startAt <= inLen
      invariant DigitsBelow(buffer[..size], 58)
      invariant Value(buffer[..size], 58) == Value(x[start..startAt], 256)
      invariant size - 1 - 138 * (startAt - start) / 100 <= stopAt < size
      invariant forall i :: 0 <= i < stopAt ==> buffer[i] == 0
    {
      ValueBound(x[start..startAt], 256);
      ValueAppend(x[start..startAt], x[startAt], 256);
      assert x[start..startAt] + [x[startAt]] == x[start..startAt + 1];
      stopAt := MultiplyAdd(buffer, size, stopAt, x[startAt], startAt - start);
      startAt := startAt + 1;
    }
  }

  /** Writes `zeros` ones and then the characters of the digits `digits[from..to]`. */
  method WriteChars(digits: array<byte>, from: nat, to: nat, out: array<char>, zeros: nat) returns (i: nat)
    requires from <= to <= digits.Length && zeros + to - from <= out.Length
    requires DigitsBelow(digits[from..to], 58)
    modifies out
    ensures i == zeros + to - from
    ensures out[..] == Chars(Zeros(zeros) + digits[from..to]) + old(out[i..])
  {
    hide Zeros, Chars, Alphabet;
    forall k | 0 <= k < zeros {
      out[k] := Alphabet(0);
    }
    i := zeros;
    var j := from;
    ghost var d := Zeros(zeros) + digits[from..to];
    while j < to
      invariant from <= j <= to && i == zeros + j - from
      invariant forall k :: 0 <= k < i ==> out[k] == Alphabet(d[k])
      invariant forall k :: i <= k < out.Length ==> out[k] == old(out[k])
    {
      assert digits[from..to][j - from] == d[i] == digits[j];
      out[i] := Alphabet(digits[j]);
      i, j := i + 1, j + 1;
    }
  }

  lemma EncodeResult(x: seq<byte>, z: nat, buf: seq<nat>, j: nat)
    requires z == LeadingZeros(x) && j == LeadingZeros(buf)
    requires DigitsBelow(buf, 58) && Value(buf, 58) == Value(x[z..], 256)
    ensures DigitsBelow(buf[j..], 58) && Encode58(x) == Chars(Zeros(z) + buf[j..])
  {
    StripZeros(buf, 58);
    ZeroPrefix(x, z, 256);
  }

  method Base58Encode(in_: array<byte>, inLen: nat, out: array<char>, outLen: nat) returns (r: int)
    requires inLen <= in_.Length && outLen <= out.Length
    modifies out
    ensures r == -1 <==> Encoded(in_[..inLen]).None? || |Encoded(in_[..inLen]).value| > outLen
    ensures r == -1 ==> out[..] == old(out[..])
    ensures r != -1 ==> var s := Encoded(in_[..inLen]).value; r == |s| && out[..] == s + old(out[|s|..])
  {
    hide *;
    EncodedCases(in_[..inLen]);
    if inLen > MAX_ENC_INPUT_SIZE {
      return -1;
    }
    var buffer := new byte[MAX_ENC_INPUT_SIZE * 138 / 100 + 1](_ => 0);
    var zeroCount := SkipZeros(in_, 0, inLen);
    var outputSize := (inLen - zeroCount) * 138 / 100 + 1;
    ConvertBytes(in_, zeroCount, inLen, buffer, outputSize);
    var j := SkipZeros(buffer, 0, outputSize);
    EncodeResult(in_[..inLen], zeroCount, buffer[..outputSize], j);
    assert buffer[j..outputSize] == buffer[..outputSize][j..];
    if outLen < zeroCount + outputSize - j {
      return -1;
    }
    r := WriteChars(buffer, j, outputSize, out, zeroCount);
  }

  // ---- base58_decode ----

  /** `n` is the quotient of the digits `d` by 256, digit for digit, and `rem` the remainder. */
  ghost predicate Divided(d: seq<nat>, n: seq<nat>, rem: nat) {
    && |n| == |d| && DigitsBelow(n, 58) && (n != [] ==> n[0] == 0)
    && rem < 256 && Value(d, 58) == Value(n, 58) * 256 + rem
    && (d == [] ==> rem == 0)
  }

  lemma DividedStart()
    ensures Divided([], [], 0)
  {
  }

  lemma DividedStep(d: seq<nat>, n: seq<nat>, rem: nat, digit: nat)
    requires Divided(d, n, rem) && digit < 58
    ensures var t := rem * 58 + digit; t / 256 < 58 && Divided(d + [digit], n + [t / 256], t % 256)
  {
    var t := rem * 58 + digit;
    ValueAppend(d, digit, 58);
    ValueAppend(n, t / 256, 58);
  }

  /** The first `k` digits have been divided, and `rem` is what they leave. */
  ghost predicate InPass(d: seq<nat>, t: seq<nat>, k: nat, rem: nat) {
    k <= |d| == |t| && DigitsBelow(d, 58) && t[k..] == d[k..] && Divided(d[..k], t[..k], rem)
  }

  lemma PassStart(d: seq<nat>)
    requires DigitsBelow(d, 58)
    ensures InPass(d, d, 0, 0)
  {
    DividedStart();
  }

  lemma PassStep(d: seq<nat>, t: seq<nat>, k: nat, rem: nat)
    requires InPass(d, t, k, rem) && k < |d|
    ensures t[k] < 58
    ensures var x := rem * 58 + t[k]; x / 256 < 58 && InPass(d, t[k := x / 256], k + 1, x % 256)
  {
    hide Divided;
    assert t[k] == t[k..][0] == d[k..][0] == d[k];
    BelowAt(d, k, 58);
    var x := rem * 58 + t[k];
    DividedStep(d[..k], t[..k], rem, d[k]);
    assert d[..k + 1] == d[..k] + [d[k]];
    assert t[k := x / 256][..k + 1] == t[..k] + [x / 256];
    assert t[k := x / 256][k + 1..] == t[k..][1..] == d[k..][1..] == d[k + 1..];
  }

  lemma PassEnd(d: seq<nat>, t: seq<nat>, rem: nat)
    requires InPass(d, t, |d|, rem)
    ensures Divided(d, t, rem)
  {
    hide Divided;
    assert d[..|d|] == d && t[..|d|] == t;
  }

  /** One pass of the decoder's inner loop: long division of `tmp[start..inLen]` by 256. */
  method DivideBy256(tmp: array<byte>, start: nat, inLen: nat) returns (remainder: nat)
    requires start < inLen <= tmp.Length && DigitsBelow(tmp[start..inLen], 58)
    modifies tmp
    ensures Divided(old(tmp[start..inLen]), tmp[start..inLen], remainder)
  {
    hide *;
    remainder := 0;
    var divLoop := start;
    ghost var d: seq<nat> := tmp[start..inLen];
    PassStart(d);
    while divLoop < inLen
      invariant start <= divLoop <= inLen && InPass(d, tmp[start..inLen], divLoop - start, remainder)
    {
      ghost var before: seq<nat> := tmp[start..inLen];
      PassStep(d, before, divLoop - start, remainder);
      var digit := tmp[divLoop];
      var tmpDiv := remainder * 58 + digit;
      tmp[divLoop] := tmpDiv / 256;
      remainder := tmpDiv % 256;
      assert tmp[start..inLen] == before[divLoop - start := tmpDiv / 256];
      divLoop := divLoop + 1;
    }
    PassEnd(d, tmp[start..inLen], remainder);
  }

  lemma BelowAt(d: seq<nat>, i: nat, b: nat)
    requires DigitsBelow(d, b) && i < |d|
    ensures d[i] < b
  {
  }

  /** What is left of the dividend, written as one oversized digit in front of the bytes emitted. */
  ghost predicate Emitted(total: nat, rest: seq<nat>, bytes: seq<nat>) {
    Value([Value(rest, 58)] + bytes, 256) == total
  }

  lemma EmittedStart(rest: seq<nat>)
    ensures Emitted(Value(rest, 58), rest, [])
  {
    ValueCons(Value(rest, 58), [], 256);
  }

  lemma EmittedStep(total: nat, rest: seq<nat>, bytes: seq<nat>, quotient: seq<nat>, rem: nat)
    requires Emitted(total, rest, bytes) && rest != [] && Divided(rest, quotient, rem)
    ensures quotient[0] == 0 && Emitted(total, quotient[1..], [rem] + bytes) && DigitsBelow(quotient[1..], 58)
  {
    SplitDigit(Value(rest, 58), bytes, 256);
    ZeroPrefix(quotient, 1, 58);
  }

  lemma EmittedAll(total: nat, bytes: seq<nat>)
    requires Emitted(total, [], bytes)
    ensures Value(bytes, 256) == total
  {
    ZeroPrefix([0] + bytes, 1, 256);
    assert ([0] + bytes)[1..] == bytes;
  }

  /** The decoder's outer loop: one division pass for each byte of the result. */
  method DivideAway(tmp: array<byte>, zeroCount: nat, inLen: nat, buffer: array<byte>) returns (j: nat)
    requires zeroCount <= inLen <= tmp.Length && inLen <= buffer.Length && tmp != buffer
    requires DigitsBelow(tmp[zeroCount..inLen], 58)
    modifies tmp, buffer
    ensures j == zeroCount
    ensures Value(buffer[j..inLen], 256) == old(Value(tmp[zeroCount..inLen], 58))
    ensures forall i :: 0 <= i < zeroCount ==> buffer[i] == old(buffer[i])
  {
    hide *;
    ghost var total := Value(tmp[zeroCount..inLen], 58);
    EmittedStart(tmp[zeroCount..inLen]);
    j := inLen;
    var startAt := zeroCount;
    ghost var bytes: seq<nat> := [];
    while startAt < inLen
      invariant zeroCount <= startAt <= inLen && j == inLen - (startAt - zeroCount)
      invariant DigitsBelow(tmp[startAt..inLen], 58)
      invariant buffer[j..inLen] == bytes && Emitted(total, tmp[startAt..inLen], bytes)
      invariant forall i :: 0 <= i < zeroCount ==> buffer[i] == old(buffer[i])
    {
      ghost var rest: seq<nat> := tmp[startAt..inLen];
      var remainder := DivideBy256(tmp, startAt, inLen);
      EmittedStep(total, rest, bytes, tmp[startAt..inLen], remainder);
      assert tmp[startAt..inLen][1..] == tmp[startAt + 1..inLen];
      if tmp[startAt] == 0 {
        startAt := startAt + 1;
      }
      j := j - 1;
      DividedRange(rest, tmp[startAt - 1..inLen], remainder);
      buffer[j] := remainder;
      bytes := [remainder] + bytes;
    }
    assert tmp[startAt..inLen] == [];
    EmittedAll(total, bytes);
  }

  lemma AllBelow(b: seq<byte>)
    ensures DigitsBelow(b, 256)
  {
  }

  lemma SuffixBelow(d: seq<nat>, k: nat, b: nat)
    requires DigitsBelow(d, b) && k <= |d|
    ensures DigitsBelow(d[k..], b)
  {
  }

  lemma DividedRange(rest: seq<nat>, quotient: seq<nat>, rem: nat)
    requires Divided(rest, quotient, rem)
    ensures rem < 256
  {
  }

  /** The lookup loop: true, with the digits in `tmp`, unless a character is not Base58. */
  method LookUp(in_: array<char>, inLen: nat, tmp: array<byte>) returns (ok: bool)
    requires inLen <= in_.Length && inLen <= tmp.Length
    modifies tmp
    ensures ok == AllBase58(in_[..inLen])
    ensures ok ==> tmp[..inLen] == CharDigits(in_[..inLen])
  {
    hide Table;
    var i := 0;
    while i < inLen
      invariant i <= inLen
      invariant forall k :: 0 <= k < i ==> IsBase58Char(in_[k]) && tmp[k] == Table(in_[k] as int)
    {
      if in_[i] as int >= TABLE_SIZE {
        return false;
      }
      tmp[i] := Table(in_[i] as int);
      if tmp[i] == NOT_BASE58 {
        assert !IsBase58Char(in_[..inLen][i]);
        return false;
      }
      i := i + 1;
    }
    return true;
  }

  lemma CIntBelow(n: nat)
    ensures CInt(n) <= n
  {
  }

  /** The zero bytes in front of the result are already in the buffer left of position `j`. */
  lemma DecodeResult(s: string, digits: seq<nat>, z: nat, b: seq<nat>, j: nat)
    requires AllBase58(s) && digits == CharDigits(s) && z == LeadingZeros(digits) <= |b|
    requires (forall i :: 0 <= i < z ==> b[i] == 0) && j == z + LeadingZeros(b[z..])
    requires DigitsBelow(b, 256) && Value(b[z..], 256) == Value(digits[z..], 58)
    ensures Decode58(s) == b[j - z..]
  {
    hide Value, Pow, Digits, LeadingZeros, Zeros, CharDigits;
    StripZeros(b[z..], 256);
    ZeroPrefix(digits, z, 58);
    assert b[z..][j - z..] == b[j..];
    forall i | z <= i < j
      ensures b[i] == 0
    {
      assert b[i] == b[z..][i - z];
    }
    assert b[j - z..] == Zeros(z) + b[j..];
  }

  method Base58Decode(in_: array<char>, inLen: nat, out: array<byte>, outLen: nat) returns (r: int)
    requires inLen <= in_.Length && outLen <= out.Length
    modifies out
    ensures r == -1 <==> Decoded(in_[..inLen]).None? || |Decoded(in_[..inLen]).value| > CInt(outLen)
    ensures r == -1 ==> out[..] == old(out[..])
    ensures r != -1 ==> var x := Decoded(in_[..inLen]).value; r == |x| && out[..] == x + old(out[|x|..])
  {
    hide *;
    DecodedCases(in_[..inLen]);
    if inLen > MAX_DEC_INPUT_SIZE || inLen < 2 {
      return -1;
    }
    var tmp := new byte[MAX_DEC_INPUT_SIZE](_ => 0);
    var buffer := new byte[MAX_DEC_INPUT_SIZE](_ => 0);
    ghost var s := in_[..inLen];
    var ok := LookUp(in_, inLen, tmp);
    if !ok {
      return -1;
    }
    ghost var digits: seq<nat> := CharDigits(s);
    var zeroCount := SkipZeros(tmp, 0, inLen);
    assert tmp[0..inLen] == digits;
    SuffixBelow(digits, zeroCount, 58);
    assert tmp[zeroCount..inLen] == digits[zeroCount..];
    var j := DivideAway(tmp, zeroCount, inLen, buffer);
    j := SkipZeros(buffer, zeroCount, inLen);
    assert buffer[zeroCount..inLen] == buffer[..inLen][zeroCount..];
    AllBelow(buffer[..inLen]);
    DecodeResult(s, digits, zeroCount, buffer[..inLen], j);
    ghost var result := buffer[j - zeroCount..inLen];
    assert Decode58(s) == buffer[..inLen][j - zeroCount..] == result;
    assert in_[..inLen] == s;
    CIntBelow(outLen);
    var length := inLen - (j - zeroCount);
    if CInt(outLen) < length {
      return -1;
    }
    forall i | 0 <= i < length {
      out[i] := buffer[j - zeroCount + i];
    }
    r := length;
    assert in_[..inLen] == s;
    assert out[..length] == result;
    assert out[..] == out[..length] + out[length..] && out[length..] == old(out[length..]);
  }
}
