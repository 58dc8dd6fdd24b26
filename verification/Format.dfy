/** Printing numbers and amounts into character buffers (src/common/format.c). */
module Format {
  import opened Common
  import opened Positional

  // ---- Numerals ----

  /** The digit characters 0-9 and a-z; the source looks them up by signed remainder in a string
      that reads the same in both directions from its middle '0'. */
  function DigitChar(d: nat): char
    requires d < 36
  {
    if d < 10 then (48 + d) as char else (87 + d) as char
  }

  function CharDigit(c: char): nat {
    if '0' <= c <= '9' then c as nat - 48 else if 'a' <= c <= 'z' then c as nat - 87 else 0
  }

  lemma DigitCharacters(d: nat)
    requires d < 36
    ensures DigitChar(d) == "0123456789abcdefghijklmnopqrstuvwxyz"[d] && CharDigit(DigitChar(d)) == d
  {
  }

  function Glyphs(d: seq<nat>): (s: string)
    requires DigitsBelow(d, 36)
    ensures |s| == |d| && forall i :: 0 <= i < |d| ==> s[i] == DigitChar(d[i])
  {
    seq(|d|, i requires 0 <= i < |d| => DigitChar(d[i]))
  }

  function GlyphDigits(s: string): (d: seq<nat>)
    ensures |d| == |s| && forall i :: 0 <= i < |s| ==> d[i] == CharDigit(s[i])
  {
    seq(|s|, i requires 0 <= i < |s| => CharDigit(s[i]))
  }

  /** The canonical numeral of `v`: no leading zeros, "0" for zero. */
  function Numeral(v: nat, base: nat): (s: string)
    requires 2 <= base <= 36
  {
    if v == 0 then "0" else Glyphs(Digits(v, base))
  }

  function SignedNumeral(v: int, base: nat): string
    requires 2 <= base <= 36
  {
    if v < 0 then "-" + Numeral(-v, base) else Numeral(v, base)
  }

  /** A numeral evaluates back to its number and has no superfluous zero in front. */
  lemma NumeralCanonical(v: nat, base: nat)
    requires 2 <= base <= 36
    ensures Value(GlyphDigits(Numeral(v, base)), base) == v
    ensures Numeral(v, base) != "" && (v > 0 ==> Numeral(v, base)[0] != '0')
  {
    hide Value;
    if v == 0 {
      AllZero(GlyphDigits("0"), base);
    } else {
      DigitsValue(v, base);
      assert GlyphDigits(Numeral(v, base)) == Digits(v, base);
    }
  }

  /** Digit counts are decided by comparison with powers of the base. */
  lemma NumeralLength(v: nat, base: nat, n: nat)
    requires 2 <= base <= 36 && n > 0
    ensures |Numeral(v, base)| <= n <==> v < Pow(base, n)
  {
    hide Pow, Digits;
    DigitCount(v, base, n);
    PowPositive(base, n);
  }

  /** The last digit of a numeral of at least two digits. */
  lemma NumeralStep(v: nat, base: nat)
    requires 2 <= base <= v && base <= 36
    ensures v / base > 0
    ensures Numeral(v, base) == Numeral(v / base, base) + [DigitChar(v % base)]
  {
    DivPositive(v, base);
  }

  lemma DivPositive(v: nat, b: nat)
    requires 0 < b <= v
    ensures v / b > 0
  {
    if v / b == 0 {
      DivModSum(v, b);
    }
  }

  lemma NumeralDigit(v: nat, base: nat)
    requires 2 <= base <= 36 && v < base
    ensures Numeral(v, base) == [DigitChar(v)]
  {
    if v > 0 {
      DivModUnique(v, base, 0, v);
      assert Digits(v, base) == [v];
    }
  }

  function Rev(s: string): (r: string)
    ensures |r| == |s| && forall i :: 0 <= i < |s| ==> r[i] == s[|s| - 1 - i]
  {
    seq(|s|, i requires 0 <= i < |s| => s[|s| - 1 - i])
  }

  lemma RevAppend(s: string, c: char)
    ensures Rev(s + [c]) == [c] + Rev(s)
  {
  }

  /** The text `s` with its terminator stands at position `at` of the buffer. */
  predicate HasText(b: seq<char>, at: nat, s: string) {
    at + |s| < |b| && b[at..at + |s|] == s && b[at + |s|] == '\0'
  }

  lemma TextPlaced(b: string, c: string, at: nat, s: string)
    requires at + |s| < |b| && b[at + |s|] == '\0' && c == b[..at] + s + b[at + |s|..]
    ensures HasText(c, at, s) && SameOutside(b, c, at, at + |s| + 1)
  {
  }

  lemma TextCopied(b: string, copied: string, s: string)
    requires |s| < |b| && copied == s + b[|s|..]
    ensures var c := copied[|s| := '\0']; HasText(c, 0, s) && SameOutside(b, c, 0, |s| + 1)
  {
  }

  /** Nothing is written left of `lo` or from `hi` on. */
  ghost predicate SameOutside(b: string, c: string, lo: nat, hi: nat) {
    |c| == |b| && forall k :: 0 <= k < |b| && (k < lo || hi <= k) ==> c[k] == b[k]
  }

  lemma OutsideTwice(a: string, b: string, c: string, lo: nat, mid: nat, from: nat, hi: nat)
    requires SameOutside(a, b, lo, mid) && SameOutside(b, c, from, hi) && lo <= from && mid <= hi
    ensures SameOutside(a, c, lo, hi)
  {
  }

  lemma NothingOutside(b: string, at: nat)
    ensures SameOutside(b, b, at, at)
  {
  }

  // ---- Reversal in place ----

  lemma ReversedAll(b: string, c: string, lo: nat, hi: nat)
    requires lo <= hi <= |b| == |c|
    requires forall k :: 0 <= k < |b| && (k < lo || hi <= k) ==> c[k] == b[k]
    requires forall k :: lo <= k < hi ==> c[k] == b[hi - 1 - (k - lo)]
    ensures c == b[..lo] + Rev(b[lo..hi]) + b[hi..]
  {
    forall k | lo <= k < hi
      ensures c[k] == Rev(b[lo..hi])[k - lo]
    {
      assert b[lo..hi][hi - lo - 1 - (k - lo)] == b[hi - 1 - (k - lo)];
    }
  }

  /** The reversal loops of `format_u64` and `itoa`: two cursors swap their way to the middle. */
  method ReverseRange(a: array<char>, lo: nat, hi: nat)
    requires lo <= hi <= a.Length
    modifies a
    ensures a[..] == old(a[..lo]) + Rev(old(a[lo..hi])) + old(a[hi..])
  {
    hide Rev;
    ghost var b := a[..];
    var i, j := lo, hi;
    while i + 1 < j
      invariant lo <= i <= j <= hi && i - lo == hi - j
      invariant forall k :: 0 <= k < lo ==> a[k] == b[k]
      invariant forall k :: hi <= k < a.Length ==> a[k] == b[k]
      invariant forall k :: i <= k < j ==> a[k] == b[k]
      invariant forall k :: lo <= k < i ==> a[k] == b[hi - 1 - (k - lo)]
      invariant forall k :: j <= k < hi ==> a[k] == b[hi - 1 - (k - lo)]
    {
      j := j - 1;
      a[i], a[j] := a[j], a[i];
      i := i + 1;
    }
    ReversedAll(b, a[..], lo, hi);
    assert b[..lo] == old(a[..lo]) && b[lo..hi] == old(a[lo..hi]) && b[hi..] == old(a[hi..]);
  }

  // ---- format_u64 ----

  /** `format_u64`.  A length of one is not enough for a digit and its terminator, but the source
      does not notice that for one-digit numbers and writes both. */
  method FormatU64(out: array<char>, outLen: nat, in_: nat) returns (ok: bool)
    requires outLen <= out.Length && (outLen == 1 && in_ <= 9 ==> out.Length > 1)
    modifies out
    ensures ok <==> outLen > 0 && (in_ <= 9 || |Numeral(in_, 10)| + 1 <= outLen)
    ensures ok ==> HasText(out[..], 0, Numeral(in_, 10))
    ensures SameOutside(old(out[..]), out[..], 0, if ok then |Numeral(in_, 10)| + 1 else outLen)
  {
    hide Numeral, Digits, Value, Rev, DigitChar, GlyphDigits;
    if outLen == 0 {
      return false;
    }
    ghost var whole := Numeral(in_, 10);
    var v, i := in_, 0;
    while v > 9
      invariant i + 1 <= outLen && (i > 0 ==> i + 1 < outLen) && (i == 0 ==> v == in_) && (in_ > 9 ==> v > 0)
      invariant whole == Numeral(v, 10) + Rev(out[..i])
      invariant forall k :: i <= k < out.Length ==> out[k] == old(out[k])
      decreases v
    {
      NumeralStep(v, 10);
      ghost var before := out[..i];
      out[i] := DigitChar(v % 10);
      assert out[..i + 1] == before + [DigitChar(v % 10)];
      RevAppend(before, DigitChar(v % 10));
      v := v / 10;
      i := i + 1;
      if i + 1 > outLen - 1 {
        NumeralCanonical(v, 10);
        return false;
      }
    }
    NumeralDigit(v, 10);
    ghost var before := out[..i];
    out[i] := DigitChar(v);
    out[i + 1] := '\0';
    assert out[0..i + 1] == before + [DigitChar(v)];
    RevAppend(before, DigitChar(v));
    ReverseRange(out, 0, i + 1);
    return true;
  }

  // ---- Signed numbers ----

  /** The digits of `v` as characters, none for zero: what a divide-until-zero loop produces. */
  function Glyphed(v: nat, base: nat): string
    requires 2 <= base <= 36
  {
    Glyphs(Digits(v, base))
  }

  function Abs(v: int): nat {
    if v < 0 then -v else v
  }

  lemma GlyphedStep(v: nat, base: nat)
    requires 2 <= base <= 36 && v > 0
    ensures Glyphed(v, base) == Glyphed(v / base, base) + [DigitChar(v % base)]
    ensures v / base < v
  {
    DivSmaller(v, base);
  }

  lemma GlyphedIs(v: nat, base: nat)
    requires 2 <= base <= 36
    ensures Glyphed(0, base) == "" && (v > 0 ==> Glyphed(v, base) == Numeral(v, base) != "")
    ensures Numeral(0, base) == "0" == [DigitChar(0)]
  {
  }

  /** Truncated division works digit by digit on the magnitude and keeps the sign; it never
      negates the dividend, so the smallest integer needs no special case. */
  lemma TruncatedStep(v: int, base: nat)
    requires base >= 2
    ensures Abs(CDiv(v, base)) == Abs(v) / base && Abs(CMod(v, base)) == Abs(v) % base
    ensures CMod(v, base) == v - CDiv(v, base) * base
    ensures if v >= 0 then CDiv(v, base) >= 0 && CMod(v, base) >= 0 else CDiv(v, base) <= 0 && CMod(v, base) <= 0
  {
    var q, r := Abs(v) / base, Abs(v) % base;
    DivModSum(Abs(v), base);
    if v < 0 {
      NegMul(q, base);
      assert CDiv(v, base) == 0 - q && CMod(v, base) == 0 - r;
      assert v == 0 - q * base - r;
    }
  }

  lemma NegMul(q: int, b: int)
    ensures (0 - q) * b == 0 - q * b
  {
  }

  predicate IsInt64(v: int) { -0x8000_0000_0000_0000 <= v < 0x8000_0000_0000_0000 }

  predicate IsInt32(v: int) { -0x8000_0000 <= v < 0x8000_0000 }

  lemma AtMost19Digits(v: nat)
    requires v <= 0x8000_0000_0000_0000
    ensures |Glyphed(v, 10)| <= 19
  {
    DigitCount(v, 10, 19);
    PowAdd(10, 10, 9);
  }

  /** The digits still to come from `num`, behind the reversed ones written, are those of `value`. */
  ghost predicate Pending(value: int, num: int, digits: string) {
    && (if value < 0 then num <= 0 else num >= 0)
    && Glyphed(Abs(value), 10) == Glyphed(Abs(num), 10) + Rev(digits)
    && |digits| + |Glyphed(Abs(num), 10)| <= 19
  }

  lemma PendingStart(value: int)
    requires IsInt64(value)
    ensures Pending(value, value, "")
  {
    AtMost19Digits(Abs(value));
  }

  lemma PendingStep(value: int, num: int, digits: string, sign: int)
    requires Pending(value, num, digits) && num != 0 && sign == if value < 0 then -1 else 1
    ensures 0 <= CMod(num, 10) * sign < 10 && |digits| < 19 && Abs(CDiv(num, 10)) < Abs(num)
    ensures Pending(value, CDiv(num, 10), digits + [(48 + CMod(num, 10) * sign) as char])
  {
    hide Glyphed, Rev, CDiv, CMod, DigitChar;
    GlyphedStep(Abs(num), 10);
    TruncatedStep(num, 10);
    SignedDigit(num, sign);
    RevAppend(digits, DigitChar(Abs(num) % 10));
  }

  lemma PendingEnd(value: int, digits: string)
    requires Pending(value, 0, digits)
    ensures SignedNumeral(value, 10) ==
            Rev(if value < 0 then digits + ['-'] else if value == 0 then digits + ['0'] else digits)
  {
    hide Glyphed, Rev, Numeral;
    GlyphedIs(Abs(value), 10);
    RevAppend(digits, '-');
    RevAppend(digits, '0');
    assert value == 0 ==> Rev(digits) == "";
  }

  /** Digits and sign in reverse, as the source collects them. */
  method CollectDigits(value: int, temp: array<char>) returns (ptr: nat)
    requires IsInt64(value) && temp.Length == 21
    modifies temp
    ensures ptr < temp.Length && SignedNumeral(value, 10) == Rev(temp[..ptr])
  {
    hide SignedNumeral, Numeral, Pending, Rev, CDiv, CMod;
    var num := value;
    ptr := 0;
    var sign := if value < 0 then -1 else 1;
    ghost var digits: string := "";
    PendingStart(value);
    while num != 0
      invariant ptr == |digits| <= 19 && temp[..ptr] == digits
      invariant Pending(value, num, digits)
      decreases Abs(num)
    {
      PendingStep(value, num, digits, sign);
      temp[ptr] := (48 + CMod(num, 10) * sign) as char;
      digits := digits + [temp[ptr]];
      ptr := ptr + 1;
      num := CDiv(num, 10);
      assert temp[..ptr] == digits;
    }
    PendingEnd(value, digits);
    if value < 0 {
      temp[ptr] := '-';
      ptr := ptr + 1;
      assert temp[..ptr] == digits + ['-'];
    } else if value == 0 {
      temp[ptr] := '0';
      ptr := ptr + 1;
      assert temp[..ptr] == digits + ['0'];
    }
  }

  method FormatI64(dst: array<char>, dstLen: nat, value: int) returns (ok: bool)
    requires dstLen <= dst.Length && IsInt64(value)
    modifies dst
    ensures ok <==> dstLen > 0 && CInt(dstLen) >= |SignedNumeral(value, 10)| + 1
    ensures ok ==> HasText(dst[..], 0, SignedNumeral(value, 10))
    ensures SameOutside(old(dst[..]), dst[..], 0, if ok then |SignedNumeral(value, 10)| + 1 else 0)
  {
    hide SignedNumeral, CInt, HasText;
    if dstLen == 0 {
      return false;
    }
    var temp := new char[21](_ => ' ');
    var ptr := CollectDigits(value, temp);
    if CInt(dstLen) < ptr + 1 {
      return false;
    }
    CIntAtMost(dstLen);
    CopyBackwards(temp, ptr, dst);
    ghost var copied := dst[..];
    dst[ptr] := '\0';
    assert dst[..] == copied[ptr := '\0'];
    TextCopied(old(dst[..]), copied, Rev(temp[..ptr]));
    return true;
  }

  lemma CIntAtMost(n: nat)
    ensures CInt(n) <= n
  {
  }

  lemma SignedDigit(num: int, sign: int)
    requires num != 0 && sign == if num < 0 then -1 else 1
    ensures 0 <= CMod(num, 10) * sign < 10
    ensures (48 + CMod(num, 10) * sign) as char == DigitChar(Abs(num) % 10)
  {
    TruncatedStep(num, 10);
  }

  method CopyBackwards(src: array<char>, n: nat, dst: array<char>)
    requires n <= src.Length && n <= dst.Length && src != dst
    modifies dst
    ensures dst[..] == Rev(src[..n]) + old(dst[n..])
  {
    var ptr, index := n, 0;
    while ptr > 0
      invariant 0 <= ptr <= n && index == n - ptr
      invariant forall k :: 0 <= k < index ==> dst[k] == src[n - 1 - k]
      invariant forall k :: index <= k < dst.Length ==> dst[k] == old(dst[k])
    {
      ptr := ptr - 1;
      dst[index] := src[ptr];
      index := index + 1;
    }
  }

  // ---- itoa ----

  /** The entry 35 + r of the source's lookup string. */
  function Glyph(r: int): char
    requires -36 < r < 36
  {
    DigitChar(Abs(r))
  }

  /** The loop of `itoa`: writes the digits of `value`, least significant first. */
  method WriteDigits(value: int, result: array<char>, at: nat, base: nat) returns (ptr: nat, tmp: int)
    requires 2 <= base <= 36 && at + |SignedNumeral(value, base)| < result.Length
    modifies result
    ensures at <= ptr <= result.Length && Rev(result[at..ptr]) == Numeral(Abs(value), base)
    ensures SameOutside(old(result[..]), result[..], at, ptr)
    ensures tmp < 0 <==> value < 0
  {
    hide Numeral, SignedNumeral, Digits, Glyphed, Glyphs, DigitChar, Rev, Pow, Value, CDiv, CMod, Glyph, Written;
    var v := value;
    tmp, ptr := value, at;
    ghost var digits: string := "";
    WrittenStart(value, base);
    while true
      invariant ptr == at + |digits| < result.Length
      invariant result[at..ptr] == digits
      invariant Written(value, v, digits, base)
      invariant SameOutside(old(result[..]), result[..], at, ptr)
      decreases Abs(v)
    {
      tmp := v;
      WrittenStep(value, v, digits, base);
      v := CDiv(v, base);
      result[ptr] := Glyph(tmp - v * base);
      digits := digits + [result[ptr]];
      ptr := ptr + 1;
      assert result[at..ptr] == digits;
      if v == 0 {
        break;
      }
    }
  }

  /** `itoa` at position `at`.  Other bases pass the source's check, which only clears the first
      character, and then divide by zero or never end. */
  method Itoa(value: int, result: array<char>, at: nat, base: nat)
    requires 2 <= base <= 36 && IsInt32(value)
    requires at + |SignedNumeral(value, base)| < result.Length
    modifies result
    ensures HasText(result[..], at, SignedNumeral(value, base))
    ensures SameOutside(old(result[..]), result[..], at, at + |SignedNumeral(value, base)| + 1)
  {
    hide Numeral, SignedNumeral, Rev, HasText;
    var ptr, tmp := WriteDigits(value, result, at, base);
    ghost var digits := result[at..ptr];
    WithSign(value, digits, base);
    if tmp < 0 {
      result[ptr] := '-';
      digits := digits + ['-'];
      ptr := ptr + 1;
    }
    result[ptr] := '\0';
    ghost var mid := result[..];
    assert SameOutside(old(result[..]), mid, at, ptr + 1);
    assert mid[at..ptr] == digits && mid[ptr] == '\0';
    ReverseRange(result, at, ptr);
    TextPlaced(mid, result[..], at, Rev(digits));
    OutsideTwice(old(result[..]), mid, result[..], at, ptr + 1, at, ptr + 1);
  }

  lemma WithSign(value: int, digits: string, base: nat)
    requires 2 <= base <= 36 && Numeral(Abs(value), base) == Rev(digits)
    ensures SignedNumeral(value, base) == Rev(if value < 0 then digits + ['-'] else digits)
  {
    RevAppend(digits, '-');
  }

  /** The digits still to come from `v`, behind the reversed ones written, are those of `value`. */
  ghost predicate Written(value: int, v: int, digits: string, base: nat)
    requires 2 <= base <= 36
  {
    && (if value < 0 then v <= 0 else v >= 0)
    && (v == 0 ==> value == 0)
    && Glyphed(Abs(value), base) == Glyphed(Abs(v), base) + Rev(digits)
    && (value == 0 ==> digits == "")
  }

  lemma WrittenStart(value: int, base: nat)
    requires 2 <= base <= 36
    ensures Written(value, value, "", base)
  {
  }

  lemma WrittenStep(value: int, v: int, digits: string, base: nat)
    requires 2 <= base <= 36 && Written(value, v, digits, base)
    ensures var q := CDiv(v, base); var r := v - q * base;
            && -36 < r < 36 && Abs(q) <= Abs(v) && (v != 0 ==> Abs(q) < Abs(v))
            && |digits| < |SignedNumeral(value, base)|
            && (q != 0 ==> Written(value, q, digits + [Glyph(r)], base))
            && (q == 0 ==> Numeral(Abs(value), base) == Rev(digits + [Glyph(r)]))
            && (value < 0 <==> v < 0)
  {
    hide Numeral, Digits, Glyphed, Glyphs, DigitChar, Rev, CDiv, CMod, Glyph;
    TruncatedStep(v, base);
    GlyphedIs(Abs(v), base);
    GlyphedIs(Abs(value), base);
    RemainderRange(v, base);
    RevAppend(digits, Glyph(v - CDiv(v, base) * base));
    if v != 0 {
      GlyphedStep(Abs(v), base);
    } else {
      assert Rev(digits) == "";
    }
  }

  lemma RemainderRange(v: int, base: nat)
    requires 2 <= base <= 36
    ensures -36 < v - CDiv(v, base) * base < 36
    ensures Glyph(v - CDiv(v, base) * base) == DigitChar(Abs(v) % base)
  {
    TruncatedStep(v, base);
  }

  // ---- Amounts ----

  /** A comma before every group of three digits, counted from the right. */
  function Grouped(s: string): string {
    if |s| <= 3 then s else Grouped(s[..|s| - 3]) + "," + s[|s| - 3..]
  }

  function TwoDigits(t: nat): (s: string)
    requires t < 100
    ensures |s| == 2
  {
    [DigitChar(t / 10), DigitChar(t % 10)]
  }

  /** The amount with two decimals: grouped hundreds, a point, two digits. */
  function AmountText(value: nat): string {
    Grouped(Numeral(value / 100, 10)) + "." + TwoDigits(value % 100)
  }

  function StripSeparators(s: string): string {
    if s == "" then ""
    else if s[0] == ',' || s[0] == '.' then StripSeparators(s[1..])
    else [s[0]] + StripSeparators(s[1..])
  }

  lemma {:induction false} StripConcat(s: string, t: string)
    ensures StripSeparators(s + t) == StripSeparators(s) + StripSeparators(t)
  {
    if s == "" {
      assert s + t == t;
    } else {
      assert (s + t)[1..] == s[1..] + t;
      StripConcat(s[1..], t);
    }
  }

  predicate NoSeparators(s: string) {
    forall i :: 0 <= i < |s| ==> s[i] != ',' && s[i] != '.'
  }

  lemma {:induction false} StripPlain(s: string)
    requires NoSeparators(s)
    ensures StripSeparators(s) == s
  {
    if s != "" {
      StripPlain(s[1..]);
      assert s == [s[0]] + s[1..];
    }
  }

  lemma StripJoined(a: string, separator: char, b: string)
    requires separator == ',' || separator == '.'
    ensures StripSeparators(a + [separator] + b) == StripSeparators(a) + StripSeparators(b)
  {
    StripConcat(a + [separator], b);
    StripConcat(a, [separator]);
    assert [separator][1..] == "";
  }

  lemma {:induction false} StripGrouped(s: string)
    requires NoSeparators(s)
    ensures StripSeparators(Grouped(s)) == s
    decreases |s|
  {
    if |s| <= 3 {
      StripPlain(s);
    } else {
      var a, b := s[..|s| - 3], s[|s| - 3..];
      StripGrouped(a);
      StripPlain(b);
      StripJoined(Grouped(a), ',', b);
      assert s == a + b;
    }
  }

  lemma {:induction false} GroupedLength(s: string)
    requires s != ""
    ensures |Grouped(s)| == |s| + (|s| - 1) / 3
    decreases |s|
  {
    if |s| > 3 {
      GroupedLength(s[..|s| - 3]);
    }
  }

  lemma NumeralPlain(v: nat)
    ensures NoSeparators(Numeral(v, 10))
  {
  }

  /** The printed amount determines the value: without its separators it is a decimal numeral of
      the value (with leading zeros below one unit). */
  lemma AmountReversible(value: nat)
    ensures Value(GlyphDigits(StripSeparators(AmountText(value))), 10) == value
  {
    hide Value, Numeral, StripSeparators, GlyphDigits, Grouped;
    var n, t := Numeral(value / 100, 10), value % 100;
    NumeralPlain(value / 100);
    StripJoined(Grouped(n), '.', TwoDigits(t));
    StripGrouped(n);
    StripPlain(TwoDigits(t));
    NumeralCanonical(value / 100, 10);
    TwoDigitsValue(n, t);
  }

  lemma TwoDigitsValue(n: string, t: nat)
    requires t < 100
    ensures Value(GlyphDigits(n + TwoDigits(t)), 10) == Value(GlyphDigits(n), 10) * 100 + t
  {
    hide Value;
    var d := GlyphDigits(n);
    assert GlyphDigits(n + TwoDigits(t)) == (d + [t / 10]) + [t % 10];
    ValueAppend(d, t / 10, 10);
    ValueAppend(d + [t / 10], t % 10, 10);
  }

  /** With n digits left of the point the text has n + (n - 1) / 3 + 3 characters. */
  lemma AmountLength(value: nat)
    ensures |AmountText(value)| == |Numeral(value / 100, 10)| + (|Numeral(value / 100, 10)| - 1) / 3 + 3
  {
    NumeralCanonical(value / 100, 10);
    GroupedLength(Numeral(value / 100, 10));
  }

  // ---- format_value ----

  /** The first `k` characters of `s`, each followed by a comma when the number of characters of
      `s` behind it is a multiple of three. */
  function Commas(s: string, k: nat): string
    requires k <= |s|
  {
    if k == 0 then ""
    else Commas(s, k - 1) + (if (|s| - k) % 3 == 0 then [s[k - 1], ','] else [s[k - 1]])
  }

  lemma {:induction false} CommasShift(s: string, k: nat)
    requires k + 3 <= |s|
    ensures Commas(s, k) == Commas(s[..|s| - 3], k)
  {
    if k > 0 {
      CommasShift(s, k - 1);
      assert (|s| - k) % 3 == (|s| - 3 - k) % 3;
    }
  }

  lemma {:induction false} CommasGroup(s: string)
    requires s != ""
    ensures Commas(s, |s|) == Grouped(s) + ","
    decreases |s|
  {
    var n := |s|;
    if n > 3 {
      CommasShift(s, n - 3);
      CommasGroup(s[..n - 3]);
      LastThree(s);
      assert s[n - 3..] == [s[n - 3], s[n - 2], s[n - 1]];
    } else {
      ShortCommas(s);
    }
  }

  lemma CommasStep(s: string, k: nat)
    requires 0 < k <= |s|
    ensures Commas(s, k) == Commas(s, k - 1) + (if (|s| - k) % 3 == 0 then [s[k - 1], ','] else [s[k - 1]])
    ensures Commas(s, 0) == ""
  {
  }

  lemma LastThree(s: string)
    requires |s| > 3
    ensures Commas(s, |s|) == Commas(s, |s| - 3) + [s[|s| - 3], s[|s| - 2], s[|s| - 1], ',']
  {
    hide Commas;
    var n := |s|;
    var a, x, y, z := Commas(s, n - 3), s[n - 3], s[n - 2], s[n - 1];
    PlainStep(s, n - 2);
    PlainStep(s, n - 1);
    FinalStep(s);
    assert Commas(s, n) == ((a + [x]) + [y]) + [z, ','];
    Appended(a, x, y, z, ',');
  }

  lemma FinalStep(s: string)
    requires s != ""
    ensures Commas(s, |s|) == Commas(s, |s| - 1) + [s[|s| - 1], ',']
  {
  }

  lemma PlainStep(s: string, k: nat)
    requires 0 < k <= |s| && (|s| - k == 1 || |s| - k == 2)
    ensures Commas(s, k) == Commas(s, k - 1) + [s[k - 1]]
  {
  }

  lemma Appended(a: string, x: char, y: char, z: char, w: char)
    ensures ((a + [x]) + [y]) + [z, w] == a + [x, y, z, w]
  {
  }

  lemma ShortCommas(s: string)
    requires 0 < |s| <= 3
    ensures Commas(s, |s|) == s + ","
  {
    hide Commas;
    NoCommas(s, |s| - 1);
    FinalStep(s);
    assert s[..|s| - 1] + [s[|s| - 1], ','] == s + ",";
  }

  lemma {:induction false} NoCommas(s: string, k: nat)
    requires k < |s| <= 3
    ensures Commas(s, k) == s[..k]
  {
    if k > 0 {
      NoCommas(s, k - 1);
      assert s[..k] == s[..k - 1] + [s[k - 1]];
    }
  }

  lemma {:induction false} CommasMonotone(s: string, k: nat)
    requires k < |s|
    ensures |Commas(s, k)| < |Commas(s, k + 1)| <= |Commas(s, |s|)|
    decreases |s| - k
  {
    if k + 1 < |s| {
      CommasMonotone(s, k + 1);
    }
  }

  /** The length of the text that starts at `at`. */
  method StrLen(b: array<char>, at: nat) returns (n: nat)
    requires exists k :: at <= k < b.Length && b[k] == '\0'
    ensures at + n < b.Length && b[at + n] == '\0' && forall k :: at <= k < at + n ==> b[k] != '\0'
  {
    n := 0;
    while b[at + n] != '\0'
      invariant at + n < b.Length && forall k :: at <= k < at + n ==> b[k] != '\0'
      invariant exists k :: at + n <= k < b.Length && b[k] == '\0'
      decreases b.Length - n
    {
      n := n + 1;
    }
  }

  lemma NumeralNotNul(v: nat)
    ensures forall i :: 0 <= i < |Numeral(v, 10)| ==> Numeral(v, 10)[i] != '\0'
  {
  }

  /** One digit, and a comma if it is due. */
  method WriteDigit(digit: char, comma: bool, out: array<char>, ghost at: nat, o: nat) returns (next: nat)
    requires at <= o && o + (if comma then 2 else 1) <= out.Length
    modifies out
    ensures next == o + if comma then 2 else 1
    ensures out[at..next] == old(out[at..o]) + if comma then [digit, ','] else [digit]
    ensures SameOutside(old(out[..]), out[..], o, next)
  {
    out[o] := digit;
    next := o + 1;
    if comma {
      out[next] := ',';
      next := next + 1;
    }
  }

  /** The first loop of `format_value`: copies the digits with their commas and takes the last
      comma back. */
  method WriteGrouped(buf: array<char>, ghost s: string, out: array<char>, at: nat) returns (o: nat)
    requires buf != out && HasText(buf[..], 0, s) && NoSeparators(s) && s != ""
    requires forall i :: 0 <= i < |s| ==> s[i] != '\0'
    requires at + |Grouped(s)| < out.Length
    modifies out
    ensures o == at + |Grouped(s)| && HasText(out[..], at, Grouped(s))
    ensures SameOutside(old(out[..]), out[..], at, o + 1)
  {
    hide Grouped, Commas, NoSeparators, SameOutside;
    NothingOutside(out[..], at);
    CommasGroup(s);
    CommasStep(s, |s|);
    var n := TextLength(buf, s);
    var c, p := 2 - n % 3, 0;
    o := at;
    ghost var text: string := "";
    while buf[p] != '\0'
      invariant 0 <= p <= n && c == (2 - n % 3 + p) % 3
      invariant text == Commas(s, p) && o == at + |text| && |text| <= |Commas(s, n)|
      invariant out[at..o] == text
      invariant SameOutside(old(out[..]), out[..], at, o)
      decreases n - p
    {
      assert buf[p] == s[p];
      CommasStep(s, p + 1);
      CommasMonotone(s, p);
      CommaDue(n, p, c);
      ghost var before, last := out[..], o;
      o := WriteDigit(buf[p], c == 1, out, at, o);
      OutsideTwice(old(out[..]), before, out[..], at, last, last, o);
      text := Commas(s, p + 1);
      c := (c + 1) % 3;
      p := p + 1;
    }
    o := o - 1;
    ghost var before := out[..];
    out[o] := '\0';
    CommaRemoved(before, out[..], at, o, Grouped(s));
    OutsideTwice(old(out[..]), before, out[..], at, o + 1, o, o + 1);
  }

  /** The comma is due when the number of digits to come is a multiple of three. */
  lemma CommaDue(n: nat, p: nat, c: nat)
    requires c == (2 - n % 3 + p) % 3
    ensures c == 1 <==> (n - (p + 1)) % 3 == 0
    ensures (c + 1) % 3 == (2 - n % 3 + (p + 1)) % 3
  {
  }

  /** The terminator takes the place of the last comma. */
  lemma CommaRemoved(b: string, c: string, at: nat, o: nat, grouped: string)
    requires at <= o < |b| && b[at..o + 1] == grouped + "," && c == b[o := '\0']
    ensures o == at + |grouped| && HasText(c, at, grouped) && SameOutside(b, c, o, o + 1)
  {
    assert |b[at..o + 1]| == |grouped| + 1;
    assert c[at..o] == b[at..o + 1][..|grouped|];
  }

  method TextLength(buf: array<char>, ghost s: string) returns (n: nat)
    requires HasText(buf[..], 0, s) && forall i :: 0 <= i < |s| ==> s[i] != '\0'
    ensures n == |s| && n < buf.Length && buf[n] == '\0' && forall k :: 0 <= k < n ==> buf[k] == s[k] && buf[k] != '\0'
  {
    assert buf[..][|s|] == '\0' && forall k :: 0 <= k < |s| ==> buf[k] == buf[..][0..|s|][k];
    n := StrLen(buf, 0);
  }

  lemma TwoDigitsNumeral(t: nat)
    requires t < 100
    ensures TwoDigits(t) == if t < 10 then "0" + Numeral(t, 10) else Numeral(t, 10)
  {
    NumeralDigit(t % 10, 10);
    NumeralDigit(t / 10, 10);
    if t >= 10 {
      NumeralStep(t, 10);
    }
  }

  lemma AtMost18Digits(v: nat)
    requires v < 0x1_0000_0000_0000_0000
    ensures |Numeral(v / 100, 10)| <= 18
  {
    NumeralLength(v / 100, 10, 18);
    PowAdd(10, 10, 8);
  }

  method FormatValue(value: nat, out: array<char>, at: nat)
    requires value < 0x1_0000_0000_0000_0000 && at + |AmountText(value)| < out.Length
    modifies out
    ensures HasText(out[..], at, AmountText(value))
    ensures SameOutside(old(out[..]), out[..], at, at + |AmountText(value)| + 1)
  {
    hide Numeral, Grouped, TwoDigits, SignedNumeral, NoSeparators;
    var tmp := value / 100;
    var buf := new char[35](_ => ' ');
    ghost var s := Numeral(tmp, 10);
    AtMost18Digits(value);
    NumeralCanonical(tmp, 10);
    NumeralNotNul(tmp);
    NumeralPlain(tmp);
    var ok := FormatU64(buf, 35, tmp);
    var o := WriteGrouped(buf, s, out, at);
    tmp := value % 100;
    ghost var mid := out[..];
    WriteCents(tmp, out, at, o, Grouped(s));
    OutsideTwice(old(out[..]), mid, out[..], at, o + 1, o, o + 4);
  }

  /** The rest of `format_value`: the point, a zero if needed, and the cents. */
  method WriteCents(tmp: nat, out: array<char>, ghost at: nat, o: nat, ghost left: string)
    requires tmp < 100 && HasText(out[..], at, left) && o == at + |left| && o + 3 < out.Length
    modifies out
    ensures HasText(out[..], at, left + "." + TwoDigits(tmp))
    ensures SameOutside(old(out[..]), out[..], o, o + 4)
  {
    hide Numeral, TwoDigits, SignedNumeral, HasText;
    ghost var a := out[..];
    EndsThere(a, at, left);
    var len := StrLen(out, o);
    var c := o + len;
    out[c] := '.';
    c := c + 1;
    if tmp < 10 {
      out[c] := '0';
      c := c + 1;
    }
    SignedIsUnsigned(tmp);
    ghost var b := out[..];
    assert b == if tmp < 10 then a[o := '.'][o + 1 := '0'] else a[o := '.'];
    Itoa(tmp, out, c, 10);
    CentsPlaced(a, b, out[..], at, left, o, tmp);
  }

  lemma EndsThere(a: string, at: nat, left: string)
    requires HasText(a, at, left)
    ensures at + |left| < |a| && a[at + |left|] == '\0'
  {
  }

  lemma SignedIsUnsigned(v: nat)
    requires v < 100
    ensures SignedNumeral(v, 10) == Numeral(v, 10)
    ensures |Numeral(v, 10)| == if v < 10 then 1 else 2
  {
    NumeralDigit(v % 10, 10);
    NumeralDigit(v / 10, 10);
    if v >= 10 {
      NumeralStep(v, 10);
    }
  }

  lemma CentsPlaced(a: string, b: string, c: string, at: nat, left: string, o: nat, tmp: nat)
    requires tmp < 100 && HasText(a, at, left) && o == at + |left| && o + 3 < |a|
    requires b == if tmp < 10 then a[o := '.'][o + 1 := '0'] else a[o := '.']
    requires var k := if tmp < 10 then o + 2 else o + 1;
             HasText(c, k, Numeral(tmp, 10)) && SameOutside(b, c, k, k + |Numeral(tmp, 10)| + 1)
    ensures HasText(c, at, left + "." + TwoDigits(tmp)) && SameOutside(a, c, o, o + 4)
  {
    hide Numeral;
    TwoDigitsNumeral(tmp);
    SignedIsUnsigned(tmp);
    var k := if tmp < 10 then o + 2 else o + 1;
    assert c[at..k] == b[at..k] == left + (if tmp < 10 then ".0" else ".");
    var text := left + "." + TwoDigits(tmp);
    assert c[at..at + |text|] == c[at..k] + c[k..k + |Numeral(tmp, 10)|];
  }
}
