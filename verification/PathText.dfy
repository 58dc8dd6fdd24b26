/** Printing BIP32 paths (src/common/bip32.c, bip32_path_format) and the client's parser of such
    texts (tests/app_client/utils.py, bip32_path_from_string). */
module PathText {
  import opened Common
  import opened Positional
  import opened Format
  import opened Bip32

  const HARDENED: nat := 0x8000_0000

  function Component(w: nat): string {
    Numeral(w % HARDENED, 10) + if w % 0x1_0000_0000 >= HARDENED then "'" else ""
  }

  function Text(p: seq<nat>): string
    decreases |p|, 1
  {
    if p == [] then "" else Before(p) + Component(p[|p| - 1])
  }

  /** What stands in front of the last component. */
  function Before(p: seq<nat>): string
    requires p != []
    decreases |p|, 0
  {
    if |p| == 1 then "" else Text(p[..|p| - 1]) + "/"
  }

  /** How a path reads: its components in decimal, with an apostrophe for the top bit, and slashes between
      them. */
  lemma PathReads(p: seq<nat>, w: nat)
    ensures Text([]) == "" && Text([w]) == Component(w)
    ensures p != [] ==> Text(p + [w]) == Text(p) + "/" + Component(w)
    ensures w < 0x8000_0000 ==>
              Component(w) == Numeral(w, 10) && Component(w + 0x8000_0000) == Numeral(w, 10) + "'"
  {
    hide Numeral;
    assert (p + [w])[..|p|] == p;
    assert Text([w]) == "" + Component(w);
  }

  // ---- The client's parser ----

  /** The parts between slashes; there is always one. */
  function Split(s: string): (parts: seq<string>)
    ensures parts != []
  {
    if s == "" then [""]
    else
      var last := s[|s| - 1];
      var parts := Split(s[..|s| - 1]);
      if last == '/' then parts + [""]
      else parts[|parts| - 1 := parts[|parts| - 1] + [last]]
  }

  predicate AllDigits(s: string) {
    s != "" && forall i :: 0 <= i < |s| ==> '0' <= s[i] <= '9'
  }

  function ParseNumber(s: string): Option<nat> {
    if AllDigits(s) then Some(Value(GlyphDigits(s), 10)) else None
  }

  /** With an apostrophe the last character is dropped and the top bit set; four bytes must do. */
  function ParseComponent(s: string): Option<nat> {
    if '\'' !in s then
      match ParseNumber(s) { case Some(v) => if v < 0x1_0000_0000 then Some(v) else None case None => None }
    else
      match ParseNumber(s[..|s| - 1])
      case None => None
      case Some(v) =>
        if v < HARDENED then Some(v + HARDENED) else if v < 0x1_0000_0000 then Some(v) else None
  }

  function ParseParts(parts: seq<string>): Option<seq<nat>> {
    if parts == [] then Some([])
    else
      match (ParseParts(parts[..|parts| - 1]), ParseComponent(parts[|parts| - 1]))
      case (Some(p), Some(w)) => Some(p + [w])
      case _ => None
  }

  function Parse(s: string): Option<seq<nat>> {
    var parts := Split(s);
    ParseParts(if parts[0] == "m" then parts[1..] else parts)
  }

  lemma {:induction false} SplitAppend(s: string, c: string)
    requires '/' !in c
    ensures Split(c) == [c] && Split(s + "/" + c) == Split(s) + [c]
  {
    if c == "" {
      assert s + "/" + c == s + "/" && (s + "/")[..|s|] == s;
    } else {
      var d, last := c[..|c| - 1], c[|c| - 1];
      assert c == d + [last] && last in c;
      SplitAppend(s, d);
      var t := s + "/" + c;
      assert t[..|t| - 1] == s + "/" + d && t[|t| - 1] == last;
      assert (Split(s) + [d])[|Split(s)| := d + [last]] == Split(s) + [c];
    }
  }

  function Components(p: seq<nat>): (parts: seq<string>)
    ensures |parts| == |p| && forall i :: 0 <= i < |p| ==> parts[i] == Component(p[i])
  {
    seq(|p|, i requires 0 <= i < |p| => Component(p[i]))
  }

  lemma NumeralDigits(v: nat)
    ensures AllDigits(Numeral(v, 10))
  {
  }

  /** A component is a number that fits in ten digits, and possibly an apostrophe. */
  lemma ComponentShape(w: nat)
    ensures Component(w) != "" && |Component(w)| <= 11 && Component(w) != "m"
    ensures forall c :: c in Component(w) ==> '0' <= c <= '9' || c == '\''
  {
    hide Numeral;
    var v := w % HARDENED;
    NumeralDigits(v);
    assert Pow(10, 5) == 100_000;
    PowAdd(10, 5, 5);
    NumeralLength(v, 10, 10);
    assert Component(w)[0] == Numeral(v, 10)[0];
  }

  lemma ComponentParses(w: nat)
    requires w < 0x1_0000_0000
    ensures ParseComponent(Component(w)) == Some(w)
  {
    hide Numeral, Value, GlyphDigits;
    var n := Numeral(w % HARDENED, 10);
    NumeralDigits(w % HARDENED);
    NumeralCanonical(w % HARDENED, 10);
    assert '\'' !in n;
    if w >= HARDENED {
      assert Component(w) == n + "'" && (n + "'")[|n|] == '\'' && (n + "'")[..|n|] == n;
    } else {
      assert Component(w) == n + "" == n;
    }
  }

  lemma {:induction false} TextSplits(p: seq<nat>)
    requires p != []
    ensures Split(Text(p)) == Components(p)
    decreases |p|
  {
    hide Component, Split;
    var q, w := p[..|p| - 1], p[|p| - 1];
    ComponentShape(w);
    SplitAppend(Text(q), Component(w));
    if q == [] {
      assert Text(p) == "" + Component(w) == Component(w);
      assert Components(p) == [Component(w)];
    } else {
      TextSplits(q);
      assert Components(p) == Components(q) + [Component(w)];
    }
  }

  lemma {:induction false} PartsParse(p: seq<nat>)
    requires AreWords(p)
    ensures ParseParts(Components(p)) == Some(p)
  {
    hide Component, ParseComponent;
    if p != [] {
      var q, w := p[..|p| - 1], p[|p| - 1];
      assert Components(p)[..|p| - 1] == Components(q);
      PartsParse(q);
      ComponentParses(w);
      assert p == q + [w];
    }
  }

  /** The client reads back every printed path. */
  lemma ParsesBack(p: seq<nat>)
    requires AreWords(p) && p != []
    ensures Parse(Text(p)) == Some(p)
  {
    hide Component, ParseParts, Split, Text;
    TextSplits(p);
    PartsParse(p);
    ComponentShape(p[0]);
  }

  lemma DistinctPathsPrintDifferently(p: seq<nat>, q: seq<nat>)
    requires AreWords(p) && AreWords(q) && p != [] && q != [] && p != q
    ensures Text(p) != Text(q)
  {
    ParsesBack(p);
    ParsesBack(q);
  }

  /** At most ten digits, an apostrophe and a slash for each component. */
  lemma {:induction false} TextLengthAtMost(p: seq<nat>)
    requires p != []
    ensures |Text(p)| <= 12 * |p| - 1
    decreases |p|
  {
    hide Component;
    ComponentShape(p[|p| - 1]);
    if |p| > 1 {
      TextLengthAtMost(p[..|p| - 1]);
    }
  }

  // ---- Printing into a buffer that may be too small ----

  function Min(a: nat, b: nat): nat {
    if a <= b then a else b
  }

  /** The last thing printed is an apostrophe or a number; this is what stands in front of it. */
  function BeforeLastPiece(p: seq<nat>): string
    requires p != []
  {
    var w := p[|p| - 1];
    Before(p) + if w % 0x1_0000_0000 >= HARDENED then Numeral(w % HARDENED, 10) else ""
  }

  /** A piece that is cut short goes unnoticed until the next one finds no room at all: the call
      succeeds as soon as one character of the last piece fits. */
  predicate Printable(p: seq<nat>, outLen: nat)
    requires p != []
  {
    |BeforeLastPiece(p)| + 2 <= outLen
  }

  /** Sixty bytes, the size of the screen buffer, always hold the whole text. */
  lemma SixtyBytesSuffice(p: seq<nat>, outLen: nat)
    requires 1 <= |p| <= MAX_BIP32_PATH && outLen >= 60
    ensures Printable(p, outLen) && |Text(p)| < outLen
  {
    hide Text, Numeral;
    TextLengthAtMost(p);
    LastPiece(p);
  }

  /** The call succeeds with a text cut short exactly when the last component is not hardened and
      the buffer ends within its digits, behind the first. */
  lemma CutShortExactly(p: seq<nat>, outLen: nat)
    requires p != [] && AreWords(p)
    ensures Printable(p, outLen) && |Text(p)| >= outLen <==>
            p[|p| - 1] < HARDENED && |Before(p)| + 2 <= outLen <= |Text(p)|
  {
    hide Before, Numeral;
  }

  lemma LastPiece(p: seq<nat>)
    requires p != []
    ensures |BeforeLastPiece(p)| < |Text(p)|
  {
    hide Before, Numeral;
    NumeralDigits(p[|p| - 1] % HARDENED);
  }

  /** As much of `done` as fits stands in the buffer. */
  predicate Written(b: string, offset: nat, done: string) {
    if b == "" then offset == 0 else offset == Min(|done|, |b| - 1) && b[..offset] == done[..offset]
  }

  /** One snprintf of a text, the length check and the clearing of the buffer.  With a length of zero
      nothing is written, and the source measures whatever text the memory holds. */
  method Append(out: array<char>, outLen: nat, offset: nat, s: string, ghost done: string) returns (ok: bool, next: nat)
    requires s != "" && (forall i :: 0 <= i < |s| ==> s[i] != '\0')
    requires outLen <= out.Length && Written(out[..outLen], offset, done)
    requires outLen == 0 ==> '\0' in out[..]
    modifies out
    ensures ok <==> |done| + 2 <= outLen
    ensures ok ==> next < outLen && Written(out[..outLen], next, done + s) && out[next] == '\0'
    ensures !ok ==> forall i :: 0 <= i < outLen ==> out[i] == '\0'
    ensures out[outLen..] == old(out[outLen..])
  {
    if outLen == 0 {
      ghost var k :| 0 <= k < out.Length && out[..][k] == '\0';
      assert out[k] == '\0';
      var measured := StrLen(out, 0);
      return false, offset;
    }
    ghost var b := out[..outLen];
    var n := Min(|s|, outLen - offset - 1);
    forall i | 0 <= i < n {
      out[offset + i] := s[i];
    }
    out[offset + n] := '\0';
    assert out[..outLen][..offset + n] == b[..offset] + s[..n];
    assert forall k :: 0 <= k < n ==> out[offset + k] == s[k] != '\0';
    var written := StrLen(out, offset);
    assert out[offset + n] == '\0' && written == n;
    if written == 0 || written >= outLen - offset {
      forall i | 0 <= i < outLen {
        out[i] := '\0';
      }
      return false, offset;
    }
    assert (done + s)[..offset + n] == done[..offset] + s[..n];
    return true, offset + written;
  }

  ghost predicate Cleared(b: string) {
    forall i :: 0 <= i < |b| ==> b[i] == '\0'
  }

  method PathFormat(path: seq<nat>, out: array<char>, outLen: nat) returns (ok: bool)
    requires AreWords(path) && outLen <= out.Length && (outLen == 0 ==> '\0' in out[..])
    modifies out
    ensures ok <==> 1 <= |path| <= MAX_BIP32_PATH && Printable(path, outLen)
    ensures ok ==> HasText(out[..], 0, Text(path)[..Min(|Text(path)|, outLen - 1)])
    ensures !ok && 1 <= |path| <= MAX_BIP32_PATH ==> Cleared(out[..outLen])
    ensures !(1 <= |path| <= MAX_BIP32_PATH) ==> out[..] == old(out[..])
    ensures out[outLen..] == old(out[outLen..])
  {
    hide Text, Before, Numeral, Component, Written, HasText;
    if |path| == 0 || |path| > MAX_BIP32_PATH {
      return false;
    }
    var offset: nat := 0;
    WrittenNothing(out[..outLen]);
    BeforeFirst(path);
    var i := 0;
    while i < |path|
      invariant i <= |path|
      invariant Written(out[..outLen], offset, if i < |path| then Before(path[..i + 1]) else Text(path))
      invariant i == |path| ==> Printable(path, outLen) && offset < outLen && out[offset] == '\0'
      invariant out[outLen..] == old(out[outLen..]) && (outLen == 0 ==> '\0' in out[..])
    {
      var w := path[i];
      ghost var before := Before(path[..i + 1]);
      ghost var number := Numeral(w % HARDENED, 10);
      NoLater(path, i);
      NumeralDigits(w % HARDENED);
      ok, offset := Append(out, outLen, offset, Numeral(w % HARDENED, 10), before);
      if !ok {
        return;
      }
      ghost var done := before + number;
      if w >= HARDENED {
        ok, offset := Append(out, outLen, offset, "'", done);
        if !ok {
          return;
        }
        done := done + "'";
      }
      ComponentDone(path, i, done);
      if i != |path| - 1 {
        ok, offset := Append(out, outLen, offset, "/", done);
        if !ok {
          return;
        }
      }
      i := i + 1;
    }
    WrittenAll(out[..], outLen, offset, Text(path));
    ok := true;
  }

  lemma WrittenNothing(b: string)
    ensures Written(b, 0, "")
  {
  }

  lemma WrittenAll(b: string, outLen: nat, offset: nat, text: string)
    requires 0 < outLen <= |b| && Written(b[..outLen], offset, text) && b[offset] == '\0'
    ensures HasText(b, 0, text[..Min(|text|, outLen - 1)])
  {
    assert b[0..offset] == b[..outLen][..offset];
  }

  lemma BeforeFirst(p: seq<nat>)
    requires p != []
    ensures Before(p[..1]) == ""
  {
  }

  /** The text after component `i`, and what follows it. */
  lemma ComponentDone(p: seq<nat>, i: nat, done: string)
    requires i < |p| && p[i] < 0x1_0000_0000
    requires var number := Before(p[..i + 1]) + Numeral(p[i] % HARDENED, 10);
             done == if p[i] >= HARDENED then number + "'" else number
    ensures done == Text(p[..i + 1])
    ensures i + 1 < |p| ==> done + "/" == Before(p[..i + 2])
    ensures i + 1 == |p| ==> done == Text(p)
  {
    hide Numeral, Before;
    var q := p[..i + 1];
    assert q[i] == p[i];
    ComponentIs(Before(q), p[i], done);
    if i + 1 < |p| {
      BeforeNext(p[..i + 2], q);
    } else {
      assert p[..i + 1] == p;
    }
  }

  lemma BeforeNext(p: seq<nat>, q: seq<nat>)
    requires |p| > 1 && p[..|p| - 1] == q
    ensures Before(p) == Text(q) + "/"
  {
    hide Text;
  }

  lemma ComponentIs(before: string, w: nat, done: string)
    requires w < 0x1_0000_0000
    requires var number := before + Numeral(w % HARDENED, 10);
             done == if w >= HARDENED then number + "'" else number
    ensures done == before + Component(w)
  {
    hide Numeral;
    var number := Numeral(w % HARDENED, 10);
    assert number + "" == number && (before + number) + "'" == before + (number + "'");
  }

  /** No piece stands further right than the last one. */
  lemma NoLater(p: seq<nat>, i: nat)
    requires i < |p| && p[i] < 0x1_0000_0000
    ensures var b, n := |Before(p[..i + 1])|, |Numeral(p[i] % HARDENED, 10)|;
            if i + 1 < |p| then b + n + (if p[i] >= HARDENED then 1 else 0) < |BeforeLastPiece(p)|
            else |BeforeLastPiece(p)| == b + if p[i] >= HARDENED then n else 0
  {
    hide Numeral;
    assert p[..i + 1][i] == p[i];
    if i + 1 < |p| {
      TextGrows(p, i + 1, |p| - 1);
    } else {
      assert p[..i + 1] == p;
    }
  }

  lemma {:induction false} TextGrows(p: seq<nat>, i: nat, j: nat)
    requires 0 < i <= j <= |p|
    ensures |Text(p[..i])| <= |Text(p[..j])|
    decreases j
  {
    hide Component;
    if i < j {
      TextGrows(p, i, j - 1);
      assert p[..j][..j - 1] == p[..j - 1];
    }
  }
}
