/** Parsing one transaction output from a possibly incomplete prefix of the stream
    (src/transaction/deserialize.c). */
module Deserialize {
  import opened Common
  import opened Positional
  import opened Buffers

  const OP_DUP: byte := 0x76
  const OP_EQUALVERIFY: byte := 0x88
  const OP_HASH160: byte := 0xA9
  const OP_CHECKSIG: byte := 0xAC
  const SCRIPT_LEN: nat := 25

  /** The fields of an output that are on the wire. */
  datatype WireOutput = WireOutput(value: nat, tokenData: byte, pubkeyHash: seq<byte>)

  datatype Parse = Done(output: WireOutput, size: nat) | NeedMore | Malformed

  // ---- Reference: what an output looks like on the wire ----

  function Script(hash: seq<byte>): (s: seq<byte>) {
    [OP_DUP, OP_HASH160, PUBKEY_HASH_LEN] + hash + [OP_EQUALVERIFY, OP_CHECKSIG]
  }

  /** The value in 4 bytes with the first bit clear, or negated in 8 bytes with the first bit set. */
  function ValueField(v: nat, long: bool): seq<byte>
    requires v <= 0x8000_0000_0000_0000
  {
    if long then ToBytes(0x1_0000_0000_0000_0000 - v, 8) else ToBytes(v, 4)
  }

  predicate Encodable(o: WireOutput, long: bool) {
    && |o.pubkeyHash| == PUBKEY_HASH_LEN
    && if long then 1 <= o.value <= 0x8000_0000_0000_0000 else o.value < 0x8000_0000
  }

  function OutputBytes(o: WireOutput, long: bool): (b: seq<byte>)
    requires Encodable(o, long)
    ensures |b| == if long then 36 else 32
  {
    ValueField(o.value, long) + [o.tokenData, 0, SCRIPT_LEN] + Script(o.pubkeyHash)
  }

  // ---- The parser as a function of the bytes at hand ----

  /** The width of the value field, from its first bit. */
  function ValueWidth(b: seq<byte>): nat {
    if |b| > 0 && b[0] >= 0x80 then 8 else 4
  }

  function ValueOf(b: seq<byte>): nat
    requires |b| >= ValueWidth(b)
  {
    if ValueWidth(b) == 8 then (-1) * (Value(b[..8], 256) as int) % 0x1_0000_0000_0000_0000
    else Value(b[..4], 256)
  }

  predicate IsP2pkh(s: seq<byte>)
    requires |s| >= SCRIPT_LEN
  {
    s[..3] == [OP_DUP, OP_HASH160, PUBKEY_HASH_LEN] && s[23..25] == [OP_EQUALVERIFY, OP_CHECKSIG]
  }

  function ParseBytes(b: seq<byte>): Parse {
    var w := ValueWidth(b);
    if |b| < w + 3 then NeedMore
    else if Value(b[w + 1..w + 3], 256) != SCRIPT_LEN then Malformed
    else if |b| < w + 28 then NeedMore
    else if !IsP2pkh(b[w + 3..]) then Malformed
    else Done(WireOutput(ValueOf(b), b[w], b[w + 6..w + 26]), w + 28)
  }

  /** A verdict reached on a prefix stays the same however the stream goes on. */
  lemma PrefixParser(b: seq<byte>, more: seq<byte>)
    requires ParseBytes(b) != NeedMore
    ensures ParseBytes(b + more) == ParseBytes(b)
  {
    hide Value;
    var w := ValueWidth(b);
    var c := b + more;
    SliceOfPrefix(c, |b|, w + 1, w + 3);
    assert c[..|b|] == b;
    if |b| >= w + 28 {
      SameScript(b, more, w + 3);
      SliceOfPrefix(c, |b|, w + 6, w + 26);
      SliceOfPrefix(c, |b|, 0, w);
    }
  }

  lemma SameScript(b: seq<byte>, more: seq<byte>, k: nat)
    requires k + SCRIPT_LEN <= |b|
    ensures IsP2pkh((b + more)[k..]) == IsP2pkh(b[k..])
  {
    var s, t := b[k..], (b + more)[k..];
    assert t == s + more;
    assert t[..3] == s[..3] && t[23..25] == s[23..25];
  }

  lemma SliceOfPrefix<T>(s: seq<T>, n: nat, lo: nat, hi: nat)
    requires lo <= hi <= n <= |s|
    ensures s[..n][lo..hi] == s[lo..hi]
  {
  }

  /** The parser accepts exactly the wire format: it is done after `n` bytes with output `o` if
      and only if those bytes are one of the two encodings of `o`. */
  lemma ParsesExactlyTheFormat(b: seq<byte>, o: WireOutput, n: nat)
    ensures ParseBytes(b) == Done(o, n) <==>
            && n <= |b| && (n == 32 || n == 36)
            && Encodable(o, n == 36) && b[..n] == OutputBytes(o, n == 36)
  {
    if ParseBytes(b) == Done(o, n) {
      DoneIsEncoding(b);
    }
    if n <= |b| && (n == 32 || n == 36) && Encodable(o, n == 36) && b[..n] == OutputBytes(o, n == 36) {
      EncodingIsDone(o, n == 36);
      assert b == b[..n] + b[n..];
      PrefixParser(b[..n], b[n..]);
    }
  }

  /** The parser's verdict in the bytes themselves: a value field of four bytes, or of eight if its first
      bit is set, which is then negated; the token data; a script length of 25; and the script that duplicates
      and hashes the key, compares the hash of 20 bytes, and checks the signature. */
  lemma ParsesLiterally(b: seq<byte>)
    ensures var w, r := if |b| > 0 && b[0] >= 0x80 then 8 else 4, ParseBytes(b);
            && (r.Done? <==>
                |b| >= w + 28 && b[w + 1..w + 6] == [0x00, 0x19, 0x76, 0xA9, 0x14] && b[w + 26..w + 28] == [0x88, 0xAC])
            && (r.Done? ==> r.size == w + 28 && r.output.tokenData == b[w] && r.output.pubkeyHash == b[w + 6..w + 26])
            && (r.Done? && w == 4 ==>
                  r.output.value == ((b[0] as nat * 256 + b[1] as nat) * 256 + b[2] as nat) * 256 + b[3] as nat)
            && (r.Done? && w == 8 ==> r.output.value + Value(b[..8], 256) == 0x1_0000_0000_0000_0000)
            && (r.NeedMore? <==> |b| < w + 3 || (|b| < w + 28 && b[w + 1..w + 3] == [0x00, 0x19]))
  {
    hide Value, Pow;
    var w := ValueWidth(b);
    if |b| >= w + 3 {
      LengthField(b[w + 1..w + 3]);
    }
    if |b| >= w + 28 {
      LiteralScript(b, w);
    }
    if |b| >= 8 && w == 8 {
      NegatedValue(b);
    } else if |b| >= 4 && w == 4 {
      ValueOf4(b[..4]);
    }
  }

  lemma LengthField(b: seq<byte>)
    requires |b| == 2
    ensures Value(b, 256) == 25 <==> b == [0x00, 0x19]
  {
    ValueOf2(b);
  }

  lemma LiteralScript(b: seq<byte>, w: nat)
    requires |b| >= w + 28
    ensures b[w + 1..w + 3] == [0x00, 0x19] && IsP2pkh(b[w + 3..]) <==>
            b[w + 1..w + 6] == [0x00, 0x19, 0x76, 0xA9, 0x14] && b[w + 26..w + 28] == [0x88, 0xAC]
  {
    var s := b[w + 3..];
    assert s[..3] == b[w + 3..w + 6] && s[23..25] == b[w + 26..w + 28];
    assert b[w + 1..w + 6] == b[w + 1..w + 3] + b[w + 3..w + 6];
    assert b[w + 1..w + 6][..2] == b[w + 1..w + 3] && b[w + 1..w + 6][2..] == b[w + 3..w + 6];
  }

  lemma NegatedValue(b: seq<byte>)
    requires |b| >= 8 && b[0] >= 0x80
    ensures ValueOf(b) + Value(b[..8], 256) == 0x1_0000_0000_0000_0000
  {
    hide Value, Pow;
    FirstBit(b[..8]);
  }

  lemma DoneIsEncoding(b: seq<byte>)
    requires ParseBytes(b).Done?
    ensures var Done(o, n) := ParseBytes(b);
            && n <= |b| && (n == 32 || n == 36)
            && Encodable(o, n == 36) && b[..n] == OutputBytes(o, n == 36)
  {
    hide Value, Pow, ToBytes;
    var w := ValueWidth(b);
    var Done(o, n) := ParseBytes(b);
    ValueFieldOf(b);
    ScriptLength(b[w + 1..w + 3]);
    assert b[w + 3..n] == Script(o.pubkeyHash);
    assert b[..n] == b[..w] + [b[w]] + b[w + 1..w + 3] + b[w + 3..n];
  }

  /** Reading the value field and writing it back are inverse, and its first bit tells its width. */
  lemma ValueFieldOf(b: seq<byte>)
    requires |b| >= ValueWidth(b)
    ensures var w, v := ValueWidth(b), ValueOf(b);
            && (if w == 8 then 1 <= v <= 0x8000_0000_0000_0000 else v < 0x8000_0000)
            && b[..w] == ValueField(v, w == 8)
  {
    var w := ValueWidth(b);
    ValueBytes(b[..w]);
    FirstBit(b[..w]);
  }

  /** The first bit of 4 or 8 bytes is the top bit of the number they denote. */
  lemma FirstBit(b: seq<byte>)
    requires |b| == 4 || |b| == 8
    ensures |b| == 4 ==> Value(b, 256) < 0x1_0000_0000 && (b[0] < 0x80 <==> Value(b, 256) < 0x8000_0000)
    ensures |b| == 8 ==> Value(b, 256) < 0x1_0000_0000_0000_0000
                         && (b[0] < 0x80 <==> Value(b, 256) < 0x8000_0000_0000_0000)
  {
    hide Value;
    if |b| == 4 {
      ValueOf4(b);
    } else {
      ValueOf8(b);
      ValueOf4(b[..4]);
      ValueOf4(b[4..]);
    }
  }

  lemma ScriptLength(b: seq<byte>)
    requires |b| == 2
    ensures Value(b, 256) == SCRIPT_LEN <==> b == [0, SCRIPT_LEN]
  {
    ValueOf2(b);
  }

  lemma EncodingIsDone(o: WireOutput, long: bool)
    requires Encodable(o, long)
    ensures ParseBytes(OutputBytes(o, long)) == Done(o, if long then 36 else 32)
  {
    hide Value, Pow, ToBytes;
    var w := if long then 8 else 4;
    var f := ValueField(o.value, long);
    var b := OutputBytes(o, long);
    FieldValue(o.value, long);
    assert b[..w] == f;
    FirstBit(f);
    assert b[w + 1..w + 3] == [0, SCRIPT_LEN];
    ScriptLength(b[w + 1..w + 3]);
    assert b[w + 3..] == Script(o.pubkeyHash);
    assert b[w + 3..][..3] == [OP_DUP, OP_HASH160, PUBKEY_HASH_LEN];
    assert b[w + 3..][23..25] == [OP_EQUALVERIFY, OP_CHECKSIG];
    assert b[w + 6..w + 26] == o.pubkeyHash;
  }

  lemma FieldValue(v: nat, long: bool)
    requires if long then 1 <= v <= 0x8000_0000_0000_0000 else v < 0x8000_0000
    ensures Value(ValueField(v, long), 256) == if long then 0x1_0000_0000_0000_0000 - v else v
  {
    hide Value, ToBytes;
    assert Pow(256, 4) == 0x1_0000_0000 && Pow(256, 8) == 0x1_0000_0000_0000_0000;
    BytesValue(if long then 0x1_0000_0000_0000_0000 - v else v, if long then 8 else 4);
  }

  // ---- The C functions ----

  method ValidateP2pkhScript(buf: Buffer, scriptLen: nat) returns (thrown: Option<nat>)
    requires buf.Valid()
    ensures thrown == if scriptLen != SCRIPT_LEN then Some(SW_TX_PARSING_FAIL)
                      else if |buf.Rest()| < SCRIPT_LEN then Some(TX_STATE_READY)
                      else if !IsP2pkh(buf.Rest()) then Some(SW_TX_PARSING_FAIL)
                      else None
  {
    var p2pkh := [OP_DUP, OP_HASH160, PUBKEY_HASH_LEN, OP_EQUALVERIFY, OP_CHECKSIG];
    if scriptLen != SCRIPT_LEN {
      return Some(SW_TX_PARSING_FAIL);
    }
    if buf.size - buf.offset < SCRIPT_LEN {
      return Some(TX_STATE_READY);
    }
    var o := buf.offset;
    assert buf.Rest()[..3] == buf.ptr[o..o + 3] && buf.Rest()[23..25] == buf.ptr[o + 23..o + 25];
    if p2pkh[..3] != buf.ptr[o..o + 3] || p2pkh[3..] != buf.ptr[o + 23..o + 25] {
      return Some(SW_TX_PARSING_FAIL);
    }
    return None;
  }

  /** Note that the first byte is looked at before any length check. */
  method ParseOutputValue(buf: Buffer) returns (r: Outcome<nat>)
    requires buf.Valid() && buf.offset == 0 && buf.ptr.Length > 0
    modifies buf`offset
    ensures buf.Valid()
    ensures var b := old(buf.Rest()); var w := ValueWidth(b);
            if |b| < w then r == Thrown(TX_STATE_READY)
            else r == Returned(ValueOf(b)) && buf.offset == w && buf.Rest() == b[w..]
  {
    hide Value;
    if buf.ptr[0] >= 0x80 {
      var ok, tmp := buf.ReadU64();
      if !ok {
        return Thrown(TX_STATE_READY);
      }
      return Returned((-1) * (tmp as int) % 0x1_0000_0000_0000_0000);
    } else {
      var ok, tmp := buf.ReadU32();
      if !ok {
        return Thrown(TX_STATE_READY);
      }
      return Returned(tmp);
    }
  }

  /** The parser's verdict in the form the caller sees it. */
  function Report(p: Parse): Outcome<(WireOutput, nat)> {
    match p
    case Done(o, n) => Returned((o, n))
    case NeedMore => Thrown(TX_STATE_READY)
    case Malformed => Thrown(SW_TX_PARSING_FAIL)
  }

  /** The end of `parse_output`: the script is checked and consumed, its hash taken out. */
  method ReadScript(buf: Buffer, scriptLen: nat) returns (r: Outcome<seq<byte>>)
    requires buf.Valid()
    modifies buf`offset
    ensures buf.Valid()
    ensures var s := old(buf.Rest());
            if scriptLen != SCRIPT_LEN then r == Thrown(SW_TX_PARSING_FAIL)
            else if |s| < SCRIPT_LEN then r == Thrown(TX_STATE_READY)
            else if !IsP2pkh(s) then r == Thrown(SW_TX_PARSING_FAIL)
            else r == Returned(s[3..23]) && buf.offset == old(buf.offset) + SCRIPT_LEN
  {
    hide IsP2pkh;
    var thrown := ValidateP2pkhScript(buf, scriptLen);
    if thrown.Some? {
      return Thrown(thrown.value);
    }
    var pubkeyHash := buf.ptr[buf.offset + 3..buf.offset + 3 + PUBKEY_HASH_LEN];
    SliceOfSlice(buf.ptr[..], buf.offset, buf.size, 3, 23);
    var ok := buf.SeekCur(scriptLen);
    if !ok {
      return Thrown(SW_TX_PARSING_FAIL);
    }
    return Returned(pubkeyHash);
  }

  lemma SliceOfSlice<T>(s: seq<T>, lo: nat, hi: nat, i: nat, j: nat)
    requires i <= j && lo + j <= hi <= |s|
    ensures s[lo..hi][i..j] == s[lo + i..lo + j]
  {
    var t, x, y := s[lo..hi], s[lo..hi][i..j], s[lo + i..lo + j];
    assert |x| == j - i == |y|;
    forall k | 0 <= k < j - i
      ensures x[k] == y[k]
    {
      assert x[k] == t[i + k] && t[i + k] == s[lo + (i + k)];
      assert y[k] == s[(lo + i) + k];
    }
  }

  lemma Fields(b: seq<byte>, w: nat)
    requires w + 3 <= |b|
    ensures b[w..][1..] == b[w + 1..]
    ensures b[w + 1..][..2] == b[w + 1..w + 3] && b[w + 1..][2..] == b[w + 3..]
    ensures w + 26 <= |b| ==> b[w + 3..][3..23] == b[w + 6..w + 26]
  {
  }

  method ParseOutput(in_: array<byte>, inLen: nat) returns (r: Outcome<(WireOutput, nat)>)
    requires in_.Length > 0 && inLen <= in_.Length && inLen < SIZE_RANGE
    ensures r == Report(ParseBytes(in_[..inLen]))
  {
    hide Value, IsP2pkh;
    ghost var b := in_[..inLen];
    ghost var w := ValueWidth(b);
    var buf := new Buffer(in_, inLen);
    var value := ParseOutputValue(buf);
    if value.Thrown? {
      return Thrown(value.code);
    }
    var ok8, tokenData := buf.ReadU8();
    if !ok8 {
      return Thrown(TX_STATE_READY);
    }
    var ok16, scriptLen := buf.ReadU16();
    if !ok16 {
      return Thrown(TX_STATE_READY);
    }
    Fields(b, w);
    var pubkeyHash := ReadScript(buf, scriptLen);
    if pubkeyHash.Thrown? {
      return Thrown(pubkeyHash.code);
    }
    return Returned((WireOutput(value.value, tokenData, pubkeyHash.value), buf.offset));
  }
}
