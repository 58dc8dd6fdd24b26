/** The change information in front of the transaction: two wire formats, one meaning
    (src/handler/sign_tx.c, read_change_info and its helpers). */
module ChangeInfo {
  import opened Common
  import opened Bip32
  import opened Buffers

  const MAX_CHANGES: nat := TX_MAX_TOKENS + 1

  datatype Change = Change(index: byte, path: seq<nat>)

  /** The change entries read, and what follows them in the stream. */
  type Parsed = (seq<Change>, seq<byte>)

  // ---- The readers as functions of the bytes at hand ----

  function Entries(b: seq<byte>, n: nat): (r: Option<Parsed>)
    ensures r.Some? ==> |r.value.0| == n
  {
    if n == 0 then Some(([], b))
    else if |b| < 1 then None
    else
      match PathOf(b[1..])
      case None => None
      case Some(p) =>
        match Entries(b[2 + 4 * |p|..], n - 1)
        case None => None
        case Some(t) => Some(([Change(b[0], p)] + t.0, t.1))
  }

  function V1(b: seq<byte>): Outcome<Parsed> {
    if |b| < 1 || b[0] > MAX_CHANGES then Thrown(SW_WRONG_DATA_LENGTH)
    else
      match Entries(b[1..], b[0])
      case None => Thrown(SW_WRONG_DATA_LENGTH)
      case Some(t) => Returned(t)
  }

  /** The path of the old protocol, rebuilt behind its length in a zeroed scratch buffer. */
  function Scratch(n: nat, b: seq<byte>): (s: seq<byte>)
    requires n <= MAX_BIP32_PATH && 4 * n <= |b|
    ensures |s| == 1 + 4 * MAX_BIP32_PATH
  {
    [n] + b[..4 * n] + seq(4 * (MAX_BIP32_PATH - n), _ => 0)
  }

  function Old(head: byte, b: seq<byte>): Outcome<Parsed> {
    var n: nat := head % 16;
    if |b| < 1 || n > MAX_BIP32_PATH || |b| - 1 < 4 * n then Thrown(SW_WRONG_DATA_LENGTH)
    else
      match PathOf(Scratch(n, b[1..]))
      case None => Thrown(SW_WRONG_DATA_LENGTH)
      case Some(p) => Returned(([Change(b[0], p)], b[1 + 4 * n..]))
  }

  function Read(b: seq<byte>): Outcome<Parsed> {
    if |b| < 1 then Thrown(SW_WRONG_DATA_LENGTH)
    else if b[0] == 0 then Returned(([], b[1..]))
    else if b[0] >= 0x80 then Old(b[0], b[1..])
    else if b[0] == 1 then V1(b[1..])
    else Thrown(SW_INVALID_TX)
  }

  // ---- The client's serializers ----

  predicate Serializable(c: Change) {
    |c.path| < 256 && AreWords(c.path)
  }

  predicate AllSerializable(cs: seq<Change>) {
    |cs| < 256 && forall i :: 0 <= i < |cs| ==> Serializable(cs[i])
  }

  predicate AllValid(cs: seq<Change>) {
    forall i :: 0 <= i < |cs| ==> ValidPath(cs[i].path)
  }

  predicate Acceptable(cs: seq<Change>) {
    |cs| <= MAX_CHANGES && AllValid(cs)
  }

  function EntryBytes(cs: seq<Change>): (b: seq<byte>)
    requires forall i :: 0 <= i < |cs| ==> Serializable(cs[i])
  {
    if cs == [] then [] else
      assert Serializable(cs[0]);
      [cs[0].index] + PathBytes(cs[0].path) + EntryBytes(cs[1..])
  }

  function V1Bytes(cs: seq<Change>): seq<byte>
    requires AllSerializable(cs)
  {
    [1, |cs|] + EntryBytes(cs)
  }

  function OldBytes(c: Change): seq<byte>
    requires AreWords(c.path) && |c.path| < 16
  {
    [0x80 + |c.path|, c.index] + WordBytes(c.path)
  }

  // ---- Round trips ----

  lemma EntryFirst(c: Change, more: seq<byte>, n: nat)
    requires Serializable(c) && n > 0
    ensures Entries([c.index] + PathBytes(c.path) + more, n) ==
            if !ValidPath(c.path) then None
            else match Entries(more, n - 1) { case None => None case Some(t) => Some(([c] + t.0, t.1)) }
  {
    hide PathOf, PathBytes, ValidPath;
    var b := [c.index] + PathBytes(c.path) + more;
    assert b[1..] == PathBytes(c.path) + more && b[2 + 4 * |c.path|..] == more;
    PathRoundTrip(c.path, more);
  }

  lemma {:induction false} EntriesRoundTrip(cs: seq<Change>, rest: seq<byte>)
    requires forall i :: 0 <= i < |cs| ==> Serializable(cs[i])
    ensures Entries(EntryBytes(cs) + rest, |cs|) == if AllValid(cs) then Some((cs, rest)) else None
  {
    hide PathBytes, ValidPath, AreWords;
    if cs == [] {
      assert EntryBytes(cs) + rest == rest;
    } else {
      var more := EntryBytes(cs[1..]) + rest;
      assert Serializable(cs[0]);
      EntryFirst(cs[0], more, |cs|);
      assert EntryBytes(cs) + rest == [cs[0].index] + PathBytes(cs[0].path) + more;
      EntriesRoundTrip(cs[1..], rest);
      assert cs == [cs[0]] + cs[1..];
      assert AllValid(cs) <==> ValidPath(cs[0].path) && AllValid(cs[1..]);
    }
  }

  /** The current format: a serialized list is read back entry for entry, leaving the cursor at
      the transaction header, if and only if it has at most eleven entries with valid paths. */
  lemma V1RoundTrip(cs: seq<Change>, rest: seq<byte>)
    requires AllSerializable(cs)
    ensures Read(V1Bytes(cs) + rest) ==
            if Acceptable(cs) then Returned((cs, rest)) else Thrown(SW_WRONG_DATA_LENGTH)
  {
    hide Entries, EntryBytes, ValidPath;
    var b := V1Bytes(cs) + rest;
    assert b[1..][1..] == EntryBytes(cs) + rest;
    EntriesRoundTrip(cs, rest);
  }

  /** The old format reads one change back under the same condition on its path. */
  lemma OldRoundTrip(c: Change, rest: seq<byte>)
    requires AreWords(c.path) && |c.path| < 16
    ensures Read(OldBytes(c) + rest) ==
            if ValidPath(c.path) then Returned(([c], rest)) else Thrown(SW_WRONG_DATA_LENGTH)
  {
    hide PathOf, WordBytes;
    var b := OldBytes(c) + rest;
    var n := |c.path|;
    assert b[1..][1..] == WordBytes(c.path) + rest && (0x80 + n) % 16 == n;
    if n <= MAX_BIP32_PATH {
      var pad: seq<byte> := seq(4 * (MAX_BIP32_PATH - n), _ => 0);
      assert b[1..][1..][..4 * n] == WordBytes(c.path);
      assert Scratch(n, b[1..][1..]) == PathBytes(c.path) + pad;
      PathRoundTrip(c.path, pad);
      assert b[1..][1 + 4 * n..] == rest;
    }
  }

  /** Whatever list is accepted is the serialization of valid entries. */
  lemma {:induction false} EntriesAccepted(b: seq<byte>, n: nat)
    requires Entries(b, n).Some?
    ensures var (cs, rest) := Entries(b, n).value;
            AllValid(cs) && (forall i :: 0 <= i < n ==> Serializable(cs[i])) && b == EntryBytes(cs) + rest
  {
    hide PathOf, PathBytes, ValidPath, AreWords;
    if n > 0 {
      var p := PathOf(b[1..]).value;
      var more := b[2 + 4 * |p|..];
      AcceptedEntry(b, p);
      EntriesAccepted(more, n - 1);
      var (cs, rest) := Entries(more, n - 1).value;
      var c := Change(b[0], p);
      assert ([c] + cs)[1..] == cs;
      assert Entries(b, n).value == ([c] + cs, rest);
      assert b == [b[0]] + PathBytes(p) + (EntryBytes(cs) + rest);
    }
  }

  lemma AcceptedEntry(b: seq<byte>, p: seq<nat>)
    requires |b| >= 1 && PathOf(b[1..]) == Some(p)
    ensures ValidPath(p) && AreWords(p) && |p| < 256 && b == [b[0]] + PathBytes(p) + b[2 + 4 * |p|..]
  {
    hide PathOf, PathBytes;
    AcceptedPath(b[1..]);
    assert b[1..] == b[1..][..1 + 4 * |p|] + b[2 + 4 * |p|..];
  }

  /** What the first chunk begins with, byte by byte: 0 for no change, 1 for a list of at most eleven valid
      entries, 0x80 and more for one entry whose path length is in the low four bits; and the code thrown for
      everything else. */
  lemma ReadExactly(b: seq<byte>, cs: seq<Change>, rest: seq<byte>)
    ensures Read(b) == Returned((cs, rest)) <==>
            || (cs == [] && b == [0x00] + rest)
            || (|cs| <= 11 && AllSerializable(cs) && AllValid(cs) && b == [0x01, |cs|] + EntryBytes(cs) + rest)
            || (|b| > 0 && b[0] >= 0x80 && |cs| == 1 && ValidPath(cs[0].path) && b[0] % 16 == |cs[0].path|
                && b == [b[0], cs[0].index] + WordBytes(cs[0].path) + rest)
    ensures Read(b).Thrown? ==> Read(b).code == if |b| > 0 && 2 <= b[0] < 0x80 then 0xB009 else 0x6A87
  {
    hide Entries, EntryBytes, ValidPath, PathOf, WordBytes, AllValid;
    if |b| > 0 && b[0] == 1 {
      ListExactly(b, cs, rest);
    } else if |b| > 0 && b[0] >= 0x80 {
      OldExactly(b, cs, rest);
    } else if cs == [] && b == [0x00] + rest {
      assert b[1..] == rest;
    }
  }

  lemma ListExactly(b: seq<byte>, cs: seq<Change>, rest: seq<byte>)
    requires |b| > 0 && b[0] == 1
    ensures Read(b) == Returned((cs, rest)) <==>
            |cs| <= 11 && AllSerializable(cs) && AllValid(cs) && b == [0x01, |cs|] + EntryBytes(cs) + rest
  {
    hide Entries, EntryBytes, ValidPath, PathOf, AreWords;
    if Read(b) == Returned((cs, rest)) {
      EntriesAccepted(b[1..][1..], b[1]);
      assert b == [0x01, b[1]] + b[1..][1..];
    }
    if |cs| <= 11 && AllSerializable(cs) && AllValid(cs) && b == [0x01, |cs|] + EntryBytes(cs) + rest {
      V1RoundTrip(cs, rest);
    }
  }

  lemma OldExactly(b: seq<byte>, cs: seq<Change>, rest: seq<byte>)
    requires |b| > 0 && b[0] >= 0x80
    ensures Read(b) == Returned((cs, rest)) <==>
            && |cs| == 1 && ValidPath(cs[0].path) && b[0] % 16 == |cs[0].path|
            && b == [b[0], cs[0].index] + WordBytes(cs[0].path) + rest
  {
    hide PathOf, WordBytes, ValidPath;
    if Read(b) == Returned((cs, rest)) {
      OldAccepted(b);
    }
    if |cs| == 1 && ValidPath(cs[0].path) && b[0] % 16 == |cs[0].path|
       && b == [b[0], cs[0].index] + WordBytes(cs[0].path) + rest {
      OldRead(b[0], cs[0], rest);
      assert cs == [cs[0]];
    }
  }

  lemma OldAccepted(b: seq<byte>)
    requires |b| > 0 && b[0] >= 0x80 && Read(b).Returned?
    ensures var (cs, rest) := Read(b).value;
            && |cs| == 1 && ValidPath(cs[0].path) && b[0] % 16 == |cs[0].path|
            && b == [b[0], cs[0].index] + WordBytes(cs[0].path) + rest
  {
    hide PathOf, WordBytes, ValidPath;
    var n, t := b[0] % 16, b[1..][1..];
    var s := Scratch(n, t);
    AcceptedPath(s);
    var p := PathOf(s).value;
    assert WordBytes(p) == PathBytes(p)[1..] == s[..1 + 4 * n][1..] == t[..4 * n];
    assert b == [b[0], b[1]] + t[..4 * n] + t[4 * n..];
  }

  lemma OldRead(head: byte, c: Change, rest: seq<byte>)
    requires head >= 0x80 && ValidPath(c.path) && head % 16 == |c.path|
    ensures Read([head, c.index] + WordBytes(c.path) + rest) == Returned(([c], rest))
  {
    hide PathOf, WordBytes;
    var b := [head, c.index] + WordBytes(c.path) + rest;
    var n := |c.path|;
    var pad: seq<byte> := seq(4 * (MAX_BIP32_PATH - n), _ => 0);
    assert b[1..][1..] == WordBytes(c.path) + rest;
    assert b[1..][1..][..4 * n] == WordBytes(c.path);
    assert Scratch(n, b[1..][1..]) == PathBytes(c.path) + pad;
    PathRoundTrip(c.path, pad);
    assert b[1..][1 + 4 * n..] == rest;
  }

  /** The two encodings of one change mean the same to the device. */
  lemma FormatsAgree(c: Change, rest: seq<byte>)
    requires AreWords(c.path) && |c.path| < 16
    ensures Read(OldBytes(c) + rest) == Read(V1Bytes([c]) + rest)
  {
    hide Read, ValidPath;
    OldRoundTrip(c, rest);
    V1RoundTrip([c], rest);
  }

  lemma {:induction false} EntriesLength(cs: seq<Change>)
    requires forall i :: 0 <= i < |cs| ==> Serializable(cs[i]) && |cs[i].path| <= MAX_BIP32_PATH
    ensures |EntryBytes(cs)| <= 22 * |cs|
  {
    if cs != [] {
      EntriesLength(cs[1..]);
    }
  }

  /** Every accepted change list leaves room for the five header bytes in the first chunk. */
  lemma FitsFirstChunk(cs: seq<Change>)
    requires AllSerializable(cs) && Acceptable(cs)
    ensures |V1Bytes(cs)| + 5 <= 249
  {
    EntriesLength(cs);
  }

  // ---- The C functions ----

  method ReadV1(cdata: Buffer, info: array<Change>) returns (thrown: Option<nat>, changeLen: nat)
    requires cdata.Valid() && info.Length == MAX_CHANGES
    modifies cdata`offset, info
    ensures cdata.Valid()
    ensures var r := V1(old(cdata.Rest()));
            if r.Thrown? then thrown == Some(r.code)
            else
              && thrown == None && changeLen <= MAX_CHANGES
              && info[..changeLen] == r.value.0 && cdata.Rest() == r.value.1
  {
    hide PathOf, ValidPath, Entries, ExtendsTo;
    ghost var b := cdata.Rest();
    var ok, n := cdata.ReadU8();
    changeLen := n;
    if !ok || changeLen > MAX_CHANGES {
      return Some(SW_WRONG_DATA_LENGTH), changeLen;
    }
    ghost var whole := Entries(b[1..], changeLen);
    ExtendNone(whole);
    assert info[..0] == [];
    for i := 0 to changeLen
      invariant cdata.Valid()
      invariant ExtendsTo(whole, info[..i], Entries(cdata.Rest(), changeLen - i))
    {
      ghost var rest := cdata.Rest();
      ghost var read := info[..i];
      var okIndex, index := cdata.ReadU8();
      if !okIndex {
        ExtendFails(whole, read, rest, changeLen - i);
        return Some(SW_WRONG_DATA_LENGTH), changeLen;
      }
      var okPath, path := cdata.ReadBip32Path();
      if !okPath {
        ExtendFails(whole, read, rest, changeLen - i);
        return Some(SW_WRONG_DATA_LENGTH), changeLen;
      }
      assert rest[1..][1 + 4 * |path|..] == rest[2 + 4 * |path|..];
      info[i] := Change(index, path);
      assert info[..i + 1] == read + [Change(index, path)];
      ExtendOne(whole, read, Change(index, path), rest, changeLen - i);
    }
    ExtendAll(whole, info[..changeLen], cdata.Rest());
    return None, changeLen;
  }

  /** `whole` is what the entries already `read` and the parse of the rest amount to together. */
  ghost predicate ExtendsTo(whole: Option<Parsed>, read: seq<Change>, tail: Option<Parsed>) {
    whole == match tail { case None => None case Some(t) => Some((read + t.0, t.1)) }
  }

  lemma ExtendNone(whole: Option<Parsed>)
    ensures ExtendsTo(whole, [], whole)
  {
    if whole.Some? {
      assert [] + whole.value.0 == whole.value.0;
    }
  }

  lemma ExtendAll(whole: Option<Parsed>, read: seq<Change>, b: seq<byte>)
    requires ExtendsTo(whole, read, Entries(b, 0))
    ensures whole == Some((read, b))
  {
    assert read + [] == read;
  }

  lemma ExtendFails(whole: Option<Parsed>, read: seq<Change>, b: seq<byte>, n: nat)
    requires n > 0 && ExtendsTo(whole, read, Entries(b, n))
    requires |b| < 1 || PathOf(b[1..]).None?
    ensures whole == None
  {
  }

  lemma ExtendOne(whole: Option<Parsed>, read: seq<Change>, c: Change, rest: seq<byte>, n: nat)
    requires n > 0 && ExtendsTo(whole, read, Entries(rest, n))
    requires |rest| >= 1 && PathOf(rest[1..]) == Some(c.path) && c.index == rest[0]
    ensures ExtendsTo(whole, read + [c], Entries(rest[2 + 4 * |c.path|..], n - 1))
  {
    var tail := Entries(rest[2 + 4 * |c.path|..], n - 1);
    if tail.Some? {
      assert read + ([c] + tail.value.0) == (read + [c]) + tail.value.0;
    }
  }

  /** Copies the path words behind their length into a zeroed buffer of the largest path. */
  method ScratchBuffer(n: nat, cdata: Buffer) returns (buffer: array<byte>)
    requires cdata.Valid() && n <= MAX_BIP32_PATH && 4 * n <= |cdata.Rest()|
    ensures fresh(buffer) && buffer.Length == 1 + 4 * MAX_BIP32_PATH
    ensures buffer[..] == Scratch(n, cdata.Rest())
  {
    buffer := new byte[1 + 4 * MAX_BIP32_PATH](_ => 0);
    buffer[0] := n;
    forall i | 0 <= i < 4 * n {
      buffer[1 + i] := cdata.ptr[cdata.offset + i];
    }
  }

  method ReadOldProtocol(head: byte, cdata: Buffer, info: array<Change>) returns (thrown: Option<nat>, changeLen: nat)
    requires cdata.Valid() && info.Length == MAX_CHANGES
    modifies cdata`offset, info
    ensures cdata.Valid()
    ensures var r := Old(head, old(cdata.Rest()));
            if r.Thrown? then thrown == Some(r.code)
            else
              && thrown == None && changeLen <= MAX_CHANGES
              && info[..changeLen] == r.value.0 && cdata.Rest() == r.value.1
  {
    hide PathOf, ValidPath, Scratch;
    ghost var b := cdata.Rest();
    changeLen := 1;
    var ok, index := cdata.ReadU8();
    if !ok {
      return Some(SW_WRONG_DATA_LENGTH), changeLen;
    }
    var n: nat := head % 16;
    if n > MAX_BIP32_PATH || cdata.size - cdata.offset < 4 * n {
      return Some(SW_WRONG_DATA_LENGTH), changeLen;
    }
    var buffer := ScratchBuffer(n, cdata);
    var moved := cdata.SeekCur(4 * n);
    assert b[1..][4 * n..] == b[1 + 4 * n..];
    var bufdata := new Buffer(buffer, 1 + 4 * MAX_BIP32_PATH);
    assert bufdata.Rest() == buffer[..];
    var okPath, path := bufdata.ReadBip32Path();
    if !okPath {
      return Some(SW_WRONG_DATA_LENGTH), changeLen;
    }
    info[0] := Change(index, path);
    assert info[..1] == [Change(index, path)];
    return None, changeLen;
  }

  method ReadChangeInfo(cdata: Buffer, info: array<Change>) returns (thrown: Option<nat>, changeLen: nat)
    requires cdata.Valid() && info.Length == MAX_CHANGES
    modifies cdata`offset, info
    ensures cdata.Valid()
    ensures var r := Read(old(cdata.Rest()));
            if r.Thrown? then thrown == Some(r.code)
            else
              && thrown == None && changeLen <= MAX_CHANGES
              && info[..changeLen] == r.value.0 && cdata.Rest() == r.value.1
  {
    hide V1, Old;
    var ok, protoVersion := cdata.ReadU8();
    if !ok {
      return Some(SW_WRONG_DATA_LENGTH), 0;
    }
    if protoVersion == 0 {
      return None, 0;
    }
    if protoVersion >= 0x80 {
      thrown, changeLen := ReadOldProtocol(protoVersion, cdata, info);
    } else if protoVersion == 1 {
      thrown, changeLen := ReadV1(cdata, info);
    } else {
      return Some(SW_INVALID_TX), 0;
    }
  }
}
