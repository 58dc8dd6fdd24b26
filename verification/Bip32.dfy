/** BIP32 paths on the wire (src/common/bip32.c, bip32_path_read). */
module Bip32 {
  import opened Common
  import opened Positional
  import opened Reads

  const MAX_DERIVATION_INDEX: nat := 0x10_0000

  /** A path the device accepts: at most five components, the change level 0 or 1, the address
      level at most 2^20. */
  predicate ValidPath(p: seq<nat>) {
    && |p| <= MAX_BIP32_PATH
    && AreWords(p)
    && (|p| > 4 ==> p[4] <= MAX_DERIVATION_INDEX)
    && (|p| > 3 ==> p[3] <= 1)
  }

  function Words(b: seq<byte>, n: nat): (w: seq<nat>)
    requires 4 * n <= |b|
    ensures |w| == n && forall i :: 0 <= i < n ==> w[i] == Value(b[4 * i..4 * i + 4], 256)
  {
    seq(n, i requires 0 <= i < n => Value(b[4 * i..4 * i + 4], 256))
  }

  /** The path at the front of `b`, if the device accepts it. */
  function PathOf(b: seq<byte>): (r: Option<seq<nat>>)
    ensures r.Some? ==> |b| >= 1 + 4 * |r.value| && b[0] == |r.value|
  {
    if |b| < 1 || b[0] > MAX_BIP32_PATH || 4 * b[0] as nat + 1 > |b| then None
    else
      var p := Words(b[1..], b[0]);
      if |p| > 4 && p[4] > MAX_DERIVATION_INDEX then None
      else if |p| > 3 && p[3] > 1 then None
      else Some(p)
  }

  // ---- The client's serialization ----

  function WordBytes(p: seq<nat>): (b: seq<byte>)
    ensures |b| == 4 * |p|
  {
    if p == [] then [] else ToBytes(p[0], 4) + WordBytes(p[1..])
  }

  predicate AreWords(p: seq<nat>) {
    forall i :: 0 <= i < |p| ==> p[i] < 0x1_0000_0000
  }

  function PathBytes(p: seq<nat>): (b: seq<byte>)
    requires |p| < 256
    ensures |b| == 1 + 4 * |p|
  {
    [|p|] + WordBytes(p)
  }

  lemma {:induction false} WordsOfBytes(p: seq<nat>, rest: seq<byte>, i: nat)
    requires i < |p| && p[i] < 0x1_0000_0000
    ensures Value((WordBytes(p) + rest)[4 * i..4 * i + 4], 256) == p[i]
  {
    hide Value, ToBytes;
    var b := WordBytes(p) + rest;
    if i == 0 {
      assert b[0..4] == ToBytes(p[0], 4);
      WordPower();
      BytesValue(p[0], 4);
    } else {
      WordsOfBytes(p[1..], rest, i - 1);
      assert b[4..] == WordBytes(p[1..]) + rest;
      assert b[4 * i..4 * i + 4] == b[4..][4 * (i - 1)..4 * (i - 1) + 4];
    }
  }

  lemma WordPower()
    ensures Pow(256, 4) == 0x1_0000_0000
  {
  }

  lemma {:induction false} BytesOfWords(b: seq<byte>, n: nat)
    requires |b| == 4 * n
    ensures WordBytes(Words(b, n)) == b && AreWords(Words(b, n))
  {
    hide Value, ToBytes;
    if n > 0 {
      BytesOfWords(b[4..], n - 1);
      var w := Words(b, n);
      forall i | 0 <= i < n - 1
        ensures w[1..][i] == Words(b[4..], n - 1)[i]
      {
        assert b[4 * (i + 1)..4 * (i + 1) + 4] == b[4..][4 * i..4 * i + 4];
      }
      assert w[1..] == Words(b[4..], n - 1);
      ValueBytes(b[0..4]);
      ValueBound(b[0..4], 256);
      WordPower();
      assert b == b[0..4] + b[4..];
    }
  }

  /** Of the serialized paths the device accepts exactly the valid ones, and reads them back. */
  lemma PathRoundTrip(p: seq<nat>, rest: seq<byte>)
    requires |p| < 256 && AreWords(p)
    ensures PathOf(PathBytes(p) + rest) == if ValidPath(p) then Some(p) else None
  {
    hide Value, WordBytes;
    var b := PathBytes(p) + rest;
    assert b[1..] == WordBytes(p) + rest;
    if |p| <= MAX_BIP32_PATH {
      forall i | 0 <= i < |p|
        ensures Words(b[1..], |p|)[i] == p[i]
      {
        WordsOfBytes(p, rest, i);
      }
      assert Words(b[1..], |p|) == p;
    }
  }

  /** Whatever the device accepts is the serialization of a valid path. */
  lemma AcceptedPath(b: seq<byte>)
    requires PathOf(b).Some?
    ensures var p := PathOf(b).value; ValidPath(p) && b[..1 + 4 * |p|] == PathBytes(p)
  {
    hide Value, WordBytes;
    var p := PathOf(b).value;
    var t := b[1..];
    var w := t[..4 * |p|];
    BytesOfWords(w, |p|);
    forall i | 0 <= i < |p|
      ensures Words(w, |p|)[i] == p[i]
    {
      assert w[4 * i..4 * i + 4] == t[4 * i..4 * i + 4];
    }
    assert Words(w, |p|) == p;
    assert b[..1 + 4 * |p|] == [b[0]] + w;
  }

  /** Which bytes are accepted as a path: at most five words, the fourth at most 1, the fifth at most
      1,048,576. */
  lemma AcceptsExactly(b: seq<byte>)
    ensures PathOf(b).Some? <==>
            && |b| >= 1 && b[0] <= 5 && |b| >= 1 + 4 * b[0]
            && (b[0] >= 4 ==> Value(b[13..17], 256) <= 1) && (b[0] == 5 ==> Value(b[17..21], 256) <= 1_048_576)
  {
    hide Value;
    if |b| >= 1 && b[0] <= 5 && |b| >= 1 + 4 * b[0] {
      var w := Words(b[1..], b[0]);
      assert b[0] >= 4 ==> b[1..][4 * 3..4 * 3 + 4] == b[13..17];
      assert b[0] == 5 ==> b[1..][4 * 4..4 * 4 + 4] == b[17..21];
    }
  }

  lemma SliceOfRest<T>(s: seq<T>, at: nat, n: nat, j: nat)
    requires j + 5 <= n && at + n <= |s|
    ensures s[at..at + n][1..][j..j + 4] == s[at + 1 + j..at + 1 + j + 4]
  {
  }

  /** `bip32_path_read` on the `inLen` bytes at `in_ + at`. */
  method PathRead(in_: array<byte>, at: nat, inLen: nat) returns (ok: bool, path: seq<nat>)
    requires at + inLen <= in_.Length
    ensures ok == PathOf(in_[at..at + inLen]).Some?
    ensures ok ==> path == PathOf(in_[at..at + inLen]).value
  {
    hide Value;
    ghost var b := in_[at..at + inLen];
    path := [];
    if inLen < 1 || in_[at] > MAX_BIP32_PATH || in_[at] as nat * 4 + 1 > inLen {
      return false, path;
    }
    var offset := 1;
    var length: nat := in_[at];
    for i := 0 to length
      invariant offset == 1 + 4 * i && |path| == i && length == b[0]
      invariant path == Words(b[1..], length)[..i]
    {
      var word := ReadU32Be(in_, at + offset);
      SliceOfRest(in_[..], at, inLen, 4 * i);
      path := path + [word];
      offset := offset + 4;
    }
    if length > 4 && path[4] > MAX_DERIVATION_INDEX {
      return false, path;
    }
    if length > 3 && path[3] > 1 {
      return false, path;
    }
    return true, path;
  }
}
