/** Big-endian reads at an offset (src/common/read.c). */
module Reads {
  import opened Common
  import opened Positional

  method ReadU16Be(p: array<byte>, o: nat) returns (v: nat)
    requires o + 2 <= p.Length
    ensures v == Value(p[o..o + 2], 256) < 0x1_0000
  {
    ValueOf2(p[o..o + 2]);
    v := 0x100 * p[o] as nat + p[o + 1] as nat;
  }

  method ReadU32Be(p: array<byte>, o: nat) returns (v: nat)
    requires o + 4 <= p.Length
    ensures v == Value(p[o..o + 4], 256) < 0x1_0000_0000
  {
    ValueOf4(p[o..o + 4]);
    v := 0x1000000 * p[o] as nat + 0x10000 * p[o + 1] as nat + 0x100 * p[o + 2] as nat + p[o + 3] as nat;
  }

  method ReadU64Be(p: array<byte>, o: nat) returns (v: nat)
    requires o + 8 <= p.Length
    ensures v == Value(p[o..o + 8], 256) < 0x1_0000_0000_0000_0000
  {
    ValueOf8(p[o..o + 8]);
    assert p[o..o + 8][..4] == p[o..o + 4] && p[o..o + 8][4..] == p[o + 4..o + 4 + 4];
    var hi := ReadU32Be(p, o);
    var lo := ReadU32Be(p, o + 4);
    v := 0x1_0000_0000 * hi + lo;
  }
}
