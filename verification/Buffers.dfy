/** The byte cursor every parser reads through (src/common/buffer.c). */
module Buffers {
  import opened Common
  import opened Positional
  import opened Reads
  import opened Bip32

  /** One more than the largest size_t of the 32-bit target. */
  const SIZE_RANGE: nat := 0x1_0000_0000

  class Buffer {
    const ptr: array<byte>
    const size: nat
    var offset: nat

    ghost predicate Valid()
      reads this
    {
      offset <= size <= ptr.Length && size < SIZE_RANGE
    }

    /** The bytes not read yet. */
    ghost function Rest(): seq<byte>
      requires Valid()
      reads this, ptr
    {
      ptr[offset..size]
    }

    constructor (ptr: array<byte>, size: nat)
      requires size <= ptr.Length && size < SIZE_RANGE
      ensures Valid() && this.ptr == ptr && this.size == size && offset == 0
      ensures Rest() == ptr[..size]
    {
      this.ptr, this.size, offset := ptr, size, 0;
    }

    predicate CanRead(n: nat)
      requires Valid()
      reads this
    {
      size - offset >= n
    }

    /** Moves on by `n`; the sum is taken modulo the range of size_t, as the source guards against. */
    method SeekCur(n: nat) returns (ok: bool)
      requires Valid() && n < SIZE_RANGE
      modifies `offset
      ensures Valid() && ok == (n <= |old(Rest())|)
      ensures offset == if ok then old(offset) + n else old(offset)
      ensures ok ==> Rest() == old(Rest())[n..]
    {
      var sum := (offset + n) % SIZE_RANGE;
      if sum < offset || sum > size {
        return false;
      }
      offset := sum;
      return true;
    }

    method ReadU8() returns (ok: bool, value: byte)
      requires Valid()
      modifies `offset
      ensures Valid() && ok == (|old(Rest())| >= 1)
      ensures if ok then value == old(Rest())[0] && Rest() == old(Rest())[1..] && offset == old(offset) + 1
              else value == 0 && offset == old(offset)
    {
      if !CanRead(1) {
        return false, 0;
      }
      value := ptr[offset];
      ok := SeekCur(1);
    }

    method ReadU16() returns (ok: bool, value: nat)
      requires Valid()
      modifies `offset
      ensures Valid() && ok == (|old(Rest())| >= 2)
      ensures if ok then
                && value == Value(old(Rest())[..2], 256)
                && Rest() == old(Rest())[2..] && offset == old(offset) + 2
              else value == 0 && offset == old(offset)
    {
      if !CanRead(2) {
        return false, 0;
      }
      value := ReadU16Be(ptr, offset);
      assert Rest()[..2] == ptr[offset..offset + 2];
      ok := SeekCur(2);
    }

    method ReadU32() returns (ok: bool, value: nat)
      requires Valid()
      modifies `offset
      ensures Valid() && ok == (|old(Rest())| >= 4)
      ensures if ok then
                && value == Value(old(Rest())[..4], 256)
                && Rest() == old(Rest())[4..] && offset == old(offset) + 4
              else value == 0 && offset == old(offset)
    {
      if !CanRead(4) {
        return false, 0;
      }
      value := ReadU32Be(ptr, offset);
      assert Rest()[..4] == ptr[offset..offset + 4];
      ok := SeekCur(4);
    }

    method ReadU64() returns (ok: bool, value: nat)
      requires Valid()
      modifies `offset
      ensures Valid() && ok == (|old(Rest())| >= 8)
      ensures if ok then
                && value == Value(old(Rest())[..8], 256)
                && Rest() == old(Rest())[8..] && offset == old(offset) + 8
              else value == 0 && offset == old(offset)
    {
      if !CanRead(8) {
        return false, 0;
      }
      value := ReadU64Be(ptr, offset);
      assert Rest()[..8] == ptr[offset..offset + 8];
      ok := SeekCur(8);
    }

    /** Reads a length byte and that many path components. */
    method ReadBip32Path() returns (ok: bool, path: seq<nat>)
      requires Valid()
      modifies `offset
      ensures Valid() && ok == PathOf(old(Rest())).Some?
      ensures if ok then path == PathOf(old(Rest())).value && Rest() == old(Rest())[1 + 4 * |path|..]
                         && offset == old(offset) + 1 + 4 * |path|
              else offset == old(offset)
    {
      ok, path := PathRead(ptr, offset, size - offset);
      if ok {
        var moved := SeekCur(1 + 4 * |path|);
      }
    }

    /** Copies the rest to `out[at..]`, if `room` bytes are enough for it. */
    method Copy(out: array<byte>, at: nat, room: nat) returns (ok: bool)
      requires Valid() && at + room <= out.Length && out != ptr
      modifies out
      ensures ok == (|Rest()| <= room)
      ensures out[..] == if ok then old(out[..at]) + Rest() + old(out[at + |Rest()|..]) else old(out[..])
    {
      if size - offset > room {
        return false;
      }
      forall i | 0 <= i < size - offset {
        out[at + i] := ptr[offset + i];
      }
      return true;
    }
  }
}
