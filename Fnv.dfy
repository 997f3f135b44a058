/** The 32-bit FNV-1 hash that Go's `hash/fnv.New32` computes, as section 2 of
    the IETF draft "The FNV Non-Cryptographic Hash Algorithm"
    (draft-eastlake-fnv) defines it: start from the offset basis and, for
    each byte in turn, multiply by the FNV prime modulo 2^32 and then xor the
    byte into the low bits. */
module Fnv {
  import opened ByteStrings

  const OFFSET_BASIS_32: bv32 := 2166136261
  const PRIME_32: bv32 := 16777619

  /** One round of FNV-1: multiply first, then xor (FNV-1a does the two the
      other way round). `bv32` multiplication wraps modulo 2^32 as Go's
      `uint32` does. */
  function Round(h: bv32, b: Byte): (r: bv32)
    ensures r >> 8 == (h * PRIME_32) >> 8
  {
    (h * PRIME_32) ^ (b as int as bv32)
  }

  /** The state of a hash that was in state `h` after `data` is written to
      it, one byte at a time from the front. */
  function Absorb(h: bv32, data: Bytes): bv32
    decreases |data|
  {
    if data == [] then h else Absorb(Round(h, data[0]), data[1..])
  }

  /** `Sum32` of a fresh `fnv.New32()` after one `Write(data)`: the offset
      basis for no bytes; otherwise the hash of all but the last byte, put
      through one more round with the last byte. */
  function Sum32(data: Bytes): (h: bv32)
    ensures data == [] ==> h == OFFSET_BASIS_32
    ensures data != [] ==> h == Round(Absorb(OFFSET_BASIS_32, data[..|data| - 1]), data[|data| - 1])
  {
    if data == [] then OFFSET_BASIS_32
    else
      var n := |data| - 1;
      AbsorbLast(OFFSET_BASIS_32, data[..n], data[n]);
      assert data[..n] + [data[n]] == data;
      Absorb(OFFSET_BASIS_32, data)
  }

  /** Writing `a` and then `b` leaves the hash in the state writing `a + b`
      at once does, so the hash can be fed in pieces. */
  lemma {:induction false} AbsorbConcat(h: bv32, a: Bytes, b: Bytes)
    ensures Absorb(h, a + b) == Absorb(Absorb(h, a), b)
    decreases |a|
  {
    if a != [] {
      assert (a + b)[0] == a[0] && (a + b)[1..] == a[1..] + b;
      AbsorbConcat(Round(h, a[0]), a[1..], b);
    } else {
      assert a + b == b;
    }
  }

  /** The last byte written is the last round applied. */
  lemma AbsorbLast(h: bv32, a: Bytes, b: Byte)
    ensures Absorb(h, a + [b]) == Round(Absorb(h, a), b)
  {
    AbsorbConcat(h, a, [b]);
    assert [b][1..] == [];
  }

  /** Test vectors of FNV-1 32: the empty string hashes to the offset
      basis, and "a" to the value the draft lists for FNV-1 (FNV-1a gives
      0xe40c292c for "a"). */
  lemma TestVectors()
    ensures Sum32("") == 0x811c9dc5
    ensures Sum32("a") == 0x050c5d7e
  {
    assert OFFSET_BASIS_32 * PRIME_32 == 0x050c5d1f;
    assert Round(OFFSET_BASIS_32, 'a') == 0x050c5d7e;
    assert "a"[0] == 'a' && "a"[1..] == [];
  }
}
