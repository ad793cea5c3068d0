/** Bytes, machine words and the byte-order conversions of a little-endian host. */
module Bytes {
  type byte = b: int | 0 <= b < 0x100
  type uint16 = w: int | 0 <= w < 0x1_0000
  type uint32 = w: int | 0 <= w < 0x1_0000_0000

  function Min(a: int, b: int): int {
    if a <= b then a else b
  }

  /** `htons` and `ntohs`: exchange the two bytes of a 16-bit word. */
  function Swap16(w: uint16): (r: uint16) {
    w % 0x100 * 0x100 + w / 0x100
  }

  /** The word whose bytes, from the least significant up, are `b0`, `b1`, `b2`, `b3`. */
  function Word32(b0: byte, b1: byte, b2: byte, b3: byte): uint32 {
    b0 + 0x100 * (b1 + 0x100 * (b2 + 0x100 * b3))
  }

  /** Byte `k` of a word, counted from the least significant. */
  function Byte32(w: uint32, k: nat): byte
    requires k < 4
  {
    if k == 0 then w % 0x100 else Byte32(w / 0x100, k - 1)
  }

  /** `htonl` and `ntohl`: reverse the four bytes of a 32-bit word. */
  function Swap32(w: uint32): uint32 {
    Word32(Byte32(w, 3), Byte32(w, 2), Byte32(w, 1), Byte32(w, 0))
  }

  lemma BytesOfWord(b0: byte, b1: byte, b2: byte, b3: byte)
    ensures var w := Word32(b0, b1, b2, b3);
      Byte32(w, 0) == b0 && Byte32(w, 1) == b1 && Byte32(w, 2) == b2 && Byte32(w, 3) == b3
  {
    var q2 := b2 + 0x100 * b3;
    var q1 := b1 + 0x100 * q2;
    var w := b0 + 0x100 * q1;
    assert w % 0x100 == b0 && w / 0x100 == q1;
    assert q1 % 0x100 == b1 && q1 / 0x100 == q2;
    assert q2 % 0x100 == b2 && q2 / 0x100 == b3;
    assert Byte32(q2, 1) == Byte32(b3, 0) == b3;
    assert Byte32(q1, 2) == b3 && Byte32(q1, 1) == b2;
  }

  lemma WordOfBytes(w: uint32)
    ensures Word32(Byte32(w, 0), Byte32(w, 1), Byte32(w, 2), Byte32(w, 3)) == w
  {
    var q1 := w / 0x100;
    var q2 := q1 / 0x100;
    var q3 := q2 / 0x100;
    assert q1 < 0x100_0000;
    assert q2 < 0x1_0000;
    assert q3 < 0x100;
    assert w == w % 0x100 + 0x100 * q1;
    assert q1 == Byte32(w, 1) + 0x100 * q2;
    assert q2 == Byte32(w, 2) + 0x100 * q3 by {
      assert Byte32(w, 2) == Byte32(q1, 1) == Byte32(q2, 0);
    }
    assert q3 == Byte32(w, 3) by {
      assert Byte32(w, 3) == Byte32(q1, 2) == Byte32(q2, 1) == Byte32(q3, 0);
    }
  }

  /** The bytes of a word are its digits to the base 0x100. */
  lemma Digits(w: uint32)
    ensures w == Byte32(w, 0) + 0x100 * Byte32(w, 1) + 0x1_0000 * Byte32(w, 2) + 0x100_0000 * Byte32(w, 3)
  {
    WordOfBytes(w);
  }

  /** Conversion reverses the bytes: by position, ... */
  lemma Swap32Reverses(w: uint32)
    ensures forall k: nat | k < 4 :: Byte32(Swap32(w), k) == Byte32(w, 3 - k)
  {
    BytesOfWord(Byte32(w, 3), Byte32(w, 2), Byte32(w, 1), Byte32(w, 0));
  }

  /** ... and as numbers. */
  lemma Swap32OfBytes(b0: byte, b1: byte, b2: byte, b3: byte)
    ensures Swap32(b0 + 0x100 * b1 + 0x1_0000 * b2 + 0x100_0000 * b3)
         == b3 + 0x100 * b2 + 0x1_0000 * b1 + 0x100_0000 * b0
  {
    BytesOfWord(b0, b1, b2, b3);
    assert Word32(b0, b1, b2, b3) == b0 + 0x100 * b1 + 0x1_0000 * b2 + 0x100_0000 * b3;
  }

  /** A number that fits in a byte goes on the wire as that byte followed by zeros. */
  lemma Swap32OfByte(b: byte)
    ensures Swap32(b) == 0x100_0000 * b
  {
    Swap32OfBytes(b, 0, 0, 0);
  }

  /** Conversion to network order is undone by conversion to host order. */
  lemma Swap32Involutive(w: uint32)
    ensures Swap32(Swap32(w)) == w
  {
    BytesOfWord(Byte32(w, 3), Byte32(w, 2), Byte32(w, 1), Byte32(w, 0));
    WordOfBytes(w);
  }

  lemma SmallWordSwapped(w: uint32)
    requires 1 <= w < 0x1_0000
    ensures Swap32(w) >= 0x1_0000
  {
    var b0, b1 := w % 0x100, w / 0x100;
    assert b1 < 0x100 && w == Word32(b0, b1, 0, 0);
    BytesOfWord(b0, b1, 0, 0);
    assert Swap32(w) == Word32(0, 0, b1, b0) == 0x1_0000 * (b1 + 0x100 * b0);
  }

  /**
   * The server compares its window against acknowledgement words it stored in network order.
   * No such word falls in the range of the sequence numbers exactly when the range stays below 2^16.
   */
  lemma RawWordsNeverMatchIff(modulus: uint32)
    requires 1 <= modulus
    ensures (forall x: uint32 | 1 <= x <= modulus :: !(1 <= Swap32(x) <= modulus)) <==> modulus < 0x1_0000
  {
    if modulus < 0x1_0000 {
      forall x: uint32 | 1 <= x <= modulus
        ensures !(1 <= Swap32(x) <= modulus)
      {
        SmallWordSwapped(x);
      }
    } else {
      assert 0x1_0000 == Word32(0, 0, 1, 0);
      BytesOfWord(0, 0, 1, 0);
      assert Swap32(0x1_0000) == Word32(0, 1, 0, 0) == 0x100;
    }
  }
}
