/** 32-bit words: exclusive or, bytes, byte order, and the native reads and
    writes of tuklib_integer.h that the check code uses.  `be` says whether the
    machine is big endian (WORDS_BIGENDIAN).

    Bit-vector facts are proved here, one small lemma each; users of this module
    hide the definitions and reason with the lemmas alone. */
module Words {

  function Xor(x: bv32, y: bv32): bv32 { x ^ y }

  function Not(x: bv32): bv32 { !x }

  /** A byte widened to a word. */
  function Wide(b: bv8): bv32 { b as bv32 }

  // The bytes of a word, lowest first.
  function Byte0(x: bv32): bv8 { (x & 0xFF) as bv8 }
  function Byte1(x: bv32): bv8 { ((x >> 8) & 0xFF) as bv8 }
  function Byte2(x: bv32): bv8 { ((x >> 16) & 0xFF) as bv8 }
  function Byte3(x: bv32): bv8 { (x >> 24) as bv8 }

  function LowBit(x: bv32): bool { x & 1 == 1 }
  function Half(x: bv32): bv32 { x >> 1 }

  function Shl8(x: bv32): bv32 { x << 8 }
  function Shr8(x: bv32): bv32 { x >> 8 }

  function Bswap32(x: bv32): bv32 {
    (x >> 24) | ((x >> 8) & 0xFF00) | ((x << 8) & 0xFF_0000) | (x << 24)
  }

  /** A little endian value as the register of the given machine holds it. */
  function Native(be: bool, x: bv32): bv32 {
    if be then Bswap32(x) else x
  }

  function Le32(b0: bv8, b1: bv8, b2: bv8, b3: bv8): bv32 {
    (b0 as bv32) | ((b1 as bv32) << 8) | ((b2 as bv32) << 16) | ((b3 as bv32) << 24)
  }

  /** aligned_read32ne */
  function Read32ne(be: bool, s: seq<bv8>): bv32
    requires |s| == 4
  {
    if be then Le32(s[3], s[2], s[1], s[0]) else Le32(s[0], s[1], s[2], s[3])
  }

  /** conv32be */
  function Conv32be(be: bool, x: bv32): bv32 {
    if be then x else Bswap32(x)
  }

  /** Memory image of a 32-bit store on the given machine. */
  function Store32ne(be: bool, x: bv32): (s: seq<bv8>)
    ensures |s| == 4
  {
    if be then [Byte3(x), Byte2(x), Byte1(x), Byte0(x)] else [Byte0(x), Byte1(x), Byte2(x), Byte3(x)]
  }

  // ---------- exclusive or ----------

  lemma XorCommutes(x: bv32, y: bv32)
    ensures Xor(x, y) == Xor(y, x)
  {
  }

  lemma XorAssociates(x: bv32, y: bv32, z: bv32)
    ensures Xor(Xor(x, y), z) == Xor(x, Xor(y, z))
  {
  }

  lemma XorRegroup(a: bv32, b: bv32, c: bv32, d: bv32, e: bv32)
    ensures Xor(Xor(Xor(a, b), c), d) == Xor(a, Xor(b, Xor(c, d)))
    ensures Xor(Xor(Xor(Xor(a, b), e), c), d) == Xor(e, Xor(a, Xor(b, Xor(c, d))))
  {
    hide Xor;
    var ab, cd := Xor(a, b), Xor(c, d);
    XorAssociates(a, b, cd);
    XorAssociates(ab, c, d);
    XorAssociates(Xor(ab, e), c, d);
    XorCommutes(ab, e);
    XorAssociates(e, ab, cd);
  }

  lemma XorTwice(x: bv32, p: bv32)
    ensures Xor(Xor(x, p), p) == x
  {
  }

  lemma XorCancels(x: bv32, y: bv32, p: bv32)
    ensures Xor(Xor(x, p), y) == Xor(Xor(x, y), p)
    ensures Xor(x, Xor(y, p)) == Xor(Xor(x, y), p)
    ensures Xor(Xor(x, p), Xor(y, p)) == Xor(x, y)
  {
    hide Xor;
    XorAssociates(x, p, y);
    XorCommutes(p, y);
    XorAssociates(x, y, p);
    XorAssociates(Xor(x, p), y, p);
    XorTwice(Xor(x, y), p);
  }

  lemma HalfXor(x: bv32, y: bv32)
    ensures Half(Xor(x, y)) == Xor(Half(x), Half(y))
  {
  }

  lemma LowBitRaw(x: bv32, y: bv32)
    ensures x & 1 == 0 || x & 1 == 1
    ensures (x ^ y) & 1 == (x & 1) ^ (y & 1)
  {
  }

  lemma LowBitXor(x: bv32, y: bv32)
    ensures LowBit(Xor(x, y)) == (LowBit(x) != LowBit(y))
  {
    LowBitRaw(x, y);
    LowBitRaw(y, x);
  }

  lemma NotNot(x: bv32)
    ensures Not(Not(x)) == x
  {
  }

  // ---------- bytes of a word ----------

  lemma SplitLowByte(x: bv32)
    ensures Xor(Wide(Byte0(x)), Shl8(Shr8(x))) == x
    ensures Shr8(x) & 0xFF00_0000 == 0
  {
  }

  lemma XorLowByte(x: bv32, b: bv8)
    ensures Byte0(Xor(x, Wide(b))) == b ^ Byte0(x)
    ensures Shr8(Xor(x, Wide(b))) == Shr8(x)
  {
  }

  lemma BytesOfShift(x: bv32)
    ensures Byte0(Shr8(x)) == Byte1(x)
    ensures Byte0(Shr8(Shr8(x))) == Byte2(x)
    ensures Shr8(Shr8(Shr8(x))) == Wide(Byte3(x))
  {
  }

  lemma BytesOfLe32(b0: bv8, b1: bv8, b2: bv8, b3: bv8)
    ensures var x := Le32(b0, b1, b2, b3);
            Byte0(x) == b0 && Byte1(x) == b1 && Byte2(x) == b2 && Byte3(x) == b3
  {
  }

  lemma Le32OfBytes(x: bv32)
    ensures Le32(Byte0(x), Byte1(x), Byte2(x), Byte3(x)) == x
  {
  }

  lemma ShiftLe32(b0: bv8, b1: bv8, b2: bv8, b3: bv8)
    ensures Shr8(Le32(b0, b1, b2, b3)) == Le32(b1, b2, b3, 0)
    ensures Shl8(Le32(b0, b1, b2, b3)) == Le32(0, b0, b1, b2)
  {
  }

  // ---------- byte order ----------

  lemma Bswap32Involutive(x: bv32)
    ensures Bswap32(Bswap32(x)) == x
  {
  }

  lemma Bswap32Xor(x: bv32, y: bv32)
    ensures Bswap32(Xor(x, y)) == Xor(Bswap32(x), Bswap32(y))
  {
  }

  lemma Bswap32Le32(b0: bv8, b1: bv8, b2: bv8, b3: bv8)
    ensures Bswap32(Le32(b0, b1, b2, b3)) == Le32(b3, b2, b1, b0)
  {
  }

  lemma Bswap32Shift(x: bv32)
    ensures Shl8(Bswap32(x)) == Bswap32(Shr8(x))
  {
    hide *;
    var b0, b1, b2, b3 := Byte0(x), Byte1(x), Byte2(x), Byte3(x);
    Le32OfBytes(x);
    Bswap32Le32(b0, b1, b2, b3);
    ShiftLe32(b0, b1, b2, b3);
    ShiftLe32(b3, b2, b1, b0);
    Bswap32Le32(b1, b2, b3, 0);
  }

  lemma NativeXor(be: bool, x: bv32, y: bv32)
    ensures Native(be, Xor(x, y)) == Xor(Native(be, x), Native(be, y))
  {
    hide Bswap32, Xor;
    Bswap32Xor(x, y);
  }

  lemma NativeTwice(be: bool, x: bv32)
    ensures Native(be, Native(be, x)) == x
  {
    hide Bswap32;
    Bswap32Involutive(x);
  }

  lemma NativeRead(be: bool, s: seq<bv8>)
    requires |s| == 4
    ensures Read32ne(be, s) == Native(be, Le32(s[0], s[1], s[2], s[3]))
    ensures Conv32be(be, Read32ne(be, s)) == Le32(s[3], s[2], s[1], s[0])
  {
    hide Bswap32, Le32;
    Bswap32Le32(s[0], s[1], s[2], s[3]);
  }

  lemma BytesOfBswap32(x: bv32)
    ensures var y := Bswap32(x);
            Byte0(y) == Byte3(x) && Byte1(y) == Byte2(x) && Byte2(y) == Byte1(x) && Byte3(y) == Byte0(x)
  {
  }

  /** conv32be followed by a native store puts the high byte first on both
      kinds of machine. */
  lemma StoreConverted(be: bool, x: bv32)
    ensures Store32ne(be, Conv32be(be, x)) == [Byte3(x), Byte2(x), Byte1(x), Byte0(x)]
  {
    hide Bswap32, Byte0, Byte1, Byte2, Byte3;
    BytesOfBswap32(x);
  }
}
