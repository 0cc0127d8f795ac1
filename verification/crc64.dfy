/** CRC64 (check/crc64_small.c), and the errors it is certain to detect.

    Same shape as Crc32 and Crc32Meaning with a 64-bit register. */
module Crc64 {
  import Gf2

  const POLY64: bv64 := 0xC96C_5795_D787_0F42

  // ---------- 64-bit words ----------

  function Xor(x: bv64, y: bv64): bv64 { x ^ y }
  function Not(x: bv64): bv64 { !x }
  function Wide(b: bv8): bv64 { b as bv64 }
  function Byte0(x: bv64): bv8 { (x & 0xFF) as bv8 }
  function LowBit(x: bv64): bool { x & 1 == 1 }
  function Half(x: bv64): bv64 { x >> 1 }
  function Shl8(x: bv64): bv64 { x << 8 }
  function Shr8(x: bv64): bv64 { x >> 8 }

  lemma XorCommutes(x: bv64, y: bv64)
    ensures Xor(x, y) == Xor(y, x)
  {
  }

  lemma XorRaw(x: bv64, y: bv64, z: bv64, xy: bv64, yz: bv64)
    requires xy == x ^ y && yz == y ^ z
    ensures xy ^ z == x ^ yz
  {
  }

  lemma XorIs(x: bv64, y: bv64)
    ensures Xor(x, y) == x ^ y
  {
  }

  lemma XorAssociates(x: bv64, y: bv64, z: bv64)
    ensures Xor(Xor(x, y), z) == Xor(x, Xor(y, z))
  {
    XorIs(x, y);
    XorIs(y, z);
    XorIs(Xor(x, y), z);
    XorIs(x, Xor(y, z));
    hide Xor;
    XorRaw(x, y, z, Xor(x, y), Xor(y, z));
  }

  lemma XorTwice(x: bv64, p: bv64)
    ensures Xor(Xor(x, p), p) == x
  {
  }

  lemma XorCancels(x: bv64, y: bv64, p: bv64)
    ensures Xor(Xor(x, p), y) == Xor(Xor(x, y), p)
    ensures Xor(x, Xor(y, p)) == Xor(Xor(x, y), p)
    ensures Xor(Xor(x, p), Xor(y, p)) == Xor(x, y)
  {
    hide Xor;
    XorAssociates(x, p, y);
    XorCommutes(p, y);
    XorAssociates(x, y, p);
    XorAssociates(Xor(x, p), y, p);
    XorTwice(Xor(x, y), p);
  }

  lemma NotNot(x: bv64)
    ensures Not(Not(x)) == x
  {
  }

  lemma HalfXor(x: bv64, y: bv64)
    ensures Half(Xor(x, y)) == Xor(Half(x), Half(y))
  {
  }

  lemma LowBitRaw(x: bv64, y: bv64)
    ensures x & 1 == 0 || x & 1 == 1
    ensures (x ^ y) & 1 == (x & 1) ^ (y & 1)
  {
  }

  lemma LowBitXor(x: bv64, y: bv64)
    ensures LowBit(Xor(x, y)) == (LowBit(x) != LowBit(y))
  {
    LowBitRaw(x, y);
    LowBitRaw(y, x);
  }

  lemma SplitLowByte(x: bv64)
    ensures Xor(Wide(Byte0(x)), Shl8(Shr8(x))) == x
    ensures Shr8(x) & 0xFF00_0000_0000_0000 == 0
  {
  }

  lemma XorLowByte(x: bv64, b: bv8)
    ensures Byte0(Xor(x, Wide(b))) == b ^ Byte0(x)
    ensures Shr8(Xor(x, Wide(b))) == Shr8(x)
  {
  }

  lemma ShiftedOut(r: bv64, b: bv8)
    ensures Shr8(Shr8(Shr8(Shr8(Shr8(Shr8(Shr8(Shr8(r)))))))) == 0
    ensures Shr8(Wide(b)) == 0
  {
  }

  lemma WideInjective(a: bv8, b: bv8)
    requires Wide(a) == Wide(b)
    ensures a == b
  {
  }

  // ---------- the bit-at-a-time register ----------

  function BitStep(r: bv64): bv64 {
    if LowBit(r) then Xor(Half(r), POLY64) else Half(r)
  }

  function Steps(n: nat, r: bv64): bv64 {
    if n == 0 then r else Steps(n - 1, BitStep(r))
  }

  /** The register after one byte: add it to the low end, then eight steps. */
  function ByteStep(r: bv64, b: bv8): bv64 {
    Steps(8, Xor(r, Wide(b)))
  }

  function Feed(r: bv64, buf: seq<bv8>): bv64
    decreases |buf|
  {
    if buf == [] then r else Feed(ByteStep(r, buf[0]), buf[1..])
  }

  /** What lzma_crc64 promises to return. */
  function Crc(buf: seq<bv8>, crc: bv64): bv64 {
    Not(Feed(Not(crc), buf))
  }

  // ---------- linearity ----------

  lemma BitStepXor(x: bv64, y: bv64)
    ensures BitStep(Xor(x, y)) == Xor(BitStep(x), BitStep(y))
  {
    hide Xor, Half, LowBit;
    HalfXor(x, y);
    LowBitXor(x, y);
    XorCancels(Half(x), Half(y), POLY64);
  }

  lemma {:induction false} StepsXor(n: nat, x: bv64, y: bv64)
    ensures Steps(n, Xor(x, y)) == Xor(Steps(n, x), Steps(n, y))
  {
    hide BitStep, Xor;
    if n > 0 {
      BitStepXor(x, y);
      StepsXor(n - 1, BitStep(x), BitStep(y));
    }
  }

  lemma {:induction false} StepsAdd(m: nat, n: nat, r: bv64)
    ensures Steps(m + n, r) == Steps(n, Steps(m, r))
  {
    hide BitStep;
    if m > 0 {
      StepsAdd(m - 1, n, BitStep(r));
    }
  }

  // ---------- a byte at a time ----------

  /** q is r moved down by one bit, and no 1 is lost. */
  predicate Halves(r: bv64, q: bv64) {
    r & 1 == 0 && r >> 1 == q
  }

  lemma StepsHalves(n: nat, r: bv64, q: bv64)
    requires n > 0 && Halves(r, q)
    ensures Steps(n, r) == Steps(n - 1, q)
  {
  }

  lemma HalvesDown(y: bv64)
    requires y & 0xFF00_0000_0000_0000 == 0
    ensures Halves(y << 8, y << 7) && Halves(y << 7, y << 6) && Halves(y << 6, y << 5)
    ensures Halves(y << 5, y << 4) && Halves(y << 4, y << 3) && Halves(y << 3, y << 2)
    ensures Halves(y << 2, y << 1) && Halves(y << 1, y)
  {
  }

  lemma Steps8Halves(a: bv64, b: bv64, c: bv64, d: bv64, e: bv64, f: bv64, g: bv64, h: bv64, i: bv64)
    requires Halves(a, b) && Halves(b, c) && Halves(c, d) && Halves(d, e)
    requires Halves(e, f) && Halves(f, g) && Halves(g, h) && Halves(h, i)
    ensures Steps(8, a) == i
  {
    hide Halves, BitStep;
    StepsHalves(8, a, b);
    StepsHalves(7, b, c);
    StepsHalves(6, c, d);
    StepsHalves(5, d, e);
    StepsHalves(4, e, f);
    StepsHalves(3, f, g);
    StepsHalves(2, g, h);
    StepsHalves(1, h, i);
  }

  /** Eight steps move a value that has no low byte down by one byte. */
  lemma Steps8Shl8(y: bv64)
    requires y & 0xFF00_0000_0000_0000 == 0
    ensures Steps(8, Shl8(y)) == y
  {
    hide Halves, Steps;
    HalvesDown(y);
    Steps8Halves(y << 8, y << 7, y << 6, y << 5, y << 4, y << 3, y << 2, y << 1, y);
  }

  /** Eight steps: a table lookup on the low byte, a shift for the rest. */
  lemma Steps8Split(x: bv64)
    ensures Steps(8, x) == Xor(Steps(8, Wide(Byte0(x))), Shr8(x))
  {
    hide *;
    SplitLowByte(x);
    StepsXor(8, Wide(Byte0(x)), Shl8(Shr8(x)));
    Steps8Shl8(Shr8(x));
  }

  /** The bytewise update of crc64_small.c. */
  lemma ByteStepByTable(r: bv64, b: bv8)
    ensures ByteStep(r, b) == Xor(Steps(8, Wide(b ^ Byte0(r))), Shr8(r))
  {
    hide Steps, Byte0, Shr8, Xor, Wide;
    Steps8Split(Xor(r, Wide(b)));
    XorLowByte(r, b);
  }

  // ---------- splitting a buffer ----------

  /** lzma_crc64 composes over splits of its input. */
  lemma {:induction false} FeedAppend(r: bv64, a: seq<bv8>, b: seq<bv8>)
    ensures Feed(r, a + b) == Feed(Feed(r, a), b)
    decreases |a|
  {
    hide ByteStep;
    if a == [] {
      assert a + b == b;
    } else {
      assert (a + b)[1..] == a[1..] + b;
      FeedAppend(ByteStep(r, a[0]), a[1..], b);
    }
  }

  lemma CrcAppend(a: seq<bv8>, b: seq<bv8>, crc: bv64)
    ensures Crc(a + b, crc) == Crc(b, Crc(a, crc))
  {
    hide Feed, Not;
    FeedAppend(Not(crc), a, b);
    NotNot(Feed(Not(crc), a));
  }

  /** The first byte of what is left of a buffer. */
  lemma FeedNext(r: bv64, buf: seq<bv8>, p: nat)
    requires p < |buf|
    ensures Feed(r, buf[p..]) == Feed(ByteStep(r, buf[p]), buf[p + 1..])
  {
    assert buf[p..][1..] == buf[p + 1..];
  }

  /** The low n bits of r, lowest first: the CRC is reflected, so bit 0 of the
      register is the coefficient of the highest power. */
  function ToBits(n: nat, r: bv64): (s: Gf2.Bits)
    ensures |s| == n
  {
    if n == 0 then [] else [LowBit(r)] + ToBits(n - 1, Half(r))
  }

  /** r has no bits above the low n. */
  predicate Fits(n: nat, r: bv64) {
    if n == 0 then r == 0 else Fits(n - 1, Half(r))
  }

  // ---------- bit facts ----------

  lemma HalfInjective(x: bv64, y: bv64)
    requires Half(x) == Half(y) && LowBit(x) == LowBit(y)
    ensures x == y
  {
  }

  lemma HalfOfZero()
    ensures Half(0) == 0 && !LowBit(0)
  {
  }

  /** n halvings. */
  function Halve(n: nat, r: bv64): bv64 {
    if n == 0 then r else Halve(n - 1, Half(r))
  }

  lemma {:induction false} FitsIsHalve(n: nat, r: bv64)
    ensures Fits(n, r) == (Halve(n, r) == 0)
  {
    hide Half;
    if n > 0 {
      FitsIsHalve(n - 1, Half(r));
    }
  }

  lemma {:induction false} HalveAdd(m: nat, n: nat, r: bv64)
    ensures Halve(m + n, r) == Halve(n, Halve(m, r))
  {
    hide Half;
    if m > 0 {
      HalveAdd(m - 1, n, Half(r));
    }
  }

  lemma HalveByteRaw(r: bv64)
    ensures Half(Half(Half(Half(Half(Half(Half(Half(r)))))))) == Shr8(r)
  {
  }

  lemma HalveTwice(n: nat, r: bv64)
    ensures Halve(n + 2, r) == Halve(n, Half(Half(r)))
  {
    assert Halve(n + 2, r) == Halve(n + 1, Half(r));
  }

  lemma HalveByte(r: bv64)
    ensures Halve(8, r) == Shr8(r)
  {
    hide Half, Shr8;
    var a := Half(Half(r));
    var b := Half(Half(a));
    var c := Half(Half(b));
    HalveTwice(6, r);
    HalveTwice(4, a);
    HalveTwice(2, b);
    HalveTwice(0, c);
    HalveByteRaw(r);
  }

  /** n whole bytes shifted out. */
  lemma {:induction false} HalveBytes(n: nat, r: bv64)
    ensures Halve(8 * n + 8, r) == Halve(8 * n, Shr8(r))
  {
    hide Half, Shr8, Halve;
    HalveAdd(8, 8 * n, r);
    HalveByte(r);
  }

  lemma EverythingFits(r: bv64, b: bv8)
    ensures Fits(64, r)
    ensures Fits(8, Wide(b))
  {
    hide Half, Shr8, Wide, Fits;
    FitsIsHalve(64, r);
    FitsIsHalve(8, Wide(b));
    var r1 := Shr8(r);
    var r2 := Shr8(r1);
    var r3 := Shr8(r2);
    var r4 := Shr8(r3);
    var r5 := Shr8(r4);
    var r6 := Shr8(r5);
    var r7 := Shr8(r6);
    HalveBytes(7, r);
    HalveBytes(6, r1);
    HalveBytes(5, r2);
    HalveBytes(4, r3);
    HalveBytes(3, r4);
    HalveBytes(2, r5);
    HalveBytes(1, r6);
    HalveBytes(0, r7);
    HalveBytes(0, Wide(b));
    ShiftedOut(r, b);
  }

  // ---------- words as polynomials ----------

  lemma {:induction false} ToBitsXor(n: nat, x: bv64, y: bv64)
    ensures ToBits(n, Xor(x, y)) == Gf2.Xor(ToBits(n, x), ToBits(n, y))
  {
    hide Half, LowBit, Xor;
    if n > 0 {
      HalfXor(x, y);
      LowBitXor(x, y);
      ToBitsXor(n - 1, Half(x), Half(y));
      hide Gf2.Xor;
      Gf2.XorCons(LowBit(x), ToBits(n - 1, Half(x)), LowBit(y), ToBits(n - 1, Half(y)));
    }
  }

  lemma {:induction false} ToBitsWider(n: nat, k: nat, r: bv64)
    requires Fits(n, r)
    ensures ToBits(n + k, r) == ToBits(n, r) + Gf2.Zeros(k)
  {
    hide Half, LowBit;
    if n > 0 {
      ToBitsWider(n - 1, k, Half(r));
    } else if k > 0 {
      HalfOfZero();
      ToBitsWider(0, k - 1, 0);
    }
  }

  lemma {:induction false} ToBitsInjective(n: nat, x: bv64, y: bv64)
    requires Fits(n, x) && Fits(n, y) && ToBits(n, x) == ToBits(n, y)
    ensures x == y
  {
    hide Half, LowBit;
    if n > 0 {
      assert ToBits(n, x)[1..] == ToBits(n - 1, Half(x)) && ToBits(n, y)[1..] == ToBits(n - 1, Half(y));
      assert ToBits(n, x)[0] == LowBit(x) && ToBits(n, y)[0] == LowBit(y);
      ToBitsInjective(n - 1, Half(x), Half(y));
      HalfInjective(x, y);
    }
  }

  // ---------- the register as a polynomial ----------

  /** The generator of ECMA-182 Annex B, without its leading term. */
  function Generator(): (g: Gf2.Bits)
    ensures |g| == 64
  {
    ToBits(64, POLY64)
  }

  lemma ToBitsUnfolds(n: nat, r: bv64)
    ensures ToBits(n + 1, r) == [LowBit(r)] + ToBits(n, Half(r))
  {
  }

  /** Halving the register shifts the polynomial up. */
  lemma HalfIsShift(r: bv64)
    ensures ToBits(64, Half(r)) == Gf2.Shift(ToBits(64, r))
  {
    hide Half, LowBit, Fits, ToBits;
    var h := Half(r);
    ToBitsUnfolds(63, r);
    assert Fits(63, h) by { EverythingFits(r, 0); FitsHalf(63, r); }
    ToBitsWider(63, 1, h);
    assert Gf2.Zeros(1) == [false];
  }

  lemma BitStepIsPolynomialStep(r: bv64)
    ensures ToBits(64, BitStep(r)) == Gf2.BitStep(ToBits(64, r), Generator())
  {
    hide Half, LowBit, Xor, ToBits, Gf2.Xor, Gf2.Shift;
    ToBitsUnfolds(63, r);
    HalfIsShift(r);
    ToBitsXor(64, Half(r), POLY64);
  }

  lemma FitsHalf(n: nat, r: bv64)
    requires Fits(n + 1, r)
    ensures Fits(n, Half(r))
  {
  }

  lemma {:induction false} StepsArePolynomialSteps(n: nat, r: bv64)
    ensures ToBits(64, Steps(n, r)) == Gf2.Steps(n, ToBits(64, r), Generator())
  {
    hide BitStep, Gf2.BitStep, ToBits;
    if n > 0 {
      BitStepIsPolynomialStep(r);
      StepsArePolynomialSteps(n - 1, BitStep(r));
    }
  }

  /** The bits of a byte in the order the register takes them. */
  function ByteBits(b: bv8): (s: Gf2.Bits)
    ensures |s| == 8
  {
    ToBits(8, Wide(b))
  }

  function MessageBits(buf: seq<bv8>): (s: Gf2.Bits)
    ensures |s| == 8 * |buf|
  {
    if buf == [] then [] else ByteBits(buf[0]) + MessageBits(buf[1..])
  }

  lemma ByteStepFeedsItsBits(r: bv64, b: bv8)
    ensures ToBits(64, ByteStep(r, b)) == Gf2.Feed(ToBits(64, r), ByteBits(b), Generator())
  {
    hide Steps, Xor, Wide, ToBits, Fits, Gf2.Feed, Gf2.Xor, Gf2.Steps;
    Gf2.FeedShort(ToBits(64, r), ByteBits(b), Generator());
    EverythingFits(0, b);
    ToBitsWider(8, 56, Wide(b));
    ToBitsXor(64, r, Wide(b));
    StepsArePolynomialSteps(8, Xor(r, Wide(b)));
  }

  lemma {:induction false} FeedFeedsTheBits(r: bv64, buf: seq<bv8>)
    ensures ToBits(64, Feed(r, buf)) == Gf2.Feed(ToBits(64, r), MessageBits(buf), Generator())
    decreases |buf|
  {
    hide ByteStep, ToBits, ByteBits, Generator;
    if buf != [] {
      var t := ByteStep(r, buf[0]);
      ByteStepFeedsItsBits(r, buf[0]);
      FeedFeedsTheBits(t, buf[1..]);
      hide Gf2.Feed;
      Gf2.FeedAppend(ToBits(64, r), ByteBits(buf[0]), MessageBits(buf[1..]), Generator());
    }
  }

  // ---------- error detection ----------

  lemma {:induction false} MessageBitsAppend(a: seq<bv8>, b: seq<bv8>)
    ensures MessageBits(a + b) == MessageBits(a) + MessageBits(b)
    decreases |a|
  {
    hide ByteBits;
    if a == [] {
      assert a + b == b;
    } else {
      assert (a + b)[1..] == a[1..] + b;
      MessageBitsAppend(a[1..], b);
    }
  }

  lemma ByteBitsInjective(a: bv8, b: bv8)
    requires ByteBits(a) == ByteBits(b)
    ensures a == b
  {
    hide Wide, ToBits, Fits;
    EverythingFits(0, a);
    EverythingFits(0, b);
    ToBitsInjective(8, Wide(a), Wide(b));
    WideInjective(a, b);
  }

  lemma {:induction false} MessageBitsInjective(a: seq<bv8>, b: seq<bv8>)
    requires |a| == |b| && MessageBits(a) == MessageBits(b)
    ensures a == b
    decreases |a|
  {
    hide ByteBits;
    if a != [] {
      assert MessageBits(a)[..8] == ByteBits(a[0]) && MessageBits(b)[..8] == ByteBits(b[0]);
      assert MessageBits(a)[8..] == MessageBits(a[1..]) && MessageBits(b)[8..] == MessageBits(b[1..]);
      ByteBitsInjective(a[0], b[0]);
      MessageBitsInjective(a[1..], b[1..]);
    }
  }

  lemma {:induction false} ToBitsSplit(m: nat, n: nat, r: bv64)
    ensures ToBits(m + n, r) == ToBits(m, r) + ToBits(n, Halve(m, r))
  {
    hide Half, LowBit;
    if m > 0 {
      ToBitsSplit(m - 1, n, Half(r));
    }
  }

  lemma ToBits4(r: bv64)
    ensures ToBits(4, r) == [LowBit(r), LowBit(Half(r)), LowBit(Half(Half(r))), LowBit(Half(Half(Half(r))))]
  {
    hide Half, LowBit;
    var h := Half(Half(r));
    assert ToBits(2, h) == [LowBit(h), LowBit(Half(h))];
  }

  lemma HalvesAreShifts(r: bv64)
    ensures Half(Half(r)) == r >> 2 && Half(Half(Half(r))) == r >> 3
    ensures Half(Half(Half(Half(r)))) == r >> 4
  {
  }

  lemma Bit0(r: bv64)
    ensures (r & 1 == 1) == (r & 1 != 0)
  {
  }

  lemma Bit1(r: bv64)
    ensures ((r >> 1) & 1 == 1) == (r & 2 != 0)
  {
  }

  lemma Bit2(r: bv64)
    ensures ((r >> 2) & 1 == 1) == (r & 4 != 0)
  {
  }

  lemma Bit3(r: bv64)
    ensures ((r >> 3) & 1 == 1) == (r & 8 != 0)
  {
  }

  lemma LowBits(r: bv64)
    ensures ToBits(4, r) == [r & 1 != 0, r & 2 != 0, r & 4 != 0, r & 8 != 0]
  {
    ToBits4(r);
    HalvesAreShifts(r);
    Bit0(r);
    Bit1(r);
    Bit2(r);
    Bit3(r);
    hide ToBits;
  }

  lemma HalveNibble(r: bv64)
    ensures Halve(4, r) == r >> 4
  {
    hide Half;
    HalveTwice(2, r);
    HalveTwice(0, Half(Half(r)));
    HalvesAreShifts(r);
  }

  /** The next eight coefficients. */
  lemma NextByte(n: nat, r: bv64)
    ensures ToBits(8 + n, r) ==
              ([r & 1 != 0, r & 2 != 0, r & 4 != 0, r & 8 != 0]
               + [(r >> 4) & 1 != 0, (r >> 4) & 2 != 0, (r >> 4) & 4 != 0, (r >> 4) & 8 != 0])
              + ToBits(n, Shr8(r))
  {
    hide Half, LowBit, ToBits, Halve, Shr8;
    ToBitsSplit(8, n, r);
    ToBitsSplit(4, 4, r);
    LowBits(r);
    LowBits(r >> 4);
    HalveNibble(r);
    HalveByte(r);
  }

  lemma HighCoefficients()
    ensures Generator() ==
              [false, true, false, false, false, false, true, false] + (
              [true, true, true, true, false, false, false, false] + (
              [true, true, true, false, false, false, false, true] + (
              [true, true, true, false, true, false, true, true] + (
              ToBits(32, 0xC96C5795)))))
  {
    hide ToBits, Shr8;
    NextByte(56, 0xC96C5795D7870F42);
    ShiftedTo(0xC96C5795D7870F42, 0xC96C5795D7870F);
    NextByte(48, 0xC96C5795D7870F);
    ShiftedTo(0xC96C5795D7870F, 0xC96C5795D787);
    NextByte(40, 0xC96C5795D787);
    ShiftedTo(0xC96C5795D787, 0xC96C5795D7);
    NextByte(32, 0xC96C5795D7);
    ShiftedTo(0xC96C5795D7, 0xC96C5795);
  }

  lemma LowCoefficients()
    ensures ToBits(32, 0xC96C5795) ==
              [true, false, true, false, true, false, false, true] + (
              [true, true, true, false, true, false, true, false] + (
              [false, false, true, true, false, true, true, false] + (
              [true, false, false, true, false, false, true, true])))
  {
    hide ToBits, Shr8;
    NextByte(24, 0xC96C5795);
    ShiftedTo(0xC96C5795, 0xC96C57);
    NextByte(16, 0xC96C57);
    ShiftedTo(0xC96C57, 0xC96C);
    NextByte(8, 0xC96C);
    ShiftedTo(0xC96C, 0xC9);
    NextByte(0, 0xC9);
    ShiftedTo(0xC9, 0x0);
    ToBitsNothing(0);
  }

  /** The generator is x^64 + x^62 + x^57 + x^55 + x^54 + x^53 + x^52 + x^47 + x^46 +
      x^45 + x^40 + x^39 + x^38 + x^37 + x^35 + x^33 + x^32 + x^31 + x^29 + x^27 +
      x^24 + x^23 + x^22 + x^21 + x^19 + x^17 + x^13 + x^12 + x^10 + x^9 + x^7 + x^4 +
      x + 1. */
  lemma GeneratorIs()
    ensures Generator() ==
              [false, true, false, false, false, false, true, false] + (
              [true, true, true, true, false, false, false, false] + (
              [true, true, true, false, false, false, false, true] + (
              [true, true, true, false, true, false, true, true] + (
              [true, false, true, false, true, false, false, true] + (
              [true, true, true, false, true, false, true, false] + (
              [false, false, true, true, false, true, true, false] + (
              [true, false, false, true, false, false, true, true])))))))
  {
    hide ToBits, Generator;
    HighCoefficients();
    LowCoefficients();
  }

  lemma ShiftedTo(r: bv64, q: bv64)
    requires r >> 8 == q
    ensures Shr8(r) == q
  {
  }

  lemma ToBitsNothing(r: bv64)
    ensures ToBits(0, r) == []
  {
  }

  // ---------- the complement ----------

  lemma NotIsXor(x: bv64)
    ensures Not(x) == Xor(x, 0xFFFF_FFFF_FFFF_FFFF)
  {
  }

  lemma EightOnes()
    ensures Gf2.AllOnes([true, true, true, true] + [true, true, true, true])
  {
  }

  lemma MaskedOnes(r: bv64)
    requires r & 0xFF == 0xFF
    ensures r & 1 != 0 && r & 2 != 0 && r & 4 != 0 && r & 8 != 0
    ensures (r >> 4) & 1 != 0 && (r >> 4) & 2 != 0 && (r >> 4) & 4 != 0 && (r >> 4) & 8 != 0
  {
  }

  lemma OnesByte(n: nat, r: bv64, q: bv64)
    requires r & 0xFF == 0xFF && r >> 8 == q && Gf2.AllOnes(ToBits(n, q))
    ensures Gf2.AllOnes(ToBits(8 + n, r))
  {
    NextByte(n, r);
    MaskedOnes(r);
    ShiftedTo(r, q);
    hide ToBits, Shr8, Gf2.AllOnes;
    EightOnes();
    Gf2.AllOnesAppend([true, true, true, true] + [true, true, true, true], ToBits(n, q));
  }

  lemma OnesAreOnes()
    ensures Gf2.AllOnes(ToBits(64, 0xFFFF_FFFF_FFFF_FFFF))
  {
    ToBitsNothing(0);
    hide ToBits;
    OnesByte(0, 0xFF, 0x0);
    OnesByte(8, 0xFFFF, 0xFF);
    OnesByte(16, 0xFFFFFF, 0xFFFF);
    OnesByte(24, 0xFFFFFFFF, 0xFFFFFF);
    OnesByte(32, 0xFFFFFFFFFF, 0xFFFFFFFF);
    OnesByte(40, 0xFFFFFFFFFFFF, 0xFFFFFFFFFF);
    OnesByte(48, 0xFFFFFFFFFFFFFF, 0xFFFFFFFFFFFF);
    OnesByte(56, 0xFFFFFFFFFFFFFFFF, 0xFFFFFFFFFFFFFF);
  }

  /** The complement, bit by bit. */
  lemma NotFlips(x: bv64)
    ensures ToBits(64, Not(x)) == Gf2.Flip(ToBits(64, x))
  {
    NotIsXor(x);
    hide Not, Xor, ToBits, Gf2.AllOnes;
    ToBitsXor(64, x, 0xFFFF_FFFF_FFFF_FFFF);
    OnesAreOnes();
    Gf2.XorOnes(ToBits(64, x), ToBits(64, 0xFFFF_FFFF_FFFF_FFFF));
  }

  /** The CRC, complemented bit by bit, is the remainder of a polynomial division: the
      dividend is the message times x^64 with the old CRC, complemented bit by bit, added
      to its leading 64 coefficients. */
  lemma CrcIsRemainder(buf: seq<bv8>, crc: bv64)
    ensures ToBits(64, Crc(buf, crc))
         == Gf2.Flip(Gf2.Remainder(Gf2.Dividend(Gf2.Flip(ToBits(64, crc)), MessageBits(buf)), Generator()))
  {
    hide Feed, Not, ToBits, Generator, MessageBits, Gf2.Remainder, Gf2.Dividend, Gf2.Feed;
    NotFlips(crc);
    NotFlips(Feed(Not(crc), buf));
    FeedFeedsTheBits(Not(crc), buf);
    Gf2.FeedIsRemainder(ToBits(64, Not(crc)), MessageBits(buf), Generator());
  }

  // ---------- bit errors ----------

  lemma NotInjective(x: bv64, y: bv64)
    requires Not(x) == Not(y)
    ensures x == y
  {
    hide Not;
    NotNot(x);
    NotNot(y);
  }

  /** Two messages of equal length whose bits, in the order the register takes them,
      differ only inside a window of at most 64 consecutive ones never have the same
      CRC64. */
  lemma BitBurstDetected(x: seq<bv8>, y: seq<bv8>, before: Gf2.Bits, a: Gf2.Bits, b: Gf2.Bits,
                         after: Gf2.Bits, crc: bv64)
    requires MessageBits(x) == before + a + after && MessageBits(y) == before + b + after
    requires |a| == |b| <= 64 && a != b
    ensures Crc(x, crc) != Crc(y, crc)
  {
    hide Feed, Not, ToBits, Generator, MessageBits, Gf2.Feed;
    var r, g := Not(crc), Generator();
    GeneratorIs();
    FeedFeedsTheBits(r, x);
    FeedFeedsTheBits(r, y);
    Gf2.BurstDetected(ToBits(64, r), before, a, b, after, g);
    if Crc(x, crc) == Crc(y, crc) {
      NotInjective(Feed(r, x), Feed(r, y));
      assert false;
    }
  }

  lemma MessageBitsOfThree(a: seq<bv8>, b: seq<bv8>, c: seq<bv8>)
    ensures MessageBits(a + b + c) == MessageBits(a) + MessageBits(b) + MessageBits(c)
  {
    hide MessageBits;
    MessageBitsAppend(a + b, c);
    MessageBitsAppend(a, b);
  }

  /** In particular, when they differ only inside eight consecutive bytes. */
  lemma BurstDetected(before: seq<bv8>, a: seq<bv8>, b: seq<bv8>, after: seq<bv8>, crc: bv64)
    requires |a| == |b| <= 8 && a != b
    ensures Crc(before + a + after, crc) != Crc(before + b + after, crc)
  {
    hide Crc, MessageBits;
    if MessageBits(a) == MessageBits(b) {
      MessageBitsInjective(a, b);
      assert false;
    }
    MessageBitsOfThree(before, a, after);
    MessageBitsOfThree(before, b, after);
    BitBurstDetected(before + a + after, before + b + after, MessageBits(before), MessageBits(a), MessageBits(b),
                     MessageBits(after), crc);
  }

  // ---------- crc64_init and lzma_crc64 ----------

  /** crc64_table */
  ghost predicate TableReady(table: array<bv64>)
    reads table
  {
    && table.Length == 256
    && forall i :: 0 <= i < 256 ==> table[i] == Steps(8, Wide(Octet(i)))
  }

  function Octet(i: int): bv8
    requires 0 <= i < 256
  {
    i as bv8
  }

  function Index(b: bv8): (i: int)
    ensures 0 <= i < 256 && Octet(i) == b
  {
    b as int
  }

  lemma StepsUnfold(n: nat, r: bv64)
    requires n > 0
    ensures Steps(n, r) == Steps(n - 1, if LowBit(r) then Xor(Half(r), POLY64) else Half(r))
  {
  }

  lemma StepsZero(r: bv64)
    ensures Steps(0, r) == r
  {
  }

  /** crc64_init */
  method InitTable(table: array<bv64>)
    requires table.Length == 256
    modifies table
    ensures TableReady(table)
  {
    hide Steps, Wide, Octet, LowBit, Xor, Half;
    for b := 0 to 256
      invariant forall i :: 0 <= i < b ==> table[i] == Steps(8, Wide(Octet(i)))
    {
      var r := Wide(Octet(b));
      for i := 0 to 8
        invariant forall k :: 0 <= k < b ==> table[k] == Steps(8, Wide(Octet(k)))
        invariant Steps(8 - i, r) == Steps(8, Wide(Octet(b)))
      {
        StepsUnfold(8 - i, r);
        if LowBit(r) {
          r := Xor(Half(r), POLY64);
        } else {
          r := Half(r);
        }
      }
      StepsZero(r);
      table[b] := r;
    }
  }

  lemma FeedNothing(r: bv64, s: seq<bv8>)
    requires s == []
    ensures Feed(r, s) == r
  {
  }

  /** lzma_crc64 */
  method Crc64Small(table: array<bv64>, buf: seq<bv8>, crc0: bv64) returns (r: bv64)
    requires TableReady(table)
    ensures r == Crc(buf, crc0)
  {
    hide Feed, Not, Xor, Shr8, Byte0, Steps, Wide, ByteStep, Octet, Index;
    var crc := Not(crc0);
    var p: nat, size: nat := 0, |buf|;
    assert buf[p..] == buf;
    while size != 0
      invariant p + size == |buf|
      invariant Feed(crc, buf[p..]) == Feed(Not(crc0), buf)
    {
      FeedNext(crc, buf, p);
      ByteStepByTable(crc, buf[p]);
      crc := Xor(table[Index(buf[p] ^ Byte0(crc))], Shr8(crc));
      p, size := p + 1, size - 1;
    }
    FeedNothing(crc, buf[p..]);
    return Not(crc);
  }
}
