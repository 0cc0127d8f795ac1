/** What a CRC32 means: the remainder of a polynomial division, and the errors it
    is certain to detect. */
module Crc32Meaning {
  import Gf2
  import opened Words
  import opened Crc32

  /** The low n bits of r, lowest first: the CRC is reflected, so bit 0 of the
      register is the coefficient of the highest power. */
  function ToBits(n: nat, r: bv32): (s: Gf2.Bits)
    ensures |s| == n
  {
    if n == 0 then [] else [LowBit(r)] + ToBits(n - 1, Half(r))
  }

  /** r has no bits above the low n. */
  predicate Fits(n: nat, r: bv32) {
    if n == 0 then r == 0 else Fits(n - 1, Half(r))
  }

  // ---------- bit facts ----------

  lemma HalfInjective(x: bv32, y: bv32)
    requires Half(x) == Half(y) && LowBit(x) == LowBit(y)
    ensures x == y
  {
  }

  lemma HalfOfZero()
    ensures Half(0) == 0 && !LowBit(0)
  {
  }

  /** n halvings. */
  function Halve(n: nat, r: bv32): bv32 {
    if n == 0 then r else Halve(n - 1, Half(r))
  }

  lemma {:induction false} FitsIsHalve(n: nat, r: bv32)
    ensures Fits(n, r) == (Halve(n, r) == 0)
  {
    hide Half;
    if n > 0 {
      FitsIsHalve(n - 1, Half(r));
    }
  }

  lemma {:induction false} HalveAdd(m: nat, n: nat, r: bv32)
    ensures Halve(m + n, r) == Halve(n, Halve(m, r))
  {
    hide Half;
    if m > 0 {
      HalveAdd(m - 1, n, Half(r));
    }
  }

  lemma HalveByteRaw(r: bv32)
    ensures Half(Half(Half(Half(Half(Half(Half(Half(r)))))))) == Shr8(r)
  {
  }

  lemma HalveTwice(n: nat, r: bv32)
    ensures Halve(n + 2, r) == Halve(n, Half(Half(r)))
  {
    assert Halve(n + 2, r) == Halve(n + 1, Half(r));
  }

  lemma HalveByte(r: bv32)
    ensures Halve(8, r) == Shr8(r)
  {
    hide Half, Shr8;
    var a := Half(Half(r));
    var b := Half(Half(a));
    var c := Half(Half(b));
    HalveTwice(6, r);
    HalveTwice(4, a);
    HalveTwice(2, b);
    HalveTwice(0, c);
    HalveByteRaw(r);
  }

  lemma ShiftedOut(r: bv32, b: bv8)
    ensures Shr8(Shr8(Shr8(Shr8(r)))) == 0
    ensures Shr8(Wide(b)) == 0
  {
  }

  lemma EverythingFits(r: bv32, b: bv8)
    ensures Fits(32, r)
    ensures Fits(8, Wide(b))
  {
    hide Half, Shr8, Wide, Halve, Fits;
    FitsIsHalve(32, r);
    FitsIsHalve(8, Wide(b));
    HalveAdd(8, 24, r);
    HalveAdd(8, 16, Shr8(r));
    HalveAdd(8, 8, Shr8(Shr8(r)));
    HalveByte(r);
    HalveByte(Shr8(r));
    HalveByte(Shr8(Shr8(r)));
    HalveByte(Shr8(Shr8(Shr8(r))));
    HalveByte(Wide(b));
    ShiftedOut(r, b);
  }

  // ---------- words as polynomials ----------

  lemma {:induction false} ToBitsXor(n: nat, x: bv32, y: bv32)
    ensures ToBits(n, Xor(x, y)) == Gf2.Xor(ToBits(n, x), ToBits(n, y))
  {
    hide Half, LowBit, Xor;
    if n > 0 {
      HalfXor(x, y);
      LowBitXor(x, y);
      ToBitsXor(n - 1, Half(x), Half(y));
      hide Gf2.Xor;
      Gf2.XorCons(LowBit(x), ToBits(n - 1, Half(x)), LowBit(y), ToBits(n - 1, Half(y)));
    }
  }

  lemma {:induction false} ToBitsWider(n: nat, k: nat, r: bv32)
    requires Fits(n, r)
    ensures ToBits(n + k, r) == ToBits(n, r) + Gf2.Zeros(k)
  {
    hide Half, LowBit;
    if n > 0 {
      ToBitsWider(n - 1, k, Half(r));
    } else if k > 0 {
      HalfOfZero();
      ToBitsWider(0, k - 1, 0);
    }
  }

  lemma {:induction false} ToBitsInjective(n: nat, x: bv32, y: bv32)
    requires Fits(n, x) && Fits(n, y) && ToBits(n, x) == ToBits(n, y)
    ensures x == y
  {
    hide Half, LowBit;
    if n > 0 {
      assert ToBits(n, x)[1..] == ToBits(n - 1, Half(x)) && ToBits(n, y)[1..] == ToBits(n - 1, Half(y));
      assert ToBits(n, x)[0] == LowBit(x) && ToBits(n, y)[0] == LowBit(y);
      ToBitsInjective(n - 1, Half(x), Half(y));
      HalfInjective(x, y);
    }
  }

  // ---------- the register as a polynomial ----------

  /** x^32 + ... + 1 of IEEE 802.3, without its leading term. */
  function Generator(): (g: Gf2.Bits)
    ensures |g| == 32
  {
    ToBits(32, POLY32)
  }

  lemma ToBitsUnfolds(n: nat, r: bv32)
    ensures ToBits(n + 1, r) == [LowBit(r)] + ToBits(n, Half(r))
  {
  }

  /** Halving the register shifts the polynomial up. */
  lemma HalfIsShift(r: bv32)
    ensures ToBits(32, Half(r)) == Gf2.Shift(ToBits(32, r))
  {
    hide Half, LowBit, Fits, ToBits;
    var h := Half(r);
    ToBitsUnfolds(31, r);
    assert Fits(31, h) by { EverythingFits(r, 0); FitsHalf(31, r); }
    ToBitsWider(31, 1, h);
    assert Gf2.Zeros(1) == [false];
  }

  lemma BitStepIsPolynomialStep(r: bv32)
    ensures ToBits(32, BitStep(r)) == Gf2.BitStep(ToBits(32, r), Generator())
  {
    hide Half, LowBit, Xor, ToBits, Gf2.Xor, Gf2.Shift;
    ToBitsUnfolds(31, r);
    HalfIsShift(r);
    ToBitsXor(32, Half(r), POLY32);
  }

  lemma FitsHalf(n: nat, r: bv32)
    requires Fits(n + 1, r)
    ensures Fits(n, Half(r))
  {
  }

  lemma {:induction false} StepsArePolynomialSteps(n: nat, r: bv32)
    ensures ToBits(32, Steps(n, r)) == Gf2.Steps(n, ToBits(32, r), Generator())
  {
    hide BitStep, Gf2.BitStep, ToBits;
    if n > 0 {
      BitStepIsPolynomialStep(r);
      StepsArePolynomialSteps(n - 1, BitStep(r));
    }
  }

  /** The bits of a byte in the order the register takes them. */
  function ByteBits(b: bv8): (s: Gf2.Bits)
    ensures |s| == 8
  {
    ToBits(8, Wide(b))
  }

  function MessageBits(buf: seq<bv8>): (s: Gf2.Bits)
    ensures |s| == 8 * |buf|
  {
    if buf == [] then [] else ByteBits(buf[0]) + MessageBits(buf[1..])
  }

  lemma ByteStepFeedsItsBits(r: bv32, b: bv8)
    ensures ToBits(32, ByteStep(r, b)) == Gf2.Feed(ToBits(32, r), ByteBits(b), Generator())
  {
    hide Steps, Xor, Wide, ToBits, Fits, Gf2.Feed, Gf2.Xor, Gf2.Steps;
    Gf2.FeedShort(ToBits(32, r), ByteBits(b), Generator());
    EverythingFits(0, b);
    ToBitsWider(8, 24, Wide(b));
    ToBitsXor(32, r, Wide(b));
    StepsArePolynomialSteps(8, Xor(r, Wide(b)));
  }

  lemma {:induction false} FeedFeedsTheBits(r: bv32, buf: seq<bv8>)
    ensures ToBits(32, Feed(r, buf)) == Gf2.Feed(ToBits(32, r), MessageBits(buf), Generator())
    decreases |buf|
  {
    hide ByteStep, ToBits, ByteBits, Generator;
    if buf != [] {
      var t := ByteStep(r, buf[0]);
      ByteStepFeedsItsBits(r, buf[0]);
      FeedFeedsTheBits(t, buf[1..]);
      hide Gf2.Feed;
      Gf2.FeedAppend(ToBits(32, r), ByteBits(buf[0]), MessageBits(buf[1..]), Generator());
    }
  }

  // ---------- error detection ----------

  lemma {:induction false} MessageBitsAppend(a: seq<bv8>, b: seq<bv8>)
    ensures MessageBits(a + b) == MessageBits(a) + MessageBits(b)
    decreases |a|
  {
    hide ByteBits;
    if a == [] {
      assert a + b == b;
    } else {
      assert (a + b)[1..] == a[1..] + b;
      MessageBitsAppend(a[1..], b);
    }
  }

  lemma WideInjective(a: bv8, b: bv8)
    requires Wide(a) == Wide(b)
    ensures a == b
  {
  }

  lemma ByteBitsInjective(a: bv8, b: bv8)
    requires ByteBits(a) == ByteBits(b)
    ensures a == b
  {
    hide Wide, ToBits, Fits;
    EverythingFits(0, a);
    EverythingFits(0, b);
    ToBitsInjective(8, Wide(a), Wide(b));
    WideInjective(a, b);
  }

  lemma {:induction false} MessageBitsInjective(a: seq<bv8>, b: seq<bv8>)
    requires |a| == |b| && MessageBits(a) == MessageBits(b)
    ensures a == b
    decreases |a|
  {
    hide ByteBits;
    if a != [] {
      assert MessageBits(a)[..8] == ByteBits(a[0]) && MessageBits(b)[..8] == ByteBits(b[0]);
      assert MessageBits(a)[8..] == MessageBits(a[1..]) && MessageBits(b)[8..] == MessageBits(b[1..]);
      ByteBitsInjective(a[0], b[0]);
      MessageBitsInjective(a[1..], b[1..]);
    }
  }

  lemma {:induction false} ToBitsSplit(m: nat, n: nat, r: bv32)
    ensures ToBits(m + n, r) == ToBits(m, r) + ToBits(n, Halve(m, r))
  {
    hide Half, LowBit;
    if m > 0 {
      ToBitsSplit(m - 1, n, Half(r));
    }
  }

  lemma ToBits4(r: bv32)
    ensures ToBits(4, r) == [LowBit(r), LowBit(Half(r)), LowBit(Half(Half(r))), LowBit(Half(Half(Half(r))))]
  {
    hide Half, LowBit;
    var h := Half(Half(r));
    assert ToBits(2, h) == [LowBit(h), LowBit(Half(h))];
  }

  lemma HalvesAreShifts(r: bv32)
    ensures Half(Half(r)) == r >> 2 && Half(Half(Half(r))) == r >> 3
    ensures Half(Half(Half(Half(r)))) == r >> 4
  {
  }

  lemma Bit0(r: bv32)
    ensures (r & 1 == 1) == (r & 1 != 0)
  {
  }

  lemma Bit1(r: bv32)
    ensures ((r >> 1) & 1 == 1) == (r & 2 != 0)
  {
  }

  lemma Bit2(r: bv32)
    ensures ((r >> 2) & 1 == 1) == (r & 4 != 0)
  {
  }

  lemma Bit3(r: bv32)
    ensures ((r >> 3) & 1 == 1) == (r & 8 != 0)
  {
  }

  lemma LowBits(r: bv32)
    ensures ToBits(4, r) == [r & 1 != 0, r & 2 != 0, r & 4 != 0, r & 8 != 0]
  {
    ToBits4(r);
    HalvesAreShifts(r);
    Bit0(r);
    Bit1(r);
    Bit2(r);
    Bit3(r);
    hide ToBits;
  }

  lemma HalveNibble(r: bv32)
    ensures Halve(4, r) == r >> 4
  {
    hide Half;
    HalveTwice(2, r);
    HalveTwice(0, Half(Half(r)));
    HalvesAreShifts(r);
  }

  /** The next eight coefficients. */
  lemma NextByte(n: nat, r: bv32)
    ensures ToBits(8 + n, r) ==
              ([r & 1 != 0, r & 2 != 0, r & 4 != 0, r & 8 != 0]
               + [(r >> 4) & 1 != 0, (r >> 4) & 2 != 0, (r >> 4) & 4 != 0, (r >> 4) & 8 != 0])
              + ToBits(n, Shr8(r))
  {
    hide Half, LowBit, ToBits, Halve, Shr8;
    ToBitsSplit(8, n, r);
    ToBitsSplit(4, 4, r);
    LowBits(r);
    LowBits(r >> 4);
    HalveNibble(r);
    HalveByte(r);
  }

  /** The generator is x^32 + x^26 + x^23 + x^22 + x^16 + x^12 + x^11 + x^10 + x^8 +
      x^7 + x^5 + x^4 + x^2 + x + 1. */
  lemma GeneratorIs()
    ensures Generator() ==
              [false, false, false, false, false, true, false, false] + (
              [true, true, false, false, false, false, false, true] + (
              [false, false, false, true, true, true, false, true] + (
              [true, false, true, true, false, true, true, true])))
  {
    hide ToBits, Shr8;
    NextByte(24, 0xEDB88320);
    NextByte(16, 0xEDB883);
    NextByte(8, 0xEDB8);
    NextByte(0, 0xED);
    ShiftedTo(0xEDB88320, 0xEDB883);
    ShiftedTo(0xEDB883, 0xEDB8);
    ShiftedTo(0xEDB8, 0xED);
    ShiftedTo(0xED, 0x0);
    ToBitsNothing(0);
  }

  lemma ShiftedTo(r: bv32, q: bv32)
    requires r >> 8 == q
    ensures Shr8(r) == q
  {
  }

  lemma ToBitsNothing(r: bv32)
    ensures ToBits(0, r) == []
  {
  }

  // ---------- the complement ----------

  lemma NotIsXor(x: bv32)
    ensures Not(x) == Xor(x, 0xFFFF_FFFF)
  {
  }

  lemma EightOnes()
    ensures Gf2.AllOnes([true, true, true, true] + [true, true, true, true])
  {
  }

  lemma MaskedOnes(r: bv32)
    requires r & 0xFF == 0xFF
    ensures r & 1 != 0 && r & 2 != 0 && r & 4 != 0 && r & 8 != 0
    ensures (r >> 4) & 1 != 0 && (r >> 4) & 2 != 0 && (r >> 4) & 4 != 0 && (r >> 4) & 8 != 0
  {
  }

  lemma OnesByte(n: nat, r: bv32, q: bv32)
    requires r & 0xFF == 0xFF && r >> 8 == q && Gf2.AllOnes(ToBits(n, q))
    ensures Gf2.AllOnes(ToBits(8 + n, r))
  {
    NextByte(n, r);
    MaskedOnes(r);
    ShiftedTo(r, q);
    hide ToBits, Shr8, Gf2.AllOnes;
    EightOnes();
    Gf2.AllOnesAppend([true, true, true, true] + [true, true, true, true], ToBits(n, q));
  }

  lemma OnesAreOnes()
    ensures Gf2.AllOnes(ToBits(32, 0xFFFF_FFFF))
  {
    ToBitsNothing(0);
    hide ToBits;
    OnesByte(0, 0xFF, 0x0);
    OnesByte(8, 0xFFFF, 0xFF);
    OnesByte(16, 0xFFFFFF, 0xFFFF);
    OnesByte(24, 0xFFFFFFFF, 0xFFFFFF);
  }

  /** The complement, bit by bit. */
  lemma NotFlips(x: bv32)
    ensures ToBits(32, Not(x)) == Gf2.Flip(ToBits(32, x))
  {
    NotIsXor(x);
    hide Not, Xor, ToBits, Gf2.AllOnes;
    ToBitsXor(32, x, 0xFFFF_FFFF);
    OnesAreOnes();
    Gf2.XorOnes(ToBits(32, x), ToBits(32, 0xFFFF_FFFF));
  }

  /** The CRC, complemented bit by bit, is the remainder of a polynomial division: the
      dividend is the message times x^32 with the old CRC, complemented bit by bit, added
      to its leading 32 coefficients. */
  lemma CrcIsRemainder(buf: seq<bv8>, crc: bv32)
    ensures ToBits(32, Crc(buf, crc))
         == Gf2.Flip(Gf2.Remainder(Gf2.Dividend(Gf2.Flip(ToBits(32, crc)), MessageBits(buf)), Generator()))
  {
    hide Feed, Not, ToBits, Generator, MessageBits, Gf2.Remainder, Gf2.Dividend, Gf2.Feed;
    NotFlips(crc);
    NotFlips(Feed(Not(crc), buf));
    FeedFeedsTheBits(Not(crc), buf);
    Gf2.FeedIsRemainder(ToBits(32, Not(crc)), MessageBits(buf), Generator());
  }

  // ---------- bit errors ----------

  lemma NotInjective(x: bv32, y: bv32)
    requires Not(x) == Not(y)
    ensures x == y
  {
    hide Not;
    NotNot(x);
    NotNot(y);
  }

  /** Two messages of equal length whose bits, in the order the register takes them,
      differ only inside a window of at most 32 consecutive ones never have the same
      CRC32. */
  lemma BitBurstDetected(x: seq<bv8>, y: seq<bv8>, before: Gf2.Bits, a: Gf2.Bits, b: Gf2.Bits,
                         after: Gf2.Bits, crc: bv32)
    requires MessageBits(x) == before + a + after && MessageBits(y) == before + b + after
    requires |a| == |b| <= 32 && a != b
    ensures Crc(x, crc) != Crc(y, crc)
  {
    hide Feed, Not, ToBits, Generator, MessageBits, Gf2.Feed;
    var r, g := Not(crc), Generator();
    GeneratorIs();
    FeedFeedsTheBits(r, x);
    FeedFeedsTheBits(r, y);
    Gf2.BurstDetected(ToBits(32, r), before, a, b, after, g);
    if Crc(x, crc) == Crc(y, crc) {
      NotInjective(Feed(r, x), Feed(r, y));
      assert false;
    }
  }

  lemma MessageBitsOfThree(a: seq<bv8>, b: seq<bv8>, c: seq<bv8>)
    ensures MessageBits(a + b + c) == MessageBits(a) + MessageBits(b) + MessageBits(c)
  {
    hide MessageBits;
    MessageBitsAppend(a + b, c);
    MessageBitsAppend(a, b);
  }

  /** In particular, when they differ only inside four consecutive bytes. */
  lemma BurstDetected(before: seq<bv8>, a: seq<bv8>, b: seq<bv8>, after: seq<bv8>, crc: bv32)
    requires |a| == |b| <= 4 && a != b
    ensures Crc(before + a + after, crc) != Crc(before + b + after, crc)
  {
    hide Crc, MessageBits;
    if MessageBits(a) == MessageBits(b) {
      MessageBitsInjective(a, b);
      assert false;
    }
    MessageBitsOfThree(before, a, after);
    MessageBitsOfThree(before, b, after);
    BitBurstDetected(before + a + after, before + b + after, MessageBits(before), MessageBits(a), MessageBits(b),
                     MessageBits(after), crc);
  }
}
