/** CRC32 (check/crc32_fast.c, crc32_small.c, crc32_tablegen.c, crc_macros.h). */
module Crc32 {
  import Gf2
  import opened Words

  const POLY32: bv32 := 0xEDB8_8320

  // ---------- the bit-at-a-time register ----------

  function BitStep(r: bv32): bv32 {
    if LowBit(r) then Xor(Half(r), POLY32) else Half(r)
  }

  function Steps(n: nat, r: bv32): bv32 {
    if n == 0 then r else Steps(n - 1, BitStep(r))
  }

  /** The register after one byte: add it to the low end, then eight steps. */
  function ByteStep(r: bv32, b: bv8): bv32 {
    Steps(8, Xor(r, Wide(b)))
  }

  function Feed(r: bv32, buf: seq<bv8>): bv32
    decreases |buf|
  {
    if buf == [] then r else Feed(ByteStep(r, buf[0]), buf[1..])
  }

  /** What lzma_crc32 promises to return. */
  function Crc(buf: seq<bv8>, crc: bv32): bv32 {
    Not(Feed(Not(crc), buf))
  }

  // ---------- linearity ----------

  lemma BitStepXor(x: bv32, y: bv32)
    ensures BitStep(Xor(x, y)) == Xor(BitStep(x), BitStep(y))
  {
    hide Xor, Half, LowBit;
    HalfXor(x, y);
    LowBitXor(x, y);
    XorCancels(Half(x), Half(y), POLY32);
  }

  lemma {:induction false} StepsXor(n: nat, x: bv32, y: bv32)
    ensures Steps(n, Xor(x, y)) == Xor(Steps(n, x), Steps(n, y))
  {
    hide BitStep, Xor;
    if n > 0 {
      BitStepXor(x, y);
      StepsXor(n - 1, BitStep(x), BitStep(y));
    }
  }

  lemma {:induction false} StepsAdd(m: nat, n: nat, r: bv32)
    ensures Steps(m + n, r) == Steps(n, Steps(m, r))
  {
    hide BitStep;
    if m > 0 {
      StepsAdd(m - 1, n, BitStep(r));
    }
  }

  // ---------- a byte at a time ----------

  /** q is r moved down by one bit, and no 1 is lost. */
  predicate Halves(r: bv32, q: bv32) {
    r & 1 == 0 && r >> 1 == q
  }

  lemma StepsHalves(n: nat, r: bv32, q: bv32)
    requires n > 0 && Halves(r, q)
    ensures Steps(n, r) == Steps(n - 1, q)
  {
  }

  lemma HalvesDown(y: bv32)
    requires y & 0xFF00_0000 == 0
    ensures Halves(y << 8, y << 7) && Halves(y << 7, y << 6) && Halves(y << 6, y << 5)
    ensures Halves(y << 5, y << 4) && Halves(y << 4, y << 3) && Halves(y << 3, y << 2)
    ensures Halves(y << 2, y << 1) && Halves(y << 1, y)
  {
  }

  lemma Steps8Halves(a: bv32, b: bv32, c: bv32, d: bv32, e: bv32, f: bv32, g: bv32, h: bv32, i: bv32)
    requires Halves(a, b) && Halves(b, c) && Halves(c, d) && Halves(d, e)
    requires Halves(e, f) && Halves(f, g) && Halves(g, h) && Halves(h, i)
    ensures Steps(8, a) == i
  {
    hide Halves, BitStep;
    StepsHalves(8, a, b);
    StepsHalves(7, b, c);
    StepsHalves(6, c, d);
    StepsHalves(5, d, e);
    StepsHalves(4, e, f);
    StepsHalves(3, f, g);
    StepsHalves(2, g, h);
    StepsHalves(1, h, i);
  }

  /** Eight steps move a value that has no low byte down by one byte. */
  lemma Steps8Shl8(y: bv32)
    requires y & 0xFF00_0000 == 0
    ensures Steps(8, Shl8(y)) == y
  {
    hide Halves, Steps;
    HalvesDown(y);
    Steps8Halves(y << 8, y << 7, y << 6, y << 5, y << 4, y << 3, y << 2, y << 1, y);
  }

  /** Eight steps: a table lookup on the low byte, a shift for the rest. */
  lemma Steps8Split(x: bv32)
    ensures Steps(8, x) == Xor(Steps(8, Wide(Byte0(x))), Shr8(x))
  {
    hide *;
    SplitLowByte(x);
    StepsXor(8, Wide(Byte0(x)), Shl8(Shr8(x)));
    Steps8Shl8(Shr8(x));
  }

  /** The bytewise update of crc32_small.c and of the two byte loops in
      crc32_fast.c. */
  lemma ByteStepByTable(r: bv32, b: bv8)
    ensures ByteStep(r, b) == Xor(Steps(8, Wide(b ^ Byte0(r))), Shr8(r))
  {
    hide Steps, Byte0, Shr8, Xor, Wide;
    Steps8Split(Xor(r, Wide(b)));
    XorLowByte(r, b);
  }

  // ---------- a word at a time ----------

  /** Peel one byte off a word on its way through the register. */
  lemma PeelByte(n: nat, x: bv32)
    ensures Steps(n + 8, x) == Xor(Steps(n + 8, Wide(Byte0(x))), Steps(n, Shr8(x)))
  {
    hide *;
    StepsAdd(8, n, x);
    Steps8Split(x);
    StepsXor(n, Steps(8, Wide(Byte0(x))), Shr8(x));
    StepsAdd(8, n, Wide(Byte0(x)));
  }

  /** Entry b of slice s of lzma_crc32_table. */
  function Entry(s: nat, b: bv8): bv32 {
    Steps(8 * s + 8, Wide(b))
  }

  /** Four lookups, one per byte, take a word through 32 + 8k bit steps. */
  lemma SliceWord(k: nat, x: bv32)
    ensures Steps(8 * k + 32, x)
         == Xor(Entry(k + 3, Byte0(x)), Xor(Entry(k + 2, Byte1(x)), Xor(Entry(k + 1, Byte2(x)), Entry(k, Byte3(x)))))
  {
    hide Steps, Xor, Wide, Byte0, Byte1, Byte2, Byte3, Shr8;
    PeelByte(8 * k + 24, x);
    PeelByte(8 * k + 16, Shr8(x));
    PeelByte(8 * k + 8, Shr8(Shr8(x)));
    BytesOfShift(x);
  }

  lemma Le32Split(b0: bv8, b1: bv8, b2: bv8, b3: bv8)
    ensures Le32(b0, b1, b2, b3) == Xor(Wide(b0), Shl8(Le32(b1, b2, b3, 0)))
    ensures Le32(b1, b2, b3, 0) & 0xFF00_0000 == 0
    ensures Le32(0, 0, 0, 0) == 0
  {
  }

  /** Add a byte and the bytes above it, then eight steps: the bytes above have
      moved down and are still only added. */
  lemma AddThenStep(n: nat, r: bv32, b0: bv8, b1: bv8, b2: bv8, b3: bv8)
    ensures Steps(n + 8, Xor(r, Le32(b0, b1, b2, b3))) == Steps(n, Xor(ByteStep(r, b0), Le32(b1, b2, b3, 0)))
  {
    hide Steps, Xor, Wide, Le32, Shl8;
    var y := Le32(b1, b2, b3, 0);
    Le32Split(b0, b1, b2, b3);
    XorAssociates(r, Wide(b0), Shl8(y));
    StepsAdd(8, n, Xor(r, Le32(b0, b1, b2, b3)));
    StepsXor(8, Xor(r, Wide(b0)), Shl8(y));
    Steps8Shl8(y);
  }

  lemma XorZero(x: bv32)
    ensures Xor(x, Le32(0, 0, 0, 0)) == x
    ensures Steps(0, x) == x
  {
  }

  /** Four bytes enter the register as one little endian word. */
  lemma FeedWord(r: bv32, b0: bv8, b1: bv8, b2: bv8, b3: bv8)
    ensures ByteStep(ByteStep(ByteStep(ByteStep(r, b0), b1), b2), b3) == Steps(32, Xor(r, Le32(b0, b1, b2, b3)))
  {
    hide *;
    var r1 := ByteStep(r, b0);
    var r2 := ByteStep(r1, b1);
    var r3 := ByteStep(r2, b2);
    AddThenStep(24, r, b0, b1, b2, b3);
    AddThenStep(16, r1, b1, b2, b3, 0);
    AddThenStep(8, r2, b2, b3, 0, 0);
    AddThenStep(0, r3, b3, 0, 0, 0);
    XorZero(ByteStep(r3, b3));
  }

  // ---------- splitting a buffer ----------

  /** lzma_crc32 composes over splits of its input. */
  lemma {:induction false} FeedAppend(r: bv32, a: seq<bv8>, b: seq<bv8>)
    ensures Feed(r, a + b) == Feed(Feed(r, a), b)
    decreases |a|
  {
    hide ByteStep;
    if a == [] {
      assert a + b == b;
    } else {
      assert (a + b)[1..] == a[1..] + b;
      FeedAppend(ByteStep(r, a[0]), a[1..], b);
    }
  }

  lemma CrcAppend(a: seq<bv8>, b: seq<bv8>, crc: bv32)
    ensures Crc(a + b, crc) == Crc(b, Crc(a, crc))
  {
    hide Feed, Not;
    FeedAppend(Not(crc), a, b);
    NotNot(Feed(Not(crc), a));
  }

  /** The first byte of what is left of a buffer. */
  lemma FeedNext(r: bv32, buf: seq<bv8>, p: nat)
    requires p < |buf|
    ensures Feed(r, buf[p..]) == Feed(ByteStep(r, buf[p]), buf[p + 1..])
  {
    assert buf[p..][1..] == buf[p + 1..];
  }

  /** Eight bytes at a time: the loop body of crc32_fast.c on a little endian
      register. */
  lemma FeedEight(r: bv32, buf: seq<bv8>, p: nat)
    requires p + 8 <= |buf|
    ensures var x := Xor(r, Le32(buf[p], buf[p + 1], buf[p + 2], buf[p + 3]));
            var y := Le32(buf[p + 4], buf[p + 5], buf[p + 6], buf[p + 7]);
            Feed(r, buf[p..]) == Feed(Xor(Steps(64, x), Steps(32, y)), buf[p + 8..])
  {
    hide *;
    var x := Xor(r, Le32(buf[p], buf[p + 1], buf[p + 2], buf[p + 3]));
    var y := Le32(buf[p + 4], buf[p + 5], buf[p + 6], buf[p + 7]);
    var r1 := ByteStep(r, buf[p]);
    var r2 := ByteStep(r1, buf[p + 1]);
    var r3 := ByteStep(r2, buf[p + 2]);
    var r4 := ByteStep(r3, buf[p + 3]);
    var r5 := ByteStep(r4, buf[p + 4]);
    var r6 := ByteStep(r5, buf[p + 5]);
    var r7 := ByteStep(r6, buf[p + 6]);
    FeedNext(r, buf, p);
    FeedNext(r1, buf, p + 1);
    FeedNext(r2, buf, p + 2);
    FeedNext(r3, buf, p + 3);
    FeedNext(r4, buf, p + 4);
    FeedNext(r5, buf, p + 5);
    FeedNext(r6, buf, p + 6);
    FeedNext(r7, buf, p + 7);
    FeedWord(r, buf[p], buf[p + 1], buf[p + 2], buf[p + 3]);
    FeedWord(r4, buf[p + 4], buf[p + 5], buf[p + 6], buf[p + 7]);
    StepsXor(32, Steps(32, x), y);
    StepsAdd(32, 32, x);
  }

  // ---------- crc_macros.h ----------

  function A(be: bool, x: bv32): bv8 { if be then Byte3(x) else Byte0(x) }
  function B(be: bool, x: bv32): bv8 { if be then Byte2(x) else Byte1(x) }
  function C(be: bool, x: bv32): bv8 { if be then Byte1(x) else Byte2(x) }
  function D(be: bool, x: bv32): bv8 { if be then Byte0(x) else Byte3(x) }
  function S8(be: bool, x: bv32): bv32 { if be then Shl8(x) else Shr8(x) }

  /** On either kind of machine the selectors pick the bytes of the little endian
      register, lowest first, and S8 drops the lowest. */
  lemma Selectors(be: bool, x: bv32)
    ensures A(be, Native(be, x)) == Byte0(x) && B(be, Native(be, x)) == Byte1(x)
    ensures C(be, Native(be, x)) == Byte2(x) && D(be, Native(be, x)) == Byte3(x)
    ensures S8(be, Native(be, x)) == Native(be, Shr8(x))
  {
    hide Byte0, Byte1, Byte2, Byte3, Shl8, Shr8, Bswap32;
    BytesOfBswap32(x);
    Bswap32Shift(x);
  }

  // ---------- the table ----------

  function Octet(i: int): bv8
    requires 0 <= i < 256
  {
    i as bv8
  }

  function Index(b: bv8): (i: int)
    ensures 0 <= i < 256 && Octet(i) == b
  {
    b as int
  }

  /** Slices lo to hi of the table are filled, in the byte order of the machine. */
  ghost predicate SlicesFilled(be: bool, table: array2<bv32>, lo: nat, hi: nat)
    requires lo <= hi <= table.Length0 && table.Length1 == 256
    reads table
  {
    forall s, i :: lo <= s < hi && 0 <= i < 256 ==> table[s, i] == Native(be, Entry(s, Octet(i)))
  }

  /** lzma_crc32_table: 8 slices, or just the first when built small. */
  ghost predicate TableReady(be: bool, table: array2<bv32>)
    reads table
  {
    && table.Length0 > 0 && table.Length1 == 256
    && SlicesFilled(be, table, 0, table.Length0)
  }

  lemma StepsUnfold(n: nat, r: bv32)
    requires n > 0
    ensures Steps(n, r) == Steps(n - 1, if LowBit(r) then Xor(Half(r), POLY32) else Half(r))
  {
  }

  lemma StepsZero(r: bv32)
    ensures Steps(0, r) == r
  {
  }

  /** The innermost loop of the table generators. */
  method EightSteps(r0: bv32) returns (r: bv32)
    ensures r == Steps(8, r0)
  {
    hide Steps, LowBit, Xor, Half;
    r := r0;
    for i := 0 to 8
      invariant Steps(8 - i, r) == Steps(8, r0)
    {
      StepsUnfold(8 - i, r);
      if LowBit(r) {
        r := Xor(Half(r), POLY32);
      } else {
        r := Half(r);
      }
    }
    StepsZero(r);
  }

  /** The next slice is eight more steps. */
  lemma EntryNext(s: nat, b: bv8)
    ensures Steps(8, Wide(b)) == Entry(0, b)
    ensures s > 0 ==> Steps(8, Entry(s - 1, b)) == Entry(s, b)
  {
    hide Steps, Wide;
    if s > 0 {
      StepsAdd(8 * (s - 1) + 8, 8, Wide(b));
    }
  }

  /** init_crc32_table (8 slices), and crc32_init of crc32_small.c (1 slice). */
  method InitTable(be: bool, table: array2<bv32>)
    requires table.Length0 > 0 && table.Length1 == 256
    modifies table
    ensures TableReady(be, table)
  {
    hide Steps, Wide, Bswap32, Entry, Octet;
    var slices := table.Length0;
    for s := 0 to slices
      invariant SlicesFilled(false, table, 0, s)
    {
      for b := 0 to 256
        invariant SlicesFilled(false, table, 0, s)
        invariant forall i :: 0 <= i < b ==> table[s, i] == Entry(s, Octet(i))
      {
        var r := if s == 0 then Wide(Octet(b)) else table[s - 1, b];
        EntryNext(s, Octet(b));
        r := EightSteps(r);
        table[s, b] := r;
      }
    }
    if be {
      SwapTable(table);
    }
  }

  /** The second pass of init_crc32_table on a big endian machine. */
  method SwapTable(table: array2<bv32>)
    requires TableReady(false, table)
    modifies table
    ensures TableReady(true, table)
  {
    hide Bswap32, Entry, Octet;
    var slices := table.Length0;
    for s := 0 to slices
      invariant SlicesFilled(true, table, 0, s)
      invariant SlicesFilled(false, table, s, slices)
    {
      for b := 0 to 256
        invariant SlicesFilled(true, table, 0, s)
        invariant SlicesFilled(false, table, s + 1, slices)
        invariant forall i :: 0 <= i < b ==> table[s, i] == Bswap32(Entry(s, Octet(i)))
        invariant forall i :: b <= i < 256 ==> table[s, i] == Entry(s, Octet(i))
      {
        table[s, b] := Bswap32(table[s, b]);
      }
    }
  }

  // ---------- lzma_crc32 ----------

  lemma Lookup(be: bool, table: array2<bv32>, s: nat, b: bv8)
    requires TableReady(be, table) && s < table.Length0
    ensures table[s, Index(b)] == Native(be, Entry(s, b))
  {
    hide Native, Entry, Index, Octet;
  }

  lemma ByteUpdate(be: bool, table: array2<bv32>, r: bv32, b: bv8)
    requires TableReady(be, table)
    ensures Xor(table[0, Index(b ^ A(be, Native(be, r)))], S8(be, Native(be, r))) == Native(be, ByteStep(r, b))
  {
    hide Native, Index, Octet, A, S8, Xor, Steps, Byte0, Shr8, TableReady;
    assert table.Length0 > 0 && table.Length1 == 256 by { TableShape(be, table); }
    Selectors(be, r);
    Lookup(be, table, 0, b ^ Byte0(r));
    NativeXor(be, Entry(0, b ^ Byte0(r)), Shr8(r));
    ByteStepByTable(r, b);
  }

  lemma FeedNothing(r: bv32, s: seq<bv8>)
    requires s == []
    ensures Feed(r, s) == r
  {
  }

  /** Eight bytes on their own. */
  lemma FeedEightBytes(r: bv32, eight: seq<bv8>)
    requires |eight| == 8
    ensures Feed(r, eight) == Xor(Steps(64, Xor(r, Le32(eight[0], eight[1], eight[2], eight[3]))),
                                  Steps(32, Le32(eight[4], eight[5], eight[6], eight[7])))
  {
    hide *;
    FeedEight(r, eight, 0);
    assert eight[0..] == eight && eight[8..] == [];
    FeedNothing(Xor(Steps(64, Xor(r, Le32(eight[0], eight[1], eight[2], eight[3]))),
                    Steps(32, Le32(eight[4], eight[5], eight[6], eight[7]))), []);
  }

  /** One turn of the slice-by-eight loop: `reg` is the register of the bytewise
      definition. */
  method EightBytes(be: bool, table: array2<bv32>, eight: seq<bv8>, crc0: bv32, ghost reg: bv32) returns (crc: bv32)
    requires TableReady(be, table) && table.Length0 == 8
    requires |eight| == 8 && crc0 == Native(be, reg)
    ensures crc == Native(be, Feed(reg, eight))
  {
    hide Feed, Native, Bswap32, Index, Octet, A, B, C, D, Xor, Steps, Le32, Read32ne, SlicesFilled;
    ghost var x := Xor(reg, Le32(eight[0], eight[1], eight[2], eight[3]));
    ghost var y := Le32(eight[4], eight[5], eight[6], eight[7]);
    NativeRead(be, eight[0..4]);
    NativeRead(be, eight[4..8]);
    NativeXor(be, reg, Le32(eight[0], eight[1], eight[2], eight[3]));
    WordLookups(be, table, 4, x);
    WordLookups(be, table, 0, y);
    NativeXor(be, Steps(64, x), Steps(32, y));
    FeedEightBytes(reg, eight);

    crc := Xor(crc0, Read32ne(be, eight[0..4]));
    assert crc == Native(be, x);
    var t7, t6, t5, t4 := table[7, Index(A(be, crc))], table[6, Index(B(be, crc))],
                          table[5, Index(C(be, crc))], table[4, Index(D(be, crc))];
    XorRegroup(t7, t6, t5, t4, crc);
    crc := Xor(Xor(Xor(t7, t6), t5), t4);
    assert crc == Native(be, Steps(64, x));
    var tmp := Read32ne(be, eight[4..8]);
    assert tmp == Native(be, y);
    var t3, t2, t1, t0 := table[3, Index(A(be, tmp))], table[2, Index(B(be, tmp))],
                          table[1, Index(C(be, tmp))], table[0, Index(D(be, tmp))];
    XorRegroup(t3, t2, t1, t0, crc);
    crc := Xor(Xor(Xor(Xor(t3, t2), crc), t1), t0);
  }

  lemma TableShape(be: bool, table: array2<bv32>)
    requires TableReady(be, table)
    ensures table.Length0 > 0 && table.Length1 == 256
  {
  }

  /** The four lookups of the loop body, on the little endian register. */
  lemma WordLookups(be: bool, table: array2<bv32>, k: nat, x: bv32)
    requires TableReady(be, table) && table.Length0 >= k + 4
    ensures (var n := Native(be, x);
             Xor(table[k + 3, Index(A(be, n))], Xor(table[k + 2, Index(B(be, n))],
               Xor(table[k + 1, Index(C(be, n))], table[k, Index(D(be, n))])))
             == Native(be, Steps(8 * k + 32, x)))
  {
    hide Native, Index, Octet, A, B, C, D, S8, Xor, Entry, Byte0, Byte1, Byte2, Byte3, SlicesFilled;
    var e3, e2, e1, e0 := Entry(k + 3, Byte0(x)), Entry(k + 2, Byte1(x)), Entry(k + 1, Byte2(x)), Entry(k, Byte3(x));
    Selectors(be, x);
    Lookup(be, table, k + 3, Byte0(x));
    Lookup(be, table, k + 2, Byte1(x));
    Lookup(be, table, k + 1, Byte2(x));
    Lookup(be, table, k, Byte3(x));
    NativeXor(be, e3, Xor(e2, Xor(e1, e0)));
    NativeXor(be, e2, Xor(e1, e0));
    NativeXor(be, e1, e0);
    SliceWord(k, x);
  }

  /** One turn of the two byte loops. */
  method OneByte(be: bool, table: array2<bv32>, byte: bv8, crc0: bv32, ghost reg: bv32) returns (crc: bv32)
    requires TableReady(be, table) && crc0 == Native(be, reg)
    ensures crc == Native(be, ByteStep(reg, byte))
  {
    hide Native, Bswap32, Index, Octet, A, S8, Xor, ByteStep, SlicesFilled;
    ByteUpdate(be, table, reg, byte);
    crc := Xor(table[0, Index(byte ^ A(be, crc0))], S8(be, crc0));
  }

  lemma FeedNextEight(r: bv32, buf: seq<bv8>, p: nat)
    requires p + 8 <= |buf|
    ensures Feed(r, buf[p..]) == Feed(Feed(r, buf[p..p + 8]), buf[p + 8..])
  {
    hide Feed;
    assert buf[p..] == buf[p..p + 8] + buf[p + 8..];
    FeedAppend(r, buf[p..p + 8], buf[p + 8..]);
  }

  /** The bswap32 that a big endian build does on entry and on exit. */
  method Swapped(be: bool, x: bv32) returns (y: bv32)
    ensures y == Native(be, x)
  {
    y := x;
    if be {
      y := Bswap32(y);
    }
  }

  /** x & 7 */
  function Low3(x: nat): nat { x % 8 }

  /** Bytes up to the next multiple of eight. */
  function ToAligned(address: nat): (n: nat)
    ensures n <= 7
  {
    (8 - address % 8) % 8
  }

  lemma AlignedInTime(address: nat, p: nat)
    requires p <= ToAligned(address) && Low3(address + p) != 0
    ensures p < ToAligned(address)
  {
  }

  lemma Turns(size: nat) returns (n: nat)
    ensures size - Low3(size) == 8 * n
  {
    n := size / 8;
  }

  /** lzma_crc32 of crc32_fast.c: slice by eight.  `address` is the address of
      buf[0]; only its low three bits matter. */
  method Crc32Fast(be: bool, table: array2<bv32>, buf: seq<bv8>, address: nat, crc0: bv32) returns (r: bv32)
    requires TableReady(be, table) && table.Length0 == 8
    ensures r == Crc(buf, crc0)
  {
    hide Feed, Native, TableReady, Low3, ToAligned, Not;
    ghost var reg := Not(crc0);  // the register of the bytewise definition
    var crc := Swapped(be, Not(crc0));
    var p: nat, size: nat := 0, |buf|;
    assert buf[p..] == buf;

    if size > 8 {
      while Low3(address + p) != 0
        invariant p <= ToAligned(address) <= 7 && p + size == |buf|
        invariant crc == Native(be, reg) && Feed(reg, buf[p..]) == Feed(Not(crc0), buf)
        decreases 8 - p
      {
        AlignedInTime(address, p);
        crc := OneByte(be, table, buf[p], crc, reg);
        FeedNext(reg, buf, p);
        reg := ByteStep(reg, buf[p]);
        p, size := p + 1, size - 1;
      }
      var limit := p + (size - Low3(size));
      ghost var turns := Turns(size);
      size := Low3(size);
      while p < limit
        invariant p + 8 * turns == limit && limit + size == |buf|
        invariant crc == Native(be, reg) && Feed(reg, buf[p..]) == Feed(Not(crc0), buf)
      {
        crc := EightBytes(be, table, buf[p..p + 8], crc, reg);
        FeedNextEight(reg, buf, p);
        reg := Feed(reg, buf[p..p + 8]);
        p, turns := p + 8, turns - 1;
      }
    }

    while size != 0
      invariant p + size == |buf|
      invariant crc == Native(be, reg) && Feed(reg, buf[p..]) == Feed(Not(crc0), buf)
    {
      crc := OneByte(be, table, buf[p], crc, reg);
      FeedNext(reg, buf, p);
      reg := ByteStep(reg, buf[p]);
      p, size := p + 1, size - 1;
    }

    FeedNothing(reg, buf[p..]);
    crc := Swapped(be, crc);
    NativeTwice(be, reg);
    return Not(crc);
  }

  /** lzma_crc32 of crc32_small.c: the first slice only, little endian tables on
      every machine. */
  method Crc32Small(table: array2<bv32>, buf: seq<bv8>, crc0: bv32) returns (r: bv32)
    requires TableReady(false, table)
    ensures r == Crc(buf, crc0)
  {
    hide Feed, Not, SlicesFilled;
    ghost var reg := Not(crc0);
    var crc := Not(crc0);
    var p: nat, size: nat := 0, |buf|;
    assert buf[p..] == buf;
    while size != 0
      invariant p + size == |buf|
      invariant crc == reg && Feed(reg, buf[p..]) == Feed(Not(crc0), buf)
    {
      crc := OneByte(false, table, buf[p], crc, reg);
      FeedNext(reg, buf, p);
      reg := ByteStep(reg, buf[p]);
      p, size := p + 1, size - 1;
    }
    FeedNothing(reg, buf[p..]);
    return Not(crc);
  }
}
