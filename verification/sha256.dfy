/** check/sha256.c, proved to compute the SHA-256 of FIPS 180-4. */
module Sha256 {
  import opened Common
  import opened Words
  import F = Fips180

  // ---------- the macros ----------

  function Ch(x: bv32, y: bv32, z: bv32): bv32 { z ^ (x & (y ^ z)) }
  function Maj(x: bv32, y: bv32, z: bv32): bv32 { (x & (y ^ z)) + (y & z) }
  function S0(x: bv32): bv32 { F.Rotr(Xor(x, F.Rotr(Xor(x, F.Rotr(x, 9)), 11)), 2) }
  function S1(x: bv32): bv32 { F.Rotr(Xor(x, F.Rotr(Xor(x, F.Rotr(x, 14)), 5)), 6) }
  function s0(x: bv32): bv32 { Xor(F.Rotr(Xor(x, F.Rotr(x, 11)), 7), F.Shr3(x)) }
  function s1(x: bv32): bv32 { Xor(F.Rotr(Xor(x, F.Rotr(x, 2)), 17), F.Shr10(x)) }

  lemma ChRaw(x: bv32, y: bv32, z: bv32)
    ensures z ^ (x & (y ^ z)) == (x & y) ^ (!x & z)
  {
  }

  lemma ChIsFips(x: bv32, y: bv32, z: bv32)
    ensures Ch(x, y, z) == F.Ch(x, y, z)
  {
    ChRaw(x, y, z);
  }

  lemma MajRaw(x: bv32, y: bv32, z: bv32)
    ensures (x & (y ^ z)) + (y & z) == (x & y) ^ (x & z) ^ (y & z)
  {
  }

  lemma MajIsFips(x: bv32, y: bv32, z: bv32)
    ensures Maj(x, y, z) == F.Maj(x, y, z)
  {
    MajRaw(x, y, z);
  }

  // A rotation distributes over exclusive or.

  lemma RotrXor2(x: bv32, y: bv32)
    ensures F.Rotr(Xor(x, y), 2) == Xor(F.Rotr(x, 2), F.Rotr(y, 2))
  {
  }

  lemma RotrXor5(x: bv32, y: bv32)
    ensures F.Rotr(Xor(x, y), 5) == Xor(F.Rotr(x, 5), F.Rotr(y, 5))
  {
  }

  lemma RotrXor6(x: bv32, y: bv32)
    ensures F.Rotr(Xor(x, y), 6) == Xor(F.Rotr(x, 6), F.Rotr(y, 6))
  {
  }

  lemma RotrXor7(x: bv32, y: bv32)
    ensures F.Rotr(Xor(x, y), 7) == Xor(F.Rotr(x, 7), F.Rotr(y, 7))
  {
  }

  lemma RotrXor11(x: bv32, y: bv32)
    ensures F.Rotr(Xor(x, y), 11) == Xor(F.Rotr(x, 11), F.Rotr(y, 11))
  {
  }

  lemma RotrXor17(x: bv32, y: bv32)
    ensures F.Rotr(Xor(x, y), 17) == Xor(F.Rotr(x, 17), F.Rotr(y, 17))
  {
  }

  // Rotations add up.

  lemma Rotr9Then11(x: bv32)
    ensures F.Rotr(F.Rotr(x, 9), 11) == F.Rotr(x, 20)
  {
  }

  lemma Rotr11Then2(x: bv32)
    ensures F.Rotr(F.Rotr(x, 11), 2) == F.Rotr(x, 13)
  {
  }

  lemma Rotr20Then2(x: bv32)
    ensures F.Rotr(F.Rotr(x, 20), 2) == F.Rotr(x, 22)
  {
  }

  lemma Rotr14Then5(x: bv32)
    ensures F.Rotr(F.Rotr(x, 14), 5) == F.Rotr(x, 19)
  {
  }

  lemma Rotr5Then6(x: bv32)
    ensures F.Rotr(F.Rotr(x, 5), 6) == F.Rotr(x, 11)
  {
  }

  lemma Rotr19Then6(x: bv32)
    ensures F.Rotr(F.Rotr(x, 19), 6) == F.Rotr(x, 25)
  {
  }

  lemma Rotr11Then7(x: bv32)
    ensures F.Rotr(F.Rotr(x, 11), 7) == F.Rotr(x, 18)
  {
  }

  lemma Rotr2Then17(x: bv32)
    ensures F.Rotr(F.Rotr(x, 2), 17) == F.Rotr(x, 19)
  {
  }

  lemma S0IsFips(x: bv32)
    ensures S0(x) == F.BigSigma0(x)
  {
    hide F.Rotr, Xor;
    Rotr9Then11(x);
    RotrXor11(x, F.Rotr(x, 9));
    Rotr11Then2(x);
    Rotr20Then2(x);
    RotrXor2(x, Xor(F.Rotr(x, 11), F.Rotr(x, 20)));
    RotrXor2(F.Rotr(x, 11), F.Rotr(x, 20));
    XorAssociates(F.Rotr(x, 2), F.Rotr(x, 13), F.Rotr(x, 22));
  }

  lemma S1IsFips(x: bv32)
    ensures S1(x) == F.BigSigma1(x)
  {
    hide F.Rotr, Xor;
    Rotr14Then5(x);
    RotrXor5(x, F.Rotr(x, 14));
    Rotr5Then6(x);
    Rotr19Then6(x);
    RotrXor6(x, Xor(F.Rotr(x, 5), F.Rotr(x, 19)));
    RotrXor6(F.Rotr(x, 5), F.Rotr(x, 19));
    XorAssociates(F.Rotr(x, 6), F.Rotr(x, 11), F.Rotr(x, 25));
  }

  lemma s0IsFips(x: bv32)
    ensures s0(x) == F.SmallSigma0(x)
  {
    hide F.Rotr, Xor, F.Shr3;
    Rotr11Then7(x);
    RotrXor7(x, F.Rotr(x, 11));
  }

  lemma s1IsFips(x: bv32)
    ensures s1(x) == F.SmallSigma1(x)
  {
    hide F.Rotr, Xor, F.Shr10;
    Rotr2Then17(x);
    RotrXor17(x, F.Rotr(x, 2));
  }

  /** h += s + c + k + w */
  function PlusSum(h: bv32, s: bv32, c: bv32, k: bv32, w: bv32): bv32 { h + (s + c + k + w) }

  /** The macro R adds h last, the standard first. */
  lemma SumIsFips(h: bv32, s: bv32, c: bv32, k: bv32, w: bv32)
    ensures PlusSum(h, s, c, k, w) == F.Sum5(h, s, c, k, w)
  {
  }

  lemma AddCommutes(x: bv32, y: bv32)
    ensures F.Add(x, y) == F.Add(y, x)
  {
  }

  const SHA256_K: seq<bv32> :=
    [0x428A2F98, 0x71374491, 0xB5C0FBCF, 0xE9B5DBA5, 0x3956C25B, 0x59F111F1, 0x923F82A4, 0xAB1C5ED5] +
    [0xD807AA98, 0x12835B01, 0x243185BE, 0x550C7DC3, 0x72BE5D74, 0x80DEB1FE, 0x9BDC06A7, 0xC19BF174] +
    [0xE49B69C1, 0xEFBE4786, 0x0FC19DC6, 0x240CA1CC, 0x2DE92C6F, 0x4A7484AA, 0x5CB0A9DC, 0x76F988DA] +
    [0x983E5152, 0xA831C66D, 0xB00327C8, 0xBF597FC7, 0xC6E00BF3, 0xD5A79147, 0x06CA6351, 0x14292967] +
    [0x27B70A85, 0x2E1B2138, 0x4D2C6DFC, 0x53380D13, 0x650A7354, 0x766A0ABB, 0x81C2C92E, 0x92722C85] +
    [0xA2BFE8A1, 0xA81A664B, 0xC24B8B70, 0xC76C51A3, 0xD192E819, 0xD6990624, 0xF40E3585, 0x106AA070] +
    [0x19A4C116, 0x1E376C08, 0x2748774C, 0x34B0BCB5, 0x391C0CB3, 0x4ED8AA4A, 0x5B9CCA4F, 0x682E6FF3] +
    [0x748F82EE, 0x78A5636F, 0x84C87814, 0x8CC70208, 0x90BEFFFA, 0xA4506CEB, 0xBEF9A3F7, 0xC67178F2]

  /** SHA256_K[t] */
  function K(t: nat): bv32
    requires t < 64
  {
    SHA256_K[t]
  }

  lemma KIsFips(t: nat)
    requires t < 64
    ensures K(t) == F.Kt(t)
  {
    assert SHA256_K == F.K;
  }

  // ---------- transform ----------

  /** The index of macro a (k = 0) to h (k = 7) in T. */
  function Slot(k: int, i: nat): (s: nat)
    ensures s < 8
  {
    (k - i) % 8
  }

  lemma SlotNext(k: int, i: nat)
    ensures Slot(k, i + 1) == Slot(k - 1, i)
  {
  }

  lemma SlotWraps(k: int, i: nat)
    ensures Slot(k - 8, i) == Slot(k, i)
  {
  }

  lemma SlotPeriod(k: int, i: nat)
    ensures Slot(k, i + 16) == Slot(k, i)
  {
  }

  lemma SlotsDiffer(k: int, l: int, i: nat)
    requires 0 <= k < l < 8
    ensures Slot(k, i) != Slot(l, i)
  {
  }

  /** d and h are none of the others. */
  lemma SlotsDistinct(i: nat)
    ensures Slot(7, i) !in [Slot(0, i), Slot(1, i), Slot(2, i), Slot(3, i), Slot(4, i), Slot(5, i), Slot(6, i)]
    ensures Slot(3, i) !in [Slot(0, i), Slot(1, i), Slot(2, i), Slot(4, i), Slot(5, i), Slot(6, i)]
  {
    hide Slot;
    SlotsDiffer(0, 7, i);
    SlotsDiffer(1, 7, i);
    SlotsDiffer(2, 7, i);
    SlotsDiffer(3, 7, i);
    SlotsDiffer(4, 7, i);
    SlotsDiffer(5, 7, i);
    SlotsDiffer(6, 7, i);
    SlotsDiffer(0, 3, i);
    SlotsDiffer(1, 3, i);
    SlotsDiffer(2, 3, i);
    SlotsDiffer(3, 4, i);
    SlotsDiffer(3, 5, i);
    SlotsDiffer(3, 6, i);
  }

  /** A round later every name has moved down one slot, and h has become a. */
  lemma SlotsRotate(i: nat)
    ensures Slot(0, i + 1) == Slot(7, i) && Slot(1, i + 1) == Slot(0, i)
    ensures Slot(2, i + 1) == Slot(1, i) && Slot(3, i + 1) == Slot(2, i)
    ensures Slot(4, i + 1) == Slot(3, i) && Slot(5, i + 1) == Slot(4, i)
    ensures Slot(6, i + 1) == Slot(5, i) && Slot(7, i + 1) == Slot(6, i)
  {
    hide Slot;
    SlotNext(0, i);
    SlotNext(1, i);
    SlotNext(2, i);
    SlotNext(3, i);
    SlotNext(4, i);
    SlotNext(5, i);
    SlotNext(6, i);
    SlotNext(7, i);
    SlotWraps(7, i);
  }

  /** The working variables: a(i) .. h(i) of the index-rotated T. */
  function VarsOf(t: seq<bv32>, i: nat): F.Vars
    requires |t| == 8
  {
    F.Vars(t[Slot(0, i)], t[Slot(1, i)], t[Slot(2, i)], t[Slot(3, i)],
           t[Slot(4, i)], t[Slot(5, i)], t[Slot(6, i)], t[Slot(7, i)])
  }

  /** What the macro R reads and writes in T, by the names before the round. */
  ghost predicate RoundWrites(t: seq<bv32>, u: seq<bv32>, i: nat, d: bv32, h: bv32) {
    && |t| == |u| == 8
    && u[Slot(7, i)] == h && u[Slot(3, i)] == d
    && u[Slot(0, i)] == t[Slot(0, i)] && u[Slot(1, i)] == t[Slot(1, i)] && u[Slot(2, i)] == t[Slot(2, i)]
    && u[Slot(4, i)] == t[Slot(4, i)] && u[Slot(5, i)] == t[Slot(5, i)] && u[Slot(6, i)] == t[Slot(6, i)]
  }

  /** Only d and h get new values; the others move by being renamed. */
  lemma RoundRenames(t: seq<bv32>, u: seq<bv32>, i: nat, d: bv32, h: bv32)
    requires RoundWrites(t, u, i, d, h)
    ensures VarsOf(u, i + 1)
         == F.Vars(h, t[Slot(0, i)], t[Slot(1, i)], t[Slot(2, i)], d, t[Slot(4, i)], t[Slot(5, i)], t[Slot(6, i)])
  {
    hide Slot;
    SlotsRotate(i);
  }

  /** The additions of one round are those of the standard. */
  lemma RoundSums(v: F.Vars, k: bv32, w: bv32)
    ensures var t1 := PlusSum(v.h, S1(v.e), Ch(v.e, v.f, v.g), k, w);
            F.Round(v, k, w) == F.Vars(F.Add(t1, F.Add(S0(v.a), Maj(v.a, v.b, v.c))), v.a, v.b, v.c,
                                       F.Add(v.d, t1), v.e, v.f, v.g)
  {
    hide F.Add, F.Sum5, PlusSum, S1, S0, Ch, Maj, F.BigSigma0, F.BigSigma1, F.Ch, F.Maj;
    S1IsFips(v.e);
    ChIsFips(v.e, v.f, v.g);
    S0IsFips(v.a);
    MajIsFips(v.a, v.b, v.c);
    SumIsFips(v.h, S1(v.e), Ch(v.e, v.f, v.g), k, w);
  }

  /** With these two values a round in place is the round of the standard. */
  lemma RoundInPlace(t: seq<bv32>, u: seq<bv32>, i: nat, k: bv32, w: bv32, t1: bv32)
    requires |t| == 8
    requires t1 == PlusSum(t[Slot(7, i)], S1(t[Slot(4, i)]), Ch(t[Slot(4, i)], t[Slot(5, i)], t[Slot(6, i)]), k, w)
    requires var t2 := F.Add(S0(t[Slot(0, i)]), Maj(t[Slot(0, i)], t[Slot(1, i)], t[Slot(2, i)]));
             RoundWrites(t, u, i, F.Add(t[Slot(3, i)], t1), F.Add(t1, t2))
    ensures VarsOf(u, i + 1) == F.Round(VarsOf(t, i), k, w)
  {
    hide F.Add, F.Round, PlusSum, S1, S0, Ch, Maj, Slot, RoundWrites;
    RoundSums(VarsOf(t, i), k, w);
    var t2 := F.Add(S0(t[Slot(0, i)]), Maj(t[Slot(0, i)], t[Slot(1, i)], t[Slot(2, i)]));
    RoundRenames(t, u, i, F.Add(t[Slot(3, i)], t1), F.Add(t1, t2));
  }

  /** The three assignments of the macro R. */
  method RoundWord(T: array<bv32>, a: nat, b: nat, c: nat, d: nat, e: nat, f: nat, g: nat, h: nat, k: bv32, blk: bv32)
    returns (ghost t1: bv32)
    requires T.Length == 8 && a < 8 && b < 8 && c < 8 && d < 8 && e < 8 && f < 8 && g < 8 && h < 8
    requires h !in [a, b, c, d, e, f, g] && d !in [a, b, c, e, f, g]
    modifies T
    ensures t1 == old(PlusSum(T[h], S1(T[e]), Ch(T[e], T[f], T[g]), k, blk))
    ensures T[d] == F.Add(old(T[d]), t1)
    ensures T[h] == F.Add(t1, old(F.Add(S0(T[a]), Maj(T[a], T[b], T[c]))))
    ensures forall j :: 0 <= j < 8 && j != d && j != h ==> T[j] == old(T[j])
  {
    hide F.Add, PlusSum, S1, S0, Ch, Maj;
    T[h] := PlusSum(T[h], S1(T[e]), Ch(T[e], T[f], T[g]), k, blk);
    t1 := T[h];
    T[d] := F.Add(T[d], T[h]);
    T[h] := F.Add(T[h], F.Add(S0(T[a]), Maj(T[a], T[b], T[c])));
  }

  /** The macro R: one round in place.  Nothing is moved; the names rotate. */
  method R(T: array<bv32>, i: nat, k: bv32, blk: bv32)
    requires T.Length == 8
    modifies T
    ensures VarsOf(T[..], i + 1) == F.Round(VarsOf(old(T[..]), i), k, blk)
  {
    hide F.Add, F.Round, PlusSum, S1, S0, Ch, Maj, Slot, VarsOf;
    var a, b, c, d := Slot(0, i), Slot(1, i), Slot(2, i), Slot(3, i);
    var e, f, g, h := Slot(4, i), Slot(5, i), Slot(6, i), Slot(7, i);
    SlotsDistinct(i);
    ghost var t := T[..];
    ghost var t1 := RoundWord(T, a, b, c, d, e, f, g, h, k, blk);
    assert RoundWrites(t, T[..], i, T[d], T[h]);
    RoundInPlace(t, T[..], i, k, blk, t1);
  }

  lemma VarsPeriod(t: seq<bv32>, i: nat)
    requires |t| == 8
    ensures VarsOf(t, i + 16) == VarsOf(t, i)
  {
    hide Slot;
    SlotPeriod(0, i);
    SlotPeriod(1, i);
    SlotPeriod(2, i);
    SlotPeriod(3, i);
    SlotPeriod(4, i);
    SlotPeriod(5, i);
    SlotPeriod(6, i);
    SlotPeriod(7, i);
  }

  lemma VarsOfRound(t: seq<bv32>, i: nat, j: nat)
    requires |t| == 8 && (j == 16 || j == 32 || j == 48)
    ensures VarsOf(t, i + j) == VarsOf(t, i)
  {
    hide VarsOf;
    VarsPeriod(t, i);
    VarsPeriod(t, i + 16);
    VarsPeriod(t, i + 32);
  }

  /** Word u of the schedule, for the last 16 words before t, is in W[u & 15]. */
  ghost predicate Recent(W: seq<bv32>, data: seq<bv8>, t: nat)
    requires |W| == 16 && |data| == 64
  {
    forall u: nat :: t - 16 <= u < t ==> W[u % 16] == F.Schedule(data, u)
  }

  lemma RecentNext(W: seq<bv32>, data: seq<bv8>, t: nat, i: nat)
    requires |W| == 16 && |data| == 64 && i == t % 16
    requires Recent(W, data, t)
    ensures Recent(W[i := F.Schedule(data, t)], data, t + 1)
  {
    hide F.Schedule;
    var w := W[i := F.Schedule(data, t)];
    forall u: nat | t + 1 - 16 <= u < t + 1
      ensures w[u % 16] == F.Schedule(data, u)
    {
      if u < t {
        assert u % 16 != i;
      }
    }
  }

  /** t rounds of the block have been done. */
  ghost predicate AfterRounds(T: seq<bv32>, W: seq<bv32>, h: F.Vars, data: seq<bv8>, t: nat)
    requires |T| == 8 && |W| == 16 && |data| == 64 && t <= 64
  {
    VarsOf(T, t) == F.Rounds(h, data, t) && Recent(W, data, t)
  }

  /** blk0(i) */
  method Blk0(be: bool, W: array<bv32>, data: seq<bv8>, i: nat) returns (w: bv32)
    requires W.Length == 16 && |data| == 64 && i < 16
    modifies W
    ensures w == F.Schedule(data, i) && W[..] == old(W[..])[i := w]
  {
    hide Conv32be, Read32ne, Le32;
    NativeRead(be, data[4 * i..4 * i + 4]);
    W[i] := Conv32be(be, Read32ne(be, data[4 * i..4 * i + 4]));
    return W[i];
  }

  lemma Schedule2(data: seq<bv8>, t: nat)
    requires |data| == 64 && t >= 16
    ensures F.Schedule(data, t)
         == F.Add(F.Schedule(data, t - 16),
                  F.Add(F.Add(s1(F.Schedule(data, t - 2)), F.Schedule(data, t - 7)), s0(F.Schedule(data, t - 15))))
  {
    hide F.Add, s0, s1, F.SmallSigma0, F.SmallSigma1;
    s1IsFips(F.Schedule(data, t - 2));
    s0IsFips(F.Schedule(data, t - 15));
    AddCommutes(F.Schedule(data, t - 16),
                F.Add(F.Add(s1(F.Schedule(data, t - 2)), F.Schedule(data, t - 7)), s0(F.Schedule(data, t - 15))));
  }

  lemma BackBy(t: nat, d: nat)
    requires d <= 16 <= t
    ensures (t % 16 - d) % 16 == (t - d) % 16
  {
  }

  lemma ReadBack(W: seq<bv32>, data: seq<bv8>, t: nat, d: nat)
    requires |W| == 16 && |data| == 64 && 1 <= d <= 16 <= t
    requires Recent(W, data, t)
    ensures W[(t % 16 - d) % 16] == F.Schedule(data, t - d)
  {
    hide F.Schedule;
    BackBy(t, d);
  }

  /** The words that blk2(i) reads. */
  lemma RecentReads(W: seq<bv32>, data: seq<bv8>, t: nat, i: nat)
    requires |W| == 16 && |data| == 64 && i == t % 16 && 16 <= t
    requires Recent(W, data, t)
    ensures W[i] == F.Schedule(data, t - 16)
    ensures W[(i - 2) % 16] == F.Schedule(data, t - 2)
    ensures W[(i - 7) % 16] == F.Schedule(data, t - 7)
    ensures W[(i - 15) % 16] == F.Schedule(data, t - 15)
  {
    hide F.Schedule, Recent;
    ReadBack(W, data, t, 16);
    ReadBack(W, data, t, 2);
    ReadBack(W, data, t, 7);
    ReadBack(W, data, t, 15);
  }

  /** blk2(i), on word t = i + j of the schedule */
  method Blk2(W: array<bv32>, i: nat, ghost data: seq<bv8>, ghost t: nat) returns (w: bv32)
    requires W.Length == 16 && |data| == 64 && i < 16 <= t && i == t % 16
    requires Recent(W[..], data, t)
    modifies W
    ensures w == F.Schedule(data, t) && W[..] == old(W[..])[i := w]
  {
    hide F.Add, F.Schedule, s0, s1, Recent;
    RecentReads(W[..], data, t, i);
    Schedule2(data, t);
    W[i] := F.Add(W[i], F.Add(F.Add(s1(W[(i - 2) % 16]), W[(i - 7) % 16]), s0(W[(i - 15) % 16])));
    return W[i];
  }

  /** R0(i) */
  method R0(be: bool, T: array<bv32>, W: array<bv32>, data: seq<bv8>, i: nat, ghost h: F.Vars)
    requires T.Length == 8 && W.Length == 16 && T != W && |data| == 64 && i < 16
    requires AfterRounds(T[..], W[..], h, data, i)
    modifies T, W
    ensures AfterRounds(T[..], W[..], h, data, i + 1)
  {
    hide F.Round, F.Schedule, F.Kt, K, VarsOf, Recent;
    KIsFips(i);
    RecentNext(W[..], data, i, i);
    var blk := Blk0(be, W, data, i);
    R(T, i, K(i), blk);
  }

  /** R2(i) inside the loop over j */
  method R2(T: array<bv32>, W: array<bv32>, i: nat, j: nat, ghost data: seq<bv8>, ghost h: F.Vars)
    requires T.Length == 8 && W.Length == 16 && T != W && |data| == 64
    requires i < 16 && (j == 16 || j == 32 || j == 48)
    requires AfterRounds(T[..], W[..], h, data, i + j)
    modifies T, W
    ensures AfterRounds(T[..], W[..], h, data, i + j + 1)
  {
    hide F.Round, F.Schedule, F.Kt, K, VarsOf, Recent;
    KIsFips(i + j);
    RecentNext(W[..], data, i + j, i);
    VarsOfRound(T[..], i, j);
    var blk := Blk2(W, i, data, i + j);
    R(T, i, K(i + j), blk);
    VarsOfRound(T[..], i + 1, j);
  }

  /** The first 16 operations, unrolled. */
  method FirstSixteen(be: bool, T: array<bv32>, W: array<bv32>, data: seq<bv8>, ghost h: F.Vars)
    requires T.Length == 8 && W.Length == 16 && T != W && |data| == 64
    requires AfterRounds(T[..], W[..], h, data, 0)
    modifies T, W
    ensures AfterRounds(T[..], W[..], h, data, 16)
  {
    hide *;
    R0(be, T, W, data, 0, h);
    R0(be, T, W, data, 1, h);
    R0(be, T, W, data, 2, h);
    R0(be, T, W, data, 3, h);
    R0(be, T, W, data, 4, h);
    R0(be, T, W, data, 5, h);
    R0(be, T, W, data, 6, h);
    R0(be, T, W, data, 7, h);
    R0(be, T, W, data, 8, h);
    R0(be, T, W, data, 9, h);
    R0(be, T, W, data, 10, h);
    R0(be, T, W, data, 11, h);
    R0(be, T, W, data, 12, h);
    R0(be, T, W, data, 13, h);
    R0(be, T, W, data, 14, h);
    R0(be, T, W, data, 15, h);
  }

  /** One turn of the loop over j: 16 more, unrolled. */
  method NextSixteen(T: array<bv32>, W: array<bv32>, j: nat, ghost data: seq<bv8>, ghost h: F.Vars)
    requires T.Length == 8 && W.Length == 16 && T != W && |data| == 64
    requires j == 16 || j == 32 || j == 48
    requires AfterRounds(T[..], W[..], h, data, j)
    modifies T, W
    ensures AfterRounds(T[..], W[..], h, data, j + 16)
  {
    hide *;
    R2(T, W, 0, j, data, h);
    R2(T, W, 1, j, data, h);
    R2(T, W, 2, j, data, h);
    R2(T, W, 3, j, data, h);
    R2(T, W, 4, j, data, h);
    R2(T, W, 5, j, data, h);
    R2(T, W, 6, j, data, h);
    R2(T, W, 7, j, data, h);
    R2(T, W, 8, j, data, h);
    R2(T, W, 9, j, data, h);
    R2(T, W, 10, j, data, h);
    R2(T, W, 11, j, data, h);
    R2(T, W, 12, j, data, h);
    R2(T, W, 13, j, data, h);
    R2(T, W, 14, j, data, h);
    R2(T, W, 15, j, data, h);
  }

  /** transform: the state array and the block, 64 rounds. */
  method Transform(be: bool, state: array<bv32>, data: seq<bv8>)
    requires state.Length == 8 && |data| == 64
    modifies state
    ensures VarsOf(state[..], 0) == F.Compress(VarsOf(old(state[..]), 0), data)
  {
    hide F.Add, F.Rounds, VarsOf, AfterRounds;
    var W := new bv32[16];
    var T := new bv32[8](k requires 0 <= k < 8 reads state => state[k]);
    ghost var h := VarsOf(state[..], 0);
    assert T[..] == state[..];
    BeforeRounds(T[..], W[..], data);
    FirstSixteen(be, T, W, data, h);
    var j := 16;
    while j < 64
      invariant j == 16 || j == 32 || j == 48 || j == 64
      invariant fresh(T) && fresh(W) && state[..] == old(state[..])
      invariant AfterRounds(T[..], W[..], h, data, j)
    {
      NextSixteen(T, W, j, data, h);
      j := j + 16;
    }
    AfterLastRound(T[..], W[..], h, data);
    AddBack(state, T, h);
  }

  lemma BeforeRounds(T: seq<bv32>, W: seq<bv32>, data: seq<bv8>)
    requires |T| == 8 && |W| == 16 && |data| == 64
    ensures AfterRounds(T, W, VarsOf(T, 0), data, 0)
  {
  }

  lemma AfterLastRound(T: seq<bv32>, W: seq<bv32>, h: F.Vars, data: seq<bv8>)
    requires |T| == 8 && |W| == 16 && |data| == 64
    requires AfterRounds(T, W, h, data, 64)
    ensures VarsOf(T, 0) == F.Rounds(h, data, 64)
  {
    hide VarsOf;
    VarsOfRound(T, 0, 48);
    VarsOfRound(T, 48, 16);
  }

  lemma InOrder(t: seq<bv32>)
    requires |t| == 8
    ensures VarsOf(t, 0) == F.Vars(t[0], t[1], t[2], t[3], t[4], t[5], t[6], t[7])
  {
  }

  /** The eight additions at the end of transform. */
  method AddBack(state: array<bv32>, T: array<bv32>, ghost h: F.Vars)
    requires state.Length == 8 && T.Length == 8 && state != T
    requires h == VarsOf(state[..], 0)
    modifies state
    ensures VarsOf(state[..], 0) == AddVars(h, VarsOf(T[..], 0))
  {
    hide F.Add, VarsOf, AddVars;
    ghost var s := state[..];
    AddTwo(state, T, 0);
    AddTwo(state, T, 2);
    AddTwo(state, T, 4);
    AddTwo(state, T, 6);
    AddedBack(s, T[..], state[..]);
  }

  method AddTwo(state: array<bv32>, T: array<bv32>, i: nat)
    requires state.Length == 8 && T.Length == 8 && state != T && i + 2 <= 8
    modifies state
    ensures forall k :: 0 <= k < 8 && i <= k < i + 2 ==> state[k] == F.Add(old(state[k]), T[k])
    ensures forall k :: 0 <= k < 8 && !(i <= k < i + 2) ==> state[k] == old(state[k])
  {
    hide F.Add;
    state[i] := F.Add(state[i], T[i]);
    state[i + 1] := F.Add(state[i + 1], T[i + 1]);
  }

  lemma AddedBack(s: seq<bv32>, t: seq<bv32>, r: seq<bv32>)
    requires |s| == |t| == |r| == 8 && forall k :: 0 <= k < 8 ==> r[k] == F.Add(s[k], t[k])
    ensures VarsOf(r, 0) == AddVars(VarsOf(s, 0), VarsOf(t, 0))
  {
    hide F.Add, VarsOf;
    InOrder(s);
    InOrder(t);
    InOrder(r);
  }

  function AddVars(h: F.Vars, v: F.Vars): F.Vars {
    F.Vars(F.Add(h.a, v.a), F.Add(h.b, v.b), F.Add(h.c, v.c), F.Add(h.d, v.d),
           F.Add(h.e, v.e), F.Add(h.f, v.f), F.Add(h.g, v.g), F.Add(h.h, v.h))
  }

  // ---------- the streaming interface ----------

  lemma {:induction false} HashAppend(h: F.Vars, a: seq<bv8>, block: seq<bv8>)
    requires WholeBlocks(|a|) && |block| == 64
    ensures F.HashBlocks(h, a + block) == F.Compress(F.HashBlocks(h, a), block)
    ensures WholeBlocks(|a + block|)
    decreases |a|
  {
    hide F.Compress;
    AnotherBlock(|a|);
    if a == [] {
      assert a + block == block;
      assert block[..64] == block && block[64..] == [];
    } else {
      var b := a + block;
      assert b[..64] == a[..64] && b[64..] == a[64..] + block;
      HashAppend(F.Compress(h, a[..64]), a[64..], block);
    }
  }

  predicate WholeBlocks(n: nat) { n % 64 == 0 }

  lemma AnotherBlock(n: nat)
    requires WholeBlocks(n)
    ensures WholeBlocks(n + 64)
    ensures n > 0 ==> n >= 64 && WholeBlocks(n - 64)
  {
  }

  /** lzma_check_state as SHA-256 uses it.  `message` is everything hashed since
      lzma_sha256_init. */
  class CheckState {
    const bigEndian: bool
    const buffer: array<bv8>
    const state: array<bv32>
    var size: nat
    ghost var message: seq<bv8>
    ghost var blocks: nat  // calls of process so far

    /** All of stream has been taken in: whole blocks by the hash value, the last
        pos bytes by the buffer. */
    ghost predicate Absorbed(stream: seq<bv8>, pos: nat)
      reads buffer, state
    {
      && buffer.Length == 64 && state.Length == 8 && pos <= 64 && pos <= |stream|
      && WholeBlocks(|stream| - pos)
      && VarsOf(state[..], 0) == F.HashBlocks(F.INITIAL, stream[..|stream| - pos])
      && buffer[..pos] == stream[|stream| - pos..]
    }

    ghost predicate Valid()
      reads this, buffer, state
    {
      && size == |message| % U64
      && blocks == |message| / 64
      && Absorbed(message, |message| % 64)
    }

    /** process, when the buffer holds a whole block */
    method Process(ghost stream: seq<bv8>)
      requires Absorbed(stream, 64)
      modifies this`blocks, state
      ensures Absorbed(stream, 0) && blocks == old(blocks) + 1
    {
      hide F.Compress, F.HashBlocks, VarsOf, WholeBlocks, F.INITIAL;
      ghost var n := |stream| - 64;
      HashAppend(F.INITIAL, stream[..n], stream[n..]);
      assert stream == stream[..n] + stream[n..];
      assert stream[..|stream|] == stream;
      assert buffer[..] == stream[n..];
      Transform(bigEndian, state, buffer[..]);
      blocks := blocks + 1;
    }

    /** lzma_sha256_init */
    constructor (bigEndian: bool)
      ensures this.bigEndian == bigEndian && Valid() && message == []
      ensures fresh(buffer) && fresh(state)
    {
      this.bigEndian := bigEndian;
      buffer := new bv8[64];
      state := new bv32[8][0x6A09E667, 0xBB67AE85, 0x3C6EF372, 0xA54FF53A,
                           0x510E527F, 0x9B05688C, 0x1F83D9AB, 0x5BE0CD19];
      size := 0;
      message, blocks := [], 0;
      new;
      hide Slot;
      InOrder(state[..]);
    }

    /** memcpy into the buffer */
    method Copy(start: nat, src: seq<bv8>)
      requires start + |src| <= buffer.Length
      modifies buffer
      ensures buffer[..start] == old(buffer[..start])
      ensures buffer[start..start + |src|] == src
    {
      forall k | 0 <= k < |src| {
        buffer[start + k] := src[k];
      }
    }

    /** More bytes for the block that the buffer is collecting. */
    method Append(pos: nat, piece: seq<bv8>, ghost stream: seq<bv8>)
      requires Absorbed(stream, pos) && pos + |piece| <= 64
      modifies buffer
      ensures Absorbed(stream + piece, pos + |piece|)
    {
      hide VarsOf, F.HashBlocks, WholeBlocks, F.INITIAL;
      Copy(pos, piece);
      ghost var n := |stream| - pos;
      assert (stream + piece)[..n] == stream[..n];
      assert buffer[..pos + |piece|] == buffer[..pos] + buffer[pos..pos + |piece|];
      assert (stream + piece)[n..] == stream[n..] + piece;
    }

    /** One turn of the loop in lzma_sha256_update. */
    method Take(piece: seq<bv8>)
      requires Valid() && 0 < |piece| <= 64 - size % 64
      modifies this`size, this`message, this`blocks, buffer, state
      ensures Valid() && message == old(message) + piece
    {
      hide Absorbed;
      SizeLow(|message|, size);
      Append(size % 64, piece, message);
      SizeGrows(|message|, |piece|, size);
      size := (size + |piece|) % U64;
      message := message + piece;
      if size % 64 == 0 {
        Process(message);
      }
    }

    /** lzma_sha256_update */
    method Update(buf: seq<bv8>)
      requires Valid()
      modifies this`size, this`message, this`blocks, buffer, state
      ensures Valid() && message == old(message) + buf
    {
      hide Absorbed;
      var p := 0;
      while p < |buf|
        invariant p <= |buf| && Valid() && message == old(message) + buf[..p]
      {
        var copySize := 64 - size % 64;
        if copySize > |buf| - p {
          copySize := |buf| - p;
        }
        Take(buf[p..p + copySize]);
        assert buf[..p] + buf[p..p + copySize] == buf[..p + copySize];
        p := p + copySize;
      }
      assert buf[..p] == buf;
    }

    /** The padding loop of lzma_sha256_finish: the 0x80 byte and the zeros. */
    method Pad() returns (ghost stream: seq<bv8>)
      requires Absorbed(message, |message| % 64) && size == |message| % U64
      modifies this`blocks, buffer, state
      ensures stream == message + [0x80] + F.ZeroBytes(F.PadZeros(|message|))
      ensures Absorbed(stream, 56)
      ensures blocks == old(blocks) + if |message| % 64 >= 56 then 1 else 0
    {
      hide Absorbed, F.PadZeros;
      SizeLow(|message|, size);
      var pos := size % 64;
      Append(pos, [0x80], message);
      stream := message + [0x80];
      pos := pos + 1;
      ghost var zeros := 0;
      ZerosLeft(|message|);
      assert F.ZeroBytes(0) == [];
      assert stream == message + [0x80] + F.ZeroBytes(0);
      while pos != 56
        invariant 0 < pos <= 64 && Absorbed(stream, pos)
        invariant (pos > |message| % 64 && blocks == old(blocks))
               || (|message| % 64 >= 56 && pos <= 56 && blocks == old(blocks) + 1)
        invariant |message| % 64 < 56 ==> pos <= 56
        invariant zeros + Left(pos) == F.PadZeros(|message|)
        invariant stream == message + [0x80] + F.ZeroBytes(zeros)
        decreases Left(pos)
      {
        if pos == 64 {
          Process(stream);
          pos := 0;
        }
        Append(pos, [0x00], stream);
        assert F.ZeroBytes(zeros + 1) == F.ZeroBytes(zeros) + [0];
        stream := stream + [0x00];
        pos, zeros := pos + 1, zeros + 1;
      }
    }

    /** buffer.u32[i] = conv32be(state[i]) for each word of the hash value. */
    method StoreDigest()
      requires buffer.Length == 64 && state.Length == 8
      modifies buffer
      ensures buffer[..32] == F.Digest(state[..])
    {
      hide F.WordBytes, Store32ne, Conv32be;
      for i := 0 to 8
        invariant buffer[..4 * i] == F.Digest(state[..i])
      {
        StoreIsWordBytes(bigEndian, state[i]);
        Copy(4 * i, Store32ne(bigEndian, Conv32be(bigEndian, state[i])));
        assert buffer[..4 * i + 4] == buffer[..4 * i] + buffer[4 * i..4 * i + 4];
        assert state[..i + 1][..i] == state[..i];
      }
      assert state[..8] == state[..];
    }

    /** lzma_sha256_finish */
    method Finish()
      requires Valid()
      modifies this`size, this`blocks, buffer, state
      ensures buffer.Length == 64 && buffer[..32] == F.Sha256(message)
      ensures blocks == old(blocks) + if |message| % 64 >= 56 then 2 else 1
    {
      hide Absorbed, F.PadZeros, F.Digest, F.ZeroBytes, F.HashBlocks, F.INITIAL, F.BigEndian;
      ghost var stream := Pad();
      BitLength(|message|, size);
      size := size * 8 % U64;
      var field := F.BigEndian(size, 8);  // conv64be, stored as one 64-bit word
      Append(56, field, stream);
      stream := stream + field;
      Process(stream);
      assert stream == F.Padded(message);
      AbsorbedWhole(stream);
      StoreDigest();
    }

    lemma AbsorbedWhole(stream: seq<bv8>)
      requires Absorbed(stream, 0)
      ensures state.Length == 8 && buffer.Length == 64
      ensures state[..] == F.HashWords(F.HashBlocks(F.INITIAL, stream))
    {
      hide F.HashBlocks, F.INITIAL, Slot, VarsOf;
      assert stream[..|stream|] == stream;
      InOrder(state[..]);
    }
  }

  /** Bytes still to pad from fill level pos up to the length field. */
  function Left(pos: nat): nat
    requires pos <= 64
  {
    if pos <= 56 then 56 - pos else 120 - pos
  }

  lemma ZerosLeft(n: nat)
    ensures Left(n % 64 + 1) == F.PadZeros(n)
  {
  }

  lemma StoreIsWordBytes(be: bool, x: bv32)
    ensures Store32ne(be, Conv32be(be, x)) == F.WordBytes(x)
  {
    hide Byte0, Byte1, Byte2, Byte3, Bswap32, Conv32be;
    StoreConverted(be, x);
  }

  lemma SizeLow(n: nat, size: nat)
    requires size == n % U64
    ensures size % 64 == n % 64
  {
  }

  lemma ModShift(x: nat, q: nat)
    ensures (x + q * U64) % U64 == x % U64
  {
  }

  lemma BitLength(n: nat, size: nat)
    requires size == n % U64
    ensures size * 8 % U64 == 8 * n % U64
  {
    var q := n / U64;
    assert 8 * n == 8 * size + (8 * q) * U64;
    ModShift(8 * size, 8 * q);
  }

  lemma Fill(n: nat, k: nat)
    requires 0 < k <= 64 - n % 64
    ensures (n + k) % 64 == if n % 64 + k == 64 then 0 else n % 64 + k
    ensures (n + k) / 64 == n / 64 + if n % 64 + k == 64 then 1 else 0
  {
  }

  /** The fill level of the buffer after another piece. */
  lemma SizeGrows(n: nat, k: nat, size: nat)
    requires size == n % U64 && 0 < k <= 64 - n % 64
    ensures (size + k) % U64 == (n + k) % U64
    ensures ((size + k) % U64) % 64 == (n + k) % 64
    ensures (n + k) % 64 == if n % 64 + k == 64 then 0 else n % 64 + k
    ensures (n + k) / 64 == n / 64 + if n % 64 + k == 64 then 1 else 0
  {
    ModAdd(n, k);
    SizeLow(n + k, (n + k) % U64);
    Fill(n, k);
  }

  // ---------- any cutting into calls ----------

  /** However a message is cut into update calls, on either kind of machine, the
      digest is the SHA-256 of the whole. */
  method HashPieces(bigEndian: bool, pieces: seq<seq<bv8>>) returns (digest: seq<bv8>)
    ensures digest == F.Sha256(Concat(pieces))
  {
    hide F.Sha256, Concat;
    ConcatNothing(pieces);
    var check := new CheckState(bigEndian);
    var i := 0;
    while i < |pieces|
      invariant i <= |pieces| && check.Valid() && check.message == Concat(pieces[..i])
      invariant fresh(check) && fresh(check.buffer) && fresh(check.state)
    {
      check.Update(pieces[i]);
      ConcatNext(pieces, i);
      i := i + 1;
    }
    assert pieces[..i] == pieces;
    check.Finish();
    return check.buffer[..32];
  }
}
