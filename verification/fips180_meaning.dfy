/** What the words, constants and fields of FIPS 180-4 are, bit by bit and number by
    number, without the expressions that compute them. */
module Fips180Meaning {
  import opened Words
  import opened Fips180

  // ---------- words ----------

  // ROTR by n exchanges the quotient and the remainder by the n-th power of two.

  lemma Rotr2(x: bv32)
    ensures Rotr(x, 2) == x / 0x4 + x % 0x4 * 0x40000000
  {
  }

  lemma Rotr5(x: bv32)
    ensures Rotr(x, 5) == x / 0x20 + x % 0x20 * 0x8000000
  {
  }

  lemma Rotr6(x: bv32)
    ensures Rotr(x, 6) == x / 0x40 + x % 0x40 * 0x4000000
  {
  }

  lemma Rotr7(x: bv32)
    ensures Rotr(x, 7) == x / 0x80 + x % 0x80 * 0x2000000
  {
  }

  lemma Rotr9(x: bv32)
    ensures Rotr(x, 9) == x / 0x200 + x % 0x200 * 0x800000
  {
  }

  lemma Rotr11(x: bv32)
    ensures Rotr(x, 11) == x / 0x800 + x % 0x800 * 0x200000
  {
  }

  lemma Rotr13(x: bv32)
    ensures Rotr(x, 13) == x / 0x2000 + x % 0x2000 * 0x80000
  {
  }

  lemma Rotr14(x: bv32)
    ensures Rotr(x, 14) == x / 0x4000 + x % 0x4000 * 0x40000
  {
  }

  lemma Rotr17(x: bv32)
    ensures Rotr(x, 17) == x / 0x20000 + x % 0x20000 * 0x8000
  {
  }

  lemma Rotr18(x: bv32)
    ensures Rotr(x, 18) == x / 0x40000 + x % 0x40000 * 0x4000
  {
  }

  lemma Rotr19(x: bv32)
    ensures Rotr(x, 19) == x / 0x80000 + x % 0x80000 * 0x2000
  {
  }

  lemma Rotr20(x: bv32)
    ensures Rotr(x, 20) == x / 0x100000 + x % 0x100000 * 0x1000
  {
  }

  lemma Rotr22(x: bv32)
    ensures Rotr(x, 22) == x / 0x400000 + x % 0x400000 * 0x400
  {
  }

  lemma Rotr25(x: bv32)
    ensures Rotr(x, 25) == x / 0x2000000 + x % 0x2000000 * 0x80
  {
  }

  /** At every amount that occurs, in the standard or in the nested rotations. */
  lemma RotrIs(x: bv32)
    ensures Rotr(x, 2) == x / 0x4 + x % 0x4 * 0x40000000
    ensures Rotr(x, 5) == x / 0x20 + x % 0x20 * 0x8000000
    ensures Rotr(x, 6) == x / 0x40 + x % 0x40 * 0x4000000
    ensures Rotr(x, 7) == x / 0x80 + x % 0x80 * 0x2000000
    ensures Rotr(x, 9) == x / 0x200 + x % 0x200 * 0x800000
    ensures Rotr(x, 11) == x / 0x800 + x % 0x800 * 0x200000
    ensures Rotr(x, 13) == x / 0x2000 + x % 0x2000 * 0x80000
    ensures Rotr(x, 14) == x / 0x4000 + x % 0x4000 * 0x40000
    ensures Rotr(x, 17) == x / 0x20000 + x % 0x20000 * 0x8000
    ensures Rotr(x, 18) == x / 0x40000 + x % 0x40000 * 0x4000
    ensures Rotr(x, 19) == x / 0x80000 + x % 0x80000 * 0x2000
    ensures Rotr(x, 20) == x / 0x100000 + x % 0x100000 * 0x1000
    ensures Rotr(x, 22) == x / 0x400000 + x % 0x400000 * 0x400
    ensures Rotr(x, 25) == x / 0x2000000 + x % 0x2000000 * 0x80
  {
    hide Rotr;
    Rotr2(x);
    Rotr5(x);
    Rotr6(x);
    Rotr7(x);
    Rotr9(x);
    Rotr11(x);
    Rotr13(x);
    Rotr14(x);
    Rotr17(x);
    Rotr18(x);
    Rotr19(x);
    Rotr20(x);
    Rotr22(x);
    Rotr25(x);
  }

  /** SHR divides by a power of two. */
  lemma ShrDivides(x: bv32)
    ensures Shr3(x) == x / 8 && Shr10(x) == x / 1024
  {
  }

  /** Add counts: adding one more gives one more, and past the largest word comes 0. */
  lemma AddCounts(x: bv32, y: bv32)
    ensures Add(x, 0) == x && Add(x, y + 1) == Add(x, y) + 1 && Add(0xFFFF_FFFF, 1) == 0
  {
  }

  // ---------- constants ----------

  /** The first sixty-four primes. */
  const PRIMES: seq<nat> :=
    [2, 3, 5, 7, 11, 13, 17, 19, 23, 29, 31, 37, 41, 43, 47, 53] +
    [59, 61, 67, 71, 73, 79, 83, 89, 97, 101, 103, 107, 109, 113, 127, 131] +
    [137, 139, 149, 151, 157, 163, 167, 173, 179, 181, 191, 193, 197, 199, 211, 223] +
    [227, 229, 233, 239, 241, 251, 257, 263, 269, 271, 277, 281, 283, 293, 307, 311]

  const TWO_32: nat := 0x1_0000_0000

  function Square(n: nat): nat { n * n }
  function Cube(n: nat): nat { n * n * n }

  /** k is the first thirty-two bits of the fractional part of the root whose integral
      part is whole. */
  predicate SquareRootBits(p: nat, whole: nat, k: nat) {
    Square(whole * TWO_32 + k) <= p * Square(TWO_32) < Square(whole * TWO_32 + k + 1)
  }

  predicate CubeRootBits(p: nat, whole: nat, k: nat) {
    Cube(whole * TWO_32 + k) <= p * Cube(TWO_32) < Cube(whole * TWO_32 + k + 1)
  }

  lemma Roots0()
    ensures CubeRootBits(2, 1, 0x428A2F98) && CubeRootBits(3, 1, 0x71374491)
    ensures CubeRootBits(5, 1, 0xB5C0FBCF) && CubeRootBits(7, 1, 0xE9B5DBA5)
    ensures CubeRootBits(11, 2, 0x3956C25B) && CubeRootBits(13, 2, 0x59F111F1)
    ensures CubeRootBits(17, 2, 0x923F82A4) && CubeRootBits(19, 2, 0xAB1C5ED5)
  {
  }

  lemma Roots1()
    ensures CubeRootBits(23, 2, 0xD807AA98) && CubeRootBits(29, 3, 0x12835B01)
    ensures CubeRootBits(31, 3, 0x243185BE) && CubeRootBits(37, 3, 0x550C7DC3)
    ensures CubeRootBits(41, 3, 0x72BE5D74) && CubeRootBits(43, 3, 0x80DEB1FE)
    ensures CubeRootBits(47, 3, 0x9BDC06A7) && CubeRootBits(53, 3, 0xC19BF174)
  {
  }

  lemma Roots2()
    ensures CubeRootBits(59, 3, 0xE49B69C1) && CubeRootBits(61, 3, 0xEFBE4786)
    ensures CubeRootBits(67, 4, 0x0FC19DC6) && CubeRootBits(71, 4, 0x240CA1CC)
    ensures CubeRootBits(73, 4, 0x2DE92C6F) && CubeRootBits(79, 4, 0x4A7484AA)
    ensures CubeRootBits(83, 4, 0x5CB0A9DC) && CubeRootBits(89, 4, 0x76F988DA)
  {
  }

  lemma Roots3()
    ensures CubeRootBits(97, 4, 0x983E5152) && CubeRootBits(101, 4, 0xA831C66D)
    ensures CubeRootBits(103, 4, 0xB00327C8) && CubeRootBits(107, 4, 0xBF597FC7)
    ensures CubeRootBits(109, 4, 0xC6E00BF3) && CubeRootBits(113, 4, 0xD5A79147)
    ensures CubeRootBits(127, 5, 0x06CA6351) && CubeRootBits(131, 5, 0x14292967)
  {
  }

  lemma Roots4()
    ensures CubeRootBits(137, 5, 0x27B70A85) && CubeRootBits(139, 5, 0x2E1B2138)
    ensures CubeRootBits(149, 5, 0x4D2C6DFC) && CubeRootBits(151, 5, 0x53380D13)
    ensures CubeRootBits(157, 5, 0x650A7354) && CubeRootBits(163, 5, 0x766A0ABB)
    ensures CubeRootBits(167, 5, 0x81C2C92E) && CubeRootBits(173, 5, 0x92722C85)
  {
  }

  lemma Roots5()
    ensures CubeRootBits(179, 5, 0xA2BFE8A1) && CubeRootBits(181, 5, 0xA81A664B)
    ensures CubeRootBits(191, 5, 0xC24B8B70) && CubeRootBits(193, 5, 0xC76C51A3)
    ensures CubeRootBits(197, 5, 0xD192E819) && CubeRootBits(199, 5, 0xD6990624)
    ensures CubeRootBits(211, 5, 0xF40E3585) && CubeRootBits(223, 6, 0x106AA070)
  {
  }

  lemma Roots6()
    ensures CubeRootBits(227, 6, 0x19A4C116) && CubeRootBits(229, 6, 0x1E376C08)
    ensures CubeRootBits(233, 6, 0x2748774C) && CubeRootBits(239, 6, 0x34B0BCB5)
    ensures CubeRootBits(241, 6, 0x391C0CB3) && CubeRootBits(251, 6, 0x4ED8AA4A)
    ensures CubeRootBits(257, 6, 0x5B9CCA4F) && CubeRootBits(263, 6, 0x682E6FF3)
  {
  }

  lemma Roots7()
    ensures CubeRootBits(269, 6, 0x748F82EE) && CubeRootBits(271, 6, 0x78A5636F)
    ensures CubeRootBits(277, 6, 0x84C87814) && CubeRootBits(281, 6, 0x8CC70208)
    ensures CubeRootBits(283, 6, 0x90BEFFFA) && CubeRootBits(293, 6, 0xA4506CEB)
    ensures CubeRootBits(307, 6, 0xBEF9A3F7) && CubeRootBits(311, 6, 0xC67178F2)
  {
  }

  function Whole(p: nat): nat {
    if p < 8 then 1 else if p < 27 then 2 else if p < 64 then 3 else if p < 125 then 4 else if p < 216 then 5 else 6
  }

  predicate ConstantIs(t: nat)
    requires t < 64
  {
    CubeRootBits(PRIMES[t], Whole(PRIMES[t]), K[t] as int)
  }

  lemma Row0(t: nat)
    requires 0 <= t < 8
    ensures ConstantIs(t)
  {
    Roots0();
    hide CubeRootBits;
    assert t == 0 || t == 1 || t == 2 || t == 3 || t == 4 || t == 5 || t == 6 || t == 7;
  }

  lemma Row1(t: nat)
    requires 8 <= t < 16
    ensures ConstantIs(t)
  {
    Roots1();
    hide CubeRootBits;
    assert t == 8 || t == 9 || t == 10 || t == 11 || t == 12 || t == 13 || t == 14 || t == 15;
  }

  lemma Row2(t: nat)
    requires 16 <= t < 24
    ensures ConstantIs(t)
  {
    Roots2();
    hide CubeRootBits;
    assert t == 16 || t == 17 || t == 18 || t == 19 || t == 20 || t == 21 || t == 22 || t == 23;
  }

  lemma Row3(t: nat)
    requires 24 <= t < 32
    ensures ConstantIs(t)
  {
    Roots3();
    hide CubeRootBits;
    assert t == 24 || t == 25 || t == 26 || t == 27 || t == 28 || t == 29 || t == 30 || t == 31;
  }

  lemma Row4(t: nat)
    requires 32 <= t < 40
    ensures ConstantIs(t)
  {
    Roots4();
    hide CubeRootBits;
    assert t == 32 || t == 33 || t == 34 || t == 35 || t == 36 || t == 37 || t == 38 || t == 39;
  }

  lemma Row5(t: nat)
    requires 40 <= t < 48
    ensures ConstantIs(t)
  {
    Roots5();
    hide CubeRootBits;
    assert t == 40 || t == 41 || t == 42 || t == 43 || t == 44 || t == 45 || t == 46 || t == 47;
  }

  lemma Row6(t: nat)
    requires 48 <= t < 56
    ensures ConstantIs(t)
  {
    Roots6();
    hide CubeRootBits;
    assert t == 48 || t == 49 || t == 50 || t == 51 || t == 52 || t == 53 || t == 54 || t == 55;
  }

  lemma Row7(t: nat)
    requires 56 <= t < 64
    ensures ConstantIs(t)
  {
    Roots7();
    hide CubeRootBits;
    assert t == 56 || t == 57 || t == 58 || t == 59 || t == 60 || t == 61 || t == 62 || t == 63;
  }

  /** Section 4.2.2: K_t are the first thirty-two bits of the fractional parts of the cube
      roots of the first sixty-four primes. */
  lemma ConstantsAreCubeRoots(t: nat)
    requires t < 64
    ensures CubeRootBits(PRIMES[t], Whole(PRIMES[t]), K[t] as int)
  {
    hide CubeRootBits, Whole;
    if t < 8 {
      Row0(t);
    } else if t < 16 {
      Row1(t);
    } else if t < 24 {
      Row2(t);
    } else if t < 32 {
      Row3(t);
    } else if t < 40 {
      Row4(t);
    } else if t < 48 {
      Row5(t);
    } else if t < 56 {
      Row6(t);
    } else {
      Row7(t);
    }
  }

  /** Section 5.3.3: the initial hash value, from the square roots of the first eight. */
  lemma InitialAreSquareRoots()
    ensures SquareRootBits(2, 1, INITIAL.a as int) && SquareRootBits(3, 1, INITIAL.b as int)
    ensures SquareRootBits(5, 2, INITIAL.c as int) && SquareRootBits(7, 2, INITIAL.d as int)
    ensures SquareRootBits(11, 3, INITIAL.e as int) && SquareRootBits(13, 3, INITIAL.f as int)
    ensures SquareRootBits(17, 4, INITIAL.g as int) && SquareRootBits(19, 4, INITIAL.h as int)
  {
  }

  // ---------- fields ----------

  function Power256(k: nat): (p: nat)
    ensures p > 0
  {
    if k == 0 then 1 else 256 * Power256(k - 1)
  }

  lemma DivideTwice(n: nat, p: nat)
    requires p > 0
    ensures n / 256 / p == n / (256 * p)
  {
    var a, b := n / 256, n % 256;
    var c, d := a / p, a % p;
    assert n == 256 * a + b && a == p * c + d;
    assert 256 * (p * c + d) == (256 * p) * c + 256 * d;
    QuotientIs(n, 256 * p, c, 256 * d + b);
  }

  lemma MulMore(m: nat, a: nat, b: nat)
    requires a < b
    ensures m * a + m <= m * b
  {
    assert m * b == m * a + m * (b - a);
    assert m * (b - a) == m + m * (b - a - 1);
  }

  lemma QuotientIs(n: nat, m: nat, q: nat, r: nat)
    requires m > 0 && r < m && n == m * q + r
    ensures n / m == q
  {
    var e, f := n / m, n % m;
    assert n == m * e + f;
    if e < q {
      MulMore(m, e, q);
    } else if e > q {
      MulMore(m, q, e);
    }
  }

  lemma BigEndianLast(n: nat, length: nat)
    requires length > 0
    ensures BigEndian(n, length)[..length - 1] == BigEndian(n / 256, length - 1)
    ensures BigEndian(n, length)[length - 1] == (n % 256) as bv8
  {
  }

  /** A big endian field holds at each place the digit of that power of 256. */
  lemma {:induction false} BigEndianAt(n: nat, length: nat, i: nat)
    requires i < length
    ensures BigEndian(n, length)[i] == (n / Power256(length - 1 - i) % 256) as bv8
    decreases length
  {
    hide BigEndian;
    BigEndianLast(n, length);
    if i < length - 1 {
      assert BigEndian(n, length)[i] == BigEndian(n, length)[..length - 1][i];
      BigEndianAt(n / 256, length - 1, i);
      DivideTwice(n, Power256(length - 2 - i));
    } else {
      assert Power256(0) == 1;
    }
  }
}
