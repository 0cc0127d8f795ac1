/** Known answers: the hash of "abc" (FIPS 180-4), and the check values of "123456789"
    that tests/test_check.c expects.  They hold of no other algorithm. */
module KnownAnswers {
  import F = Fips180
  import Crc32
  import Crc64
  import opened Words

  // ---------- SHA-256 ----------

  const ABC: seq<bv8> := [0x61, 0x62, 0x63]

  /** "abc", padded. */
  function PaddedAbc(): (s: seq<bv8>)
    ensures |s| == 64
  {
    seq(64, i requires 0 <= i < 64 =>
      if i == 0 then 0x61 else if i == 1 then 0x62 else if i == 2 then 0x63
      else if i == 3 then 0x80 else if i == 63 then 0x18 else 0)
  }

  lemma BigEndianNext(n: nat, length: nat)
    requires n < 256
    ensures F.BigEndian(n, 0) == [] && F.BigEndian(n, length + 1) == F.BigEndian(0, length) + [n as bv8]
  {
    assert n / 256 == 0 && n % 256 == n;
  }

  lemma {:induction false} SmallBigEndian(n: nat, length: nat)
    requires n < 256
    ensures F.BigEndian(n, length + 1) == F.ZeroBytes(length) + [n as bv8]
    decreases length
  {
    hide F.BigEndian;
    BigEndianNext(n, length);
    if length > 0 {
      SmallBigEndian(0, length - 1);
      assert F.ZeroBytes(length) == F.ZeroBytes(length - 1) + [0];
    } else {
      BigEndianNext(0, 0);
      assert F.ZeroBytes(0) == [];
    }
  }

  lemma PaddingOfThree(m: seq<bv8>)
    requires |m| == 3
    ensures F.Padded(m) == m + [0x80] + F.ZeroBytes(52) + (F.ZeroBytes(7) + [0x18])
  {
    hide F.BigEndian, F.ZeroBytes;
    SmallBigEndian(24, 7);
    assert F.PadZeros(|m|) == 52;
    hide F.PadZeros;
  }

  lemma PaddingOfAbc()
    ensures F.Padded(ABC) == PaddedAbc()
  {
    PaddingOfThree(ABC);
    hide F.Padded;
    assert PaddedAbc() == ABC + [0x80] + F.ZeroBytes(52) + (F.ZeroBytes(7) + [0x18]);
  }

  /** The first sixteen words of a block. */
  predicate IsAbc(m: seq<bv8>) {
    && |m| == 64
    && forall t :: 0 <= t < 16 ==> F.Schedule(m, t) == if t == 0 then 0x61626380 else if t == 15 then 0x18 else 0
  }

  function W(m: seq<bv8>, t: nat): bv32 {
    if t < 64 && |m| == 64 then F.Schedule(m, t) else 0
  }

  lemma ZeroWord()
    ensures Le32(0, 0, 0, 0) == 0
    ensures Le32(0x80, 0x63, 0x62, 0x61) == 0x61626380 && Le32(0x18, 0, 0, 0) == 0x18
  {
  }

  lemma FirstWords()
    ensures IsAbc(PaddedAbc())
  {
    ZeroWord();
    hide Le32;
  }

  function Mix(a: bv32, b: bv32, c: bv32, d: bv32): bv32 {
    F.Add(F.Add(F.Add(F.SmallSigma1(a), b), F.SmallSigma0(c)), d)
  }

  lemma WordIs(m: seq<bv8>, t: nat, a: bv32, b: bv32, c: bv32, d: bv32, r: bv32)
    requires |m| == 64 && 16 <= t < 64 && Mix(a, b, c, d) == r
    requires W(m, t - 2) == a && W(m, t - 7) == b && W(m, t - 15) == c && W(m, t - 16) == d
    ensures W(m, t) == r
  {
    hide F.Add, F.SmallSigma1, F.SmallSigma0;
  }

  lemma Words0(m: seq<bv8>)
    requires IsAbc(m)
    ensures forall t :: 0 <= t < 16 ==> W(m, t) == if t == 0 then 0x61626380 else if t == 15 then 0x18 else 0
  {
  }

  lemma Words16(m: seq<bv8>)
    requires IsAbc(m)
    ensures F.Vars(W(m, 16), W(m, 17), W(m, 18), W(m, 19), W(m, 20), W(m, 21), W(m, 22), W(m, 23))
         == F.Vars(0x61626380, 0x000F0000, 0x7DA86405, 0x600003C6, 0x3E9D7B78, 0x0183FC00, 0x12DCBFDB, 0xE2E2C38E)
  {
    assert |m| == 64;
    hide W, IsAbc;
    Words0(m);
    WordIs(m, 16, 0x00000000, 0x00000000, 0x00000000, 0x61626380, 0x61626380);
    WordIs(m, 17, 0x00000018, 0x00000000, 0x00000000, 0x00000000, 0x000F0000);
    WordIs(m, 18, 0x61626380, 0x00000000, 0x00000000, 0x00000000, 0x7DA86405);
    WordIs(m, 19, 0x000F0000, 0x00000000, 0x00000000, 0x00000000, 0x600003C6);
    WordIs(m, 20, 0x7DA86405, 0x00000000, 0x00000000, 0x00000000, 0x3E9D7B78);
    WordIs(m, 21, 0x600003C6, 0x00000000, 0x00000000, 0x00000000, 0x0183FC00);
    WordIs(m, 22, 0x3E9D7B78, 0x00000018, 0x00000000, 0x00000000, 0x12DCBFDB);
    WordIs(m, 23, 0x0183FC00, 0x61626380, 0x00000000, 0x00000000, 0xE2E2C38E);
  }

  lemma Words24(m: seq<bv8>)
    requires IsAbc(m)
    ensures F.Vars(W(m, 24), W(m, 25), W(m, 26), W(m, 27), W(m, 28), W(m, 29), W(m, 30), W(m, 31))
         == F.Vars(0xC8215C1A, 0xB73679A2, 0xE5BC3909, 0x32663C5B, 0x9D209D67, 0xEC8726CB, 0x702138A4, 0xD3B7973B)
  {
    assert |m| == 64;
    hide W, IsAbc;
    Words0(m);
    Words16(m);
    WordIs(m, 24, 0x12DCBFDB, 0x000F0000, 0x00000000, 0x00000000, 0xC8215C1A);
    WordIs(m, 25, 0xE2E2C38E, 0x7DA86405, 0x00000000, 0x00000000, 0xB73679A2);
    WordIs(m, 26, 0xC8215C1A, 0x600003C6, 0x00000000, 0x00000000, 0xE5BC3909);
    WordIs(m, 27, 0xB73679A2, 0x3E9D7B78, 0x00000000, 0x00000000, 0x32663C5B);
    WordIs(m, 28, 0xE5BC3909, 0x0183FC00, 0x00000000, 0x00000000, 0x9D209D67);
    WordIs(m, 29, 0x32663C5B, 0x12DCBFDB, 0x00000000, 0x00000000, 0xEC8726CB);
    WordIs(m, 30, 0x9D209D67, 0xE2E2C38E, 0x00000018, 0x00000000, 0x702138A4);
    WordIs(m, 31, 0xEC8726CB, 0xC8215C1A, 0x61626380, 0x00000018, 0xD3B7973B);
  }

  lemma Words32(m: seq<bv8>)
    requires IsAbc(m)
    ensures F.Vars(W(m, 32), W(m, 33), W(m, 34), W(m, 35), W(m, 36), W(m, 37), W(m, 38), W(m, 39))
         == F.Vars(0x93F5997F, 0x3B68BA73, 0xAFF4FFC1, 0xF10A5C62, 0x0A8B3996, 0x72AF830A, 0x9409E33E, 0x24641522)
  {
    assert |m| == 64;
    hide W, IsAbc;
    Words16(m);
    Words24(m);
    WordIs(m, 32, 0x702138A4, 0xB73679A2, 0x000F0000, 0x61626380, 0x93F5997F);
    WordIs(m, 33, 0xD3B7973B, 0xE5BC3909, 0x7DA86405, 0x000F0000, 0x3B68BA73);
    WordIs(m, 34, 0x93F5997F, 0x32663C5B, 0x600003C6, 0x7DA86405, 0xAFF4FFC1);
    WordIs(m, 35, 0x3B68BA73, 0x9D209D67, 0x3E9D7B78, 0x600003C6, 0xF10A5C62);
    WordIs(m, 36, 0xAFF4FFC1, 0xEC8726CB, 0x0183FC00, 0x3E9D7B78, 0x0A8B3996);
    WordIs(m, 37, 0xF10A5C62, 0x702138A4, 0x12DCBFDB, 0x0183FC00, 0x72AF830A);
    WordIs(m, 38, 0x0A8B3996, 0xD3B7973B, 0xE2E2C38E, 0x12DCBFDB, 0x9409E33E);
    WordIs(m, 39, 0x72AF830A, 0x93F5997F, 0xC8215C1A, 0xE2E2C38E, 0x24641522);
  }

  lemma Words40(m: seq<bv8>)
    requires IsAbc(m)
    ensures F.Vars(W(m, 40), W(m, 41), W(m, 42), W(m, 43), W(m, 44), W(m, 45), W(m, 46), W(m, 47))
         == F.Vars(0x9F47BF94, 0xF0A64F5A, 0x3E246A79, 0x27333BA3, 0x0C4763F2, 0x840ABF27, 0x7A290D5D, 0x065C43DA)
  {
    assert |m| == 64;
    hide W, IsAbc;
    Words24(m);
    Words32(m);
    WordIs(m, 40, 0x9409E33E, 0x3B68BA73, 0xB73679A2, 0xC8215C1A, 0x9F47BF94);
    WordIs(m, 41, 0x24641522, 0xAFF4FFC1, 0xE5BC3909, 0xB73679A2, 0xF0A64F5A);
    WordIs(m, 42, 0x9F47BF94, 0xF10A5C62, 0x32663C5B, 0xE5BC3909, 0x3E246A79);
    WordIs(m, 43, 0xF0A64F5A, 0x0A8B3996, 0x9D209D67, 0x32663C5B, 0x27333BA3);
    WordIs(m, 44, 0x3E246A79, 0x72AF830A, 0xEC8726CB, 0x9D209D67, 0x0C4763F2);
    WordIs(m, 45, 0x27333BA3, 0x9409E33E, 0x702138A4, 0xEC8726CB, 0x840ABF27);
    WordIs(m, 46, 0x0C4763F2, 0x24641522, 0xD3B7973B, 0x702138A4, 0x7A290D5D);
    WordIs(m, 47, 0x840ABF27, 0x9F47BF94, 0x93F5997F, 0xD3B7973B, 0x065C43DA);
  }

  lemma Words48(m: seq<bv8>)
    requires IsAbc(m)
    ensures F.Vars(W(m, 48), W(m, 49), W(m, 50), W(m, 51), W(m, 52), W(m, 53), W(m, 54), W(m, 55))
         == F.Vars(0xFB3E89CB, 0xCC7617DB, 0xB9E66C34, 0xA9993667, 0x84BADEDD, 0xC21462BC, 0x1487472C, 0xB20F7A99)
  {
    assert |m| == 64;
    hide W, IsAbc;
    Words32(m);
    Words40(m);
    WordIs(m, 48, 0x7A290D5D, 0xF0A64F5A, 0x3B68BA73, 0x93F5997F, 0xFB3E89CB);
    WordIs(m, 49, 0x065C43DA, 0x3E246A79, 0xAFF4FFC1, 0x3B68BA73, 0xCC7617DB);
    WordIs(m, 50, 0xFB3E89CB, 0x27333BA3, 0xF10A5C62, 0xAFF4FFC1, 0xB9E66C34);
    WordIs(m, 51, 0xCC7617DB, 0x0C4763F2, 0x0A8B3996, 0xF10A5C62, 0xA9993667);
    WordIs(m, 52, 0xB9E66C34, 0x840ABF27, 0x72AF830A, 0x0A8B3996, 0x84BADEDD);
    WordIs(m, 53, 0xA9993667, 0x7A290D5D, 0x9409E33E, 0x72AF830A, 0xC21462BC);
    WordIs(m, 54, 0x84BADEDD, 0x065C43DA, 0x24641522, 0x9409E33E, 0x1487472C);
    WordIs(m, 55, 0xC21462BC, 0xFB3E89CB, 0x9F47BF94, 0x24641522, 0xB20F7A99);
  }

  lemma Words56(m: seq<bv8>)
    requires IsAbc(m)
    ensures F.Vars(W(m, 56), W(m, 57), W(m, 58), W(m, 59), W(m, 60), W(m, 61), W(m, 62), W(m, 63))
         == F.Vars(0xEF57B9CD, 0xEBE6B238, 0x9FE3095E, 0x78BC8D4B, 0xA43FCF15, 0x668B2FF8, 0xEEABA2CC, 0x12B1EDEB)
  {
    assert |m| == 64;
    hide W, IsAbc;
    Words40(m);
    Words48(m);
    WordIs(m, 56, 0x1487472C, 0xCC7617DB, 0xF0A64F5A, 0x9F47BF94, 0xEF57B9CD);
    WordIs(m, 57, 0xB20F7A99, 0xB9E66C34, 0x3E246A79, 0xF0A64F5A, 0xEBE6B238);
    WordIs(m, 58, 0xEF57B9CD, 0xA9993667, 0x27333BA3, 0x3E246A79, 0x9FE3095E);
    WordIs(m, 59, 0xEBE6B238, 0x84BADEDD, 0x0C4763F2, 0x27333BA3, 0x78BC8D4B);
    WordIs(m, 60, 0x9FE3095E, 0xC21462BC, 0x840ABF27, 0x0C4763F2, 0xA43FCF15);
    WordIs(m, 61, 0x78BC8D4B, 0x1487472C, 0x7A290D5D, 0x840ABF27, 0x668B2FF8);
    WordIs(m, 62, 0xA43FCF15, 0xB20F7A99, 0x065C43DA, 0x7A290D5D, 0xEEABA2CC);
    WordIs(m, 63, 0x668B2FF8, 0xEF57B9CD, 0xFB3E89CB, 0x065C43DA, 0x12B1EDEB);
  }

  /** The working variables after t rounds. */
  function Vars(m: seq<bv8>, t: nat): F.Vars
    requires |m| == 64 && t <= 64
  {
    F.Rounds(F.INITIAL, m, t)
  }

  lemma RoundIs(m: seq<bv8>, t: nat, v: F.Vars, k: bv32, w: bv32, r: F.Vars)
    requires |m| == 64 && t < 64 && Vars(m, t) == v && W(m, t) == w && F.Kt(t) == k
    requires F.Round(v, k, w) == r
    ensures Vars(m, t + 1) == r
  {
    hide F.Round, F.Kt, F.Schedule;
  }

  lemma Rounds0(m: seq<bv8>)
    requires IsAbc(m)
    ensures Vars(m, 8)
         == F.Vars(0x85A07B5F, 0xE5030380, 0x2B4209F5, 0x04409A6A, 0x0C657A79, 0x9B27A401, 0x714260AD, 0x43ADA245)
  {
    Constants0();
    assert |m| == 64;
    hide Vars, W, IsAbc, F.Kt;
    Words0(m);
    Start(m);
    var v0 := F.Vars(0x6A09E667, 0xBB67AE85, 0x3C6EF372, 0xA54FF53A, 0x510E527F, 0x9B05688C, 0x1F83D9AB, 0x5BE0CD19);
    var v1 := F.Vars(0x5D6AEBCD, 0x6A09E667, 0xBB67AE85, 0x3C6EF372, 0xFA2A4622, 0x510E527F, 0x9B05688C, 0x1F83D9AB);
    RoundIs(m, 0, v0, 0x428A2F98, 0x61626380, v1);
    var v2 := F.Vars(0x5A6AD9AD, 0x5D6AEBCD, 0x6A09E667, 0xBB67AE85, 0x78CE7989, 0xFA2A4622, 0x510E527F, 0x9B05688C);
    RoundIs(m, 1, v1, 0x71374491, 0x00000000, v2);
    var v3 := F.Vars(0xC8C347A7, 0x5A6AD9AD, 0x5D6AEBCD, 0x6A09E667, 0xF92939EB, 0x78CE7989, 0xFA2A4622, 0x510E527F);
    RoundIs(m, 2, v2, 0xB5C0FBCF, 0x00000000, v3);
    var v4 := F.Vars(0xD550F666, 0xC8C347A7, 0x5A6AD9AD, 0x5D6AEBCD, 0x24E00850, 0xF92939EB, 0x78CE7989, 0xFA2A4622);
    RoundIs(m, 3, v3, 0xE9B5DBA5, 0x00000000, v4);
    var v5 := F.Vars(0x04409A6A, 0xD550F666, 0xC8C347A7, 0x5A6AD9AD, 0x43ADA245, 0x24E00850, 0xF92939EB, 0x78CE7989);
    RoundIs(m, 4, v4, 0x3956C25B, 0x00000000, v5);
    var v6 := F.Vars(0x2B4209F5, 0x04409A6A, 0xD550F666, 0xC8C347A7, 0x714260AD, 0x43ADA245, 0x24E00850, 0xF92939EB);
    RoundIs(m, 5, v5, 0x59F111F1, 0x00000000, v6);
    var v7 := F.Vars(0xE5030380, 0x2B4209F5, 0x04409A6A, 0xD550F666, 0x9B27A401, 0x714260AD, 0x43ADA245, 0x24E00850);
    RoundIs(m, 6, v6, 0x923F82A4, 0x00000000, v7);
    var v8 := F.Vars(0x85A07B5F, 0xE5030380, 0x2B4209F5, 0x04409A6A, 0x0C657A79, 0x9B27A401, 0x714260AD, 0x43ADA245);
    RoundIs(m, 7, v7, 0xAB1C5ED5, 0x00000000, v8);
  }

  lemma Constants0()
    ensures F.Kt(0) == 0x428A2F98 && F.Kt(1) == 0x71374491 && F.Kt(2) == 0xB5C0FBCF && F.Kt(3) == 0xE9B5DBA5
    ensures F.Kt(4) == 0x3956C25B && F.Kt(5) == 0x59F111F1 && F.Kt(6) == 0x923F82A4 && F.Kt(7) == 0xAB1C5ED5
  {
  }

  lemma Rounds1(m: seq<bv8>)
    requires IsAbc(m)
    ensures Vars(m, 16)
         == F.Vars(0xB0FA238E, 0xC0645FDE, 0xD932EB16, 0x87912990, 0x07590DCD, 0x0B92F20C, 0x745A48DE, 0x1E578218)
  {
    Constants1();
    assert |m| == 64;
    hide Vars, W, IsAbc, F.Kt;
    Words0(m);
    Rounds0(m);
    var v8 := F.Vars(0x85A07B5F, 0xE5030380, 0x2B4209F5, 0x04409A6A, 0x0C657A79, 0x9B27A401, 0x714260AD, 0x43ADA245);
    var v9 := F.Vars(0x8E04ECB9, 0x85A07B5F, 0xE5030380, 0x2B4209F5, 0x32CA2D8C, 0x0C657A79, 0x9B27A401, 0x714260AD);
    RoundIs(m, 8, v8, 0xD807AA98, 0x00000000, v9);
    var v10 := F.Vars(0x8C87346B, 0x8E04ECB9, 0x85A07B5F, 0xE5030380, 0x1CC92596, 0x32CA2D8C, 0x0C657A79, 0x9B27A401);
    RoundIs(m, 9, v9, 0x12835B01, 0x00000000, v10);
    var v11 := F.Vars(0x4798A3F4, 0x8C87346B, 0x8E04ECB9, 0x85A07B5F, 0x436B23E8, 0x1CC92596, 0x32CA2D8C, 0x0C657A79);
    RoundIs(m, 10, v10, 0x243185BE, 0x00000000, v11);
    var v12 := F.Vars(0xF71FC5A9, 0x4798A3F4, 0x8C87346B, 0x8E04ECB9, 0x816FD6E9, 0x436B23E8, 0x1CC92596, 0x32CA2D8C);
    RoundIs(m, 11, v11, 0x550C7DC3, 0x00000000, v12);
    var v13 := F.Vars(0x87912990, 0xF71FC5A9, 0x4798A3F4, 0x8C87346B, 0x1E578218, 0x816FD6E9, 0x436B23E8, 0x1CC92596);
    RoundIs(m, 12, v12, 0x72BE5D74, 0x00000000, v13);
    var v14 := F.Vars(0xD932EB16, 0x87912990, 0xF71FC5A9, 0x4798A3F4, 0x745A48DE, 0x1E578218, 0x816FD6E9, 0x436B23E8);
    RoundIs(m, 13, v13, 0x80DEB1FE, 0x00000000, v14);
    var v15 := F.Vars(0xC0645FDE, 0xD932EB16, 0x87912990, 0xF71FC5A9, 0x0B92F20C, 0x745A48DE, 0x1E578218, 0x816FD6E9);
    RoundIs(m, 14, v14, 0x9BDC06A7, 0x00000000, v15);
    var v16 := F.Vars(0xB0FA238E, 0xC0645FDE, 0xD932EB16, 0x87912990, 0x07590DCD, 0x0B92F20C, 0x745A48DE, 0x1E578218);
    RoundIs(m, 15, v15, 0xC19BF174, 0x00000018, v16);
  }

  lemma Constants1()
    ensures F.Kt(8) == 0xD807AA98 && F.Kt(9) == 0x12835B01 && F.Kt(10) == 0x243185BE && F.Kt(11) == 0x550C7DC3
    ensures F.Kt(12) == 0x72BE5D74 && F.Kt(13) == 0x80DEB1FE && F.Kt(14) == 0x9BDC06A7 && F.Kt(15) == 0xC19BF174
  {
  }

  lemma Rounds2(m: seq<bv8>)
    requires IsAbc(m)
    ensures Vars(m, 24)
         == F.Vars(0xC5D53D8D, 0xA7A3623F, 0xC2606D6D, 0x9DC68B63, 0xAA47C347, 0x49F5114A, 0xE1257970, 0x8ADA8930)
  {
    Constants2();
    assert |m| == 64;
    hide Vars, W, IsAbc, F.Kt;
    Words16(m);
    Rounds1(m);
    var v16 := F.Vars(0xB0FA238E, 0xC0645FDE, 0xD932EB16, 0x87912990, 0x07590DCD, 0x0B92F20C, 0x745A48DE, 0x1E578218);
    var v17 := F.Vars(0x21DA9A9B, 0xB0FA238E, 0xC0645FDE, 0xD932EB16, 0x8034229C, 0x07590DCD, 0x0B92F20C, 0x745A48DE);
    RoundIs(m, 16, v16, 0xE49B69C1, 0x61626380, v17);
    var v18 := F.Vars(0xC2FBD9D1, 0x21DA9A9B, 0xB0FA238E, 0xC0645FDE, 0x846EE454, 0x8034229C, 0x07590DCD, 0x0B92F20C);
    RoundIs(m, 17, v17, 0xEFBE4786, 0x000F0000, v18);
    var v19 := F.Vars(0xFE777BBF, 0xC2FBD9D1, 0x21DA9A9B, 0xB0FA238E, 0xCC899961, 0x846EE454, 0x8034229C, 0x07590DCD);
    RoundIs(m, 18, v18, 0x0FC19DC6, 0x7DA86405, v19);
    var v20 := F.Vars(0xE1F20C33, 0xFE777BBF, 0xC2FBD9D1, 0x21DA9A9B, 0xB0638179, 0xCC899961, 0x846EE454, 0x8034229C);
    RoundIs(m, 19, v19, 0x240CA1CC, 0x600003C6, v20);
    var v21 := F.Vars(0x9DC68B63, 0xE1F20C33, 0xFE777BBF, 0xC2FBD9D1, 0x8ADA8930, 0xB0638179, 0xCC899961, 0x846EE454);
    RoundIs(m, 20, v20, 0x2DE92C6F, 0x3E9D7B78, v21);
    var v22 := F.Vars(0xC2606D6D, 0x9DC68B63, 0xE1F20C33, 0xFE777BBF, 0xE1257970, 0x8ADA8930, 0xB0638179, 0xCC899961);
    RoundIs(m, 21, v21, 0x4A7484AA, 0x0183FC00, v22);
    var v23 := F.Vars(0xA7A3623F, 0xC2606D6D, 0x9DC68B63, 0xE1F20C33, 0x49F5114A, 0xE1257970, 0x8ADA8930, 0xB0638179);
    RoundIs(m, 22, v22, 0x5CB0A9DC, 0x12DCBFDB, v23);
    var v24 := F.Vars(0xC5D53D8D, 0xA7A3623F, 0xC2606D6D, 0x9DC68B63, 0xAA47C347, 0x49F5114A, 0xE1257970, 0x8ADA8930);
    RoundIs(m, 23, v23, 0x76F988DA, 0xE2E2C38E, v24);
  }

  lemma Constants2()
    ensures F.Kt(16) == 0xE49B69C1 && F.Kt(17) == 0xEFBE4786 && F.Kt(18) == 0x0FC19DC6 && F.Kt(19) == 0x240CA1CC
    ensures F.Kt(20) == 0x2DE92C6F && F.Kt(21) == 0x4A7484AA && F.Kt(22) == 0x5CB0A9DC && F.Kt(23) == 0x76F988DA
  {
  }

  lemma Rounds3(m: seq<bv8>)
    requires IsAbc(m)
    ensures Vars(m, 32)
         == F.Vars(0x73B33BF5, 0xEA992A22, 0xA0060B30, 0x363482C9, 0xBA591112, 0x0109AB3A, 0xADE79437, 0x6112A3B7)
  {
    Constants3();
    assert |m| == 64;
    hide Vars, W, IsAbc, F.Kt;
    Words24(m);
    Rounds2(m);
    var v24 := F.Vars(0xC5D53D8D, 0xA7A3623F, 0xC2606D6D, 0x9DC68B63, 0xAA47C347, 0x49F5114A, 0xE1257970, 0x8ADA8930);
    var v25 := F.Vars(0x1C2C2838, 0xC5D53D8D, 0xA7A3623F, 0xC2606D6D, 0x2823EF91, 0xAA47C347, 0x49F5114A, 0xE1257970);
    RoundIs(m, 24, v24, 0x983E5152, 0xC8215C1A, v25);
    var v26 := F.Vars(0xCDE8037D, 0x1C2C2838, 0xC5D53D8D, 0xA7A3623F, 0x14383D8E, 0x2823EF91, 0xAA47C347, 0x49F5114A);
    RoundIs(m, 25, v25, 0xA831C66D, 0xB73679A2, v26);
    var v27 := F.Vars(0xB62EC4BC, 0xCDE8037D, 0x1C2C2838, 0xC5D53D8D, 0xC74C6516, 0x14383D8E, 0x2823EF91, 0xAA47C347);
    RoundIs(m, 26, v26, 0xB00327C8, 0xE5BC3909, v27);
    var v28 := F.Vars(0x77D37528, 0xB62EC4BC, 0xCDE8037D, 0x1C2C2838, 0xEDFFBFF8, 0xC74C6516, 0x14383D8E, 0x2823EF91);
    RoundIs(m, 27, v27, 0xBF597FC7, 0x32663C5B, v28);
    var v29 := F.Vars(0x363482C9, 0x77D37528, 0xB62EC4BC, 0xCDE8037D, 0x6112A3B7, 0xEDFFBFF8, 0xC74C6516, 0x14383D8E);
    RoundIs(m, 28, v28, 0xC6E00BF3, 0x9D209D67, v29);
    var v30 := F.Vars(0xA0060B30, 0x363482C9, 0x77D37528, 0xB62EC4BC, 0xADE79437, 0x6112A3B7, 0xEDFFBFF8, 0xC74C6516);
    RoundIs(m, 29, v29, 0xD5A79147, 0xEC8726CB, v30);
    var v31 := F.Vars(0xEA992A22, 0xA0060B30, 0x363482C9, 0x77D37528, 0x0109AB3A, 0xADE79437, 0x6112A3B7, 0xEDFFBFF8);
    RoundIs(m, 30, v30, 0x06CA6351, 0x702138A4, v31);
    var v32 := F.Vars(0x73B33BF5, 0xEA992A22, 0xA0060B30, 0x363482C9, 0xBA591112, 0x0109AB3A, 0xADE79437, 0x6112A3B7);
    RoundIs(m, 31, v31, 0x14292967, 0xD3B7973B, v32);
  }

  lemma Constants3()
    ensures F.Kt(24) == 0x983E5152 && F.Kt(25) == 0xA831C66D && F.Kt(26) == 0xB00327C8 && F.Kt(27) == 0xBF597FC7
    ensures F.Kt(28) == 0xC6E00BF3 && F.Kt(29) == 0xD5A79147 && F.Kt(30) == 0x06CA6351 && F.Kt(31) == 0x14292967
  {
  }

  lemma Rounds4(m: seq<bv8>)
    requires IsAbc(m)
    ensures Vars(m, 40)
         == F.Vars(0x79EA687A, 0x6DC57A8A, 0x34DF1604, 0x41A65CB1, 0x1EFBC0A0, 0xF0781BC8, 0xA507A53D, 0x0772A26B)
  {
    Constants4();
    assert |m| == 64;
    hide Vars, W, IsAbc, F.Kt;
    Words32(m);
    Rounds3(m);
    var v32 := F.Vars(0x73B33BF5, 0xEA992A22, 0xA0060B30, 0x363482C9, 0xBA591112, 0x0109AB3A, 0xADE79437, 0x6112A3B7);
    var v33 := F.Vars(0x98E12507, 0x73B33BF5, 0xEA992A22, 0xA0060B30, 0x9CD9F5F6, 0xBA591112, 0x0109AB3A, 0xADE79437);
    RoundIs(m, 32, v32, 0x27B70A85, 0x93F5997F, v33);
    var v34 := F.Vars(0xFE604DF5, 0x98E12507, 0x73B33BF5, 0xEA992A22, 0x59249DD3, 0x9CD9F5F6, 0xBA591112, 0x0109AB3A);
    RoundIs(m, 33, v33, 0x2E1B2138, 0x3B68BA73, v34);
    var v35 := F.Vars(0xA9A7738C, 0xFE604DF5, 0x98E12507, 0x73B33BF5, 0x085F3833, 0x59249DD3, 0x9CD9F5F6, 0xBA591112);
    RoundIs(m, 34, v34, 0x4D2C6DFC, 0xAFF4FFC1, v35);
    var v36 := F.Vars(0x65A0CFE4, 0xA9A7738C, 0xFE604DF5, 0x98E12507, 0xF4B002D6, 0x085F3833, 0x59249DD3, 0x9CD9F5F6);
    RoundIs(m, 35, v35, 0x53380D13, 0xF10A5C62, v36);
    var v37 := F.Vars(0x41A65CB1, 0x65A0CFE4, 0xA9A7738C, 0xFE604DF5, 0x0772A26B, 0xF4B002D6, 0x085F3833, 0x59249DD3);
    RoundIs(m, 36, v36, 0x650A7354, 0x0A8B3996, v37);
    var v38 := F.Vars(0x34DF1604, 0x41A65CB1, 0x65A0CFE4, 0xA9A7738C, 0xA507A53D, 0x0772A26B, 0xF4B002D6, 0x085F3833);
    RoundIs(m, 37, v37, 0x766A0ABB, 0x72AF830A, v38);
    var v39 := F.Vars(0x6DC57A8A, 0x34DF1604, 0x41A65CB1, 0x65A0CFE4, 0xF0781BC8, 0xA507A53D, 0x0772A26B, 0xF4B002D6);
    RoundIs(m, 38, v38, 0x81C2C92E, 0x9409E33E, v39);
    var v40 := F.Vars(0x79EA687A, 0x6DC57A8A, 0x34DF1604, 0x41A65CB1, 0x1EFBC0A0, 0xF0781BC8, 0xA507A53D, 0x0772A26B);
    RoundIs(m, 39, v39, 0x92722C85, 0x24641522, v40);
  }

  lemma Constants4()
    ensures F.Kt(32) == 0x27B70A85 && F.Kt(33) == 0x2E1B2138 && F.Kt(34) == 0x4D2C6DFC && F.Kt(35) == 0x53380D13
    ensures F.Kt(36) == 0x650A7354 && F.Kt(37) == 0x766A0ABB && F.Kt(38) == 0x81C2C92E && F.Kt(39) == 0x92722C85
  {
  }

  lemma Rounds5(m: seq<bv8>)
    requires IsAbc(m)
    ensures Vars(m, 48)
         == F.Vars(0x4172328D, 0xA14C14B0, 0x72AB4B91, 0x26628815, 0xFECF0BC6, 0xD57B94A9, 0xB7755DA1, 0xA80F11F0)
  {
    Constants5();
    assert |m| == 64;
    hide Vars, W, IsAbc, F.Kt;
    Words40(m);
    Rounds4(m);
    var v40 := F.Vars(0x79EA687A, 0x6DC57A8A, 0x34DF1604, 0x41A65CB1, 0x1EFBC0A0, 0xF0781BC8, 0xA507A53D, 0x0772A26B);
    var v41 := F.Vars(0xD6670766, 0x79EA687A, 0x6DC57A8A, 0x34DF1604, 0x26352D63, 0x1EFBC0A0, 0xF0781BC8, 0xA507A53D);
    RoundIs(m, 40, v40, 0xA2BFE8A1, 0x9F47BF94, v41);
    var v42 := F.Vars(0xDF46652F, 0xD6670766, 0x79EA687A, 0x6DC57A8A, 0x838B2711, 0x26352D63, 0x1EFBC0A0, 0xF0781BC8);
    RoundIs(m, 41, v41, 0xA81A664B, 0xF0A64F5A, v42);
    var v43 := F.Vars(0x17AA0DFE, 0xDF46652F, 0xD6670766, 0x79EA687A, 0xDECD4715, 0x838B2711, 0x26352D63, 0x1EFBC0A0);
    RoundIs(m, 42, v42, 0xC24B8B70, 0x3E246A79, v43);
    var v44 := F.Vars(0x9D4BAF93, 0x17AA0DFE, 0xDF46652F, 0xD6670766, 0xFDA24C2E, 0xDECD4715, 0x838B2711, 0x26352D63);
    RoundIs(m, 43, v43, 0xC76C51A3, 0x27333BA3, v44);
    var v45 := F.Vars(0x26628815, 0x9D4BAF93, 0x17AA0DFE, 0xDF46652F, 0xA80F11F0, 0xFDA24C2E, 0xDECD4715, 0x838B2711);
    RoundIs(m, 44, v44, 0xD192E819, 0x0C4763F2, v45);
    var v46 := F.Vars(0x72AB4B91, 0x26628815, 0x9D4BAF93, 0x17AA0DFE, 0xB7755DA1, 0xA80F11F0, 0xFDA24C2E, 0xDECD4715);
    RoundIs(m, 45, v45, 0xD6990624, 0x840ABF27, v46);
    var v47 := F.Vars(0xA14C14B0, 0x72AB4B91, 0x26628815, 0x9D4BAF93, 0xD57B94A9, 0xB7755DA1, 0xA80F11F0, 0xFDA24C2E);
    RoundIs(m, 46, v46, 0xF40E3585, 0x7A290D5D, v47);
    var v48 := F.Vars(0x4172328D, 0xA14C14B0, 0x72AB4B91, 0x26628815, 0xFECF0BC6, 0xD57B94A9, 0xB7755DA1, 0xA80F11F0);
    RoundIs(m, 47, v47, 0x106AA070, 0x065C43DA, v48);
  }

  lemma Constants5()
    ensures F.Kt(40) == 0xA2BFE8A1 && F.Kt(41) == 0xA81A664B && F.Kt(42) == 0xC24B8B70 && F.Kt(43) == 0xC76C51A3
    ensures F.Kt(44) == 0xD192E819 && F.Kt(45) == 0xD6990624 && F.Kt(46) == 0xF40E3585 && F.Kt(47) == 0x106AA070
  {
  }

  lemma Rounds6(m: seq<bv8>)
    requires IsAbc(m)
    ensures Vars(m, 56)
         == F.Vars(0x38CC9913, 0x3EC45CDB, 0xF5702FDB, 0x101FD28F, 0x54CB266B, 0xE50E1B4F, 0x9F4787C3, 0x529E7D00)
  {
    Constants6();
    assert |m| == 64;
    hide Vars, W, IsAbc, F.Kt;
    Words48(m);
    Rounds5(m);
    var v48 := F.Vars(0x4172328D, 0xA14C14B0, 0x72AB4B91, 0x26628815, 0xFECF0BC6, 0xD57B94A9, 0xB7755DA1, 0xA80F11F0);
    var v49 := F.Vars(0x05757CEB, 0x4172328D, 0xA14C14B0, 0x72AB4B91, 0xBD714038, 0xFECF0BC6, 0xD57B94A9, 0xB7755DA1);
    RoundIs(m, 48, v48, 0x19A4C116, 0xFB3E89CB, v49);
    var v50 := F.Vars(0xF11BFAA8, 0x05757CEB, 0x4172328D, 0xA14C14B0, 0x6E5C390C, 0xBD714038, 0xFECF0BC6, 0xD57B94A9);
    RoundIs(m, 49, v49, 0x1E376C08, 0xCC7617DB, v50);
    var v51 := F.Vars(0x7A0508A1, 0xF11BFAA8, 0x05757CEB, 0x4172328D, 0x52F1CCF7, 0x6E5C390C, 0xBD714038, 0xFECF0BC6);
    RoundIs(m, 50, v50, 0x2748774C, 0xB9E66C34, v51);
    var v52 := F.Vars(0x886E7A22, 0x7A0508A1, 0xF11BFAA8, 0x05757CEB, 0x49231C1E, 0x52F1CCF7, 0x6E5C390C, 0xBD714038);
    RoundIs(m, 51, v51, 0x34B0BCB5, 0xA9993667, v52);
    var v53 := F.Vars(0x101FD28F, 0x886E7A22, 0x7A0508A1, 0xF11BFAA8, 0x529E7D00, 0x49231C1E, 0x52F1CCF7, 0x6E5C390C);
    RoundIs(m, 52, v52, 0x391C0CB3, 0x84BADEDD, v53);
    var v54 := F.Vars(0xF5702FDB, 0x101FD28F, 0x886E7A22, 0x7A0508A1, 0x9F4787C3, 0x529E7D00, 0x49231C1E, 0x52F1CCF7);
    RoundIs(m, 53, v53, 0x4ED8AA4A, 0xC21462BC, v54);
    var v55 := F.Vars(0x3EC45CDB, 0xF5702FDB, 0x101FD28F, 0x886E7A22, 0xE50E1B4F, 0x9F4787C3, 0x529E7D00, 0x49231C1E);
    RoundIs(m, 54, v54, 0x5B9CCA4F, 0x1487472C, v55);
    var v56 := F.Vars(0x38CC9913, 0x3EC45CDB, 0xF5702FDB, 0x101FD28F, 0x54CB266B, 0xE50E1B4F, 0x9F4787C3, 0x529E7D00);
    RoundIs(m, 55, v55, 0x682E6FF3, 0xB20F7A99, v56);
  }

  lemma Constants6()
    ensures F.Kt(48) == 0x19A4C116 && F.Kt(49) == 0x1E376C08 && F.Kt(50) == 0x2748774C && F.Kt(51) == 0x34B0BCB5
    ensures F.Kt(52) == 0x391C0CB3 && F.Kt(53) == 0x4ED8AA4A && F.Kt(54) == 0x5B9CCA4F && F.Kt(55) == 0x682E6FF3
  {
  }

  lemma Rounds7(m: seq<bv8>)
    requires IsAbc(m)
    ensures Vars(m, 64)
         == F.Vars(0x506E3058, 0xD39A2165, 0x04D24D6C, 0xB85E2CE9, 0x5EF50F24, 0xFB121210, 0x948D25B6, 0x961F4894)
  {
    Constants7();
    assert |m| == 64;
    hide Vars, W, IsAbc, F.Kt;
    Words56(m);
    Rounds6(m);
    var v56 := F.Vars(0x38CC9913, 0x3EC45CDB, 0xF5702FDB, 0x101FD28F, 0x54CB266B, 0xE50E1B4F, 0x9F4787C3, 0x529E7D00);
    var v57 := F.Vars(0xFCD1887B, 0x38CC9913, 0x3EC45CDB, 0xF5702FDB, 0x9B5E906C, 0x54CB266B, 0xE50E1B4F, 0x9F4787C3);
    RoundIs(m, 56, v56, 0x748F82EE, 0xEF57B9CD, v57);
    var v58 := F.Vars(0xC062D46F, 0xFCD1887B, 0x38CC9913, 0x3EC45CDB, 0x7E44008E, 0x9B5E906C, 0x54CB266B, 0xE50E1B4F);
    RoundIs(m, 57, v57, 0x78A5636F, 0xEBE6B238, v58);
    var v59 := F.Vars(0xFFB70472, 0xC062D46F, 0xFCD1887B, 0x38CC9913, 0x6D83BFC6, 0x7E44008E, 0x9B5E906C, 0x54CB266B);
    RoundIs(m, 58, v58, 0x84C87814, 0x9FE3095E, v59);
    var v60 := F.Vars(0xB6AE8FFF, 0xFFB70472, 0xC062D46F, 0xFCD1887B, 0xB21BAD3D, 0x6D83BFC6, 0x7E44008E, 0x9B5E906C);
    RoundIs(m, 59, v59, 0x8CC70208, 0x78BC8D4B, v60);
    var v61 := F.Vars(0xB85E2CE9, 0xB6AE8FFF, 0xFFB70472, 0xC062D46F, 0x961F4894, 0xB21BAD3D, 0x6D83BFC6, 0x7E44008E);
    RoundIs(m, 60, v60, 0x90BEFFFA, 0xA43FCF15, v61);
    var v62 := F.Vars(0x04D24D6C, 0xB85E2CE9, 0xB6AE8FFF, 0xFFB70472, 0x948D25B6, 0x961F4894, 0xB21BAD3D, 0x6D83BFC6);
    RoundIs(m, 61, v61, 0xA4506CEB, 0x668B2FF8, v62);
    var v63 := F.Vars(0xD39A2165, 0x04D24D6C, 0xB85E2CE9, 0xB6AE8FFF, 0xFB121210, 0x948D25B6, 0x961F4894, 0xB21BAD3D);
    RoundIs(m, 62, v62, 0xBEF9A3F7, 0xEEABA2CC, v63);
    var v64 := F.Vars(0x506E3058, 0xD39A2165, 0x04D24D6C, 0xB85E2CE9, 0x5EF50F24, 0xFB121210, 0x948D25B6, 0x961F4894);
    RoundIs(m, 63, v63, 0xC67178F2, 0x12B1EDEB, v64);
  }

  lemma Constants7()
    ensures F.Kt(56) == 0x748F82EE && F.Kt(57) == 0x78A5636F && F.Kt(58) == 0x84C87814 && F.Kt(59) == 0x8CC70208
    ensures F.Kt(60) == 0x90BEFFFA && F.Kt(61) == 0xA4506CEB && F.Kt(62) == 0xBEF9A3F7 && F.Kt(63) == 0xC67178F2
  {
  }

  lemma Start(m: seq<bv8>)
    requires |m| == 64
    ensures Vars(m, 0)
         == F.Vars(0x6A09E667, 0xBB67AE85, 0x3C6EF372, 0xA54FF53A, 0x510E527F, 0x9B05688C, 0x1F83D9AB, 0x5BE0CD19)
  {
  }

  lemma LastSums()
    ensures F.Add(0x6A09E667, 0x506E3058) == 0xBA7816BF && F.Add(0xBB67AE85, 0xD39A2165) == 0x8F01CFEA
    ensures F.Add(0x3C6EF372, 0x04D24D6C) == 0x414140DE && F.Add(0xA54FF53A, 0xB85E2CE9) == 0x5DAE2223
    ensures F.Add(0x510E527F, 0x5EF50F24) == 0xB00361A3 && F.Add(0x9B05688C, 0xFB121210) == 0x96177A9C
    ensures F.Add(0x1F83D9AB, 0x948D25B6) == 0xB410FF61 && F.Add(0x5BE0CD19, 0x961F4894) == 0xF20015AD
  {
  }

  lemma CompressOfAbc(m: seq<bv8>)
    requires IsAbc(m)
    ensures F.Compress(F.INITIAL, m)
         == F.Vars(0xBA7816BF, 0x8F01CFEA, 0x414140DE, 0x5DAE2223, 0xB00361A3, 0x96177A9C, 0xB410FF61, 0xF20015AD)
  {
    Rounds7(m);
    LastSums();
    Start(m);
    hide F.Add, F.Round, F.Rounds, IsAbc;
  }

  lemma OneBlock(s: seq<bv8>)
    requires |s| == 64
    ensures F.HashBlocks(F.INITIAL, s) == F.Compress(F.INITIAL, s)
  {
    hide F.Compress;
    assert s[..64] == s && s[64..] == [];
  }

  lemma DigestNext(words: seq<bv32>, x: bv32)
    ensures F.Digest(words + [x]) == F.Digest(words) + F.WordBytes(x)
  {
    hide F.WordBytes;
    assert (words + [x])[..|words|] == words;
  }

  lemma DigestOfFour(words: seq<bv32>, a: bv32, b: bv32, c: bv32, d: bv32)
    ensures F.Digest(words + [a, b, c, d])
         == F.Digest(words) + (F.WordBytes(a) + F.WordBytes(b) + F.WordBytes(c) + F.WordBytes(d))
  {
    hide F.Digest, F.WordBytes;
    DigestNext(words, a);
    DigestNext(words + [a], b);
    DigestNext(words + [a] + [b], c);
    DigestNext(words + [a] + [b] + [c], d);
    assert words + [a, b, c, d] == words + [a] + [b] + [c] + [d];
  }

  lemma DigestOfEight(a: bv32, b: bv32, c: bv32, d: bv32, e: bv32, f: bv32, g: bv32, h: bv32)
    ensures F.Digest([a, b, c, d, e, f, g, h])
         == (F.WordBytes(a) + F.WordBytes(b) + F.WordBytes(c) + F.WordBytes(d))
          + (F.WordBytes(e) + F.WordBytes(f) + F.WordBytes(g) + F.WordBytes(h))
  {
    assert F.Digest([]) == [];
    hide F.Digest, F.WordBytes;
    DigestOfFour([], a, b, c, d);
    DigestOfFour([a, b, c, d], e, f, g, h);
    assert [] + [a, b, c, d] == [a, b, c, d];
    assert [a, b, c, d] + [e, f, g, h] == [a, b, c, d, e, f, g, h];
  }

  lemma BytesOfHash()
    ensures F.WordBytes(0xBA7816BF) == [0xBA, 0x78, 0x16, 0xBF] && F.WordBytes(0x8F01CFEA) == [0x8F, 0x01, 0xCF, 0xEA]
    ensures F.WordBytes(0x414140DE) == [0x41, 0x41, 0x40, 0xDE] && F.WordBytes(0x5DAE2223) == [0x5D, 0xAE, 0x22, 0x23]
    ensures F.WordBytes(0xB00361A3) == [0xB0, 0x03, 0x61, 0xA3] && F.WordBytes(0x96177A9C) == [0x96, 0x17, 0x7A, 0x9C]
    ensures F.WordBytes(0xB410FF61) == [0xB4, 0x10, 0xFF, 0x61] && F.WordBytes(0xF20015AD) == [0xF2, 0x00, 0x15, 0xAD]
  {
  }

  /** SHA-256("abc") */
  lemma Sha256OfAbc()
    ensures F.Sha256(ABC)
         == ([0xBA, 0x78, 0x16, 0xBF] + [0x8F, 0x01, 0xCF, 0xEA] + [0x41, 0x41, 0x40, 0xDE] + [0x5D, 0xAE, 0x22, 0x23])
          + ([0xB0, 0x03, 0x61, 0xA3] + [0x96, 0x17, 0x7A, 0x9C] + [0xB4, 0x10, 0xFF, 0x61] + [0xF2, 0x00, 0x15, 0xAD])
  {
    PaddingOfAbc();
    FirstWords();
    CompressOfAbc(PaddedAbc());
    OneBlock(PaddedAbc());
    BytesOfHash();
    hide F.Padded, F.HashBlocks, F.Compress, F.Digest, F.WordBytes, PaddedAbc;
    DigestOfEight(0xBA7816BF, 0x8F01CFEA, 0x414140DE, 0x5DAE2223,
                  0xB00361A3, 0x96177A9C, 0xB410FF61, 0xF20015AD);
  }

  // ---------- CRC32 and CRC64 ----------

  /** "123456789" */
  const DIGITS: seq<bv8> := [0x31, 0x32, 0x33, 0x34, 0x35, 0x36, 0x37, 0x38, 0x39]

  lemma DigitsAre()
    ensures |DIGITS| == 9
    ensures DIGITS[0] == 0x31 && DIGITS[1] == 0x32 && DIGITS[2] == 0x33 && DIGITS[3] == 0x34 && DIGITS[4] == 0x35
    ensures DIGITS[5] == 0x36 && DIGITS[6] == 0x37 && DIGITS[7] == 0x38 && DIGITS[8] == 0x39
  {
  }

  lemma Feeds32(i: nat, r: bv32, b: bv8, q: bv32)
    requires i < |DIGITS| && b == DIGITS[i] && Crc32.ByteStep(r, b) == q
    ensures Crc32.Feed(r, DIGITS[i..]) == Crc32.Feed(q, DIGITS[i + 1..])
  {
    hide Crc32.ByteStep, DIGITS;
    assert DIGITS[i..][1..] == DIGITS[i + 1..];
  }

  lemma Steps32From0()
    ensures Crc32.ByteStep(0xFFFFFFFF, 0x31) == 0x7C231048
    ensures Crc32.ByteStep(0x7C231048, 0x32) == 0xB0ACBB32
    ensures Crc32.ByteStep(0xB0ACBB32, 0x33) == 0x77B79C2D
  {
  }

  lemma Steps32From3()
    ensures Crc32.ByteStep(0x77B79C2D, 0x34) == 0x641C1F5C
    ensures Crc32.ByteStep(0x641C1F5C, 0x35) == 0x340AC5E3
    ensures Crc32.ByteStep(0x340AC5E3, 0x36) == 0xF68D2C9E
  {
  }

  lemma Steps32From6()
    ensures Crc32.ByteStep(0xF68D2C9E, 0x37) == 0xAFFC9660
    ensures Crc32.ByteStep(0xAFFC9660, 0x38) == 0x651F2550
    ensures Crc32.ByteStep(0x651F2550, 0x39) == 0x340BC6D9
  {
  }

  /** tests/test_check.c */
  lemma Crc32OfDigits()
    ensures Crc32.Crc(DIGITS, 0) == 0xCBF43926
  {
    Complements32();
    DigitsAre();
    EndOfFeed32();
    Steps32From0();
    Steps32From3();
    Steps32From6();
    hide Crc32.ByteStep, Crc32.Feed, Not, DIGITS;
    Feeds32(0, 0xFFFFFFFF, 0x31, 0x7C231048);
    Feeds32(1, 0x7C231048, 0x32, 0xB0ACBB32);
    Feeds32(2, 0xB0ACBB32, 0x33, 0x77B79C2D);
    Feeds32(3, 0x77B79C2D, 0x34, 0x641C1F5C);
    Feeds32(4, 0x641C1F5C, 0x35, 0x340AC5E3);
    Feeds32(5, 0x340AC5E3, 0x36, 0xF68D2C9E);
    Feeds32(6, 0xF68D2C9E, 0x37, 0xAFFC9660);
    Feeds32(7, 0xAFFC9660, 0x38, 0x651F2550);
    Feeds32(8, 0x651F2550, 0x39, 0x340BC6D9);
    assert DIGITS[0..] == DIGITS && DIGITS[9..] == [];
  }

  lemma Complements32()
    ensures Not(0) == 0xFFFFFFFF && Not(0x340BC6D9) == 0xCBF43926
  {
  }

  lemma EndOfFeed32()
    ensures Crc32.Feed(0x340BC6D9, []) == 0x340BC6D9
  {
  }

  lemma Feeds64(i: nat, r: bv64, b: bv8, q: bv64)
    requires i < |DIGITS| && b == DIGITS[i] && Crc64.ByteStep(r, b) == q
    ensures Crc64.Feed(r, DIGITS[i..]) == Crc64.Feed(q, DIGITS[i + 1..])
  {
    hide Crc64.ByteStep, DIGITS;
    assert DIGITS[i..][1..] == DIGITS[i + 1..];
  }

  lemma Steps64From0()
    ensures Crc64.ByteStep(0xFFFFFFFFFFFFFFFF, 0x31) == 0xD5D0F17A6B6A3512
    ensures Crc64.ByteStep(0xD5D0F17A6B6A3512, 0x32) == 0xFBE29281D80DA6A7
    ensures Crc64.ByteStep(0xFBE29281D80DA6A7, 0x33) == 0xCFDCD7BBF8E33A9E
  {
  }

  lemma Steps64From3()
    ensures Crc64.ByteStep(0xCFDCD7BBF8E33A9E, 0x34) == 0x31B1786C99473CD7
    ensures Crc64.ByteStep(0x31B1786C99473CD7, 0x35) == 0xA258B9005AFBA316
    ensures Crc64.ByteStep(0xA258B9005AFBA316, 0x36) == 0xFB951AC9A23C3731
  {
  }

  lemma Steps64From6()
    ensures Crc64.ByteStep(0xFB951AC9A23C3731, 0x37) == 0x8FAF60C99E6DC25F
    ensures Crc64.ByteStep(0x8FAF60C99E6DC25F, 0x38) == 0xA3747FB7D45387F6
    ensures Crc64.ByteStep(0xA3747FB7D45387F6, 0x39) == 0x66A2364420E6C605
  {
  }

  /** tests/test_check.c */
  lemma Crc64OfDigits()
    ensures Crc64.Crc(DIGITS, 0) == 0x995DC9BBDF1939FA
  {
    Complements64();
    DigitsAre();
    EndOfFeed64();
    Steps64From0();
    Steps64From3();
    Steps64From6();
    hide Crc64.ByteStep, Crc64.Feed, Crc64.Not, DIGITS;
    Feeds64(0, 0xFFFFFFFFFFFFFFFF, 0x31, 0xD5D0F17A6B6A3512);
    Feeds64(1, 0xD5D0F17A6B6A3512, 0x32, 0xFBE29281D80DA6A7);
    Feeds64(2, 0xFBE29281D80DA6A7, 0x33, 0xCFDCD7BBF8E33A9E);
    Feeds64(3, 0xCFDCD7BBF8E33A9E, 0x34, 0x31B1786C99473CD7);
    Feeds64(4, 0x31B1786C99473CD7, 0x35, 0xA258B9005AFBA316);
    Feeds64(5, 0xA258B9005AFBA316, 0x36, 0xFB951AC9A23C3731);
    Feeds64(6, 0xFB951AC9A23C3731, 0x37, 0x8FAF60C99E6DC25F);
    Feeds64(7, 0x8FAF60C99E6DC25F, 0x38, 0xA3747FB7D45387F6);
    Feeds64(8, 0xA3747FB7D45387F6, 0x39, 0x66A2364420E6C605);
    assert DIGITS[0..] == DIGITS && DIGITS[9..] == [];
  }

  lemma Complements64()
    ensures Crc64.Not(0) == 0xFFFFFFFFFFFFFFFF && Crc64.Not(0x66A2364420E6C605) == 0x995DC9BBDF1939FA
  {
  }

  lemma EndOfFeed64()
    ensures Crc64.Feed(0x66A2364420E6C605, []) == 0x66A2364420E6C605
  {
  }
}