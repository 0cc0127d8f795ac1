/** SHA-256 as FIPS 180-4 defines it: constants (sections 4.2.2 and 5.3.3),
    functions (4.1.2), padding (5.1.1) and hash computation (6.2.2). */
module Fips180 {
  import opened Words

  // ---------- words ----------

  function Add(x: bv32, y: bv32): bv32 { x + y }

  function Sum5(a: bv32, b: bv32, c: bv32, d: bv32, e: bv32): bv32 { a + b + c + d + e }

  /** ROTR */
  function Rotr(x: bv32, n: bv32): bv32
    requires 0 < n < 32
  {
    (x >> n) | (x << (32 - n))
  }

  function Shr3(x: bv32): bv32 { x >> 3 }
  function Shr10(x: bv32): bv32 { x >> 10 }

  function Ch(x: bv32, y: bv32, z: bv32): bv32 { (x & y) ^ (!x & z) }
  function Maj(x: bv32, y: bv32, z: bv32): bv32 { (x & y) ^ (x & z) ^ (y & z) }
  function BigSigma0(x: bv32): bv32 { Xor(Xor(Rotr(x, 2), Rotr(x, 13)), Rotr(x, 22)) }
  function BigSigma1(x: bv32): bv32 { Xor(Xor(Rotr(x, 6), Rotr(x, 11)), Rotr(x, 25)) }
  function SmallSigma0(x: bv32): bv32 { Xor(Xor(Rotr(x, 7), Rotr(x, 18)), Shr3(x)) }
  function SmallSigma1(x: bv32): bv32 { Xor(Xor(Rotr(x, 17), Rotr(x, 19)), Shr10(x)) }

  // ---------- constants ----------

  const K: seq<bv32> :=
    [0x428A2F98, 0x71374491, 0xB5C0FBCF, 0xE9B5DBA5, 0x3956C25B, 0x59F111F1, 0x923F82A4, 0xAB1C5ED5] +
    [0xD807AA98, 0x12835B01, 0x243185BE, 0x550C7DC3, 0x72BE5D74, 0x80DEB1FE, 0x9BDC06A7, 0xC19BF174] +
    [0xE49B69C1, 0xEFBE4786, 0x0FC19DC6, 0x240CA1CC, 0x2DE92C6F, 0x4A7484AA, 0x5CB0A9DC, 0x76F988DA] +
    [0x983E5152, 0xA831C66D, 0xB00327C8, 0xBF597FC7, 0xC6E00BF3, 0xD5A79147, 0x06CA6351, 0x14292967] +
    [0x27B70A85, 0x2E1B2138, 0x4D2C6DFC, 0x53380D13, 0x650A7354, 0x766A0ABB, 0x81C2C92E, 0x92722C85] +
    [0xA2BFE8A1, 0xA81A664B, 0xC24B8B70, 0xC76C51A3, 0xD192E819, 0xD6990624, 0xF40E3585, 0x106AA070] +
    [0x19A4C116, 0x1E376C08, 0x2748774C, 0x34B0BCB5, 0x391C0CB3, 0x4ED8AA4A, 0x5B9CCA4F, 0x682E6FF3] +
    [0x748F82EE, 0x78A5636F, 0x84C87814, 0x8CC70208, 0x90BEFFFA, 0xA4506CEB, 0xBEF9A3F7, 0xC67178F2]

  /** K_t */
  function Kt(t: nat): bv32
    requires t < 64
  {
    K[t]
  }

  // ---------- hash computation ----------

  datatype Vars = Vars(a: bv32, b: bv32, c: bv32, d: bv32, e: bv32, f: bv32, g: bv32, h: bv32)

  const INITIAL := Vars(0x6A09E667, 0xBB67AE85, 0x3C6EF372, 0xA54FF53A,
                        0x510E527F, 0x9B05688C, 0x1F83D9AB, 0x5BE0CD19)

  /** Word t of the message schedule. */
  function Schedule(block: seq<bv8>, t: nat): bv32
    requires |block| == 64
  {
    if t < 16 then Le32(block[4 * t + 3], block[4 * t + 2], block[4 * t + 1], block[4 * t])
    else Add(Add(Add(SmallSigma1(Schedule(block, t - 2)), Schedule(block, t - 7)),
                 SmallSigma0(Schedule(block, t - 15))), Schedule(block, t - 16))
  }

  /** Step 3 of section 6.2.2. */
  function Round(v: Vars, k: bv32, w: bv32): Vars {
    var t1 := Sum5(v.h, BigSigma1(v.e), Ch(v.e, v.f, v.g), k, w);
    var t2 := Add(BigSigma0(v.a), Maj(v.a, v.b, v.c));
    Vars(Add(t1, t2), v.a, v.b, v.c, Add(v.d, t1), v.e, v.f, v.g)
  }

  /** The working variables after the first t rounds. */
  function Rounds(v: Vars, block: seq<bv8>, t: nat): Vars
    requires |block| == 64 && t <= 64
  {
    if t == 0 then v else Round(Rounds(v, block, t - 1), Kt(t - 1), Schedule(block, t - 1))
  }

  function Compress(h: Vars, block: seq<bv8>): Vars
    requires |block| == 64
  {
    var v := Rounds(h, block, 64);
    Vars(Add(h.a, v.a), Add(h.b, v.b), Add(h.c, v.c), Add(h.d, v.d),
         Add(h.e, v.e), Add(h.f, v.f), Add(h.g, v.g), Add(h.h, v.h))
  }

  /** The hash value after the 64-byte blocks of bytes (a last, shorter piece is
      not a block). */
  function HashBlocks(h: Vars, bytes: seq<bv8>): Vars
    decreases |bytes|
  {
    if |bytes| < 64 then h else HashBlocks(Compress(h, bytes[..64]), bytes[64..])
  }

  // ---------- padding and the digest ----------

  /** The bytes of n, most significant first. */
  function BigEndian(n: nat, length: nat): (s: seq<bv8>)
    ensures |s| == length
  {
    if length == 0 then [] else BigEndian(n / 256, length - 1) + [(n % 256) as bv8]
  }

  function ZeroBytes(n: nat): (s: seq<bv8>)
    ensures |s| == n
  {
    seq(n, _ => 0)
  }

  /** The number of zero bytes between the 1 bit and the length field: the
      smallest that makes the padded message a multiple of 64 bytes. */
  function PadZeros(length: nat): (k: nat)
    ensures k < 64 && (length + 1 + k) % 64 == 56
  {
    (119 - length % 64) % 64
  }

  /** The length field holds 64 bits; messages of 2^61 bytes and more are beyond
      the standard, and here get their bit count modulo 2^64. */
  function Padded(m: seq<bv8>): (p: seq<bv8>)
    ensures |p| == |m| + 1 + PadZeros(|m|) + 8
  {
    m + [0x80] + ZeroBytes(PadZeros(|m|)) + BigEndian(8 * |m| % 0x1_0000_0000_0000_0000, 8)
  }

  function WordBytes(x: bv32): (s: seq<bv8>)
    ensures |s| == 4
  {
    [Byte3(x), Byte2(x), Byte1(x), Byte0(x)]
  }

  function HashWords(h: Vars): (s: seq<bv32>)
    ensures |s| == 8
  {
    [h.a, h.b, h.c, h.d, h.e, h.f, h.g, h.h]
  }

  function Digest(words: seq<bv32>): (s: seq<bv8>)
    ensures |s| == 4 * |words|
  {
    if words == [] then [] else Digest(words[..|words| - 1]) + WordBytes(words[|words| - 1])
  }

  function Sha256(m: seq<bv8>): (digest: seq<bv8>)
    ensures |digest| == 32
  {
    Digest(HashWords(HashBlocks(INITIAL, Padded(m))))
  }
}
