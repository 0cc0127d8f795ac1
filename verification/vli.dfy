/** Variable-length integers of the .xz format (safe/src/internal/vli.rs;
    section 1.2 of The .xz File Format). */
module Vli {
  import opened Common

  const VLI_MAX: int := 0x7FFF_FFFF_FFFF_FFFF
  const BYTES_MAX: int := 9

  datatype Ret = Ok | StreamEnd | BufError | DataError | ProgError

  // ---------- the encoding ----------

  function Encode(v: nat): (s: seq<byte>)
    ensures s != []
  {
    if v < 128 then [v] else [v % 128 + 128] + Encode(v / 128)
  }

  /** 128^n */
  function Power(n: nat): (p: nat)
    ensures p > 0
  {
    if n == 0 then 1 else 128 * Power(n - 1)
  }

  /** v >> (7 * k) */
  function Shift(v: nat, k: nat): nat {
    if k == 0 then v else Shift(v / 128, k - 1)
  }

  lemma {:induction false} ShiftBound(v: nat, k: nat, n: nat)
    requires k <= n && v < Power(n)
    ensures Shift(v, k) < Power(n - k)
  {
    if k > 0 {
      ShiftBound(v / 128, k - 1, n - 1);
    }
  }

  /** The size of an encoding is the number of 7-bit digits. */
  lemma {:induction false} SizeIs(v: nat, n: nat)
    requires n > 0
    ensures |Encode(v)| <= n <==> v < Power(n)
    decreases n
  {
    assert Power(1) == 128;
    if v >= 128 && n > 1 {
      SizeIs(v / 128, n - 1);
      assert v < 128 * Power(n - 1) <==> v / 128 < Power(n - 1);
    } else if v < 128 {
      PowerGrows(n);
    }
  }

  lemma {:induction false} PowerGrows(n: nat)
    requires n > 0
    ensures Power(n) >= 128
  {
    if n > 1 {
      PowerGrows(n - 1);
    }
  }

  lemma PowerNine()
    ensures Power(9) == VLI_MAX + 1
  {
  }

  /** Skipping k bytes of an encoding skips 7k bits of the value. */
  lemma {:induction false} EncodeTail(v: nat, k: nat)
    requires k < |Encode(v)|
    ensures Encode(Shift(v, k)) == Encode(v)[k..]
  {
    if k > 0 {
      EncodeTail(v / 128, k - 1);
      assert Encode(v)[k..] == Encode(v / 128)[k - 1..];
    } else {
      assert Encode(v)[0..] == Encode(v);
    }
  }

  function Min(a: int, b: int): int { if a < b then a else b }

  /** The loop and the last byte of lzma_vli_encode_impl. */
  method Emit(value0: nat, out: array<byte>, outPos0: nat, outSize: nat)
      returns (n: nat, complete: bool)
    requires outPos0 < outSize <= out.Length
    modifies out
    ensures var e := Encode(value0);
            && n == Min(|e|, outSize - outPos0) && complete == (n == |e|)
            && out[..] == Filled(old(out[..]), outPos0, e[..n])
  {
    hide Encode, Filled;
    var value := value0;
    ghost var done: seq<byte> := [];
    FilledNothing(out[..], outPos0);
    n := 0;
    while value >= 0x80
      invariant outPos0 + n < outSize && n == |done|
      invariant Encode(value0) == done + Encode(value)
      invariant out[..] == Filled(old(out[..]), outPos0, done)
    {
      EncodeStep(value);
      var digit := value % 128 + 128;  // (value as u8) | 0x80
      FilledNext(old(out[..]), outPos0, done, digit);
      EmitNext(Encode(value0), done, digit, Encode(value / 128));
      out[outPos0 + n] := digit;
      done := done + [digit];
      value := value / 128;
      n := n + 1;
      if outPos0 + n == outSize {
        return n, false;
      }
    }
    EncodeStep(value);
    FilledNext(old(out[..]), outPos0, done, value);
    EmitNext(Encode(value0), done, value, []);
    out[outPos0 + n] := value;
    return n + 1, true;
  }

  lemma EmitNext(all: seq<byte>, done: seq<byte>, b: byte, rest: seq<byte>)
    requires all == done + ([b] + rest)
    ensures all == (done + [b]) + rest && all[..|done| + 1] == done + [b]
  {
  }

  /** What one call does: nothing written, or as much of the rest of the encoding
      as fits. */
  ghost predicate EncodeCall(vli: nat, single: bool, pos: nat, before: seq<byte>, after: seq<byte>,
                             outPos0: nat, outSize: nat, ret: Ret, vliPos: nat, outPos: nat)
    requires outSize <= |before|
  {
    var rest := Encode(Shift(vli, pos));
    if outPos0 >= outSize then
      ret == (if single then ProgError else BufError) && vliPos == pos && outPos == outPos0 && after == before
    else if pos >= BYTES_MAX || vli > VLI_MAX then
      ret == ProgError && vliPos == pos && outPos == outPos0 && after == before
    else
      var n: nat := Min(|rest|, outSize - outPos0);
      && vliPos == pos + n <= BYTES_MAX && outPos == outPos0 + n
      && after == Filled(before, outPos0, rest[..n])
      && ret == (if n == |rest| then (if single then Ok else StreamEnd) else if single then ProgError else Ok)
  }

  lemma RestFits(vli: nat, pos: nat)
    requires pos < BYTES_MAX && vli <= VLI_MAX
    ensures pos + |Encode(Shift(vli, pos))| <= BYTES_MAX
  {
    PowerNine();
    ShiftBound(vli, pos, 9);
    SizeIs(Shift(vli, pos), 9 - pos);
  }

  /** lzma_vli_encode_impl.  A single call is one with a null vli_pos. */
  method VliEncode(vli: nat, single: bool, vliPos0: nat, out: array<byte>, outPos0: nat, outSize: nat)
      returns (ret: Ret, vliPos: nat, outPos: nat)
    requires outSize <= out.Length
    modifies out
    ensures EncodeCall(vli, single, if single then 0 else vliPos0, old(out[..]), out[..],
                       outPos0, outSize, ret, vliPos, outPos)
  {
    hide Encode, Shift, Filled;
    vliPos, outPos := if single then 0 else vliPos0, outPos0;
    if outPos >= outSize {
      return if single then ProgError else BufError, vliPos, outPos;
    }
    if vliPos >= BYTES_MAX || vli > VLI_MAX {
      return ProgError, vliPos, outPos;
    }
    RestFits(vli, vliPos);
    var n, complete := Emit(Shift(vli, vliPos), out, outPos, outSize);
    vliPos, outPos := vliPos + n, outPos + n;
    if complete {
      ret := if single then Ok else StreamEnd;
    } else {
      ret := if single then ProgError else Ok;
    }
  }

  /** s with `bytes` written from index at on. */
  function Filled(s: seq<byte>, at: nat, bytes: seq<byte>): seq<byte>
    requires at + |bytes| <= |s|
  {
    s[..at] + bytes + s[at + |bytes|..]
  }

  lemma FilledNothing(s: seq<byte>, at: nat)
    requires at <= |s|
    ensures Filled(s, at, []) == s
  {
  }

  lemma FilledNext(s: seq<byte>, at: nat, bytes: seq<byte>, b: byte)
    requires at + |bytes| < |s|
    ensures Filled(s, at, bytes)[at + |bytes| := b] == Filled(s, at, bytes + [b])
  {
  }

  lemma EncodeStep(v: nat)
    ensures Encode(v) == if v < 128 then [v] else [v % 128 + 128] + Encode(v / 128)
  {
  }

  // ---------- calls after the end ----------

  lemma {:induction false} ShiftZeroIff(v: nat, k: nat)
    ensures Shift(v, k) == 0 <==> v < Power(k)
  {
    if k > 0 {
      ShiftZeroIff(v / 128, k - 1);
      assert v < 128 * Power(k - 1) <==> v / 128 < Power(k - 1);
    }
  }

  /** After STREAM_END there is still a byte to write: zero. */
  lemma PastTheEnd(v: nat, pos: nat)
    requires pos >= |Encode(v)|
    ensures Encode(Shift(v, pos)) == [0]
  {
    hide Encode, Shift;
    SizeIs(v, pos);
    ShiftZeroIff(v, pos);
    EncodeStep(0);
  }

  /** What a caller can check before a call: the encoding goes on at this position. */
  lemma GoesOnIff(v: nat, pos: nat)
    ensures pos < |Encode(v)| <==> pos == 0 || Shift(v, pos) != 0
  {
    hide Encode, Shift;
    if pos > 0 {
      SizeIs(v, pos);
      ShiftZeroIff(v, pos);
    }
  }

  /** The bytes that a call writes are the next bytes of the encoding exactly under
      that check; after the end, a call still writes. */
  lemma ContinuesIff(v: nat, pos: nat, before: seq<byte>, after: seq<byte>, outPos0: nat, outSize: nat,
                     ret: Ret, vliPos: nat, outPos: nat)
    requires v <= VLI_MAX && pos < BYTES_MAX && outPos0 < outSize <= |before|
    requires EncodeCall(v, false, pos, before, after, outPos0, outSize, ret, vliPos, outPos)
    ensures outPos0 < outPos <= |after| && vliPos == pos + (outPos - outPos0)
    ensures vliPos <= |Encode(v)| && after[outPos0..outPos] == Encode(v)[pos..vliPos]
       <==> pos == 0 || Shift(v, pos) != 0
  {
    hide Encode, Shift;
    GoesOnIff(v, pos);
    var rest := Encode(Shift(v, pos));
    var n := outPos - outPos0;
    if pos < |Encode(v)| {
      EncodeTail(v, pos);
      assert rest[..n] == Encode(v)[pos..pos + n];
      assert after[outPos0..outPos] == rest[..n];
    }
  }

  /** The value 5 takes one byte; a second call returns STREAM_END again, and has
      written a zero byte. */
  lemma SecondCallWritesZero(before: byte, after: seq<byte>, ret: Ret, vliPos: nat, outPos: nat)
    requires EncodeCall(5, false, 1, [before], after, 0, 1, ret, vliPos, outPos)
    ensures |Encode(5)| == 1 && after == [0] && ret == StreamEnd && vliPos == 2 && outPos == 1
  {
    EncodeStep(5);
    PastTheEnd(5, 1);
  }

  /** A single call returns OK exactly when all of the encoding fits, and then it is what
      was written; else the caller did something wrong. */
  lemma SingleEncodeIff(v: nat, before: seq<byte>, after: seq<byte>, outPos0: nat, outSize: nat,
                        ret: Ret, vliPos: nat, outPos: nat)
    requires outSize <= |before| && EncodeCall(v, true, 0, before, after, outPos0, outSize, ret, vliPos, outPos)
    ensures ret == Ok <==> v <= VLI_MAX && outPos0 + |Encode(v)| <= outSize
    ensures ret == Ok || ret == ProgError
    ensures ret == Ok ==> outPos <= |after| && after[outPos0..outPos] == Encode(v)
  {
    ShiftZero(v);
    hide Encode, Shift;
    var rest := Encode(v);
    assert rest[..|rest|] == rest;
  }

  /** lzma_vli_size_impl */
  method VliSize(vli: nat) returns (count: nat)
    ensures count == if vli > VLI_MAX then 0 else |Encode(vli)|
  {
    if vli > VLI_MAX {
      return 0;
    }
    var value: nat := vli / 128;
    count := 1;
    while value != 0
      invariant |Encode(vli)| == count + if value == 0 then 0 else |Encode(value)|
    {
      value := value / 128;
      count := count + 1;
    }
  }

  // ---------- encoding into any sequence of buffers ----------

  /** A caller that hands lzma_vli_encode one output buffer after another, empty
      ones too, until STREAM_END: what comes out is what a single call writes, cut
      only by lack of space. */
  method EncodeIntoChunks(vli: nat, spaces: seq<nat>) returns (bytes: seq<byte>, finished: bool)
    requires vli <= VLI_MAX
    ensures var e := Encode(vli);
            && bytes == e[..Min(|e|, Sum(spaces))]
            && finished == (Sum(spaces) >= |e|)
  {
    hide Encode, Shift, Filled;
    var i, vliPos := 0, 0;
    bytes, finished := [], false;
    assert Encode(vli)[..0] == [];
    ShiftZero(vli);
    assert spaces[..0] == [];
    while i < |spaces|
      invariant i <= |spaces| && !finished
      invariant vliPos == Sum(spaces[..i]) < |Encode(vli)| && bytes == Encode(vli)[..vliPos]
    {
      RestFits(vli, 0);
      var out := new byte[spaces[i]];
      ghost var before := out[..];
      assert spaces[..i + 1][..i] == spaces[..i];
      EncodeTail(vli, vliPos);
      var ret, vliPos', outPos := VliEncode(vli, false, vliPos, out, 0, out.Length);
      ghost var rest := Encode(vli)[vliPos..];
      ghost var n: nat := Min(|rest|, out.Length);
      if out.Length > 0 {
        FilledFront(before, rest[..n]);
      }
      assert out[..outPos] == rest[..n];
      bytes := bytes + out[..outPos];
      assert bytes == Encode(vli)[..vliPos + n];
      SumGrows(spaces, i + 1);
      if ret == StreamEnd {
        return bytes, true;
      }
      vliPos, i := vliPos', i + 1;
    }
    assert spaces[..i] == spaces;
  }

  lemma ShiftZero(v: nat)
    ensures Shift(v, 0) == v
  {
  }

  lemma FilledFront(s: seq<byte>, bytes: seq<byte>)
    requires |bytes| <= |s|
    ensures Filled(s, 0, bytes)[..|bytes|] == bytes
  {
  }

  // ---------- the decoder ----------

  datatype Status = More | Done | Bad

  /** The decoder's variables, the bytes used, and how it stopped. */
  datatype Decoded = Decoded(vli: nat, pos: nat, used: nat, status: Status)

  function Decode(vli: nat, pos: nat, input: seq<byte>): (d: Decoded)
    ensures d.used <= |input| && d.pos == pos + d.used
    decreases |input|
  {
    if input == [] then Decoded(vli, pos, 0, More)
    else
      var b := input[0];
      var v := vli + b % 128 * Power(pos);
      if b < 128 then Decoded(v, pos + 1, 1, if b == 0 && pos > 0 then Bad else Done)
      else if pos + 1 == BYTES_MAX then Decoded(v, pos + 1, 1, Bad)
      else
        var d := Decode(v, pos + 1, input[1..]);
        d.(used := 1 + d.used)
  }

  /** The value never outgrows 7 bits a byte, so it never leaves 64 bits. */
  lemma {:induction false} DecodeBounded(vli: nat, pos: nat, input: seq<byte>)
    requires pos < BYTES_MAX && vli < Power(pos)
    ensures var d := Decode(vli, pos, input);
            d.pos <= BYTES_MAX && d.vli < Power(d.pos) && (d.status == More ==> d.pos < BYTES_MAX)
    decreases |input|
  {
    if input != [] {
      var v := vli + input[0] % 128 * Power(pos);
      DigitBound(vli, input[0] % 128, Power(pos));
      if input[0] >= 128 && pos + 1 < BYTES_MAX {
        DecodeBounded(v, pos + 1, input[1..]);
      }
    }
  }

  lemma DigitBound(v: nat, digit: nat, p: nat)
    requires v < p && digit < 128
    ensures v + digit * p < 128 * p
  {
    assert digit * p <= 127 * p;
  }

  lemma DecodeStep(acc: nat, pos: nat, b: byte, rest: seq<byte>)
    ensures Decode(acc, pos, [b] + rest) ==
            var v := acc + b % 128 * Power(pos);
            if b < 128 then Decoded(v, pos + 1, 1, if b == 0 && pos > 0 then Bad else Done)
            else if pos + 1 == BYTES_MAX then Decoded(v, pos + 1, 1, Bad)
            else var d := Decode(v, pos + 1, rest); d.(used := 1 + d.used)
  {
    hide Power;
    assert ([b] + rest)[1..] == rest;
  }

  /** Decoding is resumable: the input may be cut anywhere. */
  lemma {:induction false} DecodeAppend(vli: nat, pos: nat, a: seq<byte>, b: seq<byte>)
    ensures var d := Decode(vli, pos, a);
            Decode(vli, pos, a + b) == if d.status != More then d
                                       else var e := Decode(d.vli, d.pos, b); e.(used := d.used + e.used)
    ensures Decode(vli, pos, a).status == More ==> Decode(vli, pos, a).used == |a|
    decreases |a|
  {
    hide Power, Decode;
    DecodeNothing(vli, pos);
    if a == [] {
      assert a + b == b;
    } else {
      assert a == [a[0]] + a[1..] && a + b == [a[0]] + (a[1..] + b);
      DecodeStep(vli, pos, a[0], a[1..]);
      DecodeStep(vli, pos, a[0], a[1..] + b);
      DecodeAppend(vli + a[0] % 128 * Power(pos), pos + 1, a[1..], b);
    }
  }

  // ---------- encode and decode are inverse ----------

  lemma PowerNext(n: nat)
    ensures Power(n + 1) == 128 * Power(n)
  {
  }

  lemma MulDigits(v: nat, p: nat)
    ensures v % 128 * p + v / 128 * (128 * p) == v * p
  {
    assert v == v / 128 * 128 + v % 128;
    assert v * p == (v / 128 * 128) * p + v % 128 * p;
    assert (v / 128 * 128) * p == v / 128 * (128 * p);
  }

  /** The lowest digit and the others. */
  lemma DigitsSum(v: nat, n: nat)
    ensures v % 128 * Power(n) + v / 128 * Power(n + 1) == v * Power(n)
  {
    PowerNext(n);
    hide Power;
    MulDigits(v, Power(n));
  }

  lemma PowerDown(v: nat, n: nat)
    requires n > 0 && v < Power(n)
    ensures v >= 128 ==> n > 1
    ensures n > 1 ==> v / 128 < Power(n - 1) && Power(n) == 128 * Power(n - 1)
  {
    assert Power(1) == 128;
  }

  lemma EncodeFront(v: nat, tail: seq<byte>)
    requires v >= 128
    ensures Encode(v) + tail == [v % 128 + 128] + (Encode(v / 128) + tail)
    ensures |Encode(v)| == 1 + |Encode(v / 128)|
  {
  }

  lemma {:induction false} DecodeEncodeFrom(acc: nat, pos: nat, v: nat, tail: seq<byte>)
    requires pos < BYTES_MAX && v < Power(BYTES_MAX - pos) && (pos > 0 ==> v > 0)
    ensures Decode(acc, pos, Encode(v) + tail)
         == Decoded(acc + v * Power(pos), pos + |Encode(v)|, |Encode(v)|, Done)
    decreases v
  {
    hide Decode, Power, Encode;
    PowerDown(v, BYTES_MAX - pos);
    if v >= 128 {
      EncodeFront(v, tail);
      DecodeStep(acc, pos, v % 128 + 128, Encode(v / 128) + tail);
      DecodeEncodeFrom(acc + v % 128 * Power(pos), pos + 1, v / 128, tail);
      DigitsSum(v, pos);
    } else {
      EncodeStep(v);
      DecodeStep(acc, pos, v, tail);
    }
  }

  /** Decoding an encoding gives the value back and uses the encoding exactly. */
  lemma DecodeEncode(v: nat, tail: seq<byte>)
    requires v <= VLI_MAX
    ensures Decode(0, 0, Encode(v) + tail) == Decoded(v, |Encode(v)|, |Encode(v)|, Done)
  {
    PowerNine();
    DecodeEncodeFrom(0, 0, v, tail);
  }

  lemma {:induction false} DecodedIsEncodedFrom(acc: nat, pos: nat, input: seq<byte>) returns (v: nat)
    requires pos < BYTES_MAX && Decode(acc, pos, input).status == Done
    ensures var d := Decode(acc, pos, input);
            && v < Power(BYTES_MAX - pos) && (pos > 0 ==> v > 0)
            && d.vli == acc + v * Power(pos) && input[..d.used] == Encode(v)
    decreases |input|
  {
    DecodeNothing(acc, pos);
    hide Decode, Power, Encode;
    var b, rest := input[0], input[1..];
    assert input == [b] + rest;
    DecodeStep(acc, pos, b, rest);
    if b < 128 {
      v := b;
      PowerGrows(BYTES_MAX - pos);
      EncodeStep(v);
    } else {
      var acc' := acc + b % 128 * Power(pos);
      var w := DecodedIsEncodedFrom(acc', pos + 1, rest);
      v := w * 128 + b % 128;
      Digits(w, b % 128);
      DigitsSum(v, pos);
      PowerUp(w, b % 128, BYTES_MAX - pos - 1);
      EncodeStep(v);
      var d := Decode(acc', pos + 1, rest);
      assert input[..1 + d.used] == [b] + rest[..d.used];
    }
  }

  lemma Digits(w: nat, digit: nat)
    requires digit < 128
    ensures (w * 128 + digit) / 128 == w && (w * 128 + digit) % 128 == digit
    ensures w > 0 ==> w * 128 + digit >= 128
  {
  }

  lemma PowerUp(w: nat, digit: nat, n: nat)
    requires w < Power(n) && digit < 128
    ensures w * 128 + digit < Power(n + 1)
  {
  }

  /** Whatever the decoder accepts is the encoding of the value it returns. */
  lemma DecodedIsEncoded(input: seq<byte>)
    requires Decode(0, 0, input).status == Done
    ensures var d := Decode(0, 0, input);
            d.vli <= VLI_MAX && input[..d.used] == Encode(d.vli)
  {
    hide Decode, Encode;
    var v := DecodedIsEncodedFrom(0, 0, input);
    PowerNine();
    assert v * Power(0) == v;
  }

  /** The decoder accepts exactly the inputs that begin with an encoding. */
  lemma AcceptedIff(input: seq<byte>)
    ensures Decode(0, 0, input).status == Done <==> exists v: nat :: v <= VLI_MAX && Encode(v) <= input
  {
    hide Decode, Encode;
    if Decode(0, 0, input).status == Done {
      DecodedIsEncoded(input);
    }
    forall v: nat | v <= VLI_MAX && Encode(v) <= input
      ensures Decode(0, 0, input).status == Done
    {
      DecodeEncode(v, input[|Encode(v)|..]);
      assert Encode(v) + input[|Encode(v)|..] == input;
    }
  }

  /** No encoding is the beginning of another. */
  lemma PrefixFree(v: nat, w: nat)
    requires v <= VLI_MAX && w <= VLI_MAX && Encode(v) <= Encode(w)
    ensures v == w
  {
    hide Decode, Encode;
    var tail := Encode(w)[|Encode(v)|..];
    assert Encode(v) + tail == Encode(w) && Encode(w) + [] == Encode(w);
    DecodeEncode(v, tail);
    DecodeEncode(w, []);
  }

  // ---------- lzma_vli_decode ----------

  function RetOf(status: Status, single: bool): Ret {
    match status
    case More => if single then DataError else Ok
    case Done => if single then Ok else StreamEnd
    case Bad => DataError
  }

  /** What one call does to the decoder's variables. */
  ghost predicate DecodeCall(single: bool, vli0: nat, vliPos0: nat, input: seq<byte>, inPos0: nat,
                             ret: Ret, vli: nat, vliPos: nat, inPos: nat)
  {
    var pos := if single then 0 else vliPos0;
    var v := if pos == 0 then 0 else vli0;
    if pos >= BYTES_MAX || v >= Power(pos) then
      ret == ProgError && vli == v && vliPos == pos && inPos == inPos0
    else if inPos0 >= |input| then
      ret == (if single then DataError else BufError) && vli == v && vliPos == pos && inPos == inPos0
    else
      var d := Decode(v, pos, input[inPos0..]);
      && ret == RetOf(d.status, single)
      && vli == d.vli <= VLI_MAX && vliPos == d.pos <= BYTES_MAX && inPos == inPos0 + d.used
  }

  /** A single call returns OK exactly when the input begins with an encoding: that of the
      value returned; else DATA_ERROR. */
  lemma SingleDecodeIff(vli0: nat, vliPos0: nat, input: seq<byte>, inPos0: nat,
                        ret: Ret, vli: nat, vliPos: nat, inPos: nat)
    requires inPos0 <= |input| && DecodeCall(true, vli0, vliPos0, input, inPos0, ret, vli, vliPos, inPos)
    ensures ret == Ok <==> exists v: nat :: v <= VLI_MAX && Encode(v) <= input[inPos0..]
    ensures ret == Ok || ret == DataError
    ensures ret == Ok ==> inPos0 <= inPos <= |input| && input[inPos0..inPos] == Encode(vli)
  {
    var rest := input[inPos0..];
    DecodeNothing(0, 0);
    ShiftZeroIff(0, 0);
    hide Decode, Encode, Shift;
    AcceptedIff(rest);
    if ret == Ok {
      DecodedIsEncoded(rest);
      assert rest[..inPos - inPos0] == input[inPos0..inPos];
    }
  }

  /** The other calls, from the start: STREAM_END exactly when the input begins with an
      encoding, DATA_ERROR exactly when no input that begins with it does. */
  lemma FirstDecodeIff(input: seq<byte>, ret: Ret, vli0: nat, vli: nat, vliPos: nat, inPos: nat)
    requires DecodeCall(false, vli0, 0, input, 0, ret, vli, vliPos, inPos)
    ensures ret == StreamEnd <==> exists v: nat :: v <= VLI_MAX && Encode(v) <= input
    ensures ret == DataError <==> forall more: seq<byte>, v: nat :: v <= VLI_MAX ==> !(Encode(v) <= input + more)
    ensures ret == BufError <==> input == []
    ensures ret in {StreamEnd, DataError, BufError, Ok}
  {
    assert input[0..] == input;
    DecodeNothing(0, 0);
    ShiftZeroIff(0, 0);
    hide Decode, Encode, Shift;
    AcceptedIff(input);
    if Decode(0, 0, input).status == Bad {
      forall more: seq<byte>, v: nat | v <= VLI_MAX
        ensures !(Encode(v) <= input + more)
      {
        DecodeAppend(0, 0, input, more);
        AcceptedIff(input + more);
      }
    } else {
      var more, v := Completion(input);
    }
  }

  /** What can be completed: whatever the decoder has not refused. */
  lemma {:induction false} CompletionFrom(acc: nat, pos: nat, input: seq<byte>) returns (more: seq<byte>)
    requires pos < BYTES_MAX && Decode(acc, pos, input).status != Bad
    ensures Decode(acc, pos, input + more).status == Done
    decreases |input|
  {
    hide Decode, Power;
    DecodeNothing(acc, pos);
    if input == [] {
      more := [1];
      DecodeStep(acc, pos, 1, []);
      assert [1] + [] == [1] && input + more == [1];
    } else {
      var b, rest := input[0], input[1..];
      assert input == [b] + rest;
      DecodeStep(acc, pos, b, rest);
      if b < 128 {
        more := [];
        assert input + [] == input;
      } else {
        more := CompletionFrom(acc + b % 128 * Power(pos), pos + 1, rest);
        DecodeStep(acc, pos, b, rest + more);
        assert input + more == [b] + (rest + more);
      }
    }
  }

  lemma Completion(input: seq<byte>) returns (more: seq<byte>, v: nat)
    requires Decode(0, 0, input).status != Bad
    ensures v <= VLI_MAX && Encode(v) <= input + more
  {
    hide Decode, Encode;
    more := CompletionFrom(0, 0, input);
    DecodedIsEncoded(input + more);
    v := Decode(0, 0, input + more).vli;
  }

  /** The loop of lzma_vli_decode_impl. */
  method DecodeLoop(vli0: nat, vliPos0: nat, input: seq<byte>, inPos0: nat)
      returns (vli: nat, vliPos: nat, inPos: nat, status: Status)
    requires inPos0 <= |input| && vliPos0 < BYTES_MAX
    ensures var d := Decode(vli0, vliPos0, input[inPos0..]);
            vli == d.vli && vliPos == d.pos && inPos == inPos0 + d.used && status == d.status
  {
    hide Power, Decode;
    vli, vliPos, inPos := vli0, vliPos0, inPos0;
    while inPos < |input|
      invariant inPos0 <= inPos <= |input| && vliPos < BYTES_MAX
      invariant var d := Decode(vli, vliPos, input[inPos..]);
                Decode(vli0, vliPos0, input[inPos0..]) == d.(used := inPos - inPos0 + d.used)
    {
      var b := input[inPos];
      assert input[inPos..] == [b] + input[inPos + 1..];
      DecodeStep(vli, vliPos, b, input[inPos + 1..]);
      inPos := inPos + 1;
      vli := vli + b % 128 * Power(vliPos);  // (byte & 0x7F) << (vli_pos * 7)
      vliPos := vliPos + 1;
      if b < 128 {
        if b == 0 && vliPos > 1 {
          return vli, vliPos, inPos, Bad;
        }
        return vli, vliPos, inPos, Done;
      }
      if vliPos == BYTES_MAX {
        return vli, vliPos, inPos, Bad;
      }
    }
    DecodeNothing(vli, vliPos);
    return vli, vliPos, inPos, More;
  }

  /** lzma_vli_decode_impl on the first in_size bytes, `input`. */
  method VliDecode(single: bool, vli0: nat, vliPos0: nat, input: seq<byte>, inPos0: nat)
      returns (ret: Ret, vli: nat, vliPos: nat, inPos: nat)
    ensures DecodeCall(single, vli0, vliPos0, input, inPos0, ret, vli, vliPos, inPos)
  {
    hide Decode;
    vli, vliPos, inPos := vli0, if single then 0 else vliPos0, inPos0;
    ShiftZeroIff(0, 0);
    if single {
      vli := 0;
      if inPos >= |input| {
        return DataError, vli, vliPos, inPos;
      }
    } else {
      if vliPos == 0 {
        vli := 0;
      }
      ShiftZeroIff(vli, vliPos);
      if vliPos >= BYTES_MAX || Shift(vli, vliPos) != 0 {
        return ProgError, vli, vliPos, inPos;
      }
      if inPos >= |input| {
        return BufError, vli, vliPos, inPos;
      }
    }
    DecodeBounded(vli, vliPos, input[inPos0..]);
    PowerMonotone(Decode(vli, vliPos, input[inPos0..]).pos, BYTES_MAX);
    PowerNine();
    var status;
    vli, vliPos, inPos, status := DecodeLoop(vli, vliPos, input, inPos);
    ret := RetOf(status, single);
  }

  lemma {:induction false} PowerMonotone(m: nat, n: nat)
    ensures m <= n ==> Power(m) <= Power(n)
  {
    if m < n {
      PowerMonotone(m, n - 1);
    }
  }

  /** Once the decoder has stopped, more input changes nothing. */
  lemma StoppedIsFinal(a: seq<byte>, b: seq<byte>)
    requires a <= b && Decode(0, 0, a).status != More
    ensures Decode(0, 0, b) == Decode(0, 0, a)
  {
    DecodeAppend(0, 0, a, b[|a|..]);
    assert a + b[|a|..] == b;
  }

  /** A caller that hands lzma_vli_decode one piece of input after another, empty
      ones too, until it no longer asks for more, gets what one call on all of the
      input would give. */
  method DecodeChunks(chunks: seq<seq<byte>>) returns (vli: nat, used: nat, status: Status)
    ensures var d := Decode(0, 0, Concat(chunks));
            vli == d.vli && used == d.used && status == d.status
  {
    hide Decode;
    var i: nat, vliPos: nat := 0, 0;
    vli, used, status := 0, 0, More;
    DecodeNothing(0, 0);
    assert chunks[..0] == [];
    while i < |chunks|
      invariant i <= |chunks| && vliPos < BYTES_MAX
      invariant Decode(0, 0, Concat(chunks[..i])) == Decoded(vli, vliPos, used, More)
      invariant vli < Power(vliPos)
    {
      var c := chunks[i];
      var v: nat, p: nat := vli, vliPos;
      assert chunks[..i + 1][..i] == chunks[..i];
      assert c[0..] == c;
      DecodeAppend(0, 0, Concat(chunks[..i]), c);
      DecodeBounded(v, p, c);
      DecodeNothing(v, p);
      ZeroAtStart(v, p);
      var ret, vli', vliPos', inPos := VliDecode(false, v, p, c, 0);
      vli, vliPos, used := vli', vliPos', used + inPos;
      if ret != Ok && ret != BufError {
        ConcatPrefix(chunks, i + 1);
        StoppedIsFinal(Concat(chunks[..i + 1]), Concat(chunks));
        return vli, used, if ret == StreamEnd then Done else Bad;
      }
      i := i + 1;
    }
    assert chunks[..i] == chunks;
    return vli, used, More;
  }

  lemma DecodeNothing(v: nat, p: nat)
    ensures Decode(v, p, []) == Decoded(v, p, 0, More)
  {
  }

  lemma ZeroAtStart(v: nat, p: nat)
    requires v < Power(p)
    ensures p == 0 ==> v == 0
  {
  }
}
