/** Stream Header and Stream Footer (safe/src/internal/stream_flags.rs; sections
    2.1.1 and 2.1.2 of The .xz File Format). */
module StreamFlags {
  import opened Common
  import opened Words
  import opened Crc32
  import Crc32Meaning

  datatype Ret = Ok | FormatError | DataError | OptionsError | ProgError

  /** lzma_stream_flags without its reserved members.  `check` is a C int, which
      the code compares as unsigned. */
  datatype Flags = Flags(version: bv32, check: bv32, backwardSize: bv64)

  const VLI_UNKNOWN: bv64 := 0xFFFF_FFFF_FFFF_FFFF
  const HEADER_MAGIC: seq<bv8> := [0xFD, 0x37, 0x7A, 0x58, 0x5A, 0x00]
  const FOOTER_MAGIC: seq<bv8> := [0x59, 0x5A]

  /** At most LZMA_CHECK_ID_MAX */
  predicate CheckValid(check: bv32) {
    check <= 15
  }

  /** is_backward_size_valid, with LZMA_BACKWARD_SIZE_MIN and _MAX */
  predicate BackwardSizeValid(size: bv64) {
    size >= 4 && size <= 0x4_0000_0000 && size & 3 == 0
  }

  // ---------- fields ----------

  function Write32le(x: bv32): (s: seq<bv8>)
    ensures |s| == 4
  {
    [Byte0(x), Byte1(x), Byte2(x), Byte3(x)]
  }

  function Read32le(s: seq<bv8>): bv32
    requires |s| == 4
  {
    Le32(s[0], s[1], s[2], s[3])
  }

  lemma ReadWrite32le(x: bv32)
    ensures Read32le(Write32le(x)) == x
  {
    hide Byte0, Byte1, Byte2, Byte3, Le32;
    Le32OfBytes(x);
  }

  lemma WriteRead32le(s: seq<bv8>)
    requires |s| == 4
    ensures Write32le(Read32le(s)) == s
  {
    hide Byte0, Byte1, Byte2, Byte3, Le32;
    BytesOfLe32(s[0], s[1], s[2], s[3]);
  }

  /** Backward Size is stored as the number of four-byte units less one. */
  function StoredSize(size: bv64): bv32
    requires BackwardSizeValid(size)
  {
    ((size / 4 - 1) & 0xFFFF_FFFF) as bv32
  }

  function RealSize(stored: bv32): bv64 {
    ((stored as bv64) + 1) * 4
  }

  lemma RealOfStored(size: bv64)
    requires BackwardSizeValid(size)
    ensures RealSize(StoredSize(size)) == size
  {
  }

  lemma StoredOfReal(stored: bv32)
    ensures BackwardSizeValid(RealSize(stored)) && StoredSize(RealSize(stored)) == stored
  {
  }

  // ---------- Stream Flags ----------

  function FlagsBytes(check: bv32): (s: seq<bv8>)
    requires CheckValid(check)
    ensures |s| == 2
  {
    [0, Byte0(check)]
  }

  predicate HighNibbleClear(b: bv8) { b & 0xF0 == 0 }
  function LowNibble(b: bv8): bv32 { (b & 0x0F) as bv32 }

  /** The check that two flag bytes name; None is stream_flags_decode's error. */
  function FlagsCheck(s: seq<bv8>): Option<bv32>
    requires |s| == 2
  {
    if s[0] != 0 || !HighNibbleClear(s[1]) then None else Some(LowNibble(s[1]))
  }

  lemma NibbleOfCheck(c: bv32)
    requires c <= 15
    ensures ((c & 0xFF) as bv8) & 0xF0 == 0 && (((c & 0xFF) as bv8) & 0x0F) as bv32 == c
  {
  }

  lemma CheckOfNibble(b: bv8)
    requires b & 0xF0 == 0
    ensures (b & 0x0F) as bv32 <= 15 && (((b & 0x0F) as bv32) & 0xFF) as bv8 == b
  {
  }

  lemma FlagsRoundTrip(check: bv32)
    requires CheckValid(check)
    ensures FlagsCheck(FlagsBytes(check)) == Some(check)
  {
    NibbleOfCheck(check);
  }

  lemma FlagsCanonical(s: seq<bv8>)
    requires |s| == 2 && FlagsCheck(s).Some?
    ensures CheckValid(FlagsCheck(s).value) && FlagsBytes(FlagsCheck(s).value) == s
  {
    CheckOfNibble(s[1]);
  }

  // ---------- the two structures ----------

  function HeaderBytes(check: bv32): (s: seq<bv8>)
    requires CheckValid(check)
    ensures |s| == 12
  {
    HEADER_MAGIC + FlagsBytes(check) + Write32le(Crc(FlagsBytes(check), 0))
  }

  function FooterRegion(check: bv32, backwardSize: bv64): (s: seq<bv8>)
    requires CheckValid(check) && BackwardSizeValid(backwardSize)
    ensures |s| == 6
  {
    Write32le(StoredSize(backwardSize)) + FlagsBytes(check)
  }

  function FooterBytes(check: bv32, backwardSize: bv64): (s: seq<bv8>)
    requires CheckValid(check) && BackwardSizeValid(backwardSize)
    ensures |s| == 12
  {
    Write32le(Crc(FooterRegion(check, backwardSize), 0)) + FooterRegion(check, backwardSize) + FOOTER_MAGIC
  }

  function DecodeHeader(options: Flags, input: seq<bv8>): (Ret, Flags)
    requires |input| == 12
  {
    if input[..6] != HEADER_MAGIC then (FormatError, options)
    else if Crc(input[6..8], 0) != Read32le(input[8..]) then (DataError, options)
    else match FlagsCheck(input[6..8])
      case None => (OptionsError, options)
      case Some(check) => (Ok, Flags(0, check, VLI_UNKNOWN))
  }

  function DecodeFooter(options: Flags, input: seq<bv8>): (Ret, Flags)
    requires |input| == 12
  {
    if input[10..] != FOOTER_MAGIC then (FormatError, options)
    else if Crc(input[4..10], 0) != Read32le(input[..4]) then (DataError, options)
    else match FlagsCheck(input[8..10])
      case None => (OptionsError, options)
      case Some(check) => (Ok, Flags(0, check, RealSize(Read32le(input[4..8]))))
  }

  // ---------- round trips ----------

  /** What stream_header_encode writes decodes to the same check, with Backward
      Size unknown. */
  lemma HeaderRoundTrip(check: bv32, options: Flags)
    requires CheckValid(check)
    ensures DecodeHeader(options, HeaderBytes(check)) == (Ok, Flags(0, check, VLI_UNKNOWN))
  {
    hide Crc, Write32le, Read32le, FlagsBytes, FlagsCheck, CheckValid;
    var input, region := HeaderBytes(check), FlagsBytes(check);
    assert input[6..8] == region && input[8..] == Write32le(Crc(region, 0));
    ReadWrite32le(Crc(region, 0));
    FlagsRoundTrip(check);
  }

  /** Any twelve bytes that stream_header_decode accepts are what
      stream_header_encode writes for the decoded flags. */
  lemma HeaderCanonical(options: Flags, input: seq<bv8>)
    requires |input| == 12 && DecodeHeader(options, input).0 == Ok
    ensures var f := DecodeHeader(options, input).1;
            f.version == 0 && f.backwardSize == VLI_UNKNOWN && CheckValid(f.check) && HeaderBytes(f.check) == input
  {
    hide Crc, Write32le, Read32le, FlagsBytes, FlagsCheck, CheckValid;
    FlagsCanonical(input[6..8]);
    WriteRead32le(input[8..]);
    assert input == input[..6] + input[6..8] + input[8..];
  }

  lemma FooterRoundTrip(check: bv32, backwardSize: bv64, options: Flags)
    requires CheckValid(check) && BackwardSizeValid(backwardSize)
    ensures DecodeFooter(options, FooterBytes(check, backwardSize)) == (Ok, Flags(0, check, backwardSize))
  {
    hide Crc, Write32le, Read32le, FlagsBytes, FlagsCheck, CheckValid, BackwardSizeValid, RealSize, StoredSize;
    var input, region := FooterBytes(check, backwardSize), FooterRegion(check, backwardSize);
    assert input[4..10] == region && input[..4] == Write32le(Crc(region, 0)) && input[10..] == FOOTER_MAGIC;
    assert input[4..8] == region[..4] == Write32le(StoredSize(backwardSize));
    assert input[8..10] == region[4..] == FlagsBytes(check);
    ReadWrite32le(Crc(region, 0));
    FlagsRoundTrip(check);
    ReadWrite32le(StoredSize(backwardSize));
    RealOfStored(backwardSize);
  }

  lemma FooterCanonical(options: Flags, input: seq<bv8>)
    requires |input| == 12 && DecodeFooter(options, input).0 == Ok
    ensures var f := DecodeFooter(options, input).1;
            && f.version == 0 && CheckValid(f.check) && BackwardSizeValid(f.backwardSize)
            && FooterBytes(f.check, f.backwardSize) == input
  {
    hide Crc, Write32le, Read32le, FlagsBytes, FlagsCheck, CheckValid, BackwardSizeValid, RealSize, StoredSize;
    FlagsCanonical(input[8..10]);
    WriteRead32le(input[4..8]);
    StoredOfReal(Read32le(input[4..8]));
    WriteRead32le(input[..4]);
    var f := DecodeFooter(options, input).1;
    assert FooterRegion(f.check, f.backwardSize) == input[4..10];
    assert input == input[..4] + input[4..10] + input[10..];
  }

  // ---------- the bytes ----------

  /** 0xFD, "7zXZ", 0; and "YZ" */
  lemma MagicBytes()
    ensures HEADER_MAGIC == [0xFD, 0x37, 0x7A, 0x58, 0x5A, 0x00] && FOOTER_MAGIC == [0x59, 0x5A]
    ensures 0x37 == '7' as int && 0x7A == 'z' as int && 0x58 == 'X' as int && 0x5A == 'Z' as int && 0x59 == 'Y' as int
  {
  }

  /** The number that four bytes hold, the lowest first. */
  function LittleEndian(s: seq<bv8>): bv32
    requires |s| == 4
  {
    (s[0] as bv32) + (s[1] as bv32) * 0x100 + (s[2] as bv32) * 0x1_0000 + (s[3] as bv32) * 0x100_0000
  }

  lemma FourBytes(x: bv32, b0: bv8, b1: bv8, b2: bv8, b3: bv8)
    requires b0 == Byte0(x) && b1 == Byte1(x) && b2 == Byte2(x) && b3 == Byte3(x)
    ensures (b0 as bv32) + (b1 as bv32) * 0x100 + (b2 as bv32) * 0x1_0000 + (b3 as bv32) * 0x100_0000 == x
  {
  }

  lemma WrittenIsLittleEndian(x: bv32)
    ensures LittleEndian(Write32le(x)) == x
  {
    hide Byte0, Byte1, Byte2, Byte3;
    FourBytes(x, Byte0(x), Byte1(x), Byte2(x), Byte3(x));
  }

  lemma SmallCheck(check: bv32)
    requires CheckValid(check)
    ensures FlagsBytes(check)[1] as bv32 == check
  {
  }

  /** A Stream Header is the magic bytes, a zero, the check, and the CRC32 of those two. */
  lemma HeaderLayout(check: bv32)
    requires CheckValid(check)
    ensures var s := HeaderBytes(check);
            && s[..6] == [0xFD, 0x37, 0x7A, 0x58, 0x5A, 0x00]
            && s[6] == 0 && s[7] as bv32 == check && LittleEndian(s[8..]) == Crc(s[6..8], 0)
  {
    hide Crc, Write32le, LittleEndian;
    MagicBytes();
    SmallCheck(check);
    WrittenIsLittleEndian(Crc(FlagsBytes(check), 0));
    var s := HeaderBytes(check);
    assert s[6..8] == FlagsBytes(check) && s[8..] == Write32le(Crc(FlagsBytes(check), 0));
  }

  /** A Stream Footer is the CRC32 of the next six bytes, the Backward Size in units of
      four bytes less one, a zero, the check, and the magic bytes. */
  lemma FooterLayout(check: bv32, backwardSize: bv64)
    requires CheckValid(check) && BackwardSizeValid(backwardSize)
    ensures var s := FooterBytes(check, backwardSize);
            && LittleEndian(s[..4]) == Crc(s[4..10], 0)
            && (LittleEndian(s[4..8]) as bv64) * 4 + 4 == backwardSize
            && s[8] == 0 && s[9] as bv32 == check && s[10..] == [0x59, 0x5A]
  {
    hide Crc, Write32le, LittleEndian, StoredSize;
    MagicBytes();
    SmallCheck(check);
    StoredUnits(backwardSize);
    var region := FooterRegion(check, backwardSize);
    WrittenIsLittleEndian(Crc(region, 0));
    WrittenIsLittleEndian(StoredSize(backwardSize));
    var s := FooterBytes(check, backwardSize);
    assert s[4..10] == region && s[..4] == Write32le(Crc(region, 0)) && s[10..] == FOOTER_MAGIC;
    assert s[4..8] == region[..4] == Write32le(StoredSize(backwardSize));
    assert s[8] == region[4] && s[9] == region[5];
  }

  lemma StoredUnits(size: bv64)
    requires BackwardSizeValid(size)
    ensures (StoredSize(size) as bv64) * 4 + 4 == size
  {
  }

  /** Which result for which twelve bytes, and the structure in each case. */
  lemma HeaderResult(options: Flags, s: seq<bv8>)
    requires |s| == 12
    ensures var (ret, f) := DecodeHeader(options, s);
            && (ret == FormatError <==> s[..6] != [0xFD, 0x37, 0x7A, 0x58, 0x5A, 0x00])
            && (ret == DataError <==> s[..6] == [0xFD, 0x37, 0x7A, 0x58, 0x5A, 0x00]
                                      && Crc(s[6..8], 0) != LittleEndian(s[8..]))
            && (ret in {FormatError, DataError} || (ret == OptionsError <==> s[6] != 0 || s[7] > 15))
            && (ret in {FormatError, DataError, OptionsError} || (ret == Ok && f.check == s[7] as bv32))
            && (ret != Ok ==> f == options)
  {
    MagicBytes();
    HighNibble(s[7]);
    hide Crc, LittleEndian, Read32le, HighNibbleClear, LowNibble;
    ReadIsLittleEndian(s[8..]);
  }

  lemma FooterResult(options: Flags, s: seq<bv8>)
    requires |s| == 12
    ensures var (ret, f) := DecodeFooter(options, s);
            && (ret == FormatError <==> s[10..] != [0x59, 0x5A])
            && (ret == DataError <==> s[10..] == [0x59, 0x5A] && Crc(s[4..10], 0) != LittleEndian(s[..4]))
            && (ret in {FormatError, DataError} || (ret == OptionsError <==> s[8] != 0 || s[9] > 15))
            && (ret in {FormatError, DataError, OptionsError} || (ret == Ok && f.check == s[9] as bv32))
            && (ret != Ok ==> f == options)
  {
    MagicBytes();
    HighNibble(s[9]);
    hide Crc, LittleEndian, Read32le, HighNibbleClear, LowNibble, RealSize;
    ReadIsLittleEndian(s[..4]);
  }

  lemma HighNibble(b: bv8)
    ensures HighNibbleClear(b) <==> b <= 15
    ensures HighNibbleClear(b) ==> LowNibble(b) == b as bv32
  {
  }

  lemma ReadIsLittleEndian(s: seq<bv8>)
    requires |s| == 4
    ensures Read32le(s) == LittleEndian(s)
  {
    hide LittleEndian, Read32le, Write32le;
    WriteRead32le(s);
    WrittenIsLittleEndian(Read32le(s));
  }

  /** An unknown size is larger than any other. */
  lemma UnknownIsLargest(size: bv64)
    ensures size <= VLI_UNKNOWN
  {
  }

  // ---------- damage ----------

  /** Altering at most four consecutive bytes of the region that the CRC covers,
      the stored CRC left alone, makes stream_footer_decode fail with DATA_ERROR. */
  lemma FooterDamageDetected(options: Flags, good: seq<bv8>, bad: seq<bv8>, from: nat, to: nat)
    requires |good| == |bad| == 12 && DecodeFooter(options, good).0 == Ok
    requires 4 <= from <= to <= 10 && to - from <= 4
    requires good[..from] == bad[..from] && good[to..] == bad[to..] && good != bad
    ensures DecodeFooter(options, bad).0 == DataError
  {
    hide Crc, FlagsCheck, Read32le, RealSize;
    FooterSlices(good, from, to);
    FooterSlices(bad, from, to);
    assert good[from..to] != bad[from..to];
    Crc32Meaning.BurstDetected(good[4..from], good[from..to], bad[from..to], good[to..10], 0);
  }

  lemma FooterSlices(s: seq<bv8>, from: nat, to: nat)
    requires |s| == 12 && 4 <= from <= to <= 10
    ensures s == s[..from] + s[from..to] + s[to..]
    ensures s[..4] == s[..from][..4] && s[10..] == s[to..][10 - to..]
    ensures s[4..from] == s[..from][4..] && s[to..10] == s[to..][..10 - to]
    ensures s[4..10] == s[4..from] + s[from..to] + s[to..10]
  {
  }

  /** The two flag bytes of a header: any change is detected. */
  lemma HeaderDamageDetected(options: Flags, good: seq<bv8>, bad: seq<bv8>)
    requires |good| == |bad| == 12 && DecodeHeader(options, good).0 == Ok
    requires good[..6] == bad[..6] && good[8..] == bad[8..] && good != bad
    ensures DecodeHeader(options, bad).0 == DataError
  {
    hide Crc, FlagsCheck, Read32le;
    assert good == good[..6] + good[6..8] + good[8..];
    assert bad == bad[..6] + bad[6..8] + bad[8..];
    assert good[6..8] != bad[6..8];
    assert [] + good[6..8] + [] == good[6..8] && [] + bad[6..8] + [] == bad[6..8];
    Crc32Meaning.BurstDetected([], good[6..8], bad[6..8], [], 0);
  }

  // ---------- stream_flags_compare ----------

  function Compare(a: Flags, b: Flags): Ret {
    if a.version != 0 || b.version != 0 then OptionsError
    else if !CheckValid(a.check) || !CheckValid(b.check) then ProgError
    else if a.check != b.check then DataError
    else if a.backwardSize != VLI_UNKNOWN && b.backwardSize != VLI_UNKNOWN then
      if !BackwardSizeValid(a.backwardSize) || !BackwardSizeValid(b.backwardSize) then ProgError
      else if a.backwardSize != b.backwardSize then DataError
      else Ok
    else Ok
  }

  /** Which result for which pair of structures. */
  lemma CompareIff(a: Flags, b: Flags)
    ensures Compare(a, b) == OptionsError <==> a.version != 0 || b.version != 0
    ensures Compare(a, b) == Ok <==>
              && a.version == 0 == b.version && a.check == b.check <= 15
              && (a.backwardSize == VLI_UNKNOWN || b.backwardSize == VLI_UNKNOWN
                  || (a.backwardSize == b.backwardSize && BackwardSizeValid(a.backwardSize)))
    ensures Compare(a, b) == DataError ==>
              && a.version == 0 == b.version && a.check <= 15 && b.check <= 15
              && (a.check != b.check || a.backwardSize != b.backwardSize)
    ensures Compare(a, b) == ProgError <==>
              && a.version == 0 == b.version
              && (a.check > 15 || b.check > 15
                  || (a.check == b.check && a.backwardSize != VLI_UNKNOWN && b.backwardSize != VLI_UNKNOWN
                      && !(BackwardSizeValid(a.backwardSize) && BackwardSizeValid(b.backwardSize))))
    ensures Compare(a, b) != FormatError && Compare(b, a) == Compare(a, b)
  {
  }

  /** The flags of a header and of a footer, both accepted by the decoders, compare
      as equal exactly when they carry the same flag bytes. */
  lemma HeaderMatchesFooter(o: Flags, header: seq<bv8>, footer: seq<bv8>)
    requires |header| == |footer| == 12
    requires DecodeHeader(o, header).0 == Ok && DecodeFooter(o, footer).0 == Ok
    ensures Compare(DecodeHeader(o, header).1, DecodeFooter(o, footer).1)
         == if header[6..8] == footer[8..10] then Ok else DataError
  {
    hide Crc, Read32le, FlagsBytes, FlagsCheck, CheckValid;
    FlagsCanonical(header[6..8]);
    FlagsCanonical(footer[8..10]);
  }

  /** Two accepted footers compare as equal exactly when they are the same bytes. */
  lemma FootersEqualIffSameBytes(o: Flags, a: seq<bv8>, b: seq<bv8>)
    requires |a| == |b| == 12 && DecodeFooter(o, a).0 == Ok && DecodeFooter(o, b).0 == Ok
    ensures Compare(DecodeFooter(o, a).1, DecodeFooter(o, b).1) == Ok <==> a == b
  {
    hide DecodeFooter, FooterBytes;
    FooterCanonical(o, a);
    FooterCanonical(o, b);
  }

  // ---------- the code ----------

  /** Copy bytes into the output. */
  method Put(out: array<bv8>, at: nat, bytes: seq<bv8>)
    requires at + |bytes| <= out.Length
    modifies out
    ensures out[..] == Replaced(old(out[..]), at, bytes)
  {
    forall k | 0 <= k < |bytes| {
      out[at + k] := bytes[k];
    }
  }

  function Replaced(s: seq<bv8>, at: nat, bytes: seq<bv8>): seq<bv8>
    requires at + |bytes| <= |s|
  {
    s[..at] + bytes + s[at + |bytes|..]
  }

  /** Backward Size and Stream Flags make the region that the CRC covers. */
  lemma PutTwo(s: seq<bv8>, size: seq<bv8>, flags: seq<bv8>)
    requires |s| == 12 && |size| == 4 && |flags| == 2
    ensures Replaced(Replaced(s, 4, size), 8, flags)[4..10] == size + flags
  {
  }

  /** The CRC before the region and the magic bytes after it. */
  lemma PutAround(s: seq<bv8>, crc: seq<bv8>, magic: seq<bv8>)
    requires |s| == 12 && |crc| == 4 && |magic| == 2
    ensures Replaced(Replaced(s, 0, crc), 10, magic) == crc + s[4..10] + magic
  {
  }

  /** stream_header_encode_impl */
  method StreamHeaderEncode(options: Flags, out: array<bv8>) returns (ret: Ret)
    requires out.Length == 12
    modifies out
    ensures ret == if options.version != 0 then OptionsError else if CheckValid(options.check) then Ok else ProgError
    ensures ret == Ok ==> out[..] == HeaderBytes(options.check)
    ensures ret == ProgError ==> out[..] == HEADER_MAGIC + old(out[..])[6..]
    ensures ret == OptionsError ==> out[..] == old(out[..])
  {
    hide Crc, Write32le, CheckValid, Byte0;
    if options.version != 0 {
      return OptionsError;
    }
    Put(out, 0, HEADER_MAGIC);
    if !CheckValid(options.check) {
      return ProgError;
    }
    Put(out, 6, FlagsBytes(options.check));
    assert out[6..8] == FlagsBytes(options.check);
    Put(out, 8, Write32le(Crc(out[6..8], 0)));
    return Ok;
  }

  /** stream_footer_encode_impl */
  method StreamFooterEncode(options: Flags, out: array<bv8>) returns (ret: Ret)
    requires out.Length == 12
    modifies out
    ensures ret == if options.version != 0 then OptionsError
                   else if !BackwardSizeValid(options.backwardSize) || !CheckValid(options.check) then ProgError
                   else Ok
    ensures ret == Ok ==> out[..] == FooterBytes(options.check, options.backwardSize)
    ensures ret == OptionsError || !BackwardSizeValid(options.backwardSize) ==> out[..] == old(out[..])
    ensures ret == ProgError ==> out[..4] == old(out[..4]) && out[8..] == old(out[8..])
  {
    hide Crc, Write32le, CheckValid, BackwardSizeValid, StoredSize, Byte0;
    if options.version != 0 {
      return OptionsError;
    }
    if !BackwardSizeValid(options.backwardSize) {
      return ProgError;
    }
    Put(out, 4, Write32le(StoredSize(options.backwardSize)));
    if !CheckValid(options.check) {
      return ProgError;
    }
    Put(out, 8, FlagsBytes(options.check));
    PutTwo(old(out[..]), Write32le(StoredSize(options.backwardSize)), FlagsBytes(options.check));
    ghost var region := FooterRegion(options.check, options.backwardSize);
    assert out[4..10] == region;
    PutAround(out[..], Write32le(Crc(region, 0)), FOOTER_MAGIC);
    Put(out, 0, Write32le(Crc(out[4..10], 0)));
    Put(out, 10, FOOTER_MAGIC);
    return Ok;
  }

  /** A lzma_stream_flags that the decoders fill in. */
  class FlagsStruct {
    var version: bv32
    var check: bv32
    var backwardSize: bv64

    function Value(): Flags
      reads this
    {
      Flags(version, check, backwardSize)
    }

    constructor (f: Flags)
      ensures Value() == f
    {
      version, check, backwardSize := f.version, f.check, f.backwardSize;
    }

    /** stream_flags_decode: true is an error, and then nothing is written. */
    method FlagsDecode(input: seq<bv8>) returns (failed: bool)
      requires |input| == 2
      modifies this`version, this`check
      ensures failed == FlagsCheck(input).None?
      ensures !failed ==> version == 0 && check == FlagsCheck(input).value
      ensures failed ==> version == old(version) && check == old(check)
    {
      hide HighNibbleClear, LowNibble;
      if input[0] != 0 || !HighNibbleClear(input[1]) {
        return true;
      }
      version := 0;
      check := LowNibble(input[1]);
      return false;
    }

    /** stream_header_decode_impl */
    method StreamHeaderDecode(input: seq<bv8>) returns (ret: Ret)
      requires |input| == 12
      modifies this
      ensures (ret, Value()) == DecodeHeader(old(Value()), input)
    {
      hide Crc, FlagsCheck, Read32le;
      if input[..6] != HEADER_MAGIC {
        return FormatError;
      }
      var crc := Crc(input[6..8], 0);
      if crc != Read32le(input[8..]) {
        return DataError;
      }
      var failed := FlagsDecode(input[6..8]);
      if failed {
        return OptionsError;
      }
      backwardSize := VLI_UNKNOWN;
      return Ok;
    }

    /** stream_footer_decode_impl */
    method StreamFooterDecode(input: seq<bv8>) returns (ret: Ret)
      requires |input| == 12
      modifies this
      ensures (ret, Value()) == DecodeFooter(old(Value()), input)
    {
      hide Crc, FlagsCheck, Read32le, RealSize;
      if input[10..] != FOOTER_MAGIC {
        return FormatError;
      }
      var crc := Crc(input[4..10], 0);
      if crc != Read32le(input[..4]) {
        return DataError;
      }
      var failed := FlagsDecode(input[8..10]);
      if failed {
        return OptionsError;
      }
      backwardSize := RealSize(Read32le(input[4..8]));
      return Ok;
    }
  }
}
