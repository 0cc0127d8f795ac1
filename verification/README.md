# Verified core of XZ Utils

Dafny models of the parts of XZ Utils where a fast, resumable or stateful
implementation stands on a short mathematical idea, each proved to meet it:

* **Integrity checks.** `gf2.dfy` holds polynomials over GF(2): long division and
  the shift register, proved equal, and error-burst detection for any generator.
  `crc32.dfy` has the slice-by-eight CRC32 with its alignment prologue, the bytewise
  one and the table generator, for both byte orders, proved to compute the
  bit-at-a-time register; `crc32_meaning.dfy` says what that register means.
  `crc64.dfy` does the same for the bytewise CRC64. `fips180.dfy` is SHA-256 as
  FIPS 180-4 defines it; `sha256.dfy` is the code, with its circular schedule, rotating
  indices, rewritten macros and streaming buffer, proved to compute it.
  `fips180_meaning.dfy` says what the words, constants and fields of the definition are
  as numbers, and `known_answers.dfy` has the published check values of all three.
* **Argument permutation.** `getopt_exchange.dfy` and `getopt.dfy`: the in-place
  rotation, and the resumable scanner with its long option names in each of the three
  orderings, proved to report, and to leave in the argument vector, what a single pass
  over the original arguments says. `getopt_grammar.dfy` says what option strings and
  command lines mean that are written as documented, and `getopt_prefix.dfy` when an
  option string with a prefix makes a scan differ from that.
* **The lzma_code driver.** `stream_state.dfy`: action sequencing, byte accounting and
  the BUF_ERROR rule around an arbitrary coder, with theorems over every sequence of
  calls; `stream_protocol.dfy` tells the same from the calls and answers alone.
* **.xz primitives.** `vli.dfy` (section 1.2 of The .xz File Format) and
  `stream_flags.dfy` (sections 2.1.1 and 2.1.2): canonical, prefix-free and resumable
  codecs.
* **The xz tool.** `block_split.dfy` (the plan that `--block-list` and `--block-size`
  make, and the counters that follow it), `coder_normal.dfy` (the compression loop,
  running on the driver of `stream_state.dfy`; nothing is assumed of the encoder) and
  `block_trace.dfy` (what its calls look like from outside, and where Blocks end then),
  `sparse_write.dfy` (sparse output against dense output) and `util_args.dfy` (sizes
  and block lists on the command line; an accepted list is proved to be one that
  `block_split.dfy` can work with).

Code that changes state is modelled by classes, methods and loops, each proved against
a function or a predicate; the theorems are lemmas about those. The system's choices
(what an encoder answers, how much of a write gets done, whether a call fails) are
nondeterministic. `common.dfy` has what several modules share, `words.dfy` the 32-bit
bit-vector facts. `crc64.dfy` repeats the shape of the CRC32 lemmas because bit-vector
types of different widths share no functions; what does not depend on the width is in
`gf2.dfy`.

Check the whole project from this directory with

    dafny verify dfyconfig.toml --resource-limit 2000000 --verification-time-limit 0

(Dafny 4.11).

## Where the code and its promises differ

* `lzma_code` returns BUF_ERROR when two coder calls in a row make no progress, and also
  when the coder itself returns BUF_ERROR; the source excludes that by a debug assertion
  only. `StreamState.BufErrorFromCoder` is an example, `StreamState.BufErrorIff` the exact
  condition.
* An encoder that is called again after STREAM_END writes a zero byte and returns
  STREAM_END again, as long as fewer than nine bytes were written.
  `Vli.SecondCallWritesZero` is an example; `Vli.ContinuesIff` says, for every value and
  position, that a call writes the next bytes of the encoding exactly when the position
  is 0 or the value shifted down by it is not 0, which a caller can check first.
* `coder_normal` takes an encoder's STREAM_END for the end of the file when one more byte
  cannot be read. It does not distinguish the end of the file from an expired
  `--flush-timeout`; the source excludes the latter by a debug assertion only
  (`assert(pair->src_eof)`). In `CoderNormal.EarlyEnd` an encoder answers RUN with
  STREAM_END, the timeout expires, and the result is success with five bytes unread, the
  assertion violated. `CoderNormal.VerdictIff` is the exact condition. An encoder that
  ends only when told to finish is always judged rightly.
* The bytes read between two ended barriers always follow the plan
  (`BlockTrace.BlocksFollowThePlan`). The bytes that the encoder takes do so exactly when
  it never ends a barrier with input left over (`BlockTrace.TakenAsReadIff`); in
  `BlockTrace.EarlyBarrier` it ends one for a Block of ten bytes after three of them.
* The scanner strips a leading "+" or "-" from the option string in the first call only;
  in later calls that character is an option (`GetoptPrefix.PrefixTaken`: with "+a" the
  element "-a+" is two options). `GetoptPrefix.ScanStaleIff` says that a scan differs
  from one with the prefix stripped in every call exactly when it comes across an option
  character that is looked up differently, and `GetoptPrefix.StaleIff` which ones those
  are: the prefix itself, unless the rest of the string declares it as an option that
  comes to the same. A colon behind the prefix is missed after the first call
  (`GetoptPrefix.MissingStaleIff`).
* Skipping a hole instead of writing zeros is right at the end of a file, and elsewhere
  exactly when the skipped bytes are zeros already
  (`SparseWrite.SkippedHoleElsewhere`); the opening code tries sparse output only at the
  end.
* SHA-256 is defined for messages below 2^61 bytes. The code accepts longer ones and
  stores their bit count modulo 2^64; `Fips180.Padded` does the same there.

## Model

| member | source | states |
|---|---|---|
| Gf2.DivisionUnique | original/src/liblzma/check/crc32_small.c:25-36 | Dividing q * g + r by the generator gives back exactly q and r, so `Remainder` is the remainder of polynomial division. |
| Gf2.DivisionExact | original/src/liblzma/check/crc32_small.c:25-36 | Every dividend is its quotient times the generator plus its remainder. |
| Gf2.FeedIsRemainder | original/src/liblzma/check/crc32_small.c:29-34 | For every generator, register and message, the shift register that takes one bit a step leaves the remainder of the long division. |
| Gf2.FeedAppend | original/src/liblzma/check/crc32_small.c:62-65 | The register is resumable: a message may be cut anywhere. |
| Gf2.BurstDetected | original/src/liblzma/check/crc32_small.c:29-34 | For any generator with a constant term, two messages that differ only inside a window no longer than the register always leave different registers. |
| Crc32.StepsXor | original/src/liblzma/check/crc32_tablegen.c:33-38 | The bit steps are linear over exclusive or, for any number of steps. |
| Crc32.ByteStepByTable | original/src/liblzma/check/crc32_small.c:63 | One lookup in the first slice and a shift are eight bit steps with the byte added. |
| Crc32.SliceWord | original/src/liblzma/check/crc32_fast.c:55-58 | Four lookups in four adjacent slices take a whole word through 32 + 8k bit steps. |
| Crc32.FeedEight | original/src/liblzma/check/crc32_fast.c:51-71 | Feeding eight bytes one by one is the same as adding the first word to the register, 64 steps for it and 32 for the second word. |
| Crc32.CrcAppend | original/src/liblzma/check/crc32_fast.c:26-82 | crc(a + b, c) == crc(b, crc(a, c)). |
| Crc32.Selectors | original/src/liblzma/check/crc_macros.h:13-30 | A, B, C, D and S8 of either byte order pick the same bytes of the little endian register and drop the same byte. |
| Crc32.EntryNext | original/src/liblzma/check/crc32_tablegen.c:31-40 | Eight more steps on an entry of a slice give the entry of the next slice. |
| Crc32.EightSteps | original/src/liblzma/check/crc32_tablegen.c:33-38 | The innermost loop is eight steps of the register. |
| Crc32.InitTable | original/src/liblzma/check/crc32_tablegen.c:24-51 | Entry b of slice s is byte b after 8s + 8 steps, byte-swapped on a big endian machine; with one slice this is crc32_init. |
| Crc32.SwapTable | original/src/liblzma/check/crc32_tablegen.c:44-48 | The second pass turns the little endian table into the big endian one. |
| Crc32.EightBytes | original/src/liblzma/check/crc32_fast.c:51-71 | One turn of the main loop on eight bytes leaves the (byte-swapped) register that feeding them bit by bit leaves. |
| Crc32.OneByte | original/src/liblzma/check/crc32_fast.c:74-75 | One turn of the byte loops does the same for one byte. |
| Crc32.Crc32Fast | original/src/liblzma/check/crc32_fast.c:26-82 | On either byte order, for every buffer, start alignment and old CRC, slice-by-eight returns the bit-at-a-time CRC32 and reads only the buffer. |
| Crc32.Crc32Small | original/src/liblzma/check/crc32_small.c:53-68 | The bytewise loop returns the same. |
| Crc32Meaning.StepsArePolynomialSteps | original/src/liblzma/check/crc32_small.c:29-34 | The reflected 32-bit register steps as the polynomial register does. |
| Crc32Meaning.GeneratorIs | original/src/liblzma/check/crc32_small.c:25 | The reflected constant stands for the generator polynomial of IEEE 802.3, coefficient by coefficient. |
| Crc32Meaning.NotFlips | original/src/liblzma/check/crc32_fast.c:29-81 | ~ complements each of the 32 bits. |
| Crc32Meaning.CrcIsRemainder | original/src/liblzma/check/crc32_small.c:53-68 | The bits of the CRC32, each complemented, are the remainder of dividing the message, times x^32 and with the complemented bits of the old CRC added in front, by the generator. |
| Crc32Meaning.BitBurstDetected | original/src/liblzma/check/crc32_small.c:53-68 | Two messages of equal length whose bits differ only within 32 consecutive ones, byte boundaries or not, never have the same CRC32. |
| Crc32Meaning.BurstDetected | original/src/liblzma/check/crc32_small.c:53-68 | In particular those that differ only within four consecutive bytes. |
| Crc64.ByteStepByTable | original/src/liblzma/check/crc64_small.c:53 | One lookup and a shift are eight bit steps of the 64-bit register with the byte added. |
| Crc64.CrcAppend | original/src/liblzma/check/crc64_small.c:43-58 | crc(a + b, c) == crc(b, crc(a, c)). |
| Crc64.InitTable | original/src/liblzma/check/crc64_small.c:22-40 | Entry b is byte b after eight steps. |
| Crc64.Crc64Small | original/src/liblzma/check/crc64_small.c:43-58 | The bytewise loop returns the bit-at-a-time CRC64. |
| Crc64.GeneratorIs | original/src/liblzma/check/crc64_small.c:25 | The reflected constant stands for the generator polynomial of ECMA-182 Annex B, coefficient by coefficient. |
| Crc64.NotFlips | original/src/liblzma/check/crc64_small.c:43-58 | ~ complements each of the 64 bits. |
| Crc64.CrcIsRemainder | original/src/liblzma/check/crc64_small.c:43-58 | The bits of the CRC64, each complemented, are the remainder of dividing the message, times x^64 and with the complemented bits of the old CRC added in front, by that generator. |
| Crc64.BitBurstDetected | original/src/liblzma/check/crc64_small.c:43-58 | Two messages of equal length whose bits differ only within 64 consecutive ones never have the same CRC64. |
| Crc64.BurstDetected | original/src/liblzma/check/crc64_small.c:43-58 | In particular those that differ only within eight consecutive bytes. |
| KnownAnswers.Crc32OfDigits | original/tests/test_check.c:74 | The CRC32 of "123456789" is 0xCBF43926. |
| KnownAnswers.Crc64OfDigits | original/tests/test_check.c:102 | The CRC64 of "123456789" is 0x995DC9BBDF1939FA. |
| Fips180Meaning.RotrIs | original/src/liblzma/check/sha256.c:28-32 | At every amount that occurs, in the standard or in the nested rotations, ROTR exchanges the quotient and the remainder by that power of two. |
| Fips180Meaning.ShrDivides | original/src/liblzma/check/sha256.c:59-60 | The shifts divide by 8 and 1024. |
| Fips180Meaning.AddCounts | original/src/liblzma/check/sha256.c:50-53 | Addition counts modulo 2^32. |
| Fips180Meaning.ConstantsAreCubeRoots | original/src/liblzma/check/sha256.c:63-80 | Each constant of section 4.2.2 is the first 32 bits of the fractional part of the cube root of its prime, as an inequality between integers. |
| Fips180Meaning.InitialAreSquareRoots | original/src/liblzma/check/sha256.c:129-133 | The initial hash value of section 5.3.3 comes from the square roots of the first eight primes in the same way. |
| Fips180Meaning.BigEndianAt | original/src/liblzma/check/sha256.c:186-188 | The length field holds at each place the digit of that power of 256. |
| KnownAnswers.Sha256OfAbc | original/src/liblzma/check/sha256.c:126-196 | The SHA-256 of "abc", byte by byte. |
| Sha256.ChIsFips | original/src/liblzma/check/sha256.c:38 | The macro Ch is the Ch of section 4.1.2 of FIPS 180-4. |
| Sha256.MajIsFips | original/src/liblzma/check/sha256.c:39 | The macro Maj, with its addition, is the Maj of FIPS 180-4. |
| Sha256.S0IsFips | original/src/liblzma/check/sha256.c:57 | Three nested rotations are the exclusive or of three rotations. |
| Sha256.S1IsFips | original/src/liblzma/check/sha256.c:58 | Likewise for the second upper-case sigma. |
| Sha256.s0IsFips | original/src/liblzma/check/sha256.c:59 | Likewise for the first lower-case sigma. |
| Sha256.s1IsFips | original/src/liblzma/check/sha256.c:60 | Likewise for the second lower-case sigma. |
| Sha256.KIsFips | original/src/liblzma/check/sha256.c:63-80 | The table of the code holds the constants of section 4.2.2. |
| Sha256.SumIsFips | original/src/liblzma/check/sha256.c:51 | Adding h last is adding it first. |
| Sha256.R | original/src/liblzma/check/sha256.c:41-53 | A round in place, with names that rotate instead of values that move, is the round of section 6.2.2. |
| Sha256.Blk0 | original/src/liblzma/check/sha256.c:34 | Word i of the block, big endian on either machine, is word i of the schedule. |
| Sha256.Blk2 | original/src/liblzma/check/sha256.c:35-36 | The in-place update of the circular 16-word window gives the next word of the 64-word schedule. |
| Sha256.Transform | original/src/liblzma/check/sha256.c:83-115 | For every state and block, transform is the compression function of FIPS 180-4. |
| Sha256.HashAppend | original/src/liblzma/check/sha256.c:160-161 | Hashing whole blocks can be continued by one more block. |
| Sha256.CheckState.constructor | original/src/liblzma/check/sha256.c:126-138 | lzma_sha256_init: the initial hash value, nothing absorbed. |
| Sha256.CheckState.Process | original/src/liblzma/check/sha256.c:118-123 | A full buffer goes into the hash value. |
| Sha256.CheckState.Update | original/src/liblzma/check/sha256.c:141-165 | Whatever the size of the piece, afterwards exactly the old message and the piece have been absorbed. |
| Sha256.CheckState.Pad | original/src/liblzma/check/sha256.c:173-183 | The padding loop ends, has absorbed the 0x80 byte and exactly the zeros of section 5.1.1, and has processed a block if and only if 56 bytes or more were waiting. |
| Sha256.CheckState.StoreDigest | original/src/liblzma/check/sha256.c:192-193 | The words of the hash value are stored big endian. |
| Sha256.CheckState.Finish | original/src/liblzma/check/sha256.c:168-196 | The first 32 bytes of the buffer are the SHA-256 of everything absorbed, after two final blocks when 56 bytes or more were waiting and one otherwise. |
| Sha256.HashPieces | original/src/liblzma/check/sha256.c:126-196 | However a message is cut into updates, on either byte order, init, updates and finish give the SHA-256 of the whole. |
| GetoptExchange.SwapInPlace | original/lib/getopt.c:201-207 | The inner loops swap two blocks and touch nothing else. |
| GetoptExchange.BottomIsShort | original/lib/getopt.c:194-210 | Swapping a short bottom segment to the far end leaves a smaller rotation to do. |
| GetoptExchange.TopIsShort | original/lib/getopt.c:211-227 | Swapping a short top segment down leaves a smaller rotation to do. |
| GetoptExchange.RotateInPlace | original/lib/getopt.c:157-228 | The loop ends with the two adjacent segments exchanged, each in its order, and everything outside unchanged. |
| Getopt.GetoptData.Exchange | original/lib/getopt.c:157-234 | exchange rotates argv, and the two indices then describe the moved operands; the segment invariant is kept. |
| Getopt.GetoptData.Initialize | original/lib/getopt.c:238-300 | The ordering is the one that the prefix of the option string and POSIXLY_CORRECT choose, the option string is returned past its prefix, and the segment invariant holds when nothing has been scanned. |
| Getopt.ExchangeKeeps | original/lib/getopt.c:405-410 | After the exchange all options so far stand before all operands so far. |
| Getopt.SkipKeeps | original/lib/getopt.c:414-419 | Skipping an operand extends the segment of operands. |
| Getopt.OperandStops | original/lib/getopt.c:456-459 | In REQUIRE_ORDER the first operand ends the options. |
| Getopt.OperandReported | original/lib/getopt.c:456-461 | In RETURN_IN_ORDER an operand is passed by as a report of its own, and the invariant moves behind it. |
| Getopt.GetoptData.PassOperand | original/lib/getopt.c:460-461 | It is reported with code 1 and itself as the argument, and the segment invariant is kept. |
| Getopt.DashExchanged | original/lib/getopt.c:422-439 | After "--" it ends the options, and the skipped operands and all that follows are the operands, in order. |
| Getopt.NextCharacter | original/lib/getopt.c:747-755 | An option character in the middle of an element keeps the invariant for the rest of the element. |
| Getopt.TakeKeeps | original/lib/getopt.c:1022-1088 | An element that ends, with the arguments it takes, extends the options. |
| Getopt.GetoptData.PrematureEnd | original/lib/getopt.c:427-439 | The state after "--": the boundary is the first operand. |
| Getopt.GetoptData.ReachEnd | original/lib/getopt.c:427-451 | At the end or at "--" the scan is over with the boundary at optind; anywhere else nothing changes. |
| Getopt.GetoptData.Advance | original/lib/getopt.c:392-469 | Either an option element is next (or, in RETURN_IN_ORDER, an operand), or the scan is over with the boundary at optind. |
| Getopt.FindLong | original/lib/getopt.c:502-528 | The loop over the long options finds the first exact name; else the first that the name abbreviates, unless another one that it abbreviates does something else. |
| GetoptGrammar.FoundIff | original/lib/getopt.c:328-330 | A name is found exactly when it is the first of this spelling or, where there is none, the first that it abbreviates, and all those do the same. |
| GetoptGrammar.UnrecognizedIff | original/lib/getopt.c:505-541 | It is unrecognized exactly when it abbreviates nothing; else it is ambiguous. |
| GetoptGrammar.SameEffectIff | original/lib/getopt.c:522-525 | Two long options do the same exactly when they differ in nothing but the name. |
| Getopt.GetoptData.LongOption | original/lib/getopt.c:486-744 | One long option is reported as the one-pass reading says, with the argument after "=" or in the next slot; optarg, optopt, longind, the store through its flag and the return value belong to it. |
| Getopt.GetoptData.DecodeLong | original/lib/getopt.c:486-744 | The element consumes one slot, or two when its argument is the next one, the segment invariant is kept, and every output belongs to the report. |
| Getopt.GetoptData.DecodeShort | original/lib/getopt.c:747-1090 | One option character, looked up in the string that this call works with, is reported with the argument that the one-pass reading gives it, and with the optopt and return value that belong to it. |
| Getopt.GetoptData.Getopt | original/lib/getopt.c:357-1091 | In each ordering every call keeps the segment invariant, touches nothing before where the scan began, gets nearer to the end, gives optarg, optopt, longind, flags and the return value what belongs to the report, and at -1 leaves options and operands as the one-pass reading of the original arguments says. |
| Getopt.ScanAll | original/lib/getopt.c:302-318 | For each ordering, prefix or not, a whole run of calls reports exactly the items of one pass over the original arguments, and leaves options first, operands after, optind between them. |
| Getopt.ParseIsStablePartition | original/lib/getopt.c:315-318 | The final order is a stable partition: one choice of elements in their original order, then the others in theirs. |
| Getopt.ParsePermutes | original/lib/getopt.c:315-318 | The final arguments are a permutation of the original ones. |
| GetoptGrammar.OperandIff | original/lib/getopt.c:379-390 | An operand does not begin with "-" or is "-" alone. |
| GetoptGrammar.LongIff | original/lib/getopt.c:486-489 | Long options begin with "--", where the program has any. |
| GetoptGrammar.Declared | original/lib/getopt.c:321-326 | An option string written from any declarations gives each declared character its kind, and no other character one. |
| GetoptGrammar.DeclaredBehind | original/lib/getopt.c:750 | A leading ":", "+" or "-" does not change that. |
| GetoptGrammar.OrderingIs | original/lib/getopt.c:250-267 | "-" asks for RETURN_IN_ORDER, "+" or POSIXLY_CORRECT for REQUIRE_ORDER, and anything else permutes. |
| GetoptGrammar.ReportedWith | original/lib/getopt.c:318-340 | The number each report returns, and which of optopt, longind and the flags it sets. |
| GetoptGrammar.LineIsRead | original/lib/getopt.c:302-352 | In each ordering any command line written as documented (clusters, arguments attached or in the next element, long names exact or abbreviated with or without "=", operands, "--") is reported as what it was written for, and so are unknown characters and names, unwanted arguments and a missing one at the end. |
| GetoptPrefix.ScanStaleIff | original/lib/getopt.c:369-377 | A scan makes the reports, and leaves the arguments, that it would with the prefix stripped in every call exactly when it never comes across an option character that is looked up differently after the first report. |
| GetoptPrefix.StaleIff | original/lib/getopt.c:747-751 | Such a character is the prefix itself, where the rest of the string does not declare it as an option that comes to the same (in particular, where it does not declare it). |
| GetoptPrefix.MissingStaleIff | original/lib/getopt.c:250-258 | The code for a missing argument is another one in later calls exactly when the prefix stands before a colon. |
| GetoptPrefix.PrefixTaken | original/lib/getopt.c:369-377 | With "+a" the element "-a+" is reported as two options, where the prefix stripped for good makes it one and an error. |
| StreamState.LzmaStream.StrmInit | safe/src/internal/stream_state.rs:131-153 | Re-initialisation resets everything but the coder, or fails and changes nothing. |
| StreamState.LzmaStream.InstallNextCoder | safe/src/internal/stream_state.rs:155-171 | From any state the stream becomes fresh with the new coder's actions. |
| StreamState.LzmaStream.Enter | safe/src/internal/stream_state.rs:203-234 | In a pending sequence only the same action with the bytes left over is let through. |
| StreamState.LzmaStream.Admit | safe/src/internal/stream_state.rs:178-234 | Exactly which calls are rejected, with which code, and the sequence of those that are not. |
| StreamState.LzmaStream.Conclude | safe/src/internal/stream_state.rs:269-312 | The new sequence and flag and the visible result for every answer of the coder. |
| StreamState.LzmaStream.LzmaCode | safe/src/internal/stream_state.rs:173-313 | One call changes the stream as the transition function says, for every state, action and answer. |
| StreamState.OkRunIsBounded | safe/src/internal/stream_state.rs:269-280 | A run of OK results is no longer than twice the bytes on offer and one. |
| StreamState.SomethingOtherThanOk | safe/src/internal/stream_state.rs:269-280 | From a fresh stream that never times out, with N input and M output bytes offered in all, some result other than OK comes within 2(N + M) + 2 calls. |
| StreamState.BoundIsTight | safe/src/internal/stream_state.rs:269-280 | For every N there is a run of 2N + 1 calls that are all OK. |
| StreamState.FlagIsLastCallStalled | safe/src/internal/stream_state.rs:270-305 | Until an error, allow_buf_error says exactly whether the last call that reached the coder made no progress, whatever rejected calls lie between. |
| StreamState.BufErrorIff | safe/src/internal/stream_state.rs:270-280 | BUF_ERROR is returned exactly when this and the previous coder call both returned OK without progress, or when the coder itself returned it. |
| StreamState.BufErrorFromCoder | safe/src/internal/stream_state.rs:306-309 | A concrete call with BUF_ERROR although nothing stalled. |
| StreamState.RejectedIsTransparent | safe/src/internal/stream_state.rs:199-234 | A rejected call is never OK and the next call does what it would have done without it. |
| StreamState.EpisodeEnds | safe/src/internal/stream_state.rs:285-310 | A flush, barrier or finish ends exactly by STREAM_END, by an error, or by SEEK_NEEDED while finishing. |
| StreamState.EpisodeKeeps | safe/src/internal/stream_state.rs:212-231 | During it the coder sees only its action and exactly the bytes left over; consumed plus remaining stays what it was. |
| StreamState.EpisodeFromStart | safe/src/internal/stream_state.rs:203-231 | The same from the call that starts it. |
| StreamState.TotalsAreSums | safe/src/internal/stream_state.rs:255-265 | Over any run total_in and total_out are the sums of what the coder reported, modulo 2^64. |
| StreamState.PointersFollow | safe/src/internal/stream_state.rs:255-267 | Pointers advance and counts drop by the same amounts, and no null pointer is advanced. |
| StreamState.TerminalForever | safe/src/internal/stream_state.rs:232-233 | After the end or an error no sequence of calls ever reaches the coder again or changes the state. |
| StreamProtocol.ReachedIff | safe/src/internal/stream_state.rs:173-234 | In every run a call reaches the coder exactly when it is in order, supported, and may follow the last call that did, told from that call and its answer alone. |
| StreamProtocol.ResultIs | safe/src/internal/stream_state.rs:173-313 | The result of every call in every run, told from the calls and answers alone. |
| StreamProtocol.AfterTheEnd | safe/src/internal/stream_state.rs:291-310 | From any stream: once the coder has ended it (during RUN or FINISH) or failed, no later sequence of calls reaches it, and calls in order get STREAM_END or PROG_ERROR. |
| StreamProtocol.AfterOthers | safe/src/internal/stream_state.rs:271-306 | From any stream: after any other answer exactly the calls that may follow reach the coder; after RUN and after an ended flush that is every one. |
| Vli.SizeIs | safe/src/internal/vli.rs:136-152 | An encoding has at most n bytes exactly when the value is below 128^n. |
| Vli.EncodeTail | safe/src/internal/vli.rs:37-54 | Resuming after k bytes, from the value shifted down by 7k bits, gives the rest of the encoding. |
| Vli.RestFits | safe/src/internal/vli.rs:37-41 | Position and remaining bytes never exceed nine. |
| Vli.Emit | safe/src/internal/vli.rs:39-58 | The loop writes as much of the encoding as fits, and nothing else. |
| Vli.VliEncode | safe/src/internal/vli.rs:6-65 | The exact effect of one call in every case, error cases included. |
| Vli.SingleEncodeIff | safe/src/internal/vli.rs:15-64 | A single call returns OK exactly when the value is valid and all of its encoding fits, and then has written it; else PROG_ERROR. |
| Vli.PastTheEnd | safe/src/internal/vli.rs:37-58 | What is left of an encoding after its end is one zero byte. |
| Vli.GoesOnIff | safe/src/internal/vli.rs:37 | The encoding goes on at a position exactly when it is 0 or the value shifted down by it is not 0. |
| Vli.ContinuesIff | safe/src/internal/vli.rs:6-65 | Under that check, and only then, the bytes a call writes are the next bytes of the encoding. |
| Vli.SecondCallWritesZero | safe/src/internal/vli.rs:37-64 | The value 5, encoded, then called for again: STREAM_END and a zero byte. |
| Vli.VliSize | safe/src/internal/vli.rs:136-152 | 0 for a value that is too large, else the length of the encoding. |
| Vli.EncodeIntoChunks | safe/src/internal/vli.rs:6-65 | Over any sequence of output buffers, empty ones included, the bytes are those of a single call, cut only by lack of space, and STREAM_END comes exactly when all are written. |
| Vli.DecodeBounded | safe/src/internal/vli.rs:105-127 | The value stays below 128^position, so nothing overflows 64 bits. |
| Vli.DecodeAppend | safe/src/internal/vli.rs:105-127 | Input may be cut anywhere. |
| Vli.DecodeEncode | safe/src/internal/vli.rs:105-134 | Decoding an encoding returns the value and uses exactly its bytes. |
| Vli.DecodedIsEncoded | safe/src/internal/vli.rs:112-126 | Whatever is accepted is the encoding of the value returned. |
| Vli.AcceptedIff | safe/src/internal/vli.rs:105-134 | An input is accepted if and only if it begins with an encoding. |
| Vli.PrefixFree | safe/src/internal/vli.rs:37-64 | No encoding is the beginning of another. |
| Vli.ShiftZeroIff | safe/src/internal/vli.rs:96 | The check of the caller's variables is exactly value < 128^position. |
| Vli.VliDecode | safe/src/internal/vli.rs:67-134 | The exact effect of one call in every case, error cases included. |
| Vli.SingleDecodeIff | safe/src/internal/vli.rs:75-134 | A single call returns OK exactly when the input begins with an encoding, and then its value; else DATA_ERROR. |
| Vli.FirstDecodeIff | safe/src/internal/vli.rs:84-134 | A resumable call returns STREAM_END exactly when the input begins with an encoding, DATA_ERROR exactly when no continuation of it does, BUF_ERROR exactly without input, and OK otherwise. |
| Vli.DecodeChunks | safe/src/internal/vli.rs:67-134 | Over any sequence of input pieces, empty ones included, value, bytes used and status are those of one call on all of it. |
| StreamFlags.HeaderRoundTrip | safe/src/internal/stream_flags.rs:66-146 | An encoded header decodes to its check, with Backward Size unknown. |
| StreamFlags.HeaderCanonical | safe/src/internal/stream_flags.rs:120-146 | Twelve accepted bytes are the encoding of what they decode to. |
| StreamFlags.FooterRoundTrip | safe/src/internal/stream_flags.rs:92-171 | An encoded footer decodes to its check and Backward Size. |
| StreamFlags.FooterCanonical | safe/src/internal/stream_flags.rs:148-171 | Twelve accepted bytes are the encoding of what they decode to. |
| StreamFlags.HeaderLayout | safe/src/internal/stream_flags.rs:66-90 | An encoded header is 0xFD "7zXZ" 0, a zero, the check, and the CRC32 of those two, lowest byte first. |
| StreamFlags.FooterLayout | safe/src/internal/stream_flags.rs:92-118 | An encoded footer is the CRC32 of the next six bytes, Backward Size / 4 - 1, a zero, the check, and "YZ". |
| StreamFlags.HeaderResult | safe/src/internal/stream_flags.rs:120-146 | The result for any twelve bytes: wrong magic, wrong CRC32, reserved flags, or the check. |
| StreamFlags.FooterResult | safe/src/internal/stream_flags.rs:148-171 | The same for a footer. |
| StreamFlags.HeaderDamageDetected | safe/src/internal/stream_flags.rs:132-138 | Any change of the flag bytes alone is answered by DATA_ERROR. |
| StreamFlags.FooterDamageDetected | safe/src/internal/stream_flags.rs:160-163 | Any change within four consecutive bytes of the region the CRC covers, the stored CRC unchanged, is answered by DATA_ERROR. |
| StreamFlags.HeaderMatchesFooter | safe/src/internal/stream_flags.rs:173-206 | An accepted header and an accepted footer compare as equal exactly when their flag bytes are equal. |
| StreamFlags.FootersEqualIffSameBytes | safe/src/internal/stream_flags.rs:173-206 | Two accepted footers compare as equal exactly when they are the same bytes. |
| StreamFlags.CompareIff | safe/src/internal/stream_flags.rs:173-206 | Which result for which pair of structures, whichever of them comes first. |
| StreamFlags.UnknownIsLargest | safe/src/internal/stream_flags.rs:144 | An unknown Backward Size is the largest 64-bit number. |
| StreamFlags.StreamHeaderEncode | safe/src/internal/stream_flags.rs:66-90 | The result code and the output in every case, also when it fails half way. |
| StreamFlags.StreamFooterEncode | safe/src/internal/stream_flags.rs:92-118 | The result code and the output in every case, also when it fails half way. |
| StreamFlags.FlagsStruct.StreamHeaderDecode | safe/src/internal/stream_flags.rs:120-146 | The result code and the structure, which changes only on success. |
| StreamFlags.FlagsStruct.StreamFooterDecode | safe/src/internal/stream_flags.rs:148-171 | The result code and the structure, which changes only on success. |
| BlockSplit.ListBoundariesAreHit | original/src/xz/coder.c:719-722 | The Blocks of the first m entries add up to exactly those entries, so every boundary of the list is a Block boundary. |
| BlockSplit.ChopIsGreedy | original/src/xz/coder.c:732-735 | Only the last piece of an entry may be shorter than --block-size. |
| BlockSplit.PlanOfFiveThree | original/src/xz/coder.c:724-766 | --block-list=5,3 with --block-size=2: 2, 2, 1, then 2, 1 over and over. |
| BlockSplit.PlanIsBlockAt | original/src/xz/coder.c:747-752 | Every finite plan is the beginning of the endless one. |
| BlockSplit.Counters.constructor | original/src/xz/coder.c:795-840 | The first Block is the first of the plan. |
| BlockSplit.Counters.SplitRest | original/src/xz/coder.c:729-745 | In the middle of an entry the next Block is its next piece. |
| BlockSplit.Counters.SplitNext | original/src/xz/coder.c:747-765 | At the end of an entry the next Block is the first piece of the next one, the last being repeated. |
| BlockSplit.Counters.SplitBlock | original/src/xz/coder.c:724-766 | From every reachable state the next Block is the next of the plan, nothing underflows and the source's assertions hold. |
| BlockSplit.Counters.NextBlock | original/src/xz/coder.c:894-903 | The same with and without a list. |
| BlockSplit.Counters.OpenBlock | original/src/xz/coder.c:724-766 | All Blocks so far, the open one included, are those of the endless plan. |
| BlockTrace.BlocksFollowThePlan | original/src/xz/coder.c:857-903 | In every trace of this kind the bytes read up to the first ended FULL_BARRIER, and between each two, are exactly the planned Blocks in order, and those since the last fit in the next one. |
| BlockTrace.BytesConserved | original/src/xz/coder.c:848-850 | The bytes read are those taken and those left over, and left over is never negative. |
| BlockTrace.TakenAsReadIff | original/src/xz/coder.c:881-908 | The bytes taken between barriers are the planned Blocks too if and only if every barrier ends with all of its input taken. |
| BlockTrace.EarlyBarrier | original/src/xz/coder.c:881-903 | A trace with a Block of ten bytes whose barrier the encoder ends after three. |
| CoderNormal.IoRead | original/src/xz/file_io.c:1178-1244 | However short and however often interrupted the reads: all that was asked for, or less exactly at the end of the file, after the flush timeout (only with input seen since the last flush), or on an error, which is exactly when a system call failed. |
| CoderNormal.WriteOutput | original/src/xz/coder.c:769-780 | It fails exactly when a system call failed; else everything in the buffer has been written and the buffer is empty. |
| CoderNormal.ReadyCall | safe/src/internal/stream_state.rs:203-234 | A stream whose caller keeps the rules on repeated actions has every call reach the encoder, whatever that answers, and after any answer that lets the loop go on the rules are still kept. |
| CoderNormal.ChooseAction | original/src/xz/coder.c:857-869 | FINISH exactly at the end of the file, FULL_BARRIER exactly when the Block is full otherwise, SYNC_FLUSH exactly when a flush is needed and neither holds; the byte counter of the Block stays right. |
| CoderNormal.TakeInput | original/src/xz/coder.c:848-869 | As much as fits the buffer and the Block was asked for, what was read is what is offered, and the action is the one that the read, the plan and the flushes so far call for. |
| CoderNormal.FillInput | original/src/xz/coder.c:846-870 | Filling the buffer never passes the end of the Block, loses no byte, leaves something to do whenever the action is RUN, and fails exactly when a system call did. |
| CoderNormal.CallEncoder | original/src/xz/coder.c:872-879 | With the encoder behind lzma_code no call is rejected, whatever the encoder answers: overrunning its buffers, ending early and ending with input left over included; a full output buffer is written. |
| CoderNormal.VerdictIff | original/src/xz/coder.c:939-957 | STREAM_END is taken for success exactly when no input is left and either the file has ended or the read of one more byte timed out; in the latter case, and only then, the assertion on the way is violated. |
| CoderNormal.Judge | original/src/xz/coder.c:944-961 | The same on the state of the loop, with the byte that was read accounted for. |
| CoderNormal.Answered | original/src/xz/coder.c:881-988 | Which results continue, succeed and fail, with the read of one more byte where it happens; an ended barrier, and nothing else, starts the next Block of the plan; an ended flush, and nothing else, clears the flush flags; output is written after a flush and at every end. |
| CoderNormal.CallRecorded | original/src/xz/coder.c:872-879 | The call made is the one recorded, with its action, input and room for output and the encoder's answer, and it is linked to the calls before it. |
| CoderNormal.CallOnce | original/src/xz/coder.c:872-988 | What follows the call is decided by what is recorded of it. |
| CoderNormal.Turn | original/src/xz/coder.c:845-992 | A turn adds to the trace one call that offers what was left over and read, passes on the answer and fits the plan, whatever the encoder answers; or nothing, exactly when reading fails. |
| CoderNormal.CoderNormal | original/src/xz/coder.c:784-995 | For every file, option and encoder, with flush timeouts and failing reads and writes, the trace of calls is one where no call is rejected, unfinished actions are repeated with the input left over, as much as the buffer and the Block hold is read exactly when nothing is left over or pending, FINISH begins exactly at the end of the file, a FULL_BARRIER exactly when the planned Block is full, and a SYNC_FLUSH exactly when a timeout has expired since the last; the bytes taken follow the plan if and only if no barrier is ended with input left; no byte is lost, of input or of output; each call returns what the encoder answered, except BUF_ERROR for its second answer in a row without progress and PROG_ERROR for an overrun; the loop gives up on input and output exactly when a system call failed, and otherwise ends exactly after an error or the end of the Stream, with success exactly when the whole file was taken or the flush timeout expired in the last read. |
| CoderNormal.EarlyEnd | original/src/xz/coder.c:927-957 | Five bytes unread, RUN answered with STREAM_END, the read timed out: success, and the assertion violated. |
| SparseWrite.OverwriteTwice | original/src/xz/file_io.c:1348-1349 | Two consecutive writes are one write of the concatenation. |
| SparseWrite.SkippedHole | original/src/xz/file_io.c:1386-1399 | At the end of a file, skipping a hole before data leaves what writing the zeros would. |
| SparseWrite.SkippedHoleElsewhere | original/src/xz/file_io.c:1036-1042 | Anywhere, it does so exactly when the bytes skipped are zeros already. |
| SparseWrite.WordIsZero | original/src/xz/file_io.c:1297-1299 | In either byte order a word is zero exactly when its bytes are. |
| SparseWrite.IsSparse | original/src/xz/file_io.c:1292-1302 | Looking at words finds exactly the buffers of zeros. |
| SparseWrite.FilePair.constructor | original/src/xz/file_io.c:981-1046 | Sparse output is tried exactly under the listed conditions, and then writing starts at the end of the file; the place of the next byte does not change, with O_APPEND or without. |
| SparseWrite.FilePair.IoWriteBuf | original/src/xz/file_io.c:1305-1353 | With short and interrupted writes, what is written is a beginning of the buffer, all of it unless a call failed. |
| SparseWrite.FilePair.TryHole | original/src/xz/file_io.c:1370-1384 | A block becomes part of the pending hole exactly when it is full, all zeros and the hole is not too large; an empty one is ignored. |
| SparseWrite.FilePair.Limits | original/src/xz/file_io.c:1375-1378 | A hole may grow while it is shorter than a quarter of the values of off_t, whose width is 32 or 64 bits. |
| SparseWrite.FilePair.IoWrite | original/src/xz/file_io.c:1356-1403 | The file with its pending hole is what a dense writer would have now; the pending size never overflows off_t; a sparse block leaves the file alone. |
| SparseWrite.FilePair.IoClose | original/src/xz/file_io.c:1114-1138 | A successful close leaves exactly the dense file. |
| SparseWrite.WriteFile | original/src/xz/file_io.c:1292-1403 | For any sequence of buffers the run succeeds exactly when no system call fails, and then the destination holds its old bytes followed (at the starting position) by all buffers. |
| UtilArgs.AcceptedIff | original/src/xz/util.c:93-171 | Blanks, any number of digits and a valid suffix are accepted exactly when the true value is in the range, and that value is returned. |
| UtilArgs.OnlyNumbersAreAccepted | original/src/xz/util.c:93-171 | Nothing else is accepted but "max". |
| UtilArgs.RejectedIff | original/src/xz/util.c:93-171 | Which error for blanks, digits and any rest: no number, a wrong suffix, or out of range, exactly. |
| UtilArgs.RenderedIsRead | original/src/xz/util.c:109-124 | A number written in decimal has the value it was written for. |
| UtilArgs.DigitsOnly | original/src/xz/util.c:99-106 | Digits are "0123456789", blanks are space and tab. |
| UtilArgs.SuffixIff | original/src/xz/util.c:126-153 | K, M and G in either case, with "i", "B", "iB" or nothing after it, are the first three powers of 1024; nothing else is a suffix. |
| UtilArgs.OverflowIff | original/src/xz/util.c:155-159 | The division test is exactly overflow of the product. |
| UtilArgs.ReadDigits | original/src/xz/util.c:109-124 | The 64-bit checks fire exactly when the mathematical value does not fit. |
| UtilArgs.StrToUint64 | original/src/xz/util.c:93-171 | The code returns what unbounded arithmetic says, with the same error in every case. |
| UtilArgs.FieldsJoin | original/src/xz/args.c:90-96 | Cutting at commas loses nothing and leaves no comma. |
| UtilArgs.FieldsCount | original/src/xz/args.c:78-82 | Counting commas gives the number of fields. |
| UtilArgs.AcceptedListIsValid | original/src/xz/args.c:68-132 | Every accepted list is nonempty, of nonzero sizes, ended by 0: a list that split_block can work with. |
| UtilArgs.AcceptedListIff | original/src/xz/args.c:68-132 | A list is accepted exactly when it is not empty, does not begin with a comma, is not too long, and every field is empty or a number, 0 only as the last. |
| UtilArgs.EntryOfField | original/src/xz/args.c:98-123 | Each entry is its field's number, an empty field repeats the entry before it, 0 stands only at the end and means no limit. |
| UtilArgs.ParseBlockList | original/src/xz/args.c:68-132 | The code computes that list, or the first error. |

## Left out

- The LZMA and LZMA2 coders, range coder, match finders, index, Block and threaded containers are not part of this model; coders are arbitrary.
- Null-pointer arguments that the Rust functions answer with PROG_ERROR before doing anything: arguments are arrays and sequences here. Null next_in and next_out are modelled.
- lzma_end and lzma_get_progress; the allocator is one Boolean, whether an allocation succeeds.
- The precomputed CRC tables (crc32_table_le.h and its siblings): the generator is verified instead. The slice-by-four CRC64 and its tables are not part of this model.
- The crc32 that the Rust stream_flags code calls is not part of this model; the CRC32 of the C code stands in for it.
- `reserved` members of lzma_stream_flags, which the code never reads, are not modelled.
- Sha256.CheckState.Finish: conv64be and the native 64-bit store are one step that writes eight bytes, high byte first.
- Getopt.GetoptData.Getopt: option strings with the "W;" extension are excluded by `Getopt.Options.WithoutW`; getopt_long_only and an argument vector that the caller changes between calls are not modelled.
- Getopt.GetoptData.LongOption: error messages are left out.
- CoderNormal.CoderNormal: compression to .xz only; a user abort between two turns is the end of the list of answers; of the bytes read and written there is the number, not the contents.
- SparseWrite.FilePair.IoClose: attributes, closing descriptors and restoring O_APPEND are left out; nobody else writes to the file, and a write of at least one byte never returns zero.
- SparseWrite.FilePair.IoWrite: what a failed run leaves behind is not described beyond the single write that failed.
- UtilArgs.ParseBlockList: an error ends the program in the original; here it is the result.
- Messages, signals, polling, opening and unlinking files, list mode, threads, hardware limits, locale and time.
