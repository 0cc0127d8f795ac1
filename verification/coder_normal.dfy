/** coder_normal of src/xz/coder.c compressing a file to .xz: the loop that feeds an
    encoder through lzma_code, Block by Block. */
module CoderNormal {
  import opened BlockSplit
  import opened BlockTrace
  import opened Common
  import opened StreamState

  // ---------- reading and writing ----------

  /** What a read(2) and the wait after it come to. */
  datatype SystemRead = Part(n: nat) | Interrupted | TimeIsUp | ReadError

  /** The system.  It decides how much a call gets done, and how often it is interrupted,
      which happens finitely often. */
  class System {
    var interrupts: nat
    ghost var faults: nat   // reads and writes that failed for good
    ghost var written: nat  // bytes of output in the destination

    constructor ()
      ensures faults == 0
    {
      interrupts, faults, written := 0, 0, 0;
    }

    /** On a file with `left` bytes left; nothing is read exactly at its end. */
    method Read(size: nat, left: nat, timeout: bool) returns (r: SystemRead)
      requires size > 0
      modifies this`interrupts, this`faults
      ensures faults == old(faults) + if r.ReadError? then 1 else 0
      ensures interrupts <= old(interrupts) && (r.Interrupted? ==> interrupts < old(interrupts))
      ensures r.Part? ==> r.n <= size && r.n <= left && (r.n == 0 <==> left == 0)
      ensures r.TimeIsUp? ==> timeout
    {
      if {
        case true =>
          var amount: nat :| amount <= size && amount <= left && (amount == 0 <==> left == 0);
          r := Part(amount);
        case interrupts > 0 =>
          interrupts, r := interrupts - 1, Interrupted;
        case timeout =>
          r := TimeIsUp;
        case true =>
          r, faults := ReadError, faults + 1;
      }
    }

    /** io_write of n bytes */
    method Write(n: nat) returns (failed: bool)
      modifies this`faults, this`written
      ensures faults == old(faults) + if failed then 1 else 0
      ensures if failed then written <= old(written) + n else written == old(written) + n
    {
      if {
        case true =>
          failed, written := false, written + n;
        case true =>
          ghost var part: nat :| part <= n;
          failed, faults, written := true, faults + 1, written + part;
      }
    }
  }

  /** io_read on a file with `left` bytes left: it fails exactly when a system call did. */
  method IoRead(sys: System, left: nat, size: nat, flushTimeout: bool, seen: bool) returns (r: Read)
    modifies sys`interrupts, sys`faults
    ensures Reads(r, left, size, flushTimeout, seen)
    ensures sys.faults == old(sys.faults) + if r.Failed? then 1 else 0
  {
    var pos := 0;
    while pos < size
      invariant pos <= size && pos <= left && sys.faults == old(sys.faults)
      decreases size - pos, sys.interrupts
    {
      var amount := sys.Read(size - pos, left - pos, flushTimeout && (seen || pos > 0));
      match amount
      case Part(n) =>
        if n == 0 {
          return AtEof(pos);
        }
        pos := pos + n;
      case Interrupted =>
      case TimeIsUp =>
        return Expired(pos);
      case ReadError =>
        return Failed;
    }
    return Got(pos);
  }

  /** coder_write_output: it fails exactly when a system call did, and else everything in
      the buffer has been written. */
  method WriteOutput(sys: System, strm: LzmaStream) returns (failed: bool)
    requires strm.availOut <= IO_BUFFER_SIZE
    modifies sys`faults, sys`written, strm`nextOut, strm`availOut
    ensures forall a :: old(Ready(strm.State(), a)) ==> Ready(strm.State(), a)
    ensures sys.faults == old(sys.faults) + if failed then 1 else 0
    ensures var unwritten: nat := IO_BUFFER_SIZE - old(strm.availOut);
            if failed then sys.written <= old(sys.written) + unwritten
            else sys.written == old(sys.written) + unwritten && strm.availOut == IO_BUFFER_SIZE
  {
    hide Ready;
    ReadyForOutput(strm.State());
    failed := sys.Write(IO_BUFFER_SIZE - strm.availOut);
    if !failed {
      strm.nextOut, strm.availOut := At(0), IO_BUFFER_SIZE;
    }
  }

  // ---------- keeping the rules of lzma_code ----------

  /** The stream is in order, and a call with this action keeps the rules about
      repeating an action until it is done. */
  ghost predicate Ready(s: Strm, action: Action) {
    && s.internal.Some? && s.internal.value.registered && s.reservedClear
    && action in s.internal.value.supported && {Run, SyncFlush, FullBarrier, Finish} <= s.internal.value.supported
    && (s.nextIn == Null ==> s.availIn == 0) && (s.nextOut == Null ==> s.availOut == 0)
    && s.totalIn < U64 && s.totalOut < U64
    && (s.internal.value.sequence == SeqRun
        || (action != Run && s.internal.value.sequence == SequenceOf(action)
            && s.internal.value.availIn == s.availIn))
  }

  /** What the encoder takes; nothing counts if it claims more than it was given. */
  function Taken(s: Strm, r: Reply): (n: nat)
    ensures n <= s.availIn
  {
    if Overshoots(s, r) then 0 else r.inPos
  }

  /** What it makes. */
  function Made(s: Strm, r: Reply): (n: nat)
    ensures n <= s.availOut
  {
    if Overshoots(s, r) then 0 else r.outPos
  }

  /** Such a call reaches the encoder whatever it answers, and after any answer that
      lets the loop go on the rules are still kept. */
  lemma ReadyCall(s: Strm, action: Action, r: Reply)
    requires Ready(s, action) && action in {Run, SyncFlush, FullBarrier, Finish}
    ensures var o := Code(s, action, r);
            && s.internal.Some? && s.totalIn < U64 && s.totalOut < U64 && o.called
            && o.strm.availIn + Taken(s, r) == s.availIn
            && o.strm.availOut + Made(s, r) == s.availOut
            && o.ret == (if Overshoots(s, r) then ProgError else Visible(s.internal.value.allowBufError, r))
            && (o.ret in {Ok, UnsupportedCheck, StreamEnd} ==>
                  o.strm.internal.Some? && (o.strm.internal.value.allowBufError <==> Stalled(r)))
            && (o.ret == StreamEnd && action in {SyncFlush, FullBarrier} ==> Ready(o.strm, Run))
            && (o.ret == Ok || o.ret == UnsupportedCheck ==> Ready(o.strm, action))
  {
  }

  /** New input may be offered, and another action begun, only while running. */
  lemma ReadyForMore(s: Strm, availIn: nat, action: Action)
    requires Ready(s, Run) && action in {Run, SyncFlush, FullBarrier, Finish}
    ensures Ready(s.(nextIn := At(0), availIn := availIn), action)
  {
  }

  lemma ReadyForOutput(s: Strm)
    ensures forall a :: Ready(s, a) ==> Ready(s.(nextOut := At(0), availOut := IO_BUFFER_SIZE), a)
  {
  }

  lemma FreshIsReady(s: Strm)
    requires Fresh(s) && s.nextIn == Null && s.availIn == 0 && s.nextOut.At? && s.reservedClear
    requires {Run, SyncFlush, FullBarrier, Finish} <= s.internal.value.supported
    ensures Ready(s, Run)
  {
  }

  // ---------- the state of the loop ----------

  /** The variables of the loop besides the counters and the stream: `left` bytes of the
      file have not been read, `seen` is src_has_seen_input, and `input` has been read
      since the last call. */
  datatype Progress = Progress(action: Action, left: nat, eof: bool, flushNeeded: bool, seen: bool,
                               input: Option<Read>)
  {
    function Bytes(): nat {
      BytesOf(input)
    }
  }

  /** Why the loop ends. */
  datatype End = Continues | Success | CoderError | IoError

  /** How far the open Block has been fed. */
  ghost predicate Feeding(action: Action, current: nat, remaining: nat, fed: nat) {
    match action
    case FullBarrier => current != MAX && fed == current
    case Finish => fed <= current || current == MAX
    case _ => if current == MAX then remaining == MAX else 0 < remaining && fed + remaining == current
  }

  lemma FeedingFacts(action: Action, current: nat, remaining: nat, fed: nat)
    requires Feeding(action, current, remaining, fed)
    ensures fed <= current || current == MAX
    ensures action == FullBarrier ==> fed == current != MAX
    ensures action == Run || action == SyncFlush ==> fed + 1 <= current || current == MAX
  {
  }

  /** After n more bytes; which action fits depends on what was read. */
  lemma FedMore(current: nat, remaining: nat, fed: nat, n: nat)
    requires Feeding(Run, current, remaining, fed) && n <= remaining && 0 < current <= MAX
    ensures Feeding(Finish, current, remaining, fed + n)
    ensures remaining == MAX ==> Feeding(Run, current, remaining, fed + n)
    ensures remaining != MAX && remaining == n ==> Feeding(FullBarrier, current, 0, fed + n)
    ensures remaining != MAX && n < remaining ==> Feeding(Run, current, remaining - n, fed + n)
  {
  }

  lemma FlushFeeds(current: nat, remaining: nat, fed: nat)
    ensures Feeding(SyncFlush, current, remaining, fed) <==> Feeding(Run, current, remaining, fed)
  {
  }

  lemma BlockBegins(current: nat)
    requires 0 < current <= MAX
    ensures Feeding(Run, current, current, 0)
  {
  }

  /** The counters stand at a Block fed so far, after `done`. */
  ghost predicate Counting(c: Counters, o: Options, done: seq<nat>, fed: nat, action: Action)
    reads c
  {
    c.o == o && c.Planned() && c.blocks == done && Feeding(action, c.current, c.blockRemaining, fed)
  }

  lemma CountingFits(c: Counters, o: Options, done: seq<nat>, fed: nat, action: Action)
    requires Counting(c, o, done, fed, action)
    ensures o.Valid() && FitsPlan(BlockAt(o, |done|), fed, action)
  {
    hide Plan, Chop, Rest, BlockAt;
    c.OpenBlock();
  }

  /** Every byte of the file has been offered in the trace, read since (`extra`), or is
      still to be read. */
  ghost predicate Settled(job: Job, left: nat, availIn: nat, trace: seq<Offer>, extra: nat) {
    && job.o.Valid() && Sound(job, trace)
    && Sum(Between(BytesRead, trace).0) + Between(BytesRead, trace).1 + extra + left == job.size
    && availIn == LeftOver(trace) + extra
  }

  /** The flags are what the trace and the last read say. */
  predicate Flags(p: Progress, trace: seq<Offer>) {
    && (p.seen <==> p.Bytes() > 0 || Seen(trace))
    && (p.flushNeeded <==> HasExpired(p.input) || FlushDue(trace))
  }

  /** What was read since the last call was asked for as wanted, and the action begun
      then. */
  ghost predicate ReadAsWanted(job: Job, p: Progress, trace: seq<Offer>)
    requires job.o.Valid()
  {
    var (done, open) := Between(BytesRead, trace);
    var n := BlockAt(job.o, |done|);
    p.input.Some? ==>
      && !p.input.value.Failed?
      && Reads(p.input.value, p.left + p.Bytes(), Wanted(n, open), job.flushTimeout, Seen(trace))
      && p.action == Begun(n, open + p.Bytes(), p.input.value, FlushDue(trace))
  }

  /** A call may be made. */
  ghost predicate Calling(c: Counters, strm: LzmaStream, job: Job, p: Progress, trace: seq<Offer>)
    reads c, strm
  {
    && Settled(job, p.left, strm.availIn, trace, p.Bytes())
    && (trace != [] ==> trace[|trace| - 1].GoesOn())
    && Counting(c, job.o, Between(BytesRead, trace).0, Between(BytesRead, trace).1 + p.Bytes(), p.action)
    && (p.input.Some? ==> Unfinished(trace) == Run && LeftOver(trace) == 0)
    && (p.input.None? ==> p.action == Unfinished(trace))
    && p.action in {Run, SyncFlush, FullBarrier, Finish}
    && Ready(strm.State(), p.action)
    && (p.eof <==> p.action == Finish) && (p.eof ==> p.left == 0)
    && Flags(p, trace) && ReadAsWanted(job, p, trace)
    && strm.availOut == Room(trace) <= IO_BUFFER_SIZE
  }

  /** Between two turns. */
  ghost predicate Going(c: Counters, strm: LzmaStream, job: Job, p: Progress, trace: seq<Offer>)
    reads c, strm
  {
    Calling(c, strm, job, p, trace) && p.input.None?
  }

  // ---------- filling the input buffer ----------

  /** The action that fits what was read into the open Block: the end, a barrier or a
      flush, each exactly when there is reason for it and for none before it. */
  method ChooseAction(c: Counters, r: Read, flushNeeded: bool, ghost o: Options, ghost done: seq<nat>, ghost fed: nat)
    returns (action: Action)
    requires Counting(c, o, done, fed, Run)
    requires !r.Failed? && r.n <= c.blockRemaining && (r.Expired? ==> flushNeeded)
    modifies c`blockRemaining
    ensures Counting(c, o, done, fed + r.n, action)
    ensures action == if r.AtEof? then Finish
                      else if old(c.blockRemaining) != MAX && old(c.blockRemaining) == r.n then FullBarrier
                      else if flushNeeded then SyncFlush
                      else Run
  {
    hide Plan, Chop, Rest, Feeding;
    FedMore(c.current, c.blockRemaining, fed, r.n);
    action := Run;
    if r.AtEof? {
      action := Finish;
    } else if c.blockRemaining != MAX {
      c.blockRemaining := c.blockRemaining - r.n;
      if c.blockRemaining == 0 {
        action := FullBarrier;
      }
    }
    if action == Run && flushNeeded {
      FlushFeeds(c.current, c.blockRemaining, fed + r.n);
      action := SyncFlush;
    }
  }

  /** How much io_read is asked for: as much as fits the buffer and the Block. */
  function ReadSize(remaining: nat): (n: nat)
    ensures n <= remaining && n <= IO_BUFFER_SIZE && (n == remaining || n == IO_BUFFER_SIZE)
  {
    if remaining < IO_BUFFER_SIZE then remaining else IO_BUFFER_SIZE
  }

  lemma ReadSizeIsWanted(current: nat, remaining: nat, open: nat)
    requires Feeding(Run, current, remaining, open) && 0 < current <= MAX
    ensures ReadSize(remaining) == Wanted(current, open) > 0
  {
  }

  /** The input buffer is empty, nothing is pending, and io_read has returned r. */
  method TakeInput(c: Counters, strm: LzmaStream, ghost job: Job, p0: Progress, ghost trace: seq<Offer>, r: Read)
    returns (p: Progress)
    requires Going(c, strm, job, p0, trace) && strm.availIn == 0 && p0.action == Run
    requires !r.Failed? && Reads(r, p0.left, ReadSize(c.blockRemaining), job.flushTimeout, p0.seen)
    modifies c`blockRemaining, strm`nextIn, strm`availIn
    ensures Calling(c, strm, job, p, trace) && p.input == Some(r) && p.left == p0.left - r.n
    ensures strm.availIn == r.n && (p.action == Run ==> r.n > 0)
  {
    hide Plan, Chop, Rest, Sum, Ready, Feeding, Between, Sound, BlockAt, Seen, FlushDue, Wanted, ReadSize;
    ghost var before, done, open := strm.State(), Between(BytesRead, trace).0, Between(BytesRead, trace).1;
    CurrentBlock(c, job.o, done, open, Run);
    ReadSizeIsWanted(c.current, c.blockRemaining, open);
    ReadFits(r, p0.left, ReadSize(c.blockRemaining), job.flushTimeout, p0.seen);
    strm.nextIn, strm.availIn := At(0), r.n;
    var flushNeeded := p0.flushNeeded || r.Expired?;
    BegunIs(c.current, c.blockRemaining, open, r, flushNeeded);
    var action := ChooseAction(c, r, flushNeeded, job.o, done, open);
    ReadyForMore(before, r.n, action);
    p := Progress(action, p0.left - r.n, r.AtEof?, flushNeeded, p0.seen || r.n > 0, Some(r));
  }

  lemma ReadFits(r: Read, left: nat, size: nat, flushTimeout: bool, seen: bool)
    requires !r.Failed? && Reads(r, left, size, flushTimeout, seen)
    ensures r.n <= size && r.n <= left && (r.AtEof? ==> r.n == left) && (r.Got? ==> r.n == size)
  {
  }

  lemma CurrentBlock(c: Counters, o: Options, done: seq<nat>, fed: nat, action: Action)
    requires Counting(c, o, done, fed, action)
    ensures o.Valid() && c.current == BlockAt(o, |done|) && 0 < c.current <= MAX
    ensures Feeding(action, c.current, c.blockRemaining, fed)
  {
    hide Plan, Chop, Rest, BlockAt, Feeding;
    c.OpenBlock();
  }

  /** The counter tells what the plan says. */
  lemma BegunIs(current: nat, remaining: nat, open: nat, r: Read, flushNeeded: bool)
    requires Feeding(Run, current, remaining, open) && 0 < current <= MAX && !r.Failed? && r.n <= remaining
    ensures (if r.AtEof? then Finish else if remaining != MAX && remaining == r.n then FullBarrier
             else if flushNeeded || r.Expired? then SyncFlush else Run)
         == Begun(current, open + r.n, r, flushNeeded)
  {
  }

  /** Filling the input buffer when it is empty: it fails exactly when a system call did. */
  method FillInput(sys: System, c: Counters, strm: LzmaStream, ghost job: Job, p0: Progress,
                   ghost trace: seq<Offer>, flushTimeout: bool)
    returns (p: Progress, failed: bool)
    requires Going(c, strm, job, p0, trace) && strm.availIn == 0 && p0.action == Run
    requires flushTimeout == job.flushTimeout
    modifies sys`interrupts, sys`faults, c`blockRemaining, strm`nextIn, strm`availIn
    ensures sys.faults == old(sys.faults) + if failed then 1 else 0
    ensures !failed ==> Calling(c, strm, job, p, trace) && (p.action == Run ==> strm.availIn > 0)
    ensures failed ==> p == p0 && strm.availIn == 0
  {
    hide Going, Calling;
    var r := IoRead(sys, p0.left, ReadSize(c.blockRemaining), flushTimeout, p0.seen);
    if r.Failed? {
      return p0, true;
    }
    p := TakeInput(c, strm, job, p0, trace, r);
    failed := false;
  }

  // ---------- the call and its result ----------

  /** lzma_code, the encoder answering `reply`, and coder_write_output when the output
      buffer became full. */
  method CallEncoder(sys: System, strm: LzmaStream, action: Action, reply: Reply)
    returns (ret: Ret, consumed: nat, produced: nat, reached: bool, failed: bool)
    requires Ready(strm.State(), action) && action in {Run, SyncFlush, FullBarrier, Finish}
    requires 0 < strm.availOut <= IO_BUFFER_SIZE
    modifies sys`faults, sys`written, strm
    ensures sys.faults == old(sys.faults) + if failed then 1 else 0
    ensures reached && consumed == Taken(old(strm.State()), reply) && produced == Made(old(strm.State()), reply)
    ensures failed ==> produced == old(strm.availOut)
    ensures strm.availIn + consumed == old(strm.availIn)
    ensures var room := old(strm.availOut);
            if failed then sys.written <= old(sys.written) + (IO_BUFFER_SIZE - room) + produced
            else
              && strm.availOut == (if room == produced then IO_BUFFER_SIZE else room - produced)
              && sys.written + (IO_BUFFER_SIZE - strm.availOut) == old(sys.written) + (IO_BUFFER_SIZE - room) + produced
    ensures ret == if Overshoots(old(strm.State()), reply) then ProgError else Visible(old(strm.allowBufError), reply)
    ensures ret in {Ok, UnsupportedCheck, StreamEnd} ==> (strm.allowBufError <==> Stalled(reply))
    ensures ret == StreamEnd && action in {SyncFlush, FullBarrier} ==> Ready(strm.State(), Run)
    ensures ret == Ok || ret == UnsupportedCheck ==> Ready(strm.State(), action)
  {
    hide Code, Ready, Overshoots, Visible, Stalled;
    ReadyCall(strm.State(), action, reply);
    consumed, produced := Taken(strm.State(), reply), Made(strm.State(), reply);
    hide Taken, Made;
    ret, reached := strm.LzmaCode(action, reply);
    failed := false;
    if strm.availOut == 0 {
      failed := WriteOutput(sys, strm);
    }
  }

  /** The end of the Stream, as the encoder sees it, is the end of the file when no
      input is left over and one more byte cannot be read. */
  function Verdict(availIn: nat, eof: bool, tail: Option<Read>): End
    requires availIn == 0 && !eof ==> tail.Some?
  {
    if availIn > 0 then CoderError
    else if eof then Success
    else if tail.value.Failed? then IoError
    else if tail.value.n == 0 then Success
    else CoderError
  }

  /** assert(pair->src_eof) on the way to success. */
  predicate SourceAssertion(eof: bool, tail: Option<Read>) {
    eof || (tail.Some? && tail.value.AtEof?)
  }

  /** So an encoder that ends early is found out, unless exactly then the flush timeout
      expires; and exactly then the assertion on the way to success is violated. */
  lemma VerdictIff(availIn: nat, eof: bool, left: nat, tail: Option<Read>, flushTimeout: bool, seen: bool)
    requires (eof ==> left == 0) && (availIn == 0 && !eof ==> tail.Some?)
    requires tail.Some? ==> Reads(tail.value, left, 1, flushTimeout, seen) && !tail.value.Failed?
    ensures Verdict(availIn, eof, tail) == Success
       <==> availIn == 0 && (left == 0 || (!eof && tail == Some(Expired(0))))
    ensures Verdict(availIn, eof, tail) == Success ==>
              (SourceAssertion(eof, tail) <==> eof || tail != Some(Expired(0)))
  {
  }

  /** STREAM_END that ends neither a flush nor a Block: io_read has returned `tail` when
      asked for one more byte. */
  method Judge(strm: LzmaStream, p0: Progress, tail: Option<Read>, ghost flushTimeout: bool)
    returns (p: Progress, end: End)
    requires p0.eof ==> p0.left == 0
    requires tail.Some? <==> strm.availIn == 0 && !p0.eof
    requires tail.Some? ==> Reads(tail.value, p0.left, 1, flushTimeout, p0.seen)
    modifies strm`availIn
    ensures end == Verdict(old(strm.availIn), p0.eof, tail)
    ensures p.left + BytesOf(tail) == p0.left && strm.availIn == old(strm.availIn) + BytesOf(tail)
    ensures p.seen == p0.seen
    ensures end == Success || end == CoderError || end == IoError
    ensures end == IoError <==> tail == Some(Failed)
    ensures end != IoError ==>
              (end == Success <==> strm.availIn == 0 && (p.left == 0 || tail == Some(Expired(0))))
  {
    p, end := p0, Verdict(strm.availIn, p0.eof, tail);
    if tail.Some? && !tail.value.Failed? {
      strm.availIn := tail.value.n;
      p := p.(left := p.left - tail.value.n, eof := tail.value.AtEof?);
    }
  }

  /** What the end of a turn says about its call. */
  ghost predicate EndFits(end: End, x: Offer, availIn: nat, left: nat, tail: Option<Read>, flushTimeout: bool,
                          seen: bool)
  {
    && (x.action == Finish ==> left == 0)
    && (end != IoError ==>
          && (end == Continues <==> x.GoesOn())
          && (end == Success <==> x.EndsStream() && availIn == 0 && (left == 0 || tail == Some(Expired(0))))
          && (tail.Some? <==> x.EndsStream() && x.action == Run && x.consumed == x.availIn))
    && (tail.Some? ==>
          && x.EndsStream() && x.action == Run && x.consumed == x.availIn
          && Reads(tail.value, left + BytesOf(tail), 1, flushTimeout, seen))
  }

  /** What follows the call x: the end of a flush, of a Block, of the Stream, or an
      error.  It ends with IoError exactly when a system call has failed. */
  method Answered(sys: System, c: Counters, strm: LzmaStream, p0: Progress, ret: Ret, ghost o: Options, ghost x: Offer,
                  ghost done: seq<nat>, ghost open: nat, flushTimeout: bool)
    returns (p: Progress, end: End, tail: Option<Read>)
    requires Counting(c, o, done, open + x.Bytes(), p0.action)
    requires x.action == p0.action && x.ret == ret && strm.availIn + x.consumed == x.availIn
    requires p0.action in {Run, SyncFlush, FullBarrier, Finish}
    requires (p0.eof <==> p0.action == Finish) && (p0.eof ==> p0.left == 0) && strm.availOut <= IO_BUFFER_SIZE
    requires ret == StreamEnd && p0.action in {SyncFlush, FullBarrier} ==> Ready(strm.State(), Run)
    requires ret == Ok || ret == UnsupportedCheck ==> Ready(strm.State(), p0.action)
    modifies sys, c, strm`availIn, strm`nextOut, strm`availOut
    ensures sys.faults == old(sys.faults) + if end == IoError then 1 else 0
    ensures EndFits(end, x, strm.availIn, p.left, tail, flushTimeout, p0.seen)
    ensures p.left + BytesOf(tail) == p0.left && strm.availIn == old(strm.availIn) + BytesOf(tail)
    ensures var unwritten: nat := IO_BUFFER_SIZE - old(strm.availOut);
            if end == IoError then sys.written <= old(sys.written) + unwritten
            else
              && strm.availOut == (if x.EndsFlush() || end != Continues then IO_BUFFER_SIZE else old(strm.availOut))
              && sys.written + (IO_BUFFER_SIZE - strm.availOut) == old(sys.written) + unwritten
    ensures end == Continues ==>
              && p.action == (if ret == StreamEnd then Run else p0.action) && p.eof == p0.eof && p.input == p0.input
              && (p.seen <==> !x.EndsFlush() && p0.seen) && (p.flushNeeded <==> !x.EndsFlush() && p0.flushNeeded)
              && Ready(strm.State(), p.action)
              && (if x.EndsBlock() then Counting(c, o, done + [open + x.Bytes()], 0, p.action)
                  else Counting(c, o, done, open + x.Bytes(), p.action))
  {
    hide Plan, Chop, Rest, Feeding, Ready;
    FeedingFacts(p0.action, c.current, c.blockRemaining, open + x.Bytes());
    FlushFeeds(c.current, c.blockRemaining, open + x.Bytes());
    p, end, tail := p0, Continues, None;
    if ret == StreamEnd && p.action == SyncFlush {
      var failed := WriteOutput(sys, strm);
      if failed {
        end := IoError;
        return;
      }
      p := p.(seen := false, flushNeeded := false, action := Run);
    } else if ret == StreamEnd && p.action == FullBarrier {
      c.NextBlock();
      BlockBegins(c.current);
      p := p.(action := Run);
    } else if ret != Ok && ret != UnsupportedCheck {
      var failed := WriteOutput(sys, strm);
      if failed {
        end := IoError;
      } else if ret == StreamEnd {
        if strm.availIn == 0 && !p.eof {
          var r := IoRead(sys, p.left, 1, flushTimeout, p.seen);
          tail := Some(r);
        }
        p, end := Judge(strm, p, tail, flushTimeout);
      } else {
        end := CoderError;
      }
    }
  }

  // ---------- one turn ----------

  /** What the next call will be, but for its result. */
  ghost predicate Offered(job: Job, p: Progress, trace: seq<Offer>, availIn: nat) {
    && Settled(job, p.left, availIn, trace, p.Bytes())
    && (trace != [] ==> trace[|trace| - 1].GoesOn())
    && (p.input.Some? <==> Unfinished(trace) == Run && LeftOver(trace) == 0)
    && (p.input.None? ==> p.action == Unfinished(trace))
    && p.action in {Run, SyncFlush, FullBarrier, Finish} && (p.action == Run ==> availIn > 0)
    && FitsPlan(BlockAt(job.o, |Between(BytesRead, trace).0|), Between(BytesRead, trace).1 + p.Bytes(), p.action)
    && ReadAsWanted(job, p, trace)
  }

  lemma CallIsOffered(c: Counters, strm: LzmaStream, job: Job, p: Progress, trace: seq<Offer>)
    requires Calling(c, strm, job, p, trace) && (p.action == Run ==> strm.availIn > 0)
    ensures Offered(job, p, trace, strm.availIn)
  {
    hide BlockAt, Between, Sound, FitsPlan, Ready, Counting, Sum, ReadAsWanted, Flags;
    CountingFits(c, job.o, Between(BytesRead, trace).0, Between(BytesRead, trace).1 + p.Bytes(), p.action);
  }

  lemma OfferedFollows(job: Job, p: Progress, trace: seq<Offer>, x: Offer)
    requires Offered(job, p, trace, x.availIn)
    requires x.action == p.action && x.input == p.input
    ensures Follows(job, trace, x)
  {
    hide Sum, BlockAt, Between, Sound, FitsPlan, Reads, Wanted, Begun, Seen, FlushDue, Unfinished, LeftOver;
  }

  lemma OfferedIsLinked(job: Job, p: Progress, trace: seq<Offer>, x: Offer)
    requires Offered(job, p, trace, x.availIn)
    requires x.action == p.action && x.input == p.input && x.consumed <= x.availIn && x.reached
    requires x.produced <= x.availOut == Room(trace)
    ensures Settled(job, p.left, x.availIn - x.consumed, trace + [x], 0)
  {
    OfferedFollows(job, p, trace, x);
    OfferedLinks(job, p, trace, x);
    hide Sum, BlockAt, Between, Sound, FitsPlan, ReadAsWanted, Follows, Linked, Unfinished, LeftOver, Room;
    LinkedIs(trace, x);
    SoundNext(job, trace, x);
    BetweenNext(BytesRead, trace, x);
    SumNext(Between(BytesRead, trace).0, Between(BytesRead, trace).1 + x.Bytes());
  }

  lemma OfferedLinks(job: Job, p: Progress, trace: seq<Offer>, x: Offer)
    requires Offered(job, p, trace, x.availIn)
    requires x.action == p.action && x.input == p.input && x.consumed <= x.availIn && x.reached
    requires x.produced <= x.availOut == Room(trace)
    ensures Linked(trace, x)
  {
    hide Sum, BlockAt, Between, Sound, FitsPlan, ReadAsWanted, Unfinished, LeftOver, Room;
  }

  lemma AnswerIsPassedOn(s: Strm, x: Offer, r: Reply, stalled: bool)
    requires s.availIn == x.availIn && s.availOut == x.availOut && x.consumed == Taken(s, r) && x.produced == Made(s, r)
    requires x.ret == if Overshoots(s, r) then ProgError else Visible(stalled, r)
    ensures x.Answers(r, stalled)
  {
    hide Visible;
  }

  /** The call, and what there is to say about it. */
  method CallRecorded(sys: System, c: Counters, strm: LzmaStream, ghost job: Job, p: Progress,
                      ghost trace: seq<Offer>, reply: Reply)
    returns (x: Offer, failed: bool)
    requires Calling(c, strm, job, p, trace) && (p.action == Run ==> strm.availIn > 0)
    modifies sys, strm
    ensures sys.faults == old(sys.faults) + if failed then 1 else 0
    ensures x.Answers(reply, old(strm.allowBufError)) && x.action == p.action && x.input == p.input
    ensures (x.availIn, x.availOut) == (old(strm.availIn), old(strm.availOut))
    ensures Settled(job, p.left, strm.availIn, trace + [x], 0) && strm.availIn + x.consumed == x.availIn
    ensures x.produced <= x.availOut
    ensures if failed then sys.written <= old(sys.written) + (IO_BUFFER_SIZE - x.availOut) + x.produced
            else
              && strm.availOut == (if x.availOut == x.produced then IO_BUFFER_SIZE else x.availOut - x.produced)
              && sys.written + (IO_BUFFER_SIZE - strm.availOut)
                 == old(sys.written) + (IO_BUFFER_SIZE - x.availOut) + x.produced
    ensures x.ret in {Ok, UnsupportedCheck, StreamEnd} ==> (strm.allowBufError <==> Stalled(reply))
    ensures x.ret == StreamEnd && p.action in {SyncFlush, FullBarrier} ==> Ready(strm.State(), Run)
    ensures x.ret == Ok || x.ret == UnsupportedCheck ==> Ready(strm.State(), p.action)
  {
    hide Plan, Chop, Rest, Sum, BlockAt, Between, Sound, Feeding, FitsPlan, Ready, Counting, Offered, Flags;
    hide Offer.Answers, Visible, Overshoots, Taken, Made, Stalled, ReadAsWanted, Room;
    CallIsOffered(c, strm, job, p, trace);
    var availIn, availOut := strm.availIn, strm.availOut;
    ghost var before, stalled := strm.State(), strm.allowBufError;
    var ret, consumed, produced, reached;
    ret, consumed, produced, reached, failed := CallEncoder(sys, strm, p.action, reply);
    x := Offer(p.action, p.input, availIn, availOut, consumed, produced, ret, reached);
    AnswerIsPassedOn(before, x, reply, stalled);
    OfferedIsLinked(job, p, trace, x);
  }

  /** A turn once there is input, or something to finish. */
  method CallOnce(sys: System, c: Counters, strm: LzmaStream, ghost job: Job, p0: Progress,
                  ghost trace: seq<Offer>, reply: Reply, flushTimeout: bool)
    returns (p: Progress, end: End, x: Offer, tail: Option<Read>)
    requires Calling(c, strm, job, p0, trace) && (p0.action == Run ==> strm.availIn > 0)
    modifies sys, c, strm
    ensures sys.faults == old(sys.faults) + if end == IoError then 1 else 0
    ensures x.Answers(reply, old(strm.allowBufError)) && x.action == p0.action && x.input == p0.input
    ensures end == Continues ==> (strm.allowBufError <==> Stalled(reply))
    ensures (x.availIn, x.availOut) == (old(strm.availIn), old(strm.availOut))
    ensures WrittenFits(end, old(sys.written), sys.written, x, strm.availOut)
    ensures Settled(job, p.left, strm.availIn, trace + [x], BytesOf(tail))
    ensures EndFits(end, x, strm.availIn, p.left, tail, flushTimeout, p0.seen)
    ensures end == Continues ==> Going(c, strm, job, p, trace + [x])
  {
    hide Plan, Chop, Rest, Sum, BlockAt, Between, Sound, Feeding, FitsPlan, Ready, Counting, Offered;
    hide Offer.Answers, Stalled, ReadAsWanted, Seen, FlushDue, Flags, LeftOver, Settled, Going, EndFits, Room;
    hide WrittenFits, RoomAfter;
    ghost var before := sys.written;
    ghost var done, open := Between(BytesRead, trace).0, Between(BytesRead, trace).1;
    FlagsAre(p0, trace);
    var failed;
    x, failed := CallRecorded(sys, c, strm, job, p0, trace, reply);
    p, end, tail := p0, IoError, None;
    if failed {
      p := p.(input := None);
      NotWritten(x, strm.availIn, p.left, flushTimeout, p0.seen);
      WrittenWhenFailed(before, sys.written, x, strm.availOut);
      return;
    }
    BetweenNext(BytesRead, trace, x);
    ghost var availIn, room, middle := strm.availIn, strm.availOut, sys.written;
    p, end, tail := Answered(sys, c, strm, p, x.ret, job.o, x, done, open, flushTimeout);
    p := p.(input := None);
    WrittenIs(end, before, middle, sys.written, x, room, strm.availOut);
    SettledLater(job, p0.left, availIn, trace + [x], BytesOf(tail), p.left, strm.availIn);
    if end == Continues {
      SinceFlushNext(trace, x);
      OutputNext(trace, x);
      NothingMore(end, x, strm.availIn, p.left, tail, flushTimeout, p0.seen);
      StillGoing(c, strm, job, p, trace, x);
    }
  }

  /** With this much written before the call x, and this much after what followed it: all
      output has been written but what is in the buffer, and that too at the end of a
      flush or of the loop. */
  ghost predicate WrittenFits(end: End, before: nat, after: nat, x: Offer, room: nat) {
    && x.produced <= x.availOut <= IO_BUFFER_SIZE
    && if end == IoError then after <= before + (IO_BUFFER_SIZE - x.availOut) + x.produced
       else
         && room == (if end == Continues then RoomAfter(x) else IO_BUFFER_SIZE)
         && after + (IO_BUFFER_SIZE - room) == before + (IO_BUFFER_SIZE - x.availOut) + x.produced
  }

  lemma WrittenIs(end: End, before: nat, middle: nat, after: nat, x: Offer, between: nat, room: nat)
    requires x.produced <= x.availOut <= IO_BUFFER_SIZE
    requires between == if x.availOut == x.produced then IO_BUFFER_SIZE else x.availOut - x.produced
    requires middle + (IO_BUFFER_SIZE - between) == before + (IO_BUFFER_SIZE - x.availOut) + x.produced
    requires end == IoError ==> after <= middle + (IO_BUFFER_SIZE - between)
    requires end != IoError ==>
               && room == (if x.EndsFlush() || end != Continues then IO_BUFFER_SIZE else between)
               && after + (IO_BUFFER_SIZE - room) == middle + (IO_BUFFER_SIZE - between)
    ensures WrittenFits(end, before, after, x, room)
    ensures end == Continues ==> room == RoomAfter(x)
  {
  }

  lemma WrittenWhenFailed(before: nat, after: nat, x: Offer, room: nat)
    requires x.produced <= x.availOut <= IO_BUFFER_SIZE
    requires after <= before + (IO_BUFFER_SIZE - x.availOut) + x.produced
    ensures WrittenFits(IoError, before, after, x, room)
  {
  }

  lemma NotWritten(x: Offer, availIn: nat, left: nat, flushTimeout: bool, seen: bool)
    requires x.action == Finish ==> left == 0
    ensures EndFits(IoError, x, availIn, left, None, flushTimeout, seen)
  {
  }

  lemma NothingMore(end: End, x: Offer, availIn: nat, left: nat, tail: Option<Read>, flushTimeout: bool, seen: bool)
    requires EndFits(end, x, availIn, left, tail, flushTimeout, seen) && end == Continues
    ensures x.GoesOn() && tail.None?
  {
  }

  lemma SettledLater(job: Job, left0: nat, availIn0: nat, trace: seq<Offer>, n: nat, left: nat, availIn: nat)
    requires Settled(job, left0, availIn0, trace, 0) && left + n == left0 && availIn == availIn0 + n
    ensures Settled(job, left, availIn, trace, n)
  {
    hide Sum, Sound, Between, LeftOver;
  }

  /** What must hold for the next turn. */
  lemma StillGoing(c: Counters, strm: LzmaStream, job: Job, p: Progress, trace: seq<Offer>, x: Offer)
    requires Settled(job, p.left, strm.availIn, trace + [x], 0) && x.GoesOn() && p.input.None?
    requires p.action == if x.ret == StreamEnd then Run else x.action
    requires p.action in {Run, SyncFlush, FullBarrier, Finish} && Ready(strm.State(), p.action)
    requires (p.eof <==> p.action == Finish) && (p.eof ==> p.left == 0)
    requires (p.seen <==> Seen(trace + [x])) && (p.flushNeeded <==> FlushDue(trace + [x]))
    requires Counting(c, job.o, Between(BytesRead, trace + [x]).0, Between(BytesRead, trace + [x]).1, p.action)
    requires strm.availOut == Room(trace + [x]) <= IO_BUFFER_SIZE
    ensures Going(c, strm, job, p, trace + [x])
  {
    hide Sum, BlockAt, Between, Sound, Ready, Counting, ReadAsWanted, Seen, FlushDue, Flags, LeftOver, Feeding, Room;
    NothingRead(job, p, trace + [x]);
    assert (trace + [x])[|trace|] == x;
  }

  lemma FlagsAre(p: Progress, trace: seq<Offer>)
    requires Flags(p, trace)
    ensures p.seen <==> p.Bytes() > 0 || Seen(trace)
    ensures p.flushNeeded <==> HasExpired(p.input) || FlushDue(trace)
  {
  }

  lemma NothingRead(job: Job, p: Progress, trace: seq<Offer>)
    requires job.o.Valid() && p.input.None?
    ensures ReadAsWanted(job, p, trace)
    ensures Flags(p, trace) <==> (p.seen <==> Seen(trace)) && (p.flushNeeded <==> FlushDue(trace))
  {
  }

  /** One turn of the loop; without a call if reading fails. */
  method Turn(sys: System, c: Counters, strm: LzmaStream, ghost job: Job, p0: Progress,
              ghost trace: seq<Offer>, reply: Reply, flushTimeout: bool)
    returns (p: Progress, end: End, call: Option<Offer>, tail: Option<Read>)
    requires Going(c, strm, job, p0, trace) && flushTimeout == job.flushTimeout
    modifies sys, c, strm
    ensures sys.faults == old(sys.faults) + if end == IoError then 1 else 0
    ensures call.None? ==>
              && end == IoError && tail.None? && p == p0 && sys.written == old(sys.written)
              && Settled(job, p.left, strm.availIn, trace, 0)
    ensures call.Some? ==>
              && call.value.availOut == old(strm.availOut)
              && WrittenFits(end, old(sys.written), sys.written, call.value, strm.availOut)
              && call.value.Answers(reply, old(strm.allowBufError))
              && Settled(job, p.left, strm.availIn, trace + [call.value], BytesOf(tail))
              && EndFits(end, call.value, strm.availIn, p.left, tail, flushTimeout, Seen(trace + [call.value]))
    ensures end == Continues ==>
              && call.Some? && Going(c, strm, job, p, trace + [call.value])
              && (strm.allowBufError <==> Stalled(reply))
  {
    hide Settled, Counting, Ready, ReadAsWanted, Seen, FlushDue, Flags, Room, WrittenFits;
    p, end, call, tail := p0, IoError, None, None;
    if strm.availIn == 0 && p.action == Run {
      var failed;
      p, failed := FillInput(sys, c, strm, job, p, trace, flushTimeout);
      if failed {
        return;
      }
    }
    FlagsAre(p, trace);
    var x;
    ghost var seen := p.seen;
    p, end, x, tail := CallOnce(sys, c, strm, job, p, trace, reply, flushTimeout);
    SinceFlushNext(trace, x);
    TailSeen(end, x, strm.availIn, p.left, tail, flushTimeout, seen, Seen(trace + [x]));
    call := Some(x);
  }

  /** A flush that has just ended is not the end of the Stream. */
  lemma TailSeen(end: End, x: Offer, availIn: nat, left: nat, tail: Option<Read>, flushTimeout: bool,
                 seen: bool, seenAfter: bool)
    requires EndFits(end, x, availIn, left, tail, flushTimeout, seen)
    requires seenAfter <==> !x.EndsFlush() && seen
    ensures EndFits(end, x, availIn, left, tail, flushTimeout, seenAfter)
  {
  }

  // ---------- coder_normal ----------

  /** The initialisations, and an encoder for .xz installed. */
  method Start(job: Job) returns (c: Counters, strm: LzmaStream, p: Progress)
    requires job.o.Valid()
    ensures fresh(c) && fresh(strm)
    ensures Going(c, strm, job, p, []) && strm.availIn == 0 && strm.availOut == IO_BUFFER_SIZE
    ensures !strm.allowBufError
    ensures p == Progress(Run, job.size, false, false, false, None) && c.blockRemaining == BlockAt(job.o, 0)
  {
    hide Plan, Chop, Rest, Sum, Sound, Between, Ready, Feeding, BlockAt;
    c := new Counters(job.o);
    strm := new LzmaStream();
    var _ := strm.InstallNextCoder({Run, SyncFlush, FullFlush, Finish, FullBarrier}, true);
    strm.nextOut, strm.availOut := At(0), IO_BUFFER_SIZE;
    FreshIsReady(strm.State());
    SumNothing();
    SoundNothing(job);
    SinceNothing();
    OutputOfNothing();
    BlockBegins(c.current);
    c.OpenBlock();
    p := Progress(Run, job.size, false, false, false, None);
  }

  /** The answer before the k-th was one without progress. */
  predicate StalledBefore(replies: seq<Reply>, k: nat)
    requires k <= |replies|
  {
    k > 0 && Stalled(replies[k - 1])
  }

  /** coder_normal, for as many turns as the encoder, any encoder, has answers in
      `replies`; `trace` are the calls made.  The bytes read between FULL_BARRIERs follow
      the plan; so do the bytes taken exactly when the encoder never ends a Block with
      input left over.  The driver rejects no call.  It gives up exactly when a system call
      has failed.  An end of the Stream is a success exactly when the whole file has been
      taken, unless the flush timeout expires while the loop looks for one more byte
      (`tail`). */
  method CoderNormal(sys: System, job: Job, replies: seq<Reply>)
    returns (p: Progress, availIn: nat, end: End, trace: seq<Offer>, tail: Option<Read>)
    requires job.o.Valid()
    modifies sys
    ensures Settled(job, p.left, availIn, trace, BytesOf(tail))
    ensures FollowsPlan(job.o, Between(BytesRead, trace).0, Between(BytesRead, trace).1)
    ensures Between(BytesTaken, trace).0 == Between(BytesRead, trace).0 <==> AllEndWell(trace)
    ensures Sum(Between(BytesTaken, trace).0) + Between(BytesTaken, trace).1 + availIn + p.left == job.size
    ensures |trace| <= |replies|
    ensures forall k :: 0 <= k < |trace| ==> trace[k].Answers(replies[k], StalledBefore(replies, k))
    ensures sys.faults == old(sys.faults) + if end == IoError then 1 else 0
    ensures if end == IoError then sys.written <= old(sys.written) + Output(trace)
            else sys.written + (if end == Continues then IO_BUFFER_SIZE - Room(trace) else 0)
                 == old(sys.written) + Output(trace)
    ensures end == Continues ==> |trace| == |replies|
    ensures end == Success || end == CoderError ==> trace != []
    ensures trace != [] ==>
              EndFits(end, trace[|trace| - 1], availIn, p.left, tail, job.flushTimeout, Seen(trace))
  {
    hide Sum, Sound, Between, Going, FollowsPlan, AllEndWell, Seen, Settled, EndFits, Offer.Answers, Stalled;
    hide WrittenFits, Output, Room;
    var c, strm;
    c, strm, p := Start(job);
    GoingIsSettled(c, strm, job, p, []);
    OutputOfNothing();
    end, trace, tail := Continues, [], None;
    while |trace| < |replies| && end == Continues
      invariant fresh(c) && fresh(strm) && |trace| <= |replies|
      invariant end == Continues ==> Going(c, strm, job, p, trace)
      invariant Settled(job, p.left, strm.availIn, trace, BytesOf(tail))
      invariant forall k :: 0 <= k < |trace| ==> trace[k].Answers(replies[k], StalledBefore(replies, k))
      invariant end == Continues ==> (strm.allowBufError <==> StalledBefore(replies, |trace|))
      invariant sys.faults == old(sys.faults) + if end == IoError then 1 else 0
      invariant Accounted(end, old(sys.written), sys.written, trace)
      invariant end == Continues ==> strm.availOut == Room(trace)
      invariant end == Success || end == CoderError ==> trace != []
      invariant trace != [] ==>
                  EndFits(end, trace[|trace| - 1], strm.availIn, p.left, tail, job.flushTimeout, Seen(trace))
      decreases |replies| - |trace|, end == Continues
    {
      var call;
      ghost var left, availIn0, tail0, written := p.left, strm.availIn, tail, sys.written;
      p, end, call, tail := Turn(sys, c, strm, job, p, trace, replies[|trace|], job.flushTimeout);
      if call.Some? {
        AccountedNext(end, old(sys.written), written, sys.written, trace, call.value, strm.availOut);
        trace := trace + [call.value];
      } else if trace != [] {
        GivesUp(trace[|trace| - 1], availIn0, strm.availIn, left, tail0, job.flushTimeout, Seen(trace));
      }
    }
    availIn := strm.availIn;
    SettledMeans(job, p.left, availIn, trace, BytesOf(tail));
  }

  /** All output has been written but what is in the buffer. */
  ghost predicate Accounted(end: End, start: nat, written: nat, trace: seq<Offer>) {
    if end == IoError then written <= start + Output(trace)
    else
      && Room(trace) <= IO_BUFFER_SIZE
      && written + (if end == Continues then IO_BUFFER_SIZE - Room(trace) else 0) == start + Output(trace)
  }

  lemma AccountedNext(end: End, start: nat, before: nat, after: nat, trace: seq<Offer>, x: Offer, room: nat)
    requires Accounted(Continues, start, before, trace) && x.availOut == Room(trace)
    requires WrittenFits(end, before, after, x, room)
    ensures Accounted(end, start, after, trace + [x])
    ensures end == Continues ==> room == Room(trace + [x])
  {
    hide Output, Room;
    OutputNext(trace, x);
  }

  lemma GivesUp(x: Offer, availIn: nat, after: nat, left: nat, tail: Option<Read>, flushTimeout: bool, seen: bool)
    requires EndFits(Continues, x, availIn, left, tail, flushTimeout, seen)
    ensures EndFits(IoError, x, after, left, None, flushTimeout, seen)
  {
  }

  lemma SettledMeans(job: Job, left: nat, availIn: nat, trace: seq<Offer>, extra: nat)
    requires Settled(job, left, availIn, trace, extra)
    ensures job.o.Valid() && FollowsPlan(job.o, Between(BytesRead, trace).0, Between(BytesRead, trace).1)
    ensures Between(BytesTaken, trace).0 == Between(BytesRead, trace).0 <==> AllEndWell(trace)
    ensures Sum(Between(BytesTaken, trace).0) + Between(BytesTaken, trace).1 + availIn + left == job.size
  {
    hide Sum, Sound, Between, FollowsPlan, AllEndWell;
    BlocksFollowThePlan(job, trace);
    TakenAsReadIff(job, trace);
    BytesConserved(job, trace);
  }

  lemma GoingIsSettled(c: Counters, strm: LzmaStream, job: Job, p: Progress, trace: seq<Offer>)
    requires Going(c, strm, job, p, trace)
    ensures Settled(job, p.left, strm.availIn, trace, 0)
  {
    hide Settled, Counting, Ready, Flags, ReadAsWanted;
  }

  // ---------- an encoder that ends early ----------

  /** A file of 8197 bytes and no Block limits: the loop reads 8192 bytes, the encoder
      takes them and answers RUN with STREAM_END, and the flush timeout expires while the
      loop looks for one more byte.  That is a success with five bytes unread, where the
      source asserts that the end of the file has been seen. */
  method EarlyEnd() returns (end: End, unread: nat, asserted: bool)
    ensures end == Success && unread == 5 && !asserted
  {
    hide Going, Calling, Plan, Chop, Reads;
    var sys := new System();
    var job, input, tail := Job(Options(0, [], false), 8197, true), Got(8192), Some(Expired(0));
    NoBlockLimits(job.o);
    hide BlockAt;
    var c, strm, p := Start(job);
    EarlyReads();
    p := TakeInput(c, strm, job, p, [], input);
    RunIsChosen(c, strm, job, p);
    var ret, _, _, _, failed := CallEncoder(sys, strm, p.action, Reply(StreamEnd, 8192, 0));
    assert ret == StreamEnd && !failed && strm.availIn == 0;
    asserted := SourceAssertion(p.eof, tail);
    p, end := Judge(strm, p, tail, true);
    unread := strm.availIn + p.left;
  }

  lemma EarlyReads()
    ensures Reads(Got(8192), 8197, 8192, true, false) && Reads(Expired(0), 5, 1, true, true)
  {
  }

  lemma NoBlockLimits(o: Options)
    requires o == Options(0, [], false)
    ensures o.Valid() && BlockAt(o, 0) == MAX
  {
    assert Plan(o, 0) == [] && Plan(o, 1) == [MAX];
  }

  lemma RunIsChosen(c: Counters, strm: LzmaStream, job: Job, p: Progress)
    requires Calling(c, strm, job, p, []) && job.o.Valid() && BlockAt(job.o, 0) == MAX && p.input == Some(Got(8192))
    ensures p.action == Run && !p.eof && p.seen && Ready(strm.State(), Run)
  {
    hide Plan, Chop, Sound, Ready, BlockAt, Counting;
    SoundNothing(job);
    SinceNothing();
  }
}
