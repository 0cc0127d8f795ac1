/** The calls of lzma_code that coder_normal makes (src/xz/coder.c), seen from outside:
    what a trace of them must look like, and what follows for the Blocks. */
module BlockTrace {
  import opened BlockSplit
  import opened Common
  import opened StreamState

  const IO_BUFFER_SIZE: nat := 8192

  /** How io_read ends: with all that was asked for, at the end of the file, when
      --flush-timeout has expired, or on an error. */
  datatype Read = Got(n: nat) | AtEof(n: nat) | Expired(n: nat) | Failed

  /** What it may be with `left` bytes left in the file.  The timeout runs only while there
      is input that has not been flushed. */
  predicate Reads(r: Read, left: nat, size: nat, flushTimeout: bool, seen: bool) {
    match r
    case Got(n) => n == size <= left
    case AtEof(n) => n == left < size
    case Expired(n) => flushTimeout && (seen || n > 0) && n < size && n <= left
    case Failed => true
  }

  /** The bytes that a read put into the buffer. */
  function BytesOf(r: Option<Read>): nat {
    if r.None? || r.value.Failed? then 0 else r.value.n
  }

  /** One call of lzma_code: the action, what was read from the file just before it, the
      input and the room for output it was given, the input it took, the output it made,
      what it returned, and whether it reached the encoder. */
  datatype Offer = Offer(action: Action, input: Option<Read>, availIn: nat, availOut: nat, consumed: nat,
                         produced: nat, ret: Ret, reached: bool)
  {
    function Bytes(): nat {
      BytesOf(input)
    }

    /** A flush has been ended. */
    predicate EndsFlush() {
      action == SyncFlush && ret == StreamEnd
    }

    /** A FULL_BARRIER has been ended. */
    predicate EndsBlock() {
      action == FullBarrier && ret == StreamEnd
    }

    /** The encoder has ended the Stream. */
    predicate EndsStream() {
      action in {Run, Finish} && ret == StreamEnd
    }

    /** Another call may follow. */
    predicate GoesOn() {
      ret == Ok || ret == UnsupportedCheck || (action in {SyncFlush, FullBarrier} && ret == StreamEnd)
    }

    /** If this ends a Block, it is with all of the input taken. */
    predicate EndsWell() {
      EndsBlock() ==> consumed == availIn
    }

    /** The call passes on what the encoder answered, unless that overran its buffers;
        `stalled` says whether the answer before it was one without progress. */
    predicate Answers(r: Reply, stalled: bool) {
      if r.inPos > availIn || r.outPos > availOut then consumed == produced == 0 && ret == ProgError
      else consumed == r.inPos && produced == r.outPos && ret == Visible(stalled, r)
    }
  }

  // ---------- the bytes between barriers ----------

  datatype Count = BytesRead | BytesTaken

  function Amount(count: Count, x: Offer): nat {
    if count == BytesRead then x.Bytes() else x.consumed
  }

  /** The sums of the bytes up to each ended barrier, and the sum since the last. */
  function Between(count: Count, trace: seq<Offer>): (seq<nat>, nat) {
    if trace == [] then ([], 0)
    else
      var (done, open) := Between(count, trace[..|trace| - 1]);
      var x := trace[|trace| - 1];
      var n := open + Amount(count, x);
      if x.EndsBlock() then (done + [n], 0) else (done, n)
  }

  lemma BetweenNext(count: Count, trace: seq<Offer>, x: Offer)
    ensures var (done, open) := Between(count, trace);
            Between(count, trace + [x]) == if x.EndsBlock() then (done + [open + Amount(count, x)], 0)
                                           else (done, open + Amount(count, x))
  {
    assert (trace + [x])[..|trace|] == trace;
  }

  // ---------- traces ----------

  /** Input left over by the last call. */
  function LeftOver(trace: seq<Offer>): int {
    if trace == [] then 0 else trace[|trace| - 1].availIn - trace[|trace| - 1].consumed
  }

  /** The action that goes on: a flush, a barrier and the end are repeated until done. */
  function Unfinished(trace: seq<Offer>): Action {
    if trace == [] || trace[|trace| - 1].ret == StreamEnd then Run else trace[|trace| - 1].action
  }

  /** Input has been read since the last flush was ended. */
  predicate Seen(trace: seq<Offer>) {
    trace != [] && !trace[|trace| - 1].EndsFlush()
    && (trace[|trace| - 1].Bytes() > 0 || Seen(trace[..|trace| - 1]))
  }

  /** The flush timeout has expired since then. */
  predicate FlushDue(trace: seq<Offer>) {
    trace != [] && !trace[|trace| - 1].EndsFlush()
    && (HasExpired(trace[|trace| - 1].input) || FlushDue(trace[..|trace| - 1]))
  }

  predicate HasExpired(r: Option<Read>) {
    r.Some? && r.value.Expired?
  }

  lemma SinceFlushNext(trace: seq<Offer>, x: Offer)
    ensures Seen(trace + [x]) <==> !x.EndsFlush() && (x.Bytes() > 0 || Seen(trace))
    ensures FlushDue(trace + [x]) <==> !x.EndsFlush() && (HasExpired(x.input) || FlushDue(trace))
  {
    assert (trace + [x])[..|trace|] == trace;
  }

  lemma SinceNothing()
    ensures !Seen([]) && !FlushDue([])
  {
  }

  /** All output of the calls. */
  function Output(trace: seq<Offer>): nat {
    if trace == [] then 0 else Output(trace[..|trace| - 1]) + trace[|trace| - 1].produced
  }

  /** The room for output after the calls: the buffer is written out when it is full and
      when a flush has been ended. */
  function Room(trace: seq<Offer>): (n: nat)
    ensures 0 < n
  {
    if trace == [] then IO_BUFFER_SIZE else RoomAfter(trace[|trace| - 1])
  }

  function RoomAfter(x: Offer): (n: nat)
    ensures 0 < n
  {
    if x.EndsFlush() || x.availOut <= x.produced then IO_BUFFER_SIZE else x.availOut - x.produced
  }

  lemma OutputNext(trace: seq<Offer>, x: Offer)
    ensures Output(trace + [x]) == Output(trace) + x.produced && Room(trace + [x]) == RoomAfter(x)
  {
    assert (trace + [x])[..|trace|] == trace;
  }

  lemma OutputOfNothing()
    ensures Output([]) == 0 && Room([]) == IO_BUFFER_SIZE
  {
  }

  /** x may be the call after those in trace: the input left over is offered again with
      the pending action, and exactly when there is none, and nothing is pending, more is
      read and another action may begin.  The encoder is called, with room for output, and
      never with RUN and nothing to do. */
  ghost predicate Linked(trace: seq<Offer>, x: Offer) {
    && (trace != [] ==> trace[|trace| - 1].GoesOn())
    && x.reached && x.consumed <= x.availIn && x.availIn == LeftOver(trace) + x.Bytes()
    && x.produced <= x.availOut == Room(trace)
    && (x.input.Some? <==> Unfinished(trace) == Run && LeftOver(trace) == 0)
    && (x.input.None? ==> x.action == Unfinished(trace))
    && x.action in {Run, SyncFlush, FullBarrier, Finish}
    && (x.action == Run ==> x.availIn > 0)
  }

  /** How much io_read is asked for in a Block of n with `open` bytes read before. */
  function Wanted(n: nat, open: nat): nat {
    if n != MAX && n - open < IO_BUFFER_SIZE then if open < n then n - open else 0 else IO_BUFFER_SIZE
  }

  /** The action that begins with what was read: the end, a barrier or a flush, each
      exactly when there is reason for it and for none before it. */
  function Begun(n: nat, fed: nat, r: Read, due: bool): Action {
    if r.AtEof? then Finish
    else if n != MAX && fed == n then FullBarrier
    else if r.Expired? || due then SyncFlush
    else Run
  }

  /** The file, the options and the flush timeout of a run. */
  datatype Job = Job(o: Options, size: nat, flushTimeout: bool)

  /** What x says of its read, with `left` bytes left in the file and n, open as above:
      all that was wanted was asked for, and the action that fits was begun. */
  ghost predicate Supplied(flushTimeout: bool, left: nat, n: nat, open: nat, trace: seq<Offer>, x: Offer) {
    x.input.Some? ==>
      && !x.input.value.Failed?
      && Reads(x.input.value, left, Wanted(n, open), flushTimeout, Seen(trace))
      && x.action == Begun(n, open + x.Bytes(), x.input.value, FlushDue(trace))
  }

  /** With `fed` bytes read for a Block of n: the barrier comes exactly when it is full. */
  ghost predicate FitsPlan(n: nat, fed: nat, action: Action) {
    match action
    case FullBarrier => fed == n != MAX
    case Finish => fed <= n || n == MAX
    case _ => fed < n || n == MAX
  }

  /** Every call is linked to those before it, supplied as wanted, and fits the plan. */
  ghost predicate Sound(job: Job, trace: seq<Offer>)
    requires job.o.Valid()
  {
    trace == []
    || (var before, x := trace[..|trace| - 1], trace[|trace| - 1];
        Sound(job, before) && Linked(before, x) && Follows(job, before, x))
  }

  /** The part of soundness that is about the file and the plan. */
  ghost predicate Follows(job: Job, trace: seq<Offer>, x: Offer)
    requires job.o.Valid()
  {
    var (done, open) := Between(BytesRead, trace);
    var n, left := BlockAt(job.o, |done|), job.size - Sum(done) - open;
    left >= 0 && FitsPlan(n, open + x.Bytes(), x.action) && Supplied(job.flushTimeout, left, n, open, trace, x)
  }

  lemma SoundNext(job: Job, trace: seq<Offer>, x: Offer)
    requires job.o.Valid() && Sound(job, trace) && Linked(trace, x) && Follows(job, trace, x)
    ensures Sound(job, trace + [x])
  {
    hide Linked, Follows;
    assert (trace + [x])[..|trace|] == trace;
  }

  lemma SoundNothing(job: Job)
    requires job.o.Valid()
    ensures Sound(job, []) && Between(BytesRead, []) == ([], 0) && Between(BytesTaken, []) == ([], 0)
  {
  }

  lemma SoundLast(job: Job, trace: seq<Offer>)
    requires job.o.Valid() && Sound(job, trace) && trace != []
    ensures var before, x := trace[..|trace| - 1], trace[|trace| - 1];
            trace == before + [x] && Sound(job, before) && Linked(before, x) && Follows(job, before, x)
  {
    hide Linked, Follows;
  }

  lemma FollowsFits(job: Job, trace: seq<Offer>, x: Offer)
    requires job.o.Valid() && Follows(job, trace, x)
    ensures var (done, open) := Between(BytesRead, trace);
            FitsPlan(BlockAt(job.o, |done|), open + x.Bytes(), x.action)
  {
    hide FitsPlan, BlockAt, Between, Supplied, Sum;
  }

  lemma LinkedIs(trace: seq<Offer>, x: Offer)
    requires Linked(trace, x)
    ensures x.consumed <= x.availIn && x.availIn == LeftOver(trace) + x.Bytes()
    ensures LeftOver(trace + [x]) == x.availIn - x.consumed
  {
  }

  // ---------- what soundness means ----------

  /** Finished Blocks of these sizes, and an open one, are those of the plan. */
  ghost predicate FollowsPlan(o: Options, done: seq<nat>, open: nat)
    requires o.Valid()
  {
    && (forall k :: 0 <= k < |done| ==> done[k] == BlockAt(o, k))
    && (open <= BlockAt(o, |done|) || BlockAt(o, |done|) == MAX)
  }

  lemma FollowsNothing(o: Options)
    requires o.Valid()
    ensures FollowsPlan(o, [], 0)
  {
  }

  lemma FollowsNext(o: Options, done: seq<nat>, open: nat, fed: nat, action: Action)
    requires o.Valid() && FollowsPlan(o, done, open) && FitsPlan(BlockAt(o, |done|), fed, action)
    ensures FollowsPlan(o, done, fed)
    ensures action == FullBarrier ==> FollowsPlan(o, done + [fed], 0)
  {
    hide BlockAt;
  }

  /** The bytes read between FULL_BARRIERs are exactly the planned Blocks, in order. */
  lemma {:induction false} BlocksFollowThePlan(job: Job, trace: seq<Offer>)
    requires job.o.Valid() && Sound(job, trace)
    ensures FollowsPlan(job.o, Between(BytesRead, trace).0, Between(BytesRead, trace).1)
    decreases |trace|
  {
    hide BlockAt, FitsPlan, FollowsPlan, Linked, Between, Sound, Follows;
    if trace == [] {
      SoundNothing(job);
      FollowsNothing(job.o);
    } else {
      SoundLast(job, trace);
      var before, x := trace[..|trace| - 1], trace[|trace| - 1];
      var (done, open) := Between(BytesRead, before);
      BlocksFollowThePlan(job, before);
      FollowsFits(job, before, x);
      BetweenNext(BytesRead, before, x);
      FollowsNext(job.o, done, open, open + x.Bytes(), x.action);
    }
  }

  /** Bytes read are taken or left over, and both count the same barriers. */
  lemma {:induction false} BytesConserved(job: Job, trace: seq<Offer>)
    requires job.o.Valid() && Sound(job, trace)
    ensures LeftOver(trace) >= 0
    ensures |Between(BytesTaken, trace).0| == |Between(BytesRead, trace).0|
    ensures Sum(Between(BytesTaken, trace).0) + Between(BytesTaken, trace).1 + LeftOver(trace)
         == Sum(Between(BytesRead, trace).0) + Between(BytesRead, trace).1
    decreases |trace|
  {
    hide BlockAt, FitsPlan, Linked, Between, Sound, Follows, Sum;
    if trace == [] {
      SoundNothing(job);
      SumNothing();
    } else {
      SoundLast(job, trace);
      var before, x := trace[..|trace| - 1], trace[|trace| - 1];
      BytesConserved(job, before);
      LinkedIs(before, x);
      BetweenNext(BytesRead, before, x);
      BetweenNext(BytesTaken, before, x);
      SumNext(Between(BytesRead, before).0, Between(BytesRead, before).1 + x.Bytes());
      SumNext(Between(BytesTaken, before).0, Between(BytesTaken, before).1 + x.consumed);
    }
  }

  ghost predicate AllEndWell(trace: seq<Offer>) {
    forall k :: 0 <= k < |trace| ==> trace[k].EndsWell()
  }

  lemma NothingEndsWell()
    ensures AllEndWell([])
  {
  }

  lemma EndWellNext(trace: seq<Offer>, x: Offer)
    ensures AllEndWell(trace + [x]) <==> AllEndWell(trace) && x.EndsWell()
  {
    var after := trace + [x];
    assert after[|trace|] == x && forall k :: 0 <= k < |trace| ==> after[k] == trace[k];
  }

  lemma AppendEqual(a: seq<nat>, x: nat, b: seq<nat>, y: nat)
    requires |a| == |b|
    ensures a + [x] == b + [y] <==> a == b && x == y
  {
    if a + [x] == b + [y] {
      assert (a + [x])[..|a|] == a && (b + [y])[..|b|] == b;
      assert (a + [x])[|a|] == x && (b + [y])[|b|] == y;
    }
  }

  lemma EndsWellIff(taken: seq<nat>, open: nat, read: seq<nat>, fed: nat, left: nat, x: Offer)
    requires |taken| == |read| && Sum(taken) + open + left == Sum(read) + fed && x.availIn == left + x.Bytes()
    ensures taken + [open + x.consumed] == read + [fed + x.Bytes()] <==> taken == read && x.consumed == x.availIn
  {
    hide Sum;
    AppendEqual(taken, open + x.consumed, read, fed + x.Bytes());
  }

  /** The bytes taken between FULL_BARRIERs are the planned Blocks too if and only if the
      encoder never ends a barrier with input left over. */
  lemma {:induction false} TakenAsReadIff(job: Job, trace: seq<Offer>)
    requires job.o.Valid() && Sound(job, trace)
    ensures Between(BytesTaken, trace).0 == Between(BytesRead, trace).0 <==> AllEndWell(trace)
    decreases |trace|
  {
    hide BlockAt, FitsPlan, Linked, Between, Sound, Follows, Sum, AllEndWell;
    if trace == [] {
      SoundNothing(job);
      NothingEndsWell();
    } else {
      SoundLast(job, trace);
      var before, x := trace[..|trace| - 1], trace[|trace| - 1];
      TakenAsReadIff(job, before);
      BytesConserved(job, before);
      LinkedIs(before, x);
      BetweenNext(BytesRead, before, x);
      BetweenNext(BytesTaken, before, x);
      EndWellNext(before, x);
      var read, taken := Between(BytesRead, before), Between(BytesTaken, before);
      EndsWellIff(taken.0, taken.1, read.0, read.1, LeftOver(before), x);
    }
  }

  function BarrierOfTen(): Offer {
    Offer(FullBarrier, Some(Got(10)), 10, IO_BUFFER_SIZE, 3, 0, StreamEnd, true)
  }

  lemma BarrierOfTenIs()
    ensures var x := BarrierOfTen();
            && Linked([], x) && FitsPlan(10, 10, x.action) && x.EndsBlock() && x.Bytes() == 10 && x.consumed == 3
            && Supplied(false, 20, 10, 0, [], x) && x.Answers(Reply(StreamEnd, 3, 0), false)
  {
  }

  /** Concretely: a barrier after 10 of 20 bytes, ended by the encoder after 3 of them. */
  lemma EarlyBarrier() returns (trace: seq<Offer>)
    ensures var job := Job(Options(10, [], false), 20, false);
            && job.o.Valid() && Sound(job, trace) && |trace| == 1 && trace[0].Answers(Reply(StreamEnd, 3, 0), false)
            && Between(BytesRead, trace) == ([10], 0) && Between(BytesTaken, trace) == ([3], 0)
  {
    var job, x := Job(Options(10, [], false), 20, false), BarrierOfTen();
    trace := [x];
    BarrierOfTenIs();
    FirstBlockOfTen();
    SumNothing();
    hide BlockAt, Between, Sound, Plan, Chop, Linked, FitsPlan, Offer.Answers, Offer.EndsBlock, BarrierOfTen, Supplied;
    hide Sum;
    SoundNothing(job);
    BetweenNext(BytesRead, [], x);
    BetweenNext(BytesTaken, [], x);
    SoundNext(job, [], x);
    assert [] + [x] == trace;
    var none: seq<nat> := [];
    assert none + [10] == [10] && none + [3] == [3];
  }

  lemma FirstBlockOfTen()
    ensures Options(10, [], false).Valid() && BlockAt(Options(10, [], false), 0) == 10
  {
    var o := Options(10, [], false);
    assert Plan(o, 0) == [] && Plan(o, 1) == [10];
  }
}
