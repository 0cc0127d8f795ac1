/** The lzma_code driver (safe/src/internal/stream_state.rs): a state machine
    around an arbitrary coder.

    `Code` says what one call does to a stream for every answer the coder could
    give; the class at the end is the code itself, proved to do that.  The
    theorems in between are about every sequence of calls. */
module StreamState {
  import opened Common

  datatype Action = Run | SyncFlush | FullFlush | Finish | FullBarrier | Unknown

  datatype Ret =
    | Ok | StreamEnd | NoCheck | UnsupportedCheck | GetCheck | MemError | MemlimitError | FormatError
    | OptionsError | DataError | BufError | ProgError | SeekNeeded | TimedOut

  datatype Sequence = SeqRun | SeqSyncFlush | SeqFullFlush | SeqFinish | SeqFullBarrier | SeqEnd | SeqError

  /** What the coder answered: its return value and the positions it left. */
  datatype Reply = Reply(ret: Ret, inPos: nat, outPos: nat)

  datatype Pointer = Null | At(pos: nat)

  /** struct StreamState; `registered` says whether a coder is installed. */
  datatype Internal = Internal(registered: bool, sequence: Sequence, availIn: nat, supported: set<Action>,
                               allowBufError: bool)

  /** lzma_stream */
  datatype Strm = Strm(nextIn: Pointer, availIn: nat, totalIn: nat, nextOut: Pointer, availOut: nat, totalOut: nat,
                       reservedClear: bool, internal: Option<Internal>)

  /** A call has returned `ret`; `called` says whether the coder was reached. */
  datatype Outcome = Outcome(strm: Strm, ret: Ret, called: bool)

  // ---------- one call ----------

  function SequenceOf(action: Action): Sequence {
    match action
    case Run => SeqRun
    case SyncFlush => SeqSyncFlush
    case FullFlush => SeqFullFlush
    case Finish => SeqFinish
    case FullBarrier => SeqFullBarrier
    case Unknown => SeqError
  }

  /** A flush, barrier or finish is under way. */
  predicate Pending(q: Sequence) {
    q.SeqSyncFlush? || q.SeqFullFlush? || q.SeqFinish? || q.SeqFullBarrier?
  }

  /** In state q only the pending action, with the bytes left over, may be repeated. */
  function EnterRejected(q: Sequence, left: nat, action: Action, availIn: nat): Option<Ret> {
    if q == SeqEnd then Some(StreamEnd)
    else if q == SeqError then Some(ProgError)
    else if Pending(q) && (SequenceOf(action) != q || left != availIn) then Some(ProgError)
    else None
  }

  /** The answer to a call that does not reach the coder, None if it does. */
  function Rejected(s: Strm, action: Action): Option<Ret> {
    if action == Unknown then Some(ProgError)
    else if (s.nextIn == Null && s.availIn != 0) || (s.nextOut == Null && s.availOut != 0) then Some(ProgError)
    else if s.internal.None? || !s.internal.value.registered then Some(ProgError)
    else if !s.reservedClear then Some(OptionsError)
    else
      var i := s.internal.value;
      if action !in i.supported then Some(ProgError)
      else EnterRejected(i.sequence, i.availIn, action, s.availIn)
  }

  /** The coder claims more than it was given. */
  predicate Overshoots(s: Strm, r: Reply) {
    r.inPos > s.availIn || r.outPos > s.availOut
  }

  /** The coder returned OK and neither read nor wrote anything. */
  predicate Stalled(r: Reply) {
    r.ret == Ok && r.inPos == 0 && r.outPos == 0
  }

  function Advance(p: Pointer, n: nat): Pointer {
    if n > 0 && p.At? then At(p.pos + n) else p
  }

  /** The sequence and the buf-error flag after the coder's answer in state q. */
  function Settle(q: Sequence, allow: bool, r: Reply): (Sequence, bool) {
    match r.ret
    case Ok => (q, Stalled(r))
    case TimedOut => (q, false)
    case SeekNeeded => (if q == SeqFinish then SeqRun else q, false)
    case StreamEnd => (if Pending(q) && q != SeqFinish then SeqRun else SeqEnd, false)
    case NoCheck => (q, false)
    case UnsupportedCheck => (q, false)
    case GetCheck => (q, false)
    case MemlimitError => (q, false)
    case _ => (SeqError, allow)
  }

  /** What the application sees of the coder's answer. */
  function Visible(allow: bool, r: Reply): Ret {
    if Stalled(r) && allow then BufError else if r.ret == TimedOut then Ok else r.ret
  }

  /** The stream after the coder's answer in state q. */
  function Moved(s: Strm, q: Sequence, r: Reply): Strm
    requires s.internal.Some? && !Overshoots(s, r)
  {
    var i := s.internal.value;
    var (q', allow') := Settle(q, i.allowBufError, r);
    var left := s.availIn - r.inPos;
    Strm(Advance(s.nextIn, r.inPos), left, (s.totalIn + r.inPos) % U64,
         Advance(s.nextOut, r.outPos), s.availOut - r.outPos, (s.totalOut + r.outPos) % U64,
         s.reservedClear, Some(i.(sequence := q', availIn := left, allowBufError := allow')))
  }

  function Code(s: Strm, action: Action, r: Reply): Outcome {
    var rejection := Rejected(s, action);
    if rejection.Some? then Outcome(s, rejection.value, false)
    else
      var i := s.internal.value;
      var q := SequenceOf(action);
      if Overshoots(s, r) then Outcome(s.(internal := Some(i.(sequence := SeqError))), ProgError, true)
      else Outcome(Moved(s, q, r), Visible(i.allowBufError, r), true)
  }

  // ---------- sequences of calls ----------

  /** Before each call the application sets its fields of the stream as it likes. */
  datatype Call = Call(nextIn: Pointer, availIn: nat, nextOut: Pointer, availOut: nat, reservedClear: bool,
                       action: Action, reply: Reply)

  function Prepare(s: Strm, c: Call): Strm {
    s.(nextIn := c.nextIn, availIn := c.availIn, nextOut := c.nextOut, availOut := c.availOut,
       reservedClear := c.reservedClear)
  }

  function Step(s: Strm, c: Call): Outcome {
    Code(Prepare(s, c), c.action, c.reply)
  }

  function After(s: Strm, calls: seq<Call>): Strm
    decreases |calls|
  {
    if calls == [] then s else After(Step(s, calls[0]).strm, calls[1..])
  }

  /** A stream right after install_next_coder. */
  predicate Fresh(s: Strm) {
    && s.internal.Some? && s.internal.value.registered
    && s.internal.value.sequence == SeqRun && !s.internal.value.allowBufError
    && s.internal.value.availIn == 0 && s.totalIn == 0 && s.totalOut == 0
  }

  lemma {:induction false} AfterAppend(s: Strm, a: seq<Call>, b: seq<Call>)
    ensures After(s, a + b) == After(After(s, a), b)
    decreases |a|
  {
    if a == [] {
      assert a + b == b;
    } else {
      assert (a + b)[1..] == a[1..] + b;
      AfterAppend(Step(s, a[0]).strm, a[1..], b);
    }
  }

  // ---------- no endless loop without progress ----------

  function Plus(x: int): nat { if x > 0 then x else 0 }

  /** Input bytes that the application adds over the calls, on top of what the
      previous call left. */
  function OfferedIn(s: Strm, calls: seq<Call>): nat
    decreases |calls|
  {
    if calls == [] then 0
    else Plus(calls[0].availIn - s.availIn) + OfferedIn(Step(s, calls[0]).strm, calls[1..])
  }

  function OfferedOut(s: Strm, calls: seq<Call>): nat
    decreases |calls|
  {
    if calls == [] then 0
    else Plus(calls[0].availOut - s.availOut) + OfferedOut(Step(s, calls[0]).strm, calls[1..])
  }

  predicate AllOk(s: Strm, calls: seq<Call>)
    decreases |calls|
  {
    || calls == []
    || (Step(s, calls[0]).ret == Ok && calls[0].reply.ret != TimedOut && AllOk(Step(s, calls[0]).strm, calls[1..]))
  }

  /** What a run of OK calls can still last: two calls a byte, and one more unless
      the last call already stalled. */
  function Credit(s: Strm): nat
    requires s.internal.Some?
  {
    2 * (s.availIn + s.availOut) + if s.internal.value.allowBufError then 0 else 1
  }

  lemma OkStepSpendsCredit(s: Strm, c: Call)
    requires s.internal.Some? && Step(s, c).ret == Ok && c.reply.ret != TimedOut
    ensures Step(s, c).strm.internal.Some?
    ensures Credit(Step(s, c).strm) < Credit(Prepare(s, c))
  {
  }

  lemma {:induction false} OkRunIsBounded(s: Strm, calls: seq<Call>)
    requires s.internal.Some? && AllOk(s, calls)
    ensures |calls| <= Credit(s) + 2 * (OfferedIn(s, calls) + OfferedOut(s, calls))
    decreases |calls|
  {
    if calls != [] {
      var t := Step(s, calls[0]).strm;
      OkStepSpendsCredit(s, calls[0]);
      OkRunIsBounded(t, calls[1..]);
    }
  }

  /** In any run from a fresh stream with nothing yet offered, a result other than
      OK comes within 2(N + M) + 2 calls, N and M being the bytes offered. */
  lemma SomethingOtherThanOk(s: Strm, calls: seq<Call>)
    requires Fresh(s) && s.availIn == s.availOut == 0
    requires forall k :: 0 <= k < |calls| ==> calls[k].reply.ret != TimedOut
    requires |calls| >= 2 * (OfferedIn(s, calls) + OfferedOut(s, calls)) + 2
    ensures exists k :: 0 <= k < |calls| && Step(After(s, calls[..k]), calls[k]).ret != Ok
  {
    if forall k :: 0 <= k < |calls| ==> Step(After(s, calls[..k]), calls[k]).ret == Ok {
      OkEverywhere(s, calls);
      OkRunIsBounded(s, calls);
      assert false;
    }
  }

  lemma {:induction false} OkEverywhere(s: Strm, calls: seq<Call>)
    requires forall k :: 0 <= k < |calls| ==> calls[k].reply.ret != TimedOut
    requires forall k :: 0 <= k < |calls| ==> Step(After(s, calls[..k]), calls[k]).ret == Ok
    ensures AllOk(s, calls)
    decreases |calls|
  {
    if calls != [] {
      var t, rest := Step(s, calls[0]).strm, calls[1..];
      assert Step(After(s, calls[..0]), calls[0]).ret == Ok;
      forall k | 0 <= k < |rest|
        ensures rest[k].reply.ret != TimedOut && Step(After(t, rest[..k]), rest[k]).ret == Ok
      {
        assert calls[..k + 1][1..] == rest[..k];
        assert rest[k] == calls[k + 1];
      }
      OkEverywhere(t, rest);
    }
  }

  /** A coder that stalls before every byte it reads. */
  function Dribble(n: nat): (calls: seq<Call>)
    ensures |calls| == 2 * n + 1
  {
    var stall := Call(At(0), n, Null, 0, true, Run, Reply(Ok, 0, 0));
    if n == 0 then [stall] else [stall, stall.(reply := Reply(Ok, 1, 0))] + Dribble(n - 1)
  }

  /** Ready to code with action RUN, the last call having made progress. */
  predicate Idle(s: Strm) {
    && s.internal.Some? && s.internal.value.registered && s.internal.value.sequence == SeqRun
    && !s.internal.value.allowBufError && Run in s.internal.value.supported
  }

  lemma StallThenRead(s: Strm, n: nat)
    requires Idle(s)
    ensures var stall := Call(At(0), n, Null, 0, true, Run, Reply(Ok, 0, 0));
            var t := Step(s, stall).strm;
            var u := Step(t, stall.(reply := Reply(Ok, 1, 0))).strm;
            && Step(s, stall).ret == Ok && t.availIn == n && t.availOut == 0
            && (n > 0 ==> Step(t, stall.(reply := Reply(Ok, 1, 0))).ret == Ok && Idle(u)
                          && u.availIn == n - 1 && u.availOut == 0)
  {
  }

  lemma {:induction false} DribbleIsOk(s: Strm, n: nat)
    requires Idle(s)
    ensures AllOk(s, Dribble(n))
    ensures OfferedIn(s, Dribble(n)) == Plus(n - s.availIn) && OfferedOut(s, Dribble(n)) == 0
    decreases n
  {
    hide Step, Idle;
    var calls := Dribble(n);
    var t := Step(s, calls[0]).strm;
    StallThenRead(s, n);
    assert calls[0] == Call(At(0), n, Null, 0, true, Run, Reply(Ok, 0, 0));
    if n == 0 {
      assert calls[1..] == [];
    } else {
      var u := Step(t, calls[1]).strm;
      assert calls[1..][1..] == Dribble(n - 1);
      DribbleIsOk(u, n - 1);
      assert AllOk(t, calls[1..]);
      assert OfferedIn(t, calls[1..]) == 0 && OfferedOut(t, calls[1..]) == 0;
    }
  }

  /** The bound is exact: for every N there is a run of 2N + 1 calls, all OK. */
  lemma BoundIsTight(s: Strm, n: nat) returns (calls: seq<Call>)
    requires Fresh(s) && s.availIn == s.availOut == 0 && Run in s.internal.value.supported
    ensures AllOk(s, calls) && OfferedIn(s, calls) == n && OfferedOut(s, calls) == 0 && |calls| == 2 * n + 1
  {
    calls := Dribble(n);
    DribbleIsOk(s, n);
  }

  // ---------- BUF_ERROR ----------

  /** Of the calls that reached the coder, the last one stalled. */
  predicate LastCallStalled(s: Strm, calls: seq<Call>)
    decreases |calls|
  {
    if calls == [] then false
    else
      var c, before := calls[|calls| - 1], calls[..|calls| - 1];
      if Step(After(s, before), c).called then Stalled(c.reply) else LastCallStalled(s, before)
  }

  lemma AfterLast(s: Strm, calls: seq<Call>)
    requires calls != []
    ensures After(s, calls) == Step(After(s, calls[..|calls| - 1]), calls[|calls| - 1]).strm
  {
    var k := |calls| - 1;
    assert calls == calls[..k] + [calls[k]];
    AfterAppend(s, calls[..k], [calls[k]]);
    assert After(After(s, calls[..k]), [calls[k]]) == Step(After(s, calls[..k]), calls[k]).strm;
  }

  /** Until an error the flag says exactly whether the last coder call stalled. */
  lemma {:induction false} FlagIsLastCallStalled(s: Strm, calls: seq<Call>)
    requires Fresh(s)
    ensures After(s, calls).internal.Some?
    ensures After(s, calls).internal.value.sequence != SeqError ==>
              After(s, calls).internal.value.allowBufError == LastCallStalled(s, calls)
    decreases |calls|
  {
    if calls != [] {
      FlagIsLastCallStalled(s, calls[..|calls| - 1]);
      AfterLast(s, calls);
    }
  }

  /** BUF_ERROR is returned exactly when this call and the previous one that
      reached the coder both returned OK without progress -- or when the coder
      itself returns it, which the source rules out by a debug assertion. */
  lemma BufErrorIff(s: Strm, calls: seq<Call>, c: Call)
    requires Fresh(s)
    ensures var t := After(s, calls);
            Step(t, c).ret == BufError
            <==> Step(t, c).called
                 && ((Stalled(c.reply) && LastCallStalled(s, calls))
                     || (c.reply.ret == BufError && !Overshoots(Prepare(t, c), c.reply)))
  {
    FlagIsLastCallStalled(s, calls);
  }

  /** A coder that returns BUF_ERROR itself is passed on, although nothing stalled. */
  lemma BufErrorFromCoder(s: Strm)
    requires Fresh(s) && Run in s.internal.value.supported
    ensures var c := Call(At(0), 1, At(0), 1, true, Run, Reply(BufError, 0, 0));
            Step(s, c).called && Step(s, c).ret == BufError && !Stalled(c.reply) && !LastCallStalled(s, [])
  {
  }

  // ---------- flush, barrier and finish episodes ----------

  function ConsumedBy(s: Strm, c: Call): nat {
    if Step(s, c).called && !Overshoots(Prepare(s, c), c.reply) then c.reply.inPos else 0
  }

  function ProducedBy(s: Strm, c: Call): nat {
    if Step(s, c).called && !Overshoots(Prepare(s, c), c.reply) then c.reply.outPos else 0
  }

  function Consumed(s: Strm, calls: seq<Call>): nat
    decreases |calls|
  {
    if calls == [] then 0 else ConsumedBy(s, calls[0]) + Consumed(Step(s, calls[0]).strm, calls[1..])
  }

  function Produced(s: Strm, calls: seq<Call>): nat
    decreases |calls|
  {
    if calls == [] then 0 else ProducedBy(s, calls[0]) + Produced(Step(s, calls[0]).strm, calls[1..])
  }

  function SequenceAt(s: Strm): Sequence {
    if s.internal.Some? then s.internal.value.sequence else SeqRun
  }

  /** The stream stays in sequence q over the calls. */
  predicate Stays(s: Strm, q: Sequence, calls: seq<Call>)
    decreases |calls|
  {
    SequenceAt(s) == q && (calls == [] || Stays(Step(s, calls[0]).strm, q, calls[1..]))
  }

  /** A rejected call is never OK, and it is as if it had not been made: the next
      call does what it would have done. */
  lemma RejectedIsTransparent(s: Strm, rejected: Call, next: Call)
    requires !Step(s, rejected).called
    ensures Step(s, rejected).ret != Ok
    ensures Step(Step(s, rejected).strm, next) == Step(s, next)
  {
  }

  /** The driver goes to its error state. */
  predicate Fails(s: Strm, r: Reply) {
    Overshoots(s, r) || r.ret in {MemError, FormatError, OptionsError, DataError, BufError, ProgError}
  }

  /** An episode ends exactly by an answer of STREAM_END, by an error, or by
      SEEK_NEEDED while finishing; a flush or barrier goes back to RUN. */
  lemma EpisodeEnds(s: Strm, c: Call)
    requires Pending(SequenceAt(s))
    ensures var o, r, fails := Step(s, c), c.reply, Fails(Prepare(s, c), c.reply);
            SequenceAt(o.strm) == if !o.called then SequenceAt(s)
                                  else if fails then SeqError
                                  else if r.ret == StreamEnd
                                    then (if SequenceAt(s) == SeqFinish then SeqEnd else SeqRun)
                                  else if r.ret == SeekNeeded && SequenceAt(s) == SeqFinish then SeqRun
                                  else SequenceAt(s)
  {
  }

  /** During an episode every call that reaches the coder carries the episode's
      action and offers exactly the bytes left over, and the bytes consumed plus
      the bytes left stay what they were. */
  lemma {:induction false} EpisodeKeeps(s: Strm, q: Sequence, calls: seq<Call>)
    requires Pending(q) && s.internal.Some? && Stays(s, q, calls)
    ensures After(s, calls).internal.Some?
    ensures Consumed(s, calls) + After(s, calls).internal.value.availIn == s.internal.value.availIn
    ensures forall k :: 0 <= k < |calls| && Step(After(s, calls[..k]), calls[k]).called ==>
              SequenceOf(calls[k].action) == q && calls[k].availIn == After(s, calls[..k]).internal.value.availIn
    decreases |calls|
  {
    if calls != [] {
      var t, rest := Step(s, calls[0]).strm, calls[1..];
      EpisodeKeeps(t, q, rest);
      forall k | 0 <= k < |calls| && Step(After(s, calls[..k]), calls[k]).called
        ensures SequenceOf(calls[k].action) == q && calls[k].availIn == After(s, calls[..k]).internal.value.availIn
      {
        if k > 0 {
          assert calls[..k][1..] == rest[..k - 1];
          assert rest[k - 1] == calls[k];
        }
      }
    }
  }

  /** From the call that starts the episode on, everything the application offered
      to it is either consumed or still waiting. */
  lemma EpisodeFromStart(s: Strm, first: Call, calls: seq<Call>)
    requires SequenceAt(s) == SeqRun && Step(s, first).called && first.action != Run
    requires Stays(Step(s, first).strm, SequenceOf(first.action), calls)
    ensures After(s, [first] + calls).internal.Some?
    ensures Consumed(s, [first] + calls) + After(s, [first] + calls).internal.value.availIn == first.availIn
  {
    var t := Step(s, first).strm;
    assert ([first] + calls)[1..] == calls;
    EpisodeKeeps(t, SequenceOf(first.action), calls);
  }

  // ---------- totals ----------

  /** total_in and total_out count, modulo 2^64, what the coder reported. */
  lemma {:induction false} TotalsAreSums(s: Strm, calls: seq<Call>)
    requires s.totalIn < U64 && s.totalOut < U64
    ensures After(s, calls).totalIn == (s.totalIn + Consumed(s, calls)) % U64
    ensures After(s, calls).totalOut == (s.totalOut + Produced(s, calls)) % U64
    decreases |calls|
  {
    hide Step, ConsumedBy, ProducedBy;
    if calls != [] {
      var t := Step(s, calls[0]).strm;
      TotalsStep(s, calls[0]);
      TotalsAreSums(t, calls[1..]);
      ModAdd(s.totalIn + ConsumedBy(s, calls[0]), Consumed(t, calls[1..]));
      ModAdd(s.totalOut + ProducedBy(s, calls[0]), Produced(t, calls[1..]));
    }
  }

  lemma TotalsStep(s: Strm, c: Call)
    requires s.totalIn < U64 && s.totalOut < U64
    ensures Step(s, c).strm.totalIn == (s.totalIn + ConsumedBy(s, c)) % U64
    ensures Step(s, c).strm.totalOut == (s.totalOut + ProducedBy(s, c)) % U64
    ensures Step(s, c).strm.totalIn < U64 && Step(s, c).strm.totalOut < U64
  {
  }

  /** Each call moves the pointers on and the counts down by what it consumed and
      produced. */
  lemma PointersFollow(s: Strm, c: Call)
    ensures var t := Step(s, c).strm;
            && t.availIn + ConsumedBy(s, c) == c.availIn
            && t.availOut + ProducedBy(s, c) == c.availOut
            && t.nextIn == (if c.nextIn.At? then At(c.nextIn.pos + ConsumedBy(s, c)) else Null)
            && t.nextOut == (if c.nextOut.At? then At(c.nextOut.pos + ProducedBy(s, c)) else Null)
            && (ConsumedBy(s, c) > 0 ==> c.nextIn.At?) && (ProducedBy(s, c) > 0 ==> c.nextOut.At?)
  {
  }

  // ---------- after the end ----------

  /** After STREAM_END or an error the coder is never called again. */
  lemma {:induction false} TerminalForever(s: Strm, calls: seq<Call>, c: Call)
    requires SequenceAt(s) == SeqEnd || SequenceAt(s) == SeqError
    ensures After(s, calls).internal == s.internal
    ensures var o := Step(After(s, calls), c);
            && !o.called && o.strm.internal == s.internal
            && (o.ret == ProgError || o.ret == OptionsError || (o.ret == StreamEnd && SequenceAt(s) == SeqEnd))
    decreases |calls|
  {
    if calls != [] {
      TerminalForever(Step(s, calls[0]).strm, calls[1..], c);
    }
  }

  // ---------- the code ----------

  /** lzma_stream with the StreamState behind its `internal` pointer. */
  class LzmaStream {
    var nextIn: Pointer
    var availIn: nat
    var totalIn: nat
    var nextOut: Pointer
    var availOut: nat
    var totalOut: nat
    var reservedClear: bool
    // struct StreamState
    var hasInternal: bool
    var registered: bool
    var sequence: Sequence
    var savedAvailIn: nat
    var supported: set<Action>
    var allowBufError: bool

    function State(): Strm
      reads this
    {
      Strm(nextIn, availIn, totalIn, nextOut, availOut, totalOut, reservedClear,
           if hasInternal then Some(Internal(registered, sequence, savedAvailIn, supported, allowBufError)) else None)
    }

    /** LZMA_STREAM_INIT */
    constructor ()
      ensures State() == Strm(Null, 0, 0, Null, 0, 0, true, None)
    {
      nextIn, availIn, totalIn := Null, 0, 0;
      nextOut, availOut, totalOut := Null, 0, 0;
      reservedClear, hasInternal := true, false;
      registered, sequence, savedAvailIn, supported, allowBufError := false, SeqRun, 0, {}, false;
    }

    /** lzma_strm_init; `memory` says whether an allocation succeeds. */
    method StrmInit(memory: bool) returns (ret: Ret)
      modifies this
      ensures ret == if old(hasInternal) || memory then Ok else MemError
      ensures ret != Ok ==> State() == old(State())
      ensures ret == Ok ==>
                State() == old(State()).(totalIn := 0, totalOut := 0,
                                 internal := Some(Internal(old(hasInternal) && old(registered), SeqRun, 0, {}, false)))
    {
      if !hasInternal {
        if !memory {
          return MemError;
        }
        registered := false;
        hasInternal := true;
      }
      sequence := SeqRun;
      savedAvailIn := 0;
      supported := {};
      allowBufError := false;
      totalIn := 0;
      totalOut := 0;
      return Ok;
    }

    /** install_next_coder: whatever state the stream was in, the new coder starts
        fresh. */
    method InstallNextCoder(actions: set<Action>, memory: bool) returns (ret: Ret)
      modifies this
      ensures ret == if old(hasInternal) || memory then Ok else MemError
      ensures ret != Ok ==> State() == old(State())
      ensures ret == Ok ==>
                && Fresh(State())
                && State() == old(State()).(totalIn := 0, totalOut := 0,
                                            internal := Some(Internal(true, SeqRun, 0, actions, false)))
    {
      ret := StrmInit(memory);
      if ret != Ok {
        return ret;
      }
      registered := false;  // end_next
      registered := true;
      supported := actions;
      allowBufError := false;
      return Ok;
    }

    /** The sequence that an action starts or goes on with. */
    method Enter(action: Action) returns (rejection: Option<Ret>)
      requires action != Unknown
      modifies this`sequence
      ensures rejection == EnterRejected(old(sequence), savedAvailIn, action, availIn)
      ensures sequence == if rejection.None? then SequenceOf(action) else old(sequence)
    {
      match sequence {
        case SeqRun =>
          match action {
            case Run =>
            case SyncFlush => sequence := SeqSyncFlush;
            case FullFlush => sequence := SeqFullFlush;
            case Finish => sequence := SeqFinish;
            case FullBarrier => sequence := SeqFullBarrier;
            case Unknown => assert false;
          }
        case SeqSyncFlush =>
          if action != SyncFlush || savedAvailIn != availIn {
            return Some(ProgError);
          }
        case SeqFullFlush =>
          if action != FullFlush || savedAvailIn != availIn {
            return Some(ProgError);
          }
        case SeqFinish =>
          if action != Finish || savedAvailIn != availIn {
            return Some(ProgError);
          }
        case SeqFullBarrier =>
          if action != FullBarrier || savedAvailIn != availIn {
            return Some(ProgError);
          }
        case SeqEnd =>
          return Some(StreamEnd);
        case SeqError =>
          return Some(ProgError);
      }
      return None;
    }

    /** lzma_code_impl, up to the coder: checks, and the action's sequence. */
    method Admit(action: Action) returns (rejection: Option<Ret>)
      modifies this`sequence
      ensures rejection == Rejected(old(State()), action)
      ensures sequence == if rejection.None? then SequenceOf(action) else old(sequence)
    {
      hide EnterRejected, SequenceOf;
      if action == Unknown {
        return Some(ProgError);
      }
      if (nextIn == Null && availIn != 0) || (nextOut == Null && availOut != 0) || !hasInternal {
        return Some(ProgError);
      }
      if !registered {
        return Some(ProgError);
      }
      if !reservedClear {
        return Some(OptionsError);
      }
      if action !in supported {
        return Some(ProgError);
      }
      rejection := Enter(action);
    }

    /** The byte accounting after the coder has answered. */
    method Account(inPos: nat, outPos: nat)
      requires totalIn < U64 && totalOut < U64 && inPos <= availIn && outPos <= availOut
      requires (nextIn == Null ==> availIn == 0) && (nextOut == Null ==> availOut == 0)
      modifies this`nextIn, this`availIn, this`totalIn, this`nextOut, this`availOut, this`totalOut, this`savedAvailIn
      ensures nextIn == Advance(old(nextIn), inPos) && availIn == old(availIn) - inPos
      ensures nextOut == Advance(old(nextOut), outPos) && availOut == old(availOut) - outPos
      ensures totalIn == (old(totalIn) + inPos) % U64 && totalOut == (old(totalOut) + outPos) % U64
      ensures savedAvailIn == availIn
    {
      if inPos > 0 {
        nextIn := At(nextIn.pos + inPos);
        availIn := availIn - inPos;
        totalIn := (totalIn + inPos) % U64;
      }
      if outPos > 0 {
        nextOut := At(nextOut.pos + outPos);
        availOut := availOut - outPos;
        totalOut := (totalOut + outPos) % U64;
      }
      savedAvailIn := availIn;
    }

    /** The final match on the coder's return value. */
    method Conclude(reply: Reply) returns (ret: Ret)
      modifies this`sequence, this`allowBufError
      ensures (sequence, allowBufError) == Settle(old(sequence), old(allowBufError), reply)
      ensures ret == Visible(old(allowBufError), reply)
    {
      ret := reply.ret;
      match ret {
        case Ok =>
          if reply.outPos == 0 && reply.inPos == 0 {
            if allowBufError {
              ret := BufError;
            } else {
              allowBufError := true;
            }
          } else {
            allowBufError := false;
          }
        case TimedOut =>
          allowBufError := false;
          ret := Ok;
        case SeekNeeded =>
          allowBufError := false;
          if sequence == SeqFinish {
            sequence := SeqRun;
          }
        case StreamEnd =>
          if sequence == SeqSyncFlush || sequence == SeqFullFlush || sequence == SeqFullBarrier {
            sequence := SeqRun;
          } else {
            sequence := SeqEnd;
          }
          allowBufError := false;
        case NoCheck =>
          allowBufError := false;
        case UnsupportedCheck =>
          allowBufError := false;
        case GetCheck =>
          allowBufError := false;
        case MemlimitError =>
          allowBufError := false;
        case _ =>
          sequence := SeqError;
      }
    }

    /** The part after the coder's answer, which stays within the buffers. */
    method Settled(reply: Reply) returns (ret: Ret)
      requires totalIn < U64 && totalOut < U64 && hasInternal && !Overshoots(State(), reply)
      requires (nextIn == Null ==> availIn == 0) && (nextOut == Null ==> availOut == 0)
      modifies this
      ensures State() == Moved(old(State()), old(sequence), reply)
      ensures ret == Visible(old(allowBufError), reply)
      ensures totalIn < U64 && totalOut < U64
    {
      hide Settle, Visible, Advance;
      Account(reply.inPos, reply.outPos);
      ret := Conclude(reply);
    }

    /** lzma_code_impl, the coder answering `reply` if it is reached. */
    method LzmaCode(action: Action, reply: Reply) returns (ret: Ret, called: bool)
      requires totalIn < U64 && totalOut < U64
      modifies this
      ensures Outcome(State(), ret, called) == Code(old(State()), action, reply)
      ensures totalIn < U64 && totalOut < U64
    {
      hide Moved, Visible, SequenceOf, EnterRejected;
      AdmittedHasPointers(State(), action);
      ghost var before := State();
      var rejection := Admit(action);
      hide Rejected;
      if rejection.Some? {
        return rejection.value, false;
      }
      if reply.inPos > availIn || reply.outPos > availOut {
        sequence := SeqError;
        return ProgError, true;
      }
      MovedFrom(before, State(), sequence, reply);
      ret := Settled(reply);
      called := true;
    }
  }

  /** The sequence before the call does not matter once the action has set it. */
  lemma MovedFrom(s: Strm, t: Strm, q: Sequence, r: Reply)
    requires s.internal.Some? && t == s.(internal := Some(s.internal.value.(sequence := q))) && !Overshoots(s, r)
    ensures Moved(t, q, r) == Moved(s, q, r)
  {
    hide Settle, Advance;
  }

  lemma AdmittedHasPointers(s: Strm, action: Action)
    ensures Rejected(s, action).None? ==>
              s.internal.Some? && (s.nextIn == Null ==> s.availIn == 0) && (s.nextOut == Null ==> s.availOut == 0)
  {
  }
}
