/** What an application sees of lzma_code, told without the internal state: from the
    calls made so far and the coder's answers to them. */
module StreamProtocol {
  import opened Common
  import opened StreamState

  /** The application's part of a call is in order. */
  predicate WellFormed(c: Call) {
    && c.action != Unknown && c.reservedClear
    && (c.nextIn == Null ==> c.availIn == 0) && (c.nextOut == Null ==> c.availOut == 0)
  }

  predicate Overran(c: Call) {
    c.reply.inPos > c.availIn || c.reply.outPos > c.availOut
  }

  /** The coder's answer was the last one it gives: an error. */
  predicate Failed(c: Call) {
    Overran(c) || c.reply.ret in {MemError, FormatError, OptionsError, DataError, BufError, ProgError}
  }

  /** The coder ended the whole stream, not only a flush or a barrier. */
  predicate EndedStream(c: Call) {
    !Overran(c) && c.reply.ret == StreamEnd && c.action in {Run, Finish}
  }

  /** Of the calls, the last one that reached the coder. */
  function LastReached(s: Strm, calls: seq<Call>): Option<Call>
    decreases |calls|
  {
    if calls == [] then None
    else
      var c, before := calls[|calls| - 1], calls[..|calls| - 1];
      if Step(After(s, before), c).called then Some(c) else LastReached(s, before)
  }

  /** d may reach the coder when `last` was the call before it that did. */
  predicate MayFollow(last: Option<Call>, d: Call) {
    match last
    case None => true
    case Some(c) =>
      && !Failed(c) && !EndedStream(c)
      && (|| c.action == Run || c.reply.ret == StreamEnd || (c.action == Finish && c.reply.ret == SeekNeeded)
          || (d.action == c.action && d.availIn == c.availIn - c.reply.inPos))
  }

  /** The sequence that such a call leaves. */
  function Phase(last: Option<Call>): Sequence {
    match last
    case None => SeqRun
    case Some(c) =>
      if Failed(c) then SeqError
      else if EndedStream(c) then SeqEnd
      else if c.reply.ret == StreamEnd || (c.action == Finish && c.reply.ret == SeekNeeded) then SeqRun
      else SequenceOf(c.action)
  }

  /** The state is what the last call that reached the coder made it. */
  ghost predicate Follows(s: Strm, t: Strm, last: Option<Call>) {
    && s.internal.Some? && t.internal.Some?
    && t.internal.value.registered && t.internal.value.supported == s.internal.value.supported
    && t.internal.value.sequence == Phase(last)
    && (last.Some? ==> last.value.action != Unknown)
    && (last.Some? && !Failed(last.value) ==> t.internal.value.availIn == last.value.availIn - last.value.reply.inPos)
  }

  lemma FollowsRejected(s: Strm, t: Strm, last: Option<Call>, c: Call)
    requires Follows(s, t, last) && !Step(t, c).called
    ensures Follows(s, Step(t, c).strm, last)
  {
    hide Phase;
  }

  lemma FollowsReached(s: Strm, t: Strm, c: Call)
    requires s.internal.Some? && t.internal.Some? && t.internal.value.registered
    requires t.internal.value.supported == s.internal.value.supported && Step(t, c).called
    ensures Follows(s, Step(t, c).strm, Some(c))
  {
  }

  lemma FollowsKeeps(s: Strm, t: Strm, last: Option<Call>)
    requires Follows(s, t, last)
    ensures s.internal.Some? && t.internal.Some? && t.internal.value.registered
    ensures t.internal.value.supported == s.internal.value.supported
  {
    hide Phase;
  }

  lemma FollowsNext(s: Strm, t: Strm, last: Option<Call>, c: Call)
    requires Follows(s, t, last)
    ensures Follows(s, Step(t, c).strm, if Step(t, c).called then Some(c) else last)
  {
    hide *;
    if Step(t, c).called {
      FollowsKeeps(s, t, last);
      FollowsReached(s, t, c);
    } else {
      FollowsRejected(s, t, last, c);
    }
  }

  lemma ReachedWhen(s: Strm, t: Strm, last: Option<Call>, d: Call)
    requires Follows(s, t, last)
    ensures s.internal.Some?
    ensures Step(t, d).called <==> WellFormed(d) && d.action in s.internal.value.supported && MayFollow(last, d)
  {
  }

  lemma {:induction false} StateFollows(s: Strm, calls: seq<Call>)
    requires Fresh(s)
    ensures Follows(s, After(s, calls), LastReached(s, calls))
    decreases |calls|
  {
    hide Follows, Step;
    if calls == [] {
      FollowsAtStart(s);
    } else {
      var before, c := calls[..|calls| - 1], calls[|calls| - 1];
      StateFollows(s, before);
      AfterLast(s, calls);
      FollowsNext(s, After(s, before), LastReached(s, before), c);
    }
  }

  lemma FollowsAtStart(s: Strm)
    requires Fresh(s)
    ensures Follows(s, s, None)
  {
  }

  /** In every run a call reaches the coder exactly when it is well-formed, its action is
      supported, and it may follow the last call that did. */
  lemma ReachedIff(s: Strm, calls: seq<Call>, d: Call)
    requires Fresh(s)
    ensures Step(After(s, calls), d).called
       <==> WellFormed(d) && d.action in s.internal.value.supported && MayFollow(LastReached(s, calls), d)
  {
    StateFollows(s, calls);
    hide *;
    ReachedWhen(s, After(s, calls), LastReached(s, calls), d);
  }

  /** What a call that reached the coder returns. */
  function Passed(d: Call, stalledBefore: bool): Ret {
    if Overran(d) then ProgError
    else if d.reply.ret == TimedOut then Ok
    else if d.reply == Reply(Ok, 0, 0) && stalledBefore then BufError
    else d.reply.ret
  }

  /** The result of any call in any run. */
  lemma ResultIs(s: Strm, calls: seq<Call>, d: Call)
    requires Fresh(s)
    ensures var last, o := LastReached(s, calls), Step(After(s, calls), d);
            o.ret ==
            if o.called then Passed(d, last.Some? && last.value.reply == Reply(Ok, 0, 0))
            else if WellFormed(d) && d.action in s.internal.value.supported && last.Some? && EndedStream(last.value)
              then StreamEnd
            else if WellFormed(d.(reservedClear := true)) && !d.reservedClear then OptionsError
            else ProgError
  {
    StateFollows(s, calls);
    FlagIsLastCallStalled(s, calls);
    StalledIsLastReached(s, calls);
    hide After, LastReached, LastCallStalled;
  }

  lemma {:induction false} StalledIsLastReached(s: Strm, calls: seq<Call>)
    ensures LastCallStalled(s, calls)
       <==> LastReached(s, calls).Some? && LastReached(s, calls).value.reply == Reply(Ok, 0, 0)
    decreases |calls|
  {
    hide Step, After;
    if calls != [] {
      StalledIsLastReached(s, calls[..|calls| - 1]);
    }
  }

  // ---------- from any stream ----------

  lemma EndsThere(s: Strm, c: Call)
    requires Step(s, c).called && (EndedStream(c) || Failed(c))
    ensures s.internal.Some? && s.internal.value.registered
    ensures Step(s, c).strm.internal.Some?
    ensures var i := Step(s, c).strm.internal.value;
            && i.registered && i.supported == s.internal.value.supported
            && i.sequence == if EndedStream(c) then SeqEnd else SeqError
  {
  }

  lemma ResultAtTheEnd(t: Strm, d: Call)
    requires SequenceAt(t) == SeqEnd || SequenceAt(t) == SeqError
    requires t.internal.Some? && t.internal.value.registered && WellFormed(d)
    ensures SequenceAt(t) == SeqEnd && d.action in t.internal.value.supported ==> Step(t, d).ret == StreamEnd
    ensures SequenceAt(t) == SeqError ==> Step(t, d).ret == ProgError
  {
  }

  /** Once the coder has ended the stream, or failed, no later call reaches it; after the
      end, calls that are in order get STREAM_END. */
  lemma AfterTheEnd(s: Strm, c: Call, later: seq<Call>, d: Call)
    requires Step(s, c).called && (EndedStream(c) || Failed(c))
    ensures var o := Step(After(Step(s, c).strm, later), d);
            && !o.called
            && (EndedStream(c) && WellFormed(d) && s.internal.Some? && d.action in s.internal.value.supported ==>
                  o.ret == StreamEnd)
            && (Failed(c) && WellFormed(d) ==> o.ret == ProgError)
  {
    EndsThere(s, c);
    hide After, Step, WellFormed, EndedStream;
    TerminalForever(Step(s, c).strm, later, d);
    if WellFormed(d) {
      ResultAtTheEnd(After(Step(s, c).strm, later), d);
    }
    NotBoth(c);
  }

  lemma NotBoth(c: Call)
    ensures !(EndedStream(c) && Failed(c))
  {
  }

  /** After any other answer a call that is in order reaches the coder exactly when it
      may follow. */
  lemma AfterOthers(s: Strm, c: Call, d: Call)
    requires Step(s, c).called && !EndedStream(c) && !Failed(c)
    requires WellFormed(d) && d.action in s.internal.value.supported
    ensures Step(Step(s, c).strm, d).called <==> MayFollow(Some(c), d)
  {
  }
}
