/** htraced_rcv_flush: exactly when it keeps its promise to return only after every span
    accepted before it has been settled. */
module FlushGuarantee {
  import opened Span
  import opened WriteSpans
  import opened Transmitter
  import opened TransmitterSafety

  // ---------------------------------------------------------------- history only grows

  lemma StepGrows(c: Config, s: State, e: Event)
    requires Enabled(s, e)
    ensures s.accepted <= Next(c, s, e).accepted
    ensures SettledSpans(s.settled) <= SettledSpans(Next(c, s, e).settled)
  {
    hide Next, SettledSpans;
    if e.Xmit? && s.pc.Sent? {
      ClearGrows(c, s, e);
      SettledOne(s.settled, Batch(s.inFlight, s.pc.attempts, s.pc.delivered));
    } else {
      OtherStepGrows(c, s, e);
    }
  }

  lemma ClearGrows(c: Config, s: State, e: Event)
    requires e.Xmit? && s.pc.Sent?
    ensures Next(c, s, e).accepted == s.accepted
    ensures Next(c, s, e).settled == s.settled + [Batch(s.inFlight, s.pc.attempts, s.pc.delivered)]
  {
    hide ShouldXmit, WritePrequel, BothEmpty;
  }

  lemma OtherStepGrows(c: Config, s: State, e: Event)
    requires Enabled(s, e) && !(e.Xmit? && s.pc.Sent?)
    ensures s.accepted <= Next(c, s, e).accepted && Next(c, s, e).settled == s.settled
  {
    hide SpansBytes, SpanBytes, WritePrequel, ShouldXmit, BothEmpty, Fits;
  }

  /** What was recorded when a flusher entered stays recorded. */
  lemma StepKeepsRecord(c: Config, s: State, e: Event, tid: nat)
    requires Enabled(s, e) && tid in s.flushers
    ensures var s2 := Next(c, s, e);
            && tid in s2.flushers
            && s2.flushers[tid].mark == s.flushers[tid].mark
            && s2.flushers[tid].safe == s.flushers[tid].safe
            && s2.flushers[tid].now == s.flushers[tid].now
            && (s.flushers[tid].Returned? ==> s2.flushers[tid] == s.flushers[tid])
  {
    hide SpansBytes, SpanBytes, WritePrequel, ShouldXmit, BothEmpty;
  }

  lemma {:induction false} RunKeepsRecord(c: Config, s: State, es: seq<Event>, tid: nat)
    requires IsRun(c, s, es) && tid in s.flushers
    ensures var s2 := After(c, s, es);
            && s.accepted <= s2.accepted
            && tid in s2.flushers
            && s2.flushers[tid].mark == s.flushers[tid].mark
            && s2.flushers[tid].safe == s.flushers[tid].safe
    decreases |es|
  {
    hide Next, Enabled;
    if es != [] {
      StepGrows(c, s, es[0]);
      StepKeepsRecord(c, s, es[0], tid);
      RunKeepsRecord(c, Next(c, s, es[0]), es[1..], tid);
    }
  }

  // ---------------------------------------------------------------- the guarantee

  /** A flush by thread tid that enters in state s at clock reading t, followed by the steps
      es, has returned. */
  ghost predicate FlushReturns(c: Config, s: State, tid: nat, t: nat, es: seq<Event>) {
    var run := [FlushEnter(tid, t)] + es;
    IsRoomyRun(c, s, run) && tid in After(c, s, run).flushers && After(c, s, run).flushers[tid].Returned?
  }

  /** Everything accepted before the entry is settled after the steps. */
  ghost predicate AllSettled(c: Config, s: State, tid: nat, t: nat, es: seq<Event>)
    requires IsRun(c, s, [FlushEnter(tid, t)] + es)
  {
    s.accepted <= SettledSpans(After(c, s, [FlushEnter(tid, t)] + es).settled)
  }

  lemma SafeFlush(c: Config, s: State, tid: nat, t: nat, es: seq<Event>)
    requires Inv(c, s) && Enabled(s, FlushEnter(tid, t)) && SafeEntry(s, t)
    requires FlushReturns(c, s, tid, t, es)
    ensures AllSettled(c, s, tid, t, es)
  {
    hide Inv, BuffersMatch, Attempted, ClockOrder, SendsMatch, Counted;
    var e := FlushEnter(tid, t);
    var s1 := Next(c, s, e);
    RunFirst(c, s, e, es);
    assert s1.flushers[tid].mark == |s.accepted| && s1.flushers[tid].safe && s1.accepted == s.accepted by {
      hide BothEmpty;
    }
    StepKeepsInv(c, s, e);
    RunKeepsInv(c, s1, es);
    RunKeepsRecord(c, s1, es, tid);
    var s2 := After(c, s1, es);
    PrefixSettled(c, s2, tid, s.accepted);
  }

  lemma PrefixSettled(c: Config, s: State, tid: nat, before: seq<SpanData>)
    requires Inv(c, s) && before <= s.accepted
    requires tid in s.flushers && s.flushers[tid].Returned?
    requires s.flushers[tid].safe && s.flushers[tid].mark == |before|
    ensures before <= SettledSpans(s.settled)
  {
    hide BuffersMatch, Attempted, ClockOrder, SendsMatch, Counted;
    assert FlusherOk(s, s.flushers[tid]);
    assert s.accepted[..|before|] == SettledSpans(s.settled)[..|before|];
  }

  // ---------------------------------------------------------------- and its failure

  /** What is not settled was accepted and cannot be a prefix of what is settled. */
  lemma NotSettled(s: State)
    requires Conserved(s) && (s.inFlight != [] || s.pending != [])
    ensures !(s.accepted <= SettledSpans(s.settled))
  {
  }

  /** What a run of the transmit thread alone leaves as it is. */
  predicate OnlyXmit(s: State, s2: State) {
    s2.accepted == s.accepted && s2.flushers == s.flushers
  }

  function StepsToStamp(pc: Pc): nat
    requires MidXmit(pc)
  {
    match pc
    case Sending(_, _, tries) => if tries < 3 then 5 - tries else 2
    case Sent(_, _, _, _) => 2
    case Cleared(_, _) => 1
  }

  /** From inside htraced_xmit, the transmit thread gets to the stamp of last_send_ms. */
  lemma FinishXmit(c: Config, s: State) returns (es: seq<Event>)
    requires Inv(c, s) && MidXmit(s.pc)
    ensures IsRoomyRun(c, s, es)
    ensures var s2 := After(c, s, es);
            && OnlyXmit(s, s2) && s2.pending == s.pending && s2.sh.lastSendMs == s.pc.now
            && (s2.pc == Check(s.pc.now, true) || s2.pc == Drain(s.pc.now))
    decreases StepsToStamp(s.pc)
  {
    hide BuffersMatch, Conserved, SendsMatch, Counted, FlushersOk, WritePrequel, SpansBytes, ShouldXmit, BothEmpty;
    var e := Xmit(0, false);
    var s1 := Next(c, s, e);
    es := [];
    if !s.pc.Cleared? {
      StepKeepsInv(c, s, e);
      es := FinishXmit(c, s1);
    }
    RunFirst(c, s, e, es);
    es := [e] + es;
  }

  /** From a point where the transmit thread holds the lock, it releases it. */
  lemma ReleaseLock(c: Config, s: State) returns (es: seq<Event>)
    requires Inv(c, s) && (s.pc.Check? || s.pc.Test? || s.pc.Drain?) && s.pending != []
    ensures IsRoomyRun(c, s, es)
    ensures var s2 := After(c, s, es);
            OnlyXmit(s, s2) && !LockHeld(s2.pc) && s2.sh.lastSendMs == s.sh.lastSendMs && s2.settled == s.settled
    decreases if s.pc.Check? then 2 else if s.pc.Test? then 1 else 0
  {
    hide Conserved, Attempted, ClockOrder, SendsMatch, Counted, FlushersOk, SpansBytes, ShouldXmit;
    SpansBytesLength(s.pending);
    var e := Xmit(0, false);
    var s1 := Next(c, s, e);
    es := [];
    if LockHeld(s1.pc) {
      StepKeepsInv(c, s, e);
      es := ReleaseLock(c, s1);
    }
    RunFirst(c, s, e, es);
    es := [e] + es;
  }

  /** A flusher blocked at reading t while the transmitter, with a `now` that has reached t,
      is inside htraced_xmit and spans wait in the active buffer: there is a run in which
      the flush returns with these spans unsettled. */
  lemma BlockedTooEarly(c: Config, s: State, tid: nat) returns (es: seq<Event>)
    requires Inv(c, s) && tid in s.flushers && s.flushers[tid].Blocked?
    requires MidXmit(s.pc) && s.flushers[tid].now <= s.pc.now && s.pending != []
    ensures IsRoomyRun(c, s, es)
    ensures var s2 := After(c, s, es);
            && tid in s2.flushers && s2.flushers[tid].Returned?
            && s2.accepted == s.accepted && !(s2.accepted <= SettledSpans(s2.settled))
  {
    hide BuffersMatch, Attempted, ClockOrder, SendsMatch, Counted, FlushersOk;
    var a := FinishXmit(c, s);
    var s1 := After(c, s, a);
    RunKeepsInv(c, s, a);
    var b := ReleaseLock(c, s1);
    var s2 := After(c, s1, b);
    RunKeepsInv(c, s1, b);
    RunAppend(c, s, a, b);
    var e := FlushWake(tid);
    assert Enabled(s2, e);
    assert [e] + [] == [e];
    RunFirst(c, s2, e, []);
    RunAppend(c, s, a + b, [e]);
    es := a + b + [e];
    NotSettled(s1);
  }

  lemma UnsafeFlush(c: Config, s: State, tid: nat, t: nat) returns (es: seq<Event>)
    requires Inv(c, s) && Enabled(s, FlushEnter(tid, t)) && !SafeEntry(s, t)
    ensures FlushReturns(c, s, tid, t, es) && !AllSettled(c, s, tid, t, es)
  {
    hide Attempted, ClockOrder, SendsMatch, Counted, FlushersOk, SpansBytes, Next;
    var e := FlushEnter(tid, t);
    var s1 := Next(c, s, e);
    NotSettled(s);
    if t <= s.sh.lastSendMs {
      es := [];
      EntryReturns(c, s, tid, t);
    } else {
      EntryBlocks(c, s, tid, t);
      StepKeepsInv(c, s, e);
      es := BlockedTooEarly(c, s1, tid);
    }
    RunFirst(c, s, e, es);
  }

  lemma EntryReturns(c: Config, s: State, tid: nat, t: nat)
    requires Enabled(s, FlushEnter(tid, t)) && t <= s.sh.lastSendMs
    ensures var s1 := Next(c, s, FlushEnter(tid, t));
            && tid in s1.flushers && s1.flushers[tid].Returned?
            && s1.accepted == s.accepted && s1.settled == s.settled
  {
  }

  lemma EntryBlocks(c: Config, s: State, tid: nat, t: nat)
    requires BuffersMatch(c, s)
    requires Enabled(s, FlushEnter(tid, t)) && t > s.sh.lastSendMs && s.pending != []
    ensures var s1 := Next(c, s, FlushEnter(tid, t));
            && tid in s1.flushers && s1.flushers[tid].Blocked? && s1.flushers[tid].now == t
            && s1.accepted == s.accepted && s1.pc == s.pc && s1.pending == s.pending
  {
    hide SpansBytes;
    SpansBytesLength(s.pending);
  }

  /** Main result on flushing.  Whatever the other threads do after a flush entered, it
      returns only once every span accepted before is settled, if and only if its entry was
      safe. */
  lemma FlushExact(c: Config, s: State, tid: nat, t: nat)
    requires Reachable(c, s) && Enabled(s, FlushEnter(tid, t))
    ensures SafeEntry(s, t) <==>
            forall es :: FlushReturns(c, s, tid, t, es) ==> AllSettled(c, s, tid, t, es)
  {
    hide Inv, SafeEntry, AllSettled;
    ReachableInv(c, s);
    if SafeEntry(s, t) {
      forall es | FlushReturns(c, s, tid, t, es)
        ensures AllSettled(c, s, tid, t, es)
      {
        SafeFlush(c, s, tid, t, es);
      }
    } else {
      var es := UnsafeFlush(c, s, tid, t);
      assert FlushReturns(c, s, tid, t, es) && !AllSettled(c, s, tid, t, es);
    }
  }

  /** With strictly increasing readings of the clock every entry is safe. */
  lemma StrictClockIsSafe(c: Config, s: State, t: nat)
    requires Reachable(c, s) && t > s.clock
    ensures SafeEntry(s, t)
  {
    ReachableInv(c, s);
  }

  /** With a millisecond clock, two equal readings are enough to break the promise: a span
      is added in the millisecond the receiver was created in, and a flush in the same
      millisecond returns at once, with the span neither sent nor given up. */
  lemma EqualReadingsReturnEarly(c: Config, span: SpanData, t: nat)
    requires |SpanBytes(span)| <= c.BufLen()
    ensures var es := [Add(span), FlushEnter(0, t)];
            && IsRoomyRun(c, Init(t), es)
            && var s := After(c, Init(t), es);
               0 in s.flushers && s.flushers[0].Returned? && s.accepted == [span] && s.settled == []
  {
    hide SpanBytes;
    var add, enter := Add(span), FlushEnter(0, t);
    var s1 := Next(c, Init(t), add);
    assert s1.sh.lastSendMs == t && s1.accepted == [span] && s1.settled == [];
    EntryReturns(c, s1, 0, t);
    FitsInBounds(c, Init(t).sh, |SpanBytes(span)|);
    RunFirst(c, s1, enter, []);
    assert [enter] + [] == [enter];
    RunFirst(c, Init(t), add, [enter]);
    assert [add] + [enter] == [add, enter];
  }
}
