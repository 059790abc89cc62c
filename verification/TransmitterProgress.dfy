/** What the transmit thread decides and where it gets to: when it sends, what a waiting flush
    makes of that, and how it ends after a shutdown. */
module TransmitterProgress {
  import opened Bytes
  import opened Span
  import opened WriteSpans
  import opened Transmitter
  import opened TransmitterSafety
  import opened FlushGuarantee

  // ---------------------------------------------------------------- the buffers

  /** The length of each buffer for a configured total of so many bytes: half of it, but at
      least 2 MiB and at most 64 MiB less the room for the prequel. */
  lemma BufferLengths(bufferSize: uint64)
    ensures bufferSize <= 4194304 ==> BufferLength(bufferSize) == 2097152
    ensures 4194304 <= bufferSize <= 134215680 ==> BufferLength(bufferSize) == bufferSize / 2
    ensures 134215680 <= bufferSize ==> BufferLength(bufferSize) == 67107840
  {
  }

  // ---------------------------------------------------------------- writers

  /** What the second buffer is for: outside the sections that the transmit thread holds the
      lock for, a writer whose span fits goes on at once, whatever is in flight. */
  lemma WritersGoOn(c: Config, s: State, span: SpanData)
    requires Reachable(c, s) && (s.pc.Sending? || s.pc.Sent? || s.pc.Cleared? || s.pc.Waiting? || s.pc.Exited?)
    requires |s.sh.active.data| + |SpanBytes(span)| <= c.BufLen()
    ensures Enabled(s, Add(span))
    ensures var s2 := Next(c, s, Add(span));
            && s2.sh.active == Sbuf(s.sh.active.data + SpanBytes(span), s.sh.active.numSpans + 1)
            && s2.sh.inactive == s.sh.inactive && s2.inFlight == s.inFlight && s2.pc == s.pc
            && s2.accepted == s.accepted + [span] && s2.pending == s.pending + [span] && s2.late == []
  {
    hide SpanBytes, SpansBytes, Conserved, Attempted, ClockOrder, SendsMatch, Counted, FlushersOk, Fits;
    ReachableInv(c, s);
    FitsInBounds(c, s.sh, |SpanBytes(span)|);
  }

  // ---------------------------------------------------------------- what is handed in

  /** The spans that late writers hold. */
  function LateSpans(late: seq<LateWriter>): multiset<SpanData> {
    if late == [] then multiset{} else multiset{late[0].span} + LateSpans(late[1..])
  }

  /** The spans that a run hands to the receiver. */
  function AddedSpans(es: seq<Event>): multiset<SpanData> {
    if es == [] then multiset{}
    else (if es[0].Add? then multiset{es[0].span} else multiset{}) + AddedSpans(es[1..])
  }

  lemma {:induction false} LateOneMore(late: seq<LateWriter>, w: LateWriter)
    ensures LateSpans(late + [w]) == LateSpans(late) + multiset{w.span}
  {
    if late == [] {
      assert late + [w] == [w];
    } else {
      assert (late + [w])[0] == late[0] && (late + [w])[1..] == late[1..] + [w];
      LateOneMore(late[1..], w);
    }
  }

  lemma {:induction false} LateOneLess(late: seq<LateWriter>, k: nat)
    requires k < |late|
    ensures LateSpans(late[..k] + late[k + 1..]) + multiset{late[k].span} == LateSpans(late)
  {
    var rest := late[..k] + late[k + 1..];
    if k == 0 {
      assert rest == late[1..];
    } else {
      assert rest[0] == late[0] && rest[1..] == late[1..][..k - 1] + late[1..][k..];
      LateOneLess(late[1..], k - 1);
    }
  }

  lemma StepHandsIn(c: Config, s: State, e: Event)
    requires Enabled(s, e)
    ensures var s2 := Next(c, s, e);
            multiset(s2.accepted) + LateSpans(s2.late)
            == multiset(s.accepted) + LateSpans(s.late) + (if e.Add? then multiset{e.span} else multiset{})
  {
    hide SpanBytes, WritePrequel, ShouldXmit, BothEmpty, Fits, LateSpans;
    match e {
      case Add(span) =>
        LateOneMore(s.late, LateWriter(s.sh.index, span));
      case LateCopy(k) =>
        LateOneLess(s.late, k);
      case _ =>
    }
  }

  /** In every run, with room or without: each span handed in was accepted once, or one late
      writer still holds it. */
  lemma {:induction false} AddsConserved(c: Config, s: State, es: seq<Event>)
    requires IsRun(c, s, es)
    ensures var s2 := After(c, s, es);
            multiset(s2.accepted) + LateSpans(s2.late)
            == multiset(s.accepted) + LateSpans(s.late) + AddedSpans(es)
    decreases |es|
  {
    hide Next, Enabled, LateSpans;
    if es != [] {
      StepHandsIn(c, s, es[0]);
      AddsConserved(c, Next(c, s, es[0]), es[1..]);
    }
  }

  // ---------------------------------------------------------------- the decision to send

  /** A thread that holds the lock is the only one that runs, if no writer is late. */
  lemma LockedStep(c: Config, s: State, e: Event)
    requires Enabled(s, e) && LockHeld(s.pc) && s.late == []
    ensures e.Xmit? && Next(c, s, e) == XmitNext(c, s, e.t, e.ok)
  {
    hide XmitNext, AddNext, LateNext, FlushCheck;
  }

  lemma ClockIsRead(c: Config, s: State, e: Event)
    requires Enabled(s, e) && s.pc.Top? && s.late == []
    ensures e.Xmit? && Next(c, s, e) == s.(clock := e.t, pc := Check(e.t, false)) && s.clock <= e.t
  {
    hide ShouldXmit, WritePrequel, BothEmpty;
    LockedStep(c, s, e);
  }

  lemma CheckDecides(c: Config, s: State, e: Event)
    requires Enabled(s, e) && s.pc.Check? && s.late == []
    requires s.sh.lastSendMs <= s.pc.now < 0x1_0000_0000_0000_0000
    ensures e.Xmit?
    ensures var t := s.pc.now; var size := |s.sh.active.data|;
            Next(c, s, e)
            == if size > c.sendThreshold || (size > 0 && t > s.sh.lastSendMs + c.flushIntervalMs)
               then StartXmit(s, t, false)
               else s.(pc := Test(t))
  {
    hide StartXmit, WritePrequel, BothEmpty;
    LockedStep(c, s, e);
    Elapsed(s.pc.now, s.sh.lastSendMs);
  }

  lemma Elapsed(now: nat, last: nat)
    requires last <= now < 0x1_0000_0000_0000_0000
    ensures (now - last) % 0x1_0000_0000_0000_0000 == now - last
  {
  }

  /** Whatever two steps follow when the transmit thread is about to read the clock, they are
      its own, and with a reading of t it starts to send exactly if the active buffer holds
      more than the threshold, or holds anything and more than the flush interval has passed
      since last_send_ms.  What it sends then is all that is pending. */
  lemma SendDecision(c: Config, s: State, es: seq<Event>)
    requires Reachable(c, s) && s.pc.Top? && IsRun(c, s, es) && |es| == 2
    requires es[0].Xmit? ==> es[0].t < 0x1_0000_0000_0000_0000
    ensures es[0].Xmit? && es[1].Xmit?
    ensures var t := es[0].t; var s2 := After(c, s, es); var size := |s.sh.active.data|;
            if size > c.sendThreshold || (size > 0 && t > s.sh.lastSendMs + c.flushIntervalMs) then
              && s2.pc == Sending(t, false, 0) && s2.sh.index == 1 - s.sh.index
              && s2.inFlight == s.pending && s2.sh.inactive == s.sh.active && s2.pending == []
            else s2.pc == Test(t) && s2.sh == s.sh
  {
    hide Next, Enabled, BuffersMatch, Attempted, SendsMatch, Counted, FlushersOk, SettledSpans;
    ReachableInv(c, s);
    NoneLate(c, s);
    var s1 := Next(c, s, es[0]);
    assert es == [es[0]] + [es[1]] && [es[1]] == [es[1]] + [];
    ClockIsRead(c, s, es[0]);
    RunFirst(c, s, es[0], [es[1]]);
    OneStep(c, s1, es[1]);
    CheckDecides(c, s1, es[1]);
  }

  lemma OneStep(c: Config, s: State, e: Event)
    ensures IsRun(c, s, [e]) <==> Enabled(s, e)
    ensures IsRun(c, s, [e]) ==> After(c, s, [e]) == Next(c, s, e)
  {
    hide Enabled, Next;
    assert [e][1..] == [];
  }

  lemma NoneLate(c: Config, s: State)
    requires BuffersMatch(c, s)
    ensures s.late == []
  {
  }

  // ---------------------------------------------------------------- flushing

  /** The effect of one round of htraced_rcv_flush on what the threads share: a flusher that
      finds last_send_ms at its reading, or nothing in the buffers, returns and changes nothing;
      any other goes on to wait and sets last_send_ms to 0. */
  lemma FlushSteps(s: State, tid: nat, now: nat, mark: nat, safe: bool)
    ensures var s2 := FlushCheck(s, tid, now, mark, safe);
            && tid in s2.flushers
            && s2 == s.(sh := s2.sh, flushers := s2.flushers)
            && if s.sh.lastSendMs >= now || (s.sh.active.data == [] && s.sh.inactive.data == [])
               then s2.flushers[tid].Returned? && s2.sh == s.sh
               else s2.flushers[tid].Blocked? && s2.sh == s.sh.(lastSendMs := 0)
  {
  }

  /** A flush that has to wait makes the transmit thread send what is pending at its next
      decision, however short ago the last send was, once the clock shows more than the flush
      interval. */
  lemma FlushForcesSend(c: Config, s: State, tid: nat, t: nat, u: nat)
    requires Reachable(c, s) && s.pc.Waiting? && s.pending != []
    requires Enabled(s, FlushEnter(tid, t)) && s.sh.lastSendMs < t <= u
    requires c.flushIntervalMs < u < 0x1_0000_0000_0000_0000
    ensures var es := [FlushEnter(tid, t), Xmit(u, true), Xmit(u, true), Xmit(u, true)];
            && IsRoomyRun(c, s, es)
            && var s2 := After(c, s, es);
               && s2.pc == Sending(u, false, 0) && s2.inFlight == s.pending && s2.pending == []
               && s2.accepted == s.accepted
               && tid in s2.flushers && s2.flushers[tid].Blocked? && s2.flushers[tid].now == t
  {
    hide Next, IsRun, HasRoom, After, BuffersMatch, SendsMatch, Counted, FlushersOk, Attempted, SettledSpans;
    hide Fits;
    ReachableInv(c, s);
    NoneLate(c, s);
    NotEmpty(c, s);
    var f, x := FlushEnter(tid, t), Xmit(u, true);
    var a := Next(c, s, f);
    EntryStep(c, s, tid, t);
    var b := Next(c, a, x);
    WaitingEnds(c, a, x);
    var d := Next(c, b, x);
    ClockIsRead(c, b, x);
    CheckDecides(c, d, x);
    var g := Next(c, d, x);
    EmptyRun(c, g);
    RunFirst(c, d, x, []);
    RunFirst(c, b, x, [x]);
    RunFirst(c, a, x, [x, x]);
    RunFirst(c, s, f, [x, x, x]);
    assert [x] + [] == [x] && [x] + [x] == [x, x] && [x] + [x, x] == [x, x, x] && [f] + [x, x, x] == [f, x, x, x];
  }

  lemma NotEmpty(c: Config, s: State)
    requires BuffersMatch(c, s) && s.pending != []
    ensures s.sh.active.data != []
  {
    SpansBytesLength(s.pending);
  }

  lemma EmptyRun(c: Config, s: State)
    ensures IsRoomyRun(c, s, []) && After(c, s, []) == s
  {
  }

  lemma WaitingEnds(c: Config, s: State, e: Event)
    requires e.Xmit? && s.pc.Waiting?
    ensures Enabled(s, e) && Next(c, s, e) == s.(pc := Top)
  {
  }

  lemma EntryStep(c: Config, s: State, tid: nat, t: nat)
    requires Enabled(s, FlushEnter(tid, t)) && s.sh.lastSendMs < t && s.sh.active.data != []
    ensures var s2 := Next(c, s, FlushEnter(tid, t));
            && tid in s2.flushers && s2.flushers[tid].Blocked? && s2.flushers[tid].now == t
            && s2 == s.(clock := t, sh := s.sh.(lastSendMs := 0), flushers := s2.flushers)
  {
    hide SafeEntry;
  }

  /** With nothing pending the transmit thread lets go of the lock without another send. */
  lemma ReleaseWhenIdle(c: Config, s: State) returns (es: seq<Event>)
    requires Inv(c, s) && (s.pc.Check? || s.pc.Test? || s.pc.Drain?) && s.pending == []
    ensures IsRoomyRun(c, s, es)
    ensures var s2 := After(c, s, es);
            OnlyXmit(s, s2) && !LockHeld(s2.pc) && s2.sh == s.sh && s2.settled == s.settled
    decreases if s.pc.Check? then 2 else if s.pc.Test? then 1 else 0
  {
    hide Attempted, ClockOrder, SendsMatch, Counted, FlushersOk, SettledSpans, StartXmit;
    NothingPending(c, s);
    var e := Xmit(0, false);
    var s1 := Next(c, s, e);
    es := [];
    if LockHeld(s1.pc) {
      StepKeepsInv(c, s, e);
      es := ReleaseWhenIdle(c, s1);
    }
    RunFirst(c, s, e, es);
    es := [e] + es;
  }

  lemma NothingPending(c: Config, s: State)
    requires BuffersMatch(c, s) && s.pending == []
    ensures s.sh.active.data == []
  {
  }

  lemma WakeReturns(c: Config, s: State, tid: nat)
    requires tid in s.flushers && s.flushers[tid].Blocked? && !LockHeld(s.pc)
    requires s.sh.lastSendMs >= s.flushers[tid].now
    ensures IsRoomyRun(c, s, [FlushWake(tid)])
    ensures var s2 := After(c, s, [FlushWake(tid)]); tid in s2.flushers && s2.flushers[tid].Returned?
  {
    hide Next;
    var f := s.flushers[tid];
    FlushSteps(s, tid, f.now, f.mark, f.safe);
    assert Next(c, s, FlushWake(tid)) == FlushCheck(s, tid, f.now, f.mark, f.safe) by {
      WakeStep(c, s, tid);
    }
    RunFirst(c, s, FlushWake(tid), []);
    assert [FlushWake(tid)] + [] == [FlushWake(tid)];
  }

  lemma WakeStep(c: Config, s: State, tid: nat)
    requires Enabled(s, FlushWake(tid))
    ensures var f := s.flushers[tid];
            Next(c, s, FlushWake(tid)) == FlushCheck(s, tid, f.now, f.mark, f.safe)
  {
    hide FlushCheck;
  }

  /** And so such a flush can return with everything settled that was accepted before it. */
  lemma FlushCompletes(c: Config, s: State, tid: nat, t: nat, u: nat) returns (es: seq<Event>)
    requires Reachable(c, s) && s.pc.Waiting? && s.pending != []
    requires Enabled(s, FlushEnter(tid, t)) && s.sh.lastSendMs < t <= u
    requires c.flushIntervalMs < u < 0x1_0000_0000_0000_0000
    ensures FlushReturns(c, s, tid, t, es) && AllSettled(c, s, tid, t, es)
  {
    hide BuffersMatch, Attempted, SendsMatch, Counted, FlushersOk, Next, IsRun, HasRoom, After, SafeEntry;
    ReachableInv(c, s);
    var f, x := FlushEnter(tid, t), Xmit(u, true);
    FlushForcesSend(c, s, tid, t, u);
    var a := [f, x, x, x];
    var s1 := After(c, s, a);
    RunKeepsInv(c, s, a);
    var b := FinishXmit(c, s1);
    var s2 := After(c, s1, b);
    RunKeepsInv(c, s1, b);
    RunAppend(c, s, a, b);
    var d := ReleaseWhenIdle(c, s2);
    var s3 := After(c, s2, d);
    RunKeepsInv(c, s2, d);
    RunAppend(c, s, a + b, d);
    WakeReturns(c, s3, tid);
    var w := FlushWake(tid);
    RunAppend(c, s, a + b + d, [w]);
    es := [x, x, x] + b + d + [w];
    assert [f] + es == a + b + d + [w];
    assert SafeEntry(s, t) by { SafeWhenWaiting(s, t); }
    SafeFlush(c, s, tid, t, es);
  }

  lemma SafeWhenWaiting(s: State, t: nat)
    requires s.pc.Waiting? && s.sh.lastSendMs < t
    ensures SafeEntry(s, t)
  {
  }

  // ---------------------------------------------------------------- shutdown

  /** The shutdown flag is set in a run if and only if it was set before or is requested. */
  lemma {:induction false} ShutdownSet(c: Config, s: State, es: seq<Event>)
    requires IsRun(c, s, es)
    ensures After(c, s, es).sh.shutdown <==> s.sh.shutdown || SetShutdown in es
    decreases |es|
  {
    hide Next, Enabled;
    if es != [] {
      ShutdownStep(c, s, es[0]);
      ShutdownSet(c, Next(c, s, es[0]), es[1..]);
    }
  }

  lemma ShutdownStep(c: Config, s: State, e: Event)
    requires Enabled(s, e)
    ensures Next(c, s, e).sh.shutdown <==> s.sh.shutdown || e == SetShutdown
  {
    hide SpanBytes, WritePrequel, ShouldXmit, BothEmpty, Fits;
  }

  /** The transmit thread is draining, or has ended. */
  predicate Ending(pc: Pc) {
    pc.Drain? || pc.Exited? || (MidXmit(pc) && pc.drain)
  }

  /** It only ends after a shutdown was requested. */
  lemma {:induction false} EndsOnlyOnShutdown(c: Config, s: State, es: seq<Event>)
    requires IsRun(c, s, es) && (Ending(s.pc) ==> s.sh.shutdown)
    ensures Ending(After(c, s, es).pc) ==> After(c, s, es).sh.shutdown
    decreases |es|
  {
    hide Next, Enabled, Ending;
    if es != [] {
      EndingStep(c, s, es[0]);
      EndsOnlyOnShutdown(c, Next(c, s, es[0]), es[1..]);
    }
  }

  lemma EndingStep(c: Config, s: State, e: Event)
    requires Enabled(s, e) && (Ending(s.pc) ==> s.sh.shutdown)
    ensures Ending(Next(c, s, e).pc) ==> Next(c, s, e).sh.shutdown
  {
    hide SpanBytes, WritePrequel, ShouldXmit, BothEmpty, Fits;
  }

  /** The most steps that the transmit thread needs to end, if the others leave it alone. */
  function StepsToDrained(waiting: bool): nat {
    if waiting then 7 else 1
  }

  function StepsToDecided(waiting: bool): nat {
    if waiting then 9 else 3
  }

  function StepsToExit(pc: Pc, waiting: bool): nat {
    match pc
    case Exited => 0
    case Drain(_) => StepsToDrained(waiting)
    case Test(_) => 1 + StepsToDrained(waiting)
    case Check(_, _) => StepsToDecided(waiting)
    case Top => 1 + StepsToDecided(waiting)
    case Waiting => 2 + StepsToDecided(waiting)
    case _ => StepsToStamp(pc) + (if pc.drain then StepsToDrained(waiting) else StepsToDecided(waiting))
  }

  lemma StepTowardsExit(c: Config, s: State, t: nat, ok: bool)
    requires Inv(c, s) && s.sh.shutdown && Enabled(s, Xmit(t, ok))
    ensures var s2 := Next(c, s, Xmit(t, ok));
            && StepsToExit(s2.pc, s2.pending != []) < StepsToExit(s.pc, s.pending != [])
            && s2.accepted == s.accepted
  {
    hide SendsMatch, Counted, FlushersOk, ClockOrder, SpansBytes, WritePrequel, SettledSpans;
    if s.pc.Sending? {
      AttemptTowardsExit(c, s, ok);
    } else {
      SpansBytesLength(s.pending);
      SpansBytesLength(s.inFlight);
    }
  }

  lemma AttemptTowardsExit(c: Config, s: State, ok: bool)
    requires s.pc.Sending? && s.pc.tries < 3
    ensures var s2 := AttemptNext(c, s, ok);
            && s2.accepted == s.accepted && s2.pending == s.pending
            && StepsToExit(s2.pc, s.pending != []) < StepsToExit(s.pc, s.pending != [])
  {
    hide WritePrequel;
  }

  /** After a shutdown request the transmit thread, left alone, ends within 14 of its steps
      whatever the sends come to, it is never stuck before that, and when it ends everything
      accepted is settled. */
  lemma {:induction false} ShutdownEnds(c: Config, s: State, es: seq<Event>)
    requires Inv(c, s) && s.sh.shutdown && IsRun(c, s, es)
    requires forall e <- es :: e.Xmit?
    ensures |es| <= StepsToExit(s.pc, s.pending != []) <= 14
    ensures var s2 := After(c, s, es);
            && s2.accepted == s.accepted
            && (s2.pc.Exited? || Enabled(s2, Xmit(s2.clock, true)))
            && (s2.pc.Exited? && !s.pc.Exited? ==> SettledSpans(s2.settled) == s.accepted)
    decreases |es|
  {
    hide Inv, Next, Enabled, SettledSpans;
    StepsBound(c, s);
    if es == [] {
      XmitEnabled(s);
    } else {
      var e := es[0];
      var s1 := Next(c, s, e);
      StepTowardsExit(c, s, e.t, e.ok);
      StepKeepsInv(c, s, e);
      ShutdownStep(c, s, e);
      ShutdownEnds(c, s1, es[1..]);
      if s1.pc.Exited? {
        ExitSettles(c, s, e);
        assert es[1..] == [];
      }
    }
  }

  lemma StepsBound(c: Config, s: State)
    requires Inv(c, s)
    ensures StepsToExit(s.pc, s.pending != []) <= 14
  {
    hide BuffersMatch, Conserved, SendsMatch, Counted, FlushersOk, ClockOrder;
  }

  lemma XmitEnabled(s: State)
    ensures s.pc.Exited? || Enabled(s, Xmit(s.clock, true))
  {
  }

  lemma ExitSettles(c: Config, s: State, e: Event)
    requires Inv(c, s) && Enabled(s, e) && e.Xmit? && Next(c, s, e).pc.Exited?
    ensures SettledSpans(Next(c, s, e).settled) == s.accepted
  {
    hide SpansBytes, WritePrequel, ShouldXmit, SendsMatch, Counted, FlushersOk, Attempted;
    EmptyMeansSettled(c, s);
  }
}
