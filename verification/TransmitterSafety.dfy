/** Safety of the transmitter over every run: the invariant, first-in-first-out
    conservation, isolation of the buffers, the messages sent and the shutdown drain. */
module TransmitterSafety {
  import opened Span
  import opened WriteSpans
  import opened Transmitter
  import opened Wrappers

  // ---------------------------------------------------------------- one step keeps the invariant

  lemma AddKeepsBuffers(c: Config, s: State, span: SpanData)
    requires BuffersMatch(c, s) && Conserved(s) && Attempted(s) && ClockOrder(s)
    requires FindsRoom(c, s, Add(span))
    ensures var s2 := AddNext(c, s, span);
            BuffersMatch(c, s2) && Conserved(s2) && Attempted(s2) && ClockOrder(s2)
  {
    hide SpanBytes;
    FitsInBounds(c, s.sh, |SpanBytes(span)|);
    SpansBytesOne(s.pending, span);
  }

  lemma StartXmitKeepsBuffers(c: Config, s: State, now: nat, drain: bool)
    requires BuffersMatch(c, s) && Conserved(s) && Attempted(s) && ClockOrder(s)
    requires s.inFlight == [] && s.pending != [] && now <= s.clock
    ensures var s2 := StartXmit(s, now, drain);
            BuffersMatch(c, s2) && Conserved(s2) && Attempted(s2) && ClockOrder(s2)
  {
    hide SpansBytes;
    assert s.accepted == SettledSpans(s.settled) + s.pending + [];
  }

  lemma XmitKeepsBuffers(c: Config, s: State, t: nat, ok: bool)
    requires BuffersMatch(c, s) && Conserved(s) && Attempted(s) && ClockOrder(s)
    requires Enabled(s, Xmit(t, ok))
    ensures var s2 := XmitNext(c, s, t, ok);
            BuffersMatch(c, s2) && Conserved(s2) && Attempted(s2) && ClockOrder(s2)
  {
    hide SpansBytes, WritePrequel, SettledSpans;
    SpansBytesLength(s.pending);
    match s.pc {
      case Check(now, _) =>
        if ShouldXmit(c, s.sh, now) {
          StartXmitKeepsBuffers(c, s, now, false);
        }
      case Drain(now) =>
        SpansBytesLength(s.inFlight);
        if !BothEmpty(s.sh) {
          StartXmitKeepsBuffers(c, s, now, true);
        }
      case Sent(now, drain, attempts, delivered) =>
        ClearKeepsBuffers(c, s);
      case Sending(now, drain, tries) =>
        AttemptKeepsBuffers(c, s, ok);
      case _ =>
        LockStepKeepsBuffers(c, s, t, ok);
    }
  }

  lemma AttemptKeepsBuffers(c: Config, s: State, ok: bool)
    requires BuffersMatch(c, s) && Conserved(s) && Attempted(s) && ClockOrder(s)
    requires s.pc.Sending?
    ensures var s2 := AttemptNext(c, s, ok);
            BuffersMatch(c, s2) && Conserved(s2) && Attempted(s2) && ClockOrder(s2)
  {
    hide SpansBytes, WritePrequel, SettledSpans;
  }

  lemma LockStepKeepsBuffers(c: Config, s: State, t: nat, ok: bool)
    requires BuffersMatch(c, s) && Conserved(s) && Attempted(s) && ClockOrder(s)
    requires Enabled(s, Xmit(t, ok)) && (s.pc.Waiting? || s.pc.Top? || s.pc.Cleared? || s.pc.Test?)
    ensures var s2 := XmitNext(c, s, t, ok);
            BuffersMatch(c, s2) && Conserved(s2) && Attempted(s2) && ClockOrder(s2)
  {
    hide SpansBytes, SettledSpans;
  }

  lemma ClearKeepsBuffers(c: Config, s: State)
    requires BuffersMatch(c, s) && Conserved(s) && Attempted(s) && ClockOrder(s)
    requires s.pc.Sent?
    ensures var s2 := XmitNext(c, s, 0, false);
            BuffersMatch(c, s2) && Conserved(s2) && Attempted(s2) && ClockOrder(s2)
  {
    hide SpansBytes, WritePrequel, ShouldXmit;
    var b := Batch(s.inFlight, s.pc.attempts, s.pc.delivered);
    SettledOne(s.settled, b);
    SpansBytesLength([]);
    assert forall x :: x in s.settled + [b] ==> x == b || x in s.settled;
  }

  lemma StepKeepsBuffers(c: Config, s: State, e: Event)
    requires BuffersMatch(c, s) && Conserved(s) && Attempted(s) && ClockOrder(s)
    requires Enabled(s, e) && FindsRoom(c, s, e)
    ensures var s2 := Next(c, s, e);
            BuffersMatch(c, s2) && Conserved(s2) && Attempted(s2) && ClockOrder(s2)
  {
    hide SpansBytes, SpanBytes, AddNext, XmitNext;
    match e {
      case Add(span) => AddKeepsBuffers(c, s, span);
      case Xmit(t, ok) => XmitKeepsBuffers(c, s, t, ok);
      case _ =>
    }
  }

  // Messages.

  /** A step that keeps the numbered batches keeps what is known of the messages. */
  lemma SendsStay(c: Config, s: State, s2: State, m: Send)
    requires SendMatches(c, s, m)
    requires forall batch, spans :: BatchIs(s, batch, spans) ==> BatchIs(s2, batch, spans)
    ensures SendMatches(c, s2, m)
  {
    hide SendOf;
    var spans :| BatchIs(s, m.batch, spans) && SendOf(c, m.message, spans);
    assert BatchIs(s2, m.batch, spans);
  }

  lemma AttemptKeepsSends(c: Config, s: State, ok: bool)
    requires BuffersMatch(c, s) && Conserved(s) && SendsMatch(c, s) && s.pc.Sending?
    ensures SendsMatch(c, AttemptNext(c, s, ok))
  {
    hide WritePrequel, SpansBytes;
    var s2 := AttemptNext(c, s, ok);
    forall m | m in s2.sends
      ensures SendMatches(c, s2, m)
    {
      if m in s.sends {
        SendsStay(c, s, s2, m);
      } else {
        assert BatchIs(s2, m.batch, s.inFlight) && SendOf(c, m.message, s.inFlight);
      }
    }
  }

  lemma StepKeepsSends(c: Config, s: State, e: Event)
    requires BuffersMatch(c, s) && Conserved(s) && SendsMatch(c, s) && Enabled(s, e)
    ensures SendsMatch(c, Next(c, s, e))
  {
    hide SpansBytes, SpanBytes, WritePrequel, SendMatches;
    var s2 := Next(c, s, e);
    if e.Xmit? && s.pc.Sending? {
      AttemptKeepsSends(c, s, e.ok);
    } else {
      forall m | m in s2.sends
        ensures SendMatches(c, s2, m)
      {
        SendsStay(c, s, s2, m);
      }
    }
  }

  lemma SendCountOne(sends: seq<Send>, m: Send, batch: nat)
    ensures SendCount(sends + [m], batch) == SendCount(sends, batch) + (if m.batch == batch then 1 else 0)
  {
    assert (sends + [m])[..|sends|] == sends;
  }

  lemma {:induction false} NoSendCount(sends: seq<Send>, batch: nat)
    requires forall m <- sends :: m.batch != batch
    ensures SendCount(sends, batch) == 0
  {
    if sends != [] {
      NoSendCount(sends[..|sends| - 1], batch);
    }
  }

  /** An attempt as far as messages and attempts go. */
  lemma AttemptShape(c: Config, s: State, ok: bool)
    requires s.pc.Sending?
    ensures var s2 := AttemptNext(c, s, ok);
            && s2.settled == s.settled && s2.inFlight == s.inFlight
            && (if WritePrequel(c.prid, s.sh.inactive.numSpans).Some? then
                  exists m: Send :: m.batch == |s.settled| && s2.sends == s.sends + [m]
                else s2.sends == s.sends && !(s2.pc.Sent? && s2.pc.delivered))
            && (s2.pc.Sending? || s2.pc.Sent?)
            && (s2.pc.Sending? ==> s2.pc.tries == s.pc.tries + 1)
            && (s2.pc.Sent? ==> s2.pc.attempts == s.pc.tries + 1)
  {
    hide WritePrequel, SpansBytes;
    var prequel := WritePrequel(c.prid, s.sh.inactive.numSpans);
    if prequel.Some? {
      var m := Send(prequel.value + s.sh.inactive.data, |s.settled|);
      assert m.batch == |s.settled| && AttemptNext(c, s, ok).sends == s.sends + [m];
    }
  }

  lemma AttemptKeepsCounts(c: Config, s: State, ok: bool)
    requires BuffersMatch(c, s) && Counted(c, s) && s.pc.Sending?
    ensures Counted(c, AttemptNext(c, s, ok))
  {
    hide WritePrequel, SpansBytes, AttemptNext, SendCount;
    var s2 := AttemptNext(c, s, ok);
    AttemptShape(c, s, ok);
    if s2.sends != s.sends {
      var m: Send :| m.batch == |s.settled| && s2.sends == s.sends + [m];
      SendCountOne(s.sends, m, |s.settled|);
      forall k | 0 <= k < |s.settled|
        ensures CountIs(c, s2, k, s.settled[k].spans, s.settled[k].attempts, s.settled[k].delivered)
      {
        SendCountOne(s.sends, m, k);
        assert CountIs(c, s, k, s.settled[k].spans, s.settled[k].attempts, s.settled[k].delivered);
      }
    } else {
      CountsStay(c, s, s2);
    }
  }

  lemma CountsStay(c: Config, s: State, s2: State)
    requires Counted(c, s) && s2.sends == s.sends && s2.settled == s.settled
    ensures forall k :: 0 <= k < |s2.settled| ==>
              CountIs(c, s2, k, s2.settled[k].spans, s2.settled[k].attempts, s2.settled[k].delivered)
  {
    hide WritePrequel;
    forall k | 0 <= k < |s2.settled|
      ensures CountIs(c, s2, k, s2.settled[k].spans, s2.settled[k].attempts, s2.settled[k].delivered)
    {
      assert CountIs(c, s, k, s.settled[k].spans, s.settled[k].attempts, s.settled[k].delivered);
    }
  }

  lemma ClearKeepsCounts(c: Config, s: State)
    requires Counted(c, s) && s.pc.Sent?
    ensures Counted(c, XmitNext(c, s, 0, false))
  {
    hide WritePrequel;
    var s2 := XmitNext(c, s, 0, false);
    forall k | 0 <= k < |s2.settled|
      ensures CountIs(c, s2, k, s2.settled[k].spans, s2.settled[k].attempts, s2.settled[k].delivered)
    {
      if k < |s.settled| {
        assert CountIs(c, s, k, s.settled[k].spans, s.settled[k].attempts, s.settled[k].delivered);
      }
    }
    NoSendCount(s.sends, |s2.settled|);
  }

  lemma StepKeepsCounts(c: Config, s: State, e: Event)
    requires BuffersMatch(c, s) && Counted(c, s) && Enabled(s, e)
    ensures Counted(c, Next(c, s, e))
  {
    hide SpansBytes, SpanBytes, WritePrequel, SendCount, BothEmpty;
    if e.Xmit? && s.pc.Sending? {
      AttemptKeepsCounts(c, s, e.ok);
    } else if e.Xmit? && s.pc.Sent? {
      ClearKeepsCounts(c, s);
    } else {
      CountsStay(c, s, Next(c, s, e));
    }
  }

  // Flushers.

  lemma AddKeepsFlushers(c: Config, s: State, span: SpanData)
    requires FlushersOk(s)
    ensures FlushersOk(AddNext(c, s, span))
  {
    hide SpanBytes;
  }

  lemma XmitKeepsFlushers(c: Config, s: State, t: nat, ok: bool)
    requires Conserved(s) && ClockOrder(s) && FlushersOk(s)
    requires Enabled(s, Xmit(t, ok))
    ensures FlushersOk(XmitNext(c, s, t, ok))
  {
    hide XmitNext, FlusherOk;
    var s2 := XmitNext(c, s, t, ok);
    XmitKeepsMap(c, s, t, ok);
    forall tid | tid in s2.flushers
      ensures FlusherOk(s2, s2.flushers[tid])
    {
      if s.pc.Sent? {
        ClearKeepsFlusher(c, s, s.flushers[tid]);
      } else {
        XmitKeepsFlusher(c, s, t, ok, s.flushers[tid]);
      }
    }
  }

  lemma XmitKeepsMap(c: Config, s: State, t: nat, ok: bool)
    requires Enabled(s, Xmit(t, ok))
    ensures XmitNext(c, s, t, ok).flushers == s.flushers
    ensures s.pc.Sent? ==> XmitNext(c, s, t, ok) == XmitNext(c, s, 0, false)
  {
    hide SpansBytes, WritePrequel, ShouldXmit, BothEmpty;
  }

  lemma ClearKeepsFlusher(c: Config, s: State, f: Flusher)
    requires s.pc.Sent? && FlusherOk(s, f)
    ensures FlusherOk(XmitNext(c, s, 0, false), f)
  {
    SettledOne(s.settled, Batch(s.inFlight, s.pc.attempts, s.pc.delivered));
  }

  lemma XmitKeepsFlusher(c: Config, s: State, t: nat, ok: bool, f: Flusher)
    requires Conserved(s) && ClockOrder(s) && FlusherOk(s, f)
    requires Enabled(s, Xmit(t, ok)) && !s.pc.Sent?
    ensures FlusherOk(XmitNext(c, s, t, ok), f)
  {
    hide SpansBytes, WritePrequel, ShouldXmit, BothEmpty, SettledSpans;
  }

  /** If both buffers are empty, everything accepted is settled. */
  lemma EmptyMeansSettled(c: Config, s: State)
    requires BuffersMatch(c, s) && Conserved(s) && BothEmpty(s.sh)
    ensures s.pending == [] && s.inFlight == [] && s.accepted == SettledSpans(s.settled)
  {
    hide SpansBytes;
    SpansBytesLength(s.pending);
    SpansBytesLength(s.inFlight);
  }

  lemma FlushCheckKeepsFlushers(c: Config, s: State, tid: nat, now: nat, mark: nat, safe: bool)
    requires BuffersMatch(c, s) && Conserved(s) && FlushersOk(s)
    requires mark <= |s.accepted|
    requires safe && s.sh.lastSendMs >= now ==> mark <= SettledCount(s)
    requires safe && MidXmit(s.pc) && now <= s.pc.now ==> mark <= SettledCount(s) + |s.inFlight|
    ensures FlushersOk(FlushCheck(s, tid, now, mark, safe))
  {
    hide SpansBytes, BuffersMatch;
    if BothEmpty(s.sh) {
      EmptyMeansSettled(c, s);
    }
    var s2 := FlushCheck(s, tid, now, mark, safe);
    forall id | id in s2.flushers
      ensures FlusherOk(s2, s2.flushers[id])
    {
      if id != tid {
        assert FlusherOk(s, s.flushers[id]);
      }
    }
  }

  lemma StepKeepsFlushers(c: Config, s: State, e: Event)
    requires BuffersMatch(c, s) && Conserved(s) && ClockOrder(s) && FlushersOk(s) && Enabled(s, e)
    ensures FlushersOk(Next(c, s, e))
  {
    hide SpansBytes, SpanBytes, AddNext, XmitNext, FlushCheck;
    match e {
      case Add(span) => AddKeepsFlushers(c, s, span);
      case Xmit(t, ok) => XmitKeepsFlushers(c, s, t, ok);
      case FlushEnter(tid, t) =>
        var s1 := s.(clock := t);
        forall id | id in s1.flushers
          ensures FlusherOk(s1, s1.flushers[id])
        {
          assert FlusherOk(s, s.flushers[id]);
        }
        assert BuffersMatch(c, s1) by { BuffersIgnoreClock(c, s, t); }
        FlushCheckKeepsFlushers(c, s1, tid, t, |s.accepted|, SafeEntry(s, t));
      case FlushWake(tid) =>
        var f := s.flushers[tid];
        assert FlusherOk(s, f);
        FlushCheckKeepsFlushers(c, s, tid, f.now, f.mark, f.safe);
      case SetShutdown =>
        var s2 := Next(c, s, e);
        forall id | id in s2.flushers
          ensures FlusherOk(s2, s2.flushers[id])
        {
          assert FlusherOk(s, s.flushers[id]);
        }
    }
  }

  lemma BuffersIgnoreClock(c: Config, s: State, t: nat)
    requires BuffersMatch(c, s)
    ensures BuffersMatch(c, s.(clock := t))
  {
  }

  /** Every enabled step of every thread keeps the invariant, unless a writer finds no room. */
  lemma StepKeepsInv(c: Config, s: State, e: Event)
    requires Inv(c, s) && Enabled(s, e) && FindsRoom(c, s, e)
    ensures Inv(c, Next(c, s, e))
  {
    hide BuffersMatch, Conserved, Attempted, ClockOrder, SendsMatch, Counted, FlushersOk, Next;
    StepKeepsBuffers(c, s, e);
    StepKeepsCounts(c, s, e);
    StepKeepsSends(c, s, e);
    StepKeepsFlushers(c, s, e);
  }

  lemma InitInv(c: Config, t: nat)
    ensures Inv(c, Init(t))
  {
  }

  // ---------------------------------------------------------------- runs

  ghost predicate IsRun(c: Config, s: State, es: seq<Event>)
    decreases |es|
  {
    es != [] ==> Enabled(s, es[0]) && IsRun(c, Next(c, s, es[0]), es[1..])
  }

  ghost function After(c: Config, s: State, es: seq<Event>): State
    requires IsRun(c, s, es)
    decreases |es|
  {
    if es == [] then s else After(c, Next(c, s, es[0]), es[1..])
  }

  /** Every writer in the run finds room when it takes its step. */
  ghost predicate HasRoom(c: Config, s: State, es: seq<Event>)
    requires IsRun(c, s, es)
    decreases |es|
  {
    es != [] ==> FindsRoom(c, s, es[0]) && HasRoom(c, Next(c, s, es[0]), es[1..])
  }

  ghost predicate IsRoomyRun(c: Config, s: State, es: seq<Event>) {
    IsRun(c, s, es) && HasRoom(c, s, es)
  }

  /** The states that some interleaving of the threads leads to in which every writer finds
      room. */
  ghost predicate Reachable(c: Config, s: State) {
    exists t: nat, es :: IsRoomyRun(c, Init(t), es) && After(c, Init(t), es) == s
  }

  lemma RunFirst(c: Config, s: State, e: Event, es: seq<Event>)
    requires Enabled(s, e)
    ensures IsRun(c, s, [e] + es) == IsRun(c, Next(c, s, e), es)
    ensures IsRoomyRun(c, s, [e] + es) == (FindsRoom(c, s, e) && IsRoomyRun(c, Next(c, s, e), es))
    ensures IsRun(c, s, [e] + es) ==> After(c, s, [e] + es) == After(c, Next(c, s, e), es)
  {
    hide Next, Enabled, FindsRoom;
    assert ([e] + es)[1..] == es;
  }

  lemma {:induction false} RunAppend(c: Config, s: State, a: seq<Event>, b: seq<Event>)
    requires IsRun(c, s, a) && IsRun(c, After(c, s, a), b)
    ensures IsRun(c, s, a + b) && After(c, s, a + b) == After(c, After(c, s, a), b)
    ensures HasRoom(c, s, a) && HasRoom(c, After(c, s, a), b) ==> HasRoom(c, s, a + b)
    decreases |a|
  {
    hide Next, Enabled, FindsRoom;
    if a == [] {
      assert a + b == b;
    } else {
      RunAppend(c, Next(c, s, a[0]), a[1..], b);
      assert (a + b)[1..] == a[1..] + b;
    }
  }

  lemma {:induction false} RunKeepsInv(c: Config, s: State, es: seq<Event>)
    requires Inv(c, s) && IsRoomyRun(c, s, es)
    ensures Inv(c, After(c, s, es))
    decreases |es|
  {
    hide Inv, Next, Enabled, FindsRoom;
    if es != [] {
      StepKeepsInv(c, s, es[0]);
      RunKeepsInv(c, Next(c, s, es[0]), es[1..]);
    }
  }

  lemma ReachableInv(c: Config, s: State)
    requires Reachable(c, s)
    ensures Inv(c, s)
  {
    hide Inv;
    var t: nat, es :| IsRoomyRun(c, Init(t), es) && After(c, Init(t), es) == s;
    InitInv(c, t);
    RunKeepsInv(c, Init(t), es);
  }

  // ---------------------------------------------------------------- the space test

  predicate InBounds(c: Config, s: State) {
    |s.sh.active.data| <= c.BufLen() && |s.sh.inactive.data| <= c.BufLen()
  }

  /** Neither offset passes the end of its buffer at any moment of the run, and at none of
      them would it if a late writer were the next to run. */
  ghost predicate BoundsCertain(c: Config, s: State, es: seq<Event>)
    requires IsRun(c, s, es)
    decreases |es|
  {
    && InBounds(c, s)
    && (forall k :: 0 <= k < |s.late| ==> InBounds(c, LateNext(s, k)))
    && (es != [] ==> BoundsCertain(c, Next(c, s, es[0]), es[1..]))
  }

  /** The space test decides: the bounds are certain throughout a run if and only if no writer
      in it fails the test. */
  lemma {:induction false} BoundsExactly(c: Config, s: State, es: seq<Event>)
    requires Inv(c, s) && IsRun(c, s, es)
    ensures BoundsCertain(c, s, es) <==> HasRoom(c, s, es)
    decreases |es|
  {
    hide Inv, Next, Enabled, FindsRoom, InBounds, LateNext;
    InvInBounds(c, s);
    if es != [] {
      var s1 := Next(c, s, es[0]);
      if FindsRoom(c, s, es[0]) {
        StepKeepsInv(c, s, es[0]);
        BoundsExactly(c, s1, es[1..]);
      } else {
        RefusedCopy(c, s, es[0]);
      }
    }
  }

  lemma InvInBounds(c: Config, s: State)
    requires Inv(c, s)
    ensures InBounds(c, s) && s.late == []
  {
  }

  /** A writer that fails the test leaves the bounds if it copies at once. */
  lemma RefusedCopy(c: Config, s: State, e: Event)
    requires InBounds(c, s) && s.late == [] && Enabled(s, e) && !FindsRoom(c, s, e)
    ensures e.Add?
    ensures var s1 := Next(c, s, e);
            |s1.late| == 1 && s1.sh == s.sh && Enabled(s1, LateCopy(0)) && !InBounds(c, LateNext(s1, 0))
  {
    hide SpanBytes;
    FitsInBounds(c, s.sh, |SpanBytes(e.span)|);
  }

  /** So every run with a refusal can be cut off behind the first one and continued with the
      late copy to a run that leaves the bounds. */
  lemma {:induction false} RefusalOverruns(c: Config, s: State, es: seq<Event>) returns (k: nat)
    requires Inv(c, s) && IsRun(c, s, es) && !HasRoom(c, s, es)
    ensures k < |es| && es[k].Add?
    ensures IsRoomyRun(c, s, es[..k]) && !FindsRoom(c, After(c, s, es[..k]), es[k])
    ensures IsRun(c, s, es[..k + 1] + [LateCopy(0)])
    ensures !InBounds(c, After(c, s, es[..k + 1] + [LateCopy(0)]))
    decreases |es|
  {
    hide Inv, Next, Enabled, FindsRoom, InBounds, LateNext;
    var e := es[0];
    var s1 := Next(c, s, e);
    if FindsRoom(c, s, e) {
      StepKeepsInv(c, s, e);
      var k1 := RefusalOverruns(c, s1, es[1..]);
      k := k1 + 1;
      assert es[..k] == [e] + es[1..][..k1];
      assert es[..k + 1] + [LateCopy(0)] == [e] + (es[1..][..k1 + 1] + [LateCopy(0)]);
      RunFirst(c, s, e, es[1..][..k1]);
      RunFirst(c, s, e, es[1..][..k1 + 1] + [LateCopy(0)]);
    } else {
      k := 0;
      InvInBounds(c, s);
      RefusedCopy(c, s, e);
      LateStep(c, s1);
      assert es[..1] + [LateCopy(0)] == [e] + [LateCopy(0)];
      RunFirst(c, s, e, [LateCopy(0)]);
    }
  }

  lemma LateStep(c: Config, s: State)
    requires Enabled(s, LateCopy(0))
    ensures IsRun(c, s, [LateCopy(0)]) && After(c, s, [LateCopy(0)]) == LateNext(s, 0)
  {
    hide LateNext;
    assert [LateCopy(0)][1..] == [];
  }

  function Repeat<T>(x: T, n: nat): (r: seq<T>)
    ensures |r| == n
    ensures forall i :: 0 <= i < n ==> r[i] == x
  {
    if n == 0 then [] else [x] + Repeat(x, n - 1)
  }

  /** For any span there are such runs: at most as many adds as a buffer has bytes, and one
      more, before the transmit thread gets to run, and the copy of the last one. */
  lemma AddsOverrun(c: Config, span: SpanData, t: nat) returns (k: nat)
    ensures k <= c.BufLen() && IsRoomyRun(c, Init(t), Repeat(Add(span), k))
    ensures !FindsRoom(c, After(c, Init(t), Repeat(Add(span), k)), Add(span))
    ensures var es := Repeat(Add(span), k + 1) + [LateCopy(0)];
            IsRun(c, Init(t), es) && !InBounds(c, After(c, Init(t), es))
  {
    hide SpanBytes, SpansBytes, InBounds, Next, FindsRoom;
    var n := c.BufLen() + 1;
    var es := Repeat(Add(span), n);
    InitInv(c, t);
    AddsRun(c, Init(t), span, n);
    AddsFit(c, Init(t), span, n);
    k := RefusalOverruns(c, Init(t), es);
    assert es[..k] == Repeat(Add(span), k) && es[..k + 1] == Repeat(Add(span), k + 1);
  }

  lemma {:induction false} AddsRun(c: Config, s: State, span: SpanData, n: nat)
    requires !LockHeld(s.pc)
    ensures IsRun(c, s, Repeat(Add(span), n))
    decreases n
  {
    hide SpanBytes;
    if n > 0 {
      AddsRun(c, Next(c, s, Add(span)), span, n - 1);
      RunFirst(c, s, Add(span), Repeat(Add(span), n - 1));
    }
  }

  /** A buffer has no room for more spans than bytes. */
  lemma AddsFit(c: Config, s: State, span: SpanData, n: nat)
    requires Inv(c, s) && IsRun(c, s, Repeat(Add(span), n))
    ensures HasRoom(c, s, Repeat(Add(span), n)) ==> n <= c.BufLen()
  {
    hide Inv, SpansBytes, HasRoom;
    if HasRoom(c, s, Repeat(Add(span), n)) {
      var s2 := After(c, s, Repeat(Add(span), n));
      RunKeepsInv(c, s, Repeat(Add(span), n));
      AddsPending(c, s, span, n);
      PendingBound(c, s2);
    }
  }

  lemma PendingBound(c: Config, s: State)
    requires Inv(c, s)
    ensures |s.pending| <= c.BufLen()
  {
    SpansBytesLength(s.pending);
  }

  lemma {:induction false} AddsPending(c: Config, s: State, span: SpanData, n: nat)
    requires IsRoomyRun(c, s, Repeat(Add(span), n))
    ensures var s2 := After(c, s, Repeat(Add(span), n));
            && |s2.pending| == |s.pending| + n
            && s2.pc == s.pc && s2.clock == s.clock && s2.sh.lastSendMs == s.sh.lastSendMs && s2.late == s.late
    decreases n
  {
    hide SpanBytes;
    if n > 0 {
      var e := Add(span);
      assert Repeat(e, n)[0] == e && Repeat(e, n)[1..] == Repeat(e, n - 1);
      AddsPending(c, Next(c, s, e), span, n - 1);
    }
  }

  /** And there are runs in which the late copy goes into the buffer in flight: the refused
      writer lets the transmit thread flip the buffers first. */
  lemma LateCopyInFlight(c: Config, s: State, span: SpanData, t: nat)
    requires s.pc.Waiting? && s.late == [] && s.clock <= t
    requires !FindsRoom(c, s, Add(span)) && ShouldXmit(c, s.sh, t)
    ensures var es := [Add(span), Xmit(t, true), Xmit(t, true), Xmit(t, true)];
            && IsRun(c, s, es)
            && var s1 := After(c, s, es);
               && s1.pc.Sending? && s1.sh.inactive == s.sh.active && Enabled(s1, LateCopy(0))
               && Next(c, s1, LateCopy(0)).sh.inactive
                  == Sbuf(s.sh.active.data + SpanBytes(span), s.sh.active.numSpans + 1)
  {
    hide SpanBytes, ShouldXmit, Fits;
    var e := Xmit(t, true);
    var a := Next(c, s, Add(span));
    var b := Next(c, a, e);
    var d := Next(c, b, e);
    var f := Next(c, d, e);
    RunFirst(c, d, e, []);
    RunFirst(c, b, e, [e]);
    RunFirst(c, a, e, [e, e]);
    RunFirst(c, s, Add(span), [e, e, e]);
    assert [e] + [] == [e] && [e] + [e] == [e, e] && [e] + [e, e] == [e, e, e];
    assert [Add(span)] + [e, e, e] == [Add(span), e, e, e];
  }

  /** Such a run from the start, for any span that fits an empty buffer: the buffer in flight
      is not frozen. */
  lemma IsolationBreaks(c: Config, span: SpanData, t: nat) returns (es: seq<Event>)
    requires |SpanBytes(span)| <= c.BufLen() && c.flushIntervalMs < 0x8000_0000_0000_0000
    ensures IsRun(c, Init(t), es)
    ensures var s := After(c, Init(t), es);
            && s.pc.Sending? && Enabled(s, LateCopy(0))
            && Next(c, s, LateCopy(0)).sh.inactive != s.sh.inactive
  {
    hide SpanBytes, Next, Enabled, FindsRoom, ShouldXmit, IsRun, HasRoom, After;
    var k := AddsOverrun(c, span, t);
    var adds := Repeat(Add(span), k);
    var s := After(c, Init(t), adds);
    FilledState(c, span, t, k);
    var later := t + c.flushIntervalMs + 1;
    LateCopyInFlight(c, s, span, later);
    var tail := [Add(span), Xmit(later, true), Xmit(later, true), Xmit(later, true)];
    RunAppend(c, Init(t), adds, tail);
    es := adds + tail;
  }

  lemma FilledState(c: Config, span: SpanData, t: nat, k: nat)
    requires |SpanBytes(span)| <= c.BufLen() && c.flushIntervalMs < 0x8000_0000_0000_0000
    requires IsRoomyRun(c, Init(t), Repeat(Add(span), k))
    requires !FindsRoom(c, After(c, Init(t), Repeat(Add(span), k)), Add(span))
    ensures var s := After(c, Init(t), Repeat(Add(span), k));
            s.pc.Waiting? && s.late == [] && s.clock == t && ShouldXmit(c, s.sh, t + c.flushIntervalMs + 1)
  {
    hide SpanBytes, SpansBytes, Next, Conserved, Attempted, ClockOrder, SendsMatch, Counted, FlushersOk;
    var s := After(c, Init(t), Repeat(Add(span), k));
    FitsInBounds(c, Init(t).sh, |SpanBytes(span)|);
    AddsPending(c, Init(t), span, k);
    InitInv(c, t);
    RunKeepsInv(c, Init(t), Repeat(Add(span), k));
    SpansBytesLength(s.pending);
  }

  // ---------------------------------------------------------------- the guarantees

  /** First in, first out: at any moment the accepted spans are the settled batches in the
      order they were flipped, then the batch in flight, then the active buffer.  A batch is
      attempted one to three times and given up only after the third failure. */
  lemma FifoConservation(c: Config, s: State)
    requires Reachable(c, s)
    ensures s.accepted == SettledSpans(s.settled) + s.inFlight + s.pending
    ensures s.inFlight != [] <==> s.pc.Sending? || s.pc.Sent?
    ensures forall b <- s.settled :: b.spans != [] && 1 <= b.attempts <= 3 && (b.attempts < 3 ==> b.delivered)
  {
    ReachableInv(c, s);
  }

  /** Exact reservation: the offset of a buffer is the sum of the lengths of its spans and
      never passes the buffer, its counter is their number, and a message with the whole
      buffer behind any prequel stays within the RPC limit. */
  lemma ExactReservation(c: Config, s: State)
    requires Reachable(c, s)
    ensures s.sh.active.data == SpansBytes(s.pending) && s.sh.active.numSpans == |s.pending|
    ensures s.sh.inactive.data == SpansBytes(s.inFlight) && s.sh.inactive.numSpans == |s.inFlight|
    ensures |s.sh.active.data| <= c.BufLen() <= MAX_SPAN_DATA_LEN
    ensures |s.sh.inactive.data| <= c.BufLen()
    ensures forall m <- s.sends :: |m.message| <= MAX_HRPC_LEN
  {
    ReachableInv(c, s);
    forall m | m in s.sends
      ensures |m.message| <= MAX_HRPC_LEN
    {
      MessageFits(c, s, m);
    }
  }

  lemma MessageFits(c: Config, s: State, m: Send)
    requires SendMatches(c, s, m)
    ensures |m.message| <= MAX_WRITESPANS_PREQUEL_LEN + c.BufLen() <= MAX_HRPC_LEN
  {
    hide WritePrequel, SpansBytes, PrequelBytes, LastWrite;
    var spans :| BatchIs(s, m.batch, spans) && SendOf(c, m.message, spans);
    PrequelWritten(c.prid, |spans|);
  }

  /** The number of messages sent for a settled batch is the number of its attempts; it is
      none only if the prequel could not be written, and then the batch was given up. */
  lemma AttemptsAreSends(c: Config, s: State, k: nat)
    requires Reachable(c, s) && k < |s.settled|
    ensures var b := s.settled[k];
            if WritePrequel(c.prid, |b.spans|).Some? then SendCount(s.sends, k) == b.attempts
            else SendCount(s.sends, k) == 0 && !b.delivered && b.attempts == 3
  {
    hide WritePrequel;
    ReachableInv(c, s);
    assert CountIs(c, s, k, s.settled[k].spans, s.settled[k].attempts, s.settled[k].delivered);
    assert s.settled[k] in s.settled;
  }

  /** The spans of a batch that a message was sent for. */
  function BatchSpans(s: State, batch: nat): seq<SpanData> {
    if batch < |s.settled| then s.settled[batch].spans else s.inFlight
  }

  /** End to end: a message handed to the RPC client in any reachable state reads back as
      the process id and exactly the spans accepted into its batch, in order, if and only
      if the prequel fitted its 1024 bytes and every one of these spans is encodable. */
  lemma MessagesReadBack(c: Config, s: State, m: Send)
    requires c.Valid() && Reachable(c, s) && m in s.sends
    ensures var spans := BatchSpans(s, m.batch);
            && spans != []
            && (ParseRequest(m.message) == Some(Request(c.prid, spans))
                <==> |PrequelBytes(c.prid, |spans|)| <= MAX_WRITESPANS_PREQUEL_LEN && forall x <- spans :: Encodable(x))
  {
    hide ParseRequest, PrequelBytes, WritePrequel, SpansBytes, Encodable;
    ReachableInv(c, s);
    assert SendMatches(c, s, m);
    var spans :| BatchIs(s, m.batch, spans) && SendOf(c, m.message, spans);
    SpansBytesLength(spans);
    MessageRoundTrip(c.prid, spans);
  }

  /** Isolation, outside a send: unless the transmit thread is between flip and clear, the
      inactive buffer is empty. */
  lemma InactiveEmptyOutsideSend(c: Config, s: State)
    requires Reachable(c, s) && !s.pc.Sending? && !s.pc.Sent?
    ensures s.sh.inactive == EMPTY
  {
    ReachableInv(c, s);
    SpansBytesLength([]);
  }

  /** Isolation, during a send: from the flip on, in any run in which every writer finds room,
      the buffer in flight is frozen and the buffers keep their places until the clear, which
      settles the batch; the active buffer is only appended to.  Without room it is not so,
      see LateCopyInFlight. */
  lemma {:induction false} InFlightFrozen(c: Config, s: State, es: seq<Event>)
    requires s.late == [] && IsRoomyRun(c, s, es) && (s.pc.Sending? || s.pc.Sent?)
    requires |After(c, s, es).settled| == |s.settled|
    ensures var s2 := After(c, s, es);
            && (s2.pc.Sending? || s2.pc.Sent?)
            && s2.sh.inactive == s.sh.inactive && s2.sh.index == s.sh.index && s2.inFlight == s.inFlight
            && s.sh.active.data <= s2.sh.active.data && s.pending <= s2.pending
    decreases |es|
  {
    hide Next, Enabled, FindsRoom;
    if es != [] {
      var s1 := Next(c, s, es[0]);
      SettledGrows(c, s1, es[1..]);
      StepDuringSend(c, s, es[0]);
      InFlightFrozen(c, s1, es[1..]);
    }
  }

  lemma StepDuringSend(c: Config, s: State, e: Event)
    requires s.late == [] && Enabled(s, e) && FindsRoom(c, s, e) && (s.pc.Sending? || s.pc.Sent?)
    ensures var s2 := Next(c, s, e);
            && s2.late == []
            && if s.pc.Sent? && e.Xmit? then |s2.settled| == |s.settled| + 1
               else
                 && |s2.settled| == |s.settled| && (s2.pc.Sending? || s2.pc.Sent?)
                 && s2.sh.inactive == s.sh.inactive && s2.sh.index == s.sh.index && s2.inFlight == s.inFlight
                 && s.sh.active.data <= s2.sh.active.data && s.pending <= s2.pending
  {
    hide SpanBytes, WritePrequel, Fits;
  }

  lemma {:induction false} SettledGrows(c: Config, s: State, es: seq<Event>)
    requires IsRun(c, s, es)
    ensures |s.settled| <= |After(c, s, es).settled|
    decreases |es|
  {
    hide Enabled, SpanBytes, WritePrequel, ShouldXmit, BothEmpty;
    if es != [] {
      SettledGrows(c, Next(c, s, es[0]), es[1..]);
    }
  }

  // ---------------------------------------------------------------- the transmit loops

  /** A second round of the loop on should_xmit starts a send only for the size of the
      buffer, and all of its bytes were accepted since the previous flip. */
  lemma RepeatedXmit(c: Config, s: State, ok: bool)
    requires Reachable(c, s) && s.pc.Check? && s.pc.again
    requires Next(c, s, Xmit(0, ok)).pc.Sending?
    ensures |s.sh.active.data| > c.sendThreshold
    ensures s.flipMark <= |s.accepted| && s.sh.active.data == SpansBytes(s.accepted[s.flipMark..])
  {
    hide SpansBytes, WritePrequel, SendsMatch, Counted, FlushersOk, Attempted;
    ReachableInv(c, s);
    assert s.accepted[s.flipMark..] == s.pending;
  }

  /** When the transmit thread leaves its loop, both buffers are empty and every accepted
      span is settled. */
  lemma ShutdownDrains(c: Config, s: State, t: nat, ok: bool)
    requires Reachable(c, s) && Enabled(s, Xmit(t, ok))
    requires Next(c, s, Xmit(t, ok)).pc.Exited?
    ensures BothEmpty(Next(c, s, Xmit(t, ok)).sh)
    ensures SettledSpans(Next(c, s, Xmit(t, ok)).settled) == s.accepted
  {
    hide SpansBytes, WritePrequel, ShouldXmit, SendsMatch, Counted, FlushersOk, Attempted;
    ReachableInv(c, s);
    EmptyMeansSettled(c, s);
  }

  /** The number of flips of a run. */
  ghost function Flips(c: Config, s: State, es: seq<Event>): nat
    requires IsRun(c, s, es)
    decreases |es|
  {
    if es == [] then 0
    else
      var s2 := Next(c, s, es[0]);
      Flips(c, s2, es[1..]) + (if s2.sh.index != s.sh.index then 1 else 0)
  }

  /** The drain loop with nothing left that it has not flipped. */
  predicate Drained(s: State) {
    s.pending == [] && (s.pc.Exited? || s.pc.Drain? || (MidXmit(s.pc) && s.pc.drain))
  }

  lemma DrainedStep(c: Config, s: State, e: Event)
    requires Inv(c, s) && Drained(s) && Enabled(s, e) && !e.Add?
    ensures Drained(Next(c, s, e)) && Next(c, s, e).sh.index == s.sh.index
  {
    hide SpansBytes, SpanBytes, WritePrequel, SendsMatch, Counted, FlushersOk;
    SpansBytesLength(s.pending);
    SpansBytesLength(s.inFlight);
  }

  lemma {:induction false} DrainedNeverFlips(c: Config, s: State, es: seq<Event>)
    requires Inv(c, s) && Drained(s) && IsRun(c, s, es)
    requires forall e <- es :: !e.Add?
    ensures Flips(c, s, es) == 0
    decreases |es|
  {
    hide Inv, Next, Drained;
    if es != [] {
      StepKeepsInv(c, s, es[0]);
      DrainedStep(c, s, es[0]);
      DrainedNeverFlips(c, Next(c, s, es[0]), es[1..]);
    }
  }

  /** Without further accepts, the drain loop sends at most once. */
  lemma DrainSendsOnce(c: Config, s: State, es: seq<Event>)
    requires Reachable(c, s) && s.pc.Drain? && IsRun(c, s, es)
    requires forall e <- es :: !e.Add?
    ensures Flips(c, s, es) <= 1
  {
    hide SpansBytes, SpanBytes, WritePrequel, SendsMatch, Counted, FlushersOk, FlushCheck;
    ReachableInv(c, s);
    if es != [] {
      StepKeepsInv(c, s, es[0]);
      var s2 := Next(c, s, es[0]);
      SpansBytesLength(s.pending);
      SpansBytesLength(s.inFlight);
      DrainedNeverFlips(c, s2, es[1..]);
    }
  }
}
