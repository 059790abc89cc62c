/** The receiver object of htraced.c: its two buffers and the fields the threads share.

    Each method is the body of one critical section, or of the stretch that the transmit
    thread runs without the lock.  It is proved to do what the matching step of
    `Transmitter` does to the shared fields. */
module Htraced {
  import opened Bytes
  import opened Cmp
  import opened CmpUtil
  import opened Span
  import opened WriteSpans
  import opened Transmitter
  import opened TransmitterSafety
  import opened Wrappers

  const HTRACED_NUM_BUFS := 2
  const HTRACED_MAX_ADD_TRIES := 3

  // ---------------------------------------------------------------- the send loop

  /** What the send loop did with a batch: the messages it handed to the RPC client, the
      number of attempts and whether the last one succeeded. */
  datatype Delivery = Delivery(messages: seq<seq<byte>>, attempts: nat, delivered: bool)

  /** What the RPC client answers to the first, second and third call. */
  type Answers = s: seq<bool> | |s| == HTRACED_MAX_SEND_TRIES witness [true, true, true]

  /** The message of an attempt, if there is one. */
  function MessageOf(prequel: Option<seq<byte>>, data: seq<byte>): seq<seq<byte>> {
    if prequel.Some? then [prequel.value + data] else []
  }

  /** The loop of htraced_xmit from a number of failures on. */
  function Deliver(prequel: Option<seq<byte>>, data: seq<byte>, answers: Answers, tries: nat): (d: Delivery)
    requires tries < HTRACED_MAX_SEND_TRIES
    ensures tries < d.attempts <= HTRACED_MAX_SEND_TRIES
    decreases HTRACED_MAX_SEND_TRIES - tries
  {
    var sent := MessageOf(prequel, data);
    if prequel.Some? && answers[tries] then Delivery(sent, tries + 1, true)
    else if tries + 1 == HTRACED_MAX_SEND_TRIES then Delivery(sent, tries + 1, false)
    else
      var rest := Deliver(prequel, data, answers, tries + 1);
      rest.(messages := sent + rest.messages)
  }

  /** A batch is delivered exactly when its prequel could be written and one of the three
      answers is a success; the loop stops at the first; every attempt sends the same bytes. */
  lemma {:induction false} DeliverMeaning(prequel: Option<seq<byte>>, data: seq<byte>, answers: Answers, tries: nat)
    requires tries < HTRACED_MAX_SEND_TRIES
    ensures var d := Deliver(prequel, data, answers, tries);
            && (d.delivered <==> prequel.Some? && exists k :: tries <= k < HTRACED_MAX_SEND_TRIES && answers[k])
            && (d.delivered ==> answers[d.attempts - 1])
            && (!d.delivered ==> d.attempts == HTRACED_MAX_SEND_TRIES)
            && (prequel.Some? ==> forall k :: tries <= k < d.attempts - 1 ==> !answers[k])
            && |d.messages| == (if prequel.Some? then d.attempts - tries else 0)
            && forall m <- d.messages :: prequel.Some? && m == prequel.value + data
    decreases HTRACED_MAX_SEND_TRIES - tries
  {
    if !(prequel.Some? && answers[tries]) && tries + 1 < HTRACED_MAX_SEND_TRIES {
      DeliverMeaning(prequel, data, answers, tries + 1);
    }
  }

  lemma DeliverStep(prequel: Option<seq<byte>>, data: seq<byte>, answers: Answers, tries: nat)
    requires tries < HTRACED_MAX_SEND_TRIES
    ensures var d, sent := Deliver(prequel, data, answers, tries), MessageOf(prequel, data);
            if prequel.Some? && answers[tries] then d == Delivery(sent, tries + 1, true)
            else if tries + 1 == HTRACED_MAX_SEND_TRIES then d == Delivery(sent, tries + 1, false)
            else
              var rest := Deliver(prequel, data, answers, tries + 1);
              d == rest.(messages := sent + rest.messages)
  {
  }

  /** The next `count` steps of the transmit thread, for the answers from an index on. */
  function Rounds(answers: Answers, from: nat, count: nat): seq<Event>
    requires from + count <= |answers|
    decreases count
  {
    if count == 0 then [] else [Xmit(0, answers[from])] + Rounds(answers, from + 1, count - 1)
  }

  function Numbered(messages: seq<seq<byte>>, batch: nat): seq<Send> {
    seq(|messages|, i requires 0 <= i < |messages| => Send(messages[i], batch))
  }

  lemma AttemptStep(c: Config, s: State, ok: bool)
    requires s.pc.Sending?
    ensures Enabled(s, Xmit(0, ok)) && Next(c, s, Xmit(0, ok)) == AttemptNext(c, s, ok)
  {
    hide AttemptNext;
  }

  lemma NumberedAppend(a: seq<seq<byte>>, b: seq<seq<byte>>, batch: nat)
    ensures Numbered(a + b, batch) == Numbered(a, batch) + Numbered(b, batch)
  {
  }

  ghost predicate RunsTo(c: Config, s: State, es: seq<Event>, end: State) {
    IsRun(c, s, es) && After(c, s, es) == end
  }

  function DeliverFrom(c: Config, s: State, answers: Answers): (d: Delivery)
    requires s.pc.Sending? && s.pc.tries < HTRACED_MAX_SEND_TRIES
    ensures s.pc.tries < d.attempts <= HTRACED_MAX_SEND_TRIES
  {
    Deliver(WritePrequel(c.prid, s.sh.inactive.numSpans), s.sh.inactive.data, answers, s.pc.tries)
  }

  function Delivered(s: State, d: Delivery): State
    requires s.pc.Sending?
  {
    s.(sends := s.sends + Numbered(d.messages, |s.settled|),
       pc := Sent(s.pc.now, s.pc.drain, d.attempts, d.delivered))
  }

  /** The send loop is a run of attempt steps of the step system. */
  lemma {:induction false} DeliverIsRun(c: Config, s: State, answers: Answers)
    requires s.pc.Sending? && s.pc.tries < HTRACED_MAX_SEND_TRIES
    ensures var d := DeliverFrom(c, s, answers);
            RunsTo(c, s, Rounds(answers, s.pc.tries, d.attempts - s.pc.tries), Delivered(s, d))
    decreases HTRACED_MAX_SEND_TRIES - s.pc.tries
  {
    hide WritePrequel, Enabled, Next;
    var tries := s.pc.tries;
    var d := DeliverFrom(c, s, answers);
    AttemptStep(c, s, answers[tries]);
    var s1 := AttemptNext(c, s, answers[tries]);
    var rest := Rounds(answers, tries + 1, d.attempts - tries - 1);
    assert RunsTo(c, s1, rest, Delivered(s, d)) by {
      hide IsRun, After;
      AttemptAdds(c, s, answers);
      if s1.pc.Sending? {
        DeliverIsRun(c, s1, answers);
      } else {
        NoMoreSteps(c, s1);
      }
    }
    RunFirst(c, s, Xmit(0, answers[tries]), rest);
  }

  lemma NoMoreSteps(c: Config, s: State)
    ensures RunsTo(c, s, [], s)
  {
  }

  /** What is sent from a state is what its next attempt sends, then what is sent from there. */
  lemma AttemptAdds(c: Config, s: State, answers: Answers)
    requires s.pc.Sending? && s.pc.tries < HTRACED_MAX_SEND_TRIES
    ensures var d, s1 := DeliverFrom(c, s, answers), AttemptNext(c, s, answers[s.pc.tries]);
            if s1.pc.Sending? then
              s1.pc.tries == s.pc.tries + 1 < HTRACED_MAX_SEND_TRIES
              && var d1 := DeliverFrom(c, s1, answers);
                 d1.attempts == d.attempts && Delivered(s1, d1) == Delivered(s, d)
            else d.attempts == s.pc.tries + 1 && s1 == Delivered(s, d)
  {
    hide WritePrequel;
    var prequel := WritePrequel(c.prid, s.sh.inactive.numSpans);
    var sent := MessageOf(prequel, s.sh.inactive.data);
    var s1 := AttemptNext(c, s, answers[s.pc.tries]);
    assert s1.sends == s.sends + Numbered(sent, |s.settled|);
    if s1.pc.Sending? {
      NumberedAppend(sent, DeliverFrom(c, s1, answers).messages, |s.settled|);
    }
  }

  // ---------------------------------------------------------------- the two passes

  /** The counting pass of a span and the copying pass into that much space both succeed,
      at the same length, and the copy is the bytes of the span. */
  lemma PassesAgree(s: SpanData)
    ensures var n := |SpanBytes(s)|;
            && Perform(Sink(Counter, 0, 0, ErrorNone, []), SpanCalls(s))
               == Outcome(Sink(Counter, 0, n, ErrorNone, []), true)
            && Perform(Sink(Unchecked, n, 0, ErrorNone, []), SpanCalls(s))
               == Outcome(Sink(Unchecked, n, n, ErrorNone, SpanBytes(s)), true)
  {
    hide SpanBytes, SpanCalls, Perform;
    var bytes := SpanBytes(s);
    var counter, copier := Sink(Counter, 0, 0, ErrorNone, []), Sink(Unchecked, |bytes|, 0, ErrorNone, []);
    SpanCallsBytes(s);
    PerformStores(counter, SpanCalls(s));
    PerformOk(counter, SpanCalls(s));
    PerformStores(copier, SpanCalls(s));
    PerformOk(copier, SpanCalls(s));
    assert [] + bytes[..|bytes|] == bytes;
  }

  // ---------------------------------------------------------------- the objects

  /** struct htraced_sbuf.  `memory` is the bytes from the start of buf on: the `len` bytes of
      the buffer and whatever lies behind it. */
  class SendBuffer {
    const len: nat
    const memory: array<byte>
    var off: nat
    var numSpans: nat

    ghost predicate Valid()
      reads this
    {
      len <= memory.Length && off <= memory.Length
    }

    ghost function View(): Sbuf
      reads this, memory
      requires Valid()
    {
      Sbuf(memory[..off], numSpans)
    }

    /** htraced_sbuf_alloc, with so many bytes behind the buffer. */
    constructor (len: nat, behind: nat)
      ensures Valid() && fresh(memory) && this.len == len && memory.Length == len + behind
      ensures View() == EMPTY
    {
      this.len, memory := len, new byte[len + behind];
      off, numSpans := 0, 0;
    }

    /** htraced_sbuf_remaining, an unsigned 64-bit difference. */
    method Remaining() returns (n: nat)
      requires Valid()
      ensures n == (len - |View().data|) % 0x1_0000_0000_0000_0000
    {
      n := (len - off) % 0x1_0000_0000_0000_0000;
    }
  }

  class HtracedRcv {
    const config: Config
    const bigEndianHost: bool
    const sbuf0: SendBuffer
    const sbuf1: SendBuffer
    var activeBuf: BufIndex
    var lastSendMs: nat
    var shutdown: bool

    function Buf(i: BufIndex): SendBuffer {
      if i == 0 then sbuf0 else sbuf1
    }

    ghost predicate Valid()
      reads this, sbuf0, sbuf1
    {
      && sbuf0 != sbuf1 && sbuf0.memory != sbuf1.memory
      && sbuf0.Valid() && sbuf1.Valid()
      && sbuf0.len == config.BufLen() && sbuf1.len == config.BufLen()
    }

    /** What the threads share. */
    ghost function View(): Shared
      reads this, sbuf0, sbuf1, sbuf0.memory, sbuf1.memory
      requires Valid()
    {
      Shared(activeBuf, Buf(activeBuf).View(), Buf(1 - activeBuf).View(), lastSendMs, shutdown)
    }

    /** htraced_rcv_create, as far as the fields above go, with so many bytes of memory behind
        each buffer. */
    constructor (config: Config, bigEndianHost: bool, now: nat, behind: nat)
      requires config.Valid()
      ensures Valid() && fresh(sbuf0) && fresh(sbuf1) && fresh(sbuf0.memory) && fresh(sbuf1.memory)
      ensures this.config == config && View() == Init(now).sh
    {
      this.config, this.bigEndianHost := config, bigEndianHost;
      sbuf0 := new SendBuffer(config.BufLen(), behind);
      sbuf1 := new SendBuffer(config.BufLen(), behind);
      activeBuf, lastSendMs, shutdown := 0, now, false;
    }

    // -------------------------------------------------------------- writers

    /** htraced_rcv_add_span as far as it holds the lock: a counting pass for the length, the
        space test, and, if that finds room, an unchecked copying pass into the active buffer.
        Otherwise nothing is changed yet: the lock has been released, the loop around the test
        left, and `late` is the buffer that the thread goes on to copy to with LateCopy.  It is
        NULL exactly if the test found room. */
    method AddSpan(span: HtraceSpan) returns (late: SendBuffer?)
      requires Valid() && span.Valid()
      requires Fits(config, View(), |SpanBytes(span.View())|) ==>
                 Buf(activeBuf).off + |SpanBytes(span.View())| <= Buf(activeBuf).memory.Length
      modifies Buf(activeBuf), Buf(activeBuf).memory
      ensures Valid()
      ensures var bytes := SpanBytes(old(span.View()));
              if Fits(config, old(View()), |bytes|) then late == null && View() == Append(old(View()), bytes)
              else late == Buf(activeBuf) && View() == old(View())
      ensures forall i :: Buf(activeBuf).off <= i < Buf(activeBuf).memory.Length ==>
                Buf(activeBuf).memory[i] == old(Buf(activeBuf).memory[i])
    {
      hide SpanBytes, SpanCalls, Perform;
      var need := Measure(span);
      var tries := 0;
      var sbuf := Buf(activeBuf);
      var rem := sbuf.Remaining();
      if rem < need {
        tries := tries + 1;
        // A first failure is always to be retried, and `continue` in a `do ... while (0)`
        // leaves the loop.
        var retry := tries < HTRACED_MAX_ADD_TRIES;
        assert retry;
        return sbuf;
      }
      Copy(span, sbuf, need);
      return null;
    }

    /** The rest of htraced_rcv_add_span after a failed test, without the lock: the copying
        pass into the buffer that was active at the test, at the offset that it has by now. */
    method LateCopy(span: HtraceSpan, sbuf: SendBuffer, ghost index: BufIndex)
      requires Valid() && span.Valid() && sbuf == Buf(index)
      requires sbuf.off + |SpanBytes(span.View())| <= sbuf.memory.Length
      modifies sbuf, sbuf.memory
      ensures Valid() && View() == AppendTo(old(View()), index, SpanBytes(old(span.View())))
      ensures forall i :: sbuf.off <= i < sbuf.memory.Length ==> sbuf.memory[i] == old(sbuf.memory[i])
    {
      hide SpanBytes, SpanCalls, Perform;
      var need := Measure(span);
      Copy(span, sbuf, need);
    }

    /** The counting pass. */
    method Measure(span: HtraceSpan) returns (n: nat)
      requires span.Valid()
      ensures n == |SpanBytes(span.View())|
    {
      hide SpanBytes, SpanCalls, Perform;
      PassesAgree(span.View());
      var counter := new Context.CounterInit(bigEndianHost);
      var ok := span.WriteMsgpack(counter);
      n := counter.off;
    }

    /** The copying pass. */
    method Copy(span: HtraceSpan, sbuf: SendBuffer, need: nat)
      requires span.Valid() && sbuf.Valid()
      requires need == |SpanBytes(span.View())| && sbuf.off + need <= sbuf.memory.Length
      modifies sbuf, sbuf.memory
      ensures sbuf.Valid()
      ensures sbuf.View() == Sbuf(old(sbuf.View()).data + SpanBytes(old(span.View())), old(sbuf.numSpans) + 1)
      ensures forall i :: sbuf.off <= i < sbuf.memory.Length ==> sbuf.memory[i] == old(sbuf.memory[i])
    {
      hide SpanBytes, SpanCalls, Perform;
      ghost var s, before := span.View(), sbuf.View().data;
      var off := sbuf.off;
      PassesAgree(s);
      var ctx := new Context.CopyInit(Unchecked, sbuf.memory, off, need, bigEndianHost);
      var ok := span.WriteMsgpack(ctx);
      assert sbuf.memory[off..off + need] == SpanBytes(s);
      assert sbuf.memory[..off] == before;
      sbuf.off := off + need;
      sbuf.numSpans := sbuf.numSpans + 1;
      assert sbuf.memory[..off + need] == sbuf.memory[..off] + sbuf.memory[off..off + need];
    }

    // -------------------------------------------------------------- the transmit thread

    /** should_xmit. */
    method ShouldSend(now: nat) returns (r: bool)
      requires Valid()
      ensures r == ShouldXmit(config, View(), now)
      ensures |View().active.data| > config.sendThreshold ==> r
      ensures |View().active.data| == 0 ==> !r
      ensures 0 < |View().active.data| <= config.sendThreshold && lastSendMs <= now < 0x1_0000_0000_0000_0000 ==>
                (r <==> now > lastSendMs + config.flushIntervalMs)
    {
      var off := Buf(activeBuf).off;
      if off > config.sendThreshold {
        return true;
      }
      if (now - lastSendMs) % 0x1_0000_0000_0000_0000 > config.flushIntervalMs {
        if off > 0 {
          return true;
        }
      }
      return false;
    }

    /** htraced_sbufs_empty. */
    method SbufsEmpty() returns (r: bool)
      requires Valid()
      ensures r == BothEmpty(View())
    {
      for i := 0 to HTRACED_NUM_BUFS
        invariant forall j: BufIndex :: j < i ==> Buf(j).off == 0
      {
        if Buf(i).off != 0 {
          return false;
        }
      }
      return true;
    }

    /** The flip at the start of htraced_xmit; the buffer to send is returned. */
    method FlipBuffers() returns (sbuf: SendBuffer)
      requires Valid()
      modifies this`activeBuf
      ensures Valid() && View() == Flip(old(View()))
      ensures sbuf == old(Buf(activeBuf)) == Buf(1 - activeBuf)
    {
      sbuf := Buf(activeBuf);
      activeBuf := 1 - activeBuf;
    }

    /** add_writespans_prequel: the length of what it stored in the 1024-byte prequel, or -1. */
    method AddWritespansPrequel(sbuf: SendBuffer, prequel: array<byte>) returns (n: int)
      requires prequel.Length == MAX_WRITESPANS_PREQUEL_LEN
      requires prequel != sbuf.memory
      modifies prequel
      ensures -1 <= n <= MAX_WRITESPANS_PREQUEL_LEN
      ensures WritePrequel(config.prid, sbuf.numSpans) == if n < 0 then None else Some(prequel[..n])
    {
      hide Perform, ObjectCalls, Encoding, HeaderCalls, StrCalls;
      var ctx := new Context.CopyInit(Bounded, prequel, 0, MAX_WRITESPANS_PREQUEL_LEN, bigEndianHost);
      ghost var k := ctx.View();
      ghost var header := Header(ArrayObject(sbuf.numSpans % 0x1_0000_0000));
      assert k == Sink(Bounded, MAX_WRITESPANS_PREQUEL_LEN, 0, ErrorNone, []);
      PrequelHeadCallsBytes(config.prid);
      Advance(k, PrequelHeadCalls(config.prid), header);
      var ok := WritePrequelHead(ctx);
      if !ok {
        return -1;
      }
      ok := ctx.WriteObject(ArrayObject(sbuf.numSpans % 0x1_0000_0000));
      if !ok {
        return -1;
      }
      n := ctx.off;
      assert ctx.View().out == prequel[..n];
    }

    /** Its writes up to the array header. */
    method WritePrequelHead(ctx: Context) returns (ok: bool)
      requires ctx.Valid() && ctx.mode.Bounded?
      modifies ctx`off, ctx`error, ctx.buf
      ensures ctx.Valid() && Outcome(ctx.View(), ok) == Perform(old(ctx.View()), PrequelHeadCalls(config.prid))
    {
      hide Perform, ObjectCalls, Encoding, HeaderCalls, StrCalls, FixStrCalls;
      ghost var c3 := FixStrCalls(SPANS);
      ghost var c2 := StrCalls(config.prid) + c3;
      ghost var c1 := FixStrCalls(DEFAULT_PID) + c2;
      HeaderProperties(FixMap(2));
      ShortStrCallsBytes(DEFAULT_PID);
      ShortStrCallsBytes(SPANS);
      StrCallsBytes(config.prid);
      Advance(ctx.View(), Header(FixMap(2)), c1);
      ok := ctx.WriteObject(FixMap(2));
      if !ok { return; }
      Advance(ctx.View(), FixStrCalls(DEFAULT_PID), c2);
      ok := WriteShortString(ctx, DEFAULT_PID);
      if !ok { return; }
      Advance(ctx.View(), StrCalls(config.prid), c3);
      ok := WriteLongString(ctx, config.prid);
      if !ok { return; }
      ok := WriteShortString(ctx, SPANS);
    }

    /** cmp_write_fixstr. */
    method WriteShortString(ctx: Context, data: seq<byte>) returns (ok: bool)
      requires |data| <= 0x1F
      requires ctx.Valid() && ctx.mode.Bounded?
      modifies ctx`off, ctx`error, ctx.buf
      ensures ctx.Valid() && Outcome(ctx.View(), ok) == Perform(old(ctx.View()), FixStrCalls(data))
    {
      hide Perform, ObjectCalls, Encoding, HeaderCalls;
      ok := ctx.WriteString(FixStr(|data|), data);
    }

    /** cmp_write_str with the length cut to 32 bits. */
    method WriteLongString(ctx: Context, data: seq<byte>) returns (ok: bool)
      requires ctx.Valid() && ctx.mode.Bounded?
      modifies ctx`off, ctx`error, ctx.buf
      ensures ctx.Valid() && Outcome(ctx.View(), ok) == Perform(old(ctx.View()), StrCalls(data))
    {
      hide Perform, ObjectCalls, Encoding, HeaderCalls;
      var n := |data| % 0x1_0000_0000;
      ok := ctx.WriteString(StrObject(n), data[..n]);
    }

    /** The stretch of htraced_xmit without the lock, up to the clearing of the buffer:
        htraced_xmit_impl is called until it succeeds or has failed three times.  `answers`
        is what the RPC client reports. */
    method SendLoop(sbuf: SendBuffer, answers: Answers)
        returns (messages: seq<seq<byte>>, attempts: nat, delivered: bool)
      requires sbuf.Valid()
      ensures Delivery(messages, attempts, delivered)
              == Deliver(WritePrequel(config.prid, sbuf.View().numSpans), sbuf.View().data, answers, 0)
    {
      hide WritePrequel, Deliver;
      messages, attempts := [], 0;
      ghost var p, data := WritePrequel(config.prid, sbuf.numSpans), sbuf.View().data;
      ghost var rest := Deliver(p, data, answers, 0);
      var tries := 0;
      while true
        invariant attempts == tries < HTRACED_MAX_SEND_TRIES
        invariant sbuf.Valid() && WritePrequel(config.prid, sbuf.numSpans) == p && sbuf.View().data == data
        invariant rest == Deliver(p, data, answers, tries)
        invariant Deliver(p, data, answers, 0) == rest.(messages := messages + rest.messages)
        decreases HTRACED_MAX_SEND_TRIES - tries
      {
        DeliverStep(p, data, answers, tries);
        var message;
        message, delivered := XmitImpl(sbuf, answers[tries]);
        messages := messages + message;
        attempts := attempts + 1;
        if delivered {
          break;
        }
        tries := tries + 1;
        if tries >= HTRACED_MAX_SEND_TRIES {
          break;
        }
        rest := Deliver(p, data, answers, tries);
      }
    }

    /** htraced_xmit_impl: the message handed to the RPC client, if there is one, and whether
        the call succeeded. */
    method XmitImpl(sbuf: SendBuffer, answer: bool) returns (message: seq<seq<byte>>, success: bool)
      requires sbuf.Valid()
      ensures var p := WritePrequel(config.prid, sbuf.View().numSpans);
              message == MessageOf(p, sbuf.View().data) && success == (p.Some? && answer)
    {
      hide WritePrequel;
      var prequel := new byte[MAX_WRITESPANS_PREQUEL_LEN];
      var n := AddWritespansPrequel(sbuf, prequel);
      if n < 0 {
        return [], false;
      }
      return [prequel[..n] + sbuf.memory[..sbuf.off]], answer;
    }

    /** The clearing of the buffer that was sent, still without the lock. */
    method ClearSent(sbuf: SendBuffer)
      requires Valid() && sbuf == Buf(1 - activeBuf)
      modifies sbuf
      ensures Valid() && View() == ClearInactive(old(View()))
    {
      sbuf.off := 0;
      sbuf.numSpans := 0;
    }

    /** The end of htraced_xmit, with the lock taken again. */
    method StampSend(now: nat)
      requires Valid()
      modifies this`lastSendMs
      ensures Valid() && View() == Stamp(old(View()), now)
    {
      lastSendMs := now;
    }

    /** htraced_xmit when no other thread runs in between: the active buffer is sent and the
        other one, which takes its place, keeps what it holds. */
    method XmitBatch(now: nat, answers: Answers)
        returns (messages: seq<seq<byte>>, attempts: nat, delivered: bool)
      requires Valid()
      modifies this`activeBuf, this`lastSendMs, Buf(activeBuf)
      ensures Valid() && View() == Stamp(ClearInactive(Flip(old(View()))), now)
      ensures Delivery(messages, attempts, delivered)
              == Deliver(WritePrequel(config.prid, old(View()).active.numSpans), old(View()).active.data, answers, 0)
    {
      hide Deliver, WritePrequel;
      var sbuf := FlipBuffers();
      messages, attempts, delivered := SendLoop(sbuf, answers);
      ClearSent(sbuf);
      StampSend(now);
    }

    // -------------------------------------------------------------- flush and shutdown

    /** One round of the loop in htraced_rcv_flush; false when the flusher goes on to wait. */
    method FlushRound(now: nat) returns (done: bool)
      requires Valid()
      modifies this`lastSendMs
      ensures Valid()
      ensures done <==> old(lastSendMs) >= now || (sbuf0.off == 0 && sbuf1.off == 0)
      ensures lastSendMs == if done then old(lastSendMs) else 0
      ensures View() == old(View()).(lastSendMs := lastSendMs)
    {
      if lastSendMs >= now {
        return true;
      }
      done := SbufsEmpty();
      if !done {
        lastSendMs := 0;
      }
    }

    /** The critical section of htraced_rcv_free. */
    method RequestShutdown()
      requires Valid()
      modifies this`shutdown
      ensures Valid() && View() == old(View()).(shutdown := true)
    {
      shutdown := true;
    }
  }
}
