/** The double-buffer transmitter of htraced.c as a step system.

    Any number of writer and flusher threads run with one transmit thread.  A critical
    section of a writer or flusher is one event, and so is the copy of a writer that went on
    without the lock; the transmit thread takes one event per control point, so that the
    others can run wherever it does not hold the lock. */
module Transmitter {
  import opened Bytes
  import opened Span
  import opened WriteSpans

  // ---------------------------------------------------------------- configuration

  const MAX_HRPC_LEN := 64 * 1024 * 1024
  const MAX_SPAN_DATA_LEN := MAX_HRPC_LEN - MAX_WRITESPANS_PREQUEL_LEN
  const HTRACED_MIN_BUFFER_SIZE := 4 * 1024 * 1024
  const HTRACED_MAX_BUFFER_SIZE := 2 * MAX_SPAN_DATA_LEN
  const HTRACED_MAX_SEND_TRIES := 3

  /** htraced_get_bounded_u64. */
  function Bounded(val: uint64, min: uint64, max: uint64): (r: uint64)
    requires min <= max
    ensures min <= r <= max
    ensures min <= val <= max ==> r == val
  {
    if val < min then min else if val > max then max else val
  }

  /** The length of each of the two buffers for a configured total size. */
  function BufferLength(bufferSize: uint64): (n: nat)
    ensures HTRACED_MIN_BUFFER_SIZE / 2 <= n <= MAX_SPAN_DATA_LEN
  {
    Bounded(bufferSize, HTRACED_MIN_BUFFER_SIZE, HTRACED_MAX_BUFFER_SIZE) / 2
  }

  /** What htraced_rcv_create sets up: the configured buffer size, a send threshold that is
      some part of a buffer, the flush interval and the process id of the tracer. */
  datatype Config = Config(bufferSize: uint64, sendThreshold: nat, flushIntervalMs: nat, prid: seq<byte>) {
    function BufLen(): nat { BufferLength(bufferSize) }

    predicate Valid() { sendThreshold <= BufLen() && |prid| < 0x1_0000_0000 }
  }

  // ---------------------------------------------------------------- the shared fields

  /** A send buffer: buf[..off] and num_spans. */
  datatype Sbuf = Sbuf(data: seq<byte>, numSpans: nat)

  const EMPTY := Sbuf([], 0)

  /** active_buf. */
  type BufIndex = i: int | i == 0 || i == 1

  /** The receiver fields that the threads share; `index` is active_buf. */
  datatype Shared = Shared(index: BufIndex, active: Sbuf, inactive: Sbuf, lastSendMs: nat, shutdown: bool)

  /** The space test of htraced_rcv_add_span on what htraced_sbuf_remaining returns, an
      unsigned 64-bit difference. */
  predicate Fits(c: Config, sh: Shared, len: nat) {
    (c.BufLen() - |sh.active.data|) % 0x1_0000_0000_0000_0000 >= len
  }

  /** Up to the end of the buffer the test is right. */
  lemma FitsInBounds(c: Config, sh: Shared, len: nat)
    requires |sh.active.data| <= c.BufLen()
    ensures Fits(c, sh, len) <==> |sh.active.data| + len <= c.BufLen()
  {
  }

  /** Once the offset is past the end the difference wraps around, and the test lets
      everything through. */
  lemma FitsPastTheEnd(c: Config, sh: Shared, len: nat)
    requires c.BufLen() < |sh.active.data|
    requires |sh.active.data| + len <= 0x1_0000_0000_0000_0000
    ensures Fits(c, sh, len)
  {
  }

  function Append(sh: Shared, bytes: seq<byte>): Shared {
    sh.(active := Sbuf(sh.active.data + bytes, sh.active.numSpans + 1))
  }

  /** The same on the buffer of an index, whichever of the two it is now. */
  function AppendTo(sh: Shared, index: BufIndex, bytes: seq<byte>): Shared {
    if index == sh.index then Append(sh, bytes)
    else sh.(inactive := Sbuf(sh.inactive.data + bytes, sh.inactive.numSpans + 1))
  }

  function Flip(sh: Shared): Shared
  {
    sh.(index := 1 - sh.index, active := sh.inactive, inactive := sh.active)
  }

  function ClearInactive(sh: Shared): Shared {
    sh.(inactive := EMPTY)
  }

  function Stamp(sh: Shared, now: nat): Shared {
    sh.(lastSendMs := now)
  }

  /** should_xmit; the elapsed time is an unsigned 64-bit difference. */
  predicate ShouldXmit(c: Config, sh: Shared, now: nat) {
    var off := |sh.active.data|;
    off > c.sendThreshold
    || ((now - sh.lastSendMs) % 0x1_0000_0000_0000_0000 > c.flushIntervalMs && off > 0)
  }

  /** htraced_sbufs_empty. */
  predicate BothEmpty(sh: Shared) {
    sh.active.data == [] && sh.inactive.data == []
  }

  // ---------------------------------------------------------------- the threads

  /** Where the transmit thread is.  It holds the lock at Top, Check, Test and Drain. */
  datatype Pc =
    | Top                                                          // about to read the clock
    | Check(now: nat, again: bool)                                 // about to evaluate should_xmit
    | Sending(now: nat, drain: bool, tries: nat)                   // about to attempt the send
    | Sent(now: nat, drain: bool, attempts: nat, delivered: bool)  // about to clear the buffer
    | Cleared(now: nat, drain: bool)                               // about to take the lock again
    | Test(now: nat)                                               // about to test for shutdown
    | Drain(now: nat)                                              // about to test both buffers
    | Waiting                                                      // in the timed wait, or not yet started
    | Exited

  predicate LockHeld(pc: Pc) {
    pc.Top? || pc.Check? || pc.Test? || pc.Drain?
  }

  /** Between the flip and the stamp of last_send_ms. */
  predicate MidXmit(pc: Pc) {
    pc.Sending? || pc.Sent? || pc.Cleared?
  }

  /** A flusher: its reading of the clock, the number of spans accepted before that, and
      whether its entry was safe (see SafeEntry). */
  datatype Flusher =
    | Blocked(now: nat, mark: nat, safe: bool)
    | Returned(now: nat, mark: nat, safe: bool)

  /** A writer that failed the space test: it has released the lock and left the loop around
      the test, and is about to copy its span to the buffer that was active at the test. */
  datatype LateWriter = LateWriter(index: BufIndex, span: SpanData)

  /** A batch that is over: delivered, or given up. */
  datatype Batch = Batch(spans: seq<SpanData>, attempts: nat, delivered: bool)

  /** A message handed to the RPC client, for the batch of that number. */
  datatype Send = Send(message: seq<byte>, batch: nat)

  /** `pending` and `inFlight` are the spans whose bytes are in the active and the inactive
      buffer; `accepted`, `settled` and `sends` record the history; `flipMark` is the number
      of spans accepted before the latest flip. */
  datatype State = State(
    sh: Shared,
    pc: Pc,
    clock: nat,
    flushers: map<nat, Flusher>,
    late: seq<LateWriter>,
    pending: seq<SpanData>,
    inFlight: seq<SpanData>,
    accepted: seq<SpanData>,
    settled: seq<Batch>,
    sends: seq<Send>,
    flipMark: nat)

  function SettledSpans(batches: seq<Batch>): seq<SpanData> {
    if batches == [] then []
    else SettledSpans(batches[..|batches| - 1]) + batches[|batches| - 1].spans
  }

  function SettledCount(s: State): nat {
    |SettledSpans(s.settled)|
  }

  /** Xmit is one step of the transmit thread; `t` is what the clock shows if it is read,
      `ok` whether a send that is attempted succeeds. */
  datatype Event =
    | Add(span: SpanData)
    | LateCopy(writer: nat)
    | FlushEnter(tid: nat, t: nat)
    | FlushWake(tid: nat)
    | SetShutdown
    | Xmit(t: nat, ok: bool)

  function Init(t: nat): State {
    State(Shared(0, EMPTY, EMPTY, t, false), Waiting, t, map[], [], [], [], [], [], [], 0)
  }

  /** Readings of the clock never decrease.  A blocked flusher may wake at any time, and a
      late writer, who has no lock, may run at any time. */
  predicate Enabled(s: State, e: Event) {
    match e
    case Add(_) => !LockHeld(s.pc)
    case LateCopy(writer) => writer < |s.late|
    case FlushEnter(tid, t) => !LockHeld(s.pc) && tid !in s.flushers && s.clock <= t
    case FlushWake(tid) => !LockHeld(s.pc) && tid in s.flushers && s.flushers[tid].Blocked?
    case SetShutdown => !LockHeld(s.pc)
    case Xmit(t, _) => !s.pc.Exited? && (s.pc.Top? ==> s.clock <= t)
  }

  /** When a flush entered at reading t is certain to return only after everything accepted
      before it is settled: unless last_send_ms has already reached t with spans unsettled,
      or the transmitter is inside htraced_xmit with a `now` that has reached t while spans
      are waiting in the active buffer. */
  predicate SafeEntry(s: State, t: nat) {
    && (t <= s.sh.lastSendMs ==> s.inFlight == [] && s.pending == [])
    && (MidXmit(s.pc) && t <= s.pc.now ==> s.pending == [])
  }

  /** One round of the loop in htraced_rcv_flush. */
  function FlushCheck(s: State, tid: nat, now: nat, mark: nat, safe: bool): State {
    if s.sh.lastSendMs >= now || BothEmpty(s.sh) then
      s.(flushers := s.flushers[tid := Returned(now, mark, safe)])
    else
      s.(sh := s.sh.(lastSendMs := 0), flushers := s.flushers[tid := Blocked(now, mark, safe)])
  }

  /** The writer's critical section: the span is appended if the space test finds room, and
      otherwise the writer goes on without the lock. */
  function AddNext(c: Config, s: State, span: SpanData): State {
    if Fits(c, s.sh, |SpanBytes(span)|) then
      s.(sh := Append(s.sh, SpanBytes(span)), pending := s.pending + [span], accepted := s.accepted + [span])
    else s.(late := s.late + [LateWriter(s.sh.index, span)])
  }

  /** The copy of a late writer, to the buffer it remembers. */
  function LateNext(s: State, writer: nat): State
    requires writer < |s.late|
  {
    var LateWriter(index, span) := s.late[writer];
    s.(sh := AppendTo(s.sh, index, SpanBytes(span)),
       late := s.late[..writer] + s.late[writer + 1..],
       pending := if index == s.sh.index then s.pending + [span] else s.pending,
       inFlight := if index == s.sh.index then s.inFlight else s.inFlight + [span],
       accepted := s.accepted + [span])
  }

  /** A writer that takes this step finds room. */
  predicate FindsRoom(c: Config, s: State, e: Event) {
    e.Add? ==> Fits(c, s.sh, |SpanBytes(e.span)|)
  }

  /** htraced_xmit up to the release of the lock. */
  function StartXmit(s: State, now: nat, drain: bool): State
  {
    s.(sh := Flip(s.sh), pending := s.inFlight, inFlight := s.pending, flipMark := |s.accepted|,
       pc := Sending(now, drain, 0))
  }

  /** One round of the send loop: htraced_xmit_impl and the decision to retry. */
  function AttemptNext(c: Config, s: State, ok: bool): State
    requires s.pc.Sending?
  {
    var Sending(now, drain, tries) := s.pc;
    var prequel := WritePrequel(c.prid, s.sh.inactive.numSpans);
    var s1 := if prequel.None? then s
              else s.(sends := s.sends + [Send(prequel.value + s.sh.inactive.data, |s.settled|)]);
    if prequel.Some? && ok then s1.(pc := Sent(now, drain, tries + 1, true))
    else if tries + 1 < HTRACED_MAX_SEND_TRIES then s1.(pc := Sending(now, drain, tries + 1))
    else s1.(pc := Sent(now, drain, tries + 1, false))
  }

  function XmitNext(c: Config, s: State, t: nat, ok: bool): State
    requires !s.pc.Exited?
  {
    match s.pc
    case Waiting => s.(pc := Top)
    case Top => s.(clock := t, pc := Check(t, false))
    case Check(now, _) => if ShouldXmit(c, s.sh, now) then StartXmit(s, now, false) else s.(pc := Test(now))
    case Sending(_, _, _) => AttemptNext(c, s, ok)
    case Sent(now, drain, attempts, delivered) =>
      s.(sh := ClearInactive(s.sh), settled := s.settled + [Batch(s.inFlight, attempts, delivered)],
         inFlight := [], pc := Cleared(now, drain))
    case Cleared(now, drain) =>
      s.(sh := Stamp(s.sh, now), pc := if drain then Drain(now) else Check(now, true))
    case Test(now) => s.(pc := if s.sh.shutdown then Drain(now) else Waiting)
    case Drain(now) => if BothEmpty(s.sh) then s.(pc := Exited) else StartXmit(s, now, true)
  }

  function Next(c: Config, s: State, e: Event): State
    requires Enabled(s, e)
  {
    match e
    case Add(span) => AddNext(c, s, span)
    case LateCopy(writer) => LateNext(s, writer)
    case FlushEnter(tid, t) => FlushCheck(s.(clock := t), tid, t, |s.accepted|, SafeEntry(s, t))
    case FlushWake(tid) => var f := s.flushers[tid]; FlushCheck(s, tid, f.now, f.mark, f.safe)
    case SetShutdown => s.(sh := s.sh.(shutdown := true))
    case Xmit(t, ok) => XmitNext(c, s, t, ok)
  }

  // ---------------------------------------------------------------- the invariant

  /** The buffers hold the bytes of the spans they are said to hold, within their length, and
      no writer is late. */
  predicate BuffersMatch(c: Config, s: State) {
    && s.late == []
    && s.sh.active == Sbuf(SpansBytes(s.pending), |s.pending|)
    && s.sh.inactive == Sbuf(SpansBytes(s.inFlight), |s.inFlight|)
    && |s.sh.active.data| <= c.BufLen()
    && |s.sh.inactive.data| <= c.BufLen()
  }

  /** The invariant the receiver rests on: the inactive buffer is empty unless a send is in
      flight.  And nothing is lost, duplicated or reordered. */
  predicate Conserved(s: State) {
    && (s.inFlight != [] <==> s.pc.Sending? || s.pc.Sent?)
    && s.accepted == SettledSpans(s.settled) + s.inFlight + s.pending
    && s.flipMark + |s.pending| == |s.accepted|
  }

  predicate GoodAttempts(attempts: nat, delivered: bool) {
    1 <= attempts <= HTRACED_MAX_SEND_TRIES && (!delivered ==> attempts == HTRACED_MAX_SEND_TRIES)
  }

  predicate Attempted(s: State) {
    && (s.pc.Sending? ==> s.pc.tries < HTRACED_MAX_SEND_TRIES)
    && (s.pc.Sent? ==> GoodAttempts(s.pc.attempts, s.pc.delivered))
    && (forall b <- s.settled :: b.spans != [] && GoodAttempts(b.attempts, b.delivered))
  }

  predicate ClockOrder(s: State) {
    && s.sh.lastSendMs <= s.clock
    && (MidXmit(s.pc) || s.pc.Check? || s.pc.Test? || s.pc.Drain? ==> s.pc.now <= s.clock)
    && (s.pc.Check? && s.pc.again ==> s.sh.lastSendMs == s.pc.now)
  }

  /** The batch of a number: settled, or the one in flight. */
  predicate BatchIs(s: State, batch: nat, spans: seq<SpanData>) {
    if batch < |s.settled| then spans == s.settled[batch].spans
    else batch == |s.settled| && spans == s.inFlight && spans != []
  }

  /** A message is the prequel for its batch followed by the bytes of its spans, which
      fitted a buffer. */
  predicate SendOf(c: Config, m: seq<byte>, spans: seq<SpanData>) {
    && WritePrequel(c.prid, |spans|).Some?
    && m == WritePrequel(c.prid, |spans|).value + SpansBytes(spans)
    && |SpansBytes(spans)| <= c.BufLen()
  }

  ghost predicate SendMatches(c: Config, s: State, m: Send) {
    exists spans :: BatchIs(s, m.batch, spans) && SendOf(c, m.message, spans)
  }

  ghost predicate SendsMatch(c: Config, s: State) {
    forall m <- s.sends :: SendMatches(c, s, m)
  }

  /** The number of messages sent for a batch. */
  function SendCount(sends: seq<Send>, batch: nat): nat {
    if sends == [] then 0
    else SendCount(sends[..|sends| - 1], batch) + (if sends[|sends| - 1].batch == batch then 1 else 0)
  }

  /** Every attempt for a batch sent a message, unless its prequel could not be written. */
  predicate CountIs(c: Config, s: State, batch: nat, spans: seq<SpanData>, attempts: nat, delivered: bool) {
    if WritePrequel(c.prid, |spans|).Some? then SendCount(s.sends, batch) == attempts
    else SendCount(s.sends, batch) == 0 && !delivered
  }

  predicate Counted(c: Config, s: State) {
    && (forall k :: 0 <= k < |s.settled| ==>
          CountIs(c, s, k, s.settled[k].spans, s.settled[k].attempts, s.settled[k].delivered))
    && (s.pc.Sending? ==> CountIs(c, s, |s.settled|, s.inFlight, s.pc.tries, false))
    && (s.pc.Sent? ==> CountIs(c, s, |s.settled|, s.inFlight, s.pc.attempts, s.pc.delivered))
    && (!s.pc.Sending? && !s.pc.Sent? ==> SendCount(s.sends, |s.settled|) == 0)
    && (forall m <- s.sends :: m.batch <= |s.settled|)
  }

  /** A blocked flusher with a safe entry: what was accepted before it is settled, or the
      condition to return by time does not hold yet and the transmitter, if it is about to
      make it hold, has all of it in flight. */
  predicate FlusherOk(s: State, f: Flusher) {
    match f
    case Returned(now, mark, safe) => mark <= |s.accepted| && (safe ==> mark <= SettledCount(s))
    case Blocked(now, mark, safe) =>
      && mark <= |s.accepted|
      && now > 0
      && (safe ==>
            || mark <= SettledCount(s)
            || (s.sh.lastSendMs < now
                && (MidXmit(s.pc) && now <= s.pc.now ==> mark <= SettledCount(s) + |s.inFlight|)))
  }

  predicate FlushersOk(s: State) {
    forall tid <- s.flushers :: FlusherOk(s, s.flushers[tid])
  }

  ghost predicate Inv(c: Config, s: State) {
    && BuffersMatch(c, s) && Conserved(s) && Attempted(s) && ClockOrder(s)
    && SendsMatch(c, s) && Counted(c, s) && FlushersOk(s)
  }

  // ---------------------------------------------------------------- byte facts

  lemma SpanNotEmpty(s: SpanData)
    ensures |SpanBytes(s)| > 4
  {
    SpanStart(s);
  }

  lemma {:induction false} SpansBytesAppend(a: seq<SpanData>, b: seq<SpanData>)
    ensures SpansBytes(a + b) == SpansBytes(a) + SpansBytes(b)
  {
    hide SpanBytes;
    if a == [] {
      assert a + b == b;
    } else {
      SpansBytesAppend(a[1..], b);
      assert (a + b)[0] == a[0] && (a + b)[1..] == a[1..] + b;
      assert SpansBytes(a + b) == SpanBytes(a[0]) + SpansBytes(a[1..] + b);
    }
  }

  lemma SpansBytesOne(a: seq<SpanData>, x: SpanData)
    ensures SpansBytes(a + [x]) == SpansBytes(a) + SpanBytes(x)
  {
    hide SpanBytes;
    SpansBytesAppend(a, [x]);
    assert SpansBytes([x]) == SpanBytes(x) + SpansBytes([]);
  }

  /** A buffer is empty exactly when it holds no span, and holds at most one span a byte. */
  lemma {:induction false} SpansBytesLength(a: seq<SpanData>)
    ensures |SpansBytes(a)| >= |a|
    ensures SpansBytes(a) == [] <==> a == []
  {
    hide SpanBytes;
    if a != [] {
      SpanNotEmpty(a[0]);
      SpansBytesLength(a[1..]);
    }
  }

  lemma SettledOne(batches: seq<Batch>, b: Batch)
    ensures SettledSpans(batches + [b]) == SettledSpans(batches) + b.spans
  {
    assert (batches + [b])[..|batches|] == batches;
  }
}
