# HTrace C client: the span pipeline

This project models the C client of HTrace (`htrace-c/src`) from the opening of a scope to
the bytes of a message for htraced, with the configuration that sets it up, and proves what
the client relies on.

| file | what it models |
|---|---|
| Bytes.dfy | fixed-width integers, their memory layout and the byte exchange |
| Wrappers.dfy | a value that may be missing |
| Cmp.dfy | the MessagePack objects, writers and readers of cmp.c, as values |
| CmpUtil.dfy | the counter, bounded-copy and unchecked-copy contexts and the reader, as objects |
| Span.dfy | spans, their msgpack form, the two-pass printer, the list of parents |
| Formats.dfy | the table of MessagePack formats byte by byte, and cmp.c measured against it |
| WriteSpans.dfy | the WriteSpans message byte by byte, and an independent reader for it |
| Transmitter.dfy | the double-buffer transmitter as a step system of any number of threads |
| TransmitterSafety.dfy | its invariant over every interleaving, and what follows from it |
| FlushGuarantee.dfy | exactly when a flush keeps its promise |
| TransmitterProgress.dfy | when it sends, what a waiting flush makes of that, and how it ends |
| Htraced.dfy | the receiver object; each critical section refines its step |
| StringUtil.dfy | the UTF-8 validator and the printf that moves through a buffer |
| Json.dfy | a JSON writer and an independent reader |
| SpanJson.dfy | the JSON printer of spans |
| HTable.dfy | the linear-probing hash table |
| HTableRuns.dfy | runs of the table that mix puts and pops |
| Conf.dfy | configuration strings and their tables |
| ProcessId.dfy | process id templates |
| Scopes.dfy | the scope stack of a thread as a step system |
| ScopeObjects.dfy | the linked scope objects and the thread-local top |

`dafny verify dfyconfig.toml` verifies all of it.

## How it is modelled

Code that changes objects step by step is a class whose methods have the loops of the
source.  Each method is proved against a function or a step of a step system, and the
properties are proved about these.

In the transmitter, a critical section of a writer or a flusher is one step, and so is the
copy that a writer without room makes without the lock.  The transmit thread takes one step
per control point (read the clock, decide, flip and unlock, each attempt, clear, lock and
stamp, test for shutdown, drain), so that other threads run wherever it does not hold the
lock.  A waiting flusher may wake at any time.  Whether a send succeeds
and what the clock shows are arbitrary, except that clock readings never decrease.  The clock
is read in milliseconds, so that two readings can be equal.  A state is called reachable if
some run leads to it in which every writer finds room in the buffer.  A batch is called
settled when it was delivered or given up.

Integers have the width of the source where it matters: the 16- and 32-bit length
conversions, `off - len` arithmetic, the 64-bit time difference, the 32-bit hash and the
32-bit rounding of capacities are written out.  Strings are sequences of bytes (of characters
in configurations and templates) without the terminating zero, which is there explicitly
where code depends on it.

## Where the code differs from its comments

The code is followed in each case.

- `htraced.c:618-638`: `continue` inside `do ... while (0)` leaves the loop.  After a first
  failed space test the lock has been released and control falls through to the copy, without
  room and lock.  Such a writer is a late writer of the step system (AddNext): it remembers
  the buffer and copies to it at any later time (LateNext, AddSpan and LateCopy).
  BoundsExactly says that the offsets are certain to stay inside the buffers exactly in the
  runs in which no writer fails the test; AddsOverrun gives runs that leave them,
  IsolationBreaks runs in which the buffer in flight changes, and FitsPastTheEnd says that the
  test is of no use once an offset is past the end.  All other guarantees of the transmitter
  are about runs in which every writer passes the test.  The branch that gives up after three
  tries (635-636) is never reached.
- `htraced.c:582-584`: the log says that a failed send is retried after a delay;
  HTRACED_SEND_RETRY_SLEEP_MS is not used.
- `htraced.c:659-671`: a flush compares with `>=` on a millisecond clock, so it can return
  early.  FlushExact gives the exact condition, EqualReadingsReturnEarly a case.
- `htraced.c:502-520`: the bounded writer reports a short write as success, so that a long
  process id can cut the prequel inside its last field without notice (PrequelWritten);
  CutPrequel is a case.
- `scope.c:79-89`: the search for the parent steps twice a round.  SearchKeepsPromise and
  SearchCrash give the exact conditions; CrashAfterDetach, MissedParent and WrongParent are
  cases.
- `htable.c:239-242`: htable_pop moves only entries with the popped key, so that it can
  separate other keys from where their search starts.  PopCompact and PopUniqueCompact give
  the exact condition, RunLookup the effect on whole runs, PopLosesKey and PopLosesString
  cases.  With several entries under one key it hands out the last of a block while the first
  leaves the table (PopRemoves).
- `htable.h` promises EFBIG for a table that can not grow; the code has no such case.
- `span.c:149-151`: times are unsigned 64-bit numbers printed as signed ones.
- `process_id.c:43`: MAX_VAR_NAME is not used; names of variables have any length.

## Model

| member | source | states |
|---|---|---|
| TransmitterSafety.StepKeepsInv | htrace-c/src/receiver/htraced.c:425-676 | one step of any thread (writer, flusher, shutdown, transmitter) keeps the whole invariant (buffer contents and bounds, conservation, attempts, clock order, messages, counts, flushers), unless it is a writer that finds no room |
| TransmitterSafety.ReachableInv | htrace-c/src/receiver/htraced.c:425-676 | the invariant holds in every reachable state: after every interleaving from the start in which each writer finds room |
| TransmitterSafety.FifoConservation | htrace-c/src/receiver/htraced.c:563-652 | after every run in which each writer finds room: accepted spans == settled batches ++ batch in flight ++ active buffer, in order; a batch is not empty, is attempted 1 to 3 times and given up only after 3 failures |
| TransmitterSafety.ExactReservation | htrace-c/src/receiver/htraced.c:70-96 | after every run in which each writer finds room the contents of each buffer are exactly the bytes of its spans, num_spans is their number, the offset stays within the buffer, and every message stays within MAX_HRPC_LEN |
| TransmitterSafety.BoundsExactly | htrace-c/src/receiver/htraced.c:616-647 | the exact condition for this, with refused writers that copy without the lock at any later time: at every moment of a run the offsets are inside the buffers, and would be if a late writer were the next to run, if and only if no writer in the run fails the space test |
| TransmitterSafety.RefusedCopy | htrace-c/src/receiver/htraced.c:622-647 | a writer that fails the test changes nothing yet, is then able to copy at any time, and leaves the bounds if it does so at once |
| TransmitterSafety.RefusalOverruns | htrace-c/src/receiver/htraced.c:622-647 | every run with a refusal, cut off behind the first one and continued with the late copy, is a run that leaves the bounds |
| TransmitterSafety.AddsOverrun | htrace-c/src/receiver/htraced.c:618-647 | and there are such runs: for any span, so many adds before the transmit thread runs, at most one more than a buffer has bytes, and the copy of the last |
| TransmitterSafety.LateCopyInFlight | htrace-c/src/receiver/htraced.c:622-647 | isolation fails with a refusal: if the transmit thread flips first, the late copy goes behind the buffer in flight and raises its off and num_spans |
| TransmitterSafety.IsolationBreaks | htrace-c/src/receiver/htraced.c:622-647 | such a run from the start, for any span that fits an empty buffer |
| Transmitter.FitsInBounds | htrace-c/src/receiver/htraced.c:274-277 | up to the end of the buffer the unsigned test is the right one |
| Transmitter.FitsPastTheEnd | htrace-c/src/receiver/htraced.c:274-277 | past the end the unsigned difference wraps around and the test lets everything through |
| TransmitterSafety.MessageFits | htrace-c/src/receiver/htraced.c:74-96 | prequel plus a whole buffer is at most 64 MiB for every configured buffer size |
| TransmitterSafety.AttemptsAreSends | htrace-c/src/receiver/htraced.c:531-588 | the number of messages handed to the RPC client for a batch equals its attempts; it is 0 only when the prequel could not be written, and then the batch is given up after 3 attempts |
| TransmitterSafety.MessagesReadBack | htrace-c/src/receiver/htraced.c:499-561 | end to end, in every reachable state (each writer found room): a sent message parses to the process id and exactly the spans of its batch in order if and only if the prequel fits 1024 bytes and every span fits its 16-bit lengths |
| TransmitterSafety.InactiveEmptyOutsideSend | htrace-c/src/receiver/htraced.c:563-594 | the unstated invariant: outside flip..clear the inactive buffer is empty |
| TransmitterSafety.InFlightFrozen | htrace-c/src/receiver/htraced.c:574-590 | over any run from a send until its clear in which each writer finds room: the buffer in flight is frozen, the buffers keep their places, and the active one is only appended to |
| TransmitterSafety.RepeatedXmit | htrace-c/src/receiver/htraced.c:433-438 | a second round of the loop on should_xmit sends only because more than send_threshold bytes were accepted since the last flip, and sends exactly these |
| TransmitterSafety.ShutdownDrains | htrace-c/src/receiver/htraced.c:439-444 | when the transmit thread leaves its loop both buffers are empty and all accepted spans are settled |
| TransmitterSafety.DrainSendsOnce | htrace-c/src/receiver/htraced.c:439-444 | without further accepts the drain loop flips at most once, in any run of the other threads |
| TransmitterSafety.DrainedNeverFlips | htrace-c/src/receiver/htraced.c:439-444 | a drain with an empty active buffer never sends again, unless spans are added |
| TransmitterProgress.SendDecision | htrace-c/src/receiver/htraced.c:433-438 | from any reachable state in which the transmit thread is about to read the clock, the next two steps are its own, and with a reading t it flips the buffers and starts to send all that is pending if and only if the active buffer holds more than send_threshold bytes, or holds any and t > last_send_ms + flush_interval_ms; otherwise nothing shared changes |
| TransmitterProgress.WritersGoOn | htrace-c/src/receiver/htraced.c:563-570 | outside the sections locked by the transmit thread a writer whose span fits appends it at once, and what is in flight is not touched |
| TransmitterProgress.AddsConserved | htrace-c/src/receiver/htraced.c:596-652 | in every run, with room or without: the spans handed in are, with multiplicity, the accepted ones and those that late writers still hold |
| TransmitterProgress.ShutdownEnds | htrace-c/src/receiver/htraced.c:439-444 | after a shutdown request the transmit thread, left alone, ends within 14 of its steps whatever the sends come to, is never stuck before, and everything accepted is settled when it ends |
| TransmitterProgress.EndsOnlyOnShutdown | htrace-c/src/receiver/htraced.c:439-444 | in no run does it drain or end without a shutdown request |
| TransmitterProgress.ShutdownSet | htrace-c/src/receiver/htraced.c:690-693 | after any run the flag is set if and only if it was before or the run has a shutdown request |
| TransmitterProgress.BufferLengths | htrace-c/src/receiver/htraced.c:358-360 | the length of a buffer for every configured size: 2 MiB up to 4 MiB, half the size up to 134215680, and 67107840 beyond |
| FlushGuarantee.FlushExact | htrace-c/src/receiver/htraced.c:654-676 | in a reachable state, over all runs in which each writer finds room: a flush is certain to return only after all spans accepted before it are settled if and only if its entry is safe (last_send_ms has not reached its clock reading with spans unsettled, and no transmission stamped with such a time is under way while spans wait) |
| FlushGuarantee.SafeFlush | htrace-c/src/receiver/htraced.c:654-676 | after a safe entry, in every run, (each writer finding room, any flushers resetting last_send_ms) the flush returns only when those spans are settled |
| FlushGuarantee.UnsafeFlush | htrace-c/src/receiver/htraced.c:654-676 | after an unsafe entry there is a run (constructed) in which the flush returns with such a span unsettled |
| FlushGuarantee.StrictClockIsSafe | htrace-c/src/receiver/htraced.c:663-671 | with strictly increasing clock readings every entry is safe |
| FlushGuarantee.EqualReadingsReturnEarly | htrace-c/src/receiver/htraced.c:666-668 | two equal readings of the millisecond clock suffice for a flush to return with a span neither sent nor given up |
| FlushGuarantee.BlockedTooEarly | htrace-c/src/receiver/htraced.c:589-593 | a waiting flusher is released by the stamp of a transmission that started before its spans were flipped, when the stamp has reached its reading |
| TransmitterProgress.FlushSteps | htrace-c/src/receiver/htraced.c:665-674 | one round of a flush on the shared fields: a flusher that finds last_send_ms at its reading or nothing in the buffers returns and changes nothing, any other waits with last_send_ms set to 0 |
| TransmitterProgress.FlushForcesSend | htrace-c/src/receiver/htraced.c:665-674 | a flush that waits makes the transmit thread send what is pending at its next decision, however short ago the last send was, once the clock shows more than the flush interval |
| TransmitterProgress.FlushCompletes | htrace-c/src/receiver/htraced.c:654-679 | from every such state a run is constructed in which the flush returns with everything accepted before it settled |
| Transmitter.BufferLength | htrace-c/src/receiver/htraced.c:358-360 | half of the configured size after the clamps, always between 2 MiB and MAX_SPAN_DATA_LEN |
| Transmitter.Bounded | htrace-c/src/receiver/htraced.c:279-296 | the clamp: in range, and the identity on values in range |
| Transmitter.SpansBytesLength | htrace-c/src/receiver/htraced.c:274-277 | a buffer is empty exactly when it holds no span |
| Htraced.HtracedRcv.constructor | htrace-c/src/receiver/htraced.c:317-406 | the shared fields are those of the initial state of the step system, with two fresh buffers of the clamped length |
| Htraced.HtracedRcv.AddSpan | htrace-c/src/receiver/htraced.c:596-652 | two-pass add under the lock: if the space test finds room, exactly the span's bytes are appended to the active buffer and num_spans raised; if not, nothing changes and the thread is left with the buffer it goes on to copy to; no byte behind the new offset changes |
| Htraced.HtracedRcv.LateCopy | htrace-c/src/receiver/htraced.c:641-651 | that copy, without the lock: the span's bytes are appended at the offset the remembered buffer has by then, whichever of the two it is, and however long it is |
| Htraced.HtracedRcv.Measure | htrace-c/src/receiver/htraced.c:608-614 | the counting pass yields the length of the bytes that the copying pass writes |
| Htraced.HtracedRcv.Copy | htrace-c/src/receiver/htraced.c:641-647 | the unchecked copying pass writes exactly the counted bytes and nothing behind them |
| Htraced.PassesAgree | htrace-c/src/core/span.c:189-260 | counter pass and unchecked copy pass of span_write_msgpack both succeed, agree in length, and the copy is the span's bytes |
| Htraced.HtracedRcv.ShouldSend | htrace-c/src/receiver/htraced.c:474-489 | true for more than send_threshold bytes and false for none; in between, while the clock has not gone back, true if and only if more than flush_interval_ms have passed since last_send_ms; and the same answer as the step system's test |
| Htraced.HtracedRcv.SbufsEmpty | htrace-c/src/receiver/htraced.c:241-250 | true exactly when neither buffer holds a byte |
| Htraced.HtracedRcv.FlipBuffers | htrace-c/src/receiver/htraced.c:568-570 | the flip of the step system, on the array of two buffers |
| Htraced.HtracedRcv.AddWritespansPrequel | htrace-c/src/receiver/htraced.c:499-521 | through the bounded context: the stored prequel, or -1, is exactly WritePrequel |
| Htraced.HtracedRcv.XmitImpl | htrace-c/src/receiver/htraced.c:531-561 | one attempt: the message is prequel ++ buffer, none when the prequel failed; success needs both the prequel and the RPC call |
| Htraced.HtracedRcv.SendLoop | htrace-c/src/receiver/htraced.c:575-588 | the retry loop performs exactly the attempts of the specification Deliver |
| Htraced.DeliverMeaning | htrace-c/src/receiver/htraced.c:575-588 | delivered if and only if the prequel could be written and one of the three answers is a success; stops at the first; every message is the same bytes; otherwise all three attempts are used |
| Htraced.DeliverIsRun | htrace-c/src/receiver/htraced.c:575-588 | the send loop is a run of the step system's attempt steps, ending in the state with those messages, attempts and outcome |
| Htraced.HtracedRcv.ClearSent | htrace-c/src/receiver/htraced.c:589-590 | clears only the buffer that was sent |
| Htraced.HtracedRcv.StampSend | htrace-c/src/receiver/htraced.c:591-593 | sets last_send_ms and nothing else |
| Htraced.HtracedRcv.XmitBatch | htrace-c/src/receiver/htraced.c:563-594 | the whole transmission without interference: flip, send loop, clear, stamp |
| Htraced.HtracedRcv.FlushRound | htrace-c/src/receiver/htraced.c:665-674 | returns exactly when last_send_ms has reached the reading or both offsets are 0; last_send_ms is 0 afterwards if it does not return and unchanged if it does; nothing else changes |
| Htraced.HtracedRcv.RequestShutdown | htrace-c/src/receiver/htraced.c:690-693 | sets the shutdown flag and nothing else |
| Cmp.WriteThenRead | htrace-c/src/util/cmp.c:987-1065 | for every object: not refused and reading its bytes back (with anything behind) gives it again if and only if it is in range for its type |
| Cmp.ReadThenWrite | htrace-c/src/util/cmp.c:1919-2209 | every complete header that is read is, byte for byte, the encoding of the object returned, which is in range |
| Cmp.PrefixFree | htrace-c/src/util/cmp.c:987-1065 | no encoding is a proper prefix of another, and equal encodings come from equal objects |
| Cmp.ReadsBack | htrace-c/src/util/cmp.c:1919-2209 | any input that begins with an encoding reads as that object |
| Cmp.ReadableInputs | htrace-c/src/util/cmp.c:1919-2209 | which inputs are read whole: a marker other than 0xC1 with its field and type byte behind it; and which leave a field partly set: such a marker with at least the first but not the last byte of its field |
| Cmp.ObjectCallsEncoding | htrace-c/src/util/cmp.c:987-1065 | the write calls for an accepted object together write its encoding, and none of them is empty |
| Cmp.SIntReadsBack | htrace-c/src/util/cmp.c:338-351 | what cmp_write_sint emits for d is in range, stands for d and reads back, for every int64 |
| Cmp.UIntReadsBack | htrace-c/src/util/cmp.c:391-402 | the same for cmp_write_uint and every uint64 |
| Cmp.ShortestSInt | htrace-c/src/util/cmp.c:338-351 | no int-family encoding of the same value is shorter than the one cmp_write_sint picks |
| Cmp.ShortestUInt | htrace-c/src/util/cmp.c:391-402 | no int-family encoding of the same value is shorter than the one cmp_write_uint picks |
| Cmp.SignedReaders | htrace-c/src/util/cmp.c:1174-1300 | cmp_read_char/short/int/long accept what cmp_write_sint wrote for d if and only if d fits 8/16/32/64 bits, and return d |
| Cmp.UnsignedReaders | htrace-c/src/util/cmp.c:1381-1465 | the same for cmp_read_uchar/ushort/uint/ulong and cmp_write_uint |
| Cmp.ReadersAgree | htrace-c/src/util/cmp.c:1174-1465 | whatever encoding the input used, a reader that succeeds returns the value it stands for |
| Formats.FormatTable | htrace-c/src/util/cmp.c:33-71 | for each of the 35 kinds of objects in range the encoding is its row in section "Formats" of the MessagePack specification, written out byte by byte: marker, field most significant byte first, two's complement for the signed kinds, type byte |
| Formats.OutOfRange | htrace-c/src/util/cmp.c:987-1065 | an object out of range is refused if and only if its size, cut to the writer's parameter type, is still out of range; otherwise the row of the cut object is written |
| Formats.WriteCalls | htrace-c/src/util/cmp.c:232-300 | the write calls of every object in range, byte by byte, with the error that each leaves when it finds no room |
| Formats.HeaderWritten | htrace-c/src/util/cmp.c:987-1065 | in any context with room for it, an object in range is written as its row of the table, with success |
| Formats.FormatIsRead | htrace-c/src/util/cmp.c:1919-2209 | each row of the table is read as its object, whatever follows |
| Formats.CutFormat | htrace-c/src/util/cmp.c:1919-2209 | the error for an input that ends behind the marker, or before the type byte of an ext object, by kind |
| Formats.ReadersAccept | htrace-c/src/util/cmp.c:1174-1465 | what each of the eight integer readers accepts, whatever encoding the input used: the int formats of at most its width whose value fits its type, and only unsigned formats for the unsigned readers |
| Formats.NonNegative | htrace-c/src/util/cmp.c:338-351 | cmp_write_sint picks the unsigned format of cmp_write_uint exactly for the numbers that are not negative |
| Formats.ShortestStr | htrace-c/src/util/cmp.c:549-569 | the string header picked for a size is strictly shorter than every other one |
| Formats.ShortestArray | htrace-c/src/util/cmp.c:702-709 | the array header picked for a size is strictly shorter than every other one |
| Bytes.PlaceValue | htrace-c/src/util/cmp.c:122-178 | the big-endian bytes of a number are its digits in base 256 by place |
| Bytes.LittleEndian | htrace-c/src/util/cmp.c:122-178 | and the byte at offset i of a variable in memory has the weight 256 to the power i on a little-endian host, counted from the other end on a big-endian one |
| Bytes.ToNetworkOrder | htrace-c/src/util/cmp.c:122-178 | the in-place byte exchange reverses the array, and does nothing on a big-endian host |
| Bytes.NetworkOrderOut | htrace-c/src/util/cmp.c:122-178 | on both kinds of host the exchanged variable lies in memory as the big-endian bytes of its value |
| Bytes.NetworkOrderIn | htrace-c/src/util/cmp.c:122-178 | and wire bytes exchanged in memory have their big-endian value |
| CmpUtil.PerformStores | htrace-c/src/util/cmp_util.c:30-67 | in all three contexts a sequence of calls stores what one write of all bytes would: all of them, or the longest prefix there is room for |
| CmpUtil.PerformOk | htrace-c/src/util/cmp_util.c:44-57 | counter and unchecked copy always succeed; the bounded copy reports success if and only if its last call could still write something, so a cut inside the last call goes unnoticed |
| CmpUtil.PerformAppend | htrace-c/src/util/cmp_util.c:30-67 | writing stops at the first call that writes nothing, with its error |
| CmpUtil.Context.CounterInit | htrace-c/src/util/cmp_util.c:38-42 | a counter at 0 |
| CmpUtil.Context.CopyInit | htrace-c/src/util/cmp_util.c:83-88 | a copying context at the start of its space |
| CmpUtil.Context.Write | htrace-c/src/util/cmp_util.c:30-67 | each write callback: what is copied, how far the cursor moves and what is returned; no other byte changes |
| CmpUtil.Context.WriteObject | htrace-c/src/util/cmp.c:987-1065 | in any context performs exactly the calls of the object (Formats.WriteCalls gives them byte by byte with their errors), or refuses with InputValueTooLarge and writes nothing |
| CmpUtil.Context.WriteString | htrace-c/src/util/cmp.c:448-569 | string header, then the body unless it is empty |
| CmpUtil.Context.NetworkBytes | htrace-c/src/util/cmp.c:122-178 | the bytes a writer copies out of a variable after the exchange are its big-endian bytes |
| CmpUtil.Reader.ReadUpTo | htrace-c/src/util/cmp_util.c:69-81 | takes as many bytes as there are up to the limit, from the front |
| CmpUtil.Reader.HostValue | htrace-c/src/util/cmp.c:122-178 | the value of a variable read from the wire and exchanged, on either kind of host |
| CmpUtil.Reader.ReadObject | htrace-c/src/util/cmp.c:1919-2209 | the imperative reader, with the byte exchange on its fields, returns DecodeObject of the remaining input (Formats.FormatIsRead gives it on the rows of the format table) and consumes exactly a complete header |
| Span.SpanCallsBytes | htrace-c/src/core/span.c:189-260 | the write calls of span_write_msgpack together write the span's bytes (see WriteSpans.SpanBytesAre), and none of them is empty |
| Span.HtraceSpan.WriteMsgpack | htrace-c/src/core/span.c:189-260 | in any context performs exactly the calls of the span, in order, and writes nothing outside the cursor; what they write is given byte by byte in WriteSpans.SpanBytesAre |
| Span.HtraceSpan.constructor | htrace-c/src/core/span.c:40-62 | a span without parents and process id |
| Span.HtraceSpan.SortAndDedupeParents | htrace-c/src/core/span.c:90-122 | afterwards the parents are strictly increasing and the same set of ids, whichever of the three representations they end in |
| Span.HtraceSpan.Compact | htrace-c/src/core/span.c:98-107 | the in-place compaction of a sorted list, with j <= i throughout: strictly increasing, same ids |
| Span.HtraceSpan.Shrink | htrace-c/src/core/span.c:114-120 | the shrunk list has the same first ids |
| Span.IncreasingUnique | htrace-c/src/core/span.c:90-122 | there is only one strictly increasing list of a set of ids, so the contract above determines the result |
| Span.SortIdsOk | htrace-c/src/core/span.c:77-97 | the stand-in for qsort is sorted and a permutation |
| WriteSpans.ParseSpanBytes | htrace-c/src/test/span_util.c:391-483 | what a reader gets from the bytes of any span at all: strings and parent list cut to their 16-bit lengths, surplus parents left in the input |
| WriteSpans.SpanRoundTrip | htrace-c/src/test/span_util.c:391-483 | the bytes of a span read back as the span, whatever follows, if and only if its strings and parent list fit 16-bit lengths |
| WriteSpans.SpanBytesAre | htrace-c/src/core/span.c:189-260 | the bytes of any span, written out: the map header with the number of entries, then "d", "b", "e", "s", and "r" and "p" if there are any, each name in front of its own value, in this order |
| WriteSpans.SpanLength | htrace-c/src/core/span.c:189-260 | their number, in terms of the lengths of the strings and of the list |
| WriteSpans.PrequelLayout | htrace-c/src/receiver/htraced.c:499-521 | the bytes of the prequel, written out: a map of two entries, "DefaultPid" with the process id and "Spans" with the header of the list |
| WriteSpans.PrequelWritten | htrace-c/src/receiver/htraced.c:499-521 | the prequel is written whole if it fits 1024 bytes, refused if even its last write finds no room, and silently cut in between |
| WriteSpans.CutMessage | htrace-c/src/receiver/htraced.c:499-521 | a message with a cut prequel cannot be read |
| WriteSpans.CutPrequel | htrace-c/src/receiver/htraced.c:499-521 | such a message: any process id of 1001 bytes and any 16 spans make a prequel of 1025 bytes, which is cut to 1024 and sent |
| WriteSpans.WholeMessage | htrace-c/src/receiver/htraced.c:499-561 | prequel ++ spans reads back as process id and spans |
| WriteSpans.MessageRoundTrip | htrace-c/src/receiver/htraced.c:499-561 | a message reads back as what was sent if and only if the prequel fits and every span is encodable |
| StringUtil.ValidatorMeaning | htrace-c/src/util/string.c:58-106 | accepted if and only if the text is the UTF-8 form of code points in U+0020..U+FFFF without surrogates, U+007F, quotation mark and backslash (section 3 of RFC 3629) |
| StringUtil.ValidateJsonString | htrace-c/src/util/string.c:58-106 | the pointer loop decides exactly that, and no read goes past the terminator |
| StringUtil.UnitIsUtf8 | htrace-c/src/util/string.c:63-98 | the bytes taken in one round are the UTF-8 form of one allowed code point |
| StringUtil.Utf8IsUnit | htrace-c/src/util/string.c:63-98 | and the form of any allowed code point is taken in one round, whatever follows |
| StringUtil.AcceptedIsEncoded | htrace-c/src/util/string.c:58-106 | an accepted text decodes to allowed code points whose encoding it is |
| StringUtil.ValidatedNeedsNoEscape | htrace-c/src/core/span.c:145-147 | a validated string contains nothing that JSON would have to escape (section 7 of RFC 8259) |
| StringUtil.ValidatedIsUtf8 | htrace-c/src/util/string.c:58-106 | an accepted text is well-formed UTF-8 |
| StringUtil.Utf8Meaning | htrace-c/src/util/string.c:73-98 | what well-formed means: the encoding of a sequence of Unicode scalar values (section 4 of RFC 3629) |
| StringUtil.Printer.FwdPrintf | htrace-c/src/util/string.c:27-56 | chained calls leave exactly the first min(length, max - 1) bytes of everything printed and a zero byte, touch nothing else, move pointer and rest together, and return uncut lengths |
| SpanJson.SpanJsonSprintfImpl | htrace-c/src/core/span.c:139-177 | prints the JSON text of the span (SpanJson.JsonTextIs gives it by its format strings) through the chain and returns its length plus one, with or without room |
| SpanJson.SpanJsonSize | htrace-c/src/core/span.c:179-182 | the size is the length of the text plus one |
| SpanJson.SpanJsonSprintf | htrace-c/src/core/span.c:184-187 | for any max >= 1 the buffer holds the first min(length, max - 1) bytes and a zero byte; the rest of it is untouched |
| SpanJson.PrintParents | htrace-c/src/core/span.c:157-172 | the three ways of printing the parents give the same list text |
| SpanJson.TextIsJson | htrace-c/src/core/span.c:139-177 | the printed text is the rendering of a JSON object with the fields of the span |
| SpanJson.JsonTextIs | htrace-c/src/core/span.c:149-172 | the printed text by the format strings of the source: each name in front of its own value, ids as 16 hexadecimal digits, times as signed decimal numbers, commas and brackets in their places |
| SpanJson.HexPlaces | htrace-c/src/core/span.c:149-151 | the hexadecimal digit at each place, in lower case |
| Json.DigitPlaces | htrace-c/src/core/span.c:149-151 | the decimal digit at each place |
| Json.DigitCount | htrace-c/src/core/span.c:149-151 | a number takes as few digits as it can |
| SpanJson.PrintedExactly | htrace-c/src/core/span.c:145-147 | parsing the text gives that object if and only if description and process id are UTF-8 and need no escape |
| SpanJson.ValidatedSpanRoundTrip | htrace-c/src/core/span.c:139-177 | for validated strings the text is UTF-8, parses as JSON, and every field, times and ids included, is read back |
| SpanJson.StrayByte | htrace-c/src/core/span.c:145-147 | a description with a stray byte needs no escape and still spoils the text: both halves of the validator are needed |
| SpanJson.SpanReadsBack | htrace-c/src/test/span_util.c:110-165 | all fields of any span are recovered from its object |
| SpanJson.HexReadsBack | htrace-c/src/test/span_util.c:32-63 | a number below 16^n printed as n hexadecimal digits reads back |
| Json.RoundTrip | htrace-c/src/core/span.c:139-177 | a rendered JSON value reads back if and only if every string in it is UTF-8 and needs no escape |
| Json.RenderParses | htrace-c/src/core/span.c:139-177 | the round trip by structure, with any text behind the value |
| Json.RenderIsUtf8 | htrace-c/src/core/span.c:139-177 | the rendering of a clean value is UTF-8 as a whole (section 8.1 of RFC 8259) |
| Json.ParsedClean | htrace-c/src/core/span.c:145-147 | the reader never hands out a string that is not UTF-8 or would need an escape |
| HTable.PutsThenGet | htrace-c/src/util/htable.c:158-224 | after any sequence of puts with any rehashes, get answers NULL if and only if no equal key was put, else a value put under it, and the one value if keys are distinct |
| HTable.PutAllAdds | htrace-c/src/util/htable.c:158-186 | after any sequence of puts the table holds exactly these entries with multiplicity, is less than half full and compact |
| HTable.CapacityAfterPuts | htrace-c/src/util/htable.c:158-186 | the table grows by doubling and no sooner than it has to: less than half of it is used, and after a growth at least a quarter |
| HTable.PutAdds | htrace-c/src/util/htable.c:158-186 | a put adds exactly one entry, keeps used < capacity / 2 and the probe-path invariant |
| HTable.FindComplete | htrace-c/src/util/htable.c:188-214 | in a compact table the search finds a slot if and only if the key is there, and one with that key |
| HTable.FindAfterInsert | htrace-c/src/util/htable.c:158-186 | inserting changes no other key's value, nor the value of a key already there |
| HTable.InsertFills | htrace-c/src/util/htable.c:60-78 | inserting fills one empty slot and keeps the table compact |
| HTable.RehashKeeps | htrace-c/src/util/htable.c:80-101 | rehashing keeps the entries and makes any table compact, even one that was not |
| HTable.ScanFirst | htrace-c/src/util/htable.c:188-214 | a probe with wraparound stops at the first slot on its way where it can |
| HTable.ScanIs | htrace-c/src/util/htable.c:188-214 | and that determines it |
| HTable.PopRemoves | htrace-c/src/util/htable.c:226-261 | for any table: the entry that leaves is the one get would find, the one handed out was in the cleared slot, everything else stays |
| HTable.PopUnique | htrace-c/src/util/htable.c:226-261 | when no other entry has the key: only its slot is cleared, that entry is handed out, and the key is gone |
| HTable.PopLookup | htrace-c/src/util/htable.c:226-261 | the lookup of another key is unchanged if and only if the cleared slot is not on the probe path to its entry; otherwise it becomes NULL |
| HTable.PopCompact | htrace-c/src/util/htable.c:239-242 | the invariant that the search needs survives a pop if and only if the cleared slot is on no entry's probe path |
| HTable.PopUniqueCompact | htrace-c/src/util/htable.c:239-242 | the same before the call, when no other entry has the key: the table stays compact if and only if the slot get would find is on no other entry's probe path |
| HTable.PopLosesKey | htrace-c/src/util/htable.c:239-242 | two keys that start at the same slot under any hash function: popping the one put first makes the other unreachable, though it is in the table |
| HTableRuns.RunLookup | htrace-c/src/util/htable.c:158-261 | after any sequence of puts of new keys and pops, with any rehashes: an absent key has no value, and a present one its value, unless a slot that a pop cleared since the last rehash, and that is still empty, lies on the way to it |
| HTableRuns.RunKeepsInv | htrace-c/src/util/htable.c:158-261 | in such a run keys stay unique, the size bound holds, and every empty slot on a probe path is one that a pop cleared since the last rehash |
| HTableRuns.LookupExact | htrace-c/src/util/htable.c:188-214 | with these, a key that is there is not found if and only if a cleared slot is on its way |
| Conf.PopLosesString | htrace-c/src/util/htable.c:226-283 | an input of the shipped hash function: "Aa" and "BB" collide, and popping the first loses the second |
| HTable.RoundUpToPowerOf2 | htrace-c/src/util/htable.c:103-113 | the bit trick yields the least power of two no smaller, and 0 for 0 and for more than 2^31 |
| HTable.CapacityFor | htrace-c/src/util/htable.c:126-129 | the capacity is a power of two, at least 4, and the least one no smaller than a size in range |
| HTable.HTable.constructor | htrace-c/src/util/htable.c:115-136 | an empty, compact table of that capacity |
| HTable.HTable.InsertInternal | htrace-c/src/util/htable.c:60-78 | the probing loop ends and leaves exactly Insert of the old slots |
| HTable.HTable.Realloc | htrace-c/src/util/htable.c:80-101 | the rehash loop leaves exactly Rehash of the old slots |
| HTable.HTable.PutPair | htrace-c/src/util/htable.c:158-186 | EINVAL and no change for NULL, otherwise exactly Put of the old table; a compact table stays compact |
| HTable.HTable.GetInternal | htrace-c/src/util/htable.c:188-214 | the loop ends and finds exactly Find |
| HTable.HTable.Get | htrace-c/src/util/htable.c:216-224 | exactly Lookup; in a compact table NULL if and only if the key is absent |
| HTable.HTable.PopKey | htrace-c/src/util/htable.c:226-261 | exactly Pop of the old table, or no change when the key is not found |
| HTable.HTable.CloseGap | htrace-c/src/util/htable.c:239-261 | its loop ends and moves exactly the entries of Shift |
| HTable.HTable.Used | htrace-c/src/util/htable.c:263-266 | the number of entries |
| Conf.WrittenMapIsRead | htrace-c/src/core/conf.c:150-159 | a map written as a configuration and loaded answers with its values for its keys and the defaults for all others |
| Conf.ConfGetMeaning | htrace-c/src/core/conf.c:150-159 | for any two strings: no value if and only if neither assigns the key, else a value assigned to it, by the defaults only if the values do not mention it |
| Conf.ReadsBackExactly | htrace-c/src/core/conf.c:40-99 | written assignments are read back if and only if no key has '=' or ';' in it and no value ';' |
| Conf.BareKey | htrace-c/src/core/conf.c:40-58 | a key without an equals sign is assigned "true", at the end of the string or before others |
| Conf.BareKeyIsTrue | htrace-c/src/core/conf.c:150-159 | and a configuration that is only such a key answers "true" for it, whatever the defaults |
| Conf.LastToken | htrace-c/src/core/conf.c:79-80 | the last token needs no semicolon behind it |
| Conf.ExtraSemicolon | htrace-c/src/core/conf.c:79-80 | semicolons in front of a token are skipped |
| Conf.StrtokR | htrace-c/src/core/conf.c:79-80 | strtok_r in place finds the next token and cuts it off with a zero; what is behind is untouched |
| Conf.ParseKeyValue | htrace-c/src/core/conf.c:40-58 | splits a token at the first '=', with the value "true" if there is none |
| Conf.HtableFromStr | htrace-c/src/core/conf.c:60-99 | the loop loads exactly the assignments of the string, none for NULL, in order |
| Conf.HtraceConf.constructor | htrace-c/src/core/conf.c:101-121 | the two tables hold what the two strings assign |
| Conf.HtraceConf.Get | htrace-c/src/core/conf.c:150-159 | values first, then defaults |
| Conf.HtHashString | htrace-c/src/util/htable.c:273-283 | the loop computes the base-31 number of the characters modulo 2^32 and then modulo max |
| Conf.HashIsPolynomial | htrace-c/src/util/htable.c:273-283 | the hash is the number whose base-31 digits are the characters, as signed 8-bit numbers, modulo 2^32 and then modulo max |
| ProcessId.CalculateProcessId | htrace-c/src/util/process_id.c:74-161 | the one-pass character machine computes the two-pass meaning of the template, for every NUL-free template |
| ProcessId.TakeCharacter | htrace-c/src/util/process_id.c:92-145 | one round of the machine adds to the output exactly what the character stands for in its state; out stays terminated at its end |
| ProcessId.TemplateMeaning | htrace-c/src/util/process_id.c:74-161 | a template written from texts (escaped) and variables means the concatenation of the texts and values, for any number of pieces |
| ProcessId.TracerNameBetween | htrace-c/src/util/process_id.c:74-161 | esc(a) ++ "%{tname}" ++ esc(b) expands to a ++ tname ++ b for all a and b |
| ProcessId.AddressBetween | htrace-c/src/util/process_id.c:74-161 | the same for "%{ip}" and the address |
| ProcessId.ProcessNumberBetween | htrace-c/src/util/process_id.c:74-161 | the same for "%{pid}" and the process number |
| ProcessId.UnknownBetween | htrace-c/src/util/process_id.c:195-199 | any other variable expands to nothing |
| ProcessId.NameAndNumber | htrace-c/src/test/rtest.c:58 | "%{tname}/%{pid}" is the tracer name, a slash and the process number |
| ProcessId.Backslash | htrace-c/src/util/process_id.c:86-91 | a backslash is dropped and the character behind it kept without its meaning, whichever it is; one at the very end is dropped |
| ProcessId.LonePercent | htrace-c/src/util/process_id.c:105-118 | a percent sign that opens no variable is kept with the character behind it; one at the very end is dropped |
| ProcessId.Unclosed | htrace-c/src/util/process_id.c:119-151 | a variable that is never closed swallows the rest, and a brace with a backslash does not close it |
| ProcessId.DoubledPercent | htrace-c/src/util/process_id.c:105-118 | "%%" stands for itself and hides a brace behind it |
| ProcessId.HandleProcessSubstVar | htrace-c/src/util/process_id.c:163-200 | appends the tracer name for "%{tname}", the address for "%{ip}", the process number for "%{pid}" and nothing for any other name, and leaves the output terminated |
| ProcessId.CharBuffer.AppendChar | htrace-c/src/util/process_id.c:61-72 | one character more and a terminator behind it |
| Scopes.EverySpanOnce | htrace-c/src/core/scope.c:41-164 | after any run of a thread every created span has exactly one holder: one scope, one caller, or the receiver, which got it once; no other id has any |
| Scopes.NoCycle | htrace-c/src/core/scope.c:79-89 | after any run no span is its own ancestor |
| Scopes.LastInFirstOut | htrace-c/src/core/htracer.c:130-165 | as long as a scope stays open, exactly the scopes opened before it stay open below it, in order |
| Scopes.StepKeepsInv | htrace-c/src/core/scope.c:41-164 | each operation keeps: one holder per span, fresh ids, parents created earlier, distinct scopes |
| Scopes.SearchKeepsPromise | htrace-c/src/core/scope.c:79-89 | the recorded parent is the nearest span not disowned, as the comment says, if and only if an even number of scopes at the top have disowned theirs |
| Scopes.ParentAfterRun | htrace-c/src/core/scope.c:79-89 | this holds in the state after any run |
| Scopes.SearchCrash | htrace-c/src/core/scope.c:81-89 | the search follows a NULL pointer if and only if the depth is odd and every second scope from the top has disowned its span |
| Scopes.CrashAfterDetach | htrace-c/src/core/scope.c:81-89 | a run in which it does: a span is started, its scope detached, and another span started |
| Scopes.MissedParent | htrace-c/src/core/scope.c:81-89 | a run after which no parent is recorded though an enclosing scope holds a span |
| Scopes.WrongParent | htrace-c/src/core/scope.c:81-89 | a run after which the grandparent is recorded |
| Scopes.StepOnScopes | htrace-c/src/core/htracer.c:130-165 | an operation pushes one scope, pops the top, or leaves the chain |
| Scopes.StartAfterRun | htrace-c/src/core/scope.c:41-96 | after any run, a start with a valid description pushes a new span, under an open scope whatever the sampler says and at the root if and only if it says yes, and otherwise changes nothing; it records no parent at the root and the nearest span when an even number of scopes at the top have disowned theirs |
| Scopes.StartsChild | htrace-c/src/core/scope.c:79-89 | a span started next is recorded as a child of the one on top, without the sampler |
| Scopes.StartThenClose | htrace-c/src/core/scope.c:41-164 | a scope that is opened and closed leaves the chain as it was and its span delivered |
| Scopes.HandedOver | htrace-c/src/core/scope.c:98-164 | a span started in one scope, detached, restarted in another and closed there is delivered once, at the end of the other, and the chain is as it was before |
| Scopes.CloseEffect | htrace-c/src/core/scope.c:146-164 | closing the top takes it away and delivers a span that it holds; closing any other scope changes nothing |
| Scopes.DescentGoesBack | htrace-c/src/core/scope.c:79-89 | along recorded parents one gets to spans created strictly earlier |
| ScopeObjects.Tracer.StartSpan | htrace-c/src/core/scope.c:41-96 | returns a scope if and only if the description is valid and there is an open scope or the sampler says yes, and changes nothing otherwise; then it is a step of the run with a fresh scope and span, whose parent is what the search found |
| ScopeObjects.Tracer.FindParent | htrace-c/src/core/scope.c:81-89 | the pointer loop records exactly the result of the search and dereferences no NULL |
| ScopeObjects.Tracer.DetachSpan | htrace-c/src/core/scope.c:98-109 | the span goes from the scope to the caller; NULL if it had gone already |
| ScopeObjects.Tracer.RestartSpan | htrace-c/src/core/scope.c:111-133 | the span goes from the caller to a fresh scope on top |
| ScopeObjects.Tracer.CloseScope | htrace-c/src/core/scope.c:146-164 | only the top is closed; a span it holds gets its end time and is delivered once; in every other case nothing is delivered |
| ScopeObjects.Tracer.PushScope | htrace-c/src/core/htracer.c:130-142 | the linked chain grows by one at the top |
| ScopeObjects.Tracer.PopScope | htrace-c/src/core/htracer.c:144-165 | the linked chain loses its top, or nothing changes for another scope |
| ScopeObjects.Tracer.HeldApart | htrace-c/src/core/scope.c:41-164 | no span object is attached twice, or attached and owned by a caller |

## Left out

- Htraced.HtracedRcv.LateCopy: the copy of a late writer is one step, at whatever time; what two copies to one buffer do to each other byte by byte is not modelled, nor what the bytes behind a buffer belong to, nor that the writer then releases a lock it does not hold.
- Allocation failures with their error paths.
- pthread primitives beyond lock, wait and wake-up; signals to the condition variables only matter for how soon a thread runs.
- Liveness: that a waiting flusher is woken, or that the transmit thread gets to run, is not stated; FlushCompletes and ShutdownEnds say what happens if they do.
- hrpc.c, local_file.c, log.c, terror.c, time.c and rand_*.c: a send is an arbitrary answer, a clock reading an arbitrary number, an id a fresh number other than 0.
- Floating point: FLOAT and DOUBLE payloads are 4- and 8-byte patterns; send_threshold is any number up to the buffer length, in place of the product with the configured fraction.
- cmp.c: the type-specific readers other than the integer, string, array and map ones, cmp_object_is_* and cmp_object_as_*, cmp_read_ufix, and the bodies of bin and ext objects.
- CmpUtil.Reader.ReadObject: an input that ends inside a multi-byte field makes the source use a variable it filled only in part; the model stops with Partial and claims no value.
- Span.Qsort: the library's qsort is a stand-in with its contract, not its algorithm.
- SpanJson.SpanJsonSprintfImpl: lengths are not cut to `int`; texts of 2 GiB and more are not modelled.
- Json.RoundTrip: the reader knows no escapes, fractions, exponents or white space, none of which the printer writes; what it accepts is JSON.
- SpanJson.SpanReadsBack: a missing "r" is read as no process id, where the reader of the repository's tests makes it an empty one.
- HTable: keys are compared by content (eq_fun is equality and hash_fun agrees with it), so that which of two equal key pointers is kept is not modelled.
- HTable.HTable.PutPair: for a table whose capacity can still be doubled in 32 bits; at 2^31 slots the source would compute a capacity of 0.
- htable_visit, htable_free and the freeing of keys and values.
- Conf.HtableFromStr: for strings shorter than 256 MiB, which keeps the capacity within 32 bits.
- convert_u64 and convert_double, and the built-in default configuration string.
- ProcessId: the values of %{ip} and %{pid} are parameters; get_best_ip and the classification of addresses are not modelled.
- Scopes: one thread; a scope is used only while it is open, a detached span only by the caller that holds it.  A start for which the search would follow a NULL pointer is not a step.
- ScopeObjects.Tracer.StartSpan: ids from the random source are taken to be fresh; the source only makes sure that they are not 0.
- Samplers, the tables of receivers and samplers, the C++ wrapper, and everything outside htrace-c/src.
