# Serial ingestion pipeline of ArduinoMIDIController, in Dafny

This project models the three pieces of `MIDIController.Serial` that carry the logic of getting
sensor samples from an Arduino into the application:

- **`ConcurrentCircularBuffer<E>`** (module `RingBuffer`, `ring_buffer.dfy`): a fixed array of
  `capacity` slots and a cursor in `[0, capacity]`. `Push` writes at the cursor and moves it
  forward, wrapping lazily (the reset to 0 happens at the push *after* the cursor reaches the
  capacity); `Pop` moves it back and reads, so the newest record is the one popped next. At
  cursor 0, `Pop` returns slot 0 and sets the cursor to the capacity, so a backward walk reads
  slot 0 twice. Also `PushAll`, the guarded `Get`/`Set`/`Swap`, `Reset`, `Clear` and the
  enumerator.
- **`SerialReader`** (module `SerialReader`, `serial_reader.dfy`): the frame decoder inside the
  reader thread's loop (a 4-byte accumulator and a fill index; byte 129 ends a frame and emits
  the accumulator as it stands; other bytes are stored while the index is below 4 and dropped
  once it is 4) and the `Enable`/`Disable` flag that gates reading.
- **`AnalogDataDispatcher`** (module `Dispatch`, `dispatcher.dfy`): the reader's callback pushes
  each record into a 200-slot ring; the consumer's `PopQueue` pops the newest one and calls its
  callback only when the record is not all zeros.

`common.dfy` (module `Common`) holds the exceptions as data (`Error`, `Result`, `Outcome`), the
`byte` type and `AnalogueData`, the four-channel record `A0..A3`. Its declaration is not part of
this model; it is taken to be a struct of four bytes, so its default is all zeros. Were it a
class, a fresh ring would hold nulls and `TryGetNextData` would fault on the first tick.

Every operation is a pure function over an immutable state. A mutating call on the ring returns
the new state together with its outcome, and returns a state even when it throws, because the C#
object outlives the exception: this matters for `Push` on a zero-capacity ring, where `index++`
runs before the failing array store, so the cursor ends above the capacity
(`RingBuffer.ZeroCapacityPushOverruns`). The cursor invariant theorems therefore assume a
capacity of at least one, which the dispatcher's 200 satisfies. `Enable` and `Disable` throw
before changing anything, so a failing call returns only the error and the reader stays as it
was. The callback is modelled as the sequence of records it has received
(`Dispatcher.delivered`); the serial port as the sequence of bytes it currently has available.

The ring's wrap-around is lazy in both directions. `Push` does not reset the cursor when it
reaches the capacity; the next `Push` writes slot 0 (ConcurrentCircularBuffer.cs:26-30). `Pop`
at cursor 0 does not read slot `capacity - 1`: it moves the cursor to `capacity` and returns
slot 0, so a backward walk returns slot 0 twice in a row (ConcurrentCircularBuffer.cs:36-43;
`RingBuffer.BackwardWalkRepeatsSlotZero`, `Dispatch.WalkBackRepeatsSlotZero`). The guard of
`Get`, `Set` and `Swap` rejects `index > capacity` rather than `index >= capacity`;
`index == capacity` then fails at the array access with the same `IndexOutOfRangeException`, so
the model returns the same error for both (`RingBuffer.GuardAdmitsCapacity`).

## Model

| member | source | states |
|---|---|---|
| `RingBuffer.New` | MIDIController.Serial/ConcurrentCircularBuffer.cs:18-22 | A non-negative capacity gives that many default slots and cursor 0 (so the cursor invariant holds); a negative one throws. |
| `RingBuffer.Push` | MIDIController.Serial/ConcurrentCircularBuffer.cs:24-32 | Writes exactly one slot, the cursor or slot 0 when the cursor equals the capacity, leaves every other slot alone and puts the cursor just past it; on a valid ring it fails exactly when the capacity is 0 and otherwise keeps the cursor in `[0, capacity]`. |
| `RingBuffer.ZeroCapacityPushOverruns` | MIDIController.Serial/ConcurrentCircularBuffer.cs:24-32 | On a zero-capacity ring `Push` throws `IndexOutOfRangeException` after `index++` has run, leaving the cursor at 1, outside `[0, capacity]`. |
| `RingBuffer.Pop` | MIDIController.Serial/ConcurrentCircularBuffer.cs:34-45 | Never changes a slot; at cursor 0 returns slot 0 and sets the cursor to the capacity, otherwise returns slot `cursor - 1` and decrements; keeps the cursor invariant and fails only on a zero-capacity ring. |
| `RingBuffer.PushThenPop` | MIDIController.Serial/ConcurrentCircularBuffer.cs:24-45 | From any valid state of capacity at least one, a `Pop` right after `Push(v)` returns `v`. |
| `RingBuffer.BackwardWalkRepeatsSlotZero` | MIDIController.Serial/ConcurrentCircularBuffer.cs:34-45 | From cursor 1, two pops both return slot 0, the second one wrapping the cursor to the capacity. |
| `RingBuffer.PushEach` | MIDIController.Serial/ConcurrentCircularBuffer.cs:52-56 | Pushing values one by one on a valid ring of capacity at least one never throws, keeps the cursor invariant, and after n >= 1 pushes (also n > capacity) the next `Pop` returns the last value pushed. |
| `RingBuffer.PushEachSnoc` | MIDIController.Serial/ConcurrentCircularBuffer.cs:52-56 | Pushing a run of values and then one more equals pushing the longer run: the pushes happen in input order. |
| `RingBuffer.PushAll` | MIDIController.Serial/ConcurrentCircularBuffer.cs:47-57 | An input longer than the capacity is rejected with the state unchanged; otherwise it is pushing each element in order, which on a valid ring succeeds and leaves the last element to be popped next. |
| `RingBuffer.Get` | MIDIController.Serial/ConcurrentCircularBuffer.cs:59-67 | Returns slot `index` exactly when `0 <= index < capacity`; every other index throws `IndexOutOfRangeException`. |
| `RingBuffer.GuardAdmitsCapacity` | MIDIController.Serial/ConcurrentCircularBuffer.cs:59-81 | The bounds guard lets `index == capacity` through, and `Get`/`Set` at that index still throw, changing nothing. |
| `RingBuffer.Set` | MIDIController.Serial/ConcurrentCircularBuffer.cs:73-81 | Succeeds exactly for `0 <= index < capacity`, then changes that slot only; never moves the cursor; a failure changes nothing. |
| `RingBuffer.SetThenGet` | MIDIController.Serial/ConcurrentCircularBuffer.cs:59-81 | After `Set(i, v)`, `Get(i)` returns `v` and `Get` at any other index returns what it returned before. |
| `RingBuffer.Swap` | MIDIController.Serial/ConcurrentCircularBuffer.cs:87-103 | Equal indices fail first; otherwise succeeds exactly when both indices are in `[0, capacity)`, exchanging those two slots and nothing else, and any other failure is `IndexOutOfRangeException`; the cursor never moves and a failure changes nothing. |
| `RingBuffer.SwapTwice` | MIDIController.Serial/ConcurrentCircularBuffer.cs:87-103 | Swapping the same two indices twice restores the buffer, for every pair of indices. |
| `RingBuffer.Reset` | MIDIController.Serial/ConcurrentCircularBuffer.cs:105-109 | The cursor becomes 0 and the slots are untouched. |
| `RingBuffer.Clear` | MIDIController.Serial/ConcurrentCircularBuffer.cs:111-120 | Every slot becomes the default value and the cursor 0, capacity unchanged. |
| `RingBuffer.ResetAndClearRestart` | MIDIController.Serial/ConcurrentCircularBuffer.cs:105-120 | After `Reset` or `Clear` the next push writes slot 0; after `Clear` a pop returns the default value. |
| `RingBuffer.Present` | MIDIController.Serial/ConcurrentCircularBuffer.cs:128-133 | The null filter of the enumerator keeps only values from its input and, for a reference element type, drops every null; for a value type it keeps everything. |
| `RingBuffer.PresentCounts` | MIDIController.Serial/ConcurrentCircularBuffer.cs:128-133 | For a reference element type the filter keeps every non-null value exactly as often as it occurs, and no null. |
| `RingBuffer.PresentAppend` | MIDIController.Serial/ConcurrentCircularBuffer.cs:128-133 | The filter decides slot by slot: filtering a concatenation concatenates the filtered parts, so the kept values keep their order. |
| `RingBuffer.PresentSingle` | MIDIController.Serial/ConcurrentCircularBuffer.cs:129-132 | A single non-null value passes the filter and a single null does not. |
| `RingBuffer.Enumerate` | MIDIController.Serial/ConcurrentCircularBuffer.cs:122-135 | Yields only stored values: first every slot from the cursor to the end, nulls included, then the slots before the cursor in slot order through the null filter (so, by the filter's lemmas, without their nulls and in order; multiset stated); for a value type the whole is a rotation of the slots with the same multiset. |
| `RingBuffer.RotationParts` | MIDIController.Serial/ConcurrentCircularBuffer.cs:122-135 | The slots from a position on, followed by the filtered slots before it, start with the unfiltered tail and end with the filtered head in slot order, hold only slots, and have the multiset of the tail plus the non-null head. |
| `RingBuffer.EnumerateFiltersOnlyBeforeCursor` | MIDIController.Serial/ConcurrentCircularBuffer.cs:122-135 | With slots `[null, 5, null, 7]` and the cursor at 2, the enumeration is `[null, 7, 5]`: the null after the cursor is yielded, the one before it is not. |
| `RingBuffer.EnumeratePush` | MIDIController.Serial/ConcurrentCircularBuffer.cs:122-135 | For a value element type (no null filter), a push slides the enumeration by one: its oldest value leaves, the pushed value becomes the last one. |
| `RingBuffer.EnumerateAfterPushes` | MIDIController.Serial/ConcurrentCircularBuffer.cs:122-135 | For a value element type (no null filter), after any number of pushes the enumeration is the last `capacity` values of the old enumeration followed by the pushed values, oldest first. |
| `RingBuffer.RotationPush` | MIDIController.Serial/ConcurrentCircularBuffer.cs:24-32 | On a valid ring, whether the push wraps or not, the slots read from the cursor round to it lose their first value and gain the pushed one at the end. |
| `RingBuffer.RotationAfterPushes` | MIDIController.Serial/ConcurrentCircularBuffer.cs:24-56 | After any run of pushes the ring stays valid and its slots read from the cursor round are the last `capacity` values of the old reading followed by the pushed values. |
| `SerialReader.Step` | MIDIController.Serial/SerialReader.cs:98-110 | Byte 129 emits the four accumulator slots as they stand, resets the index and leaves the accumulator; another byte below index 4 is stored at the index, which increments, and at index 4 is dropped with no change; the index stays in `[0, 4]`. |
| `SerialReader.Run` | MIDIController.Serial/SerialReader.cs:85-110 | Folding the per-byte step over any input keeps the fill index in `[0, 4]` and the accumulator at four bytes, so the store never faults. |
| `SerialReader.RunCountsTerminators` | MIDIController.Serial/SerialReader.cs:98-110 | Over any input the number of records emitted equals the number of 129 bytes in it, no more and no fewer. |
| `SerialReader.RunNeverEmitsTerminator` | MIDIController.Serial/SerialReader.cs:98-110 | From an accumulator holding no 129 (a fresh one), the accumulator never comes to hold one, so no emitted channel is ever 129. |
| `SerialReader.ReadAvailable` | MIDIController.Serial/SerialReader.cs:93-114 | The byte loop with its mutable accumulator and index computes the same decoder state and records as `Run`. |
| `SerialReader.RunAppend` | MIDIController.Serial/SerialReader.cs:84-127 | Decoding two chunks in turn, carrying the decoder over, equals decoding their concatenation. |
| `SerialReader.RunSnoc` | MIDIController.Serial/SerialReader.cs:93-110 | Decoding one more byte after a run is one more step applied to the run's decoder, its record (if any) appended after the run's records. |
| `SerialReader.PayloadFills` | MIDIController.Serial/SerialReader.cs:104-110 | From index 0, payload bytes fill the accumulator from channel 0, bytes after the fourth are dropped, untouched channels keep their values, and nothing is emitted. |
| `SerialReader.FrameLayout` | MIDIController.Serial/SerialReader.cs:98-110 | A frame read from index 0 emits exactly one record whose channel k is the k-th payload byte if there was one and the stale accumulator value otherwise, and leaves the decoder at index 0. |
| `SerialReader.FullFrame` | MIDIController.Serial/SerialReader.cs:98-110 | A frame of exactly four payload bytes emits those bytes and replaces the whole accumulator. |
| `SerialReader.DecodeFullFrame` | MIDIController.Serial/SerialReader.cs:85-110 | From a fresh decoder, `[10,20,30,40,129]` yields `(10,20,30,40)`. |
| `SerialReader.DecodeShortFrame` | MIDIController.Serial/SerialReader.cs:85-110 | From a fresh decoder, `[10,20,129]` yields `(10,20,0,0)`. |
| `SerialReader.DecodeOverlongFrame` | MIDIController.Serial/SerialReader.cs:85-110 | From a fresh decoder, `[1,2,3,4,5,6,129]` yields `(1,2,3,4)` and the decoder is back at index 0. |
| `SerialReader.ShortFrameKeepsStaleChannels` | MIDIController.Serial/SerialReader.cs:99-109 | A two-byte frame's channels 2 and 3 are the values the previous frame left, not zero. |
| `SerialReader.NewReader` | MIDIController.Serial/SerialReader.cs:23-41 | Construction fails on a missing port or callback; otherwise the reader starts disabled with a fresh decoder. |
| `SerialReader.Enable` | MIDIController.Serial/SerialReader.cs:62-71 | Fails exactly when already enabled; otherwise sets the flag and leaves the decoder untouched. |
| `SerialReader.Disable` | MIDIController.Serial/SerialReader.cs:76-82 | Fails exactly when already disabled; otherwise clears the flag and leaves the decoder untouched. |
| `SerialReader.PollPort` | MIDIController.Serial/SerialReader.cs:87-126 | Bytes are consumed, all of them, only while the reader is enabled and the port open, and then they are decoded as `Run`; otherwise nothing changes and the bytes stay unread. |
| `SerialReader.DisableEnableCycle` | MIDIController.Serial/SerialReader.cs:62-94 | A disable/enable cycle returns the identical reader, so later bytes decode exactly as they would have without it; bytes offered while disabled are not consumed. |
| `SerialReader.PollSplit` | MIDIController.Serial/SerialReader.cs:85-126 | Two passes over consecutive chunks emit the same records and leave the same reader as one pass over both. |
| `Dispatch.New` | MIDIController.Serial/AnalogDataDispatcher.cs:16-24 | A missing callback fails at once; otherwise the ring has 200 all-zero slots, cursor 0, and nothing has been delivered. |
| `Dispatch.TryGetNextData` | MIDIController.Serial/AnalogDataDispatcher.cs:34-41 | Always pops, so the cursor moves even on a false answer; returns the popped record, and false exactly when its four channels are all zero. |
| `Dispatch.PopQueue` | MIDIController.Serial/AnalogDataDispatcher.cs:43-47 | Calls the callback at most once, and exactly once, with the popped record, when `TryGetNextData` answers true; so the callback never receives an all-zero record. |
| `Dispatch.OnDataReceived` | MIDIController.Serial/AnalogDataDispatcher.cs:49-51 | Pushes the record into the ring, which keeps its invariant, without calling the callback; the next pop returns that record. |
| `Dispatch.FreshDispatcherIsSilent` | MIDIController.Serial/AnalogDataDispatcher.cs:16-47 | A fresh dispatcher's first `TryGetNextData` answers false and its first `PopQueue` calls nothing. |
| `Dispatch.Ticks` | ArduinoMIDIController/MainWindow.xaml.cs:42-44 | Repeated `PopQueue` calls from the consumer's timer keep the ring invariant, only ever append to what the callback received, at most one record per tick, and never hand it an all-zero record. |
| `Dispatch.WalkBackRepeatsSlotZero` | MIDIController.Serial/AnalogDataDispatcher.cs:34-47 | From cursor 3 with non-zero records in slots 0 to 2, four ticks deliver slots 2, 1, 0 and then slot 0 a second time. |
| `Dispatch.ThreeReceivedFourTicks` | MIDIController.Serial/AnalogDataDispatcher.cs:16-51 | Three non-zero records `a`, `b`, `c` received by a fresh dispatcher reach the callback over four ticks as `c, b, a, a`. |
| `Dispatch.QuietStaysSilent` | MIDIController.Serial/AnalogDataDispatcher.cs:34-47 | While nothing is received, a ring holding only all-zero records (a fresh one) makes no tick call the callback, however many ticks. |
| `Dispatch.ReceiveThenPoll` | MIDIController.Serial/AnalogDataDispatcher.cs:34-51 | After receiving `x`, `TryGetNextData` returns `x`, true exactly when `x` is not all zero, and `PopQueue` forwards `x` exactly then; an all-zero record is never forwarded. |
| `Dispatch.Deliver` | MIDIController.Serial/AnalogDataDispatcher.cs:49-51 | Receiving a run of records is pushing each into the ring in order, and calls nothing. |
| `Dispatch.Ingest` | MIDIController.Serial/SerialReader.cs:93-110 | With the reader enabled and the port open, every record the pass decodes is pushed into the ring in order (the ring is `PushEach` of exactly the decoded records) and the callback is not called; with the reader disabled or the port closed the dispatcher is unchanged. |
| `Dispatch.IngestThenTick` | MIDIController.Serial/AnalogDataDispatcher.cs:34-51 | After a pass that read a 129, the next tick hands the callback the last frame decoded, unless it is all zero, in which case nothing. |
| `Dispatch.EndToEndExamples` | MIDIController.Serial/AnalogDataDispatcher.cs:16-51 | From a dispatcher and a reader built by their constructors, the reader then enabled, bytes `[10,20,30,40,129]` reach the callback as `(10,20,30,40)` on the next tick, while `[0,0,129]` reaches it as nothing. |

## Left out

- Threads: the reader thread, its name counter, `Thread.Sleep`, `volatile`, `Dispose`/`Join` and teardown. Each model operation is one atomic step; the guarantee that no callback follows teardown is a property of thread joining, not of the logic modelled here.
- The `lock` statements of the ring, including the lock held across `yield` in the enumerator: operations are sequential and atomic in the model.
- `SerialReader.PollPort`: a `Disable` that lands in the middle of draining the available bytes (the per-byte `_canRun` check) is an interleaving of two threads and is not modelled; a pass either reads everything available or nothing.
- `SerialPort` itself (`IsOpen`, `BytesToRead`, `ReadByte`): replaced by an open flag and a sequence of available bytes. `SerialDevice` (port construction, baud and parity, stream wrappers, `Connect`/`Disconnect`) is not part of this model, so neither are `AnalogDataDispatcher.Open`/`Close`, which only delegate to it and, through it, to `Enable`/`Disable`.
- `Dispatch.New`: the port name and baud rate handed on to `SerialDevice`, and the failures that could raise there, are not modelled.
- `UnsafeGet`/`UnsafeSet`: unchecked array accesses.
- The one-argument `SerialReader` constructor: it leaves the callback null, so the first frame would fault; it is not on the dispatcher's path.
- `RingBuffer.Enumerate`: the C# `e != null` test is modelled by a `nullable` flag saying whether the element type is a reference type, whose default is null; it is lazy iteration in C# and a finished sequence here.
- `RingBuffer.EnumeratePush`: stated for a value element type only; for a reference type the null filter applies only before the cursor, so after a wrap a null can leave or stay in the window unevenly (`RingBuffer.EnumerateFiltersOnlyBeforeCursor` shows the filter's behaviour).
- `RingBuffer.EnumerateAfterPushes`: stated for a value element type only, for the same reason.
