/** The dispatcher (`AnalogDataDispatcher`): the reader thread pushes every decoded record into a
    200-slot ring, and the consumer's timer pops the newest one, drops it if all four channels are
    zero, and otherwise hands it to the callback. The callback's effect is recorded as the sequence
    of records it has been given. */
module Dispatch {
  import opened Common
  import RingBuffer
  import SerialReader

  /** The ring's capacity, fixed by the constructor. */
  const QueueCapacity: nat := 200

  /** The ring of received records, and every record handed to the callback so far, in order. */
  datatype Dispatcher = Dispatcher(queue: RingBuffer.Ring<AnalogueData>, delivered: seq<AnalogueData>)

  /** The ring keeps its cursor invariant and its capacity of 200; its default is the all-zero record. */
  predicate Valid(d: Dispatcher) {
    RingBuffer.Valid(d.queue) && RingBuffer.Capacity(d.queue) == QueueCapacity && d.queue.dflt == Zero
  }

  /** Every slot of the ring holds an all-zero record. */
  predicate Quiet(d: Dispatcher) {
    forall i :: 0 <= i < |d.queue.slots| ==> IsAllZero(d.queue.slots[i])
  }

  /** No all-zero record was ever handed to the callback. */
  predicate OnlyNonZeroDelivered(d: Dispatcher) {
    forall k :: 0 <= k < |d.delivered| ==> !IsAllZero(d.delivered[k])
  }

  /** The constructor: a missing callback fails at once; otherwise the ring holds 200 default
      (all-zero) records with the cursor at 0, and nothing has been delivered. */
  function New(callbackPresent: bool): (res: Result<Dispatcher>)
    ensures res.Err? <==> !callbackPresent
    ensures res.Err? ==> res.error == NullArgument
    ensures res.Ok? ==> Valid(res.value) && Quiet(res.value)
    ensures res.Ok? ==> res.value.delivered == [] && res.value.queue.cursor == 0
  {
    if !callbackPresent then Err(NullArgument)
    else Ok(Dispatcher(RingBuffer.New(QueueCapacity, Zero).value, []))
  }

  /** What `TryGetNextData` returns: the dispatcher after the pop, the boolean result and the
      `out` record. */
  datatype Fetch = Fetch(dispatcher: Dispatcher, found: bool, data: AnalogueData)

  /** `TryGetNextData`: always pops (so the cursor moves even when the answer is no), and answers
      no exactly when the popped record has all four channels zero. */
  function TryGetNextData(d: Dispatcher): (f: Fetch)
    requires Valid(d)
    ensures Valid(f.dispatcher) && f.dispatcher.delivered == d.delivered
    ensures f.dispatcher.queue == RingBuffer.Pop(d.queue).ring
    ensures f.dispatcher.queue.cursor != d.queue.cursor
    ensures RingBuffer.Pop(d.queue).value == Ok(f.data)
    ensures f.found <==> !IsAllZero(f.data)
  {
    var p := RingBuffer.Pop(d.queue);
    Fetch(d.(queue := p.ring), !IsAllZero(p.value.value), p.value.value)
  }

  /** `PopQueue`: calls the callback at most once, and exactly once, with the popped record, when
      `TryGetNextData` answers yes; so the callback never receives an all-zero record. */
  function PopQueue(d: Dispatcher): (d': Dispatcher)
    requires Valid(d)
    ensures Valid(d') && d'.queue == RingBuffer.Pop(d.queue).ring
    ensures |d.delivered| <= |d'.delivered| <= |d.delivered| + 1
    ensures d'.delivered[..|d.delivered|] == d.delivered
    ensures |d'.delivered| == |d.delivered| + 1 <==> TryGetNextData(d).found
    ensures |d'.delivered| == |d.delivered| + 1 ==> d'.delivered[|d.delivered|] == TryGetNextData(d).data
    ensures OnlyNonZeroDelivered(d) ==> OnlyNonZeroDelivered(d')
  {
    var f := TryGetNextData(d);
    if f.found then f.dispatcher.(delivered := d.delivered + [f.data]) else f.dispatcher
  }

  /** `OnDataReceivedMTA`, the reader's callback: push the record; the callback is not called. */
  function OnDataReceived(d: Dispatcher, data: AnalogueData): (d': Dispatcher)
    requires Valid(d)
    ensures Valid(d') && d'.delivered == d.delivered
    ensures d'.queue == RingBuffer.Push(d.queue, data).ring
    ensures RingBuffer.Pop(d'.queue).value == Ok(data)
  {
    d.(queue := RingBuffer.Push(d.queue, data).ring)
  }

  /** A fresh dispatcher answers no to its first `TryGetNextData`, and its first `PopQueue` calls
      nothing. */
  lemma FreshDispatcherIsSilent()
    ensures New(true).Ok?
    ensures !TryGetNextData(New(true).value).found
    ensures PopQueue(New(true).value).delivered == []
  {
  }

  /** `n` ticks of the consumer's timer, each one `PopQueue`. */
  function Ticks(d: Dispatcher, n: nat): (d': Dispatcher)
    requires Valid(d)
    ensures Valid(d')
    ensures |d.delivered| <= |d'.delivered| <= |d.delivered| + n
    ensures d'.delivered[..|d.delivered|] == d.delivered
    ensures OnlyNonZeroDelivered(d) ==> OnlyNonZeroDelivered(d')
    decreases n
  {
    if n == 0 then d
    else
      var next := PopQueue(d);
      var last := Ticks(next, n - 1);
      assert last.delivered[..|d.delivered|] == last.delivered[..|next.delivered|][..|d.delivered|];
      last
  }

  /** The consumer sees `Pop`'s repeat of slot 0: from cursor 3 with non-zero records in slots 0
      to 2, four ticks hand the callback slots 2, 1, 0 and then slot 0 again. */
  lemma WalkBackRepeatsSlotZero(d: Dispatcher)
    requires Valid(d) && d.queue.cursor == 3
    requires forall i :: 0 <= i < 3 ==> !IsAllZero(d.queue.slots[i])
    ensures var s := d.queue.slots;
            Ticks(d, 4).delivered == d.delivered + [s[2], s[1], s[0], s[0]]
  {
    var s := d.queue.slots;
    var t1 := PopQueue(d);
    var t2 := PopQueue(t1);
    var t3 := PopQueue(t2);
    var t4 := PopQueue(t3);
    assert t3.queue.cursor == 0;
    assert Ticks(d, 4) == Ticks(t4, 0);
  }

  /** After three non-zero records `a`, `b`, `c` reach a fresh dispatcher, four ticks hand the
      callback `c`, `b`, `a` and then `a` again. */
  lemma ThreeReceivedFourTicks(a: AnalogueData, b: AnalogueData, c: AnalogueData)
    requires !IsAllZero(a) && !IsAllZero(b) && !IsAllZero(c)
    ensures Ticks(Deliver(New(true).value, [a, b, c]), 4).delivered == [c, b, a, a]
  {
    var d0 := New(true).value;
    var d3 := OnDataReceived(OnDataReceived(OnDataReceived(d0, a), b), c);
    assert [a, b, c][1..] == [b, c] && [b, c][1..] == [c] && [c][1..] == [];
    assert Deliver(d0, [a, b, c]) == d3;
    assert d3.queue.slots[0] == a && d3.queue.slots[1] == b && d3.queue.slots[2] == c;
    WalkBackRepeatsSlotZero(d3);
  }

  /** While nothing is received, a dispatcher whose ring holds only all-zero records (a fresh
      one, in particular) calls the callback on no tick, however many ticks there are. */
  lemma {:induction false} QuietStaysSilent(d: Dispatcher, n: nat)
    requires Valid(d) && Quiet(d)
    ensures Ticks(d, n).delivered == d.delivered && Quiet(Ticks(d, n))
    decreases n
  {
    if n > 0 {
      var next := PopQueue(d);
      assert !TryGetNextData(d).found;
      assert Quiet(next);
      QuietStaysSilent(next, n - 1);
    }
  }

  /** A record received and then polled comes straight back: `TryGetNextData` returns it, answering
      yes exactly when it is not all zero, and `PopQueue` forwards it exactly then. An all-zero
      record is never forwarded. */
  lemma ReceiveThenPoll(d: Dispatcher, x: AnalogueData)
    requires Valid(d)
    ensures TryGetNextData(OnDataReceived(d, x)).data == x
    ensures TryGetNextData(OnDataReceived(d, x)).found <==> !IsAllZero(x)
    ensures PopQueue(OnDataReceived(d, x)).delivered ==
            d.delivered + (if IsAllZero(x) then [] else [x])
  {
  }

  /** The reader's callback applied to each decoded record in order. */
  function Deliver(d: Dispatcher, records: seq<AnalogueData>): (d': Dispatcher)
    requires Valid(d)
    ensures Valid(d') && d'.delivered == d.delivered
    ensures d'.queue == RingBuffer.PushEach(d.queue, records).ring
    decreases |records|
  {
    if records == [] then d else Deliver(OnDataReceived(d, records[0]), records[1..])
  }

  /** The reader and the dispatcher together: one pass of the reader thread. */
  datatype Pipeline = Pipeline(dispatcher: Dispatcher, reader: SerialReader.Reader)

  /** One pass of the reader thread: decode the available bytes and push every record it emits. A
      disabled reader or a closed port leaves the dispatcher as it was. */
  function Ingest(d: Dispatcher, r: SerialReader.Reader, portOpen: bool, available: seq<byte>): (p: Pipeline)
    requires Valid(d) && SerialReader.Valid(r.decoder)
    ensures Valid(p.dispatcher) && p.dispatcher.delivered == d.delivered
    ensures p.reader == SerialReader.PollPort(r, portOpen, available).reader
    ensures !(r.enabled && portOpen) ==> p.dispatcher == d
    ensures r.enabled && portOpen ==>
      p.dispatcher.queue == RingBuffer.PushEach(d.queue, SerialReader.Run(r.decoder, available).records).ring
  {
    var poll := SerialReader.PollPort(r, portOpen, available);
    Pipeline(Deliver(d, poll.records), poll.reader)
  }

  /** After a pass that read at least one terminator, the next tick hands the callback the last
      frame decoded in that pass, unless it is all zero, in which case it hands over nothing. */
  lemma IngestThenTick(d: Dispatcher, r: SerialReader.Reader, available: seq<byte>)
    requires Valid(d) && SerialReader.Valid(r.decoder) && r.enabled
    requires SerialReader.Terminator in available
    ensures var records := SerialReader.Run(r.decoder, available).records;
            |records| > 0 &&
            var last := records[|records| - 1];
            PopQueue(Ingest(d, r, true, available).dispatcher).delivered ==
            d.delivered + (if IsAllZero(last) then [] else [last])
  {
    var records := SerialReader.Run(r.decoder, available).records;
    SerialReader.RunCountsTerminators(r.decoder, available);
    assert multiset(available)[SerialReader.Terminator] > 0;
    assert |records| > 0;
  }

  /** From a fresh dispatcher and reader: the frame 10, 20, 30, 40 reaches the callback on the
      next tick, while a frame of zeros is swallowed as "no data yet". */
  lemma EndToEndExamples(r: SerialReader.Reader, full: seq<byte>, zeros: seq<byte>)
    requires r == SerialReader.Enable(SerialReader.NewReader(true, true).value).value
    requires full == [10, 20, 30, 40, 129] && zeros == [0, 0, 129]
    ensures PopQueue(Ingest(New(true).value, r, true, full).dispatcher).delivered ==
            [AnalogueData(10, 20, 30, 40)]
    ensures PopQueue(Ingest(New(true).value, r, true, zeros).dispatcher).delivered == []
  {
    var d := New(true).value;
    SerialReader.DecodeFullFrame(full);
    assert full[4] == SerialReader.Terminator;
    IngestThenTick(d, r, full);
    SerialReader.ShortFrameKeepsStaleChannels(SerialReader.Fresh, 0, 0);
    assert zeros[2] == SerialReader.Terminator;
    IngestThenTick(d, r, zeros);
  }
}
