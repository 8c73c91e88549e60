/** The serial reader: a byte-at-a-time frame decoder and the enable flag that gates it.
    The wire format has no length field: every byte but 129 is channel data, 129 ends a frame,
    and the frame is whatever the 4-byte accumulator holds at that moment. The reader thread,
    the port and the sleeps are replaced by an explicit sequence of available bytes. */
module SerialReader {
  import opened Common

  /** The byte that ends a frame. */
  const Terminator: byte := 129

  /** Channels per frame, and the size of the accumulator. */
  const FrameWidth: nat := 4

  /** The decoder's state: the accumulator and the fill index. Both are locals of the reader
      thread's main loop, created once when the thread starts. */
  datatype Decoder = Decoder(buffer: seq<byte>, index: int)

  /** The accumulator holds four bytes and the fill index lies in [0, 4]. */
  predicate Valid(d: Decoder) {
    |d.buffer| == FrameWidth && 0 <= d.index <= FrameWidth
  }

  /** The decoder as the thread starts: a zeroed accumulator and fill index 0. */
  const Fresh: Decoder := Decoder([0, 0, 0, 0], 0)

  /** The record built from the four accumulator slots as they stand. */
  function Frame(buffer: seq<byte>): AnalogueData
    requires |buffer| == FrameWidth
  {
    AnalogueData(buffer[0], buffer[1], buffer[2], buffer[3])
  }

  /** No byte of `s` is the terminator. */
  predicate Clean(s: seq<byte>) {
    forall k :: 0 <= k < |s| ==> s[k] != Terminator
  }

  /** No channel of the record is the terminator value. */
  predicate CleanRecord(a: AnalogueData) {
    a.a0 != Terminator && a.a1 != Terminator && a.a2 != Terminator && a.a3 != Terminator
  }

  /** The decoder after one byte, and the record that byte completed, if any. */
  datatype Emit = Emit(decoder: Decoder, record: Option<AnalogueData>)

  /** One byte of input. The terminator emits the accumulator and resets the fill index, leaving
      the accumulator itself alone. Any other byte is stored at the fill index while that is
      below 4, and dropped, with no change at all, once it is 4. */
  function Step(d: Decoder, b: byte): (e: Emit)
    requires Valid(d)
    ensures Valid(e.decoder)
    ensures e.record.Some? <==> b == Terminator
    ensures b == Terminator ==> e.record.value == Frame(d.buffer) && e.decoder == Decoder(d.buffer, 0)
    ensures b != Terminator && d.index < FrameWidth ==>
      e.decoder.index == d.index + 1 && e.decoder.buffer[d.index] == b &&
      forall k :: 0 <= k < FrameWidth && k != d.index ==> e.decoder.buffer[k] == d.buffer[k]
    ensures b != Terminator && d.index == FrameWidth ==> e.decoder == d
  {
    if b == Terminator then Emit(d.(index := 0), Some(Frame(d.buffer)))
    else if d.index == FrameWidth then Emit(d, None)
    else Emit(Decoder(d.buffer[d.index := b], d.index + 1), None)
  }

  /** The decoder after a run of bytes, and the records emitted, in order. */
  datatype Decoded = Decoded(decoder: Decoder, records: seq<AnalogueData>)

  /** The records a step adds to the output: none, or the one it completed. */
  function Emitted(e: Emit): seq<AnalogueData> {
    if e.record.Some? then [e.record.value] else []
  }

  /** The decoder folded over a byte sequence: the fill index stays in [0, 4] throughout. */
  function Run(d: Decoder, bytes: seq<byte>): (out: Decoded)
    requires Valid(d)
    ensures Valid(out.decoder)
    decreases |bytes|
  {
    if bytes == [] then Decoded(d, [])
    else
      var e := Step(d, bytes[0]);
      var rest := Run(e.decoder, bytes[1..]);
      Decoded(rest.decoder, Emitted(e) + rest.records)
  }

  /** One record is emitted per terminator byte in the input, no more and no fewer. */
  lemma {:induction false} RunCountsTerminators(d: Decoder, bytes: seq<byte>)
    requires Valid(d)
    ensures |Run(d, bytes).records| == multiset(bytes)[Terminator]
    decreases |bytes|
  {
    if bytes != [] {
      assert bytes == [bytes[0]] + bytes[1..];
      RunCountsTerminators(Step(d, bytes[0]).decoder, bytes[1..]);
    }
  }

  /** From an accumulator that holds no terminator (a fresh one, say) the accumulator never comes
      to hold one, so no emitted record has a channel equal to the terminator. */
  lemma {:induction false} RunNeverEmitsTerminator(d: Decoder, bytes: seq<byte>)
    requires Valid(d) && Clean(d.buffer)
    ensures Clean(Run(d, bytes).decoder.buffer)
    ensures forall k :: 0 <= k < |Run(d, bytes).records| ==> CleanRecord(Run(d, bytes).records[k])
    decreases |bytes|
  {
    if bytes != [] {
      var e := Step(d, bytes[0]);
      RunNeverEmitsTerminator(e.decoder, bytes[1..]);
      var rest := Run(e.decoder, bytes[1..]);
      assert forall k :: 0 <= k < |Emitted(e)| ==> CleanRecord(Emitted(e)[k]);
      assert forall k :: 0 <= k < |rest.records| ==> CleanRecord(rest.records[k]);
    }
  }

  /** The inner read loop of the reader thread: take each available byte in turn, emit on the
      terminator, drop on a full accumulator, store otherwise. It computes exactly `Run`. */
  method ReadAvailable(d: Decoder, bytes: seq<byte>) returns (d': Decoder, records: seq<AnalogueData>)
    requires Valid(d)
    ensures Decoded(d', records) == Run(d, bytes)
    ensures Valid(d')
  {
    var buffer := d.buffer;
    var index := d.index;
    records := [];
    var i := 0;
    while i < |bytes|
      invariant 0 <= i <= |bytes|
      invariant Valid(Decoder(buffer, index))
      invariant Run(d, bytes[..i]) == Decoded(Decoder(buffer, index), records)
    {
      var read := bytes[i];
      RunSnoc(d, bytes[..i], read);
      assert bytes[..i] + [read] == bytes[..i + 1];
      if read == Terminator {
        records := records + [Frame(buffer)];
        index := 0;
      } else if index == FrameWidth {
      } else {
        buffer := buffer[index := read];
        index := index + 1;
      }
      i := i + 1;
    }
    assert bytes[..i] == bytes;
    d' := Decoder(buffer, index);
  }

  /** Decoding is independent of how the input is split: two runs back to back are one run over
      the concatenation. */
  lemma {:induction false} RunAppend(d: Decoder, a: seq<byte>, b: seq<byte>)
    requires Valid(d)
    ensures var first := Run(d, a);
            var second := Run(first.decoder, b);
            Run(d, a + b) == Decoded(second.decoder, first.records + second.records)
    decreases |a|
  {
    if a == [] {
      assert a + b == b;
    } else {
      var e := Step(d, a[0]);
      assert (a + b)[0] == a[0];
      assert (a + b)[1..] == a[1..] + b;
      RunAppend(e.decoder, a[1..], b);
      var tail := Run(e.decoder, a[1..]);
      var second := Run(tail.decoder, b);
      assert Emitted(e) + (tail.records + second.records) == Emitted(e) + tail.records + second.records;
    }
  }

  /** `Run` over one more byte is one more `Step` after it. */
  lemma RunSnoc(d: Decoder, s: seq<byte>, x: byte)
    requires Valid(d)
    ensures var prior := Run(d, s);
            var e := Step(prior.decoder, x);
            Run(d, s + [x]) == Decoded(e.decoder, prior.records + Emitted(e))
  {
    RunAppend(d, s, [x]);
    assert [x][1..] == [];
  }

  /** The accumulator after the payload `p` of a frame that started at fill index 0: channel k
      holds the k-th payload byte if there was one, and otherwise what it held before. */
  function Fill(buffer: seq<byte>, p: seq<byte>): (f: seq<byte>)
    requires |buffer| == FrameWidth
  {
    seq(FrameWidth, k requires 0 <= k < FrameWidth => if k < |p| then p[k] else buffer[k])
  }

  /** A payload with no terminator, read from fill index 0, fills the accumulator from the front,
      drops whatever comes after the fourth byte, and emits nothing. */
  lemma {:induction false} PayloadFills(d: Decoder, p: seq<byte>)
    requires Valid(d) && d.index == 0 && Clean(p)
    ensures Run(d, p) == Decoded(Decoder(Fill(d.buffer, p), Min(|p|, FrameWidth)), [])
    decreases |p|
  {
    if p == [] {
      assert Fill(d.buffer, p) == d.buffer;
    } else {
      var n := |p| - 1;
      var q := p[..n];
      assert Clean(q);
      PayloadFills(d, q);
      RunSnoc(d, q, p[n]);
      assert q + [p[n]] == p;
      var before := Fill(d.buffer, q);
      if n < FrameWidth {
        assert Fill(d.buffer, p) == before[n := p[n]];
      } else {
        assert Fill(d.buffer, p) == before;
      }
    }
  }

  /** One whole frame from fill index 0: its payload, then the terminator, emits exactly one
      record, whose channel k is the k-th payload byte when the payload had one and the stale
      accumulator value otherwise, and the decoder ends ready for the next frame at index 0. */
  lemma FrameLayout(d: Decoder, p: seq<byte>)
    requires Valid(d) && d.index == 0 && Clean(p)
    ensures Run(d, p + [Terminator]) ==
            Decoded(Decoder(Fill(d.buffer, p), 0), [Frame(Fill(d.buffer, p))])
  {
    PayloadFills(d, p);
    RunSnoc(d, p, Terminator);
  }

  /** `[10, 20, 30, 40, 129]` from a fresh decoder yields (10, 20, 30, 40). */
  lemma DecodeFullFrame(input: seq<byte>)
    requires input == [10, 20, 30, 40, 129]
    ensures Run(Fresh, input).records == [AnalogueData(10, 20, 30, 40)]
  {
    var payload := input[..4];
    assert payload == [10, 20, 30, 40];
    assert Clean(payload);
    assert Fill(Fresh.buffer, payload) == [10, 20, 30, 40];
    assert payload + [Terminator] == input;
    FrameLayout(Fresh, payload);
  }

  /** `[10, 20, 129]` from a fresh decoder yields (10, 20, 0, 0): the zeros are the fresh
      accumulator's, not padding. */
  lemma DecodeShortFrame(input: seq<byte>)
    requires input == [10, 20, 129]
    ensures Run(Fresh, input).records == [AnalogueData(10, 20, 0, 0)]
  {
    var payload := input[..2];
    assert payload == [10, 20];
    assert Clean(payload);
    assert Fill(Fresh.buffer, payload) == [10, 20, 0, 0];
    assert payload + [Terminator] == input;
    FrameLayout(Fresh, payload);
  }

  /** `[1, 2, 3, 4, 5, 6, 129]` from a fresh decoder yields (1, 2, 3, 4): the fifth and sixth
      bytes are dropped, and the decoder is back at fill index 0. */
  lemma DecodeOverlongFrame(input: seq<byte>)
    requires input == [1, 2, 3, 4, 5, 6, 129]
    ensures Run(Fresh, input).records == [AnalogueData(1, 2, 3, 4)]
    ensures Run(Fresh, input).decoder.index == 0
  {
    var payload := input[..6];
    assert payload == [1, 2, 3, 4, 5, 6];
    assert Clean(payload);
    assert Fill(Fresh.buffer, payload) == [1, 2, 3, 4];
    assert payload + [Terminator] == input;
    FrameLayout(Fresh, payload);
  }

  /** A two-byte frame keeps the previous frame's last two channels rather than zeroing them. */
  lemma ShortFrameKeepsStaleChannels(d: Decoder, x: byte, y: byte)
    requires Valid(d) && d.index == 0 && x != Terminator && y != Terminator
    ensures Run(d, [x, y, Terminator]).records == [AnalogueData(x, y, d.buffer[2], d.buffer[3])]
  {
    FrameLayout(d, [x, y]);
    assert [x, y] + [Terminator] == [x, y, Terminator];
  }

  /** A frame of exactly four payload bytes replaces the whole accumulator. */
  lemma FullFrame(d: Decoder, full: seq<byte>)
    requires Valid(d) && d.index == 0 && |full| == FrameWidth && Clean(full)
    ensures Run(d, full + [Terminator]) == Decoded(Decoder(full, 0), [Frame(full)])
  {
    FrameLayout(d, full);
    assert Fill(d.buffer, full) == full;
  }

  /** The reader: the enable flag and the decoder the reader thread keeps in its locals. */
  datatype Reader = Reader(enabled: bool, decoder: Decoder)

  /** The two-argument constructor: port and callback must both be present, and the reader
      starts disabled with a fresh decoder. */
  function NewReader(portPresent: bool, callbackPresent: bool): (res: Result<Reader>)
    ensures res.Ok? <==> portPresent && callbackPresent
    ensures res.Err? ==> res.error == NullArgument
    ensures res.Ok? ==> !res.value.enabled && res.value.decoder == Fresh && Valid(res.value.decoder)
  {
    if !portPresent || !callbackPresent then Err(NullArgument) else Ok(Reader(false, Fresh))
  }

  /** `Enable`: fails on an enabled reader, otherwise sets the flag and touches nothing else. */
  function Enable(r: Reader): (res: Result<Reader>)
    ensures res.Err? <==> r.enabled
    ensures res.Err? ==> res.error == AlreadyEnabled
    ensures res.Ok? ==> res.value.enabled && res.value.decoder == r.decoder
  {
    if r.enabled then Err(AlreadyEnabled) else Ok(r.(enabled := true))
  }

  /** `Disable`: fails on a disabled reader, otherwise clears the flag and touches nothing else. */
  function Disable(r: Reader): (res: Result<Reader>)
    ensures res.Err? <==> !r.enabled
    ensures res.Err? ==> res.error == AlreadyDisabled
    ensures res.Ok? ==> !res.value.enabled && res.value.decoder == r.decoder
  {
    if !r.enabled then Err(AlreadyDisabled) else Ok(r.(enabled := false))
  }

  /** One pass of the reader thread's loop, with `available` standing for the bytes the port
      reports as readable: the reader after the pass, the records handed to the callback, and
      the bytes left unread in the port. */
  datatype Poll = Poll(reader: Reader, records: seq<AnalogueData>, unread: seq<byte>)

  /** Bytes are taken only while the reader is enabled and the port is open; then all of them
      are decoded. Otherwise the pass only sleeps and nothing changes. */
  function PollPort(r: Reader, portOpen: bool, available: seq<byte>): (p: Poll)
    requires Valid(r.decoder)
    ensures p.reader.enabled == r.enabled && Valid(p.reader.decoder)
    ensures !(r.enabled && portOpen) ==> p == Poll(r, [], available)
    ensures r.enabled && portOpen ==> p.unread == [] && |p.records| == multiset(available)[Terminator]
    ensures r.enabled && portOpen ==> Decoded(p.reader.decoder, p.records) == Run(r.decoder, available)
  {
    if r.enabled && portOpen then
      var out := Run(r.decoder, available);
      RunCountsTerminators(r.decoder, available);
      Poll(r.(decoder := out.decoder), out.records, [])
    else Poll(r, [], available)
  }

  /** A disable/enable cycle gives back the very same reader, so decoding afterwards continues
      exactly where it left off; bytes offered while disabled stay unread. */
  lemma DisableEnableCycle(r: Reader, portOpen: bool, bytes: seq<byte>)
    requires r.enabled && Valid(r.decoder)
    ensures Disable(r).Ok? && Enable(Disable(r).value) == Ok(r)
    ensures PollPort(Disable(r).value, portOpen, bytes).unread == bytes
    ensures PollPort(Enable(Disable(r).value).value, portOpen, bytes) == PollPort(r, portOpen, bytes)
  {
  }

  /** Two passes over consecutive chunks decode the same records, and leave the same decoder,
      as one pass over the whole input: no byte is lost or reordered between passes. */
  lemma PollSplit(r: Reader, a: seq<byte>, b: seq<byte>)
    requires r.enabled && Valid(r.decoder)
    ensures var first := PollPort(r, true, a);
            var second := PollPort(first.reader, true, b);
            var whole := PollPort(r, true, a + b);
            whole.reader == second.reader && whole.records == first.records + second.records
  {
    RunAppend(r.decoder, a, b);
  }
}
