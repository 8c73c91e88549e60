/** The fixed-capacity circular buffer (`ConcurrentCircularBuffer<E>`): an array of `capacity`
    slots and one cursor. `Push` writes at the cursor and moves it forward, `Pop` moves it back
    and reads, so the most recently pushed value is the one popped next. Every operation runs
    under one lock in the source; here each is one atomic state transition. */
module RingBuffer {
  import opened Common

  /** The buffer's state. `dflt` is `default(E)`, the value `new E[n]` and `Clear` fill slots with. */
  datatype Ring<E> = Ring(slots: seq<E>, cursor: nat, dflt: E)

  function Capacity<E>(r: Ring<E>): nat {
    |r.slots|
  }

  /** The cursor invariant: it lies in [0, capacity]. */
  predicate Valid<E>(r: Ring<E>) {
    r.cursor <= |r.slots|
  }

  /** The slot the next `Push` writes: the cursor, or 0 when the cursor has reached the capacity
      (the wrap is lazy: it happens at the next `Push`, not at the one that fills the last slot). */
  function WritePosition<E>(r: Ring<E>): nat {
    if r.cursor == |r.slots| then 0 else r.cursor
  }

  /** The slot the next `Pop` reads: the one before the cursor, or slot 0 when the cursor is 0. */
  function ReadPosition<E>(r: Ring<E>): nat {
    if r.cursor == 0 then 0 else r.cursor - 1
  }

  /** The state after a mutating call, and whether that call threw. The state is there in both
      cases, because the object outlives an exception thrown by one of its methods. */
  datatype Step<E> = Step(ring: Ring<E>, outcome: Outcome)

  /** The state after `Pop`, and the value it returned or the exception it threw. */
  datatype Popped<E> = Popped(ring: Ring<E>, value: Result<E>)

  /** The constructor: `capacity` default slots and the cursor at 0. A negative capacity makes
      the array allocation throw. */
  function New<E>(capacity: int, dflt: E): (res: Result<Ring<E>>)
    ensures res.Err? <==> capacity < 0
    ensures res.Ok? ==> Valid(res.value) && res.value.cursor == 0 && res.value.dflt == dflt
    ensures res.Ok? ==> Capacity(res.value) == capacity
    ensures res.Ok? ==> forall i :: 0 <= i < capacity ==> res.value.slots[i] == dflt
  {
    if capacity < 0 then Err(NegativeSize) else Ok(Ring(seq(capacity, _ => dflt), 0, dflt))
  }

  /** `Push`: store `v` in the write position and leave the cursor just past it. The store is the
      only slot that changes. On a zero-capacity ring the store faults, but the cursor has already
      been incremented by `index++`, so it ends above the capacity. */
  function Push<E>(r: Ring<E>, v: E): (s: Step<E>)
    ensures Capacity(s.ring) == Capacity(r) && s.ring.dflt == r.dflt
    ensures s.ring.cursor == WritePosition(r) + 1
    ensures s.outcome.Pass? <==> WritePosition(r) < Capacity(r)
    ensures s.outcome.Pass? ==> s.ring.slots[WritePosition(r)] == v
    ensures forall j :: 0 <= j < Capacity(r) && j != WritePosition(r) ==> s.ring.slots[j] == r.slots[j]
    ensures Valid(r) ==> (s.outcome.Pass? <==> Capacity(r) >= 1)
    ensures Valid(r) && Capacity(r) >= 1 ==> Valid(s.ring)
  {
    var w := WritePosition(r);
    if w < |r.slots| then Step(Ring(r.slots[w := v], w + 1, r.dflt), Pass)
    else Step(r.(cursor := w + 1), Fail(IndexOutOfRange))
  }

  /** `Pop`: step the cursor back and return the slot it reaches. At cursor 0 it returns slot 0
      and sets the cursor to the capacity, so a backward walk returns slot 0 twice in a row.
      No slot is ever modified. */
  function Pop<E>(r: Ring<E>): (p: Popped<E>)
    ensures p.ring.slots == r.slots && p.ring.dflt == r.dflt
    ensures r.cursor == 0 ==> p.ring.cursor == Capacity(r)
    ensures r.cursor != 0 ==> p.ring.cursor == r.cursor - 1
    ensures p.value.Ok? <==> ReadPosition(r) < Capacity(r)
    ensures p.value.Ok? ==> p.value.value == r.slots[ReadPosition(r)]
    ensures Valid(r) ==> Valid(p.ring) && (p.value.Ok? <==> Capacity(r) >= 1)
  {
    if r.cursor == 0 then
      Popped(r.(cursor := |r.slots|), if 0 < |r.slots| then Ok(r.slots[0]) else Err(IndexOutOfRange))
    else
      var i := r.cursor - 1;
      Popped(r.(cursor := i), if i < |r.slots| then Ok(r.slots[i]) else Err(IndexOutOfRange))
  }

  /** A `Pop` straight after `Push(v)` returns `v` and leaves every slot as the push left it. */
  lemma PushThenPop<E>(r: Ring<E>, v: E)
    requires Valid(r) && Capacity(r) >= 1
    ensures Push(r, v).outcome == Pass
    ensures Pop(Push(r, v).ring).value == Ok(v)
    ensures Pop(Push(r, v).ring).ring.slots == Push(r, v).ring.slots
  {
  }

  /** On a zero-capacity ring `Push` throws, yet the cursor has already moved past the capacity,
      so the object is left outside the cursor invariant. */
  lemma ZeroCapacityPushOverruns<E>(d: E, v: E)
    ensures New(0, d).Ok?
    ensures Push(New(0, d).value, v).outcome == Fail(IndexOutOfRange)
    ensures Push(New(0, d).value, v).ring.cursor == 1 && !Valid(Push(New(0, d).value, v).ring)
  {
  }

  /** From cursor 1, two pops both return slot 0: the first moves the cursor to 0, the second
      wraps it to the capacity. */
  lemma BackwardWalkRepeatsSlotZero<E>(r: Ring<E>)
    requires Valid(r) && Capacity(r) >= 1 && r.cursor == 1
    ensures Pop(r).value == Ok(r.slots[0]) && Pop(r).ring.cursor == 0
    ensures Pop(Pop(r).ring).value == Ok(r.slots[0])
    ensures Pop(Pop(r).ring).ring.cursor == Capacity(r)
  {
  }

  /** The `foreach` of `PushAll`: push each value in order, stopping at the first exception.
      On a valid ring of capacity at least one no push throws, and the next `Pop` returns the
      last value pushed, however many values there were (more than the capacity included). */
  function PushEach<E>(r: Ring<E>, vs: seq<E>): (s: Step<E>)
    ensures Capacity(s.ring) == Capacity(r) && s.ring.dflt == r.dflt
    ensures vs == [] ==> s == Step(r, Pass)
    ensures Valid(r) && Capacity(r) >= 1 ==> s.outcome == Pass && Valid(s.ring)
    ensures Valid(r) && Capacity(r) >= 1 && vs != [] ==> Pop(s.ring).value == Ok(vs[|vs| - 1])
    decreases |vs|
  {
    if vs == [] then Step(r, Pass)
    else
      var first := Push(r, vs[0]);
      if first.outcome.Fail? then first else PushEach(first.ring, vs[1..])
  }

  /** Pushing one more value after a run of pushes is the same as one longer run. */
  lemma {:induction false} PushEachSnoc<E>(r: Ring<E>, vs: seq<E>, v: E)
    requires Valid(r) && Capacity(r) >= 1
    ensures PushEach(r, vs + [v]) == Push(PushEach(r, vs).ring, v)
    decreases |vs|
  {
    if vs == [] {
      assert [v][1..] == [];
    } else {
      var first := Push(r, vs[0]);
      assert (vs + [v])[0] == vs[0];
      assert (vs + [v])[1..] == vs[1..] + [v];
      PushEachSnoc(first.ring, vs[1..], v);
    }
  }

  /** `PushAll`: an input longer than the ring is rejected and nothing changes; otherwise it is
      `PushEach`, which on a valid ring never throws and leaves the last input value on top. */
  function PushAll<E>(r: Ring<E>, vs: seq<E>): (s: Step<E>)
    ensures |vs| > Capacity(r) ==> s == Step(r, Fail(SourceTooLarge))
    ensures |vs| <= Capacity(r) ==> s == PushEach(r, vs)
    ensures |vs| <= Capacity(r) && Valid(r) ==> s.outcome == Pass && Valid(s.ring)
    ensures |vs| <= Capacity(r) && Valid(r) && vs != [] ==> Pop(s.ring).value == Ok(vs[|vs| - 1])
  {
    if |vs| > |r.slots| then Step(r, Fail(SourceTooLarge)) else PushEach(r, vs)
  }

  /** The bounds guard of `Get`, `Set` and `Swap`: it rejects `index < 0 || index > capacity`,
      so it lets `index == capacity` through to the array access. */
  predicate GuardAdmits<E>(r: Ring<E>, index: int) {
    !(index < 0 || index > |r.slots|)
  }

  /** `Get`: the slot at `index`; any index outside [0, capacity) throws, either at the guard or
      (for `index == capacity`) at the array access. */
  function Get<E>(r: Ring<E>, index: int): (res: Result<E>)
    ensures res.Ok? <==> 0 <= index < Capacity(r)
    ensures res.Ok? ==> res.value == r.slots[index]
    ensures res.Err? ==> res.error == IndexOutOfRange
  {
    if !GuardAdmits(r, index) then Err(IndexOutOfRange)
    else if index == |r.slots| then Err(IndexOutOfRange)
    else Ok(r.slots[index])
  }

  /** The guard passes `index == capacity`, and the call still throws. */
  lemma GuardAdmitsCapacity<E>(r: Ring<E>)
    ensures GuardAdmits(r, Capacity(r))
    ensures Get(r, Capacity(r)) == Err(IndexOutOfRange)
    ensures Set(r, Capacity(r), r.dflt) == Step(r, Fail(IndexOutOfRange))
  {
  }

  /** `Set`: overwrite the slot at `index` and nothing else; the cursor never moves. */
  function Set<E>(r: Ring<E>, index: int, v: E): (s: Step<E>)
    ensures s.outcome.Pass? <==> 0 <= index < Capacity(r)
    ensures s.outcome.Fail? ==> s == Step(r, Fail(IndexOutOfRange))
    ensures s.ring.cursor == r.cursor && s.ring.dflt == r.dflt && Capacity(s.ring) == Capacity(r)
    ensures s.outcome.Pass? ==> s.ring.slots[index] == v
    ensures forall j :: 0 <= j < Capacity(r) && j != index ==> s.ring.slots[j] == r.slots[j]
  {
    if !GuardAdmits(r, index) || index == |r.slots| then Step(r, Fail(IndexOutOfRange))
    else Step(r.(slots := r.slots[index := v]), Pass)
  }

  /** What `Set` stores is what `Get` then reads, and no other index reads differently. */
  lemma SetThenGet<E>(r: Ring<E>, index: int, v: E, other: int)
    requires 0 <= index < Capacity(r) && other != index
    ensures Get(Set(r, index, v).ring, index) == Ok(v)
    ensures Get(Set(r, index, v).ring, other) == Get(r, other)
  {
  }

  /** `Swap`: exchange two distinct slots; equal indices throw first, then the bounds are
      checked, and both reads happen before either write, so a failed swap changes nothing. */
  function Swap<E>(r: Ring<E>, i: int, j: int): (s: Step<E>)
    ensures i == j ==> s == Step(r, Fail(SameIndex))
    ensures i != j && s.outcome.Fail? ==> s.outcome.error == IndexOutOfRange
    ensures s.outcome.Pass? <==> i != j && 0 <= i < Capacity(r) && 0 <= j < Capacity(r)
    ensures s.outcome.Fail? ==> s.ring == r
    ensures s.ring.cursor == r.cursor && s.ring.dflt == r.dflt && Capacity(s.ring) == Capacity(r)
    ensures s.outcome.Pass? ==> s.ring.slots[i] == r.slots[j] && s.ring.slots[j] == r.slots[i]
    ensures forall k :: 0 <= k < Capacity(r) && k != i && k != j ==> s.ring.slots[k] == r.slots[k]
  {
    if i == j then Step(r, Fail(SameIndex))
    else if !GuardAdmits(r, i) || !GuardAdmits(r, j) then Step(r, Fail(IndexOutOfRange))
    else if i == |r.slots| || j == |r.slots| then Step(r, Fail(IndexOutOfRange))
    else Step(r.(slots := r.slots[i := r.slots[j]][j := r.slots[i]]), Pass)
  }

  /** Swapping the same two indices twice gives back the buffer, for every pair of indices. */
  lemma SwapTwice<E>(r: Ring<E>, i: int, j: int)
    ensures Swap(Swap(r, i, j).ring, i, j).ring == r
  {
    var once := Swap(r, i, j);
    var twice := Swap(once.ring, i, j);
    if once.outcome.Pass? {
      assert twice.ring.slots == r.slots;
    }
  }

  /** `Reset`: the cursor goes back to 0 and the slots are kept. */
  function Reset<E>(r: Ring<E>): (r': Ring<E>)
    ensures Valid(r') && r'.cursor == 0
    ensures r'.slots == r.slots && r'.dflt == r.dflt
  {
    r.(cursor := 0)
  }

  /** `Clear`: every slot back to the default value and the cursor to 0. */
  function Clear<E>(r: Ring<E>): (r': Ring<E>)
    ensures Valid(r') && r'.cursor == 0 && Capacity(r') == Capacity(r) && r'.dflt == r.dflt
    ensures forall i :: 0 <= i < Capacity(r') ==> r'.slots[i] == r.dflt
  {
    Ring(seq(|r.slots|, _ => r.dflt), 0, r.dflt)
  }

  /** After `Reset` or `Clear` the next push writes slot 0; after `Clear` a pop reads the default. */
  lemma ResetAndClearRestart<E>(r: Ring<E>, v: E)
    requires Capacity(r) >= 1
    ensures Push(Reset(r), v).ring.slots[0] == v && Push(Reset(r), v).ring.cursor == 1
    ensures Push(Clear(r), v).ring.slots[0] == v && Push(Clear(r), v).ring.cursor == 1
    ensures Pop(Clear(r)).value == Ok(r.dflt)
  {
  }

  /** The values of `s` that the enumerator yields: all of them, or, for a reference element type
      (`nullable`), those that are not null, null being the element type's default. */
  function Present<E(==)>(s: seq<E>, nullable: bool, dflt: E): (t: seq<E>)
    ensures |t| <= |s|
    ensures !nullable ==> t == s
    ensures forall x :: x in t ==> x in s && (nullable ==> x != dflt)
    decreases |s|
  {
    if s == [] then []
    else
      assert s == [s[0]] + s[1..];
      (if nullable && s[0] == dflt then [] else [s[0]]) + Present(s[1..], nullable, dflt)
  }

  /** For a reference element type the filter keeps every non-null value, as often as it occurs,
      and drops every null. */
  lemma {:induction false} PresentCounts<E>(s: seq<E>, dflt: E)
    ensures multiset(Present(s, true, dflt)) == multiset(s)[dflt := 0]
    decreases |s|
  {
    if s != [] {
      assert s == [s[0]] + s[1..];
      PresentCounts(s[1..], dflt);
    }
  }

  /** The null filter works slot by slot: filtering a concatenation is concatenating the filtered
      parts, so the values kept stay in their original order. */
  lemma {:induction false} PresentAppend<E>(a: seq<E>, b: seq<E>, nullable: bool, dflt: E)
    ensures Present(a + b, nullable, dflt) == Present(a, nullable, dflt) + Present(b, nullable, dflt)
    decreases |a|
  {
    if a == [] {
      assert a + b == b;
    } else {
      var head := if nullable && a[0] == dflt then [] else [a[0]];
      var ab := a + b;
      assert ab[0] == a[0] && ab[1..] == a[1..] + b;
      assert Present(ab, nullable, dflt) == head + Present(a[1..] + b, nullable, dflt);
      PresentAppend(a[1..], b, nullable, dflt);
      assert Present(a, nullable, dflt) == head + Present(a[1..], nullable, dflt);
    }
  }

  /** A non-null value passes the filter, and a null one does not. */
  lemma PresentSingle<E>(x: E, dflt: E)
    ensures Present([x], true, dflt) == (if x == dflt then [] else [x])
  {
    assert [x][1..] == [];
  }

  /** The enumerator: slots from the cursor to the end, then the present slots before the cursor.
      On a valid ring of a value type this is a rotation of the slots: oldest write first. */
  function Enumerate<E(==)>(r: Ring<E>, nullable: bool): (es: seq<E>)
    ensures Valid(r) && !nullable ==> es == r.slots[r.cursor..] + r.slots[..r.cursor]
    ensures Valid(r) && !nullable ==> |es| == Capacity(r) && multiset(es) == multiset(r.slots)
    ensures forall x :: x in es ==> x in r.slots
    ensures Valid(r) ==> |es| >= Capacity(r) - r.cursor && es[..Capacity(r) - r.cursor] == r.slots[r.cursor..]
    ensures Valid(r) && nullable ==>
      multiset(es) == multiset(r.slots[r.cursor..]) + multiset(r.slots[..r.cursor])[r.dflt := 0]
    ensures Valid(r) ==> es[Capacity(r) - r.cursor..] == Present(r.slots[..r.cursor], nullable, r.dflt)
  {
    if r.cursor <= |r.slots| then
      RotationParts(r.slots, r.cursor, nullable, r.dflt);
      r.slots[r.cursor..] + Present(r.slots[..r.cursor], nullable, r.dflt)
    else
      assert r.slots[..|r.slots|] == r.slots;
      Present(r.slots, nullable, r.dflt)
  }

  /** The facts behind `Enumerate`'s contract, for the slots from `c` on followed by the filtered
      slots before `c`. */
  lemma RotationParts<E>(slots: seq<E>, c: nat, nullable: bool, dflt: E)
    requires c <= |slots|
    ensures var es := slots[c..] + Present(slots[..c], nullable, dflt);
            && (forall x :: x in es ==> x in slots)
            && |es| >= |slots| - c && es[..|slots| - c] == slots[c..]
            && es[|slots| - c..] == Present(slots[..c], nullable, dflt)
            && (!nullable ==> es == slots[c..] + slots[..c] && |es| == |slots| && multiset(es) == multiset(slots))
            && (nullable ==> multiset(es) == multiset(slots[c..]) + multiset(slots[..c])[dflt := 0])
  {
    var tail := slots[c..];
    var head := Present(slots[..c], nullable, dflt);
    assert slots == slots[..c] + tail;
    assert (tail + head)[..|tail|] == tail;
    if nullable {
      PresentCounts(slots[..c], dflt);
    }
  }

  /** For a reference element type the filter applies only before the cursor: with slots
      `[null, 5, null, 7]` and the cursor at 2 (null standing for the default, 0 here), the null
      in slot 2 is yielded and the null in slot 0 is not. */
  lemma EnumerateFiltersOnlyBeforeCursor(r: Ring<int>)
    requires r == Ring([0, 5, 0, 7], 2, 0)
    ensures Enumerate(r, true) == [0, 7, 5]
  {
    assert r.slots[2..] == [0, 7];
    assert r.slots[..2] == [0] + [5];
    PresentAppend([0], [5], true, 0);
    PresentSingle(0, 0);
    PresentSingle(5, 0);
  }

  /** The slots in enumeration order on a valid ring: from the cursor to the end, then the rest.
      On a valid ring this is `Enumerate(r, false)`; it is kept separate so that the window
      proofs below do not unfold the null filter. */
  function Rotation<E>(r: Ring<E>): seq<E>
    requires Valid(r)
  {
    r.slots[r.cursor..] + r.slots[..r.cursor]
  }

  /** A push slides the enumeration window by one: the oldest value leaves, the new one enters last. */
  lemma EnumeratePush<E>(r: Ring<E>, v: E)
    requires Valid(r) && Capacity(r) >= 1
    ensures Enumerate(Push(r, v).ring, false) == Enumerate(r, false)[1..] + [v]
  {
    RotationPush(r, v);
  }

  /** `EnumeratePush` on the rotation itself: whether or not the push wraps, the first value read
      from the cursor round leaves and the pushed value enters last. */
  lemma RotationPush<E>(r: Ring<E>, v: E)
    requires Valid(r) && Capacity(r) >= 1
    ensures Valid(Push(r, v).ring) && Rotation(Push(r, v).ring) == Rotation(r)[1..] + [v]
  {
  }

  /** After any run of pushes on a valid ring, the enumeration holds the last `capacity` values of
      the old enumeration followed by the pushed values, oldest first. */
  lemma EnumerateAfterPushes<E>(r: Ring<E>, vs: seq<E>)
    requires Valid(r) && Capacity(r) >= 1
    ensures Enumerate(PushEach(r, vs).ring, false) == (Enumerate(r, false) + vs)[|vs|..]
  {
    RotationAfterPushes(r, vs);
  }

  /** `EnumerateAfterPushes` on the rotation itself, by induction on the pushed values. */
  lemma {:induction false} RotationAfterPushes<E>(r: Ring<E>, vs: seq<E>)
    requires Valid(r) && Capacity(r) >= 1
    ensures Valid(PushEach(r, vs).ring)
    ensures Rotation(PushEach(r, vs).ring) == (Rotation(r) + vs)[|vs|..]
    decreases |vs|
  {
    var e := Rotation(r);
    if vs == [] {
      assert e + vs == e;
    } else {
      var first := Push(r, vs[0]).ring;
      assert PushEach(r, vs) == PushEach(first, vs[1..]);
      RotationPush(r, vs[0]);
      RotationAfterPushes(first, vs[1..]);
      SlideWindow(e, vs);
    }
  }

  /** Sequence arithmetic behind `RotationAfterPushes`: dropping the oldest value and appending
      the first pushed one, then dropping `|vs| - 1` more, is dropping `|vs|` from the whole history. */
  lemma SlideWindow<E>(e: seq<E>, vs: seq<E>)
    requires |e| >= 1 && vs != []
    ensures (e[1..] + [vs[0]] + vs[1..])[|vs| - 1..] == (e + vs)[|vs|..]
  {
    assert e[1..] + [vs[0]] + vs[1..] == (e + vs)[1..];
  }
}
