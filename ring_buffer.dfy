/** `RingBuffer<T, L>`: a fixed-capacity circular queue whose producers first
    reserve a slot (`GetNextFree`, moving the virtual head), store into it through
    the returned index, and then commit it (`Push`, moving the head). Every method
    is proved to follow the matching function of RingModel. */
module RingBuffers {
  import opened Basics
  import M = RingModel

  class RingBuffer<T(0)> {
    /** The slots (`std::array<T, L>`): allocated once, written in place by callers. */
    const buffer: array<T>
    var head: nat
    var virtualHead: nat
    var tail: nat
    var isFull: bool

    ghost function State(): M.RingState<T>
      reads this, buffer
    {
      M.RingState(buffer[..], head, virtualHead, tail, isFull)
    }

    ghost predicate Valid()
      reads this, buffer
    {
      M.Valid(State())
    }

    /** A buffer as declared: every index zero and the flag down. */
    constructor (capacity: nat)
      requires 0 < capacity <= 255
      ensures Valid() && fresh(buffer) && buffer.Length == capacity
      ensures head == 0 && virtualHead == 0 && tail == 0 && !isFull
    {
      buffer := new T[capacity];
      head, virtualHead, tail, isFull := 0, 0, 0, false;
    }

    method Reset()
      requires Valid()
      modifies this
      ensures Valid() && State() == M.Reset(old(State()))
    {
      head := tail;
      isFull := false;
    }

    method Push()
      requires Valid()
      modifies this
      ensures Valid() && State() == M.Push(old(State()))
    {
      head := (head + 1) % buffer.Length;
    }

    method Pop()
      requires Valid()
      modifies this
      ensures Valid() && State() == M.Pop(old(State()))
    {
      if IsEmpty() {
        return;
      }
      tail := (tail + 1) % buffer.Length;
      isFull := false;
    }

    /** Returns the index of the reserved slot, or None (the null pointer) when full. */
    method GetNextFree() returns (slot: Option<nat>)
      requires Valid()
      modifies this
      ensures Valid() && (State(), slot) == M.GetNextFree(old(State()))
    {
      if IsFull() {
        return None;
      }
      slot := Some(virtualHead);
      var next := (virtualHead + 1) % buffer.Length;
      if next == tail {
        isFull := true;
      }
      virtualHead := next;
    }

    method GetNextOccupied() returns (slot: Option<nat>)
      requires Valid()
      ensures slot == M.GetNextOccupied(State())
    {
      if IsEmpty() {
        return None;
      }
      return Some(tail);
    }

    function IsEmpty(): (b: bool)
      reads this, buffer
      ensures b <==> M.IsEmpty(State())
    {
      !isFull && head == tail
    }

    function IsFull(): (b: bool)
      reads this, buffer
      ensures b <==> M.IsFull(State())
    {
      isFull
    }

    function NumOccupied(): (n: nat)
      reads this, buffer
      requires Valid()
      ensures n == M.NumOccupied(State())
    {
      if IsFull() then buffer.Length
      else if head >= tail then head - tail
      else buffer.Length + head - tail
    }
  }

  /** The unit test of the buffer, as a client: one value stored and read back,
      then all slots filled, a refused reservation, and every slot drained in
      order. */
  method UnitTestScenario(capacity: nat, first: int, xs: seq<int>)
    returns (emptyAtStart: bool, occupiedAtStart: nat, emptyAfterPush: bool, fullAfterPush: bool,
             readBack: int, emptyAfterPop: bool, fullAfterFill: bool, refused: bool,
             drained: seq<int>, emptyAtEnd: bool)
    requires 2 <= capacity <= 255 && |xs| == capacity
    ensures emptyAtStart && occupiedAtStart == 0
    ensures !emptyAfterPush && !fullAfterPush && readBack == first && emptyAfterPop
    ensures fullAfterFill && refused
    ensures drained == xs && emptyAtEnd
  {
    var b := new RingBuffer<int>(capacity);
    b.Reset();
    emptyAtStart := b.IsEmpty();
    occupiedAtStart := b.NumOccupied();

    ghost var s0 := b.State();
    EnqueueStep(b, first);
    M.EnqueueCommits(s0, first);
    emptyAfterPush := b.IsEmpty();
    fullAfterPush := b.IsFull();
    var slot := b.GetNextOccupied();
    readBack := b.buffer[slot.value];
    M.PopRemovesOldest(b.State());
    b.Pop();
    emptyAfterPop := b.IsEmpty();

    assert M.Contents(b.State()) == [];
    FillAll(b, xs);
    assert M.NumOccupied(b.State()) == capacity;
    fullAfterFill := b.IsFull();
    ghost var filled := b.State();
    assert fullAfterFill && M.IsFull(filled);
    slot := b.GetNextFree();
    assert slot == M.GetNextFree(filled).1 == None;
    refused := slot.None?;
    drained := DrainAll(b, |xs|);
    assert M.Contents(b.State()) == [];
    emptyAtEnd := b.IsEmpty();
  }

  /** The producer's protocol on the object: reserve, store through the returned
      index, commit. */
  method EnqueueStep(b: RingBuffer<int>, v: int)
    requires b.Valid() && !M.IsFull(b.State())
    modifies b, b.buffer
    ensures b.Valid() && b.State() == M.Enqueue(old(b.State()), v)
  {
    var slot := b.GetNextFree();
    b.buffer[slot.value] := v;
    b.Push();
  }

  /** The fill loop of the test: enqueue every element of `xs`. */
  method FillAll(b: RingBuffer<int>, xs: seq<int>)
    requires b.Valid() && M.Synced(b.State()) && M.NumOccupied(b.State()) + |xs| <= b.buffer.Length
    modifies b, b.buffer
    ensures b.Valid() && M.Synced(b.State())
    ensures M.Contents(b.State()) == old(M.Contents(b.State())) + xs
  {
    ghost var start := M.Contents(b.State());
    var i := 0;
    while i < |xs|
      invariant 0 <= i <= |xs|
      invariant b.Valid() && M.Synced(b.State())
      invariant M.Contents(b.State()) == start + xs[..i]
    {
      M.EnqueueCommits(b.State(), xs[i]);
      EnqueueStep(b, xs[i]);
      assert xs[..i + 1] == xs[..i] + [xs[i]];
      i := i + 1;
    }
    assert xs[..i] == xs;
  }

  /** The drain loop of the test: read the slot at the tail and pop, n times. */
  method DrainAll(b: RingBuffer<int>, n: nat) returns (drained: seq<int>)
    requires b.Valid() && M.Synced(b.State()) && n <= M.NumOccupied(b.State())
    modifies b
    ensures b.Valid() && M.Synced(b.State())
    ensures drained == old(M.Contents(b.State()))[..n]
    ensures M.Contents(b.State()) == old(M.Contents(b.State()))[n..]
  {
    ghost var start := M.Contents(b.State());
    drained := [];
    while |drained| < n
      invariant b.Valid() && M.Synced(b.State())
      invariant |drained| <= n && drained == start[..|drained|]
      invariant M.Contents(b.State()) == start[|drained|..]
      decreases n - |drained|
    {
      M.PopRemovesOldest(b.State());
      var slot := b.GetNextOccupied();
      drained := drained + [b.buffer[slot.value]];
      b.Pop();
    }
  }
}
