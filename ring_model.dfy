/** Value-level model of the index state of `RingBuffer<T, L>`: the slots, the
    committed head, the reservation ("virtual") head, the tail and the full flag.
    Each operation of the buffer is a function from the old state to the new one;
    the class in module RingBuffers is proved to follow these functions. */
module RingModel {
  import opened Basics

  datatype RingState<T> = RingState(slots: seq<T>, head: nat, virtualHead: nat, tail: nat, full: bool)

  /** The capacity L is a `uint8_t` template argument; `% L` needs it non-zero.
      The full flag is only ever raised when the virtual head meets the tail, and
      both of those only move in ways that clear the flag, so the last conjunct
      holds in every reachable state. */
  predicate Valid<T>(r: RingState<T>)
  {
    && 0 < |r.slots| <= 255
    && r.head < |r.slots| && r.virtualHead < |r.slots| && r.tail < |r.slots|
    && (r.full ==> r.virtualHead == r.tail)
  }

  /** No reservation is outstanding: every slot handed out has been committed. */
  predicate Synced<T>(r: RingState<T>)
  {
    r.virtualHead == r.head
  }

  /** `(i + 1) % L`, the index step of every operation. */
  function Advance(i: nat, capacity: nat): (j: nat)
    requires i < capacity
    ensures j < capacity
    ensures j == if i + 1 == capacity then 0 else i + 1
  {
    ModStep(i, capacity);
    (i + 1) % capacity
  }

  /** The successor of an index below L, reduced modulo L. */
  lemma ModStep(i: nat, capacity: nat)
    requires i < capacity
    ensures (i + 1) % capacity == if i + 1 == capacity then 0 else i + 1
  {
    if i + 1 == capacity {
      assert (i + 1) % capacity == 0;
    } else {
      assert (i + 1) % capacity == i + 1;
    }
  }

  /** Reduction of an index below 2L into [0, L). */
  function Wrap(i: nat, capacity: nat): (j: nat)
    requires i < 2 * capacity
    ensures j < capacity
  {
    if i < capacity then i else i - capacity
  }

  predicate IsEmpty<T>(r: RingState<T>)
  {
    !r.full && r.head == r.tail
  }

  predicate IsFull<T>(r: RingState<T>)
  {
    r.full
  }

  /** `num_occupied`: L when the flag is up, else the distance from tail to head. */
  function NumOccupied<T>(r: RingState<T>): (n: nat)
    requires Valid(r)
    ensures n <= |r.slots|
    ensures n == 0 <==> IsEmpty(r)
    ensures n == |r.slots| <==> IsFull(r)
    ensures !r.full ==> Wrap(r.tail + n, |r.slots|) == r.head
  {
    if r.full then |r.slots|
    else if r.head >= r.tail then r.head - r.tail
    else |r.slots| + r.head - r.tail
  }

  /** Index of the k-th occupied slot counted from the tail. */
  function SlotOf<T>(r: RingState<T>, k: nat): (i: nat)
    requires Valid(r) && k < |r.slots|
    ensures i < |r.slots|
  {
    Wrap(r.tail + k, |r.slots|)
  }

  /** What a consumer sees: the occupied slots in order from the tail. */
  function Contents<T>(r: RingState<T>): (s: seq<T>)
    requires Valid(r)
    ensures |s| == NumOccupied(r)
  {
    seq(NumOccupied(r), k requires 0 <= k < NumOccupied(r) => r.slots[SlotOf(r, k)])
  }

  /** `reset`: the head is moved back to the tail and the flag cleared; the
      virtual head is left where it was. */
  function Reset<T>(r: RingState<T>): (r': RingState<T>)
    requires Valid(r)
    ensures Valid(r') && IsEmpty(r') && Contents(r') == []
    ensures r'.slots == r.slots && r'.tail == r.tail && r'.virtualHead == r.virtualHead
  {
    r.(head := r.tail, full := false)
  }

  /** `push`: commits one slot by advancing the head; no full check. */
  function Push<T>(r: RingState<T>): (r': RingState<T>)
    requires Valid(r)
    ensures Valid(r')
  {
    r.(head := Advance(r.head, |r.slots|))
  }

  /** `pop`: drops the oldest slot unless the buffer is empty. */
  function Pop<T>(r: RingState<T>): (r': RingState<T>)
    requires Valid(r)
    ensures Valid(r')
    ensures IsEmpty(r) ==> r' == r
    ensures !IsEmpty(r) ==> !IsFull(r') && r'.head == r.head
    ensures !IsEmpty(r) ==> r'.tail == Advance(r.tail, |r.slots|)
    ensures !IsEmpty(r) ==> r'.virtualHead == r.virtualHead && r'.slots == r.slots
  {
    if IsEmpty(r) then r
    else r.(tail := Advance(r.tail, |r.slots|), full := false)
  }

  /** `get_next_free`: the new state and the index of the reserved slot
      (None stands for the null pointer). */
  function GetNextFree<T>(r: RingState<T>): (res: (RingState<T>, Option<nat>))
    requires Valid(r)
    ensures Valid(res.0)
    ensures IsFull(r) ==> res == (r, None)
    ensures !IsFull(r) ==> res.0.virtualHead == Advance(r.virtualHead, |r.slots|)
    ensures res.1.Some? <==> !IsFull(r)
    ensures res.1.Some? ==> res.1.value == r.virtualHead
    ensures res.1.Some? ==> (IsFull(res.0) <==> res.0.virtualHead == r.tail)
    ensures res.0.head == r.head && res.0.tail == r.tail && res.0.slots == r.slots
  {
    if r.full then (r, None)
    else
      var next := Advance(r.virtualHead, |r.slots|);
      (r.(virtualHead := next, full := next == r.tail), Some(r.virtualHead))
  }

  /** `get_next_occupied`: the index of the slot at the tail, None when empty. */
  function GetNextOccupied<T>(r: RingState<T>): (slot: Option<nat>)
    requires Valid(r)
    ensures slot.None? <==> IsEmpty(r)
    ensures slot.Some? ==> slot.value < |r.slots| && r.slots[slot.value] == Contents(r)[0]
  {
    if IsEmpty(r) then None else Some(r.tail)
  }

  /** The caller's store through the pointer `get_next_free` returned. */
  function Write<T>(r: RingState<T>, i: nat, v: T): (r': RingState<T>)
    requires Valid(r) && i < |r.slots|
    ensures Valid(r') && |r'.slots| == |r.slots| && r'.slots[i] == v
  {
    r.(slots := r.slots[i := v])
  }

  /** The producer's protocol: reserve a slot, store `v` into it, commit. */
  function Enqueue<T>(r: RingState<T>, v: T): (r': RingState<T>)
    requires Valid(r) && !IsFull(r)
    ensures |r'.slots| == |r.slots|
  {
    var (r1, slot) := GetNextFree(r);
    Push(Write(r1, slot.value, v))
  }

  /** Enqueue every element of `xs` in order. */
  function EnqueueAll<T>(r: RingState<T>, xs: seq<T>): (r': RingState<T>)
    requires Valid(r) && Synced(r) && NumOccupied(r) + |xs| <= |r.slots|
    ensures Valid(r') && Synced(r') && |r'.slots| == |r.slots|
    ensures Contents(r') == Contents(r) + xs
    decreases |xs|
  {
    if xs == [] then r
    else
      EnqueueCommits(r, xs[0]);
      EnqueueAll(Enqueue(r, xs[0]), xs[1..])
  }

  /** The consumer's protocol repeated n times: read the slot at the tail, pop. */
  function Drain<T>(r: RingState<T>, n: nat): (res: (RingState<T>, seq<T>))
    requires Valid(r) && Synced(r) && n <= NumOccupied(r)
    ensures Valid(res.0) && Synced(res.0) && |res.0.slots| == |r.slots|
    ensures res.1 == Contents(r)[..n]
    ensures Contents(res.0) == Contents(r)[n..]
    decreases n
  {
    if n == 0 then (r, [])
    else
      PopRemovesOldest(r);
      var c := Contents(r);
      var v := r.slots[GetNextOccupied(r).value];
      assert v == c[0];
      var (r', vs) := Drain(Pop(r), n - 1);
      assert vs == c[1..][..n - 1] && Contents(r') == c[1..][n - 1..];
      assert [v] + vs == c[..n] && c[1..][n - 1..] == c[n..];
      (r', [v] + vs)
  }

  /** With no reservation outstanding and room left, reserve-store-commit hands
      out the slot at the head and appends exactly `v` to the committed contents. */
  lemma EnqueueCommits<T>(r: RingState<T>, v: T)
    requires Valid(r) && Synced(r) && !IsFull(r)
    ensures GetNextFree(r).1 == Some(r.head)
    ensures Valid(Enqueue(r, v)) && Synced(Enqueue(r, v))
    ensures Contents(Enqueue(r, v)) == Contents(r) + [v]
  {
    var L := |r.slots|;
    var r' := Enqueue(r, v);
    var n := NumOccupied(r);
    assert n < L;
    var next := Advance(r.head, L);
    assert r'.head == next && r'.virtualHead == next && r'.tail == r.tail;
    assert r'.full <==> next == r.tail;
    assert NumOccupied(r') == n + 1 by {
      if r'.full {
        assert Wrap(r.tail + n, L) == r.head;
      }
    }
    forall k | 0 <= k < n + 1
      ensures Contents(r')[k] == (Contents(r) + [v])[k]
    {
      if k < n {
        assert SlotOf(r', k) == SlotOf(r, k);
        assert SlotOf(r, k) != r.head;
      } else {
        assert SlotOf(r', k) == r.head;
      }
    }
  }

  /** Reading the slot at the tail and popping removes exactly the oldest
      committed element. */
  lemma PopRemovesOldest<T>(r: RingState<T>)
    requires Valid(r) && Synced(r) && !IsEmpty(r)
    ensures GetNextOccupied(r) == Some(r.tail)
    ensures Valid(Pop(r)) && Synced(Pop(r))
    ensures Contents(Pop(r)) == Contents(r)[1..]
  {
    var L := |r.slots|;
    var r' := Pop(r);
    var n := NumOccupied(r);
    assert NumOccupied(r') == n - 1;
    forall k | 0 <= k < n - 1
      ensures Contents(r')[k] == Contents(r)[k + 1]
    {
      assert SlotOf(r', k) == SlotOf(r, k + 1);
    }
  }

  /** The scenario of the unit test: filling all L slots of an empty buffer makes
      it full, a further reservation is refused, and popping L times returns the
      stored values in the order they were stored and leaves the buffer empty. */
  lemma FillThenDrain<T>(r: RingState<T>, xs: seq<T>)
    requires Valid(r) && Synced(r) && IsEmpty(r) && |xs| == |r.slots|
    ensures IsFull(EnqueueAll(r, xs))
    ensures GetNextFree(EnqueueAll(r, xs)).1 == None
    ensures Drain(EnqueueAll(r, xs), |xs|).1 == xs
    ensures IsEmpty(Drain(EnqueueAll(r, xs), |xs|).0)
  {
    assert Contents(r) == [];
    var f := EnqueueAll(r, xs);
    assert Contents(f) == xs;
    assert NumOccupied(f) == |f.slots|;
    var d := Drain(f, |xs|);
    assert d.1 == xs[..|xs|] == xs;
    assert Contents(d.0) == xs[|xs|..] == [];
  }

  /** `reset` while elements are committed and no reservation is pending leaves
      the virtual head ahead of the head: the next reservation hands out a slot
      other than the one the following `push` commits. */
  lemma ResetLeavesReservationAhead<T>(r: RingState<T>)
    requires Valid(r) && Synced(r) && 0 < NumOccupied(r) < |r.slots|
    ensures !Synced(Reset(r))
    ensures GetNextFree(Reset(r)).1 == Some(r.head)
    ensures Reset(r).head == r.tail != r.head
  {
  }

  /** k calls of `get_next_free` in a row, with no `push` between them: the state
      reached and the slots handed out, in order. The reservations take the k
      slots after the committed ones; the flag goes up as soon as they reach
      the tail, before any of them is committed. */
  function ReserveAll<T>(r: RingState<T>, k: nat): (res: (RingState<T>, seq<nat>))
    requires Valid(r) && Synced(r) && NumOccupied(r) + k <= |r.slots|
    ensures Valid(res.0)
    ensures res.0 == r.(virtualHead := Wrap(r.head + k, |r.slots|), full := NumOccupied(r) + k == |r.slots|)
    ensures res.0.slots == r.slots
    ensures |res.1| == k
    ensures forall i :: 0 <= i < k ==> res.1[i] == Wrap(r.head + i, |r.slots|)
    decreases k
  {
    if k == 0 then (r, [])
    else
      var (r1, s1) := ReserveAll(r, k - 1);
      var L := |r.slots|;
      var n := NumOccupied(r);
      assert Wrap(r.tail + n, L) == r.head;
      assert Advance(r1.virtualHead, L) == Wrap(r.head + k, L);
      assert Wrap(r.head + k, L) == r.tail <==> n + k == L;
      var (r2, slot) := GetNextFree(r1);
      (r2, s1 + [slot.value])
  }

  /** The caller's stores through the reserved pointers: `xs[i]` into `slots[i]`. */
  function StoreAll<T>(r: RingState<T>, slots: seq<nat>, xs: seq<T>): (r': RingState<T>)
    requires Valid(r) && |slots| == |xs|
    requires forall i :: 0 <= i < |slots| ==> slots[i] < |r.slots|
    requires forall i, j :: 0 <= i < j < |slots| ==> slots[i] != slots[j]
    ensures Valid(r') && r' == r.(slots := r'.slots) && |r'.slots| == |r.slots|
    ensures forall i :: 0 <= i < |slots| ==> r'.slots[slots[i]] == xs[i]
    ensures forall j :: 0 <= j < |r.slots| && j !in slots ==> r'.slots[j] == r.slots[j]
    decreases |slots|
  {
    if slots == [] then r
    else
      var m := |slots| - 1;
      var prev := StoreAll(r, slots[..m], xs[..m]);
      assert forall i :: 0 <= i < m ==> slots[..m][i] == slots[i];
      Write(prev, slots[m], xs[m])
  }

  /** k calls of `push`. */
  function PushAll<T>(r: RingState<T>, k: nat): (r': RingState<T>)
    requires Valid(r) && k <= |r.slots|
    ensures Valid(r') && r' == r.(head := Wrap(r.head + k, |r.slots|))
    ensures r'.slots == r.slots
    decreases k
  {
    if k == 0 then r else Push(PushAll(r, k - 1))
  }

  /** Different positions from the tail are different slots. */
  lemma SlotOfInjective<T>(r: RingState<T>, a: nat, b: nat)
    requires Valid(r) && a < b < |r.slots|
    ensures SlotOf(r, a) != SlotOf(r, b)
  {
  }

  /** After the stores and the commits: the committed elements are the old ones
      followed by the stored values. */
  lemma CommittedAfterStores<T>(r: RingState<T>, xs: seq<T>, reserved: seq<nat>, r': RingState<T>)
    requires Valid(r) && Synced(r) && NumOccupied(r) + |xs| <= |r.slots|
    requires |reserved| == |xs|
    requires forall i :: 0 <= i < |xs| ==> reserved[i] == SlotOf(r, NumOccupied(r) + i) < |r.slots|
    requires Valid(r') && r'.tail == r.tail && |r'.slots| == |r.slots|
    requires r'.head == r'.virtualHead == Wrap(r.head + |xs|, |r.slots|)
    requires r'.full == (NumOccupied(r) + |xs| == |r.slots|)
    requires forall i :: 0 <= i < |xs| ==> r'.slots[reserved[i]] == xs[i]
    requires forall j :: 0 <= j < |r.slots| && j !in reserved ==> r'.slots[j] == r.slots[j]
    ensures Synced(r') && Contents(r') == Contents(r) + xs
  {
    var L := |r.slots|;
    var n := NumOccupied(r);
    var k := |xs|;
    CommittedCount(r, k, r');
    forall j | 0 <= j < n + k
      ensures Contents(r')[j] == (Contents(r) + xs)[j]
    {
      assert SlotOf(r', j) == SlotOf(r, j);
      if j < n {
        forall i | 0 <= i < k
          ensures reserved[i] != SlotOf(r, j)
        {
          SlotOfInjective(r, j, n + i);
        }
      }
    }
  }

  /** Moving the head of a buffer k slots on, with room for k and the tail
      kept, adds k to the number of queued elements. */
  lemma CommittedCount<T>(r: RingState<T>, k: nat, r': RingState<T>)
    requires Valid(r) && Synced(r) && NumOccupied(r) + k <= |r.slots|
    requires Valid(r') && r'.tail == r.tail && |r'.slots| == |r.slots|
    requires r'.head == Wrap(r.head + k, |r.slots|)
    requires r'.full == (NumOccupied(r) + k == |r.slots|)
    ensures NumOccupied(r') == NumOccupied(r) + k
  {
    var L := |r.slots|;
    var n := NumOccupied(r);
    assert Wrap(r.tail + n, L) == r.head;
    if !r'.full {
      assert Wrap(r.tail + NumOccupied(r'), L) == Wrap(r.tail + n + k, L);
    }
  }

  /** The k reservations made from a state with no reservation outstanding are
      the k slots after the committed elements, in order, all different. */
  lemma ReservedSlots<T>(r: RingState<T>, k: nat)
    requires Valid(r) && Synced(r) && NumOccupied(r) + k <= |r.slots|
    ensures forall i :: 0 <= i < k ==> ReserveAll(r, k).1[i] == SlotOf(r, NumOccupied(r) + i) < |r.slots|
    ensures forall i, j :: 0 <= i < j < k ==> ReserveAll(r, k).1[i] != ReserveAll(r, k).1[j]
  {
    var n := NumOccupied(r);
    var reserved := ReserveAll(r, k).1;
    assert Wrap(r.tail + n, |r.slots|) == r.head;
    forall i | 0 <= i < k
      ensures reserved[i] == SlotOf(r, n + i)
    {
      assert reserved[i] == Wrap(r.head + i, |r.slots|);
    }
    forall i, j | 0 <= i < j < k
      ensures reserved[i] != reserved[j]
    {
      SlotOfInjective(r, n + i, n + j);
    }
  }

  /** The producer's protocol with k reservations outstanding at once: k calls
      of `get_next_free`, a store into each slot handed out, then k calls of
      `push`. The tail stays; head and reservation pointer end k slots on; the
      buffer is full exactly when the k values filled it; the i-th value sits
      in the slot i places after the committed elements; no other slot is
      written. */
  function ReserveStoreCommit<T>(r: RingState<T>, xs: seq<T>): (r': RingState<T>)
    requires Valid(r) && Synced(r) && NumOccupied(r) + |xs| <= |r.slots|
    ensures Valid(r') && r'.tail == r.tail && |r'.slots| == |r.slots|
    ensures r'.head == r'.virtualHead == Wrap(r.head + |xs|, |r.slots|)
    ensures r'.full == (NumOccupied(r) + |xs| == |r.slots|)
    ensures forall i :: 0 <= i < |xs| ==> r'.slots[SlotOf(r, NumOccupied(r) + i)] == xs[i]
    ensures forall j :: 0 <= j < |r.slots| && j !in ReserveAll(r, |xs|).1 ==> r'.slots[j] == r.slots[j]
  {
    var res := ReserveAll(r, |xs|);
    ReservedSlots(r, |xs|);
    PushAll(StoreAll(res.0, res.1, xs), |xs|)
  }

  /** Several reservations outstanding at once: k calls of `get_next_free` hand
      out k different slots, the ones right after the committed elements; once
      values are stored into them and k calls of `push` commit them, the buffer
      holds its old contents followed by the values, in reservation order. */
  lemma ReservationsCommitInOrder<T>(r: RingState<T>, xs: seq<T>)
    requires Valid(r) && Synced(r) && NumOccupied(r) + |xs| <= |r.slots|
    ensures forall i :: 0 <= i < |xs| ==> ReserveAll(r, |xs|).1[i] == SlotOf(r, NumOccupied(r) + i)
    ensures forall i, j :: 0 <= i < j < |xs| ==> ReserveAll(r, |xs|).1[i] != ReserveAll(r, |xs|).1[j]
    ensures Valid(ReserveStoreCommit(r, xs)) && Synced(ReserveStoreCommit(r, xs))
    ensures Contents(ReserveStoreCommit(r, xs)) == Contents(r) + xs
  {
    ReservedSlots(r, |xs|);
    StoredReservationsAppend(r, xs);
  }

  /** Storing into the slots of k reservations and committing them appends the
      stored values in reservation order. */
  lemma StoredReservationsAppend<T>(r: RingState<T>, xs: seq<T>)
    requires Valid(r) && Synced(r) && NumOccupied(r) + |xs| <= |r.slots|
    ensures Synced(ReserveStoreCommit(r, xs))
    ensures Contents(ReserveStoreCommit(r, xs)) == Contents(r) + xs
  {
    var reserved := ReserveAll(r, |xs|).1;
    ReservedSlots(r, |xs|);
    CommittedAfterStores(r, xs, reserved, ReserveStoreCommit(r, xs));
  }
}
