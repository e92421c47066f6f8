/** The queue of WLAN messages: a ring of pointers in one allocation. */
module WlanQueue {
  import opened Bytes
  import opened Bits

  const MAX_QUEUE_SIZE := 30000
  const HDF_SUCCESS := 0
  const HDF_FAILURE := -1

  /** The slot i places behind head, round the end of the array. */
  function Slot(head: nat, i: nat, n: nat): (r: nat)
    requires head < n && i <= n
    ensures r < n
  {
    if head + i >= n then head + i - n else head + i
  }

  /** That is the sum modulo the capacity. */
  lemma SlotIsModulo(head: nat, i: nat, n: nat)
    requires head < n && i <= n
    ensures Slot(head, i, n) == (head + i) % n
  {
    DivModUnique(head + i, n, if head + i >= n then 1 else 0, Slot(head, i, n));
  }

  // The ring on values: the array, its indices, and what PushQueue and PopQueue do to them.

  datatype Ring = Ring(elements: seq<int>, head: nat, tail: nat, count: nat)

  ghost predicate RingOk(r: Ring) {
    && r.count <= |r.elements|
    && (if r.elements == [] then r.head == r.tail == 0
        else r.head < |r.elements| && r.tail == Slot(r.head, r.count, |r.elements|))
  }

  /** The count elements from the head on, round the end of the array. */
  function Contents(r: Ring): (s: seq<int>)
    requires r.count <= |r.elements| && (r.head < |r.elements| || r.count == 0)
    ensures |s| == r.count
  {
    seq(r.count, i requires 0 <= i < r.count => r.elements[Slot(r.head, i, |r.elements|)])
  }

  function NextIndex(i: nat, n: nat): nat { if i + 1 >= n then 0 else i + 1 }

  function PushTo(r: Ring, x: int): Ring
    requires r.count < |r.elements| ==> r.tail < |r.elements|
  {
    if r.count >= |r.elements| then r
    else Ring(r.elements[r.tail := x], r.head, NextIndex(r.tail, |r.elements|), r.count + 1)
  }

  function PopFrom(r: Ring): (Ring, Option<int>)
    requires r.count > 0 ==> r.head < |r.elements|
  {
    if r.count == 0 then (r, None)
    else (r.(head := NextIndex(r.head, |r.elements|), count := r.count - 1), Some(r.elements[r.head]))
  }

  /** A push behind the last element, or nothing when the ring is full. */
  lemma PushAdds(r: Ring, x: int)
    requires RingOk(r)
    ensures RingOk(PushTo(r, x)) && |PushTo(r, x).elements| == |r.elements|
    ensures Contents(PushTo(r, x)) == if r.count < |r.elements| then Contents(r) + [x] else Contents(r)
  {
  }

  /** A pop takes the oldest element. */
  lemma PopTakes(r: Ring)
    requires RingOk(r)
    ensures RingOk(PopFrom(r).0) && PopFrom(r).0.elements == r.elements
    ensures if r.count == 0 then PopFrom(r) == (r, None)
            else PopFrom(r).1 == Some(Contents(r)[0]) && Contents(PopFrom(r).0) == Contents(r)[1..]
  {
  }

  /** HdfWlanQueueImpl. */
  class Queue {
    const elements: array<int>
    var elementCount: nat
    var tailIndex: nat
    var headIndex: nat

    ghost function State(): Ring
      reads this, elements
    {
      Ring(elements[..], headIndex, tailIndex, elementCount)
    }

    ghost predicate Valid()
      reads this, elements
    {
      RingOk(State()) && elements.Length <= MAX_QUEUE_SIZE
    }

    /** CreateQueue past its checks. */
    constructor (maxQueueSize: nat)
      requires maxQueueSize <= MAX_QUEUE_SIZE
      ensures Valid() && State() == Empty(maxQueueSize) && fresh(elements)
    {
      elements := new int[maxQueueSize](i => 0);
      elementCount, tailIndex, headIndex := 0, 0, 0;
      new;
      assert elements[..] == seq(maxQueueSize, i => 0);
    }

    /**
     PushQueue; lockRet and unlockRet are what the mutex calls return. With the lock
     taken, the caller gets the unlock's result, also when the queue was full.
     */
    method Push(context: int, lockRet: int, unlockRet: int) returns (ret: int)
      requires Valid()
      modifies this`elementCount, this`tailIndex, elements
      ensures Valid()
      ensures State() == if lockRet == HDF_SUCCESS then PushTo(old(State()), context) else old(State())
      ensures ret == if lockRet == HDF_SUCCESS then unlockRet else HDF_FAILURE
    {
      PushAdds(State(), context);
      if lockRet != HDF_SUCCESS {
        return HDF_FAILURE;
      }
      if elementCount >= elements.Length {
        ret := HDF_FAILURE;
      } else {
        elements[tailIndex] := context;
        tailIndex := if tailIndex + 1 >= elements.Length then 0 else tailIndex + 1;
        elementCount := elementCount + 1;
      }
      ret := unlockRet;
    }

    /** PopQueue; an empty queue, or a lock that is not taken, gives NULL. */
    method Pop(lockRet: int) returns (result: Option<int>)
      requires Valid()
      modifies this`elementCount, this`headIndex
      ensures Valid()
      ensures (State(), result) ==
              if lockRet == HDF_SUCCESS then PopFrom(old(State())) else (old(State()), None)
    {
      PopTakes(State());
      result := None;
      if lockRet == HDF_SUCCESS && elementCount > 0 {
        result := Some(elements[headIndex]);
        headIndex := if headIndex + 1 >= elements.Length then 0 else headIndex + 1;
        elementCount := elementCount - 1;
      }
    }
  }

  /** CreateQueue; memory says whether the block can be had, mutexRet is what OsalMutexInit returns. */
  method Create(maxQueueSize: nat, memory: bool, mutexRet: int) returns (q: Queue?)
    ensures q != null <==> maxQueueSize <= 30000 && memory && mutexRet == HDF_SUCCESS
    ensures q != null ==> fresh(q) && q.Valid() && q.State() == Empty(maxQueueSize)
  {
    if maxQueueSize > MAX_QUEUE_SIZE || !memory || mutexRet != HDF_SUCCESS {
      return null;
    }
    q := new Queue(maxQueueSize);
  }

  function Empty(capacity: nat): Ring { Ring(seq(capacity, i => 0), 0, 0, 0) }

  // What the ring does over any run; a call that does not get the lock does nothing.

  datatype Op = PushOp(context: int, locked: bool) | PopOp(locked: bool)

  /** The ring, the elements it has accepted, and those it has given back, each in order. */
  datatype Trace = Trace(ring: Ring, accepted: seq<int>, popped: seq<int>)

  ghost function Run(capacity: nat, ops: seq<Op>): (t: Trace)
    ensures RingOk(t.ring) && |t.ring.elements| == capacity
  {
    if ops == [] then Trace(Empty(capacity), [], [])
    else
      var t := Run(capacity, ops[..|ops| - 1]);
      var op := ops[|ops| - 1];
      if !op.locked then t
      else
        match op
        case PushOp(x, _) =>
          PushAdds(t.ring, x);
          Trace(PushTo(t.ring, x), if t.ring.count < capacity then t.accepted + [x] else t.accepted, t.popped)
        case PopOp(_) =>
          PopTakes(t.ring);
          var (r, x) := PopFrom(t.ring);
          Trace(r, t.accepted, if x.Some? then t.popped + [x.value] else t.popped)
  }

  /**
   Over any run the ring's tail stays count places behind its head, elements come out in
   the order they were accepted, none is lost, and never more than the capacity wait.
   */
  lemma {:induction false} FirstInFirstOut(capacity: nat, ops: seq<Op>)
    ensures var t := Run(capacity, ops);
      && t.accepted == t.popped + Contents(t.ring)
      && t.ring.count <= capacity
      && (capacity > 0 ==> t.ring.tail == (t.ring.head + t.ring.count) % capacity)
  {
    hide Contents, PushTo, PopFrom, Slot;
    var t' := Run(capacity, ops);
    if capacity > 0 {
      SlotIsModulo(t'.ring.head, t'.ring.count, capacity);
    }
    if ops != [] {
      var t, op := Run(capacity, ops[..|ops| - 1]), ops[|ops| - 1];
      FirstInFirstOut(capacity, ops[..|ops| - 1]);
      if op.PushOp? {
        PushAdds(t.ring, op.context);
      } else {
        PopTakes(t.ring);
      }
    }
  }
}
