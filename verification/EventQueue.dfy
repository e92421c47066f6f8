/**
 The queue of FunctionFS events waiting to be read from ep0: at most four slots,
 compacted in place whenever an event makes earlier ones obsolete.
 */
module EventQueue {
  import opened Bytes

  // enum usb_functionfs_event_type of the FunctionFS user interface.
  datatype Event = Bind | Unbind | Enable | Disable | Setup | Suspend | Resume

  datatype SetupState = NoSetup | Pending | Cancelled

  /** struct usb_ctrlrequest: the direction bit of bRequestType, wLength, and the other fields together. */
  datatype Packet = Packet(dirIn: bool, wLength: nat, rest: nat)

  /** struct usb_functionfs_event as user space reads it. */
  datatype Delivered = Delivered(event: Event, setup: Packet)

  const SLOTS := 4
  const NO_PACKET := Packet(false, 0, 0)

  predicate Lifecycle(e: Event) { e == Bind || e == Unbind || e == Enable || e == Disable }

  /** Does adding t make a queued e obsolete? */
  predicate Supersedes(t: Event, e: Event) {
    match t
    case Resume => e == Resume || e == Suspend
    case Suspend => e == Suspend
    case Setup => e == Setup
    case _ => e != Suspend && e != Resume
  }

  /** What is left of the queue when t is added. */
  function Survivors(q: seq<Event>, t: Event): (r: seq<Event>)
    ensures |r| <= |q|
  {
    if q == [] then []
    else
      var rest := Survivors(q[..|q| - 1], t);
      if Supersedes(t, q[|q| - 1]) then rest else rest + [q[|q| - 1]]
  }

  lemma {:induction false} SurvivorsAre(q: seq<Event>, t: Event, e: Event)
    ensures e in Survivors(q, t) <==> e in q && !Supersedes(t, e)
  {
    hide Supersedes;
    if q != [] {
      SurvivorsAre(q[..|q| - 1], t, e);
      assert q == q[..|q| - 1] + [q[|q| - 1]];
    }
  }

  lemma SurvivorsNext(q: seq<Event>, i: nat, t: Event)
    requires i < |q|
    ensures Survivors(q[..i + 1], t) ==
            if Supersedes(t, q[i]) then Survivors(q[..i], t) else Survivors(q[..i], t) + [q[i]]
  {
    hide Supersedes;
    assert q[..i + 1][..i] == q[..i];
  }

  /** The compaction has looked at the first i of q and keeps out of them in front; the others are in their place. */
  ghost predicate Squeezed(slots: seq<Event>, q: seq<Event>, i: nat, out: nat, t: Event) {
    && out <= i <= |q| <= |slots|
    && slots[..out] == Survivors(q[..i], t)
    && slots[i..|q|] == q[i..]
  }

  lemma SqueezeBegins(slots: seq<Event>, q: seq<Event>, t: Event)
    requires |q| <= |slots| && slots[..|q|] == q
    ensures Squeezed(slots, q, 0, 0, t)
  {
  }

  lemma SqueezeNext(slots: seq<Event>, q: seq<Event>, i: nat, out: nat, t: Event)
    requires Squeezed(slots, q, i, out, t) && i < |q|
    ensures out <= i < |slots| && slots[i] == q[i]
    ensures if Supersedes(t, q[i]) then Squeezed(slots, q, i + 1, out, t)
            else Squeezed(slots[out := q[i]], q, i + 1, out + 1, t)
  {
    SurvivorsNext(q, i, t);
    hide Survivors, Supersedes;
    assert slots[i..|q|][0] == q[i];
    assert slots[i + 1..|q|] == slots[i..|q|][1..] && q[i + 1..] == q[i..][1..];
    var kept := slots[out := q[i]];
    assert kept[..out + 1] == slots[..out] + [q[i]];
    assert kept[i + 1..|q|] == slots[i + 1..|q|];
  }

  lemma SqueezeEnds(slots: seq<Event>, q: seq<Event>, out: nat, t: Event)
    requires Squeezed(slots, q, |q|, out, t)
    ensures out <= |slots| && slots[..out] == Survivors(q, t)
  {
    assert q[..|q|] == q;
  }

  /** The queue after t has been added. */
  function Add(q: seq<Event>, t: Event): seq<Event> { Survivors(q, t) + [t] }

  /** No queued event has been made obsolete by a later one. */
  ghost predicate Shape(q: seq<Event>) {
    forall i, j :: 0 <= i < j < |q| ==> !Supersedes(q[j], q[i])
  }

  lemma {:induction false} SurvivorsShape(q: seq<Event>, t: Event)
    requires Shape(q)
    ensures Shape(Survivors(q, t))
  {
    if q != [] {
      SurvivorsShape(q[..|q| - 1], t);
      var rest, last := Survivors(q[..|q| - 1], t), q[|q| - 1];
      forall i | 0 <= i < |rest|
        ensures !Supersedes(last, rest[i])
      {
        SurvivorsAre(q[..|q| - 1], t, rest[i]);
      }
    }
  }

  lemma AddShape(q: seq<Event>, t: Event)
    requires Shape(q)
    ensures Shape(Add(q, t))
  {
    SurvivorsShape(q, t);
    forall i | 0 <= i < |Survivors(q, t)|
      ensures !Supersedes(t, Add(q, t)[i])
    {
      SurvivorsAre(q, t, Survivors(q, t)[i]);
    }
  }

  /** Which of the four slots an event competes for. */
  function Slot(e: Event): nat {
    if Lifecycle(e) then 0 else if e == Setup then 1 else if e == Suspend then 2 else 3
  }

  /** Shape, spelled out: one event a slot, a resume before a suspend, a lifecycle event before a setup. */
  lemma ShapeMeans(q: seq<Event>)
    ensures Shape(q) <==>
            && (forall i, j :: 0 <= i < j < |q| ==> Slot(q[i]) != Slot(q[j]))
            && (forall i, j :: 0 <= i < |q| && 0 <= j < |q| && q[i] == Resume && q[j] == Suspend ==> i < j)
            && (forall i, j :: 0 <= i < |q| && 0 <= j < |q| && Lifecycle(q[i]) && q[j] == Setup ==> i < j)
  {
  }

  /** So the queue never needs more than its four slots. */
  lemma ShapeFits(q: seq<Event>)
    requires Shape(q)
    ensures |q| <= 4
  {
    hide Slot, Shape;
    if |q| > 4 {
      TwoShare(q[0], q[1], q[2], q[3], q[4]);
      ShapeMeans(q);
    }
  }

  lemma TwoShare(a: Event, b: Event, c: Event, d: Event, e: Event)
    ensures || Slot(a) == Slot(b) || Slot(a) == Slot(c) || Slot(a) == Slot(d) || Slot(a) == Slot(e)
            || Slot(b) == Slot(c) || Slot(b) == Slot(d) || Slot(b) == Slot(e)
            || Slot(c) == Slot(d) || Slot(c) == Slot(e) || Slot(d) == Slot(e)
  {
  }

  function AddAll(ts: seq<Event>): seq<Event> {
    if ts == [] then [] else Add(AddAll(ts[..|ts| - 1]), ts[|ts| - 1])
  }

  /** Every history of adds leaves such a queue. */
  lemma {:induction false} AddAllShape(ts: seq<Event>)
    ensures Shape(AddAll(ts))
  {
    if ts != [] {
      AddAllShape(ts[..|ts| - 1]);
      AddShape(AddAll(ts[..|ts| - 1]), ts[|ts| - 1]);
    }
  }

  /** The queues some history of adds leaves are exactly those of that shape. */
  lemma ShapeReached(q: seq<Event>)
    ensures Shape(q) <==> exists ts :: AddAll(ts) == q
  {
    if Shape(q) {
      OwnHistory(q);
    }
    forall ts | AddAll(ts) == q
      ensures Shape(q)
    {
      AddAllShape(ts);
    }
  }

  /** Such a queue's own events, added in order, all stay. */
  lemma {:induction false} OwnHistory(q: seq<Event>)
    ensures Shape(q) <==> AddAll(q) == q
  {
    if q != [] {
      var rest, last := q[..|q| - 1], q[|q| - 1];
      OwnHistory(rest);
      if Shape(q) {
        NothingSuperseded(rest, last);
        assert q == rest + [last];
      } else {
        AddAllShape(q);
      }
    }
  }

  lemma {:induction false} NothingSuperseded(q: seq<Event>, t: Event)
    requires forall e :: e in q ==> !Supersedes(t, e)
    ensures Survivors(q, t) == q
  {
    if q != [] {
      NothingSuperseded(q[..|q| - 1], t);
    }
  }

  // Histories of adds and reads.

  datatype Op = AddOp(event: Event) | ReadOp(n: nat)

  /**
   What has happened: all events added, numbered by their position; the numbers still
   queued and those delivered; and how many had been delivered when each was added.
   */
  datatype History = History(adds: seq<Event>, queue: seq<nat>, delivered: seq<nat>, seen: seq<nat>)

  const START := History([], [], [], [])

  ghost predicate Bounded(numbers: seq<nat>, n: nat) { forall i :: 0 <= i < |numbers| ==> numbers[i] < n }

  /** The queued numbers left when t is added. */
  function Kept(adds: seq<Event>, queue: seq<nat>, t: Event): (r: seq<nat>)
    requires Bounded(queue, |adds|)
    ensures Bounded(r, |adds|)
  {
    if queue == [] then []
    else
      var rest, last := Kept(adds, queue[..|queue| - 1], t), queue[|queue| - 1];
      if Supersedes(t, adds[last]) then rest else rest + [last]
  }

  lemma {:induction false} KeptAre(adds: seq<Event>, queue: seq<nat>, t: Event, s: nat)
    requires Bounded(queue, |adds|) && s < |adds|
    ensures s in Kept(adds, queue, t) <==> s in queue && !Supersedes(t, adds[s])
  {
    hide Supersedes;
    if queue != [] {
      KeptAre(adds, queue[..|queue| - 1], t, s);
      assert queue == queue[..|queue| - 1] + [queue[|queue| - 1]];
    }
  }

  function Do(h: History, op: Op): History
    requires InOrder(h)
  {
    match op
    case AddOp(t) => History(h.adds + [t], Kept(h.adds, h.queue, t) + [|h.adds|], h.delivered, h.seen + [|h.delivered|])
    case ReadOp(n) =>
      var m := Least(n, |h.queue|);
      h.(queue := h.queue[m..], delivered := h.delivered + h.queue[..m])
  }

  ghost predicate Increasing(s: seq<nat>) { forall i, j :: 0 <= i < j < |s| ==> s[i] < s[j] }

  /** What was delivered and then what is queued is a subsequence of what was added. */
  ghost predicate InOrder(h: History) {
    && |h.seen| == |h.adds|
    && (forall u :: 0 <= u < |h.seen| ==> h.seen[u] <= |h.delivered|)
    && Bounded(h.queue, |h.adds|)
    && Bounded(h.delivered, |h.adds|)
    && Increasing(h.delivered + h.queue)
  }

  /** A later event that supersedes event s was added before s had been delivered. */
  ghost predicate Purged(h: History, s: nat)
    requires InOrder(h) && s < |h.adds|
  {
    exists u :: s < u < |h.adds| && Supersedes(h.adds[u], h.adds[s]) && s !in h.delivered[..h.seen[u]]
  }

  ghost predicate Traced(h: History, s: nat)
    requires InOrder(h) && s < |h.adds|
  {
    s in h.delivered || s in h.queue <==> !Purged(h, s)
  }

  ghost predicate Accounted(h: History) {
    && InOrder(h)
    && forall s :: 0 <= s < |h.adds| ==> Traced(h, s)
  }

  lemma {:induction false} KeptIncreasing(adds: seq<Event>, done: seq<nat>, queue: seq<nat>, t: Event)
    requires Bounded(queue, |adds|) && Increasing(done + queue)
    ensures Increasing(done + Kept(adds, queue, t))
  {
    hide Supersedes;
    if queue == [] {
      assert done + Kept(adds, queue, t) == done + queue;
    } else {
      var rest, last := queue[..|queue| - 1], queue[|queue| - 1];
      var whole := done + queue;
      assert done + rest == whole[..|whole| - 1] && whole[|whole| - 1] == last;
      KeptIncreasing(adds, done, rest, t);
      var kept := Kept(adds, rest, t);
      if Supersedes(t, adds[last]) {
      } else {
        forall i | 0 <= i < |kept|
          ensures kept[i] < last
        {
          KeptAre(adds, rest, t, kept[i]);
          var j :| 0 <= j < |rest| && rest[j] == kept[i];
          assert whole[|done| + j] == kept[i];
        }
        forall i | 0 <= i < |done|
          ensures done[i] < last
        {
          assert whole[i] == done[i];
        }
        IncreasingSnoc(done + kept, last);
        assert done + (kept + [last]) == done + kept + [last];
      }
    }
  }

  lemma IncreasingSnoc(s: seq<nat>, last: nat)
    requires Increasing(s) && forall i :: 0 <= i < |s| ==> s[i] < last
    ensures Increasing(s + [last])
  {
  }

  lemma AddInOrder(h: History, t: Event)
    requires InOrder(h)
    ensures InOrder(Do(h, AddOp(t)))
  {
    hide Kept, Supersedes;
    KeptIncreasing(h.adds, h.delivered, h.queue, t);
    var kept := Kept(h.adds, h.queue, t);
    IncreasingSnoc(h.delivered + kept, |h.adds|);
    assert h.delivered + (kept + [|h.adds|]) == h.delivered + kept + [|h.adds|];
  }

  lemma ReadInOrder(h: History, n: nat)
    requires InOrder(h)
    ensures InOrder(Do(h, ReadOp(n)))
  {
    var m := Least(n, |h.queue|);
    assert h.delivered + h.queue[..m] + h.queue[m..] == h.delivered + h.queue;
  }

  lemma AddAccounted(h: History, t: Event)
    requires Accounted(h)
    ensures Accounted(Do(h, AddOp(t)))
  {
    AddInOrder(h, t);
    var h' := Do(h, AddOp(t));
    var n := |h.adds|;
    forall s | 0 <= s < |h'.adds|
      ensures Traced(h', s)
    {
      if s < n {
        assert Traced(h, s);
        AddedPurges(h, t, s);
        assert h'.adds[s] == h.adds[s];
        KeptAre(h.adds, h.queue, t, s);
      } else {
        assert h'.queue[|h'.queue| - 1] == s;
      }
    }
  }

  lemma AddedPurges(h: History, t: Event, s: nat)
    requires InOrder(h) && InOrder(Do(h, AddOp(t))) && s < |h.adds|
    ensures Purged(Do(h, AddOp(t)), s) <==> Purged(h, s) || (Supersedes(t, h.adds[s]) && s !in h.delivered)
  {
    hide Supersedes, Kept;
    var h', n := Do(h, AddOp(t)), |h.adds|;
    assert h'.adds[n] == t && h'.delivered[..h'.seen[n]] == h.delivered && h'.adds[s] == h.adds[s];
    forall u | 0 <= u < n
      ensures h'.adds[u] == h.adds[u] && h'.delivered[..h'.seen[u]] == h.delivered[..h.seen[u]]
    {
    }
    if Supersedes(t, h.adds[s]) && s !in h.delivered {
      assert s < n < |h'.adds| && Supersedes(h'.adds[n], h'.adds[s]) && s !in h'.delivered[..h'.seen[n]];
    }
  }

  lemma ReadAccounted(h: History, n: nat)
    requires Accounted(h)
    ensures Accounted(Do(h, ReadOp(n)))
  {
    ReadInOrder(h, n);
    var h' := Do(h, ReadOp(n));
    assert h.queue == h.queue[..Least(n, |h.queue|)] + h'.queue;
    forall s | 0 <= s < |h'.adds|
      ensures Traced(h', s)
    {
      assert Traced(h, s);
      forall u | 0 <= u < |h.adds|
        ensures h'.delivered[..h'.seen[u]] == h.delivered[..h.seen[u]]
      {
      }
      assert Purged(h', s) == Purged(h, s);
    }
  }

  function Replay(ops: seq<Op>): (h: History)
    ensures InOrder(h)
  {
    if ops == [] then START
    else
      var h, op := Replay(ops[..|ops| - 1]), ops[|ops| - 1];
      match op
      case AddOp(t) => (AddInOrder(h, t); Do(h, op))
      case ReadOp(n) => (ReadInOrder(h, n); Do(h, op))
  }

  /**
   Over any interleaving of adds and reads: what was delivered and then what is queued
   is a subsequence of what was added, and an event is missing from both exactly when
   one that supersedes it was added before it had been delivered.
   */
  lemma {:induction false} NothingLostButSuperseded(ops: seq<Op>)
    ensures var h := Replay(ops);
      && Increasing(h.delivered + h.queue)
      && (forall s :: 0 <= s < |h.adds| ==> Traced(h, s))
  {
    hide Do, Increasing, Traced;
    if ops != [] {
      var before := ops[..|ops| - 1];
      NothingLostButSuperseded(before);
      match ops[|ops| - 1]
      case AddOp(t) => AddAccounted(Replay(before), t);
      case ReadOp(n) => ReadAccounted(Replay(before), n);
    }
  }

  function EventsOf(adds: seq<Event>, numbers: seq<nat>): (r: seq<Event>)
    requires Bounded(numbers, |adds|)
    ensures |r| == |numbers| && forall i :: 0 <= i < |r| ==> r[i] == adds[numbers[i]]
  {
    seq(|numbers|, i requires 0 <= i < |numbers| => assert numbers[i] < |adds|; adds[numbers[i]])
  }

  /** The queue alone, without the numbers. */
  function ReplayQueue(ops: seq<Op>): seq<Event> {
    if ops == [] then []
    else
      var q := ReplayQueue(ops[..|ops| - 1]);
      match ops[|ops| - 1]
      case AddOp(t) => Add(q, t)
      case ReadOp(n) => q[Least(n, |q|)..]
  }

  lemma {:induction false} KeptAreSurvivors(adds: seq<Event>, queue: seq<nat>, t: Event)
    requires Bounded(queue, |adds|)
    ensures EventsOf(adds, Kept(adds, queue, t)) == Survivors(EventsOf(adds, queue), t)
  {
    hide Supersedes;
    if queue != [] {
      var rest, last := queue[..|queue| - 1], queue[|queue| - 1];
      KeptAreSurvivors(adds, rest, t);
      var q := EventsOf(adds, queue);
      assert q[..|q| - 1] == EventsOf(adds, rest);
    }
  }

  /** The queue the code keeps holds exactly the events the history says are queued; it stays within four slots. */
  lemma {:induction false} QueueFollowsHistory(ops: seq<Op>)
    ensures ReplayQueue(ops) == EventsOf(Replay(ops).adds, Replay(ops).queue)
    ensures Shape(ReplayQueue(ops)) && |ReplayQueue(ops)| <= SLOTS
  {
    hide Shape, InOrder, Kept, Survivors;
    if ops == [] {
      AddAllShape([]);
    } else {
      var before := ops[..|ops| - 1];
      QueueFollowsHistory(before);
      match ops[|ops| - 1]
      case AddOp(t) =>
        AddShape(ReplayQueue(before), t);
        AddFollows(Replay(before), t);
      case ReadOp(n) =>
        TailShape(ReplayQueue(before), Least(n, |ReplayQueue(before)|));
        ReadFollows(Replay(before), n);
    }
    ShapeFits(ReplayQueue(ops));
  }

  lemma AddFollows(h: History, t: Event)
    requires InOrder(h)
    ensures InOrder(Do(h, AddOp(t)))
    ensures var h' := Do(h, AddOp(t)); EventsOf(h'.adds, h'.queue) == Add(EventsOf(h.adds, h.queue), t)
  {
    hide Kept, Survivors;
    AddInOrder(h, t);
    KeptAreSurvivors(h.adds, h.queue, t);
  }

  lemma TailShape(q: seq<Event>, n: nat)
    requires Shape(q) && n <= |q|
    ensures Shape(q[n..])
  {
  }

  lemma ReadFollows(h: History, n: nat)
    requires InOrder(h)
    ensures InOrder(Do(h, ReadOp(n)))
    ensures var h', q := Do(h, ReadOp(n)), EventsOf(h.adds, h.queue);
      EventsOf(h'.adds, h'.queue) == q[Least(n, |q|)..]
  {
    ReadInOrder(h, n);
  }

  // What user space is given, over a history of setups, other events and reads.

  datatype Happening = Arrives(p: Packet) | Adds(e: Event) | Reads(n: nat)

  /** ev.types, ev.setup, and everything delivered so far. */
  datatype Served = Served(queue: seq<Event>, setup: Packet, out: seq<Delivered>)

  function Serve(hs: seq<Happening>): Served {
    if hs == [] then Served([], NO_PACKET, [])
    else
      var s := Serve(hs[..|hs| - 1]);
      match hs[|hs| - 1]
      case Arrives(p) => Served(Add(s.queue, Setup), p, s.out)
      case Adds(e) => s.(queue := Add(s.queue, e))
      case Reads(n) =>
        var m := Least(n, |s.queue|);
        Served(s.queue[m..], s.setup, s.out + HandedOut(s.queue[..m], s.setup))
  }

  lemma ServeNext(hs: seq<Happening>, h: Happening)
    ensures var s, s' := Serve(hs), Serve(hs + [h]);
      match h
      case Arrives(p) => s' == Served(Add(s.queue, Setup), p, s.out)
      case Adds(e) => s' == Served(Add(s.queue, e), s.setup, s.out)
      case Reads(n) =>
        var m := Least(n, |s.queue|);
        s' == Served(s.queue[m..], s.setup, s.out + HandedOut(s.queue[..m], s.setup))
  {
    assert (hs + [h])[..|hs|] == hs;
  }

  /** The events as __ffs_ep0_read_events copies them out. */
  function HandedOut(events: seq<Event>, setup: Packet): seq<Delivered> {
    seq(|events|, i requires 0 <= i < |events| =>
      Delivered(events[i], if events[i] == Setup then setup else NO_PACKET))
  }

  /** The packet of the last setup that arrived. */
  ghost function LastArrived(hs: seq<Happening>): Option<Packet> {
    if hs == [] then None
    else if hs[|hs| - 1].Arrives? then Some(hs[|hs| - 1].p)
    else LastArrived(hs[..|hs| - 1])
  }

  lemma {:induction false} SetupIsLast(hs: seq<Happening>)
    requires Adds(Setup) !in hs
    ensures LastArrived(hs).Some? ==> Serve(hs).setup == LastArrived(hs).value
    ensures Setup in Serve(hs).queue ==> LastArrived(hs).Some?
  {
    hide Survivors;
    if hs != [] {
      SetupIsLast(hs[..|hs| - 1]);
      var s, h := Serve(hs[..|hs| - 1]), hs[|hs| - 1];
      assert h in hs;
      if h.Adds? && Setup in Add(s.queue, h.e) {
        SurvivorsAre(s.queue, h.e, Setup);
      }
    }
  }

  /**
   Whatever happened before a read: it hands out the first events of the queue, a setup
   among them with the packet that arrived last, every other event with none.
   */
  lemma SetupsCarryTheirPacket(before: seq<Happening>, n: nat)
    requires Adds(Setup) !in before
    ensures var s, s', m := Serve(before), Serve(before + [Reads(n)]), Least(n, |Serve(before).queue|);
      && |s'.out| == |s.out| + m
      && s'.out[..|s.out|] == s.out
      && s'.queue == s.queue[m..]
      && forall i :: 0 <= i < m ==>
           var d := s'.out[|s.out| + i];
           && d.event == s.queue[i]
           && (d.event == Setup ==> LastArrived(before) == Some(d.setup))
           && (d.event != Setup ==> d.setup == Packet(false, 0, 0))
  {
    ServeNext(before, Reads(n));
    SetupIsLast(before);
    var s := Serve(before);
    hide *;
    LeastBound(n, |s.queue|);
    ReadCarries(s.out, s.queue, Least(n, |s.queue|), s.setup, LastArrived(before));
  }

  lemma LeastBound(a: nat, b: nat)
    ensures Least(a, b) <= b
  {
  }

  lemma ReadCarries(out: seq<Delivered>, q: seq<Event>, m: nat, setup: Packet, last: Option<Packet>)
    requires m <= |q| && (Setup in q ==> last == Some(setup))
    ensures var out' := out + HandedOut(q[..m], setup);
      && |out'| == |out| + m
      && out'[..|out|] == out
      && forall i :: 0 <= i < m ==>
           var d := out'[|out| + i];
           && d.event == q[i]
           && (d.event == Setup ==> last == Some(d.setup))
           && (d.event != Setup ==> d.setup == Packet(false, 0, 0))
  {
    forall i | 0 <= i < m
      ensures q[..m][i] == q[i] && q[i] in q
    {
    }
  }

  /** ffs->ev and ffs->setup_state. */
  class Events {
    const types: array<Event>
    var count: nat
    var setup: Packet
    var setupState: SetupState

    ghost predicate Valid()
      reads this, types
    {
      types.Length == SLOTS && count <= SLOTS && Shape(types[..count])
    }

    ghost function Queue(): seq<Event>
      reads this, types
      requires Valid()
    {
      types[..count]
    }

    /** The queue and the packet are those of the history hs. */
    ghost predicate Follows(hs: seq<Happening>)
      reads this, types
      requires Valid()
    {
      Queue() == Serve(hs).queue && setup == Serve(hs).setup
    }

    constructor ()
      ensures Valid() && Queue() == [] && setupState == NoSetup && Follows([]) && fresh(types)
    {
      types := new Event[SLOTS](i => Bind);
      count, setup, setupState := 0, NO_PACKET, NoSetup;
    }

    /** __ffs_event_add: an unanswered setup is cancelled, obsolete events are squeezed out in place. */
    method EventAdd(t: Event)
      requires Valid()
      modifies this`count, this`setupState, types
      ensures Valid() && Queue() == Add(old(Queue()), t)
      ensures forall hs :: old(Follows(hs)) ==> Follows(hs + [Adds(t)])
      ensures setupState == if old(setupState) == Pending then Cancelled else old(setupState)
    {
      if setupState == Pending {
        setupState := Cancelled;
      }
      var rem1, rem2, neg := t, t, false;
      match t {
        case Resume => rem2 := Suspend;
        case Suspend =>
        case Setup =>
        case _ => rem1, rem2, neg := Suspend, Resume, true;
      }
      ghost var q := types[..count];
      assert forall e :: Supersedes(t, e) <==> ((e == rem1 || e == rem2) != neg);
      count := Compact(rem1, rem2, neg, t);
      AddShape(q, t);
      ShapeFits(Add(q, t));
      types[count] := t;
      count := count + 1;
      assert types[..count] == Add(q, t);
      forall hs | old(Follows(hs))
        ensures Follows(hs + [Adds(t)])
      {
        ServeNext(hs, Adds(t));
      }
    }

    /** The compaction loop: keeps the events that are, or are not, one of two kinds; returns how many are left. */
    method Compact(rem1: Event, rem2: Event, neg: bool, ghost t: Event) returns (out: nat)
      requires count <= types.Length && forall e :: Supersedes(t, e) <==> ((e == rem1 || e == rem2) != neg)
      modifies types
      ensures out <= count && types[..out] == Survivors(old(types[..count]), t)
    {
      ghost var q, n := types[..count], count;
      var i := 0;
      out := 0;
      SqueezeBegins(types[..], q, t);
      hide Supersedes, Squeezed;
      while i < count
        invariant i <= n && count == n && out <= i && Squeezed(types[..], q, i, out, t)
      {
        SqueezeNext(types[..], q, i, out, t);
        if (types[i] == rem1 || types[i] == rem2) == neg {
          types[out] := types[i];
          out := out + 1;
        }
        i := i + 1;
      }
      SqueezeEnds(types[..], q, out, t);
    }

    /** The queueing part of ffs_func_setup. */
    method SetupArrived(p: Packet)
      requires Valid()
      modifies this, types
      ensures Valid() && Queue() == Add(old(Queue()), Setup) && setup == p
      ensures forall hs :: old(Follows(hs)) ==> Follows(hs + [Arrives(p)])
      ensures setupState == if old(setupState) == Pending then Cancelled else old(setupState)
    {
      setup := p;
      EventAdd(Setup);
      forall hs | old(Follows(hs))
        ensures Follows(hs + [Arrives(p)])
      {
        ServeNext(hs, Arrives(p));
      }
    }

    /** __ffs_ep0_read_events: the first n events go to user space, a setup among them becomes pending. */
    method ReadEvents(n: nat) returns (events: seq<Delivered>)
      requires Valid() && 1 <= n <= count
      modifies this`count, this`setupState, types
      ensures Valid() && Queue() == old(Queue())[n..]
      ensures |events| == n
      ensures forall i :: 0 <= i < n ==> events[i].event == old(Queue())[i]
      ensures forall i :: 0 <= i < n ==>
                events[i].setup == if old(Queue())[i] == Setup then old(setup) else Packet(false, 0, 0)
      ensures setupState == if Setup in old(Queue())[..n] then Pending else old(setupState)
      ensures forall hs :: old(Follows(hs)) ==>
                Follows(hs + [Reads(n)]) && Serve(hs + [Reads(n)]).out == Serve(hs).out + events
    {
      ghost var q := types[..count];
      events := Gather(n);
      TailShape(q, n);
      hide Shape;
      count := count - n;
      forall k | 0 <= k < count {
        types[k] := types[k + n];
      }
      assert types[..count] == q[n..];
      forall hs | old(Follows(hs))
        ensures Follows(hs + [Reads(n)]) && Serve(hs + [Reads(n)]).out == Serve(hs).out + events
      {
        ServeNext(hs, Reads(n));
        assert HandedOut(q[..n], setup) == events;
      }
    }

    /** The loop over the events that are read: a setup among them becomes pending. */
    method Gather(n: nat) returns (events: seq<Delivered>)
      requires n <= count <= types.Length == SLOTS
      modifies this`setupState
      ensures |events| == n
      ensures forall i :: 0 <= i < n ==>
                events[i] == Delivered(types[i], if types[i] == Setup then setup else NO_PACKET)
      ensures setupState == if Setup in types[..n] then Pending else old(setupState)
    {
      var slots := new Delivered[SLOTS](i => Delivered(Bind, NO_PACKET));
      var i := 0;
      while i < n
        invariant i <= n
        invariant forall j :: i <= j < SLOTS ==> slots[j].setup == NO_PACKET
        invariant forall j :: 0 <= j < i ==>
                    slots[j] == Delivered(types[j], if types[j] == Setup then setup else NO_PACKET)
        invariant setupState == if Setup in types[..i] then Pending else old(setupState)
      {
        slots[i] := slots[i].(event := types[i]);
        if slots[i].event == Setup {
          slots[i] := slots[i].(setup := setup);
          setupState := Pending;
        }
        assert types[..i + 1] == types[..i] + [types[i]];
        i := i + 1;
      }
      events := slots[..n];
    }

    /** ffs_setup_state_clear_cancelled. */
    method ClearCancelled() returns (was: SetupState)
      modifies this`setupState
      ensures was == old(setupState)
      ensures setupState == if was == Cancelled then NoSetup else was
    {
      was := setupState;
      if setupState == Cancelled {
        setupState := NoSetup;
      }
    }
  }
}
