/**
 The setup handshake on ep0 as a step system: one user thread inside ffs_ep0_read or
 ffs_ep0_write, and the host, whose steps fall wherever ev.waitq.lock is free. A
 stretch of code that holds the lock is one step, a store made without it is its own.
 */
module Ep0Handshake {
  import opened Bytes
  import opened EventQueue

  const EVENT_SIZE := 12   // sizeof(struct usb_functionfs_event)

  datatype Op = Read(len: nat, nonblock: bool) | Write(len: nat, nonblock: bool)

  /** What a finished call returned. */
  datatype Result = EIDRM | ESRCH | EL2HLT | EINVAL | EAGAIN
                    | EINTR | NoMemory | QueueError | Replied | GotEvents(events: seq<Delivered>)

  /**
   Where the user thread is: outside; past the first unlocked check; asleep for n
   events; about to stall; between the two locked checks; past the second one, with
   the lock released; and waiting for the request, whose completion may have been signalled.
   */
  datatype Pc = Outside | Entered(op: Op) | Sleeping(n: nat) | Stalling
                | Copying(len: nat) | Committed | Waiting(signalled: bool)

  /**
   A reply let through by the second check: its length, ev.setup then, the setup last delivered, and
   whether no event came after it.
   */
  datatype Commit = Commit(len: nat, setup: Packet, delivered: Packet, quiet: bool)

  /**
   ffs->ev and ffs->setup_state, the thread, and the completion handlers whose store to
   setup_state has not landed. The rest is history: the setup last delivered to user
   space, whether an event has been added since, whether it is still unanswered, all the
   events user space was given, the replies let through, and the last result.
   */
  datatype Ep0 = Ep0(queue: seq<Event>, setup: Packet, state: SetupState, canStall: bool, pc: Pc, owed: nat,
                     delivered: Packet, quiet: bool, unanswered: bool, given: seq<Delivered>,
                     commits: seq<Commit>, result: Result)

  function Fresh(canStall: bool): Ep0 {
    Ep0([], NO_PACKET, NoSetup, canStall, Outside, 0, NO_PACKET, true, false, [], [], GotEvents([]))
  }

  datatype Action =
    | Call(op: Op)        // ffs_ep0_read or ffs_ep0_write up to the mutex
    | LockFails           // the mutex is taken by another, or the wait for it interrupted
    | Check               // the first locked region
    | Wake                // events arrived while asleep
    | Interrupt           // a signal, while asleep or waiting for the request
    | Stall               // __ffs_ep0_stall
    | NoBuffer            // the data buffer cannot be had or filled
    | Recheck             // the second locked region, up to the unlock in __ffs_ep0_queue_wait
    | Queue(accepted: bool)
    | Finish              // wait_for_completion returns
    | HostSetup(p: Packet)
    | HostEvent(e: Event)
    | Complete            // complete() in ffs_ep0_complete
    | StoreLands          // and its store to setup_state

  function Returns(s: Ep0, r: Result): Ep0 { s.(pc := Outside, result := r) }

  /** ffs_setup_state_clear_cancelled found the setup cancelled. */
  function Acknowledge(s: Ep0): Ep0 { Returns(s.(state := NoSetup, unanswered := false), EIDRM) }

  /** __ffs_event_add. */
  function WithEvent(s: Ep0, e: Event): Ep0 {
    s.(queue := Add(s.queue, e), state := if s.state == Pending then Cancelled else s.state, quiet := false)
  }

  /** __ffs_ep0_read_events. */
  function Deliver(s: Ep0, n: nat): Ep0 {
    var m := Least(n, |s.queue|);
    var events := s.queue[..m];
    var s1 := if Setup in events
              then s.(state := Pending, delivered := s.setup, quiet := true, unanswered := true) else s;
    var given := HandedOut(events, s.setup);
    Returns(s1.(queue := s.queue[m..], given := s.given + given), GotEvents(given))
  }

  /** The first locked region of either call. */
  function Checked(s: Ep0, op: Op): Ep0 {
    match s.state
    case Cancelled => Acknowledge(s)
    case Pending =>
      if op.Read? == s.setup.dirIn then s.(pc := Stalling) else s.(pc := Copying(Least(op.len, s.setup.wLength)))
    case NoSetup =>
      if op.Write? then Returns(s, ESRCH)
      else if op.len / EVENT_SIZE == 0 then Returns(s, Result.EINVAL)
      else if op.nonblock && s.queue == [] then Returns(s, EAGAIN)
      else if s.queue == [] then s.(pc := Sleeping(op.len / EVENT_SIZE))
      else Deliver(s, op.len / EVENT_SIZE)
  }

  predicate Enabled(prompt: bool, s: Ep0, a: Action) {
    match a
    case Call(_) => s.pc.Outside?
    case LockFails => s.pc.Entered?
    case Check => s.pc.Entered?
    case Wake => s.pc.Sleeping? && s.queue != []
    case Interrupt => s.pc.Sleeping? || s.pc == Waiting(false)
    case Stall => s.pc.Stalling?
    case NoBuffer => s.pc.Copying? && s.pc.len > 0
    case Recheck => s.pc.Copying?
    case Queue(_) => s.pc.Committed?
    case Finish => s.pc == Waiting(true) && (prompt ==> s.owed == 0)
    case HostSetup(_) => true
    case HostEvent(e) => e != Setup
    case Complete => s.pc == Waiting(false)
    case StoreLands => s.owed > 0
  }

  function Do(s: Ep0, a: Action): Ep0
    requires Enabled(true, s, a) || Enabled(false, s, a)
  {
    match a
    case Call(op) => if s.state == Cancelled then Acknowledge(s) else s.(pc := Entered(op))
    case LockFails => Returns(s, if s.pc.op.nonblock then EAGAIN else EINTR)
    case Check => Checked(s, s.pc.op)
    case Wake => Deliver(s, s.pc.n)
    case Interrupt =>
      // A waiting request is dequeued, which completes it first.
      if s.pc.Waiting? then Returns(s.(state := NoSetup, unanswered := false), EINTR) else Returns(s, EINTR)
    case Stall => if s.canStall then Returns(s.(state := NoSetup, unanswered := false), EL2HLT) else Returns(s, ESRCH)
    case NoBuffer => Returns(s, NoMemory)
    case Recheck =>
      if s.state == Cancelled then Acknowledge(s)
      else s.(pc := Committed, commits := s.commits + [Commit(s.pc.len, s.setup, s.delivered, s.quiet)])
    case Queue(accepted) => if accepted then s.(pc := Waiting(false)) else Returns(s, QueueError)
    case Finish => Returns(s.(state := NoSetup), Replied)
    case HostSetup(p) => WithEvent(s.(setup := p), Setup)
    case HostEvent(e) => WithEvent(s, e)
    case Complete => s.(pc := Waiting(true), owed := s.owed + 1, unanswered := false)
    case StoreLands => s.(state := NoSetup, owed := s.owed - 1)
  }

  /**
   The state after a run, or None when some step of it was not possible. When prompt,
   the store in ffs_ep0_complete lands before the thread it has signalled goes on.
   */
  function Run(prompt: bool, canStall: bool, actions: seq<Action>): Option<Ep0> {
    if actions == [] then Some(Fresh(canStall))
    else
      match Run(prompt, canStall, actions[..|actions| - 1])
      case None => None
      case Some(s) =>
        var a := actions[|actions| - 1];
        if Enabled(prompt, s, a) then Some(Do(s, a)) else None
  }

  /** What every run keeps, whenever the completion handler's store lands. */
  ghost predicate Always(s: Ep0) {
    && Shape(s.queue)
    && (s.pc.Sleeping? ==> s.state == NoSetup && s.pc.n > 0)
    && (s.state == Pending ==> s.delivered == s.setup && s.quiet && Setup !in s.queue)
  }

  /** The meaning of setup_state. */
  function Meaning(s: Ep0): SetupState {
    if !s.unanswered then NoSetup else if s.quiet then Pending else Cancelled
  }

  ghost predicate Good(c: Commit) { c.setup == c.delivered && c.quiet && c.len <= c.setup.wLength }

  /** What every run keeps when that store is prompt. */
  ghost predicate Prompt(s: Ep0) {
    && Always(s)
    && s.owed <= (if s.pc == Waiting(true) then 1 else 0)
    && (s.owed == 0 ==> s.state == Meaning(s))
    && (s.pc == Waiting(true) ==> !s.unanswered)
    && (s.pc.Copying? ==> s.state != NoSetup && (s.quiet ==> s.pc.len <= s.setup.wLength))
    && (s.pc.Stalling? || s.pc.Committed? ==> s.state != NoSetup)
    && forall c :: c in s.commits ==> Good(c)
  }

  lemma StepAlways(prompt: bool, s: Ep0, a: Action)
    requires Always(s) && Enabled(prompt, s, a)
    ensures Always(Do(s, a))
  {
    hide Shape, Add, Deliver;
    match a
    case HostSetup(p) => AddShape(s.queue, Setup);
    case HostEvent(e) => AddShape(s.queue, e);
    case Check => if s.state == NoSetup { DeliverKeeps(s, s.pc.op.len / EVENT_SIZE); }
    case Wake => DeliverKeeps(s, s.pc.n);
    case _ =>
  }

  lemma DeliverKeeps(s: Ep0, n: nat)
    requires Always(s) && s.state == NoSetup
    ensures Always(Deliver(s, n))
  {
    hide Shape;
    DeliverAlways(s, n);
  }

  lemma DeliverAlways(s: Ep0, n: nat)
    requires Shape(s.queue)
    ensures Shape(Deliver(s, n).queue)
    ensures Setup in s.queue[..Least(n, |s.queue|)] ==> Setup !in Deliver(s, n).queue
  {
    TailShape(s.queue, Least(n, |s.queue|));
  }

  lemma StepPrompt(s: Ep0, a: Action)
    requires Prompt(s) && Enabled(true, s, a)
    ensures Prompt(Do(s, a))
  {
    hide Shape, Supersedes, Add;
    StepAlways(true, s, a);
  }

  lemma {:induction false} RunAlways(prompt: bool, canStall: bool, actions: seq<Action>)
    ensures var r := Run(prompt, canStall, actions); r.Some? ==> Always(r.value)
  {
    hide Do, Enabled, Always;
    if actions == [] {
      FreshPrompt(canStall);
    } else {
      RunAlways(prompt, canStall, actions[..|actions| - 1]);
      var r, a := Run(prompt, canStall, actions[..|actions| - 1]), actions[|actions| - 1];
      if r.Some? && Enabled(prompt, r.value, a) {
        StepAlways(prompt, r.value, a);
      }
    }
  }

  lemma FreshPrompt(canStall: bool)
    ensures Always(Fresh(canStall)) && Prompt(Fresh(canStall))
  {
  }

  lemma {:induction false} RunPrompt(canStall: bool, actions: seq<Action>)
    ensures var r := Run(true, canStall, actions); r.Some? ==> Prompt(r.value)
  {
    hide Do, Enabled, Prompt;
    if actions == [] {
      FreshPrompt(canStall);
    } else {
      RunPrompt(canStall, actions[..|actions| - 1]);
      var r, a := Run(true, canStall, actions[..|actions| - 1]), actions[|actions| - 1];
      if r.Some? && Enabled(true, r.value, a) {
        StepPrompt(r.value, a);
      }
    }
  }

  /** setup_state becomes PENDING only from NO_SETUP, and CANCELLED only from PENDING, in every run. */
  lemma TransitionsLegal(prompt: bool, canStall: bool, actions: seq<Action>, a: Action)
    requires Run(prompt, canStall, actions).Some? && Enabled(prompt, Run(prompt, canStall, actions).value, a)
    ensures var s := Run(prompt, canStall, actions).value; var s' := Do(s, a);
      && (s'.state == Pending && s.state != Pending ==> s.state == NoSetup && Setup in s.queue && Setup !in s'.queue)
      && (s'.state == Cancelled && s.state != Cancelled ==> s.state == Pending && !s'.quiet)
  {
    hide Shape, Add, Run;
    RunAlways(prompt, canStall, actions);
    var s := Run(prompt, canStall, actions).value;
    match a
    case Check => DeliverAlways(s, s.pc.op.len / EVENT_SIZE);
    case Wake => DeliverAlways(s, s.pc.n);
    case _ =>
  }

  // A request for one byte from the device; rest tells requests apart.
  function Request(rest: nat): Packet { Packet(true, 1, rest) }

  const READ := Call(Read(EVENT_SIZE, false))
  const WRITE := Call(Write(1, false))

  lemma Start(prompt: bool, canStall: bool)
    ensures Run(prompt, canStall, []) == Some(Fresh(canStall))
  {
  }

  lemma OneMore(prompt: bool, canStall: bool, actions: seq<Action>, s: Ep0, a: Action)
    requires Run(prompt, canStall, actions) == Some(s) && Enabled(prompt, s, a)
    ensures Run(prompt, canStall, actions + [a]) == Some(Do(s, a))
  {
    assert (actions + [a])[..|actions|] == actions;
  }

  /** The host asks, user space reads the request; nothing was queued before. */
  lemma AskAndRead(prompt: bool, canStall: bool, actions: seq<Action>, s: Ep0, p: Packet) returns (more: seq<Action>)
    requires Run(prompt, canStall, actions) == Some(s) && s.queue == [] && s.state == NoSetup && s.pc.Outside?
    ensures more == actions + [HostSetup(p)] + [READ] + [Check]
    ensures Run(prompt, canStall, more) ==
            Some(s.(setup := p, state := Pending, delivered := p, quiet := true,
                    unanswered := true, given := s.given + [Delivered(Setup, p)],
                    result := GotEvents([Delivered(Setup, p)])))
  {
    hide Run;
    var s1 := s.(queue := [Setup], setup := p, quiet := false);
    var s2 := s1.(pc := Entered(READ.op));
    Asked(s, p);
    SetupRead(s2, p);
    hide Do;
    OneMore(prompt, canStall, actions, s, HostSetup(p));
    OneMore(prompt, canStall, actions + [HostSetup(p)], s1, READ);
    OneMore(prompt, canStall, actions + [HostSetup(p)] + [READ], s2, Check);
    more := actions + [HostSetup(p)] + [READ] + [Check];
  }

  lemma Asked(s: Ep0, p: Packet)
    requires s.queue == [] && s.state == NoSetup && s.pc.Outside?
    ensures var s1 := s.(queue := [Setup], setup := p, quiet := false);
      Do(s, HostSetup(p)) == s1 && Do(s1, READ) == s1.(pc := Entered(READ.op))
  {
  }

  lemma SetupRead(s: Ep0, p: Packet)
    requires s.queue == [Setup] && s.setup == p && s.state == NoSetup && s.pc == Entered(READ.op)
    ensures Do(s, Check) ==
            s.(queue := [], state := Pending, pc := Outside, delivered := p, quiet := true, unanswered := true,
               given := s.given + [Delivered(Setup, p)], result := GotEvents([Delivered(Setup, p)]))
  {
    assert s.queue[..1] == [Setup] && s.queue[1..] == [] && Setup in s.queue[..1];
    assert HandedOut(s.queue[..1], p) == [Delivered(Setup, p)];
    assert Do(s, Check) == Deliver(s, 1);
  }

  /** User space starts its reply and passes the first check. */
  lemma StartReply(prompt: bool, canStall: bool, actions: seq<Action>, s: Ep0) returns (more: seq<Action>)
    requires Run(prompt, canStall, actions) == Some(s) && s.state == Pending && s.pc.Outside?
    requires s.setup.dirIn && s.setup.wLength == 1
    ensures Run(prompt, canStall, more) == Some(s.(pc := Copying(1)))
  {
    hide Run;
    OneMore(prompt, canStall, actions, s, WRITE);
    OneMore(prompt, canStall, actions + [WRITE], s.(pc := Entered(WRITE.op)), Check);
    more := actions + [WRITE] + [Check];
  }

  /**
   A reply is let through and sent; its completion handler has signalled, its store has not landed,
   and the call returns.
   */
  lemma ReplyUnsettled(canStall: bool, actions: seq<Action>, s: Ep0) returns (more: seq<Action>)
    requires Run(false, canStall, actions) == Some(s) && s.state == Pending && s.pc.Copying?
    ensures Run(false, canStall, more) ==
            Some(s.(state := NoSetup, pc := Outside, owed := s.owed + 1, unanswered := false, result := Replied,
                    commits := s.commits + [Commit(s.pc.len, s.setup, s.delivered, s.quiet)]))
  {
    hide Run;
    OneMore(false, canStall, actions, s, Recheck);
    var s1 := Do(s, Recheck);
    OneMore(false, canStall, actions + [Recheck], s1, Queue(true));
    OneMore(false, canStall, actions + [Recheck] + [Queue(true)], s1.(pc := Waiting(false)), Complete);
    var s3 := s1.(pc := Waiting(true), owed := s.owed + 1, unanswered := false);
    more := actions + [Recheck] + [Queue(true)] + [Complete];
    OneMore(false, canStall, more, s3, Finish);
    more := more + [Finish];
  }

  /** When the store may come late, the next reply can go out for a request that user space has not seen. */
  lemma LateStore(canStall: bool) returns (actions: seq<Action>)
    ensures var r := Run(false, canStall, actions);
      r.Some? && Commit(1, Request(3), Request(2), false) in r.value.commits
  {
    hide Run;
    Start(false, canStall);
    actions := AskAndRead(false, canStall, [], Fresh(canStall), Request(1));
    var s := Run(false, canStall, actions).value;
    actions := StartReply(false, canStall, actions, s);
    actions := ReplyUnsettled(canStall, actions, s.(pc := Copying(1)));
    s := Run(false, canStall, actions).value;
    actions := AskAndRead(false, canStall, actions, s, Request(2));
    s := Run(false, canStall, actions).value;
    actions := StartReply(false, canStall, actions, s);
    s := s.(pc := Copying(1));
    OneMore(false, canStall, actions, s, HostSetup(Request(3)));
    actions := actions + [HostSetup(Request(3))];
    s := Do(s, HostSetup(Request(3)));
    OneMore(false, canStall, actions, s, StoreLands);
    actions := actions + [StoreLands];
    s := Do(s, StoreLands);
    OneMore(false, canStall, actions, s, Recheck);
    actions := actions + [Recheck];
    s := Do(s, Recheck);
    assert s.commits[|s.commits| - 1] == Commit(1, Request(3), Request(2), false);
  }

  ghost predicate AllGood(s: Ep0) { forall c :: c in s.commits ==> Good(c) }

  /**
   Over all runs: every reply the second locked check lets through answers the setup last
   delivered to user space, is no longer than it asks for, and no event has been added
   since the delivery - if and only if the completion handler's store to setup_state lands
   before the thread it has signalled goes on. This is about the check, not about the
   queueing of the reply, which happens after the lock is released.
   */
  lemma RechecksAreSound(prompt: bool, canStall: bool)
    ensures (forall actions {:trigger Run(prompt, canStall, actions)} ::
               Run(prompt, canStall, actions).Some? ==> AllGood(Run(prompt, canStall, actions).value)) <==> prompt
  {
    hide Run;
    if prompt {
      forall actions {:trigger Run(prompt, canStall, actions)} | Run(prompt, canStall, actions).Some?
        ensures AllGood(Run(prompt, canStall, actions).value)
      {
        RunPrompt(canStall, actions);
      }
    } else {
      var actions := LateStore(canStall);
      assert !Good(Commit(1, Request(3), Request(2), false));
      assert !AllGood(Run(prompt, canStall, actions).value);
    }
  }

  /**
   With a prompt store, a locked check lets a reply go on exactly when a delivered
   setup is unanswered and no event has been added since; otherwise the call returns
   -EIDRM for a setup that an event has cancelled, and -ESRCH when there is none.
   */
  lemma ChecksAreExact(canStall: bool, actions: seq<Action>, a: Action)
    requires Run(true, canStall, actions).Some? && Enabled(true, Run(true, canStall, actions).value, a)
    ensures var s := Run(true, canStall, actions).value; var s' := Do(s, a);
      && (a.Recheck? ==>
            && s.unanswered
            && (s'.pc.Committed? <==> s.quiet)
            && (!s.quiet ==> s' == s.(state := NoSetup, unanswered := false, pc := Outside, result := EIDRM)))
      && (a.Check? && s.pc.op.Write? ==>
            && (s.unanswered && s.quiet ==>
                  s' == s.(pc := if s.delivered.dirIn then Copying(Least(s.pc.op.len, s.delivered.wLength))
                              else Stalling))
            && (s.unanswered && !s.quiet ==>
                  s' == s.(state := NoSetup, unanswered := false, pc := Outside, result := EIDRM))
            && (!s.unanswered ==> s' == s.(pc := Outside, result := ESRCH)))
      && (a.Check? && s.pc.op.Read? && s.unanswered ==>
            s' == if !s.quiet then s.(state := NoSetup, unanswered := false, pc := Outside, result := EIDRM)
                  else s.(pc := if s.delivered.dirIn then Stalling
                                else Copying(Least(s.pc.op.len, s.delivered.wLength))))
  {
    hide Run, Shape;
    RunPrompt(canStall, actions);
  }

  /**
   What a read that finds events does: the first n of them, or as many as there are, go to
   user space in order, a setup with the packet that arrived last and the others with
   none; the rest stay in order. A setup among them is now the one delivered, and pending.
   */
  ghost predicate HandsOver(s: Ep0, s': Ep0, n: nat) {
    var m := Least(n, |s.queue|);
    && s'.pc.Outside?
    && s'.result.GotEvents?
    && |s'.result.events| == m
    && (forall i :: 0 <= i < m ==> s'.result.events[i].event == s.queue[i])
    && (forall i :: 0 <= i < m ==>
          s'.result.events[i].setup == if s.queue[i] == Setup then s.setup else Packet(false, 0, 0))
    && s'.given == s.given + s'.result.events
    && s'.queue == s.queue[m..]
    && (if Setup in s.queue[..m]
        then s'.state == Pending && s'.delivered == s.setup && s'.unanswered && s'.quiet
        else s'.state == s.state && s'.delivered == s.delivered && s'.unanswered == s.unanswered && s'.quiet == s.quiet)
    && s'.setup == s.setup && s'.canStall == s.canStall && s'.owed == s.owed && s'.commits == s.commits
  }

  /**
   In every run, a read whose locked check finds no setup to answer: it is refused exactly
   when not even one event fits its buffer; else, with no event queued, a nonblocking call
   returns -EAGAIN and a blocking one goes to sleep; and else it is given the events that fit.
   */
  lemma ReadsAreExact(prompt: bool, canStall: bool, actions: seq<Action>)
    requires Run(prompt, canStall, actions).Some? && Enabled(prompt, Run(prompt, canStall, actions).value, Check)
    requires var s := Run(prompt, canStall, actions).value;
      s.pc.op.Read? && if prompt then !s.unanswered else s.state == NoSetup
    ensures var s := Run(prompt, canStall, actions).value;
      var s', len, nonblock := Do(s, Check), s.pc.op.len, s.pc.op.nonblock;
      if len < 12 then s' == s.(pc := Outside, result := Result.EINVAL)
      else if s.queue != [] then HandsOver(s, s', len / 12)
      else if nonblock then s' == s.(pc := Outside, result := EAGAIN)
      else s' == s.(pc := Sleeping(len / 12))
  {
    hide Run, Shape;
    if prompt {
      RunPrompt(canStall, actions);
    }
  }

  /** In every run, a reader that wakes is given the events that fit the buffer it went to sleep with. */
  lemma WakesAreExact(prompt: bool, canStall: bool, actions: seq<Action>)
    requires Run(prompt, canStall, actions).Some? && Enabled(prompt, Run(prompt, canStall, actions).value, Wake)
    ensures var s := Run(prompt, canStall, actions).value;
      s.pc.n > 0 && s.queue != [] && HandsOver(s, Do(s, Wake), s.pc.n)
  {
    hide Run, Shape;
    RunAlways(prompt, canStall, actions);
  }

  /**
   What a call that has just returned says has happened, in every state: each result belongs
   to one way out of the call.
   */
  lemma ResultsMean(prompt: bool, s: Ep0, a: Action)
    requires Enabled(prompt, s, a) && !NotTheThreads(a) && Do(s, a).pc.Outside?
    ensures match Do(s, a).result
      case EIDRM => (a.Call? || a.Check? || a.Recheck?) && s.state == Cancelled
      case ESRCH => if a.Check? then s.pc.op.Write? && s.state == NoSetup else a.Stall? && !s.canStall
      case EL2HLT => a.Stall? && s.canStall
      case EINVAL => a.Check? && s.pc.op.Read? && s.pc.op.len < 12 && s.state == NoSetup
      case EAGAIN =>
        && s.pc.op.nonblock
        && (a.LockFails? || (a.Check? && s.pc.op.Read? && s.queue == [] && s.state == NoSetup))
      case EINTR => if a.LockFails? then !s.pc.op.nonblock else a.Interrupt?
      case NoMemory => a.NoBuffer?
      case QueueError => a == Queue(false)
      case Replied => a.Finish?
      case GotEvents(_) => (a.Wake? || (a.Check? && s.pc.op.Read?)) && s.queue != []
    ensures Do(s, a).state == Cancelled ==> s.state == Cancelled
  {
    hide Add, HandedOut, WithEvent;
    if a.Check? {
      CheckResults(s);
    }
  }

  lemma CheckResults(s: Ep0)
    requires s.pc.Entered? && Checked(s, s.pc.op).pc.Outside?
    ensures match Checked(s, s.pc.op).result
      case EIDRM => s.state == Cancelled
      case ESRCH => s.pc.op.Write? && s.state == NoSetup
      case EINVAL => s.pc.op.Read? && s.pc.op.len < 12 && s.state == NoSetup
      case EAGAIN => s.pc.op.nonblock && s.pc.op.Read? && s.queue == [] && s.state == NoSetup
      case GotEvents(_) => s.pc.op.Read? && s.queue != [] && s.state == NoSetup
      case _ => false
    ensures Checked(s, s.pc.op).state != Cancelled
  {
    hide HandedOut;
  }

  // The events given to user space, as a history of the queue.

  /** What a step means for the queue: a setup or another event arrives, or some are read. */
  function Brings(s: Ep0, a: Action): seq<Happening> {
    match a
    case HostSetup(p) => [Arrives(p)]
    case HostEvent(e) => [Adds(e)]
    case Wake => if s.pc.Sleeping? then [Reads(s.pc.n)] else []
    case Check =>
      if s.pc.Entered? && s.pc.op.Read? && s.pc.op.len >= 12 && s.state == NoSetup && s.queue != []
      then [Reads(s.pc.op.len / 12)] else []
    case _ => []
  }

  ghost function Happenings(prompt: bool, canStall: bool, actions: seq<Action>): seq<Happening> {
    if actions == [] then []
    else
      var before := actions[..|actions| - 1];
      match Run(prompt, canStall, before)
      case None => []
      case Some(s) => Happenings(prompt, canStall, before) + Brings(s, actions[|actions| - 1])
  }

  /** The setup in the last of these events that is one. */
  ghost function LastSetup(events: seq<Delivered>): Option<Packet> {
    if events == [] then None
    else if events[|events| - 1].event == Setup then Some(events[|events| - 1].setup)
    else LastSetup(events[..|events| - 1])
  }

  ghost predicate SameHistory(s: Ep0, hs: seq<Happening>) {
    && Adds(Setup) !in hs
    && Serve(hs) == Served(s.queue, s.setup, s.given)
    && (if LastSetup(s.given).Some? then s.delivered == LastSetup(s.given).value else s.delivered == NO_PACKET)
  }

  /**
   In every run the queue, the packet kept and all events user space was given are those of
   the history of setups, events and reads; and the setup called delivered is the one in
   the last setup event given.
   */
  lemma {:induction false} GivenFollowsHistory(prompt: bool, canStall: bool, actions: seq<Action>)
    ensures var r := Run(prompt, canStall, actions);
      r.Some? ==> SameHistory(r.value, Happenings(prompt, canStall, actions))
  {
    hide Do, Enabled, SameHistory, Serve;
    if actions == [] {
      StartHistory(canStall);
    } else {
      var before, a := actions[..|actions| - 1], actions[|actions| - 1];
      GivenFollowsHistory(prompt, canStall, before);
      var r := Run(prompt, canStall, before);
      if r.Some? && Enabled(prompt, r.value, a) {
        HistoryNext(prompt, r.value, a, Happenings(prompt, canStall, before));
      }
    }
  }

  lemma StartHistory(canStall: bool)
    ensures SameHistory(Fresh(canStall), [])
  {
  }

  lemma HistoryNext(prompt: bool, s: Ep0, a: Action, hs: seq<Happening>)
    requires SameHistory(s, hs) && Enabled(prompt, s, a)
    ensures SameHistory(Do(s, a), hs + Brings(s, a))
  {
    hide Serve, LastSetup, Add;
    match a
    case HostSetup(p) => ServeNext(hs, Arrives(p));
    case HostEvent(e) => ServeNext(hs, Adds(e));
    case Wake => DeliverNext(s, s.pc.n, hs);
    case Check =>
      if s.pc.op.Read? && s.pc.op.len >= 12 && s.state == NoSetup && s.queue != [] {
        DeliverNext(s, s.pc.op.len / 12, hs);
      } else {
        assert hs + [] == hs;
      }
    case _ => assert hs + [] == hs;
  }

  lemma DeliverNext(s: Ep0, n: nat, hs: seq<Happening>)
    requires SameHistory(s, hs)
    ensures SameHistory(Deliver(s, n), hs + [Reads(n)])
  {
    hide Serve, LastSetup;
    ServeNext(hs, Reads(n));
    LastSetupHanded(s.given, s.queue[..Least(n, |s.queue|)], s.setup);
  }

  lemma {:induction false} LastSetupHanded(given: seq<Delivered>, events: seq<Event>, setup: Packet)
    ensures LastSetup(given + HandedOut(events, setup)) == if Setup in events then Some(setup) else LastSetup(given)
  {
    if events == [] {
      assert given + HandedOut(events, setup) == given;
    } else {
      var rest, last := events[..|events| - 1], events[|events| - 1];
      LastSetupHanded(given, rest, setup);
      LastSetupSnoc(given + HandedOut(rest, setup), Delivered(last, if last == Setup then setup else NO_PACKET));
      hide LastSetup;
      assert given + HandedOut(events, setup) ==
             given + HandedOut(rest, setup) + [Delivered(last, if last == Setup then setup else NO_PACKET)];
      assert events == rest + [last];
    }
  }

  lemma LastSetupSnoc(given: seq<Delivered>, d: Delivered)
    ensures LastSetup(given + [d]) == if d.event == Setup then Some(d.setup) else LastSetup(given)
  {
    assert (given + [d])[..|given|] == given;
  }

  /** A stall made now hits the setup last delivered to user space, which is unanswered, with no event since. */
  ghost predicate HitsDelivered(s: Ep0) { s.unanswered && s.quiet && s.setup == s.delivered }

  /**
   With a prompt store, a stall, which is decided under the lock but made without it,
   hits the setup last delivered, with no event since, if and only if setup_state is
   still PENDING when it is made; otherwise it is CANCELLED.
   */
  lemma StallsAreExact(canStall: bool, actions: seq<Action>)
    requires Run(true, canStall, actions).Some? && Enabled(true, Run(true, canStall, actions).value, Stall)
    ensures var s := Run(true, canStall, actions).value;
      && (HitsDelivered(s) <==> s.state == Pending)
      && (s.state == Pending || (s.state == Cancelled && s.unanswered && !s.quiet))
  {
    hide Run, Shape;
    RunPrompt(canStall, actions);
  }

  /**
   The same of a reply, which is let through under the lock but queued without it: when it
   is queued, it answers the setup last delivered, with no event since, if and only if
   setup_state is still PENDING.
   */
  lemma QueuesAreExact(canStall: bool, actions: seq<Action>, accepted: bool)
    requires Run(true, canStall, actions).Some? && Enabled(true, Run(true, canStall, actions).value, Queue(accepted))
    ensures var s := Run(true, canStall, actions).value;
      && (HitsDelivered(s) <==> s.state == Pending)
      && (s.state == Pending || (s.state == Cancelled && s.unanswered && !s.quiet))
  {
    hide Run, Shape;
    RunPrompt(canStall, actions);
  }

  // What the steps of the others do to a thread that is between two of its own.

  predicate AddsEvent(a: Action) { a.HostSetup? || a.HostEvent? }

  predicate NotTheThreads(a: Action) { AddsEvent(a) || a.StoreLands? }

  ghost predicate AllOthers(since: seq<Action>) { forall a :: a in since ==> NotTheThreads(a) }

  ghost predicate SomeEvent(since: seq<Action>) { exists a :: a in since && AddsEvent(a) }

  /** From s0, where the setup was pending, to s, by the steps since, none of which is the thread's. */
  ghost predicate Meanwhile(s0: Ep0, s: Ep0, since: seq<Action>) {
    && s.pc == s0.pc && s.unanswered == s0.unanswered && s.delivered == s0.delivered && s.commits == s0.commits
    && (s.quiet <==> s0.quiet && !SomeEvent(since))
    && (!SomeEvent(since) ==> s.setup == s0.setup)
    && (s.state == Cancelled <==> SomeEvent(since) && StoreLands !in since)
    && (s.state == Pending <==> !SomeEvent(since) && StoreLands !in since)
  }

  lemma {:induction false} OthersStep(prompt: bool, canStall: bool, before: seq<Action>, since: seq<Action>)
    requires Run(prompt, canStall, before).Some? && Run(prompt, canStall, before).value.state == Pending
    requires Run(prompt, canStall, before + since).Some? && AllOthers(since)
    ensures Meanwhile(Run(prompt, canStall, before).value, Run(prompt, canStall, before + since).value, since)
  {
    hide Run, Do, Enabled;
    if since == [] {
      assert before + since == before;
    } else {
      var rest, a := since[..|since| - 1], since[|since| - 1];
      assert before + since == before + rest + [a] && since == rest + [a];
      LastStep(prompt, canStall, before + rest, a);
      OthersStep(prompt, canStall, before, rest);
      OneOther(prompt, Run(prompt, canStall, before).value, Run(prompt, canStall, before + rest).value, rest, a);
    }
  }

  lemma OneOther(prompt: bool, s0: Ep0, s: Ep0, rest: seq<Action>, a: Action)
    requires s0.state == Pending && Meanwhile(s0, s, rest) && NotTheThreads(a) && Enabled(prompt, s, a)
    ensures Meanwhile(s0, Do(s, a), rest + [a])
  {
    hide Add, SomeEvent;
    EventsGrow(rest, a);
  }

  lemma EventsGrow(rest: seq<Action>, a: Action)
    ensures SomeEvent(rest + [a]) <==> SomeEvent(rest) || AddsEvent(a)
    ensures StoreLands in rest + [a] <==> StoreLands in rest || a == StoreLands
  {
    if SomeEvent(rest) {
      var e :| e in rest && AddsEvent(e);
      assert e in rest + [a];
    }
    assert a in rest + [a];
  }

  lemma LastStep(prompt: bool, canStall: bool, actions: seq<Action>, a: Action)
    requires Run(prompt, canStall, actions + [a]).Some?
    ensures Run(prompt, canStall, actions).Some? && Enabled(prompt, Run(prompt, canStall, actions).value, a)
    ensures Run(prompt, canStall, actions + [a]) == Some(Do(Run(prompt, canStall, actions).value, a))
  {
    hide Do, Enabled;
    assert (actions + [a])[..|actions|] == actions;
  }

  /** A stall hits the setup last delivered exactly when no event was added since the check that decided on it. */
  lemma StallInTime(canStall: bool, before: seq<Action>, since: seq<Action>)
    requires Run(true, canStall, before + [Check]).Some? && Run(true, canStall, before + [Check]).value.pc.Stalling?
    requires Run(true, canStall, before + [Check] + since).Some? && AllOthers(since)
    ensures var s := Run(true, canStall, before + [Check] + since).value;
      s.pc.Stalling? && (HitsDelivered(s) <==> !SomeEvent(since))
  {
    hide Run, Do, Enabled, SomeEvent, AllOthers;
    LastStep(true, canStall, before, Check);
    RunPrompt(canStall, before);
    CheckedPending(Run(true, canStall, before).value);
    OthersStep(true, canStall, before + [Check], since);
  }

  /**
   A reply is queued for the setup last delivered exactly when no event was added since the check
   that let it through.
   */
  lemma ReplyInTime(canStall: bool, before: seq<Action>, since: seq<Action>)
    requires Run(true, canStall, before + [Recheck]).Some?
    requires Run(true, canStall, before + [Recheck]).value.pc.Committed?
    requires Run(true, canStall, before + [Recheck] + since).Some? && AllOthers(since)
    ensures var s := Run(true, canStall, before + [Recheck] + since).value;
      s.pc.Committed? && (HitsDelivered(s) <==> !SomeEvent(since))
  {
    hide Run, Do, Enabled, SomeEvent, AllOthers;
    LastStep(true, canStall, before, Recheck);
    RunPrompt(canStall, before);
    RecheckedPending(Run(true, canStall, before).value);
    OthersStep(true, canStall, before + [Recheck], since);
  }

  /**
   Whenever the completion handler's store may land: between the two locked checks of a
   reply, the setup is cancelled exactly when an event is added and no stale store lands.
   So the second check lets the reply through exactly when no event came or a stale store
   did land, and what it lets through is wrong exactly when both happened.
   */
  lemma RepliesAreExact(prompt: bool, canStall: bool, before: seq<Action>, since: seq<Action>)
    requires Run(prompt, canStall, before + [Check]).Some? && Run(prompt, canStall, before + [Check]).value.pc.Copying?
    requires Run(prompt, canStall, before + [Check] + since).Some? && AllOthers(since)
    ensures var s := Run(prompt, canStall, before + [Check] + since).value;
      && s.pc.Copying?
      && var s', n := Do(s, Recheck), |s.commits|;
      && (s'.pc.Committed? <==> !SomeEvent(since) || StoreLands in since)
      && (!s'.pc.Committed? ==> s'.result == EIDRM)
      && (s'.pc.Committed? ==> |s'.commits| == n + 1 && (Good(s'.commits[n]) <==> !SomeEvent(since)))
  {
    hide Run, SomeEvent, AllOthers;
    LastStep(prompt, canStall, before, Check);
    RunAlways(prompt, canStall, before);
    CheckedCopying(Run(prompt, canStall, before).value);
    OthersStep(prompt, canStall, before + [Check], since);
  }

  lemma CheckedPending(s: Ep0)
    requires Prompt(s) && Enabled(true, s, Check) && Do(s, Check).pc.Stalling?
    ensures HitsDelivered(Do(s, Check)) && Do(s, Check).state == Pending
  {
    hide Shape;
  }

  lemma RecheckedPending(s: Ep0)
    requires Prompt(s) && Enabled(true, s, Recheck) && Do(s, Recheck).pc.Committed?
    ensures HitsDelivered(Do(s, Recheck)) && Do(s, Recheck).state == Pending
  {
    hide Shape;
  }

  lemma CheckedCopying(s: Ep0)
    requires Always(s) && s.pc.Entered? && Do(s, Check).pc.Copying?
    ensures var c := Do(s, Check);
      c.state == Pending && c.quiet && c.setup == c.delivered && c.pc.len <= c.setup.wLength
  {
    hide Shape;
  }

  /**
   A reply is let through under the lock but queued without it: it can answer a request user space
   has not been given.
   */
  lemma ReplyHitsUndelivered(canStall: bool) returns (actions: seq<Action>)
    ensures var r := Run(true, canStall, actions);
      && r.Some? && r.value.pc == Committed && AllGood(r.value)
      && r.value.setup == Request(2) && r.value.delivered == Request(1) && r.value.queue == [Setup]
    ensures var r := Run(true, canStall, actions + [Queue(true)] + [Complete] + [StoreLands] + [Finish]);
      r.Some? && r.value.result == Replied && r.value.pc == Outside
  {
    hide Run;
    Start(true, canStall);
    actions := AskAndRead(true, canStall, [], Fresh(canStall), Request(1));
    var s := Run(true, canStall, actions).value;
    actions := StartReply(true, canStall, actions, s);
    s := s.(pc := Copying(1));
    OneMore(true, canStall, actions, s, Recheck);
    actions := actions + [Recheck];
    s := Do(s, Recheck);
    OneMore(true, canStall, actions, s, HostSetup(Request(2)));
    actions := actions + [HostSetup(Request(2))];
    s := Do(s, HostSetup(Request(2)));
    OneMore(true, canStall, actions, s, Queue(true));
    s := Do(s, Queue(true));
    ReplyCompletes(canStall, actions + [Queue(true)], s);
  }

  lemma ReplyCompletes(canStall: bool, actions: seq<Action>, s: Ep0)
    requires Run(true, canStall, actions) == Some(s) && s.pc == Waiting(false) && s.owed == 0
    ensures var r := Run(true, canStall, actions + [Complete] + [StoreLands] + [Finish]);
      r.Some? && r.value.result == Replied && r.value.pc == Outside
  {
    hide Run;
    OneMore(true, canStall, actions, s, Complete);
    var s1 := s.(pc := Waiting(true), owed := 1, unanswered := false);
    OneMore(true, canStall, actions + [Complete], s1, StoreLands);
    OneMore(true, canStall, actions + [Complete] + [StoreLands], s1.(state := NoSetup, owed := 0), Finish);
  }

  /** A stall is decided under the lock but made without it: it can hit a request that user space has not been given. */
  lemma StallHitsUndelivered() returns (actions: seq<Action>)
    ensures var r := Run(true, true, actions);
      && r.Some? && r.value.result == EL2HLT && r.value.state == NoSetup
      && r.value.setup == Request(2) && r.value.queue == [Setup] && r.value.delivered == Request(1)
  {
    hide Run;
    Start(true, true);
    actions := AskAndRead(true, true, [], Fresh(true), Request(1));
    var s := Run(true, true, actions).value;
    OneMore(true, true, actions, s, READ);
    actions := actions + [READ];
    s := s.(pc := Entered(READ.op));
    OneMore(true, true, actions, s, Check);
    actions := actions + [Check];
    s := s.(pc := Stalling);
    OneMore(true, true, actions, s, HostSetup(Request(2)));
    actions := actions + [HostSetup(Request(2))];
    s := Do(s, HostSetup(Request(2)));
    OneMore(true, true, actions, s, Stall);
    actions := actions + [Stall];
  }
}
