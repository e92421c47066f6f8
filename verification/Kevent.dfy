/**
 System events sent to every client, and the senders that wait until all of them have
 answered: concurrent senders, answers, and clients coming and going, as steps between
 which the two mutexes may change hands.
 */
module Kevent {
  import opened Bytes

  /**
   struct HdfKeventWait. Told, snapshot and answers are history: whether the event has
   gone out, how many clients it went to, and how many answers have been counted since.
   */
  datatype Wait = Wait(waitCount: nat, done: bool, told: bool, snapshot: nat, answers: nat)

  const UNTOLD := Wait(0, false, false, 0, 0)

  /** CompleteKevent, for the wait an answer names. */
  function Answered(w: Wait): Wait {
    var left := if w.waitCount == 0 then TWO_TO_THE_32 - 1 else w.waitCount - 1;
    w.(waitCount := left, done := w.done || left == 0, answers := w.answers + 1)
  }

  /** The snapshot SendKevent takes of the number of clients. */
  function Told(w: Wait, clients: int): Wait {
    w.(waitCount := clients % TWO_TO_THE_32, told := true, snapshot := clients % TWO_TO_THE_32)
  }

  /** Which answer is the one that signals: the n-th, or with nobody told the one that wraps round to 0. */
  function FirstSignal(n: nat): nat { if n == 0 then TWO_TO_THE_32 else n }

  /** The count is what is still missing, modulo 2^32, and the sender is signalled from the FirstSignal-th answer on. */
  ghost predicate Counts(w: Wait) {
    if w.told then
      && w.snapshot < TWO_TO_THE_32
      && w.waitCount == (w.snapshot - w.answers) % TWO_TO_THE_32
      && (w.done <==> w.answers >= FirstSignal(w.snapshot))
    else w == UNTOLD
  }

  lemma AnsweredCounts(w: Wait)
    requires Counts(w) && w.told
    ensures Counts(Answered(w))
  {
    var n, k := w.snapshot, w.answers + 1;
    assert Answered(w).waitCount == (n - k) % TWO_TO_THE_32;
    if k < FirstSignal(n) {
      assert Answered(w).waitCount != 0;
    } else if k == FirstSignal(n) {
      assert Answered(w).waitCount == 0;
    }
  }

  lemma ToldCounts(clients: int)
    ensures Counts(Told(UNTOLD, clients))
  {
  }

  /** Where a sender is inside SendKevent; its token is the address of its wait. */
  datatype Pc =
    | Prepared(token: nat)
    | Listed(token: nat)                   // holds mutex, about to take clientMutex
    | Waiting(token: nat)
    | Leaving(token: nat, timedOut: bool)  // about to take mutex again

  /** What a synchronous send ended with. */
  datatype Sent = Sent(timedOut: bool, snapshot: nat, answers: nat)

  datatype State = State(waits: map<nat, Wait>, clients: set<nat>, clientCount: int, mutex: Option<nat>,
                         senders: map<nat, Pc>, finished: seq<Sent>)

  const START := State(map[], {}, 0, None, map[], [])

  datatype Action =
    | Open(client: nat)
    | Close(client: nat)
    | Prepare(sender: nat, token: nat)     // past the unlocked look at clientCount, with a wait allocated
    | List(sender: nat)
    | Broadcast(sender: nat)
    | Complete(token: nat)                 // from any client, with any token
    | Wake(sender: nat)
    | TimeOut(sender: nat)
    | Remove(sender: nat)

  /** An address is handed out only while no sender still holds it; a later sender may well get it again. */
  ghost predicate FreshToken(s: State, token: nat) { forall t :: t in s.senders ==> s.senders[t].token != token }

  /** A sender is in the given place with its wait on the list. */
  predicate Holds(s: State, sender: nat) { sender in s.senders && s.senders[sender].token in s.waits }

  ghost predicate Enabled(s: State, a: Action) {
    match a
    case Open(c) => c !in s.clients
    case Close(c) => c in s.clients
    case Prepare(t, token) => t !in s.senders && s.clientCount > 0 && FreshToken(s, token)
    case List(t) => t in s.senders && s.senders[t].Prepared? && s.mutex.None?
    case Broadcast(t) => Holds(s, t) && s.senders[t].Listed?
    case Complete(_) => s.mutex.None?
    case Wake(t) => Holds(s, t) && s.senders[t].Waiting? && s.waits[s.senders[t].token].done
    case TimeOut(t) => Holds(s, t) && s.senders[t].Waiting? && !s.waits[s.senders[t].token].done
    case Remove(t) => Holds(s, t) && s.senders[t].Leaving? && s.mutex.None?
  }

  ghost function Do(s: State, a: Action): State
    requires Enabled(s, a)
  {
    match a
    case Open(c) => s.(clients := s.clients + {c}, clientCount := s.clientCount + 1)
    case Close(c) => s.(clients := s.clients - {c}, clientCount := s.clientCount - 1)
    case Prepare(t, token) => s.(senders := s.senders[t := Prepared(token)])
    case List(t) =>
      var token := s.senders[t].token;
      s.(mutex := Some(t), waits := s.waits[token := UNTOLD], senders := s.senders[t := Listed(token)])
    case Broadcast(t) =>
      var token := s.senders[t].token;
      s.(mutex := None, waits := s.waits[token := Told(s.waits[token], s.clientCount)],
         senders := s.senders[t := Waiting(token)])
    case Complete(token) => if token in s.waits then s.(waits := s.waits[token := Answered(s.waits[token])]) else s
    case Wake(t) => s.(senders := s.senders[t := Leaving(s.senders[t].token, false)])
    case TimeOut(t) => s.(senders := s.senders[t := Leaving(s.senders[t].token, true)])
    case Remove(t) =>
      var w := s.waits[s.senders[t].token];
      s.(waits := s.waits - {s.senders[t].token}, senders := s.senders - {t},
         finished := s.finished + [Sent(s.senders[t].timedOut, w.snapshot, w.answers)])
  }

  /** A sender's wait is on the list from List to Remove; only the holder of the mutex still has an event to send. */
  ghost predicate SenderOk(s: State, t: nat)
    requires t in s.senders
  {
    var pc := s.senders[t];
    && (pc.token in s.waits <==> !pc.Prepared?)
    && (pc.Listed? <==> s.mutex == Some(t))
    && (pc.token in s.waits ==> (s.waits[pc.token].told <==> !pc.Listed?))
    && (pc.token in s.waits && pc.Leaving? && !pc.timedOut ==> s.waits[pc.token].done)
  }

  ghost predicate Distinct(s: State) {
    forall t, u :: t in s.senders && u in s.senders && t != u ==> s.senders[t].token != s.senders[u].token
  }

  /** Senders and waits belong together one to one. */
  ghost predicate Paired(s: State) {
    && Distinct(s)
    && (forall t :: t in s.senders ==> SenderOk(s, t))
    && (forall token :: token in s.waits ==> !FreshToken(s, token))
    && (s.mutex.Some? ==> s.mutex.value in s.senders)
  }

  ghost predicate Inv(s: State) {
    && s.clientCount == |s.clients|
    && Paired(s)
    && (forall token :: token in s.waits ==> Counts(s.waits[token]))
    && (forall i :: 0 <= i < |s.finished| && !s.finished[i].timedOut ==>
          s.finished[i].answers >= FirstSignal(s.finished[i].snapshot))
  }

  /** Each wait's owner is still there after a step that does not remove the wait. */
  lemma OwnersKept(s: State, a: Action)
    requires Paired(s) && Enabled(s, a)
    ensures forall token :: token in Do(s, a).waits ==> !FreshToken(Do(s, a), token)
  {
    var s' := Do(s, a);
    forall token | token in s'.waits
      ensures !FreshToken(s', token)
    {
      if token in s.waits {
        var t :| t in s.senders && s.senders[t].token == token;
        assert t in s'.senders && s'.senders[t].token == token;
      } else {
        assert s'.senders[a.sender].token == token;
      }
    }
  }

  lemma DistinctKept(s: State, a: Action)
    requires Distinct(s) && Enabled(s, a)
    ensures Distinct(Do(s, a))
  {
  }

  lemma SenderKept(s: State, a: Action, t: nat)
    requires Paired(s) && Enabled(s, a) && t in Do(s, a).senders
    ensures SenderOk(Do(s, a), t)
  {
    hide Distinct;
    if (a.List? || a.Broadcast? || a.Remove?) && t != a.sender {
      TokensDiffer(s, t, a.sender);
    }
  }

  lemma TokensDiffer(s: State, t: nat, u: nat)
    requires Distinct(s) && t in s.senders && u in s.senders && t != u
    ensures s.senders[t].token != s.senders[u].token
  {
  }

  lemma StepInv(s: State, a: Action)
    requires Inv(s) && Enabled(s, a)
    ensures Inv(Do(s, a))
  {
    CountsKept(s, a);
    OwnersKept(s, a);
    DistinctKept(s, a);
    forall t | t in Do(s, a).senders
      ensures SenderOk(Do(s, a), t)
    {
      SenderKept(s, a, t);
    }
    hide SenderOk, FreshToken, Distinct, Counts;
  }

  lemma CountsKept(s: State, a: Action)
    requires Inv(s) && Enabled(s, a)
    ensures var s' := Do(s, a);
      && s'.clientCount == |s'.clients|
      && (forall token :: token in s'.waits ==> Counts(s'.waits[token]))
      && (forall i :: 0 <= i < |s'.finished| && !s'.finished[i].timedOut ==>
            s'.finished[i].answers >= FirstSignal(s'.finished[i].snapshot))
  {
    match a
    case Broadcast(t) => ToldCounts(s.clientCount);
    case Complete(token) =>
      if token in s.waits {
        AllTold(s, token);
        AnsweredCounts(s.waits[token]);
      }
    case _ =>
  }

  /** While the mutex is free, every listed wait has had its event sent. */
  lemma AllTold(s: State, token: nat)
    requires Inv(s) && s.mutex.None? && token in s.waits
    ensures s.waits[token].told
  {
    var t :| t in s.senders && s.senders[t].token == token;
    assert Holds(s, t);
  }

  ghost function Run(actions: seq<Action>): (r: Option<State>) {
    if actions == [] then Some(START)
    else
      match Run(actions[..|actions| - 1])
      case None => None
      case Some(s) =>
        var a := actions[|actions| - 1];
        if Enabled(s, a) then Some(Do(s, a)) else None
  }

  lemma {:induction false} RunInv(actions: seq<Action>)
    ensures var r := Run(actions); r.Some? ==> Inv(r.value)
  {
    if actions != [] {
      RunInv(actions[..|actions| - 1]);
      var r, a := Run(actions[..|actions| - 1]), actions[|actions| - 1];
      hide Inv, Do, Enabled;
      if r.Some? && Enabled(r.value, a) {
        StepInv(r.value, a);
      }
    }
  }

  /**
   In every reachable state of concurrent senders, answers and clients coming and going:
   clientCount is the number of clients; each wait that n clients have been told of
   counts n minus the answers with its token, modulo 2^32, and is signalled exactly from
   the n-th answer on; and a send that did not time out had at least n answers.
   */
  lemma EveryAnswerCounted(actions: seq<Action>)
    ensures var r := Run(actions);
      r.Some? ==>
        && r.value.clientCount == |r.value.clients|
        && (forall token :: token in r.value.waits && r.value.waits[token].told ==>
              var w := r.value.waits[token];
              && w.waitCount == (w.snapshot - w.answers) % TWO_TO_THE_32
              && (w.done <==> w.answers >= FirstSignal(w.snapshot)))
        && (forall i :: 0 <= i < |r.value.finished| && !r.value.finished[i].timedOut ==>
              r.value.finished[i].answers >= FirstSignal(r.value.finished[i].snapshot))
  {
    hide Paired, Run;
    RunInv(actions);
  }

  /** Of the steps of a run, the answers with this token since an event with this token last went out. */
  ghost function AnswersSince(actions: seq<Action>, token: nat): nat {
    if actions == [] then 0
    else
      var before, a := actions[..|actions| - 1], actions[|actions| - 1];
      if a.Broadcast? && Run(before).Some? && Holds(Run(before).value, a.sender)
         && Run(before).value.senders[a.sender].token == token
      then 0
      else AnswersSince(before, token) + if a == Complete(token) then 1 else 0
  }

  /** Answers with any other token change nothing for a wait: its count is of its own answers alone. */
  lemma {:induction false} OnlyOwnAnswers(actions: seq<Action>, token: nat)
    ensures var r := Run(actions);
      r.Some? && token in r.value.waits && r.value.waits[token].told ==>
        r.value.waits[token].answers == AnswersSince(actions, token)
  {
    if actions != [] {
      var before, a := actions[..|actions| - 1], actions[|actions| - 1];
      OnlyOwnAnswers(before, token);
      RunInv(before);
      var r := Run(before);
      if r.Some? && Enabled(r.value, a) && token in Do(r.value, a).waits && Do(r.value, a).waits[token].told {
        OwnStep(r.value, a, token);
      }
    }
  }

  /** Of the steps of a run, how many clients there were when an event with this token last went out. */
  ghost function ClientsTold(actions: seq<Action>, token: nat): nat {
    if actions == [] then 0
    else
      var before, a := actions[..|actions| - 1], actions[|actions| - 1];
      if a.Broadcast? && Run(before).Some? && Holds(Run(before).value, a.sender)
         && Run(before).value.senders[a.sender].token == token
      then |Run(before).value.clients|
      else ClientsTold(before, token)
  }

  /** What a wait was told of is the number of clients there were when its event went out, in its 32 bits. */
  lemma {:induction false} SnapshotIsClients(actions: seq<Action>, token: nat)
    ensures var r := Run(actions);
      r.Some? && token in r.value.waits && r.value.waits[token].told ==>
        r.value.waits[token].snapshot == ClientsTold(actions, token) % TWO_TO_THE_32
  {
    if actions != [] {
      var before, a := actions[..|actions| - 1], actions[|actions| - 1];
      SnapshotIsClients(before, token);
      RunInv(before);
      var r := Run(before);
      if r.Some? && Enabled(r.value, a) && token in Do(r.value, a).waits && Do(r.value, a).waits[token].told {
        ToldStep(r.value, a, token);
      }
    }
  }

  lemma ToldStep(s: State, a: Action, token: nat)
    requires Inv(s) && Enabled(s, a) && token in Do(s, a).waits && Do(s, a).waits[token].told
    ensures token in s.waits
    ensures if a.Broadcast? && s.senders[a.sender].token == token
            then Do(s, a).waits[token].snapshot == |s.clients| % TWO_TO_THE_32
            else s.waits[token].told && Do(s, a).waits[token].snapshot == s.waits[token].snapshot
  {
    if a.Broadcast? {
      assert SenderOk(s, a.sender);
    }
  }

  /**
   Of every run, on its steps alone: when a wait's event went out to n clients, and k answers
   with its token have come since, its count is n - k modulo 2^32, and it is signalled
   exactly if k >= n, that is, if every client it went to could have answered. With nobody
   left to be told, or 2^32 clients, the count has to wrap round.
   */
  lemma SignalledByAll(actions: seq<Action>, token: nat)
    ensures var r, n, k := Run(actions), ClientsTold(actions, token), AnswersSince(actions, token);
      r.Some? && token in r.value.waits && r.value.waits[token].told ==>
        && r.value.waits[token].waitCount == (n - k) % TWO_TO_THE_32
        && (0 < n < TWO_TO_THE_32 ==> (r.value.waits[token].done <==> k >= n))
        && (n == 0 ==> (r.value.waits[token].done <==> k >= TWO_TO_THE_32))
  {
    SnapshotIsClients(actions, token);
    OnlyOwnAnswers(actions, token);
    EveryAnswerCounted(actions);
    hide Run, ClientsTold, AnswersSince, FirstSignal;
    LeftInWord(ClientsTold(actions, token), AnswersSince(actions, token));
  }

  lemma LeftInWord(n: nat, k: nat)
    ensures (n % TWO_TO_THE_32 - k) % TWO_TO_THE_32 == (n - k) % TWO_TO_THE_32
    ensures 0 < n < TWO_TO_THE_32 ==> FirstSignal(n % TWO_TO_THE_32) == n
    ensures n == 0 ==> FirstSignal(n % TWO_TO_THE_32) == TWO_TO_THE_32
  {
  }

  /** A send that returns without a timeout has been answered by at least as many as its event went to. */
  lemma SendsAnswered(actions: seq<Action>, t: nat)
    requires Run(actions).Some? && Enabled(Run(actions).value, Remove(t))
    ensures var s := Run(actions).value;
      var n, k := ClientsTold(actions, s.senders[t].token), AnswersSince(actions, s.senders[t].token);
      && |Do(s, Remove(t)).finished| == |s.finished| + 1
      && Do(s, Remove(t)).finished[|s.finished|] == Sent(s.senders[t].timedOut, n % TWO_TO_THE_32, k)
      && (n < TWO_TO_THE_32 && !s.senders[t].timedOut ==> k >= n)
  {
    var s := Run(actions).value;
    RunInv(actions);
    assert SenderOk(s, t);
    SnapshotIsClients(actions, s.senders[t].token);
    OnlyOwnAnswers(actions, s.senders[t].token);
    SignalledByAll(actions, s.senders[t].token);
  }

  lemma OwnStep(s: State, a: Action, token: nat)
    requires Inv(s) && Enabled(s, a) && token in Do(s, a).waits && Do(s, a).waits[token].told
    ensures token in s.waits
    ensures if a.Broadcast? && s.senders[a.sender].token == token then Do(s, a).waits[token].answers == 0
            else s.waits[token].told
                 && Do(s, a).waits[token].answers == s.waits[token].answers + if a == Complete(token) then 1 else 0
  {
    if a.Broadcast? {
      assert SenderOk(s, a.sender);
      assert Counts(s.waits[s.senders[a.sender].token]);
    }
  }

  /** An element of waitList. */
  datatype Node = Node(token: nat, wait: Wait)

  ghost predicate DistinctNodes(list: seq<Node>) {
    forall i, j :: 0 <= i < j < |list| ==> list[i].token != list[j].token
  }

  /** Where a token is on the list. */
  ghost predicate On(list: seq<Node>, token: nat) { exists i :: 0 <= i < |list| && list[i].token == token }

  /** The waits on a list, by token. */
  ghost function OnList(list: seq<Node>): (r: map<nat, Wait>)
    ensures forall token :: token in r ==> On(list, token)
  {
    if list == [] then map[]
    else
      var before, last := OnList(list[..|list| - 1]), list[|list| - 1];
      assert forall i :: 0 <= i < |list| - 1 ==> list[i] == list[..|list| - 1][i];
      before[last.token := last.wait]
  }

  lemma {:induction false} OnListAt(list: seq<Node>, i: nat)
    requires DistinctNodes(list) && i < |list|
    ensures list[i].token in OnList(list) && OnList(list)[list[i].token] == list[i].wait
  {
    if i < |list| - 1 {
      OnListAt(list[..|list| - 1], i);
    }
  }

  /** A map that agrees with a list of distinct tokens is the one the list stands for. */
  lemma OnListIs(list: seq<Node>, m: map<nat, Wait>)
    requires DistinctNodes(list)
    requires forall i :: 0 <= i < |list| ==> list[i].token in m && m[list[i].token] == list[i].wait
    requires forall token :: token in m ==> On(list, token)
    ensures OnList(list) == m
  {
    hide OnList;
    var r := OnList(list);
    forall i | 0 <= i < |list|
      ensures list[i].token in r && r[list[i].token] == list[i].wait
    {
      OnListAt(list, i);
    }
    assert r.Keys == m.Keys;
  }

  /** The loop of CompleteKevent over the whole list. */
  function AnsweredList(list: seq<Node>, token: nat): (r: seq<Node>)
    ensures |r| == |list|
    ensures forall i :: 0 <= i < |list| ==>
              r[i] == if list[i].token == token then Node(token, Answered(list[i].wait)) else list[i]
  {
    seq(|list|, i requires 0 <= i < |list| =>
      if list[i].token == token then Node(token, Answered(list[i].wait)) else list[i])
  }

  /** On a list of distinct tokens that loop is one answer to one wait, or nothing. */
  lemma AnsweredOnList(list: seq<Node>, token: nat)
    requires DistinctNodes(list)
    ensures OnList(AnsweredList(list, token)) ==
            if token in OnList(list) then OnList(list)[token := Answered(OnList(list)[token])] else OnList(list)
  {
    hide OnList, Answered;
    var r, m := AnsweredList(list, token), OnList(list);
    forall i | 0 <= i < |list|
      ensures list[i].token in m && m[list[i].token] == list[i].wait && r[i].token == list[i].token
    {
      OnListAt(list, i);
    }
    forall t | On(list, t)
      ensures On(r, t)
    {
      var i :| 0 <= i < |list| && list[i].token == t;
      assert r[i].token == t;
    }
    OnListIs(r, if token in m then m[token := Answered(m[token])] else m);
  }

  lemma RemovedOnList(list: seq<Node>, i: nat)
    requires DistinctNodes(list) && i < |list|
    ensures DistinctNodes(list[..i] + list[i + 1..])
    ensures OnList(list[..i] + list[i + 1..]) == OnList(list) - {list[i].token}
  {
    hide OnList;
    var rest, m := list[..i] + list[i + 1..], OnList(list);
    forall j | 0 <= j < |rest|
      ensures rest[j].token in m && m[rest[j].token] == rest[j].wait && rest[j].token != list[i].token
    {
      var k := if j < i then j else j + 1;
      assert rest[j] == list[k];
      OnListAt(list, k);
    }
    forall t | t in m && t != list[i].token
      ensures On(rest, t)
    {
      var k :| 0 <= k < |list| && list[k].token == t;
      assert rest[if k < i then k else k - 1].token == t;
    }
    OnListIs(rest, m - {list[i].token});
  }

  lemma UpdatedOnList(list: seq<Node>, i: nat, w: Wait)
    requires DistinctNodes(list) && i < |list|
    ensures OnList(list[i := Node(list[i].token, w)]) == OnList(list)[list[i].token := w]
  {
    hide OnList;
    var r, m := list[i := Node(list[i].token, w)], OnList(list);
    forall j | 0 <= j < |list|
      ensures list[j].token in m && m[list[j].token] == list[j].wait && r[j].token == list[j].token
    {
      OnListAt(list, j);
    }
    forall t | On(list, t)
      ensures On(r, t)
    {
      var j :| 0 <= j < |list| && list[j].token == t;
      assert r[j].token == t;
    }
    OnListAt(list, i);
    OnListIs(r, m[list[i].token := w]);
  }

  /** struct HdfKeventModule: the two lists and the count. */
  class KeventModule {
    var waitList: seq<Node>
    var clientList: seq<nat>
    var clientCount: int

    ghost predicate Valid()
      reads this
    {
      && DistinctNodes(waitList)
      && (forall i, j :: 0 <= i < j < |clientList| ==> clientList[i] != clientList[j])
      && clientCount == |clientList|
    }

    ghost function Waits(): map<nat, Wait>
      reads this
    {
      OnList(waitList)
    }

    constructor ()
      ensures Valid() && Waits() == map[] && clientList == []
    {
      waitList, clientList, clientCount := [], [], 0;
    }

    /** HdfKeventDriverOpen. */
    method Open(client: nat)
      requires Valid() && client !in clientList
      modifies this
      ensures Valid() && clientList == old(clientList) + [client] && waitList == old(waitList)
    {
      clientList := clientList + [client];
      clientCount := clientCount + 1;
    }

    /** HdfKeventDriverClose. */
    method Close(client: nat)
      requires Valid() && client in clientList
      modifies this
      ensures Valid() && waitList == old(waitList)
      ensures exists i :: 0 <= i < |old(clientList)| && old(clientList)[i] == client
                && clientList == old(clientList)[..i] + old(clientList)[i + 1..]
      ensures client !in clientList
    {
      var i := 0;
      while clientList[i] != client
        invariant i < |clientList| && client !in clientList[..i]
        decreases |clientList| - i
      {
        i := i + 1;
      }
      clientList := clientList[..i] + clientList[i + 1..];
      clientCount := clientCount - 1;
    }

    /** CompleteKevent, once the token has been read. */
    method Complete(token: nat)
      requires Valid()
      modifies this`waitList
      ensures Valid()
      ensures Waits() ==
              if token in old(Waits()) then old(Waits())[token := Answered(old(Waits())[token])] else old(Waits())
    {
      ghost var was := waitList;
      AnsweredOnList(was, token);
      var i := 0;
      while i < |waitList|
        invariant i <= |waitList| == |was|
        invariant forall j :: 0 <= j < |was| ==> waitList[j] == if j < i then AnsweredList(was, token)[j] else was[j]
      {
        if token == waitList[i].token {
          waitList := waitList[i := Node(token, Answered(waitList[i].wait))];
        }
        i := i + 1;
      }
      assert waitList == AnsweredList(was, token);
    }

    /** SendKevent under the mutex: the wait goes on the list. */
    method ListWait(token: nat)
      requires Valid() && token !in Waits()
      modifies this`waitList
      ensures Valid() && Waits() == old(Waits())[token := UNTOLD]
    {
      var node := Node(token, UNTOLD);
      forall i | 0 <= i < |waitList|
        ensures waitList[i].token != token
      {
        OnListAt(waitList, i);
      }
      assert (waitList + [node])[..|waitList|] == waitList;
      waitList := waitList + [node];
    }

    /** SendKevent under both mutexes: the wait at index i counts the clients the event now goes to. */
    method CountClients(i: nat)
      requires Valid() && i < |waitList|
      modifies this`waitList
      ensures Valid() && |waitList| == |old(waitList)|
      ensures forall j :: 0 <= j < |waitList| && j != i ==> waitList[j] == old(waitList[j])
      ensures waitList[i].token == old(waitList[i].token)
      ensures var w, was := waitList[i].wait, old(waitList[i].wait);
        && w.waitCount == |clientList| % TWO_TO_THE_32
        && w.told && w.snapshot == |clientList| % TWO_TO_THE_32
        && w.done == was.done && w.answers == was.answers
        && Waits() == old(Waits())[old(waitList[i].token) := w]
    {
      var node := waitList[i];
      UpdatedOnList(waitList, i, Told(node.wait, clientCount));
      waitList := waitList[i := Node(node.token, Told(node.wait, clientCount))];
    }

    /** SendKevent, once the wait is signalled or has timed out: it comes off the list. */
    method RemoveWait(token: nat)
      requires Valid() && token in Waits()
      modifies this`waitList
      ensures Valid() && Waits() == old(Waits()) - {token}
    {
      var i := 0;
      while waitList[i].token != token
        invariant i < |waitList| && On(waitList, token)
        invariant forall j :: 0 <= j < i ==> waitList[j].token != token
        decreases |waitList| - i
      {
        i := i + 1;
      }
      RemovedOnList(waitList, i);
      waitList := waitList[..i] + waitList[i + 1..];
    }
  }
}
