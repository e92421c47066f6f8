/**
 Which endpoint each endpoint file stands for, as set_alt, disable and unbind change
 it. A function is named by its number; the eps arrays of the bound functions exist,
 the others have been released.
 */
module EpFiles {
  import opened Bytes
  import opened EventQueue

  const NO_DEVICE := -19   // -ENODEV

  /** epfile->ep: entry index of the eps array of a function. */
  datatype EpRef = EpRef(func: nat, index: nat)

  datatype EpFile = EpFile(ep: Option<EpRef>, dirIn: bool, isoc: bool)

  /** What config_ep_by_speed and usb_ep_enable return for an endpoint, and what its descriptor then says. */
  datatype Answer = Answer(config: int, enable: int, dirIn: bool, isoc: bool)

  datatype Phase = Reading | Active | Deactivated | Closing

  /** ffs->func, ffs->epfiles, the functions whose eps array exists, ffs->state, and the events added. */
  datatype St = St(active: Option<nat>, files: seq<EpFile>, bound: set<nat>, phase: Phase, added: seq<Event>)

  predicate Accepted(a: Answer) { a.config == 0 && a.enable == 0 }

  /** How many endpoints, of the first n, are enabled before one is refused. */
  function EnabledCount(answers: seq<Answer>, n: nat): (k: nat)
    requires n <= |answers|
    ensures k <= n && (k < n ==> !Accepted(answers[k])) && forall i :: 0 <= i < k ==> Accepted(answers[i])
  {
    if n == 0 then 0
    else
      var k := EnabledCount(answers, n - 1);
      if k == n - 1 && Accepted(answers[n - 1]) then n else k
  }

  function Failure(a: Answer): int { if a.config != 0 then a.config else a.enable }

  function Opened(func: nat, i: nat, a: Answer): EpFile { EpFile(Some(EpRef(func, i)), a.dirIn, a.isoc) }

  /** The files once the first k endpoints of func are enabled. */
  function Opening(files: seq<EpFile>, func: nat, answers: seq<Answer>, k: nat): seq<EpFile>
    requires k <= |answers|
  {
    seq(|files|, i requires 0 <= i < |files| => if i < k then Opened(func, i, answers[i]) else files[i])
  }

  function Shut(files: seq<EpFile>): seq<EpFile> {
    seq(|files|, i requires 0 <= i < |files| => files[i].(ep := None))
  }

  /** Endpoint files of the active function are shut, if there is one. */
  function ShutActive(st: St): St {
    if st.active.Some? then st.(files := Shut(st.files)) else st
  }

  /** ffs_func_set_alt for an interface of func, past the lookup of the interface. */
  function SetAlt(st: St, func: nat, answers: seq<Answer>): (St, int)
    requires |answers| >= |st.files|
  {
    var st1 := ShutActive(st);
    if st.phase == Deactivated then (st1.(phase := Closing), NO_DEVICE)
    else if st.phase != Active then (st1, NO_DEVICE)
    else
      var k := EnabledCount(answers, |st.files|);
      var st2 := st1.(active := Some(func), files := Opening(st1.files, func, answers, k));
      var ret := if k < |st.files| then Failure(answers[k]) else 0;
      (if ret >= 0 then st2.(added := st.added + [Enable]) else st2, ret)
  }

  /** ffs_func_disable: whichever function is active, it is the one shut. */
  function DisableAll(st: St): (St, int) {
    var st1 := ShutActive(st);
    if st.phase == Deactivated then (st1.(phase := Closing), NO_DEVICE)
    else if st.phase != Active then (st1, NO_DEVICE)
    else (st1.(active := None, added := st.added + [Disable]), 0)
  }

  /** ffs_func_unbind: the eps array of func is released. */
  function UnbindOne(st: St, func: nat): St {
    var st1 := if st.active == Some(func) then st.(files := Shut(st.files), active := None) else st;
    st1.(bound := st.bound - {func}, added := st.added + [Unbind])
  }

  /** The files stand for a first stretch of the active function's endpoints, in order, and that function is bound. */
  ghost predicate Consistent(st: St) {
    && (st.active.Some? ==> st.active.value in st.bound)
    && (forall i :: 0 <= i < |st.files| && st.files[i].ep.Some? ==>
          st.active == Some(st.files[i].ep.value.func) && st.files[i].ep.value.index == i)
    && (forall i, j :: 0 <= i < j < |st.files| && st.files[j].ep.Some? ==> st.files[i].ep.Some?)
  }

  datatype Op =
    | BindOp(func: nat)
    | SetAltOp(func: nat, answers: seq<Answer>)
    | DisableOp
    | UnbindOp(func: nat)
    | PhaseOp(phase: Phase)     // the device file is opened, written or closed

  /** The composite layer binds a function once, and calls set_alt only for a bound one. */
  predicate Possible(st: St, op: Op) {
    match op
    case BindOp(f) => f !in st.bound
    case SetAltOp(f, answers) => f in st.bound && |answers| >= |st.files|
    case _ => true
  }

  function Do(st: St, op: Op): St
    requires Possible(st, op)
  {
    match op
    case BindOp(f) => st.(bound := st.bound + {f})
    case SetAltOp(f, answers) => SetAlt(st, f, answers).0
    case DisableOp => DisableAll(st).0
    case UnbindOp(f) => UnbindOne(st, f)
    case PhaseOp(p) => st.(phase := p)
  }

  function Run(count: nat, ops: seq<Op>): (r: Option<St>) {
    if ops == [] then Some(St(None, seq(count, i => EpFile(None, false, false)), {}, Reading, []))
    else
      match Run(count, ops[..|ops| - 1])
      case None => None
      case Some(st) =>
        var op := ops[|ops| - 1];
        if Possible(st, op) then Some(Do(st, op)) else None
  }

  lemma ShutLeavesNone(st: St)
    requires Consistent(st)
    ensures forall i :: 0 <= i < |st.files| ==> ShutActive(st).files[i].ep.None?
  {
  }

  /** One set_alt: what is shut, what is enabled, and which event it leaves behind. */
  lemma SetAltMeans(st: St, func: nat, answers: seq<Answer>)
    requires Consistent(st) && func in st.bound && |answers| >= |st.files|
    ensures var (st', ret) := SetAlt(st, func, answers);
      && Consistent(st')
      && |st'.files| == |st.files| && st'.bound == st.bound
      && st'.phase == (if st.phase == Deactivated then Closing else st.phase)
      && (st.phase != Active ==>
            && ret == NO_DEVICE && st'.active == st.active && st'.added == st.added
            && (forall i :: 0 <= i < |st.files| ==> st'.files[i].ep.None?))
      && (st.phase == Active ==>
            && st'.active == Some(func)
            && st'.added == (if ret >= 0 then st.added + [Enable] else st.added)
            && (ret == 0 <==> forall i :: 0 <= i < |st.files| ==> st'.files[i].ep.Some?)
            && (forall i :: 0 <= i < |st.files| ==>
                  (st'.files[i].ep.Some? <==> forall j :: 0 <= j <= i ==> Accepted(answers[j])))
            && (forall i :: 0 <= i < |st.files| && st'.files[i].ep.Some? ==>
                  st'.files[i] == EpFile(Some(EpRef(func, i)), answers[i].dirIn, answers[i].isoc)))
  {
    ShutLeavesNone(st);
    var k := EnabledCount(answers, |st.files|);
    if k < |st.files| {
      assert !Accepted(answers[k]);
      assert st.phase == Active ==> SetAlt(st, func, answers).0.files[k].ep.None?;
    }
  }

  /**
   Disabling, whichever function it is called for: all files are shut, no function is active
   and DISABLE is added, unless user space has gone, which a deactivated instance learns now.
   */
  lemma DisableMeans(st: St)
    requires Consistent(st)
    ensures var (st', ret) := DisableAll(st);
      && Consistent(st')
      && |st'.files| == |st.files| && st'.bound == st.bound
      && (forall i :: 0 <= i < |st.files| ==>
            st'.files[i] == EpFile(None, st.files[i].dirIn, st.files[i].isoc))
      && (ret == 0 <==> st.phase == Active)
      && (ret != 0 ==> ret == -19 && st'.active == st.active && st'.added == st.added)
      && (ret == 0 ==> st'.active == None && st'.added == st.added + [Disable])
      && (st'.phase == Closing <==> st.phase == Deactivated || st.phase == Closing)
      && (st.phase != Deactivated ==> st'.phase == st.phase)
  {
  }

  /** Unbinding a function: no file stands for it any more, other functions' files stay, and UNBIND is added. */
  lemma UnbindMeans(st: St, func: nat)
    requires Consistent(st)
    ensures var st' := UnbindOne(st, func);
      && Consistent(st')
      && |st'.files| == |st.files| && st'.phase == st.phase
      && (forall f: nat :: f in st'.bound <==> f in st.bound && f != func)
      && st'.added == st.added + [Unbind]
      && st'.active == (if st.active == Some(func) then None else st.active)
      && (forall i :: 0 <= i < |st.files| ==>
            if st.files[i].ep.Some? && st.files[i].ep.value.func == func
            then st'.files[i] == EpFile(None, st.files[i].dirIn, st.files[i].isoc)
            else st'.files[i] == st.files[i])
  {
  }

  /** Its result is the error of the first endpoint refused, the configuration's before the enable's. */
  lemma SetAltFails(st: St, func: nat, answers: seq<Answer>, i: nat)
    requires st.phase == Active && i < |st.files| <= |answers| && !Accepted(answers[i])
    requires forall j :: 0 <= j < i ==> Accepted(answers[j])
    ensures SetAlt(st, func, answers).1 == if answers[i].config != 0 then answers[i].config else answers[i].enable
    ensures SetAlt(st, func, answers).1 != 0
  {
    var k := EnabledCount(answers, |st.files|);
    assert k == i;
  }

  lemma StepConsistent(st: St, op: Op)
    requires Consistent(st) && Possible(st, op)
    ensures Consistent(Do(st, op)) && |Do(st, op).files| == |st.files|
  {
    hide SetAlt, EnabledCount;
    match op
    case SetAltOp(f, answers) => SetAltMeans(st, f, answers);
    case DisableOp => ShutLeavesNone(st);
    case _ =>
  }

  /**
   Over any run of binds, set_alts, disables and unbinds of any number of functions,
   with enables refused part way: every file is shut or stands for its own entry of
   the active function's endpoints, the open ones come first, and none refers to an
   endpoint array that has been released.
   */
  lemma {:induction false} FilesConsistent(count: nat, ops: seq<Op>)
    ensures var r := Run(count, ops);
      r.Some? ==>
        && Consistent(r.value)
        && |r.value.files| == count
        && (r.value.active.None? ==> forall i :: 0 <= i < count ==> r.value.files[i].ep.None?)
        && (forall i :: 0 <= i < count && r.value.files[i].ep.Some? ==> r.value.files[i].ep.value.func in r.value.bound)
  {
    hide Do, Possible;
    if ops != [] {
      FilesConsistent(count, ops[..|ops| - 1]);
      var r, op := Run(count, ops[..|ops| - 1]), ops[|ops| - 1];
      if r.Some? && Possible(r.value, op) {
        StepConsistent(r.value, op);
      }
    }
  }

  /** The fields of struct ffs_data that these calls update. */
  class FfsData {
    var active: Option<nat>
    const epfiles: array<EpFile>
    var bound: set<nat>
    var phase: Phase
    var added: seq<Event>

    ghost function State(): St
      reads this, epfiles
    {
      St(active, epfiles[..], bound, phase, added)
    }

    constructor (count: nat)
      ensures State() == St(None, seq(count, i => EpFile(None, false, false)), {}, Reading, []) && fresh(epfiles)
    {
      epfiles := new EpFile[count](i => EpFile(None, false, false));
      active, bound, phase, added := None, {}, Reading, [];
    }

    /** ffs_func_eps_disable, for its effect on the files. */
    method EpsDisable()
      modifies epfiles
      ensures epfiles[..] == Shut(old(epfiles[..]))
    {
      var i := 0;
      while i < epfiles.Length
        invariant i <= epfiles.Length
        invariant forall j :: 0 <= j < epfiles.Length ==>
                    epfiles[j] == if j < i then old(epfiles[j]).(ep := None) else old(epfiles[j])
      {
        epfiles[i] := epfiles[i].(ep := None);
        i := i + 1;
      }
    }

    /** ffs_func_eps_enable: in order, until one endpoint is refused. */
    method EpsEnable(func: nat, answers: seq<Answer>) returns (ret: int)
      requires |answers| >= epfiles.Length
      modifies epfiles
      ensures var k := EnabledCount(answers, epfiles.Length);
        && epfiles[..] == Opening(old(epfiles[..]), func, answers, k)
        && ret == if k < epfiles.Length then Failure(answers[k]) else 0
    {
      var i := 0;
      ret := 0;
      while i < epfiles.Length
        invariant i <= epfiles.Length && ret == 0
        invariant forall j :: 0 <= j < i ==> Accepted(answers[j])
        invariant forall j :: 0 <= j < epfiles.Length ==>
                    epfiles[j] == if j < i then Opened(func, j, answers[j]) else old(epfiles[j])
      {
        ret := answers[i].config;
        if ret != 0 {
          break;
        }
        ret := answers[i].enable;
        if ret == 0 {
          epfiles[i] := Opened(func, i, answers[i]);
        } else {
          break;
        }
        i := i + 1;
      }
      assert i < epfiles.Length ==> !Accepted(answers[i]);
      assert EnabledCount(answers, epfiles.Length) == i;
    }

    /** ffs_func_set_alt, past the lookup of the interface. */
    method SetAlternate(func: nat, answers: seq<Answer>) returns (ret: int)
      requires |answers| >= epfiles.Length
      modifies this, epfiles
      ensures (State(), ret) == SetAlt(old(State()), func, answers)
    {
      if active.Some? {
        EpsDisable();
      }
      if phase == Deactivated {
        phase := Closing;
        return NO_DEVICE;
      }
      if phase != Active {
        return NO_DEVICE;
      }
      active := Some(func);
      ret := EpsEnable(func, answers);
      if ret >= 0 {
        added := added + [Enable];
      }
    }

    /** ffs_func_disable. */
    method DisableFunction() returns (ret: int)
      modifies this, epfiles
      ensures (State(), ret) == DisableAll(old(State()))
    {
      if active.Some? {
        EpsDisable();
      }
      if phase == Deactivated {
        phase := Closing;
        return NO_DEVICE;
      }
      if phase != Active {
        return NO_DEVICE;
      }
      active := None;
      added := added + [Disable];
      ret := 0;
    }

    /** ffs_func_unbind. */
    method UnbindFunction(func: nat)
      modifies this, epfiles
      ensures State() == UnbindOne(old(State()), func)
    {
      if active == Some(func) {
        EpsDisable();
        active := None;
      }
      bound := bound - {func};
      added := added + [Unbind];
    }
  }
}
