/**
 The rewriting passes of _ffs_func_bind, as functions on the copied bytes.
 ffs_do_descs runs once per speed with __ffs_func_bind_do_descs, then once over
 all descriptors with __ffs_func_bind_do_nums. Fault stands for an access
 outside the buffer or a table, or through a NULL pointer.
 */
module BindModel {
  import opened Bytes
  import opened DescWalk
  import opened OsDescs
  import opened DescParser

  /** What usb_ep_autoconfig and usb_ep_alloc_request answer for one endpoint. */
  datatype Auto = NoEndpoint | NoRequest | Granted(address: byte, size0: byte, size1: byte)

  /** The largest block kzalloc gives, and the sizes of the structures it declares that are carved at bind time. */
  datatype Kernel = Kernel(memory: nat, osTable: nat, osDesc: nat, osProp: nat)

  /**
   The gadget's answers: autoconfig replies in the order they are asked for, the
   id usb_interface_id hands out when user interface i is first met (negative for
   an error), the ids of the function's strings, and whether addresses stay virtual.
   With them, what the kernel provides.
   */
  datatype Env = Env(auto: seq<Auto>, ids: seq<int>, strIds: seq<byte>, virtual: bool, kernel: Kernel)

  /** kzalloc gives less than 4 GiB, and no structure is as large as 64 KiB. */
  predicate KernelOk(k: Kernel) {
    k.memory < TWO_TO_THE_32 && k.osTable < TWO_TO_THE_16 && k.osDesc < TWO_TO_THE_16 && k.osProp < TWO_TO_THE_16
  }

  /** A hardware endpoint is never number 0, and an interface id fits the byte it is written to. */
  ghost predicate EnvOk(env: Env, endpoints: nat, interfaces: nat, strings: nat) {
    && KernelOk(env.kernel)
    && |env.auto| >= endpoints
    && (forall a :: a in env.auto && a.Granted? ==> a.address % ENDPOINT_NUMBERS != 0)
    && |env.ids| >= interfaces
    && (forall i :: 0 <= i < |env.ids| ==> env.ids[i] < 0x100)
    && |env.strIds| >= strings
  }

  /** struct ffs_ep: the hardware endpoint's number, and the descriptor offset per speed. */
  datatype FfsEp = FfsEp(ep: Option<nat>, descs: seq<Option<nat>>)

  /** eps_revmap: the endpoint last given each hardware number, 0 for none. */
  type NumberMap = m: seq<nat> | |m| == ENDPOINT_NUMBERS witness NO_NUMBERS

  const NO_NUMBERS: seq<nat> := [0, 0, 0, 0, 0, 0, 0, 0, 0, 0, 0, 0, 0, 0, 0, 0]

  datatype BindSt = BindSt(raw: seq<byte>, eps: seq<FfsEp>, revmap: seq<nat>, used: nat)

  predicate StOk(st: BindSt) {
    && |st.revmap| == ENDPOINT_NUMBERS
    && forall e :: e in st.eps ==> |e.descs| == 3
  }

  /** ffs_ep_addr2idx: the first entry of eps_addrmap holding address a, 0 when there is none. */
  function AddrIndex(addrmap: seq<byte>, a: byte, from: nat): (r: nat)
    requires 1 <= from <= |addrmap|
    ensures r == 0 || (from <= r < |addrmap| && addrmap[r] == a)
    ensures forall i :: from <= i < |addrmap| && (r == 0 || i < r) ==> addrmap[i] != a
    decreases |addrmap| - from
  {
    if from == |addrmap| then 0
    else if addrmap[from] == a then from
    else AddrIndex(addrmap, a, from + 1)
  }

  /** The descriptor at d0 lends its address, and its packet size if the one at pos has none. */
  function CopyFrom(raw: seq<byte>, pos: nat, d0: nat): (r: seq<byte>)
    requires pos + 6 <= |raw| && d0 + 6 <= |raw|
    ensures |r| == |raw|
  {
    var raw1 := raw[pos + 2 := raw[d0 + 2]];
    if raw1[pos + 4] == 0 && raw1[pos + 5] == 0
    then raw1[pos + 4 := raw1[d0 + 4]][pos + 5 := raw1[d0 + 5]] else raw1
  }

  /** What autoconfig writes, with the user's address put back when addresses stay virtual. */
  function Configure(raw: seq<byte>, pos: nat, a: Auto, virtual: bool): (r: seq<byte>)
    requires pos + 6 <= |raw| && a.Granted?
    ensures |r| == |raw|
  {
    raw[pos + 2 := if virtual then raw[pos + 2] else a.address][pos + 4 := a.size0][pos + 5 := a.size1]
  }

  /** __ffs_func_bind_do_descs on the descriptor at pos. */
  function StepDesc(env: Env, addrmap: seq<byte>, speed: nat, st: BindSt, pos: nat): (r: Outcome<BindSt>)
    requires |addrmap| == MAX_EPS_COUNT && speed < 3 && StOk(st)
    ensures r.Ok? ==> StOk(r.value) && |r.value.raw| == |st.raw| && |r.value.eps| == |st.eps|
  {
    if pos + 2 > |st.raw| then Fault
    else if st.raw[pos + 1] != DT_ENDPOINT then Ok(st)
    else if pos + 6 > |st.raw| then Fault
    else
      var idx := AddrIndex(addrmap, st.raw[pos + 2], 1);
      if idx == 0 then Err(Other(-3))
      else if idx > |st.eps| then Fault
      else
        var e := st.eps[idx - 1];
        if e.descs[speed].Some? then Err(EINVAL)
        else
          var e1 := e.(descs := e.descs[speed := Some(pos)]);
          if e.ep.Some? then
            if e1.descs[0].None? || e1.descs[0].value + 6 > |st.raw| then Fault
            else Ok(st.(raw := CopyFrom(st.raw, pos, e1.descs[0].value), eps := st.eps[idx - 1 := e1]))
          else if st.used >= |env.auto| || env.auto[st.used].NoEndpoint? then Err(ENOTSUPP)
          else if env.auto[st.used].NoRequest? then Err(ENOMEM)
          else
            var a := env.auto[st.used];
            var number := a.address % ENDPOINT_NUMBERS;
            Ok(BindSt(Configure(st.raw, pos, a, env.virtual),
                      st.eps[idx - 1 := e1.(ep := Some(number as nat))],
                      st.revmap[number as int := idx],
                      st.used + 1))
  }

  datatype Walked<T> = Walked(st: T, pos: nat)

  /** ffs_do_descs over k descriptors of one speed with __ffs_func_bind_do_descs as its callback. */
  function RunDescs(env: Env, addrmap: seq<byte>, speed: nat, st: BindSt, start: nat, k: nat)
    : (r: Outcome<Walked<BindSt>>)
    requires |addrmap| == MAX_EPS_COUNT && speed < 3 && StOk(st)
    ensures r.Ok? ==> StOk(r.value.st) && |r.value.st.raw| == |st.raw| && |r.value.st.eps| == |st.eps|
  {
    if k == 0 then Ok(Walked(st, start))
    else
      match RunDescs(env, addrmap, speed, st, start, k - 1)
      case Err(e) => Err(e)
      case Fault => Fault
      case Ok(w) =>
        match StepDesc(env, addrmap, speed, w.st, w.pos)
        case Err(e) => Err(e)
        case Fault => Fault
        case Ok(st1) =>
          if w.pos > |st1.raw| || !DescOk(st1.raw, w.pos) then Err(EINVAL)
          else Ok(Walked(st1, w.pos + st1.raw[w.pos]))
  }

  /**
   Entries of the list kept for a speed of count descriptors: one for each and one for
   the NULL behind the last, added up in 32 bits; a speed without descriptors has no list.
   */
  function ListRoom(count: nat): nat {
    if count == 0 then 0 else (count + 1) % TWO_TO_THE_32
  }

  /**
   That walk with its list. The callback first stores the descriptor it is called for,
   and NULL when it is called for the last time; a store behind the list is a fault.
   */
  function RunListed(env: Env, addrmap: seq<byte>, speed: nat, st: BindSt, start: nat, count: nat)
    : (r: Outcome<Walked<BindSt>>)
    requires |addrmap| == MAX_EPS_COUNT && speed < 3 && StOk(st)
    ensures r.Ok? ==> StOk(r.value.st) && |r.value.st.raw| == |st.raw| && |r.value.st.eps| == |st.eps|
  {
    if count < ListRoom(count) then RunDescs(env, addrmap, speed, st, start, count)
    else
      match RunDescs(env, addrmap, speed, st, start, ListRoom(count))
      case Err(e) => Err(e)
      case Fault => Fault
      case Ok(_) => Fault
  }

  /** The passes over the first n speeds that have descriptors, each starting where the last one stopped. */
  function RunSpeeds(env: Env, addrmap: seq<byte>, st: BindSt, counts: Counts, n: nat): (r: Outcome<Walked<BindSt>>)
    requires |addrmap| == MAX_EPS_COUNT && n <= 3 && StOk(st)
    ensures r.Ok? ==> StOk(r.value.st) && |r.value.st.raw| == |st.raw| && |r.value.st.eps| == |st.eps|
  {
    if n == 0 then Ok(Walked(st, 0))
    else
      match RunSpeeds(env, addrmap, st, counts, n - 1)
      case Err(e) => Err(e)
      case Fault => Fault
      case Ok(w) =>
        if counts[n - 1] == 0 then Ok(w)
        else RunListed(env, addrmap, n - 1, w.st, w.pos, counts[n - 1])
  }

  /** The zeroed tables a bind starts from. The reverse map is not among them: it is the function's, and stays. */
  function StartOf(orig: seq<byte>, endpoints: nat, was: NumberMap): (r: BindSt)
    ensures StOk(r)
  {
    BindSt(orig, seq(endpoints, i => FfsEp(None, [None, None, None])), was, 0)
  }

  datatype NumSt = NumSt(raw: seq<byte>, nums: seq<int>)

  /** __ffs_func_bind_do_nums for the interface number of the descriptor at pos. */
  function StepIntf(env: Env, st: NumSt, pos: nat): (r: Outcome<NumSt>)
    requires pos <= |st.raw| && DescOk(st.raw, pos)
    ensures r.Ok? ==> |r.value.raw| == |st.raw| && |r.value.nums| == |st.nums| && DescOk(r.value.raw, pos)
  {
    if st.raw[pos + 1] != DT_INTERFACE then Ok(st)
    else
      var idx := st.raw[pos + 2];
      if idx >= |st.nums| then Fault
      else if st.nums[idx] >= 0 then Ok(st.(raw := st.raw[pos + 2 := (st.nums[idx] % 0x100) as byte]))
      else if idx >= |env.ids| then Err(ENODEV)
      else if env.ids[idx] < 0 then Err(Other(env.ids[idx]))
      else Ok(NumSt(st.raw[pos + 2 := (env.ids[idx] % 0x100) as byte], st.nums[idx as int := env.ids[idx]]))
  }

  /** __ffs_func_bind_do_nums for the string index of the descriptor at pos. */
  function StepStr(env: Env, st: NumSt, pos: nat): (r: Outcome<NumSt>)
    requires pos <= |st.raw| && DescOk(st.raw, pos)
    ensures r.Ok? ==> |r.value.raw| == |st.raw| && r.value.nums == st.nums
  {
    var s := StringAt(st.raw, pos);
    if s == -1 then Ok(st)
    else if st.raw[s] > |env.strIds| then Fault
    else Ok(st.(raw := st.raw[s := env.strIds[st.raw[s] - 1]]))
  }

  /** ffs_do_descs over k descriptors with __ffs_func_bind_do_nums as its callback. */
  function RunNums(env: Env, st: NumSt, k: nat): (r: Outcome<Walked<NumSt>>)
    ensures r.Ok? ==> |r.value.st.raw| == |st.raw| && |r.value.st.nums| == |st.nums|
  {
    if k == 0 then Ok(Walked(st, 0))
    else
      match RunNums(env, st, k - 1)
      case Err(e) => Err(e)
      case Fault => Fault
      case Ok(w) =>
        if w.pos > |w.st.raw| || !DescOk(w.st.raw, w.pos) then Err(EINVAL)
        else
          var length := w.st.raw[w.pos];
          match StepIntf(env, w.st, w.pos)
          case Err(e) => Err(e)
          case Fault => Fault
          case Ok(st1) =>
            match StepStr(env, st1, w.pos)
            case Err(e) => Err(e)
            case Fault => Fault
            case Ok(st2) => Ok(Walked(st2, w.pos + length))
  }
}
