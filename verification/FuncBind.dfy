/**
 ffs_function: the copied descriptors, the endpoint and number tables, and the
 methods that fill them in at bind time and read them at run time. Each method is
 proved against its function in BindModel, OsBind or NumberMaps.
 */
module FuncBind {
  import opened Bytes
  import opened DescWalk
  import opened OsDescs
  import opened DescParser
  import opened BindModel
  import opened BindChunk
  import opened BindDescsProof
  import opened BindNumsProof
  import opened OsBind
  import opened HostReport
  import opened BindMessage
  import opened DescCodec
  import opened BindTheorem
  import opened NumberMaps

  lemma RunDescsStuck(env: Env, addrmap: seq<byte>, speed: nat, st: BindSt, start: nat, i: nat, k: nat)
    requires |addrmap| == MAX_EPS_COUNT && speed < 3 && StOk(st) && i <= k
    requires !RunDescs(env, addrmap, speed, st, start, i).Ok?
    ensures match RunDescs(env, addrmap, speed, st, start, i)
      case Err(e) => RunDescs(env, addrmap, speed, st, start, k) == Err(e)
      case Fault => RunDescs(env, addrmap, speed, st, start, k) == Fault
      case Ok(_) => false
    decreases k
  {
    hide StepDesc;
    if i < k {
      RunDescsStuck(env, addrmap, speed, st, start, i, k - 1);
    }
  }

  /** The state after one more descriptor of a speed, or the error that stops the walk there. */
  function DescNext(env: Env, addrmap: seq<byte>, speed: nat, st: BindSt, pos: nat): (r: Outcome<Walked<BindSt>>)
    requires |addrmap| == MAX_EPS_COUNT && speed < 3 && StOk(st)
    ensures r.Ok? ==> StOk(r.value.st) && r.value.pos >= pos
  {
    match StepDesc(env, addrmap, speed, st, pos)
    case Err(e) => Err(e)
    case Fault => Fault
    case Ok(st1) =>
      if pos > |st1.raw| || !DescOk(st1.raw, pos) then Err(EINVAL) else Ok(Walked(st1, pos + st1.raw[pos]))
  }

  /** The walk is at its i-th descriptor, in state st and at pos, and list holds where it has been. */
  ghost predicate Walking(env: Env, addrmap: seq<byte>, speed: nat, st0: BindSt, start: nat, i: nat,
                          st: BindSt, pos: nat, list: seq<Option<nat>>)
    requires |addrmap| == MAX_EPS_COUNT && speed < 3 && StOk(st0)
  {
    && RunDescs(env, addrmap, speed, st0, start, i) == Ok(Walked(st, pos))
    && VisitedOffsets(env, addrmap, speed, st0, start, i, list)
  }

  /** One turn of the loop: it decides the whole walk, or the walk goes on. */
  lemma RunDescsTurn(env: Env, addrmap: seq<byte>, speed: nat, st0: BindSt, start: nat, i: nat, count: nat,
                     st: BindSt, pos: nat, list: seq<Option<nat>>)
    requires |addrmap| == MAX_EPS_COUNT && speed < 3 && StOk(st0) && StOk(st) && i < count
    requires |list| == ListRoom(count) && Walking(env, addrmap, speed, st0, start, i, st, pos, list)
    ensures i >= |list| ==> RunListed(env, addrmap, speed, st0, start, count) == Fault
    ensures i < |list| ==>
      match DescNext(env, addrmap, speed, st, pos)
      case Err(e) => RunListed(env, addrmap, speed, st0, start, count) == Err(e)
      case Fault => RunListed(env, addrmap, speed, st0, start, count) == Fault
      case Ok(w) => Walking(env, addrmap, speed, st0, start, i + 1, w.st, w.pos, list[i := Some(pos)])
  {
    hide StepDesc, DescOk, ListRoom;
    if i < |list| {
      var n := i + 1;
      assert RunDescs(env, addrmap, speed, st0, start, n) == DescNext(env, addrmap, speed, st, pos);
      if !RunDescs(env, addrmap, speed, st0, start, n).Ok? {
        RunDescsStuck(env, addrmap, speed, st0, start, n, if count < |list| then count else |list|);
      }
    }
  }

  lemma WalkingBegins(env: Env, addrmap: seq<byte>, speed: nat, st: BindSt, start: nat, list: seq<Option<nat>>)
    requires |addrmap| == MAX_EPS_COUNT && speed < 3 && StOk(st) && forall i :: 0 <= i < |list| ==> list[i] == None
    ensures Walking(env, addrmap, speed, st, start, 0, st, start, list)
  {
  }

  /** After the last descriptor the NULL is stored, for which there is an entry or not. */
  lemma WalkingDone(env: Env, addrmap: seq<byte>, speed: nat, st0: BindSt, start: nat, count: nat,
                    st: BindSt, pos: nat, list: seq<Option<nat>>)
    requires |addrmap| == MAX_EPS_COUNT && speed < 3 && StOk(st0)
    requires |list| == ListRoom(count) && Walking(env, addrmap, speed, st0, start, count, st, pos, list)
    ensures count >= |list| ==> RunListed(env, addrmap, speed, st0, start, count) == Fault
    ensures count < |list| ==>
              && RunListed(env, addrmap, speed, st0, start, count) == Ok(Walked(st, pos))
              && VisitedOffsets(env, addrmap, speed, st0, start, count, list)
              && list[count := None] == list
  {
    hide RunDescs, ListRoom;
  }

  lemma RunNumsStuck(env: Env, st: NumSt, i: nat, k: nat)
    requires i <= k && !RunNums(env, st, i).Ok?
    ensures match RunNums(env, st, i)
      case Err(e) => RunNums(env, st, k) == Err(e)
      case Fault => RunNums(env, st, k) == Fault
      case Ok(_) => false
    decreases k
  {
    hide StepIntf, StepStr;
    if i < k {
      RunNumsStuck(env, st, i, k - 1);
    }
  }

  class FfsFunction {
    const ffs: FfsData
    var raw: array<byte>          // the copy of raw_descs in the bind allocation
    var eps: array<FfsEp>
    const revmap: array<nat>      // eps_revmap
    var nums: array<int>          // interfaces_nums
    var used: nat                 // endpoints asked of the gadget in this bind
    // fs_descriptors, hs_descriptors, ss_descriptors, empty while NULL; the descriptors as offsets into raw
    var lists: seq<seq<Option<nat>>>
    var os: OsSt                  // os_desc_table, and the regions it points into with their cursors

    /** ffs_alloc: a zeroed function. */
    constructor (ffs: FfsData)
      ensures this.ffs == ffs && Tables() && lists == [[], [], []]
      ensures revmap[..] == NO_NUMBERS
      ensures fresh(revmap) && fresh(raw) && fresh(eps) && fresh(nums)
    {
      this.ffs := ffs;
      raw, eps, nums := new byte[0], new FfsEp[0](i => FfsEp(None, [])), new int[0];
      revmap := new nat[ENDPOINT_NUMBERS](i => 0);
      used, lists, os := 0, [[], [], []], OsStart(0, OsSizes(0, 0, 0));
    }

    ghost predicate Tables()
      reads this
    {
      && revmap.Length == ENDPOINT_NUMBERS
      && |lists| == 3
      && raw != ffs.addrmap
    }

    ghost function St(): BindSt
      reads this, raw, eps, revmap
    {
      BindSt(raw[..], eps[..], revmap[..], used)
    }

    ghost function NumsSt(): NumSt
      reads this, raw, nums
    {
      NumSt(raw[..], nums[..])
    }

    /** ffs_ep_addr2idx, 0 standing for -ENOENT. */
    method EpAddrToIdx(address: byte) returns (idx: nat)
      requires ffs.addrmap.Length == MAX_EPS_COUNT
      ensures idx == AddrIndex(ffs.addrmap[..], address, 1)
    {
      idx := 1;
      while idx < MAX_EPS_COUNT
        invariant 1 <= idx <= MAX_EPS_COUNT
        invariant AddrIndex(ffs.addrmap[..], address, 1) == AddrIndex(ffs.addrmap[..], address, idx)
      {
        if ffs.addrmap[idx] == address {
          return;
        }
        idx := idx + 1;
      }
      idx := 0;
    }

    /** The address, and if need be the packet size, of the full-speed descriptor at d0. */
    method CopyAddress(pos: nat, d0: nat)
      requires pos + 6 <= raw.Length && d0 + 6 <= raw.Length
      modifies raw
      ensures raw[..] == CopyFrom(old(raw[..]), pos, d0)
    {
      raw[pos + 2] := raw[d0 + 2];
      if raw[pos + 4] == 0 && raw[pos + 5] == 0 {
        raw[pos + 4], raw[pos + 5] := raw[d0 + 4], raw[d0 + 5];
      }
    }

    /** usb_ep_autoconfig writes the descriptor; a virtual address is then put back. */
    method Autoconfig(pos: nat, a: Auto, virtual: bool)
      requires pos + 6 <= raw.Length && a.Granted?
      modifies raw
      ensures raw[..] == Configure(old(raw[..]), pos, a, virtual)
    {
      var address := raw[pos + 2];
      raw[pos + 2], raw[pos + 4], raw[pos + 5] := a.address, a.size0, a.size1;
      if virtual {
        raw[pos + 2] := address;
      }
    }

    /** __ffs_func_bind_do_descs on the num-th descriptor of the given speed, at pos. */
    method BindDoDescs(env: Env, speed: nat, num: nat, pos: nat) returns (r: Outcome<()>)
      requires Tables() && ffs.addrmap.Length == MAX_EPS_COUNT && speed < 3 && StOk(St())
      modifies raw, eps, revmap, this`used, this`lists
      ensures num >= |old(lists)[speed]| ==> r == Fault && lists == old(lists)
      ensures num < |old(lists)[speed]| ==>
                && lists == old(lists)[speed := old(lists)[speed][num := Some(pos)]]
                && match StepDesc(env, ffs.addrmap[..], speed, old(St()), pos)
                   case Ok(st) => r == Ok(()) && St() == st
                   case Err(e) => r == Err(e)
                   case Fault => r == Fault
    {
      if num >= |lists[speed]| {
        return Fault;
      }
      lists := lists[speed := lists[speed][num := Some(pos)]];
      if pos + 2 > raw.Length {
        return Fault;
      }
      if raw[pos + 1] != DT_ENDPOINT {
        return Ok(());
      }
      if pos + 6 > raw.Length {
        return Fault;
      }
      var idx := EpAddrToIdx(raw[pos + 2]);
      if idx == 0 {
        return Err(Other(-3));   // -ENOENT - 1
      }
      if idx > eps.Length {
        return Fault;
      }
      r := BindEndpoint(env, speed, pos, idx);
    }

    /** Its second half: endpoint idx has been found, and is bound or given the full-speed address. */
    method BindEndpoint(env: Env, speed: nat, pos: nat, idx: nat) returns (r: Outcome<()>)
      requires Tables() && ffs.addrmap.Length == MAX_EPS_COUNT && speed < 3 && StOk(St())
      requires pos + 6 <= raw.Length && raw[pos + 1] == DT_ENDPOINT
      requires idx == AddrIndex(ffs.addrmap[..], raw[pos + 2], 1) && 1 <= idx <= eps.Length
      modifies raw, eps, revmap, this`used
      ensures match StepDesc(env, ffs.addrmap[..], speed, old(St()), pos)
        case Ok(st) => r == Ok(()) && St() == st
        case Err(e) => r == Err(e)
        case Fault => r == Fault
    {
      hide AddrIndex, CopyFrom, Configure;
      var e := eps[idx - 1];
      assert e in eps[..];
      if e.descs[speed].Some? {
        return Err(EINVAL);
      }
      e := e.(descs := e.descs[speed := Some(pos)]);
      if e.ep.Some? {
        if e.descs[0].None? || e.descs[0].value + 6 > raw.Length {
          return Fault;
        }
        eps[idx - 1] := e;
        CopyAddress(pos, e.descs[0].value);
        assert eps[..] == old(eps[..])[idx - 1 := e];
      } else {
        if used >= |env.auto| || env.auto[used].NoEndpoint? {
          return Err(ENOTSUPP);
        }
        if env.auto[used].NoRequest? {
          return Err(ENOMEM);
        }
        var a := env.auto[used];
        var number := a.address % ENDPOINT_NUMBERS;
        eps[idx - 1] := e.(ep := Some(number as nat));
        assert eps[..] == old(eps[..])[idx - 1 := e.(ep := Some(number as nat))];
        revmap[number] := idx;
        assert revmap[..] == old(revmap[..])[number as int := idx];
        used := used + 1;
        Autoconfig(pos, a, env.virtual);
      }
      r := Ok(());
    }

    /** One descriptor of that walk: the callback, then the framing checks; returns where the next one starts. */
    method NextDesc(env: Env, speed: nat, num: nat, pos: nat) returns (r: Outcome<nat>)
      requires Tables() && ffs.addrmap.Length == MAX_EPS_COUNT && speed < 3 && StOk(St())
      modifies raw, eps, revmap, this`used, this`lists
      ensures num >= |old(lists)[speed]| ==> r == Fault && lists == old(lists)
      ensures num < |old(lists)[speed]| ==>
                && lists == old(lists)[speed := old(lists)[speed][num := Some(pos)]]
                && match DescNext(env, ffs.addrmap[..], speed, old(St()), pos)
                   case Ok(w) => r == Ok(w.pos) && St() == w.st
                   case Err(e) => r == Err(e)
                   case Fault => r == Fault
    {
      hide StepDesc, DescOk;
      var step := BindDoDescs(env, speed, num, pos);
      if !step.Ok? {
        return if step.Fault? then Fault else Err(step.errno);
      }
      if pos > raw.Length || !DescOk(raw[..], pos) {
        return Err(EINVAL);
      }
      DescFits(raw[..], pos);
      r := Ok(pos + raw[pos]);
    }

    /**
     ffs_do_descs over one speed with __ffs_func_bind_do_descs as its callback; returns
     the bytes consumed, and the list holds where every descriptor was met, then NULL.
     */
    method DoDescs(env: Env, speed: nat, start: nat, count: nat) returns (r: Outcome<nat>)
      requires Tables() && ffs.addrmap.Length == MAX_EPS_COUNT && speed < 3 && StOk(St())
      requires |lists[speed]| == ListRoom(count) && forall i :: 0 <= i < |lists[speed]| ==> lists[speed][i] == None
      modifies raw, eps, revmap, this`used, this`lists
      ensures match RunListed(env, ffs.addrmap[..], speed, old(St()), start, count)
        case Ok(w) => r.Ok? && start + r.value == w.pos && St() == w.st
        case Err(e) => r == Err(e)
        case Fault => r == Fault
      ensures |lists| == 3 && |lists[speed]| == ListRoom(count)
      ensures r.Ok? ==> VisitedOffsets(env, ffs.addrmap[..], speed, old(St()), start, count, lists[speed])
      ensures r.Ok? ==> count < ListRoom(count)
      ensures forall s :: 0 <= s < 3 && s != speed ==> lists[s] == old(lists)[s]
    {
      ghost var st0, addrs := St(), ffs.addrmap[..];
      r := Ok(start);
      var num := 0;
      hide RunDescs, RunListed, VisitedOffsets, Walking, DescNext, StOk, ListRoom;
      WalkingBegins(env, addrs, speed, st0, start, lists[speed]);
      while num < count
        invariant num <= count && |lists| == 3 && r.Ok? && r.value >= start
        invariant StOk(St()) && Tables() && ffs.addrmap[..] == addrs && |lists[speed]| == ListRoom(count)
        invariant Walking(env, addrs, speed, st0, start, num, St(), r.value, lists[speed])
        invariant lists == old(lists)[speed := lists[speed]]
      {
        RunDescsTurn(env, addrs, speed, st0, start, num, count, St(), r.value, lists[speed]);
        r := NextDesc(env, speed, num, r.value);
        if !r.Ok? {
          return;
        }
        num := num + 1;
      }
      WalkingDone(env, addrs, speed, st0, start, num, St(), r.value, lists[speed]);
      if num >= |lists[speed]| {
        return Fault;
      }
      lists := lists[speed := lists[speed][num := None]];
      r := Ok(r.value - start);
    }

    /** __ffs_func_bind_do_nums on both numbers of the descriptor at pos; strings are looked up in the first table. */
    method BindDoNums(env: Env, pos: nat) returns (r: Outcome<()>)
      requires Tables() && pos <= raw.Length && DescOk(raw[..], pos)
      modifies raw, nums
      ensures match StepBoth(env, old(NumsSt()), pos)
        case Ok(st) => r == Ok(()) && NumsSt() == st
        case Err(e) => r == Err(e)
        case Fault => r == Fault
      ensures r.Ok? ==> forall d :: Canonical(d) && Holds(old(raw[..]), pos, d) ==>
                          exists e :: Holds(raw[..], pos, e) && Renumbered(env, nums[..], d, e)
    {
      hide Holds, Canonical, Renumbered;
      ghost var was := NumsSt();
      if raw[pos + 1] == DT_INTERFACE {
        var idx := raw[pos + 2];
        if idx >= nums.Length {
          return Fault;
        }
        if nums[idx] < 0 {
          if idx >= |env.ids| {
            return Err(ENODEV);
          }
          var id := env.ids[idx];
          if id < 0 {
            return Err(Other(id));
          }
          nums[idx] := id;
          assert nums[..] == old(nums[..])[idx as int := id];
        }
        raw[pos + 2] := (nums[idx] % 0x100) as byte;
        assert raw[..] == old(raw[..])[pos + 2 := (nums[idx] % 0x100) as byte];
      }
      assert DescOk(raw[..], pos);
      var s := StringAt(raw[..], pos);
      if s != -1 {
        if raw[s] > |env.strIds| {
          return Fault;
        }
        ghost var before := raw[..];
        raw[s] := env.strIds[raw[s] - 1];
        assert raw[..] == before[s := env.strIds[before[s] - 1]];
      }
      assert StepBoth(env, was, pos) == Ok(NumsSt());
      FieldsRenumbered(env, was, pos);
      r := Ok(());
    }

    /** One descriptor of that walk: the framing checks, then the callback; returns where the next one starts. */
    method NextNums(env: Env, pos: nat) returns (r: Outcome<nat>)
      requires Tables()
      modifies raw, nums
      ensures match NumsNext(env, old(NumsSt()), pos)
        case Ok(w) => r == Ok(w.pos) && NumsSt() == w.st
        case Err(e) => r == Err(e)
        case Fault => r == Fault
    {
      if pos > raw.Length || !DescOk(raw[..], pos) {
        return Err(EINVAL);
      }
      DescFits(raw[..], pos);
      hide DescOk, StepBoth;
      var length := raw[pos];
      var step := BindDoNums(env, pos);
      if !step.Ok? {
        return if step.Fault? then Fault else Err(step.errno);
      }
      r := Ok(pos + length);
    }

    /** ffs_do_descs over all descriptors with __ffs_func_bind_do_nums as its callback; returns the bytes consumed. */
    method DoAllNums(env: Env, count: nat) returns (r: Outcome<nat>)
      requires Tables()
      modifies raw, nums
      ensures match RunNums(env, old(NumsSt()), count)
        case Ok(w) => r == Ok(w.pos) && NumsSt() == w.st
        case Err(e) => r == Err(e)
        case Fault => r == Fault
    {
      ghost var st0 := NumsSt();
      r := Ok(0);
      var num := 0;
      hide NumsNext, RunNums;
      NumsNone(env, st0);
      while num < count
        invariant num <= count && r.Ok?
        invariant RunNums(env, st0, num) == Ok(Walked(NumsSt(), r.value))
      {
        RunNumsTurn(env, st0, num, count, NumsSt(), r.value);
        r := NextNums(env, r.value);
        if !r.Ok? {
          return;
        }
        num := num + 1;
      }
    }

    /** The table entry's id, the next slot with its type and lengths, and both cursors; false stands for a fault. */
    method NextSlot(i: byte, kind: nat, n: nat, d: nat) returns (ok: bool)
      modifies this`os
      ensures raw[..] == old(raw[..]) && nums[..] == old(nums[..])
      ensures match TakeSlot(nums[..], old(os), i, kind, n, d)
        case Ok(st) => ok && os == st
        case Err(_) => false
        case Fault => !ok
    {
      if i >= |os.table| || i >= nums.Length || os.used >= |os.props| {
        return false;
      }
      os := os.(table := os.table[i as int := os.table[i].(ifId := nums[i])]);
      var prop := os.props[os.used].(kind := kind, nameLen := n, dataLen := d);
      os := os.(props := os.props[os.used := prop], used := os.used + 1);
      os := os.(nameUsed := os.nameUsed + n, dataUsed := os.dataUsed + d);
      ok := true;
    }

    /** The property case of __ffs_func_bind_do_os_desc: carve the next slot of each region and fill it. */
    method BindProp(zeroRet: nat, p: Prop) returns (r: Outcome<nat>)
      modifies this`os
      ensures raw[..] == old(raw[..]) && nums[..] == old(nums[..])
      ensures match FileProp(nums[..], zeroRet, old(os), p)
        case Ok(s) => r == Ok(s.1) && os == s.0
        case Err(e) => r == Err(e)
        case Fault => r == Fault
      ensures r.Ok? && (zeroRet == 0 || (p.name != [] && p.data != [])) ==> SlotReports(old(os), os, p)
    {
      if FileProp(nums[..], zeroRet, os, p).Ok? && (zeroRet == 0 || (p.name != [] && p.data != [])) {
        PropSent(nums[..], zeroRet, os, p);
      }
      hide SlotReports;
      var i, n, d, slot, nameOff, dataOff := p.intf, |p.name|, |p.data|, os.used, os.nameUsed, os.dataUsed;
      var ok := NextSlot(i, p.kind, n, d);
      if !ok {
        return Fault;
      }
      if d == 0 && zeroRet != 0 {
        return Ok(zeroRet);
      }
      if dataOff + d > |os.datas| {
        return Fault;
      }
      var prop := os.props[slot].(data := Some(dataOff), dataLen := ReportedData(p.kind, d));
      os := os.(datas := Put(os.datas, dataOff, p.data), props := os.props[slot := prop]);
      if n == 0 && zeroRet != 0 {
        return Ok(zeroRet);
      }
      if nameOff + n > |os.names| {
        return Fault;
      }
      prop := prop.(name := Some(nameOff), nameLen := 2 * n);
      os := os.(names := Put(os.names, nameOff, p.name), props := os.props[slot := prop]);
      var e := os.table[i];
      os := os.(table := os.table[i as int := e.(propLen := e.propLen + prop.nameLen + prop.dataLen + PROP_FIXED,
                                                 filed := e.filed + [slot])]);
      r := Ok((n + d + PROP_FIXED) % 0x100);
    }

    /** __ffs_func_bind_do_os_desc on the record at pos of the feature at h. */
    method BindDoOsDesc(zeroRet: nat, h: nat, pos: nat) returns (r: Outcome<nat>)
      requires h + HEADER_SIZE <= raw.Length
      modifies this`os
      ensures raw[..] == old(raw[..]) && nums[..] == old(nums[..])
      ensures match StepOs(raw[..], nums[..], zeroRet, h, old(os), pos)
        case Ok(s) => r == Ok(s.1) && os == s.0
        case Err(e) => r == Err(e)
        case Fault => r == Fault
    {
      hide FileProp;
      if IsCompat(raw[..], h) {
        if pos + COMPAT_SIZE > raw.Length || raw[pos] >= |os.table| || raw[pos] >= nums.Length {
          return Fault;
        }
        var i := raw[pos];
        os := os.(table := os.table[i as int := os.table[i].(ifId := nums[i], compatId := raw[pos + 2..pos + 18])]);
        return Ok(COMPAT_SIZE);
      }
      if pos + PROP_FIXED > raw.Length || pos + PROP_FIXED + NameLength(raw[..], pos) > raw.Length {
        return Fault;
      }
      var n, d := NameLength(raw[..], pos), DataLength(raw[..], pos);
      if d > COPY_MAX {
        var ok := NextSlot(raw[h], Le32(raw[..], pos + 4), n, d);
        return if ok then Ok(ERANGE) else Fault;
      }
      if pos + PROP_FIXED + n + d > raw.Length {
        return Fault;
      }
      r := BindProp(zeroRet, Prop(raw[h], Le32(raw[..], pos + 4), raw[pos + 10..pos + 10 + n],
                                  raw[pos + 14 + n..pos + 14 + n + d]));
    }

    /** One record of that feature; returns where the next one starts. */
    method NextRecord(zeroRet: nat, h: nat, pos: nat) returns (r: Outcome<nat>)
      requires h + HEADER_SIZE <= raw.Length
      modifies this`os
      ensures raw[..] == old(raw[..]) && nums[..] == old(nums[..])
      ensures match RecordNext(raw[..], nums[..], zeroRet, h, old(os), pos)
        case Ok(w) => r == Ok(w.pos) && os == w.st
        case Err(e) => r == Err(e)
        case Fault => r == Fault
    {
      hide StepOs;
      r := BindDoOsDesc(zeroRet, h, pos);
      r := if r.Ok? then Ok(pos + r.value) else r;
    }

    /** ffs_do_single_os_desc with that callback; returns where the next feature starts. */
    method BindRecords(zeroRet: nat, h: nat, count: nat) returns (r: Outcome<nat>)
      requires h + HEADER_SIZE <= raw.Length
      modifies this`os
      ensures raw[..] == old(raw[..]) && nums[..] == old(nums[..])
      ensures match RunRecords(raw[..], nums[..], zeroRet, h, old(os), count)
        case Ok(w) => r == Ok(w.pos) && os == w.st
        case Err(e) => r == Err(e)
        case Fault => r == Fault
    {
      ghost var st0 := os;
      r := Ok(h + HEADER_SIZE);
      var j := 0;
      RecordsNone(raw[..], nums[..], zeroRet, h, st0);
      hide RecordNext, RunRecords;
      while j < count
        invariant j <= count && r.Ok?
        invariant RunRecords(raw[..], nums[..], zeroRet, h, st0, j) == Ok(OsWalked(os, r.value))
      {
        RecordsTurn(raw[..], nums[..], zeroRet, h, st0, j, count, os, r.value);
        r := NextRecord(zeroRet, h, r.value);
        if !r.Ok? {
          return;
        }
        j := j + 1;
      }
    }

    /** One feature of that section; returns where the next one starts. */
    method NextFeature(zeroRet: nat, pos: nat) returns (r: Outcome<nat>)
      modifies this`os
      ensures raw[..] == old(raw[..]) && nums[..] == old(nums[..])
      ensures match FeatureNext(raw[..], nums[..], zeroRet, old(os), pos)
        case Ok(w) => r == Ok(w.pos) && os == w.st
        case Err(e) => r == Err(e)
        case Fault => r == Fault
    {
      hide RunRecords, FeatureOk;
      if pos > raw.Length {
        return Fault;
      }
      if !FeatureOk(raw[..], pos) {
        return Err(EINVAL);
      }
      FeatureFits(raw[..], pos);
      r := BindRecords(zeroRet, pos, Le16(raw[..], pos + 9));
    }

    /** ffs_do_os_descs with that callback; returns where the section ends. */
    method BindFeatures(zeroRet: nat, start: nat, count: nat) returns (r: Outcome<nat>)
      modifies this`os
      ensures raw[..] == old(raw[..]) && nums[..] == old(nums[..])
      ensures match RunFeatures(raw[..], nums[..], zeroRet, old(os), start, count)
        case Ok(w) => r == Ok(w.pos) && os == w.st
        case Err(e) => r == Err(e)
        case Fault => r == Fault
    {
      ghost var st0, bytes, ids := os, raw[..], nums[..];
      r := Ok(start);
      var num: nat := 0;
      FeaturesNone(bytes, ids, zeroRet, st0, start);
      hide FeatureNext, RunFeatures;
      while num < count
        invariant num <= count && r.Ok? && raw[..] == bytes && nums[..] == ids
        invariant RunFeatures(bytes, ids, zeroRet, st0, start, num) == Ok(OsWalked(os, r.value))
      {
        FeaturesTurn(bytes, ids, zeroRet, st0, start, num, count, os, r.value);
        r := NextFeature(zeroRet, r.value);
        if !r.Ok? {
          return;
        }
        num := num + 1;
      }
    }

    /** One speed of _ffs_func_bind, from where the previous one stopped; a speed without descriptors is skipped. */
    method BindSpeed(env: Env, s: nat, start: nat) returns (r: Outcome<nat>)
      requires Tables() && ffs.addrmap.Length == MAX_EPS_COUNT && s < 3 && StOk(St()) && lists[s] == []
      modifies raw, eps, revmap, this`used, this`lists
      ensures match NextSpeed(env, ffs.addrmap[..], ffs.counts, s, old(St()), start)
        case Ok(w) => r == Ok(w.pos) && St() == w.st
        case Err(e) => r == Err(e)
        case Fault => r == Fault
      ensures |lists| == 3
      ensures r.Ok? ==> ListIs(env, ffs.addrmap[..], ffs.counts, s, old(St()), start, lists[s])
      ensures forall t :: 0 <= t < 3 && t != s ==> lists[t] == old(lists)[t]
    {
      hide RunListed, VisitedOffsets, StOk, ListRoom;
      r := Ok(0);
      if ffs.counts[s] != 0 {
        lists := lists[s := seq(ListRoom(ffs.counts[s]), i => None)];
        r := DoDescs(env, s, start, ffs.counts[s]);
        if r.Ok? {
          RoomLeft(ffs.counts[s]);
        }
      }
      r := if r.Ok? then Ok(start + r.value) else r;
    }

    /** The three speeds in turn. */
    method BindSpeeds(env: Env) returns (r: Outcome<nat>)
      requires Tables() && ffs.addrmap.Length == MAX_EPS_COUNT && StOk(St()) && lists == [[], [], []]
      modifies raw, eps, revmap, this`used, this`lists
      ensures match RunSpeeds(env, ffs.addrmap[..], old(St()), ffs.counts, 3)
        case Ok(w) => r == Ok(w.pos) && St() == w.st
        case Err(e) => r == Err(e)
        case Fault => r == Fault
      ensures |lists| == 3 && (r.Ok? ==> ListsAre(env, ffs.addrmap[..], ffs.counts, old(St()), lists))
    {
      hide RunSpeeds, NextSpeed, ListIs, StOk;
      ghost var st0, addrs := St(), ffs.addrmap[..];
      SpeedsTurn(env, addrs, ffs.counts, st0);
      r := BindSpeed(env, 0, 0);
      if r.Ok? {
        r := BindSpeed(env, 1, r.value);
        if r.Ok? {
          r := BindSpeed(env, 2, r.value);
        }
      }
    }

    /** What the chunk is to hold. */
    function Wanted(useOs: bool): Demand
      reads ffs
    {
      Demand(ffs.counts, ffs.epsCount, ffs.interfacesCount, OsSizes(ffs.propCount, ffs.propNameLen, ffs.propDataLen),
             |ffs.rawDescs|, useOs)
    }

    /** The zeroed chunk, the copy of the descriptors, and the interface numbers set to -1. */
    method Allocate(useOs: bool)
      requires Tables()
      modifies this
      ensures fresh(raw) && fresh(eps) && fresh(nums) && lists == old(lists) && Tables()
      ensures raw[..] == ffs.rawDescs && revmap[..] == old(revmap[..])
      ensures St() == StartOf(ffs.rawDescs, ffs.epsCount, old(revmap[..]))
      ensures nums[..] == NoNums(ffs.interfacesCount)
      ensures os == OsStart(if useOs then ffs.interfacesCount else 0, Wanted(useOs).sizes)
    {
      raw := new byte[|ffs.rawDescs|](i requires 0 <= i < |ffs.rawDescs| reads ffs => ffs.rawDescs[i]);
      nums := new int[ffs.interfacesCount](i => -1);
      eps := new FfsEp[ffs.epsCount](i => FfsEp(None, [None, None, None]));
      os := OsStart(if useOs then ffs.interfacesCount else 0, Wanted(useOs).sizes);
      used := 0;
      assert raw[..] == ffs.rawDescs;
    }

    /** _ffs_func_bind up to the fix-ups at its end, on any buffer: a zeroed chunk, filled in by the passes. */
    method BindPasses(env: Env, useOs: bool, zeroRet: nat) returns (r: Outcome<()>, ghost st: BindSt)
      requires Tables() && ffs.addrmap.Length == MAX_EPS_COUNT && lists == [[], [], []]
      modifies this, revmap
      ensures match BindAll(ffs.rawDescs, ffs.osCount, ffs.addrmap[..], env, Wanted(useOs), old(revmap[..]), zeroRet)
        case Ok(v) =>
          r == Ok(()) && raw[..] == v.raw && nums[..] == v.nums && st == v.st && (useOs ==> v.os == Some(os))
        case Err(e) => r == Err(e)
        case Fault => r == Fault
      ensures Tables() && (r.Ok? ==> eps[..] == st.eps && revmap[..] == st.revmap)
      ensures r.Ok? ==>
                ListsAre(env, ffs.addrmap[..], ffs.counts, StartOf(ffs.rawDescs, ffs.epsCount, old(revmap[..])), lists)
    {
      hide ChunkSize, RunPasses, ListsAre, StartOf, OsStart, NoNums, StOk;
      st := StartOf(ffs.rawDescs, ffs.epsCount, revmap[..]);
      if ffs.counts == [0, 0, 0] {
        return Err(ENOTSUPP), st;
      }
      if ChunkSize(env.kernel, Wanted(useOs)) > env.kernel.memory {
        return Err(ENOMEM), st;
      }
      Allocate(useOs);
      if ffs.interfacesCount == 0 && zeroRet != 0 {
        return Err(Other(zeroRet)), st;
      }
      r, st := FillIn(env, Wanted(useOs), zeroRet);
    }

    /** The passes over the fresh chunk. */
    method FillIn(env: Env, d: Demand, zeroRet: nat) returns (r: Outcome<()>, ghost st: BindSt)
      requires Tables() && ffs.addrmap.Length == MAX_EPS_COUNT && lists == [[], [], []] && d.counts == ffs.counts
      requires raw[..] == ffs.rawDescs && St() == StartOf(ffs.rawDescs, d.endpoints, revmap[..])
      requires nums[..] == NoNums(d.interfaces) && (d.useOs ==> os == OsStart(d.interfaces, d.sizes))
      modifies raw, eps, nums, revmap, this`used, this`lists, this`os
      ensures match RunPasses(ffs.rawDescs, ffs.osCount, ffs.addrmap[..], env, d, old(revmap[..]), zeroRet)
        case Ok(v) =>
          r == Ok(()) && raw[..] == v.raw && nums[..] == v.nums && st == v.st && (d.useOs ==> v.os == Some(os))
        case Err(e) => r == Err(e)
        case Fault => r == Fault
      ensures Tables() && (r.Ok? ==> eps[..] == st.eps && revmap[..] == st.revmap)
      ensures r.Ok? ==>
                ListsAre(env, ffs.addrmap[..], ffs.counts, StartOf(ffs.rawDescs, d.endpoints, old(revmap[..])), lists)
    {
      hide RunSpeeds, RunNums, RunFeatures, ListsAre, OsStart, NoNums, StartOf, StOk;
      st := St();
      var walked := BindSpeeds(env);
      if !walked.Ok? {
        return if walked.Fault? then Fault else Err(walked.errno), st;
      }
      st := St();
      r := BindNumbers(env, d.useOs, zeroRet, walked.value);
    }

    /** The rest of it: the numbers, then the OS descriptors from where the speeds ended. */
    method BindNumbers(env: Env, useOs: bool, zeroRet: nat, end: nat) returns (r: Outcome<()>)
      requires Tables()
      modifies raw, nums, this`os
      ensures match RunNums(env, old(NumsSt()), SumOf(ffs.counts))
        case Err(e) => r == Err(e)
        case Fault => r == Fault
        case Ok(v) =>
          if !useOs then r == Ok(()) && NumsSt() == v.st
          else
            match RunFeatures(v.st.raw, v.st.nums, zeroRet, old(os), end, ffs.osCount)
            case Err(e) => r == Err(e)
            case Fault => r == Fault
            case Ok(o) => r == Ok(()) && NumsSt() == v.st && os == o.st
    {
      hide RunNums, RunFeatures;
      var numbered := DoAllNums(env, SumOf(ffs.counts));
      if !numbered.Ok? {
        return if numbered.Fault? then Fault else Err(numbered.errno);
      }
      if useOs {
        var filed := BindFeatures(zeroRet, end, ffs.osCount);
        if !filed.Ok? {
          return if filed.Fault? then Fault else Err(filed.errno);
        }
      }
      r := Ok(());
    }

    /** What is to be bound: the validated descriptors and the gadget's answers. */
    ghost function BindingOf(env: Env, was: NumberMap): Binding
      reads ffs, ffs.addrmap
      requires ffs.Ready()
    {
      var eps := Declared(ffs.rawDescs, ffs.counts, 3).eps;
      Binding(ffs.rawDescs, ffs.counts, ffs.osCount, ffs.addrmap[..], env, eps, Assigned(env, eps), was)
    }

    /** What the OS section of the accepted descriptors holds. */
    ghost function OsSection(): Found
      reads ffs, ffs.addrmap
      requires ffs.Ready()
    {
      OsFound(ffs.rawDescs, ffs.counts, ffs.osCount).value
    }

    /**
     _ffs_func_bind up to its fix-ups, on descriptors GotDescs accepted. If the copies into
     the OS regions succeed, it faults exactly when a list has wrapped or a higher speed
     describes endpoints that full speed does not; it succeeds exactly when that is not so
     and there is room, something to bind and everything asked for. Success leaves the
     lists with the offsets validation found, the bytes and tables of the theorem, and the
     OS tables filled in if and only if no copy was refused; the host is then told what the
     section says.
     */
    method Bind(env: Env, useOs: bool, zeroRet: nat) returns (r: Outcome<()>)
      requires ffs.Ready() && Tables() && lists == [[], [], []]
      requires EnvOk(env, ffs.epsCount, ffs.interfacesCount, ffs.stringsCount)
      modifies this, revmap
      ensures ffs.Ready() && Tables() && BindingOf(env, old(revmap[..])) == old(BindingOf(env, revmap[..]))
      ensures var b := BindingOf(env, old(revmap[..]));
        var started := Started(b, Wanted(useOs).sizes, useOs, zeroRet);
        var granted := started && !SpeedsFault(b) && AllGranted(b);
        var copied := useOs ==> CopiesSucceed(OsSection().props, zeroRet);
        && (started && SpeedsFault(b) ==> r.Fault?)
        && (copied ==> (r.Fault? <==> started && SpeedsFault(b)))
        && (copied ==> (r.Ok? <==> granted))
        && (r.Ok? ==> granted)
      ensures r.Ok? ==> ListsFound(BindingOf(env, old(revmap[..])), lists)
      ensures r.Ok? ==> TablesBound(BindingOf(env, old(revmap[..])), raw[..], eps[..], revmap[..], nums[..])
      ensures var b := BindingOf(env, old(revmap[..]));
        r.Ok? ==> forall d :: Brings(b, d) ==> EncodesRebound(b, raw[..], d)
      ensures r.Ok? && useOs ==>
                (Files(os, OsSection(), OsSection().props, nums[..]) <==> CopiesSucceed(OsSection().props, zeroRet))
      ensures r.Ok? && useOs && CopiesSucceed(OsSection().props, zeroRet) ==> Reported(os, OsSection().props)
    {
      hide RunSpeeds, ListsAre, StartOf, StOk, BindAll, Files, CopiesSucceed, Reported, EnvOk, Started, SpeedsFault,
        AllGranted, Brings, EncodesRebound;
      ghost var b := BindingOf(env, revmap[..]);
      ghost var st;
      Concluded(b, OsSection(), Wanted(useOs).sizes, useOs, zeroRet);
      r, st := BindPasses(env, useOs, zeroRet);
    }

    /**
     ffs_func_unbind, for what binding has set: the chunk is gone and its pointers are NULL.
     eps_revmap is left alone.
     */
    method Unbind()
      requires Tables()
      modifies this
      ensures Tables() && lists == [[], [], []] && eps[..] == [] && nums[..] == [] && fresh(eps) && fresh(nums)
      ensures revmap[..] == old(revmap[..])
    {
      eps, nums, lists := new FfsEp[0](i => FfsEp(None, [])), new int[0], [[], [], []];
    }

    /** ffs_func_revmap_intf: the first user interface with that number. */
    method FindInterface(intf: nat) returns (r: Outcome<nat>)
      ensures r == RevmapIntf(nums[..], intf)
    {
      var i := 0;
      while i < nums.Length
        invariant i <= nums.Length
        invariant forall j :: 0 <= j < i ==> nums[j] != intf
      {
        if nums[i] >= 0 && nums[i] == intf {
          return Ok(i);
        }
        i := i + 1;
      }
      r := Err(EDOM);
    }

    /** The part of ffs_func_setup that translates wIndex; what it returns is put in the queued packet. */
    method TranslateIndex(requestType: byte, wIndex: nat) returns (r: Outcome<nat>)
      requires Tables() && ffs.addrmap.Length == MAX_EPS_COUNT
      ensures r == SetupIndex(ffs.userFlags, ffs.addrmap[..], nums[..], revmap[..], requestType, wIndex)
    {
      var recipient := requestType as int % RECIP_MASK;
      if recipient == RECIP_INTERFACE {
        r := FindInterface(wIndex % 0x100);
      } else if recipient == RECIP_ENDPOINT {
        r := RevmapEp(revmap[..], wIndex % 0x100);
        if r.Ok? && Has(ffs.userFlags, VIRTUAL_ADDR) {
          r := if r.value >= ffs.addrmap.Length then Fault else Ok(ffs.addrmap[r.value] as nat);
        }
      } else if Has(ffs.userFlags, ALL_CTRL_RECIP) {
        r := Ok(wIndex);
      } else {
        r := Err(EOPNOTSUPP);
      }
    }
  }

  /** What one speed does to the walk over all of them. */
  function NextSpeed(env: Env, addrmap: seq<byte>, counts: Counts, s: nat, st: BindSt,
                     start: nat): (r: Outcome<Walked<BindSt>>)
    requires |addrmap| == MAX_EPS_COUNT && s < 3 && StOk(st)
    ensures r.Ok? ==> StOk(r.value.st)
  {
    if counts[s] == 0 then Ok(Walked(st, start)) else RunListed(env, addrmap, s, st, start, counts[s])
  }

  /** The list kept for one speed. */
  ghost predicate ListIs(env: Env, addrmap: seq<byte>, counts: Counts, s: nat, st: BindSt, start: nat,
                         list: seq<Option<nat>>)
    requires |addrmap| == MAX_EPS_COUNT && s < 3 && StOk(st)
  {
    if counts[s] == 0 then list == []
    else |list| == counts[s] + 1 && VisitedOffsets(env, addrmap, s, st, start, counts[s], list)
  }

  lemma RoomLeft(count: nat)
    requires count < ListRoom(count)
    ensures ListRoom(count) == count + 1
  {
  }

  /** The lists kept for all three. */
  ghost predicate ListsAre(env: Env, addrmap: seq<byte>, counts: Counts, st0: BindSt, lists: seq<seq<Option<nat>>>)
    requires |addrmap| == MAX_EPS_COUNT && StOk(st0)
  {
    && |lists| == 3
    && forall s :: 0 <= s < 3 ==>
         var w := RunSpeeds(env, addrmap, st0, counts, s);
         w.Ok? && ListIs(env, addrmap, counts, s, w.value.st, w.value.pos, lists[s])
  }

  lemma SpeedsTurn(env: Env, addrmap: seq<byte>, counts: Counts, st0: BindSt)
    requires |addrmap| == MAX_EPS_COUNT && StOk(st0)
    ensures RunSpeeds(env, addrmap, st0, counts, 0) == Ok(Walked(st0, 0))
    ensures forall s {:trigger RunSpeeds(env, addrmap, st0, counts, s)} :: 0 <= s < 3 ==>
      var n := s + 1;
      RunSpeeds(env, addrmap, st0, counts, n) ==
      match RunSpeeds(env, addrmap, st0, counts, s)
      case Ok(w) => NextSpeed(env, addrmap, counts, s, w.st, w.pos)
      case Err(e) => Err(e)
      case Fault => Fault
  {
    hide RunListed, StOk;
  }

  lemma RecordsNone(raw: seq<byte>, nums: seq<int>, zeroRet: nat, h: nat, st: OsSt)
    requires h + HEADER_SIZE <= |raw|
    ensures RunRecords(raw, nums, zeroRet, h, st, 0) == Ok(OsWalked(st, h + HEADER_SIZE))
  {
  }

  lemma FeaturesNone(raw: seq<byte>, nums: seq<int>, zeroRet: nat, st: OsSt, start: nat)
    ensures RunFeatures(raw, nums, zeroRet, st, start, 0) == Ok(OsWalked(st, start))
  {
  }

  /** What one record does to the walk over its feature. */
  function RecordNext(raw: seq<byte>, nums: seq<int>, zeroRet: nat, h: nat, st: OsSt, pos: nat): Outcome<OsWalked>
    requires h + HEADER_SIZE <= |raw|
  {
    match StepOs(raw, nums, zeroRet, h, st, pos)
    case Err(e) => Err(e)
    case Fault => Fault
    case Ok(s) => Ok(OsWalked(s.0, pos + s.1))
  }

  lemma RecordsTurn(raw: seq<byte>, nums: seq<int>, zeroRet: nat, h: nat, st0: OsSt, i: nat, k: nat, st: OsSt, pos: nat)
    requires i < k && h + HEADER_SIZE <= |raw|
    requires RunRecords(raw, nums, zeroRet, h, st0, i) == Ok(OsWalked(st, pos))
    ensures match RecordNext(raw, nums, zeroRet, h, st, pos)
      case Err(e) => RunRecords(raw, nums, zeroRet, h, st0, k) == Err(e)
      case Fault => RunRecords(raw, nums, zeroRet, h, st0, k) == Fault
      case Ok(w) => RunRecords(raw, nums, zeroRet, h, st0, i + 1) == Ok(w)
  {
    hide StepOs;
    if !RunRecords(raw, nums, zeroRet, h, st0, i + 1).Ok? {
      RunRecordsStuck(raw, nums, zeroRet, h, st0, i + 1, k);
    }
  }

  /** What one feature does to the whole walk. */
  function FeatureNext(raw: seq<byte>, nums: seq<int>, zeroRet: nat, st: OsSt, pos: nat): Outcome<OsWalked> {
    if pos > |raw| then Fault
    else if !FeatureOk(raw, pos) then Err(EINVAL)
    else RunRecords(raw, nums, zeroRet, pos, st, Le16(raw, pos + 9))
  }

  lemma FeaturesTurn(raw: seq<byte>, nums: seq<int>, zeroRet: nat, st0: OsSt, start: nat, i: nat, k: nat,
                     st: OsSt, pos: nat)
    requires i < k && RunFeatures(raw, nums, zeroRet, st0, start, i) == Ok(OsWalked(st, pos))
    ensures match FeatureNext(raw, nums, zeroRet, st, pos)
      case Err(e) => RunFeatures(raw, nums, zeroRet, st0, start, k) == Err(e)
      case Fault => RunFeatures(raw, nums, zeroRet, st0, start, k) == Fault
      case Ok(w) => RunFeatures(raw, nums, zeroRet, st0, start, i + 1) == Ok(w)
  {
    hide RunRecords, FeatureOk;
    if !RunFeatures(raw, nums, zeroRet, st0, start, i + 1).Ok? {
      RunFeaturesStuck(raw, nums, zeroRet, st0, start, i + 1, k);
    }
  }

  /** Each list holds the offsets at which validation found that speed's descriptors, and then NULL. */
  ghost predicate ListsFound(b: Binding, lists: seq<seq<Option<nat>>>)
    requires SecStart(b.orig, b.counts, 3) >= 0
  {
    && |lists| == 3
    && forall s :: 0 <= s < 3 ==>
         if b.counts[s] == 0 then lists[s] == [] else ListOf(b, s, lists[s])
  }

  ghost predicate ListOf(b: Binding, s: nat, list: seq<Option<nat>>)
    requires s < 3 && SecStart(b.orig, b.counts, s) >= 0
  {
    && |list| == b.counts[s] + 1
    && list[b.counts[s]] == None
    && forall i :: 0 <= i < b.counts[s] ==> 0 <= At(b.orig, SecStart(b.orig, b.counts, s), i) &&
                                            list[i] == Some(At(b.orig, SecStart(b.orig, b.counts, s), i))
  }

  /** The bytes, the endpoint table, the reverse map and the interface numbers after a bind. */
  ghost predicate TablesBound(b: Binding, raw: seq<byte>, eps: seq<FfsEp>, revmap: seq<nat>, nums: seq<int>)
    requires SecStart(b.orig, b.counts, 3) >= 0
  {
    && RawBound(b, raw)
    && NumsBound(b, nums)
    && exists st: BindSt :: SpeedsDone(b, 3, st) && eps == st.eps && revmap == st.revmap
  }

  /** BindOutcome, and what it says of the lists, for the result of BindPasses. */
  lemma Concluded(b: Binding, f: Found, sizes: OsSizes, useOs: bool, zeroRet: nat)
    requires b.Ok() && SecStart(b.orig, b.counts, 3) >= 0 && |b.addrmap| == MAX_EPS_COUNT && Sized(b, f, sizes)
    ensures var r := BindAll(b.orig, b.osCount, b.addrmap, b.env, DemandOf(b, sizes, useOs), b.was, zeroRet);
      && Outcomes(b, f, sizes, useOs, zeroRet, r)
      && (r.Ok? ==>
            && (forall d :: Brings(b, d) ==> EncodesRebound(b, r.value.raw, d))
            && (forall lists :: ListsAre(b.env, b.addrmap, b.counts, b.Begin(), lists) ==>
                  ListsFound(b, lists))
            && (forall eps, revmap :: eps == r.value.st.eps && revmap == r.value.st.revmap ==>
                  TablesBound(b, r.value.raw, eps, revmap, r.value.nums)))
  {
    hide Binding.Ok, RunSpeeds, ListsAre, ListsFound, BindAll, Files, CopiesSucceed, Reported, Bindable, Numbered,
      Brings, EncodesRebound, Started,
      SpeedsFault, RawBound, NumsBound, SpeedsDone, Sized, Interfaces;
    BindOutcome(b, f, sizes, useOs, zeroRet);
    var r := BindAll(b.orig, b.osCount, b.addrmap, b.env, DemandOf(b, sizes, useOs), b.was, zeroRet);
    if r.Ok? {
      EveryMessageRebound(b, r.value.raw);
    }
    if Bindable(b) {
      forall lists | ListsAre(b.env, b.addrmap, b.counts, b.Begin(), lists)
        ensures ListsFound(b, lists)
      {
        ListsHold(b, lists);
      }
    }
  }

  lemma ListsHold(b: Binding, lists: seq<seq<Option<nat>>>)
    requires b.Ok() && Bindable(b) && |b.addrmap| == MAX_EPS_COUNT && SecStart(b.orig, b.counts, 3) >= 0
    requires ListsAre(b.env, b.addrmap, b.counts, b.Begin(), lists)
    ensures ListsFound(b, lists)
  {
    hide Binding.Ok, At, RunSpeeds, VisitedOffsets, Bindable, SpeedsDone, Binding.Begin, StOk, ListOf;
    forall s | 0 <= s < 3
      ensures if b.counts[s] == 0 then lists[s] == [] else ListOf(b, s, lists[s])
    {
      var w := RunSpeeds(b.env, b.addrmap, b.Begin(), b.counts, s);
      SpeedsOutcome(b, s);
      if b.counts[s] > 0 {
        VisitedAreValidated(b, s, w.value.st, w.value.pos, lists[s]);
      }
    }
  }

  lemma NumsNone(env: Env, st: NumSt)
    ensures RunNums(env, st, 0) == Ok(Walked(st, 0))
  {
  }

  /** The state after one more descriptor, or the error that stops the pass there. */
  function NumsNext(env: Env, st: NumSt, pos: nat): (r: Outcome<Walked<NumSt>>) {
    if !(pos <= |st.raw| && DescOk(st.raw, pos)) then Err(EINVAL)
    else
      match StepBoth(env, st, pos)
      case Err(e) => Err(e)
      case Fault => Fault
      case Ok(st1) => Ok(Walked(st1, pos + st.raw[pos]))
  }

  lemma RunNumsNext(env: Env, st0: NumSt, i: nat, st: NumSt, pos: nat)
    requires RunNums(env, st0, i) == Ok(Walked(st, pos))
    ensures RunNums(env, st0, i + 1) == NumsNext(env, st, pos)
  {
    hide LengthFits, StepIntf, StepStr, StringAt;
  }

  lemma RunNumsTurn(env: Env, st0: NumSt, i: nat, k: nat, st: NumSt, pos: nat)
    requires i < k && RunNums(env, st0, i) == Ok(Walked(st, pos))
    ensures match NumsNext(env, st, pos)
      case Err(e) => RunNums(env, st0, k) == Err(e)
      case Fault => RunNums(env, st0, k) == Fault
      case Ok(w) => RunNums(env, st0, i + 1) == Ok(w)
  {
    hide NumsNext, RunNums;
    RunNumsNext(env, st0, i, st, pos);
    if !RunNums(env, st0, i + 1).Ok? {
      RunNumsStuck(env, st0, i + 1, k);
    }
  }

  lemma DescFits(raw: seq<byte>, p: nat)
    requires p <= |raw| && DescOk(raw, p)
    ensures p + 2 <= |raw|
  {
  }

  /** The first k entries are where the walk stood before each of its descriptors; the others are still NULL. */
  ghost predicate VisitedOffsets(env: Env, addrmap: seq<byte>, speed: nat, st: BindSt, start: nat, k: nat,
                                 list: seq<Option<nat>>)
    requires |addrmap| == MAX_EPS_COUNT && speed < 3 && StOk(st)
  {
    && k <= |list|
    && (forall i :: k <= i < |list| ==> list[i] == None)
    && forall i :: 0 <= i < k ==>
         var r := RunDescs(env, addrmap, speed, st, start, i);
         r.Ok? && list[i] == Some(r.value.pos)
  }

  /** Those are the offsets at which validation found the descriptors. */
  lemma VisitedAreValidated(b: Binding, s: nat, st: BindSt, start: nat, list: seq<Option<nat>>)
    requires b.Ok() && s < 3 && SpeedsDone(b, s, st) && b.counts[s] > 0 && (AnyEps(b, s) ==> Bindable(b))
    requires start == SecStart(b.orig, b.counts, s) && |b.addrmap| == MAX_EPS_COUNT && |list| == b.counts[s] + 1
    requires VisitedOffsets(b.env, b.addrmap, s, st, start, b.counts[s], list)
    ensures ListOf(b, s, list)
  {
    hide At, RunDescs, Binding.Ok, SpeedsDone, AnyEps, Bindable;
    forall i | 0 <= i < b.counts[s]
      ensures 0 <= At(b.orig, start, i) && list[i] == Some(At(b.orig, start, i))
    {
      PassVisits(b, s, st, start, i);
    }
  }

  lemma PassVisits(b: Binding, s: nat, st: BindSt, start: nat, i: nat)
    requires b.Ok() && s < 3 && SpeedsDone(b, s, st) && i < b.counts[s] && (AnyEps(b, s) ==> Bindable(b))
    requires start == SecStart(b.orig, b.counts, s) && |b.addrmap| == MAX_EPS_COUNT
    ensures var r := RunDescs(b.env, b.addrmap, s, st, start, i); r.Ok? ==> r.value.pos == At(b.orig, start, i)
  {
    hide At, DescOk, EpOffs, EpAddrs, RunDescs, Binding.Ok, Allocated, PassAt;
    assert SecStart(b.orig, b.counts, s + 1) == At(b.orig, start, b.counts[s]);
    PassOpens(b, s, st);
    if !b.HasEps(s) {
      IdlePass(b, s, start, i, st);
    } else if !AnyEps(b, s) {
      AllocatingPass(b, s, start, i, st);
    } else if b.HasEps(0) {
      SectionDeclares(b, 0);
      LeadIs(b, 0);
      assert FilledOffs(b, s, 0) == SpeedOffs(b, 0);
      CopyingPass(b, s, start, i, st, SpeedOffs(b, 0));
    } else {
      assert FilledOffs(b, s, 0) == [];
      FaultingPass(b, s, start, i, st, |b.eps|);
    }
  }
}
