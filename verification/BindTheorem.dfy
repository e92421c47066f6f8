/**
 _ffs_func_bind up to the fix-ups at its end, on a buffer GotDescs accepted: when it
 succeeds, when it fails, when it leaves a list or reads through a NULL pointer, and
 what it leaves behind.
 */
module BindTheorem {
  import opened Bytes
  import opened DescWalk
  import opened OsDescs
  import opened DescParser
  import opened BindModel
  import opened BindChunk
  import opened BindDescsProof
  import opened BindNumsProof
  import opened OsBind
  import opened HostReport

  /** The rewritten bytes and the tables of a bound function. */
  datatype Bound = Bound(raw: seq<byte>, st: BindSt, nums: seq<int>, os: Option<OsSt>)

  /**
   The passes over the copied descriptors. zeroRet is what memcpy_s and memset_s return
   for an empty destination. The number of descriptors renumbered is a 32-bit sum.
   */
  function RunPasses(orig: seq<byte>, osCount: nat, addrmap: seq<byte>, env: Env, d: Demand, was: NumberMap,
                     zeroRet: nat)
    : Outcome<Bound>
    requires |addrmap| == MAX_EPS_COUNT
  {
    match RunSpeeds(env, addrmap, StartOf(orig, d.endpoints, was), d.counts, 3)
    case Err(e) => Err(e)
    case Fault => Fault
    case Ok(w) =>
      match RunNums(env, NumSt(w.st.raw, NoNums(d.interfaces)), SumOf(d.counts))
      case Err(e) => Err(e)
      case Fault => Fault
      case Ok(v) =>
        if !d.useOs then Ok(Bound(v.st.raw, w.st, v.st.nums, None))
        else
          match RunFeatures(v.st.raw, v.st.nums, zeroRet, OsStart(d.interfaces, d.sizes), w.pos, osCount)
          case Err(e) => Err(e)
          case Fault => Fault
          case Ok(o) => Ok(Bound(v.st.raw, w.st, v.st.nums, Some(o.st)))
  }

  /** _ffs_func_bind up to the end of those passes; useOs is cdev->use_os_string. */
  function BindAll(orig: seq<byte>, osCount: nat, addrmap: seq<byte>, env: Env, d: Demand, was: NumberMap, zeroRet: nat)
    : Outcome<Bound>
    requires |addrmap| == MAX_EPS_COUNT
  {
    if d.counts == [0, 0, 0] then Err(ENOTSUPP)
    else if ChunkSize(env.kernel, d) > env.kernel.memory then Err(ENOMEM)
    else if d.interfaces == 0 && zeroRet != 0 then Err(Other(zeroRet))
    else RunPasses(orig, osCount, addrmap, env, d, was, zeroRet)
  }

  function SumOf(counts: Counts): nat { (counts[0] + counts[1] + counts[2]) % TWO_TO_THE_32 }

  ghost function DemandOf(b: Binding, sizes: OsSizes, useOs: bool): Demand
    requires SecStart(b.orig, b.counts, 3) >= 0
  {
    Demand(b.counts, |b.eps|, Interfaces(b), sizes, |b.orig|, useOs)
  }

  ghost function Bind(b: Binding, sizes: OsSizes, useOs: bool, zeroRet: nat): Outcome<Bound>
    requires |b.addrmap| == MAX_EPS_COUNT && SecStart(b.orig, b.counts, 3) >= 0
  {
    BindAll(b.orig, b.osCount, b.addrmap, b.env, DemandOf(b, sizes, useOs), b.was, zeroRet)
  }

  /** The validated OS section, and the sizes recorded for it. */
  ghost predicate Sized(b: Binding, f: Found, sizes: OsSizes)
    requires SecStart(b.orig, b.counts, 3) >= 0
  {
    && OsFound(b.orig, b.counts, b.osCount) == Some(f)
    && sizes == OsSizes(|f.props|, 2 * NamesLength(f.props), DatasLength(f.props))
  }

  /** There is something to bind, the chunk can be had, and its interface numbers can be set. */
  ghost predicate Started(b: Binding, sizes: OsSizes, useOs: bool, zeroRet: nat)
    requires SecStart(b.orig, b.counts, 3) >= 0
  {
    && b.counts != [0, 0, 0]
    && ChunkSize(b.env.kernel, DemandOf(b, sizes, useOs)) <= b.env.kernel.memory
    && (Interfaces(b) > 0 || zeroRet == 0)
  }

  /** A pass comes to a list that has wrapped, or one endpoint to a full-speed descriptor that is not there. */
  ghost predicate SpeedsFault(b: Binding)
    requires b.Ok()
  {
    Overruns(b, 3) || (Bindable(b) && LenderMissing(b))
  }

  /** Distinct addresses, every endpoint granted and every interface numbered. */
  ghost predicate AllGranted(b: Binding)
    requires b.Ok()
  {
    Bindable(b) && Numbered(b, b.Total())
  }

  lemma TotalIs(b: Binding)
    ensures b.Total() == b.counts[0] + b.counts[1] + b.counts[2]
  {
    assert b.Base(1) == b.counts[0];
    assert b.Base(2) == b.Base(1) + b.counts[1];
    assert b.Base(3) == b.Base(2) + b.counts[2];
  }

  lemma BindPrefix(b: Binding)
    requires b.Ok()
    ensures |b.addrmap| == MAX_EPS_COUNT && |b.eps| < MAX_EPS_COUNT && SecStart(b.orig, b.counts, 3) >= 0
    ensures b.Total() == b.counts[0] + b.counts[1] + b.counts[2]
    ensures AnyEps(b, 3) || (b.eps == [] && Bindable(b))
    ensures Interfaces(b) <= 0x100
  {
    hide At, EnvOk, OsFound;
    TotalIs(b);
    DeclaredByAll(b.orig, b.counts, 3);
    InterfacesFit(b.orig, b.counts, 3);
    if b.eps != [] {
      var j :| 0 <= j < 3 && SecDecl(b.orig, b.counts, j) == Declared(b.orig, b.counts, 3);
      DeclaringSpeedHasDescs(b.orig, b.counts, j);
      assert b.HasEps(j);
    }
  }

  lemma DeclaringSpeedHasDescs(raw: seq<byte>, counts: Counts, j: nat)
    requires j < 3 && SecStart(raw, counts, 3) >= 0 && SecDecl(raw, counts, j) != EMPTY
    ensures counts[j] > 0
  {
    if counts[j] == 0 {
      SecEmpty(raw, counts, j);
    }
  }

  lemma {:induction false} IntfCountFits(raw: seq<byte>, start: nat, k: nat)
    requires start <= |raw| && At(raw, start, k) >= 0
    ensures IntfCount(raw, start, k) <= 0x100
  {
    if k > 0 {
      IntfCountFits(raw, start, k - 1);
    }
  }

  lemma {:induction false} InterfacesFit(raw: seq<byte>, counts: Counts, n: nat)
    requires n <= 3 && SecStart(raw, counts, n) >= 0
    ensures Declared(raw, counts, n).interfaces <= 0x100
  {
    hide At, IntfCount, EpAddrs;
    if n > 0 {
      InterfacesFit(raw, counts, n - 1);
      IntfCountFits(raw, SecStart(raw, counts, n - 1), counts[n - 1]);
    }
  }

  /**
   The descriptor at p after a bind. An endpoint has its new address and packet size,
   an interface and a string index are the device's; every other byte is the user's.
   */
  ghost predicate DescBound(b: Binding, raw: seq<byte>, p: int, first: bool)
    requires |raw| == |b.orig|
  {
    && 0 <= p <= |b.orig|
    && DescOk(b.orig, p)
    && raw[p] == b.orig[p]
    && (if IsEndpoint(b.orig, p) then EndpointAfter(b.orig, raw, p, NewOf(b.Job(), b.orig[p + 2]), first)
        else KeepsRest(b.orig, raw, p))
    && (IsInterface(b.orig, p) ==>
          var i := b.orig[p + 2];
          i < |b.env.ids| && raw[p + 2] == b.env.ids[i])
    && (StringAt(b.orig, p) != -1 ==>
          var s := StringAt(b.orig, p);
          b.orig[s] <= |b.env.strIds| && raw[s] == b.env.strIds[b.orig[s] - 1])
  }

  /** Every descriptor is bound, and the OS section is untouched. */
  ghost predicate RawBound(b: Binding, raw: seq<byte>) {
    && |raw| == |b.orig|
    && SecStart(b.orig, b.counts, 3) >= 0
    && (forall j {:trigger b.Off(j)} :: 0 <= j < b.Total() ==> DescBound(b, raw, b.Off(j), j < b.Lead()))
    && SameOn(b.orig, raw, SecStart(b.orig, b.counts, 3), |b.orig|)
  }

  /** The numbers handed out: interfaces that are described have their id, the others none. */
  ghost predicate NumsBound(b: Binding, nums: seq<int>) {
    && SecStart(b.orig, b.counts, 3) >= 0
    && |nums| == Interfaces(b) <= |b.env.ids|
    && forall i :: 0 <= i < |nums| ==> nums[i] == if Appears(b, i, b.Total()) then b.env.ids[i] else -1
  }

  lemma RenumberedRaw(b: Binding, before: seq<byte>, st: NumSt)
    requires Rewritten(b.orig, before, b.Job(), b.Total()) && NumsDone(b, before, b.Total(), st)
    requires b.Off(b.Total()) == SecStart(b.orig, b.counts, 3)
    ensures RawBound(b, st.raw) && NumsBound(b, st.nums)
  {
    hide At, DescOk, NewOf, Appears, DescRenumbered, DescBound, Binding.Lead;
    forall j {:trigger b.Off(j)} | 0 <= j < b.Total()
      ensures DescBound(b, st.raw, b.Off(j), j < b.Lead())
    {
      var p := At(b.orig, 0, j);
      assert KeepsHeader(b.orig, st.raw, p);
      assert DescAfter(b.orig, before, p, b.Job(), true, j < b.Lead());
      assert NumDesc(b, before, st.raw, p, true);
      DescIsBound(b, before, st.raw, p, j < b.Lead());
    }
    var end := SecStart(b.orig, b.counts, 3);
    SameReads(b.orig, before, end, |b.orig|);
  }

  lemma DescIsBound(b: Binding, before: seq<byte>, raw: seq<byte>, p: nat, first: bool)
    requires |before| == |raw| == |b.orig| && KeepsHeader(b.orig, raw, p)
    requires DescAfter(b.orig, before, p, b.Job(), true, first) && NumDesc(b, before, raw, p, true)
    ensures DescBound(b, raw, p, first)
  {
    hide LengthFits, NewOf;
    if IsEndpoint(b.orig, p) {
      SameReads(before, raw, p, p + b.orig[p]);
    }
  }

  /** What a bind has to carve is counted in 32 bits. */
  lemma DemandFits(b: Binding, f: Found, sizes: OsSizes, useOs: bool)
    requires b.Ok() && SecStart(b.orig, b.counts, 3) >= 0 && Sized(b, f, sizes)
    ensures KernelOk(b.env.kernel) && Demand32(DemandOf(b, sizes, useOs))
  {
    hide At, Features, Declared, SectionsAgree;
    BindPrefix(b);
    FeaturesAccounted(b.orig, SecStart(b.orig, b.counts, 3), Interfaces(b), b.osCount);
  }

  /** When the passes over the speeds succeed, the renumbering pass is told of every descriptor. */
  lemma AllCounted(b: Binding, f: Found, sizes: OsSizes, useOs: bool)
    requires b.Ok() && SecStart(b.orig, b.counts, 3) >= 0 && Sized(b, f, sizes)
    requires ChunkSize(b.env.kernel, DemandOf(b, sizes, useOs)) <= b.env.kernel.memory
    requires (AnyEps(b, 3) ==> Bindable(b)) && !Overruns(b, 3)
    ensures SumOf(b.counts) == b.Total()
  {
    hide At, RawOk, Assigned, AddrMapIs, EnvOk, Bindable, AnyEps, Overruns, Unlisted, Sized, ChunkSize, Demand32,
      KernelOk;
    DemandFits(b, f, sizes, useOs);
    TotalIs(b);
    NoneUnlisted(b);
    CountsAddUp(b.env.kernel, DemandOf(b, sizes, useOs));
  }

  lemma NoneUnlisted(b: Binding)
    requires b.Ok() && SecStart(b.orig, b.counts, 3) >= 0 && (AnyEps(b, 3) ==> Bindable(b)) && !Overruns(b, 3)
    ensures forall s :: 0 <= s < 3 ==> b.counts[s] != TWO_TO_THE_32 - 1
  {
    hide At, SecStart, Binding.Ok, Binding.HasEps, Bindable;
    forall s | 0 <= s < 3
      ensures b.counts[s] != TWO_TO_THE_32 - 1
    {
      assert AnyEps(b, s) ==> AnyEps(b, 3);
      assert !Unlisted(b, s);
    }
  }

  /**
   A bind of an accepted buffer, up to the fix-ups at its end. If the copies into the OS
   regions succeed, it faults exactly when a list has wrapped or high and super speed
   describe endpoints that full speed does not; it succeeds exactly when that is not so,
   there is something to bind and room for it, the addresses are distinct, and the gadget
   grants every endpoint and interface. Success leaves the bytes and tables as stated, and
   the OS tables too if and only if no copy was refused; they then tell the host what the
   section says.
   */
  lemma BindOutcome(b: Binding, f: Found, sizes: OsSizes, useOs: bool, zeroRet: nat)
    requires b.Ok() && SecStart(b.orig, b.counts, 3) >= 0 && |b.addrmap| == MAX_EPS_COUNT && Sized(b, f, sizes)
    ensures Outcomes(b, f, sizes, useOs, zeroRet, Bind(b, sizes, useOs, zeroRet))
  {
    hide At, RunSpeeds, RunNums, RunFeatures, SpeedsDone, NumsDone, Rewritten, RawBound, NumsBound, Binding.Ok,
      Files, CopiesSucceed, Reported, Appears, OsStart, Declared, Features, ChunkSize, Overruns,
      LenderMissing, Bindable, Numbered;
    BindPrefix(b);
    SpeedsOutcome(b, 3);
    var w := RunSpeeds(b.env, b.addrmap, b.Begin(), b.counts, 3);
    if w.Ok? && Started(b, sizes, useOs, zeroRet) {
      var before := w.value.st.raw;
      AllCounted(b, f, sizes, useOs);
      SpeedsRewritten(b, w.value.st);
      NumsPass(b, before, b.Total());
      var v := RunNums(b.env, NumSt(before, NoNums(Interfaces(b))), b.Total());
      if v.Ok? {
        RenumberedRaw(b, before, v.value.st);
        if useOs {
          OsBound(b, f, sizes, zeroRet, v.value.st);
        }
      }
    }
  }

  /** r is what the bind may come to. */
  ghost predicate Outcomes(b: Binding, f: Found, sizes: OsSizes, useOs: bool, zeroRet: nat, r: Outcome<Bound>)
    requires b.Ok() && SecStart(b.orig, b.counts, 3) >= 0
  {
    var started := Started(b, sizes, useOs, zeroRet);
    var granted := started && !SpeedsFault(b) && AllGranted(b);
    var copied := useOs ==> CopiesSucceed(f.props, zeroRet);
    && (started && SpeedsFault(b) ==> r.Fault?)
    && (copied ==> (r.Fault? <==> started && SpeedsFault(b)))
    && (copied ==> (r.Ok? <==> granted))
    && (r.Ok? ==> granted)
    && (r.Ok? ==>
          && RawBound(b, r.value.raw)
          && NumsBound(b, r.value.nums)
          && SpeedsDone(b, 3, r.value.st)
          && r.value.os.Some? == useOs
          && (useOs ==> (Files(r.value.os.value, f, f.props, r.value.nums) <==> CopiesSucceed(f.props, zeroRet)))
          && (useOs && CopiesSucceed(f.props, zeroRet) ==> Reported(r.value.os.value, f.props)))
  }

  /** Once everything asked for is granted, the walk over the OS section alone decides what the bind comes to. */
  lemma OsWalkDecides(b: Binding, f: Found, sizes: OsSizes, zeroRet: nat) returns (raw: seq<byte>, nums: seq<int>)
    requires b.Ok() && SecStart(b.orig, b.counts, 3) >= 0 && |b.addrmap| == MAX_EPS_COUNT && Sized(b, f, sizes)
    requires Started(b, sizes, true, zeroRet) && !SpeedsFault(b) && AllGranted(b)
    ensures RawBound(b, raw) && NumsBound(b, nums)
    ensures var r := Bind(b, sizes, true, zeroRet);
      match RunFeatures(raw, nums, zeroRet, OsStart(Interfaces(b), sizes), SecStart(b.orig, b.counts, 3), b.osCount)
      case Err(e) => r == Err(e)
      case Fault => r == Fault
      case Ok(w) => r.Ok? && r.value.raw == raw && r.value.nums == nums && r.value.os == Some(w.st)
  {
    hide At, RunSpeeds, RunNums, RunFeatures, SpeedsDone, NumsDone, Rewritten, RawBound, NumsBound, Binding.Ok,
      Appears, OsStart, Declared, Features, ChunkSize, Overruns, LenderMissing, Bindable, Numbered;
    BindPrefix(b);
    SpeedsOutcome(b, 3);
    var w := RunSpeeds(b.env, b.addrmap, b.Begin(), b.counts, 3);
    AllCounted(b, f, sizes, true);
    SpeedsRewritten(b, w.value.st);
    NumsPass(b, w.value.st.raw, b.Total());
    var v := RunNums(b.env, NumSt(w.value.st.raw, NoNums(Interfaces(b))), b.Total());
    RenumberedRaw(b, w.value.st.raw, v.value.st);
    raw, nums := v.value.st.raw, v.value.st.nums;
  }

  /**
   A bind with a refused copy, by what is read behind the first one: it faults if that
   leaves the buffer or a region, fails if it is no feature, and succeeds, with that
   property lost, if nothing follows.
   */
  lemma RefusedOutcome(b: Binding, f: Found, sizes: OsSizes, zeroRet: nat) returns (x: Drop)
    requires b.Ok() && SecStart(b.orig, b.counts, 3) >= 0 && |b.addrmap| == MAX_EPS_COUNT && Sized(b, f, sizes)
    requires Started(b, sizes, true, zeroRet) && !SpeedsFault(b) && AllGranted(b) && !CopiesSucceed(f.props, zeroRet)
    ensures DropsFirst(b.orig, SecStart(b.orig, b.counts, 3), Interfaces(b), zeroRet, x) && x.feature < b.osCount
    ensures x.at.pos + HEADER_SIZE <= |b.orig|
    ensures NamesLength(x.after.props) <= 2 * NamesLength(f.props)
    ensures DatasLength(x.after.props) <= DatasLength(f.props)
    ensures var r := Bind(b, sizes, true, zeroRet);
      match NextAfter(b.orig, f.props, b.osCount, zeroRet, x)
      case Faults => r == Fault
      case Refuses => r == Err(EINVAL)
      case Ends => r.Ok?
      case GoesOn => true
  {
    hide Binding.Ok, SecStart, Started, SpeedsFault, AllGranted, Bind, RawBound, NumsBound, DropsFirst, Features,
      RunFeatures,
      Files, OsStart, CopiesSucceed, NextAfter, NamesLength, DatasLength, Declared;
    var start: nat := SecStart(b.orig, b.counts, 3);
    var raw, nums := OsWalkDecides(b, f, sizes, zeroRet);
    SectionUntouched(b, raw, nums);
    x := SomeDropFirst(b.orig, start, Interfaces(b), zeroRet, b.osCount);
    DropWithin(b.orig, start, Interfaces(b), zeroRet, b.osCount, x);
    DropLocal(b.orig, raw, start, Interfaces(b), zeroRet, b.osCount, x);
    SectionFiles(b, f, sizes, raw, nums);
    AfterDrop(raw, nums, zeroRet, OsStart(Interfaces(b), sizes), start, b.osCount, x);
  }

  lemma SectionUntouched(b: Binding, raw: seq<byte>, nums: seq<int>)
    requires RawBound(b, raw) && NumsBound(b, nums)
    ensures SecStart(b.orig, b.counts, 3) >= 0 && |nums| == Interfaces(b)
    ensures SameOn(b.orig, raw, SecStart(b.orig, b.counts, 3), |b.orig|)
  {
    hide SecStart, Interfaces;
  }

  /** The section read back after a bind, and the empty tables it is to be filed in. */
  lemma SectionFiles(b: Binding, f: Found, sizes: OsSizes, raw: seq<byte>, nums: seq<int>)
    requires b.Ok() && SecStart(b.orig, b.counts, 3) >= 0 && Sized(b, f, sizes) && |nums| == Interfaces(b)
    requires SameOn(b.orig, raw, SecStart(b.orig, b.counts, 3), |b.orig|)
    ensures Features(raw, SecStart(b.orig, b.counts, 3), |nums|, b.osCount) == Some(f)
    ensures Files(OsStart(|nums|, sizes), Found(SecStart(b.orig, b.counts, 3), [], [], map[]), f.props, nums)
  {
    hide At, Features, Files, OsStart, Binding.Ok;
    BindPrefix(b);
    var start: nat := SecStart(b.orig, b.counts, 3);
    SameReads(b.orig, raw, start, |b.orig|);
    FeaturesLocal(b.orig, raw, start, |nums|, b.osCount);
    OsStartFiles(f.props, nums, start);
  }

  lemma SpeedsRewritten(b: Binding, st: BindSt)
    requires b.Ok() && SpeedsDone(b, 3, st)
    ensures Rewritten(b.orig, st.raw, b.Job(), b.Total())
    ensures b.Off(b.Total()) == SecStart(b.orig, b.counts, 3)
  {
    SecStartIsOff(b, 3);
  }

  lemma OsBound(b: Binding, f: Found, sizes: OsSizes, zeroRet: nat, st: NumSt)
    requires b.Ok() && SecStart(b.orig, b.counts, 3) >= 0 && Sized(b, f, sizes)
    requires RawBound(b, st.raw) && NumsBound(b, st.nums)
    ensures var r := RunFeatures(st.raw, st.nums, zeroRet, OsStart(Interfaces(b), sizes),
                                 SecStart(b.orig, b.counts, 3), b.osCount);
      && (r.Ok? && Files(r.value.st, f, f.props, st.nums) <==> CopiesSucceed(f.props, zeroRet))
      && (r.Ok? && CopiesSucceed(f.props, zeroRet) ==> Reported(r.value.st, f.props))
  {
    hide At, Features, RunFeatures, Files, CopiesSucceed, Appears, OsStart, Binding.Ok, Reported, KindsKnown;
    var start: nat := SecStart(b.orig, b.counts, 3);
    SectionUntouched(b, st.raw, st.nums);
    SectionFiles(b, f, sizes, st.raw, st.nums);
    FiledExactly(st.raw, st.nums, zeroRet, OsStart(Interfaces(b), sizes), start, b.osCount);
    SectionKinds(st.raw, start, Interfaces(b), b.osCount);
    var r := RunFeatures(st.raw, st.nums, zeroRet, OsStart(Interfaces(b), sizes), start, b.osCount);
    if r.Ok? && CopiesSucceed(f.props, zeroRet) {
      FiledIsReported(r.value.st, f, st.nums);
    }
  }
}
