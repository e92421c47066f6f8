/**
 Some accepted buffers, and what binding makes of them: the theorems about binding
 are about something, and each of the outcomes they allow occurs.
 */
module BindExample {
  import opened Bytes
  import opened DescWalk
  import opened OsDescs
  import opened DescParser
  import opened BindModel
  import opened BindChunk
  import opened BindDescsProof
  import opened BindNumsProof
  import opened OsBind
  import opened BindTheorem
  import opened NumberMaps

  /** Interface 0 with one endpoint, and bulk endpoint 0x81 of that interface. */
  const ONE_SPEED: seq<byte> := [9, 4, 0, 0, 1, 255, 0, 0, 0, 7, 5, 0x81, 2, 64, 0, 0]

  const NO_ADDRESSES: seq<byte> :=
    [0, 0, 0, 0, 0, 0, 0, 0, 0, 0, 0, 0, 0, 0, 0, 0, 0, 0, 0, 0, 0, 0, 0, 0, 0, 0, 0, 0, 0]

  /** A walk over those two descriptors, wherever they are. */
  lemma OneSpeedWalked(raw: seq<byte>, p: nat)
    requires p + 16 <= |raw| && raw[p..p + 16] == ONE_SPEED
    ensures At(raw, p, 2) == p + 16 && EpAddrs(raw, p, 2) == [0x81]
    ensures IntfCount(raw, p, 2) == 1 && StrMax(raw, p, 2) == 0
  {
    OneSpeedRead(raw, p);
    hide At, EpOffs, EpAddrs, IntfCount, StrMax;
    WalkZero(raw, p);
    WalkNext(raw, p, 0, p);
    WalkNext(raw, p, 1, p + 9);
  }

  lemma OneSpeedRead(raw: seq<byte>, p: nat)
    requires p + 16 <= |raw| && raw[p..p + 16] == ONE_SPEED
    ensures DescOk(raw, p) && IsInterface(raw, p) && !IsEndpoint(raw, p) && StringAt(raw, p) == -1
    ensures raw[p] == 9 && raw[p + 2] == 0
    ensures DescOk(raw, p + 9) && IsEndpoint(raw, p + 9) && !IsInterface(raw, p + 9) && StringAt(raw, p + 9) == -1
    ensures raw[p + 9] == 7 && raw[p + 11] == 0x81
  {
    forall i | 0 <= i < 16
      ensures raw[p + i] == ONE_SPEED[i]
    {
      assert raw[p..p + 16][i] == raw[p + i];
    }
    assert raw[p + 0] == 9 && raw[p + 1] == 4 && raw[p + 2] == 0 && raw[p + 8] == 0;
    assert raw[p + 9] == 7 && raw[p + 10] == 5 && raw[p + 11] == 0x81;
  }

  /** The same two descriptors for full and high speed, or for high and super speed. */
  ghost predicate TwoSpeeds(raw: seq<byte>, counts: Counts) {
    && |raw| == 32 && raw[0..16] == ONE_SPEED && raw[16..32] == ONE_SPEED
    && (counts == [2, 2, 0] || counts == [0, 2, 2])
  }

  lemma SectionEnds(raw: seq<byte>, counts: Counts, s: nat, p: nat)
    requires s < 3 && SecStart(raw, counts, s) == p
    requires counts[s] == 0 || (counts[s] == 2 && p + 16 <= |raw| && raw[p..p + 16] == ONE_SPEED)
    ensures SecStart(raw, counts, s + 1) == p + 8 * counts[s]
    ensures SecDecl(raw, counts, s) == if counts[s] == 0 then EMPTY else Decl([0x81], 1)
    ensures StringsNeeded(raw, counts, s + 1) == StringsNeeded(raw, counts, s)
  {
    WalkZero(raw, p);
    if counts[s] == 2 {
      OneSpeedWalked(raw, p);
    }
    hide At, EpAddrs, IntfCount, StrMax;
  }

  lemma SpeedsWalked(raw: seq<byte>, counts: Counts)
    requires TwoSpeeds(raw, counts)
    ensures SecStart(raw, counts, 3) == |raw|
    ensures forall s :: 0 <= s < 3 ==> SecDecl(raw, counts, s) == if counts[s] == 0 then EMPTY else Decl([0x81], 1)
    ensures Declared(raw, counts, 3) == Decl([0x81], 1) && StringsNeeded(raw, counts, 3) == 0
  {
    assert SecStart(raw, counts, 0) == 0 && StringsNeeded(raw, counts, 0) == 0 && Declared(raw, counts, 0) == EMPTY;
    hide SecStart, SecDecl, StringsNeeded;
    SectionEnds(raw, counts, 0, 0);
    SectionEnds(raw, counts, 1, 8 * counts[0]);
    SectionEnds(raw, counts, 2, 8 * counts[0] + 8 * counts[1]);
  }

  lemma Accepted(raw: seq<byte>, counts: Counts)
    requires TwoSpeeds(raw, counts)
    ensures RawOk(raw, counts, 0) && Declared(raw, counts, 3) == Decl([0x81], 1) && StringsNeeded(raw, counts, 3) == 0
  {
    SpeedsWalked(raw, counts);
    hide SecStart, SecDecl, StringsNeeded, Declared;
  }

  /** A kernel that has room for a small chunk. */
  const KERNEL := Kernel(0x1000, 16, 112, 64)

  lemma Fits(d: Demand)
    requires d.endpoints <= 1 && d.interfaces <= 1 && d.length <= 100
    requires d.sizes.props <= 2 && d.sizes.names <= 100 && d.sizes.datas <= 100
    requires forall s :: 0 <= s < 3 ==> ListRoom(d.counts[s]) <= 3
    ensures ChunkSize(KERNEL, d) <= KERNEL.memory
  {
    assert Bounded(Chunk(KERNEL, d), 128) by {
      hide ListRoom;
    }
    SmallLaidOut(KERNEL, d, 128);
  }

  /** That buffer can be bound, and faults exactly when it is full speed that has no descriptors. */
  lemma SomethingBinds(raw: seq<byte>, counts: Counts, was: NumberMap, address: byte, useOs: bool, zeroRet: nat)
    returns (b: Binding)
    requires TwoSpeeds(raw, counts) && address % ENDPOINT_NUMBERS != 0
    ensures b.Ok() && b.orig == raw && b.counts == counts && |b.addrmap| == MAX_EPS_COUNT
    ensures SecStart(b.orig, b.counts, 3) >= 0 && |b.eps| <= |b.env.auto| && b.env == EnvFor(address) && b.was == was
    ensures Bindable(b) && NumbersDistinct(b.env, |b.eps|) && |b.eps| == 1
    ensures var r := Bind(b, OsSizes(0, 0, 0), useOs, zeroRet);
      && (r.Ok? <==> counts[0] == 2)
      && (r.Fault? <==> counts[0] == 0)
      && (r.Ok? ==> SpeedsDone(b, 3, r.value.st))
  {
    b := TwoSpeedsReady(raw, counts, was, address);
    hide *;
    NothingToFile(b, zeroRet);
    TwoSpeedsStart(b, useOs, zeroRet);
    TwoSpeedsOutcome(b);
    Decided(b, Found(|raw|, [], [], map[]), OsSizes(0, 0, 0), useOs, zeroRet);
  }

  const TO_ENDPOINT: byte := 0x82   // bRequestType of a request from an endpoint

  /**
   A function bound with endpoint number 2, unbound, and bound again with number 3: a
   request for endpoint 2, which it no longer has, is delivered as one for its first.
   */
  lemma StaleNumber(raw: seq<byte>, counts: Counts, zeroRet: nat) returns (b1: Binding, b2: Binding)
    requires TwoSpeeds(raw, counts) && counts[0] == 2
    ensures b1.Ok() && SecStart(b1.orig, b1.counts, 3) >= 0 && |b1.addrmap| == MAX_EPS_COUNT
    ensures b2.Ok() && SecStart(b2.orig, b2.counts, 3) >= 0 && |b2.addrmap| == MAX_EPS_COUNT
    ensures b1.env == EnvFor(0x82) && b2.env == EnvFor(0x83) && b1.was == NO_NUMBERS
    ensures var r1, r2 := Bind(b1, OsSizes(0, 0, 0), false, zeroRet), Bind(b2, OsSizes(0, 0, 0), false, zeroRet);
      && r1.Ok? && r2.Ok?
      && b2.was == r1.value.st.revmap
      && |r2.value.st.revmap| == ENDPOINT_NUMBERS
      && forall nums :: SetupIndex(0, b2.addrmap, nums, r2.value.st.revmap, TO_ENDPOINT, 2) == Ok(1)
  {
    b1 := SomethingBinds(raw, counts, NO_NUMBERS, 0x82, false, zeroRet);
    var st1 := Bind(b1, OsSizes(0, 0, 0), false, zeroRet).value.st;
    FirstNumber(b1, st1);
    b2 := SomethingBinds(raw, counts, st1.revmap, 0x83, false, zeroRet);
    var st2 := Bind(b2, OsSizes(0, 0, 0), false, zeroRet).value.st;
    OtherNumber(b2);
    hide *;
    forall nums
      ensures SetupIndex(0, b2.addrmap, nums, st2.revmap, TO_ENDPOINT, 2) == Ok(1)
    {
      AskedForTwo(b2, st2, nums);
    }
  }

  lemma FirstNumber(b: Binding, st: BindSt)
    requires b.Ok() && Bindable(b) && SpeedsDone(b, 3, st) && b.env == EnvFor(0x82) && |b.eps| == 1
    ensures |st.revmap| == ENDPOINT_NUMBERS && st.revmap[2] == 1
  {
    hide At, Binding.Ok, Rewritten, Slots, Bindable;
    RevMapWhole(b, st);
    assert RevMap(b.was, b.env, 0) == b.was;
  }

  lemma OtherNumber(b: Binding)
    requires b.env == EnvFor(0x83) && |b.eps| == 1
    ensures GrantedUpTo(b.env, 1) && !Given(b.env, 1, 2)
  {
  }

  lemma AskedForTwo(b: Binding, st: BindSt, nums: seq<int>)
    requires b.Ok() && Bindable(b) && SpeedsDone(b, 3, st) && |b.eps| == 1 && |b.env.auto| == 1
    requires GrantedUpTo(b.env, 1) && !Given(b.env, 1, 2) && b.was[2] == 1
    ensures |st.revmap| == ENDPOINT_NUMBERS && |b.addrmap| == MAX_EPS_COUNT
    ensures SetupIndex(0, b.addrmap, nums, st.revmap, TO_ENDPOINT, 2) == Ok(1)
  {
    hide Binding.Ok, Bindable, SpeedsDone, Given, GrantedUpTo, SetupIndex;
    ForeignEndpointRejected(b, st, TO_ENDPOINT, 0, nums, 2);
  }

  lemma TwoSpeedsOutcome(b: Binding)
    requires TwoSpeeds(b.orig, b.counts) && b.Ok() && Bindable(b) && Numbered(b, b.Total())
    requires LenderMissing(b) <==> b.counts[0] == 0
    ensures AllGranted(b) && (SpeedsFault(b) <==> b.counts[0] == 0)
    ensures b.counts[0] == 0 || b.counts[0] == 2
  {
    hide At, SecStart, Binding.Ok, Bindable, LenderMissing, Numbered;
  }

  lemma NothingToFile(b: Binding, zeroRet: nat)
    requires b.osCount == 0 && SecStart(b.orig, b.counts, 3) == |b.orig|
    ensures var f := Found(|b.orig|, [], [], map[]); Sized(b, f, OsSizes(0, 0, 0)) && CopiesSucceed(f.props, zeroRet)
  {
    hide SecStart, Declared;
  }

  lemma TwoSpeedsStart(b: Binding, useOs: bool, zeroRet: nat)
    requires TwoSpeeds(b.orig, b.counts) && |b.eps| == 1 && b.env.kernel == KERNEL
    requires SecStart(b.orig, b.counts, 3) >= 0 && Interfaces(b) == 1
    ensures Started(b, OsSizes(0, 0, 0), useOs, zeroRet)
  {
    hide SecStart, Interfaces, ChunkSize;
    Fits(DemandOf(b, OsSizes(0, 0, 0), useOs));
  }

  /** What BindOutcome says of a bind that gets as far as the descriptors. */
  lemma Decided(b: Binding, f: Found, sizes: OsSizes, useOs: bool, zeroRet: nat)
    requires b.Ok() && SecStart(b.orig, b.counts, 3) >= 0 && |b.addrmap| == MAX_EPS_COUNT && Sized(b, f, sizes)
    requires Started(b, sizes, useOs, zeroRet)
    ensures var r := Bind(b, sizes, useOs, zeroRet);
      && (SpeedsFault(b) ==> r.Fault?)
      && (r.Ok? ==> SpeedsDone(b, 3, r.value.st))
      && (!SpeedsFault(b) && CopiesSucceed(f.props, zeroRet) ==> !r.Fault? && (r.Ok? <==> AllGranted(b)))
  {
    hide At, SecStart, Binding.Ok, Bind, Sized, Started, SpeedsFault, AllGranted, CopiesSucceed, RawBound, NumsBound,
      SpeedsDone, Files;
    BindOutcome(b, f, sizes, useOs, zeroRet);
  }

  /** The gadget has one endpoint to give, at the address. */
  function EnvFor(address: byte): Env { Env([Granted(address, 0, 2)], [3], [], false, KERNEL) }

  const ONE_ADDRESS: seq<byte> := [0, 0x81] + NO_ADDRESSES

  lemma OneAddressMapped()
    ensures AddrMapIs(ONE_ADDRESS, [0x81])
  {
  }

  lemma EnvGrants(address: byte)
    requires address % ENDPOINT_NUMBERS != 0
    ensures var env := EnvFor(address);
      EnvOk(env, 1, 1, 0) && |env.auto| == 1 && GrantedUpTo(env, 1) && NumbersDistinct(env, 1)
    ensures forall i :: 0 <= i < |EnvFor(address).ids| ==> EnvFor(address).ids[i] >= 0
  {
  }

  lemma TwoSpeedsReady(raw: seq<byte>, counts: Counts, was: NumberMap, address: byte) returns (b: Binding)
    requires TwoSpeeds(raw, counts) && address % ENDPOINT_NUMBERS != 0
    ensures b.Ok() && b.orig == raw && b.counts == counts && |b.addrmap| == MAX_EPS_COUNT
    ensures b.env.kernel == KERNEL && b.env == EnvFor(address) && b.was == was
    ensures SecStart(b.orig, b.counts, 3) == |raw| && Interfaces(b) == 1 && b.osCount == 0
    ensures Bindable(b) && Numbered(b, b.Total()) && |b.eps| == 1 <= |b.env.auto|
    ensures GrantedUpTo(b.env, |b.eps|) && NumbersDistinct(b.env, |b.eps|)
    ensures LenderMissing(b) <==> counts[0] == 0
  {
    var env := EnvFor(address);
    assert |raw| == 32 && (counts == [2, 2, 0] || counts == [0, 2, 2]);
    hide At, SecDecl, SecStart, StringsNeeded, Declared, RawOk, Appears, AddrMapIs, EnvOk, TwoSpeeds, GrantedUpTo,
      NumbersDistinct, NumberOf, Assigned;
    Accepted(raw, counts);
    SpeedsWalked(raw, counts);
    OneAddressMapped();
    EnvGrants(address);
    hide Interfaces, Numbered, Bindable, LenderMissing, Words32;
    assert Words32(raw, counts) by {
      CountsSmall(raw, counts);
    }
    b := Binding(raw, counts, 0, ONE_ADDRESS, env, [0x81], Assigned(env, [0x81]), was);
    TwoSpeedsFacts(b);
  }

  lemma CountsSmall(raw: seq<byte>, counts: Counts)
    requires |raw| == 32 && (counts == [2, 2, 0] || counts == [0, 2, 2])
    ensures Words32(raw, counts)
  {
  }

  lemma TwoSpeedsFacts(b: Binding)
    requires b.Ok() && b.eps == [0x81] && |b.env.auto| == 1 && GrantedUpTo(b.env, 1)
    requires SecStart(b.orig, b.counts, 3) >= 0 && Declared(b.orig, b.counts, 3) == Decl([0x81], 1)
    requires forall s :: 0 <= s < 3 ==>
               SecDecl(b.orig, b.counts, s) == if b.counts[s] == 0 then EMPTY else Decl([0x81], 1)
    requires b.counts == [2, 2, 0] || b.counts == [0, 2, 2]
    requires forall i :: 0 <= i < |b.env.ids| ==> b.env.ids[i] >= 0
    ensures Interfaces(b) == 1 && Bindable(b) && Numbered(b, b.Total())
    ensures LenderMissing(b) <==> b.counts[0] == 0
  {
    hide At, SecDecl, SecStart, Declared, Binding.Ok, Appears, Binding.Base;
  }

  /** An interface alone, as full speed; what follows is told apart by the count of descriptors. */
  const INTERFACE: seq<byte> := [9, 4, 0, 0, 0, 255, 0, 0, 0]

  const INTERFACE_ONLY := Env([], [3], [], false, KERNEL)

  /** An empty OS feature, whose bytes are also a zero-length descriptor. */
  const NO_RECORDS: seq<byte> := [0, 0, 0, 0, 0, 1, 0, 5, 0, 0, 0]

  /** A property record without a name, with one byte of data. */
  const LETTER_RECORD: seq<byte> := [15, 0, 0, 0, 1, 0, 0, 0, 0, 0, 1, 0, 0, 0, 65]

  const LETTER := Prop(0, 1, [], [65])

  /** The interface, and an OS feature with one such property, or with two. */
  function Nameless(two: bool): seq<byte> {
    if two then INTERFACE + [0, 41, 0, 0, 0, 1, 0, 5, 0, 2, 0] + LETTER_RECORD + LETTER_RECORD
    else INTERFACE + [0, 26, 0, 0, 0, 1, 0, 5, 0, 1, 0] + LETTER_RECORD
  }

  /** The interface, and then zero-length descriptors without end at the same place. */
  lemma {:induction false} EndlessWalk(raw: seq<byte>, k: nat)
    requires raw[..|raw|] == INTERFACE + NO_RECORDS && k > 0
    ensures At(raw, 0, k) == 9 && EpAddrs(raw, 0, k) == [] && IntfCount(raw, 0, k) == 1 && StrMax(raw, 0, k) == 0
  {
    assert raw == INTERFACE + NO_RECORDS;
    if k == 1 {
      InterfaceWalk(raw);
    } else {
      EndlessWalk(raw, k - 1);
      EmptyDescriptor(raw);
      hide At, EpOffs, EpAddrs, IntfCount, StrMax, DescOk, IsType, StringAt;
      WalkNext(raw, 0, k - 1, 9);
      assert k - 1 + 1 == k;
    }
  }

  lemma EmptyDescriptor(raw: seq<byte>)
    requires raw == INTERFACE + NO_RECORDS
    ensures DescOk(raw, 9) && raw[9] == 0 && !IsEndpoint(raw, 9) && !IsInterface(raw, 9) && StringAt(raw, 9) == -1
  {
    assert raw[9] == 0 && raw[10] == 0;
  }

  lemma InterfaceWalk(raw: seq<byte>)
    requires INTERFACE <= raw
    ensures At(raw, 0, 1) == 9 && EpAddrs(raw, 0, 1) == [] && IntfCount(raw, 0, 1) == 1 && StrMax(raw, 0, 1) == 0
  {
    assert forall i :: 0 <= i < 9 ==> raw[i] == INTERFACE[i];
    assert raw[0] == 9 && raw[1] == 4 && raw[2] == 0 && raw[8] == 0;
    assert DescOk(raw, 0) && IsInterface(raw, 0) && !IsEndpoint(raw, 0) && StringAt(raw, 0) == -1;
    hide At, EpOffs, EpAddrs, IntfCount, StrMax, DescOk, IsType, StringAt;
    WalkZero(raw, 0);
    WalkNext(raw, 0, 0, 0);
  }

  /** One interface at full speed, whatever its descriptors, and one OS feature. */
  lemma OneInterfaceAccepted(raw: seq<byte>, n: nat, f: Found) returns (b: Binding)
    requires 9 <= |raw| <= 100 && 0 < n < TWO_TO_THE_32
    requires At(raw, 0, n) == 9 && EpAddrs(raw, 0, n) == [] && IntfCount(raw, 0, n) == 1 && StrMax(raw, 0, n) == 0
    requires Features(raw, 9, 1, 1) == Some(f) && f.pos == |raw|
    ensures b.orig == raw && b.counts == [n, 0, 0] && b.osCount == 1 && b.Ok() && |b.addrmap| == MAX_EPS_COUNT
    ensures SecStart(raw, b.counts, 3) == 9 && b.eps == [] && Interfaces(b) == 1 && b.env == INTERFACE_ONLY
    ensures OsFound(raw, b.counts, 1) == Some(f) && RawOk(raw, b.counts, 1)
  {
    var counts: Counts := [n, 0, 0];
    OneInterfaceWalked(raw, counts);
    hide At, EpAddrs, IntfCount, StrMax, Features, SecStart, Declared, StringsNeeded, SecDecl;
    hide AddrMapIs, EnvOk, SectionsAgree, Assigned;
    NothingToMap();
    b := Binding(raw, counts, 1, [0, 0] + NO_ADDRESSES, INTERFACE_ONLY, [], [], NO_NUMBERS);
  }

  lemma NothingToMap()
    ensures AddrMapIs([0, 0] + NO_ADDRESSES, []) && |[0, 0] + NO_ADDRESSES| == MAX_EPS_COUNT
    ensures EnvOk(INTERFACE_ONLY, 0, 1, 0) && Assigned(INTERFACE_ONLY, []) == []
  {
  }

  lemma OneInterfaceWalked(raw: seq<byte>, counts: Counts)
    requires counts[0] > 0 && counts[1] == counts[2] == 0 && At(raw, 0, counts[0]) == 9 <= |raw|
    requires EpAddrs(raw, 0, counts[0]) == [] && IntfCount(raw, 0, counts[0]) == 1 && StrMax(raw, 0, counts[0]) == 0
    ensures SecStart(raw, counts, 3) == 9 && Declared(raw, counts, 3) == Decl([], 1)
    ensures StringsNeeded(raw, counts, 3) == 0 && SectionsAgree(raw, counts, 3)
  {
    hide At, EpAddrs, IntfCount, StrMax;
    assert SecStart(raw, counts, 1) == 9 && SecDecl(raw, counts, 0) == Decl([], 1);
    SecEmpty(raw, counts, 1);
    SecEmpty(raw, counts, 2);
    assert Declared(raw, counts, 1) == Decl([], 1) && StringsNeeded(raw, counts, 1) == 0;
  }

  /**
   Full speed with 2^32 - 1 descriptors is accepted, but its list has no entry: the
   first descriptor stored in it is stored outside.
   */
  lemma EndlessFaults(useOs: bool, zeroRet: nat) returns (b: Binding)
    ensures b.orig == INTERFACE + NO_RECORDS && b.counts == [0xFFFF_FFFF, 0, 0] && b.osCount == 1 && b.Ok()
    ensures |b.addrmap| == MAX_EPS_COUNT && SecStart(b.orig, b.counts, 3) >= 0
    ensures Bind(b, OsSizes(0, 0, 0), useOs, zeroRet).Fault?
  {
    var raw, n, f := INTERFACE + NO_RECORDS, 0xFFFF_FFFF, Found(20, [], [], map[]);
    EndlessWalk(raw, n);
    EmptyFeature(raw);
    b := OneInterfaceAccepted(raw, n, f);
    hide *;
    EndlessStarts(b, f, useOs, zeroRet);
    EndlessOverruns(b);
    Decided(b, f, OsSizes(0, 0, 0), useOs, zeroRet);
  }

  lemma EndlessStarts(b: Binding, f: Found, useOs: bool, zeroRet: nat)
    requires b.counts == [0xFFFF_FFFF, 0, 0] && b.eps == [] && b.env == INTERFACE_ONLY && |b.orig| == 20
    requires SecStart(b.orig, b.counts, 3) >= 0 && Interfaces(b) == 1
    requires OsFound(b.orig, b.counts, b.osCount) == Some(f) && f.props == []
    ensures Started(b, OsSizes(0, 0, 0), useOs, zeroRet) && Sized(b, f, OsSizes(0, 0, 0))
  {
    hide SecStart, Interfaces, ChunkSize, OsFound;
    Fits(DemandOf(b, OsSizes(0, 0, 0), useOs));
  }

  lemma EndlessOverruns(b: Binding)
    requires b.Ok() && b.counts[0] == 0xFFFF_FFFF
    ensures SpeedsFault(b)
  {
    hide At, SectionsAgree, OsFound, Assigned, AddrMapIs, EnvOk, Bindable, LenderMissing;
    assert Unlisted(b, 0) && !AnyEps(b, 0);
  }

  lemma EmptyFeature(raw: seq<byte>)
    requires raw == INTERFACE + NO_RECORDS
    ensures Features(raw, 9, 1, 1) == Some(Found(20, [], [], map[]))
  {
    assert Features(raw, 9, 1, 0) == Some(Found(9, [], [], map[]));
    assert FeatureOk(raw, 9) && Le16(raw, 18) == 0;
  }

  function Letters(n: nat): (r: seq<Prop>)
    ensures |r| == n
  {
    seq(n, i => LETTER)
  }

  /** What has been found behind n of those records. */
  function FoundAfter(n: nat): Found { Found(20 + 15 * n, Letters(n), [], map[]) }

  lemma {:induction false} LetterLengths(n: nat)
    ensures NamesLength(Letters(n)) == 0 && DatasLength(Letters(n)) == n
    ensures forall z: nat :: CopiesSucceed(Letters(n), z) <==> z == 0 || n == 0
  {
    if n > 0 {
      LetterLengths(n - 1);
      assert Letters(n)[..n - 1] == Letters(n - 1);
      assert Letters(n)[0] in Letters(n);
    }
  }

  lemma LetterRead(raw: seq<byte>, h: nat, f: Found)
    requires h + HEADER_SIZE <= |raw| && !IsCompat(raw, h) && raw[h] == 0
    requires f.pos + 15 <= |raw| && raw[f.pos..f.pos + 15] == LETTER_RECORD
    ensures RecordOk(raw, h, f.pos, 1)
    ensures AddRecord(raw, h, f, 1) == f.(pos := f.pos + 15, props := f.props + [LETTER])
  {
    var p := f.pos;
    assert forall i :: p <= i < p + 15 ==> raw[i] == raw[p..p + 15][i - p];
    assert raw[p + 0] == 15 && raw[p + 1] == raw[p + 2] == raw[p + 3] == 0;
    assert raw[p + 4] == 1 && raw[p + 5] == raw[p + 6] == raw[p + 7] == 0;
    assert raw[p + 8] == raw[p + 9] == 0 && raw[p + 10] == 1 && raw[p + 11] == raw[p + 12] == raw[p + 13] == 0;
    assert raw[p + 14] == 65;
    assert Le32(raw, p) == 15 && Le32(raw, p + 4) == 1 && Le16(raw, p + 8) == 0 && Le32(raw, p + 10) == 1;
    hide Le16, Le32;
    assert raw[p + 10..p + 10] == [] && raw[p + 14..p + 15] == [65];
  }

  /** A section of one such feature with n records, at offset 9. */
  ghost predicate Section(raw: seq<byte>, n: nat) {
    && |raw| == 20 + 15 * n
    && FeatureOk(raw, 9) && Le16(raw, 18) == n
    && (forall j {:trigger FoundAfter(j)} :: 0 <= j <= n ==>
          Records(raw, 9, FoundAfter(0), 1, j) == Some(FoundAfter(j)))
    && Features(raw, 9, 1, 0) == Some(Found(9, [], [], map[]))
    && Features(raw, 9, 1, 1) == Some(FoundAfter(n))
  }

  lemma NamelessFound(two: bool)
    ensures Section(Nameless(two), if two then 2 else 1)
  {
    var raw := Nameless(two);
    hide Nameless, FeatureOk, Le16, RecordOk, AddRecord, IsCompat;
    NamelessHeader(two);
    assert Records(raw, 9, FoundAfter(0), 1, 0) == Some(FoundAfter(0));
    OneMoreLetter(raw, 0);
    if two {
      OneMoreLetter(raw, 1);
    }
    assert Features(raw, 9, 1, 0) == Some(Found(9, [], [], map[]));
  }

  lemma NamelessHeader(two: bool)
    ensures var raw, n: nat := Nameless(two), if two then 2 else 1;
      && |raw| == 20 + 15 * n
      && FeatureOk(raw, 9) && Le16(raw, 18) == n && !IsCompat(raw, 9) && raw[9] == 0
      && raw[20..35] == LETTER_RECORD
      && (two ==> raw[35..50] == LETTER_RECORD)
  {
    if two {
      HeaderRead(Nameless(two), 41, 2);
    } else {
      HeaderRead(Nameless(two), 26, 1);
    }
  }

  lemma HeaderRead(raw: seq<byte>, length: byte, n: byte)
    requires 20 + n <= 9 + length <= |raw| && raw[9..20] == [0, length, 0, 0, 0, 1, 0, 5, 0, n, 0]
    ensures FeatureOk(raw, 9) && Le16(raw, 18) == n && !IsCompat(raw, 9) && raw[9] == 0
  {
    var header: seq<byte> := [0, length, 0, 0, 0, 1, 0, 5, 0, n, 0];
    assert forall i :: 9 <= i < 20 ==> raw[i] == raw[9..20][i - 9] == header[i - 9];
    assert Le32(raw, 10) == length && Le16(raw, 14) == 1 && Le16(raw, 16) == 5 && Le16(raw, 18) == n;
  }

  lemma OneMoreLetter(raw: seq<byte>, j: nat)
    requires 20 + 15 * (j + 1) <= |raw| && Records(raw, 9, FoundAfter(0), 1, j) == Some(FoundAfter(j))
    requires !IsCompat(raw, 9) && raw[9] == 0 && raw[20 + 15 * j..35 + 15 * j] == LETTER_RECORD
    ensures Records(raw, 9, FoundAfter(0), 1, j + 1) == Some(FoundAfter(j + 1))
  {
    hide RecordOk, AddRecord, IsCompat;
    LetterRead(raw, 9, FoundAfter(j));
    assert Letters(j + 1) == Letters(j) + [LETTER];
  }

  lemma InterfaceGranted(b: Binding)
    requires b.Ok() && b.counts == [1, 0, 0] && b.eps == [] && b.env == INTERFACE_ONLY
    ensures AllGranted(b) && !SpeedsFault(b)
  {
    hide At, RawOk, Assigned, AddrMapIs, EnvOk, AnyEps, Appears;
  }

  /** Its first refused copy is that of its first record. */
  lemma FirstLetterDrops(raw: seq<byte>, n: nat, zeroRet: nat, x: Drop)
    requires Section(raw, n) && zeroRet > 0 && DropsFirst(raw, 9, 1, zeroRet, x) && x.feature == 0
    ensures x.at.pos == 9 && x.record == 0 && x.before.pos == 20
  {
    hide FeatureOk, Le16, Records, CopiesSucceed;
    assert x.at == Found(9, [], [], map[]) && x.at.(pos := 20) == FoundAfter(0);
    assert x.before == FoundAfter(x.record);
    LetterLengths(x.record);
  }

  /**
   Accepted properties without a name are filed if and only if empty copies succeed. With
   one, binding succeeds in either case; with two, it reads outside the buffer unless the
   error returned is at most 16.
   */
  lemma NamelessAreLost(two: bool, zeroRet: nat) returns (b: Binding, f: Found)
    ensures b.orig == Nameless(two) && b.counts == [1, 0, 0] && b.osCount == 1 && b.Ok()
    ensures |b.addrmap| == MAX_EPS_COUNT && SecStart(b.orig, b.counts, 3) >= 0 && Sized(b, f, SizesFor(two))
    ensures var r := Bind(b, SizesFor(two), true, zeroRet);
      && (r.Ok? && r.value.os.Some? && Files(r.value.os.value, f, f.props, r.value.nums) <==> zeroRet == 0)
      && (!two ==> r.Ok?)
      && (two && zeroRet > 16 ==> r.Fault?)
  {
    var raw, n: nat := Nameless(two), if two then 2 else 1;
    assert INTERFACE <= raw;
    NamelessFound(two);
    f := FoundAfter(n);
    hide Nameless, Features, Section;
    InterfaceWalk(raw);
    SectionFound(raw, n);
    b := OneInterfaceAccepted(raw, 1, f);
    hide *;
    NamelessStarts(b, two, zeroRet);
    NamelessBound(b, two, zeroRet);
  }

  lemma SectionFound(raw: seq<byte>, n: nat)
    requires Section(raw, n) && n <= 2
    ensures Features(raw, 9, 1, 1) == Some(FoundAfter(n)) && 9 <= |raw| <= 100 && FoundAfter(n).pos == |raw|
  {
    hide Features, Records, FeatureOk;
  }

  function SizesFor(two: bool): OsSizes { if two then OsSizes(2, 0, 2) else OsSizes(1, 0, 1) }

  lemma NamelessBound(b: Binding, two: bool, zeroRet: nat)
    requires b.Ok() && |b.addrmap| == MAX_EPS_COUNT && b.osCount == 1
    requires b.counts == [1, 0, 0] && b.eps == [] && b.env == INTERFACE_ONLY
    requires SecStart(b.orig, b.counts, 3) == 9 && Interfaces(b) == 1 && Section(b.orig, if two then 2 else 1)
    requires Sized(b, FoundAfter(if two then 2 else 1), SizesFor(two)) && Started(b, SizesFor(two), true, zeroRet)
    ensures var r, f := Bind(b, SizesFor(two), true, zeroRet), FoundAfter(if two then 2 else 1);
      && (r.Ok? && r.value.os.Some? && Files(r.value.os.value, f, f.props, r.value.nums) <==> zeroRet == 0)
      && (!two ==> r.Ok?)
      && (two && zeroRet > 16 ==> r.Fault?)
  {
    hide Binding.Ok, SecStart, Interfaces, Sized, Started, SpeedsFault, AllGranted, Bind, Files, CopiesSucceed, Section,
      DropsFirst, NextAfter, Letters, NamesLength, DatasLength;
    var n: nat := if two then 2 else 1;
    LetterLengths(n);
    InterfaceGranted(b);
    FiledWhenCopied(b, FoundAfter(n), SizesFor(two), zeroRet);
    if zeroRet > 0 {
      var x := RefusedOutcome(b, FoundAfter(n), SizesFor(two), zeroRet);
      LetterStrays(b.orig, n, zeroRet, x);
    }
  }

  lemma LetterStrays(raw: seq<byte>, n: nat, zeroRet: nat, x: Drop)
    requires Section(raw, n) && 0 < n <= 2 && zeroRet > 0 && DropsFirst(raw, 9, 1, zeroRet, x) && x.feature == 0
    requires x.at.pos + HEADER_SIZE <= |raw|
    requires NamesLength(x.after.props) <= 2 * NamesLength(Letters(n))
    requires DatasLength(x.after.props) <= DatasLength(Letters(n))
    ensures n == 1 ==> NextAfter(raw, Letters(n), 1, zeroRet, x) == Ends
    ensures n == 2 && zeroRet > 16 ==> NextAfter(raw, Letters(n), 1, zeroRet, x) == Faults
  {
    FirstLetterDrops(raw, n, zeroRet, x);
    assert Le16(raw, 18) == n && |raw| == 20 + 15 * n;
    hide Section, DropsFirst, Le16, Le32, NamesLength, DatasLength, FeatureOk, Letters;
  }

  lemma NamelessStarts(b: Binding, two: bool, zeroRet: nat)
    requires b.counts == [1, 0, 0] && b.eps == [] && b.env == INTERFACE_ONLY && |b.orig| <= 50
    requires SecStart(b.orig, b.counts, 3) >= 0 && Interfaces(b) == 1
    requires OsFound(b.orig, b.counts, b.osCount) == Some(FoundAfter(if two then 2 else 1))
    ensures Started(b, SizesFor(two), true, zeroRet)
    ensures Sized(b, FoundAfter(if two then 2 else 1), SizesFor(two))
  {
    hide SecStart, Interfaces, ChunkSize, OsFound, Letters, NamesLength, DatasLength;
    LetterLengths(if two then 2 else 1);
    Fits(DemandOf(b, SizesFor(two), true));
  }

  /** What BindOutcome says of the OS tables. */
  lemma FiledWhenCopied(b: Binding, f: Found, sizes: OsSizes, zeroRet: nat)
    requires b.Ok() && SecStart(b.orig, b.counts, 3) >= 0 && |b.addrmap| == MAX_EPS_COUNT && Sized(b, f, sizes)
    requires Started(b, sizes, true, zeroRet) && !SpeedsFault(b) && AllGranted(b)
    ensures var r := Bind(b, sizes, true, zeroRet);
      && (CopiesSucceed(f.props, zeroRet) ==> r.Ok?)
      && (r.Ok? ==>
            && r.value.os.Some?
            && (Files(r.value.os.value, f, f.props, r.value.nums) <==> CopiesSucceed(f.props, zeroRet)))
  {
    hide At, SecStart, Binding.Ok, Bind, Sized, Started, SpeedsFault, AllGranted, CopiesSucceed, RawBound, NumsBound,
      SpeedsDone, Files;
    BindOutcome(b, f, sizes, true, zeroRet);
  }
}
