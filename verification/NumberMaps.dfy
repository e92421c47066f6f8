/**
 Translating the host's endpoint and interface numbers back to the user's, as
 ffs_func_setup does for every control request, and the round trip with the
 numbers a bind has written into the descriptors.
 */
module NumberMaps {
  import opened Bytes
  import opened DescWalk
  import opened OsDescs
  import opened DescParser
  import opened BindModel
  import opened BindDescsProof
  import opened BindNumsProof
  import opened BindTheorem

  const RECIP_MASK := 0x20   // the recipient is bRequestType modulo this
  const RECIP_INTERFACE := 1
  const RECIP_ENDPOINT := 2

  /** ffs_func_revmap_ep: only the low four bits of the number are used. */
  function RevmapEp(revmap: seq<nat>, num: nat): Outcome<nat>
    requires |revmap| == ENDPOINT_NUMBERS
  {
    var v := revmap[num % ENDPOINT_NUMBERS];
    if v != 0 then Ok(v) else Err(EDOM)
  }

  /** ffs_func_revmap_intf: the first user interface with that number. */
  function RevmapIntf(nums: seq<int>, intf: nat): (r: Outcome<nat>)
    ensures match r
      case Ok(i) => i < |nums| && nums[i] == intf && forall j :: 0 <= j < i ==> nums[j] != intf
      case Err(e) => e == EDOM && intf !in nums
      case Fault => false
  {
    RevmapFrom(nums, intf, 0)
  }

  function RevmapFrom(nums: seq<int>, intf: nat, i: nat): (r: Outcome<nat>)
    requires i <= |nums| && forall j :: 0 <= j < i ==> nums[j] != intf
    ensures match r
      case Ok(k) => k < |nums| && nums[k] == intf && forall j :: 0 <= j < k ==> nums[j] != intf
      case Err(e) => e == EDOM && intf !in nums
      case Fault => false
    decreases |nums| - i
  {
    if i == |nums| then Err(EDOM)
    else if nums[i] >= 0 && nums[i] == intf then Ok(i)
    else RevmapFrom(nums, intf, i + 1)
  }

  /** The wIndex ffs_func_setup delivers to user space, or the error it returns to the host. */
  function SetupIndex(flags: nat, addrmap: seq<byte>, nums: seq<int>, revmap: seq<nat>,
                      requestType: byte, wIndex: nat): Outcome<nat>
    requires |revmap| == ENDPOINT_NUMBERS && |addrmap| == MAX_EPS_COUNT
  {
    if requestType as int % RECIP_MASK == RECIP_INTERFACE then RevmapIntf(nums, wIndex % 0x100)
    else if requestType as int % RECIP_MASK == RECIP_ENDPOINT then
      match RevmapEp(revmap, wIndex % 0x100)
      case Err(e) => Err(e)
      case Fault => Fault
      case Ok(k) =>
        if !Has(flags, VIRTUAL_ADDR) then Ok(k)
        else if k >= |addrmap| then Fault
        else Ok(addrmap[k] as nat)
    else if Has(flags, ALL_CTRL_RECIP) then Ok(wIndex)
    else Err(EOPNOTSUPP)
  }

  /** The hardware number of the k-th endpoint. */
  function NumberOf(env: Env, k: nat): nat
    requires k < |env.auto| && env.auto[k].Granted?
  {
    env.auto[k].address as nat % ENDPOINT_NUMBERS
  }

  ghost predicate NumbersDistinct(env: Env, n: nat)
    requires n <= |env.auto| && GrantedUpTo(env, n)
  {
    forall i, j :: 0 <= i < j < n ==> NumberOf(env, i) != NumberOf(env, j)
  }

  /** Some endpoint of the bind is given hardware number x. */
  ghost predicate Given(env: Env, n: nat, x: nat)
    requires n <= |env.auto| && GrantedUpTo(env, n)
  {
    exists k :: 0 <= k < n && NumberOf(env, k) == x
  }

  /** A number is mapped to the last endpoint of the bind that was given it, or to what it was mapped to before. */
  lemma {:induction false} RevMapIs(was: NumberMap, env: Env, n: nat, x: nat)
    requires n <= |env.auto| && GrantedUpTo(env, n) && x < ENDPOINT_NUMBERS
    ensures !Given(env, n, x) ==> RevMap(was, env, n)[x] == was[x]
    ensures Given(env, n, x) ==>
              var last := RevMap(was, env, n)[x];
              && 0 < last <= n
              && NumberOf(env, last - 1) == x
              && forall k :: last <= k < n ==> NumberOf(env, k) != x
  {
    if n > 0 {
      RevMapIs(was, env, n - 1, x);
      assert RevMap(was, env, n)[x] == if NumberOf(env, n - 1) == x then n else RevMap(was, env, n - 1)[x];
      if Given(env, n - 1, x) {
        var k :| 0 <= k < n - 1 && NumberOf(env, k) == x;
        assert 0 <= k < n;
      }
    }
  }

  /** Every endpoint is reached through its own number exactly when no two share one. */
  lemma EndpointsRoundTrip(was: NumberMap, env: Env, n: nat)
    requires n <= |env.auto| && GrantedUpTo(env, n)
    ensures (forall k :: 0 <= k < n ==> RevmapEp(RevMap(was, env, n), NumberOf(env, k)) == Ok(k + 1)) <==>
            NumbersDistinct(env, n)
  {
    hide RevMap;
    var m := RevMap(was, env, n);
    forall k | 0 <= k < n
      ensures 0 < m[NumberOf(env, k)] <= n && NumberOf(env, m[NumberOf(env, k)] - 1) == NumberOf(env, k)
    {
      assert Given(env, n, NumberOf(env, k));
      RevMapIs(was, env, n, NumberOf(env, k));
    }
    if NumbersDistinct(env, n) {
      forall k | 0 <= k < n
        ensures RevmapEp(m, NumberOf(env, k)) == Ok(k + 1)
      {
        var r := m[NumberOf(env, k)] - 1;
        assert NumberOf(env, r) == NumberOf(env, k);
        assert r == k;
      }
    } else {
      var i, j :| 0 <= i < j < n && NumberOf(env, i) == NumberOf(env, j);
      assert !(RevmapEp(m, NumberOf(env, i)) == Ok(i + 1) && RevmapEp(m, NumberOf(env, j)) == Ok(j + 1));
    }
  }

  /** Every numbered interface is reached through its own number exactly when no two share one. */
  lemma InterfacesRoundTrip(nums: seq<int>)
    ensures (forall i :: 0 <= i < |nums| && nums[i] >= 0 ==> RevmapIntf(nums, nums[i]) == Ok(i)) <==>
            (forall i, j :: 0 <= i < j < |nums| && nums[i] >= 0 ==> nums[i] != nums[j])
  {
    if forall i :: 0 <= i < |nums| && nums[i] >= 0 ==> RevmapIntf(nums, nums[i]) == Ok(i) {
      forall i, j | 0 <= i < j < |nums| && nums[i] >= 0
        ensures nums[i] != nums[j]
      {
        assert RevmapIntf(nums, nums[i]) == Ok(i);
        if nums[j] >= 0 {
          assert RevmapIntf(nums, nums[j]) == Ok(j);
        }
      }
    }
  }

  /** An endpoint descriptor of the buffer belongs to one of the declared endpoints. */
  lemma EndpointOfDesc(b: Binding, j: nat, p: nat) returns (k: nat)
    requires b.Ok() && SecStart(b.orig, b.counts, 3) >= 0 && j < b.Total() && b.Off(j) == p && IsEndpoint(b.orig, p)
    ensures k < |b.eps| && b.eps[k] == b.orig[p + 2]
  {
    hide At, DescOk, IsType, EpOffs, EpAddrs, Binding.Ok;
    var s, i := SpeedOfDesc(b, j);
    SectionIsStretch(b, s, i);
    var start := SecStart(b.orig, b.counts, s);
    var q := HereFrom(b, s, start, i);
    EndpointInOrder(b, s, start, i, q);
    k := |EpOffs(b.orig, start, i)|;
  }

  /** With distinct addresses, an endpoint's new address is the one assigned to it, and the map finds it. */
  lemma NewEpOf(b: Binding, k: nat)
    requires b.Ok() && Bindable(b) && k < |b.eps|
    ensures |b.news| == |b.eps| < MAX_EPS_COUNT == |b.addrmap| && b.addrmap[k + 1] == b.eps[k]
    ensures NewOf(b.Job(), b.eps[k]) == b.news[k]
    ensures k < |b.env.auto| && b.env.auto[k].Granted?
    ensures b.news[k].address == if b.env.virtual then b.eps[k] else b.env.auto[k].address
  {
    hide RawOk;
    AddrIndexIs(b.addrmap, b.eps, k);
    assert AddrIndex(b.addrmap, b.eps[k], 1) == k + 1;
  }

  ghost predicate IdsDistinct(nums: seq<int>) {
    forall i, j :: 0 <= i < j < |nums| && nums[i] >= 0 ==> nums[i] != nums[j]
  }

  /**
   After a successful bind with distinct endpoint numbers, a request that names the
   hardware number of an endpoint reaches user space with the endpoint's index, or
   with its original address when addresses are virtual. When they are not, the
   number is the one in every bound descriptor of that endpoint.
   */
  lemma EndpointRequest(b: Binding, raw: seq<byte>, st: BindSt, j: nat, p: nat, requestType: byte, flags: nat)
    returns (k: nat)
    requires b.Ok() && Bindable(b) && RawBound(b, raw) && SpeedsDone(b, 3, st) && NumbersDistinct(b.env, |b.eps|)
    requires j < b.Total() && b.Off(j) == p && IsEndpoint(b.orig, p)
    requires requestType as int % RECIP_MASK == RECIP_ENDPOINT && Has(flags, VIRTUAL_ADDR) == b.env.virtual
    ensures k < |b.eps| <= |b.env.auto| && b.eps[k] == b.orig[p + 2] && b.env.auto[k].Granted?
    ensures !b.env.virtual ==> raw[p + 2] as nat % ENDPOINT_NUMBERS == NumberOf(b.env, k)
    ensures b.env.virtual ==> raw[p + 2] == b.orig[p + 2]
    ensures |st.revmap| == ENDPOINT_NUMBERS && |b.addrmap| == MAX_EPS_COUNT
    ensures forall w: nat, nums :: w % ENDPOINT_NUMBERS == NumberOf(b.env, k) ==>
              SetupIndex(flags, b.addrmap, nums, st.revmap, requestType, w) ==
              Ok(if b.env.virtual then b.orig[p + 2] as nat else k + 1)
  {
    hide At, DescOk, Binding.Ok, SpeedsDone, RevMap, NumberOf, SetupIndex, NewOf, Binding.Lead;
    k := EndpointOfDesc(b, j, p);
    NewEpOf(b, k);
    assert DescBound(b, raw, b.Off(j), j < b.Lead());
    AddressNumber(b, k);
    RevMapWhole(b, st);
    EndpointsRoundTrip(b.was, b.env, |b.eps|);
    forall w: nat, nums | w % ENDPOINT_NUMBERS == NumberOf(b.env, k)
      ensures SetupIndex(flags, b.addrmap, nums, st.revmap, requestType, w) ==
              Ok(if b.env.virtual then b.orig[p + 2] as nat else k + 1)
    {
      SetupEndpoint(flags, b.addrmap, nums, st.revmap, requestType, w, NumberOf(b.env, k));
    }
  }

  lemma AddressNumber(b: Binding, k: nat)
    requires k < |b.env.auto| && b.env.auto[k].Granted?
    ensures NumberOf(b.env, k) == b.env.auto[k].address as nat % ENDPOINT_NUMBERS
  {
  }

  /** The endpoint case of ffs_func_setup, by the number in the low bits of wIndex. */
  lemma SetupEndpoint(flags: nat, addrmap: seq<byte>, nums: seq<int>, revmap: seq<nat>, requestType: byte,
                      w: nat, number: nat)
    requires |revmap| == ENDPOINT_NUMBERS && |addrmap| == MAX_EPS_COUNT
    requires requestType as int % RECIP_MASK == RECIP_ENDPOINT && number == w % ENDPOINT_NUMBERS
    ensures SetupIndex(flags, addrmap, nums, revmap, requestType, w) == Delivered(flags, addrmap, revmap[number])
    ensures RevmapEp(revmap, number) == if revmap[number] == 0 then Err(EDOM) else Ok(revmap[number])
  {
    assert w % 0x100 % ENDPOINT_NUMBERS == w % ENDPOINT_NUMBERS;
  }

  lemma RevMapWhole(b: Binding, st: BindSt)
    requires b.Ok() && SpeedsDone(b, 3, st)
    ensures |b.eps| <= |b.env.auto| && st.revmap == RevMap(b.was, b.env, |b.eps|)
  {
    hide Rewritten, Slots, Binding.Ok;
    BindPrefix(b);
  }

  /**
   The wIndex delivered, from the fields of the request and the user's flags alone: the low
   five bits of bmRequestType name the recipient, flag 16 asks for addresses instead of
   endpoint indices, and flag 64 for requests to neither an interface nor an endpoint.
   */
  lemma RequestsByRecipient(flags: nat, addrmap: seq<byte>, nums: seq<int>, revmap: seq<nat>, requestType: byte, w: nat)
    requires |revmap| == ENDPOINT_NUMBERS && |addrmap| == MAX_EPS_COUNT
    ensures var r, recipient, k := SetupIndex(flags, addrmap, nums, revmap, requestType, w), requestType % 32,
                                   revmap[w % 16];
      && (recipient == 1 ==>
            && (r == Err(EDOM) <==> w % 256 !in nums)
            && (forall i: nat :: r == Ok(i) <==>
                  i < |nums| && nums[i] == w % 256 && forall j :: 0 <= j < i ==> nums[j] != w % 256))
      && (recipient == 2 ==>
            && (k == 0 ==> r == Err(EDOM))
            && (k > 0 && flags / 16 % 2 == 0 ==> r == Ok(k))
            && (0 < k < MAX_EPS_COUNT && flags / 16 % 2 == 1 ==> r == Ok(addrmap[k] as nat)))
      && (recipient != 1 && recipient != 2 ==>
            r == if flags / 64 % 2 == 1 then Ok(w) else Err(EOPNOTSUPP))
  {
    assert w % 0x100 % ENDPOINT_NUMBERS == w % 16;
  }

  /** What a request for a number with entry k comes to. */
  function Delivered(flags: nat, addrmap: seq<byte>, k: nat): Outcome<nat>
    requires |addrmap| == MAX_EPS_COUNT
  {
    if k == 0 then Err(EDOM)
    else if !Has(flags, VIRTUAL_ADDR) then Ok(k)
    else if k >= |addrmap| then Fault
    else Ok(addrmap[k] as nat)
  }

  /**
   A request for a hardware number is rejected exactly when no endpoint was given the
   number in this bind, and none in an earlier bind of the function: nothing ever clears
   the reverse map, and what an earlier bind left in it is delivered.
   */
  lemma ForeignEndpointRejected(b: Binding, st: BindSt, requestType: byte, flags: nat, nums: seq<int>, w: nat)
    requires b.Ok() && Bindable(b) && SpeedsDone(b, 3, st)
    requires requestType as int % RECIP_MASK == RECIP_ENDPOINT
    ensures |st.revmap| == ENDPOINT_NUMBERS && |b.addrmap| == MAX_EPS_COUNT && |b.eps| <= |b.env.auto|
    ensures var r, number := SetupIndex(flags, b.addrmap, nums, st.revmap, requestType, w), w % ENDPOINT_NUMBERS;
      && (r == Err(EDOM) <==> !Given(b.env, |b.eps|, number) && b.was[number] == 0)
      && (!Given(b.env, |b.eps|, number) ==> r == Delivered(flags, b.addrmap, b.was[number]))
  {
    hide At, DescOk, Binding.Ok, SpeedsDone, RevMap, NumberOf, SetupIndex, GrantedUpTo;
    BindPrefix(b);
    RevMapWhole(b, st);
    var number := w % ENDPOINT_NUMBERS;
    RevMapIs(b.was, b.env, |b.eps|, number);
    SetupEndpoint(flags, b.addrmap, nums, st.revmap, requestType, w, number);
  }

  // Over the life of a function: one bind after another, with unbinds between them.

  /** A bind that succeeded: the gadget's answers, and how many endpoints it was asked for. */
  datatype Grants = Grants(env: Env, endpoints: nat)

  ghost predicate AllGrants(binds: seq<Grants>) {
    forall i :: 0 <= i < |binds| ==>
      binds[i].endpoints <= |binds[i].env.auto| && GrantedUpTo(binds[i].env, binds[i].endpoints)
  }

  ghost function MapAfter(binds: seq<Grants>): NumberMap
    requires AllGrants(binds)
  {
    if binds == [] then NO_NUMBERS
    else
      var last := binds[|binds| - 1];
      RevMap(MapAfter(binds[..|binds| - 1]), last.env, last.endpoints)
  }

  /** An entry is 0 exactly when none of the binds gave its number, and otherwise it is as the last that did left it. */
  lemma {:induction false} MapRemembers(binds: seq<Grants>, x: nat)
    requires AllGrants(binds) && x < ENDPOINT_NUMBERS
    ensures MapAfter(binds)[x] == 0 <==>
            forall i :: 0 <= i < |binds| ==> !Given(binds[i].env, binds[i].endpoints, x)
    ensures binds != [] ==>
              var last, before := binds[|binds| - 1], binds[..|binds| - 1];
              && AllGrants(before)
              && (if Given(last.env, last.endpoints, x)
                  then 0 < MapAfter(binds)[x] <= last.endpoints && NumberOf(last.env, MapAfter(binds)[x] - 1) == x
                  else MapAfter(binds)[x] == MapAfter(before)[x])
  {
    hide RevMap, Given;
    if binds != [] {
      var last, before := binds[|binds| - 1], binds[..|binds| - 1];
      MapRemembers(before, x);
      RevMapIs(MapAfter(before), last.env, last.endpoints, x);
    }
  }

  /**
   A request that names the number now in an interface descriptor reaches user
   space with the user's own number for that interface.
   */
  lemma InterfaceRequest(b: Binding, raw: seq<byte>, nums: seq<int>, revmap: seq<nat>, j: nat, p: nat,
                         requestType: byte, flags: nat, w: nat)
    requires b.Ok() && RawBound(b, raw) && NumsBound(b, nums) && Numbered(b, b.Total()) && IdsDistinct(nums)
    requires j < b.Total() && b.Off(j) == p && IsInterface(b.orig, p)
    requires requestType as int % RECIP_MASK == RECIP_INTERFACE && w % 0x100 == raw[p + 2] as nat
    requires |revmap| == ENDPOINT_NUMBERS && |b.addrmap| == MAX_EPS_COUNT
    ensures SetupIndex(flags, b.addrmap, nums, revmap, requestType, w) == Ok(b.orig[p + 2] as nat)
  {
    hide At, DescOk, Binding.Ok, RevmapIntf;
    NumbersInRange(b, j, p);
    var i := b.orig[p + 2];
    assert DescBound(b, raw, b.Off(j), j < b.Lead());
    assert Appears(b, i, b.Total()) by {
      assert IsInterface(b.orig, At(b.orig, 0, j)) && b.orig[At(b.orig, 0, j) + 2] == i;
    }
    InterfacesRoundTrip(nums);
    assert nums[i] == b.env.ids[i] == raw[p + 2];
  }
}
