/**
 Framing of USB descriptors, as ffs_do_descs and ffs_do_single_desc see it.

 A walk starts at an offset of the buffer and visits count descriptors, each
 found by adding the previous descriptor's bLength. Everything here is stated
 on the buffer alone, so that the validating walk and the rewriting walks of
 bind time can be compared.
 */
module DescWalk {
  import opened Bytes

  // bDescriptorType values: tables 9-5 and 9-6 of USB 2.0 and the class documents.
  const DT_DEVICE: byte := 0x01
  const DT_CONFIG: byte := 0x02
  const DT_STRING: byte := 0x03
  const DT_INTERFACE: byte := 0x04
  const DT_ENDPOINT: byte := 0x05
  const DT_DEVICE_QUALIFIER: byte := 0x06
  const DT_OTG: byte := 0x09
  const DT_INTERFACE_ASSOCIATION: byte := 0x0b
  const DT_HID: byte := 0x21
  const DT_SS_ENDPOINT_COMP: byte := 0x30

  // The low four bits of bEndpointAddress.
  const ENDPOINT_NUMBERS := 16

  /** Types a function may not supply itself. */
  predicate Reserved(t: byte) {
    t == DT_DEVICE || t == DT_CONFIG || t == DT_STRING || t == DT_DEVICE_QUALIFIER
  }

  /** The bLength each recognised type must have; other types may have any, even 0. */
  predicate LengthFits(t: byte, length: byte) {
    if t == DT_INTERFACE then length == 9
    else if t == DT_ENDPOINT then length == 7 || length == 9
    else if t == DT_HID then length == 9
    else if t == DT_OTG then length == 3
    else if t == DT_INTERFACE_ASSOCIATION then length == 8
    else if t == DT_SS_ENDPOINT_COMP then length == 6
    else true
  }

  /** The checks ffs_do_single_desc makes on the descriptor at p, with len == |raw| - p. */
  predicate DescOk(raw: seq<byte>, p: nat)
    requires p <= |raw|
  {
    && |raw| - p >= 2
    && raw[p] <= |raw| - p
    && !Reserved(raw[p + 1])
    && LengthFits(raw[p + 1], raw[p])
    && (raw[p + 1] == DT_ENDPOINT ==> raw[p + 2] % ENDPOINT_NUMBERS != 0)
  }

  /** Offset reached after k descriptors from start, or -1 when one of them is rejected. */
  function At(raw: seq<byte>, start: nat, k: nat): (r: int)
    requires start <= |raw|
    ensures r == -1 || start <= r <= |raw|
  {
    if k == 0 then start
    else
      var p := At(raw, start, k - 1);
      if p < 0 || !DescOk(raw, p) then -1 else p + raw[p]
  }

  predicate IsType(raw: seq<byte>, p: int, t: byte) {
    0 <= p <= |raw| && DescOk(raw, p) && raw[p + 1] == t
  }

  predicate IsEndpoint(raw: seq<byte>, p: int): (r: bool)
    ensures r ==> 0 <= p && p + 7 <= |raw| && 7 <= raw[p] <= |raw| - p
  {
    IsType(raw, p, DT_ENDPOINT)
  }

  predicate IsInterface(raw: seq<byte>, p: int): (r: bool)
    ensures r ==> 0 <= p && p + 9 <= |raw| && raw[p] == 9
  {
    IsType(raw, p, DT_INTERFACE)
  }

  /** Offset of the string-index byte of the descriptor at p, or -1 when it names no string. */
  function StringAt(raw: seq<byte>, p: nat): (r: int)
    requires p <= |raw| && DescOk(raw, p)
    ensures r != -1 ==> p + 2 < r < p + raw[p] && raw[r] != 0
  {
    if raw[p + 1] == DT_INTERFACE && raw[p + 8] != 0 then p + 8
    else if raw[p + 1] == DT_INTERFACE_ASSOCIATION && raw[p + 7] != 0 then p + 7
    else -1
  }

  /** Offsets of the endpoint descriptors among the first k, in order. */
  function EpOffs(raw: seq<byte>, start: nat, k: nat): (r: seq<nat>)
    requires start <= |raw| && At(raw, start, k) >= 0
    ensures forall i :: 0 <= i < |r| ==> start <= r[i] && IsEndpoint(raw, r[i])
  {
    if k == 0 then []
    else
      var p: nat := At(raw, start, k - 1);
      if IsEndpoint(raw, p) then EpOffs(raw, start, k - 1) + [p] else EpOffs(raw, start, k - 1)
  }

  /** bEndpointAddress of each endpoint descriptor among the first k, in order. */
  function EpAddrs(raw: seq<byte>, start: nat, k: nat): (r: seq<byte>)
    requires start <= |raw| && At(raw, start, k) >= 0
    ensures |r| == |EpOffs(raw, start, k)|
    ensures forall i :: 0 <= i < |r| ==> r[i] == raw[EpOffs(raw, start, k)[i] + 2]
  {
    AddrsAt(raw, EpOffs(raw, start, k))
  }

  function AddrsAt(raw: seq<byte>, offs: seq<nat>): (r: seq<byte>)
    requires forall i :: 0 <= i < |offs| ==> offs[i] + 2 < |raw|
    ensures |r| == |offs|
    ensures forall i :: 0 <= i < |r| ==> r[i] == raw[offs[i] + 2]
  {
    seq(|offs|, i requires 0 <= i < |offs| => raw[offs[i] + 2])
  }

  /** One more than the largest bInterfaceNumber among the first k, 0 without interfaces. */
  function IntfCount(raw: seq<byte>, start: nat, k: nat): nat
    requires start <= |raw| && At(raw, start, k) >= 0
  {
    if k == 0 then 0
    else
      var p := At(raw, start, k - 1);
      var m := IntfCount(raw, start, k - 1);
      if IsInterface(raw, p) then Max(m, raw[p + 2] as int + 1) else m
  }

  /** Largest string index named by the first k, 0 when none is. */
  function StrMax(raw: seq<byte>, start: nat, k: nat): nat
    requires start <= |raw| && At(raw, start, k) >= 0
  {
    if k == 0 then 0
    else
      var p := At(raw, start, k - 1);
      var m := StrMax(raw, start, k - 1);
      if StringAt(raw, p) != -1 then Max(m, raw[StringAt(raw, p)]) else m
  }

  lemma WalkZero(raw: seq<byte>, start: nat)
    requires start <= |raw|
    ensures At(raw, start, 0) == start && EpAddrs(raw, start, 0) == []
    ensures IntfCount(raw, start, 0) == StrMax(raw, start, 0) == 0
  {
  }

  /** One more descriptor, the one at p: how each summary of the walk grows. */
  lemma WalkNext(raw: seq<byte>, start: nat, k: nat, p: nat)
    requires start <= |raw| && At(raw, start, k) == p && DescOk(raw, p)
    ensures At(raw, start, k + 1) == p + raw[p] <= |raw|
    ensures EpOffs(raw, start, k + 1) ==
            if IsEndpoint(raw, p) then EpOffs(raw, start, k) + [p] else EpOffs(raw, start, k)
    ensures EpAddrs(raw, start, k + 1) ==
            if IsEndpoint(raw, p) then EpAddrs(raw, start, k) + [raw[p + 2]] else EpAddrs(raw, start, k)
    ensures IntfCount(raw, start, k + 1) ==
            if IsInterface(raw, p) then Max(IntfCount(raw, start, k), raw[p + 2] as int + 1)
            else IntfCount(raw, start, k)
    ensures StrMax(raw, start, k + 1) ==
            if StringAt(raw, p) != -1 then Max(StrMax(raw, start, k), raw[StringAt(raw, p)])
            else StrMax(raw, start, k)
  {
    OffsNext(raw, start, k, p);
    hide At, DescOk, IsType, StringAt, EpOffs, IntfCount, StrMax;
    if IsEndpoint(raw, p) {
      AddrsAppend(raw, EpOffs(raw, start, k), p);
    }
  }

  lemma OffsNext(raw: seq<byte>, start: nat, k: nat, p: nat)
    requires start <= |raw| && At(raw, start, k) == p && DescOk(raw, p)
    ensures At(raw, start, k + 1) == p + raw[p] <= |raw|
    ensures EpOffs(raw, start, k + 1) ==
            if IsEndpoint(raw, p) then EpOffs(raw, start, k) + [p] else EpOffs(raw, start, k)
    ensures IntfCount(raw, start, k + 1) ==
            if IsInterface(raw, p) then Max(IntfCount(raw, start, k), raw[p + 2] as int + 1)
            else IntfCount(raw, start, k)
    ensures StrMax(raw, start, k + 1) ==
            if StringAt(raw, p) != -1 then Max(StrMax(raw, start, k), raw[StringAt(raw, p)])
            else StrMax(raw, start, k)
  {
    hide LengthFits, StringAt, IsType;
  }

  lemma AddrsAppend(raw: seq<byte>, offs: seq<nat>, p: nat)
    requires (forall i :: 0 <= i < |offs| ==> offs[i] + 2 < |raw|) && p + 2 < |raw|
    ensures AddrsAt(raw, offs + [p]) == AddrsAt(raw, offs) + [raw[p + 2]]
  {
  }

  /** A walk that reaches the k-th descriptor has reached every earlier one, at no later offset. */
  lemma {:induction false} WalkPrefix(raw: seq<byte>, start: nat, j: nat, k: nat)
    requires start <= |raw| && j <= k && At(raw, start, k) >= 0
    ensures 0 <= At(raw, start, j) <= At(raw, start, k)
    ensures EpOffs(raw, start, j) <= EpOffs(raw, start, k)
    ensures IntfCount(raw, start, j) <= IntfCount(raw, start, k)
    ensures StrMax(raw, start, j) <= StrMax(raw, start, k)
    decreases k
  {
    if j < k {
      WalkPrefix(raw, start, j, k - 1);
    }
  }

  /** Descriptors do not overlap: each ends at or before the next one begins. */
  lemma WalkStep(raw: seq<byte>, start: nat, j: nat, k: nat)
    requires start <= |raw| && j < k && At(raw, start, k) >= 0
    ensures At(raw, start, j) >= 0 && DescOk(raw, At(raw, start, j))
    ensures At(raw, start, j) + raw[At(raw, start, j)] == At(raw, start, j + 1) <= At(raw, start, k)
  {
    WalkPrefix(raw, start, j + 1, k);
    WalkPrefix(raw, start, j, k);
  }

  /** Walking a + b descriptors is walking a, then b from where that stopped. */
  lemma {:induction false} WalkAppend(raw: seq<byte>, start: nat, a: nat, b: nat)
    requires start <= |raw| && At(raw, start, a) >= 0
    ensures At(raw, start, a + b) == At(raw, At(raw, start, a), b)
  {
    hide DescOk;
    if b > 0 {
      WalkAppend(raw, start, a, b - 1);
      assert a + b - 1 == a + (b - 1);
    }
  }

  ghost predicate Apart(offs: seq<nat>, end: int) {
    && (forall x :: 0 <= x < |offs| ==> offs[x] + 7 <= end)
    && (forall x, y :: 0 <= x < y < |offs| ==> offs[x] + 7 <= offs[y])
  }

  /** Endpoint descriptors are listed in order of offset and do not overlap. */
  lemma {:induction false} EpOffsApart(raw: seq<byte>, start: nat, k: nat)
    requires start <= |raw| && At(raw, start, k) >= 0
    ensures Apart(EpOffs(raw, start, k), At(raw, start, k))
  {
    if k > 0 {
      EpOffsApart(raw, start, k - 1);
      var p: nat := At(raw, start, k - 1);
      assert DescOk(raw, p) && At(raw, start, k) == p + raw[p];
      assert raw[p + 1] == DT_ENDPOINT ==> raw[p] >= 7;
      var e, before := EpOffs(raw, start, k), EpOffs(raw, start, k - 1);
      assert e == before || (e == before + [p] && raw[p] >= 7);
    }
  }

  /** The endpoint list is complete: it holds the offset of every endpoint visited. */
  lemma EpOffsComplete(raw: seq<byte>, start: nat, k: nat, j: nat)
    requires start <= |raw| && j < k && At(raw, start, k) >= 0
    requires IsEndpoint(raw, At(raw, start, j))
    ensures EpOffs(raw, start, j + 1) == EpOffs(raw, start, j) + [At(raw, start, j)]
    ensures At(raw, start, j) in EpOffs(raw, start, k)
  {
    WalkPrefix(raw, start, j + 1, k);
    assert EpOffs(raw, start, j + 1)[|EpOffs(raw, start, j)|] == At(raw, start, j);
  }

  /** The endpoint at p is the next one on the list, and its address the next one among the addresses. */
  lemma EndpointListed(raw: seq<byte>, start: nat, i: nat, count: nat, p: nat)
    requires start <= |raw| && i < count && At(raw, start, count) >= 0 && At(raw, start, i) == p
    ensures DescOk(raw, p) && At(raw, start, i + 1) == p + raw[p]
    ensures EpOffs(raw, start, i + 1) ==
            if IsEndpoint(raw, p) then EpOffs(raw, start, i) + [p] else EpOffs(raw, start, i)
    ensures IsEndpoint(raw, p) ==>
              var e := |EpOffs(raw, start, i)|;
              e < |EpAddrs(raw, start, count)| && EpAddrs(raw, start, count)[e] == raw[p + 2]
  {
    hide At, DescOk, IsType, StringAt, EpOffs, EpAddrs, IntfCount, StrMax;
    WalkStep(raw, start, i, count);
    WalkNext(raw, start, i, p);
    WalkPrefix(raw, start, i + 1, count);
    if IsEndpoint(raw, p) {
      var e := |EpOffs(raw, start, i)|;
      assert EpOffs(raw, start, i + 1)[e] == p;
      assert EpOffs(raw, start, count)[e] == p;
    }
  }

  /** Every listed endpoint was visited. */
  lemma {:induction false} EpOffsVisited(raw: seq<byte>, start: nat, k: nat, x: nat) returns (j: nat)
    requires start <= |raw| && At(raw, start, k) >= 0 && x < |EpOffs(raw, start, k)|
    ensures j < k && At(raw, start, j) == EpOffs(raw, start, k)[x] && |EpOffs(raw, start, j)| == x
  {
    if x < |EpOffs(raw, start, k - 1)| {
      j := EpOffsVisited(raw, start, k - 1, x);
    } else {
      j := k - 1;
    }
  }

  /** Every interface number and string index met on the walk is within the totals it reports. */
  lemma {:induction false} TotalsBound(raw: seq<byte>, start: nat, k: nat, j: nat)
    requires start <= |raw| && j < k && At(raw, start, k) >= 0
    ensures At(raw, start, j) >= 0 && DescOk(raw, At(raw, start, j))
    ensures IsInterface(raw, At(raw, start, j)) ==> raw[At(raw, start, j) + 2] < IntfCount(raw, start, k)
    ensures var s := StringAt(raw, At(raw, start, j)); s != -1 ==> raw[s] <= StrMax(raw, start, k)
  {
    WalkStep(raw, start, j, k);
    WalkPrefix(raw, start, j + 1, k);
  }

  /**
   raw' keeps the frame of raw over the first k descriptors: the headers are the same
   and an endpoint still has a nonzero number. Any other byte may differ.
   */
  ghost predicate SameFrame(raw: seq<byte>, raw': seq<byte>, start: nat, k: nat)
    requires start <= |raw| && At(raw, start, k) >= 0
  {
    && |raw'| == |raw|
    && forall j {:trigger At(raw, start, j)} :: 0 <= j < k ==> KeepsHeader(raw, raw', At(raw, start, j))
  }

  ghost predicate KeepsHeader(raw: seq<byte>, raw': seq<byte>, p: int)
    requires |raw| == |raw'|
  {
    && 0 <= p <= |raw|
    && DescOk(raw, p)
    && raw'[p] == raw[p]
    && raw'[p + 1] == raw[p + 1]
    && (raw[p + 1] == DT_ENDPOINT ==> raw'[p + 2] % ENDPOINT_NUMBERS != 0)
  }

  /** Two buffers with the same frame are walked through the same offsets. */
  lemma {:induction false} FrameDeterminesWalk(raw: seq<byte>, raw': seq<byte>, start: nat, n: nat, k: nat)
    requires start <= |raw| && At(raw, start, n) >= 0 && k <= n
    requires SameFrame(raw, raw', start, n)
    ensures At(raw', start, k) == At(raw, start, k) >= 0
    ensures k < n ==> DescOk(raw', At(raw, start, k))
  {
    WalkPrefix(raw, start, k, n);
    if k < n {
      WalkStep(raw, start, k, n);
    }
    if k > 0 {
      FrameDeterminesWalk(raw, raw', start, n, k - 1);
    }
  }

  /** Writing inside a descriptor's body, past its header, cannot touch any header of the walk. */
  lemma BodyWriteKeepsFrame(raw: seq<byte>, cur: seq<byte>, start: nat, n: nat, j: nat, at: nat, v: byte)
    requires start <= |raw| && At(raw, start, n) >= 0 && j < n
    requires SameFrame(raw, cur, start, n)
    requires At(raw, start, j) >= 0 && DescOk(raw, At(raw, start, j))
    requires At(raw, start, j) + 2 <= at < At(raw, start, j) + raw[At(raw, start, j)]
    requires IsEndpoint(raw, At(raw, start, j)) && at == At(raw, start, j) + 2 ==> v % ENDPOINT_NUMBERS != 0
    ensures SameFrame(raw, cur[at := v], start, n)
  {
    assert |cur| == |raw| && at < |raw|;
    hide DescOk, KeepsHeader, IsEndpoint;
    forall i {:trigger At(raw, start, i)} | 0 <= i < n
      ensures KeepsHeader(raw, cur[at := v], At(raw, start, i))
    {
      assert KeepsHeader(raw, cur, At(raw, start, i));
      WalkStep(raw, start, i, n);
      WalkStep(raw, start, j, n);
      if i < j {
        WalkStep(raw, start, i, j);
      } else if j < i {
        WalkStep(raw, start, j, i);
      }
      HeaderKept(raw, cur, At(raw, start, j), At(raw, start, i), at, v);
    }
  }

  /** The body of the descriptor at p holds no header but, if anything, its own endpoint address. */
  lemma HeaderKept(raw: seq<byte>, cur: seq<byte>, p: nat, q: nat, at: nat, v: byte)
    requires p <= |raw| == |cur| && DescOk(raw, p) && KeepsHeader(raw, cur, q)
    requires p + 2 <= at < p + raw[p] && (IsEndpoint(raw, p) && at == p + 2 ==> v % ENDPOINT_NUMBERS != 0)
    requires p == q || p + raw[p] <= q || q + raw[q] <= p
    ensures KeepsHeader(raw, cur[at := v], q)
  {
  }

  /** Every summary of a walk over k descriptors is the same on both buffers. */
  ghost predicate SameWalk(raw: seq<byte>, raw': seq<byte>, start: nat, k: nat)
    requires start <= |raw| == |raw'| && At(raw, start, k) >= 0
  {
    && At(raw', start, k) == At(raw, start, k)
    && EpAddrs(raw', start, k) == EpAddrs(raw, start, k)
    && IntfCount(raw', start, k) == IntfCount(raw, start, k)
    && StrMax(raw', start, k) == StrMax(raw, start, k)
  }

  /**
   A walk looks at no byte past the two after its end: a trailing descriptor
   shorter than its own header is the one case that looks past the end at all.
   */
  lemma {:induction false} WalkLocal(raw: seq<byte>, raw': seq<byte>, start: nat, k: nat)
    requires start <= |raw| == |raw'| && At(raw, start, k) >= 0
    requires forall i :: 0 <= i < |raw| && i < At(raw, start, k) + 2 ==> raw'[i] == raw[i]
    ensures SameWalk(raw, raw', start, k)
  {
    hide DescOk, IsType, StringAt, EpOffs, EpAddrs, IntfCount, StrMax;
    if k > 0 {
      WalkStep(raw, start, k - 1, k);
      WalkLocal(raw, raw', start, k - 1);
      var p := At(raw, start, k - 1);
      DescLocal(raw, raw', p);
      assert k - 1 + 1 == k;
      SameWalkNext(raw, raw', start, k - 1, p);
    } else {
      WalkZero(raw, start);
      WalkZero(raw', start);
    }
  }

  lemma SameWalkNext(raw: seq<byte>, raw': seq<byte>, start: nat, k: nat, p: nat)
    requires start <= |raw| == |raw'| && At(raw, start, k) == p && DescOk(raw, p) && DescOk(raw', p)
    requires SameWalk(raw, raw', start, k)
    requires raw'[p] == raw[p]
    requires IsEndpoint(raw', p) == IsEndpoint(raw, p) && (IsEndpoint(raw, p) ==> raw'[p + 2] == raw[p + 2])
    requires IsInterface(raw', p) == IsInterface(raw, p) && (IsInterface(raw, p) ==> raw'[p + 2] == raw[p + 2])
    requires var s := StringAt(raw, p); StringAt(raw', p) == s && (s != -1 ==> raw'[s] == raw[s])
    ensures At(raw, start, k + 1) >= 0 && SameWalk(raw, raw', start, k + 1)
  {
    hide LengthFits, IsType, StringAt, At, EpOffs, EpAddrs, IntfCount, StrMax;
    WalkNext(raw, start, k, p);
    WalkNext(raw', start, k, p);
  }

  lemma DescLocal(raw: seq<byte>, raw': seq<byte>, p: nat)
    requires p <= |raw| == |raw'| && DescOk(raw, p)
    requires forall i :: p <= i < |raw| && (i < p + 2 || i < p + raw[p]) ==> raw'[i] == raw[i]
    ensures DescOk(raw', p) && raw'[p] == raw[p]
    ensures IsEndpoint(raw, p) ==> IsEndpoint(raw', p) && raw'[p + 2] == raw[p + 2]
    ensures IsEndpoint(raw', p) == IsEndpoint(raw, p)
    ensures IsInterface(raw', p) == IsInterface(raw, p)
    ensures IsInterface(raw, p) ==> raw'[p + 2] == raw[p + 2]
    ensures StringAt(raw', p) == StringAt(raw, p)
    ensures StringAt(raw, p) != -1 ==> raw'[StringAt(raw, p)] == raw[StringAt(raw, p)]
  {
  }
}
