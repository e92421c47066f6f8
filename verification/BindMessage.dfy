/**
 What binding makes of a message, on the fields of its descriptors: the bytes it leaves
 are the encoding of the same descriptors, with the numbers of the composite device.
 */
module BindMessage {
  import opened Bytes
  import opened DescWalk
  import opened OsDescs
  import opened DescCodec
  import opened OsCodec
  import opened DescParser
  import opened DescMessage
  import opened BindModel
  import opened BindDescsProof
  import opened BindNumsProof
  import opened OsBind
  import opened HostReport
  import opened BindTheorem
  import opened NumberMaps

  /** The id of the string with the user's index i, 0 staying 0. */
  function StringId(env: Env, i: byte): byte
    requires i <= |env.strIds|
  {
    if i == 0 then 0 else env.strIds[i - 1]
  }

  /**
   The endpoint e that d is bound as, when the hardware has given k to its address: the address,
   unless addresses stay virtual, and the packet size in the first speed with endpoints, and
   where the user left it 0.
   */
  ghost predicate EndpointBound(env: Env, d: Desc, e: Desc, k: Auto, first: bool)
    requires d.EpDesc?
  {
    && k.Granted? && e.EpDesc?
    && e == d.(address := e.address, size0 := e.size0, size1 := e.size1)
    && e.address == (if env.virtual then d.address else k.address)
    && (if first || (d.size0 == 0 && d.size1 == 0) then e.size0 == k.size0 && e.size1 == k.size1
        else e.size0 == d.size0 && e.size1 == d.size1)
  }

  /** The descriptor e that d is bound as; eps are the user's endpoint addresses, in the order the gadget was asked. */
  ghost predicate Rebound(env: Env, eps: seq<byte>, d: Desc, e: Desc, first: bool) {
    match d
    case IntfDesc(n, _, _, _, _, _, i) =>
      && n < |env.ids| && i <= |env.strIds| && e.IntfDesc?
      && e.number == env.ids[n] && e == d.(number := e.number, iInterface := StringId(env, i))
    case AssocDesc(_, _, _, _, _, i) => i <= |env.strIds| && e == d.(iFunction := StringId(env, i))
    case EpDesc(a, _, _, _, _, _) =>
      exists k :: 0 <= k < |eps| && k < |env.auto| && eps[k] == a && EndpointBound(env, d, e, env.auto[k], first)
    case _ => e == d
  }

  /** d with its numbers replaced by those in nums and by string ids, as __ffs_func_bind_do_nums leaves it. */
  ghost predicate Renumbered(env: Env, nums: seq<int>, d: Desc, e: Desc) {
    match d
    case IntfDesc(n, _, _, _, _, _, i) =>
      n < |nums| && i <= |env.strIds| && e == d.(number := (nums[n] % 256) as byte, iInterface := StringId(env, i))
    case AssocDesc(_, _, _, _, _, i) => i <= |env.strIds| && e == d.(iFunction := StringId(env, i))
    case _ => e == d
  }

  /** One descriptor is renumbered field by field. */
  lemma DescIsRenumbered(env: Env, st: NumSt, p: nat, d: Desc) returns (e: Desc)
    requires Holds(st.raw, p, d) && Canonical(d) && DescOk(st.raw, p) && StepBoth(env, st, p).Ok?
    ensures var r := StepBoth(env, st, p).value;
      |r.raw| == |st.raw| && Holds(r.raw, p, e) && Renumbered(env, r.nums, d, e)
  {
    hide StepBoth;
    match d
    case IntfDesc(_, _, _, _, _, _, _) => e := IntfIsRenumbered(env, st, p, d);
    case AssocDesc(_, _, _, _, _, _) => e := AssocIsRenumbered(env, st, p, d);
    case _ =>
      OtherStays(env, st, p, d);
      e := d;
  }

  lemma IntfIsRenumbered(env: Env, st: NumSt, p: nat, d: Desc) returns (e: Desc)
    requires d.IntfDesc? && Holds(st.raw, p, d) && DescOk(st.raw, p) && StepBoth(env, st, p).Ok?
    ensures var r := StepBoth(env, st, p).value;
      |r.raw| == |st.raw| && Holds(r.raw, p, e) && Renumbered(env, r.nums, d, e)
  {
    ReadsFields(st.raw, p, d);
    HeldBytes(st.raw, p, d);
    IntfBytes(d);
    var r := StepBoth(env, st, p).value;
    IntfStep(env, st, p);
    e := d.(number := r.raw[p + 2], iInterface := r.raw[p + 8]);
    IntfBytes(e);
    hide StepBoth, DescOk, Holds;
    assert st.raw[p + 2] == Encode(d)[2] && st.raw[p + 8] == Encode(d)[8];
    hide Encode;
    forall i | 0 <= i < 9
      ensures r.raw[p + i] == Encode(e)[i]
    {
      assert st.raw[p + i] == Encode(d)[i];
    }
    HeldAs(r.raw, p, e);
  }

  lemma IntfStep(env: Env, st: NumSt, p: nat)
    requires p <= |st.raw| && DescOk(st.raw, p) && st.raw[p + 1] == DT_INTERFACE && StepBoth(env, st, p).Ok?
    ensures st.raw[p] == 9 && p + 9 <= |st.raw|
    ensures var r, n, i := StepBoth(env, st, p).value, st.raw[p + 2], st.raw[p + 8];
      && n < |r.nums| && i <= |env.strIds|
      && r.raw == st.raw[p + 2 := (r.nums[n] % 256) as byte][p + 8 := StringId(env, i)]
  {
  }

  lemma AssocIsRenumbered(env: Env, st: NumSt, p: nat, d: Desc) returns (e: Desc)
    requires d.AssocDesc? && Holds(st.raw, p, d) && DescOk(st.raw, p) && StepBoth(env, st, p).Ok?
    ensures var r := StepBoth(env, st, p).value;
      |r.raw| == |st.raw| && Holds(r.raw, p, e) && Renumbered(env, r.nums, d, e)
  {
    ReadsFields(st.raw, p, d);
    HeldBytes(st.raw, p, d);
    assert st.raw[p + 7] == Encode(d)[7];
    e := d.(iFunction := StringId(env, d.iFunction));
    RenumberedBytes(env, st, p, 8, d, e);
  }

  lemma OtherStays(env: Env, st: NumSt, p: nat, d: Desc)
    requires !d.IntfDesc? && !d.AssocDesc? && Canonical(d)
    requires Holds(st.raw, p, d) && DescOk(st.raw, p) && StepBoth(env, st, p).Ok?
    ensures StepBoth(env, st, p).value == st
  {
    ReadsFields(st.raw, p, d);
    HeldBytes(st.raw, p, d);
  }

  lemma RenumberedBytes(env: Env, st: NumSt, p: nat, n: nat, d: Desc, e: Desc)
    requires Holds(st.raw, p, d) && DescOk(st.raw, p) && StepBoth(env, st, p).Ok?
    requires |Encode(e)| == |Encode(d)| == n && |StepBoth(env, st, p).value.raw| == |st.raw|
    requires forall i {:trigger Encode(e)[i]} :: 0 <= i < n ==>
               StepBoth(env, st, p).value.raw[p + i] ==
               if Encode(e)[i] == Encode(d)[i] then st.raw[p + i] else Encode(e)[i]
    ensures Holds(StepBoth(env, st, p).value.raw, p, e)
  {
    HeldBytes(st.raw, p, d);
    hide Encode, StepBoth;
    var r := StepBoth(env, st, p).value.raw;
    forall i | 0 <= i < n
      ensures r[p + i] == Encode(e)[i]
    {
      assert st.raw[p + i] == Encode(d)[i];
    }
    HeldAs(r, p, e);
  }

  lemma FieldsRenumbered(env: Env, st: NumSt, p: nat)
    requires p <= |st.raw| && DescOk(st.raw, p) && StepBoth(env, st, p).Ok?
    ensures var r := StepBoth(env, st, p).value;
      forall d :: Canonical(d) && Holds(st.raw, p, d) ==>
        exists e :: Holds(r.raw, p, e) && Renumbered(env, r.nums, d, e)
  {
    hide StepBoth, Canonical, Holds, Renumbered, DescOk;
    forall d | Canonical(d) && Holds(st.raw, p, d)
      ensures exists e :: Holds(StepBoth(env, st, p).value.raw, p, e)
                          && Renumbered(env, StepBoth(env, st, p).value.nums, d, e)
    {
      var e := DescIsRenumbered(env, st, p, d);
    }
  }

  /** No earlier speed has endpoints. */
  predicate Leads(d: Speeds, s: nat)
    requires s < 3
  {
    forall t :: 0 <= t < s ==> Addresses(d[t]) == []
  }

  ghost predicate SpeedRebound(env: Env, eps: seq<byte>, ds: seq<Desc>, es: seq<Desc>, first: bool) {
    |es| == |ds| && forall i :: 0 <= i < |ds| ==> Rebound(env, eps, ds[i], es[i], first)
  }

  /** Two buffers with the same bytes hold the same descriptor, whatever else they hold. */
  lemma HeldAs(raw: seq<byte>, p: nat, e: Desc)
    requires p + |Encode(e)| <= |raw| && forall i :: 0 <= i < |Encode(e)| ==> raw[p + i] == Encode(e)[i]
    ensures Holds(raw, p, e)
  {
    assert raw[p..p + |Encode(e)|] == Encode(e);
  }

  lemma IntfIsBound(b: Binding, raw: seq<byte>, p: nat, d: Desc, first: bool) returns (e: Desc)
    requires d.IntfDesc? && Holds(b.orig, p, d) && |raw| == |b.orig| && DescBound(b, raw, p, first)
    ensures Holds(raw, p, e) && Rebound(b.env, b.eps, d, e, first) && |Encode(e)| == |Encode(d)|
  {
    HeldBytes(b.orig, p, d);
    ReadsFields(b.orig, p, d);
    IntfBytes(d);
    e := d.(number := raw[p + 2], iInterface := raw[p + 8]);
    IntfBytes(e);
    var s, t := Encode(d), Encode(e);
    IntfNumbers(b, raw, p, d, first);
    hide Encode, DescBound, DescOk, Holds;
    forall i | 0 <= i < 9
      ensures raw[p + i] == t[i]
    {
      assert b.orig[p + i] == s[i];
    }
    HeldAs(raw, p, e);
  }

  lemma IntfBytes(d: Desc)
    requires d.IntfDesc?
    ensures var s := Encode(d);
      && |s| == 9 && s[2] == d.number && s[8] == d.iInterface
      && forall n, i :: Encode(d.(number := n, iInterface := i)) == s[2 := n][8 := i]
  {
  }

  lemma IntfNumbers(b: Binding, raw: seq<byte>, p: nat, d: Desc, first: bool)
    requires d.IntfDesc? && Holds(b.orig, p, d) && |raw| == |b.orig| && DescBound(b, raw, p, first)
    ensures p + 9 <= |raw|
    ensures d.number < |b.env.ids| && raw[p + 2] == b.env.ids[d.number]
    ensures d.iInterface <= |b.env.strIds| && raw[p + 8] == StringId(b.env, d.iInterface)
    ensures forall i {:trigger raw[p + i]} :: 0 <= i < 9 && i != 2 && i != 8 ==> raw[p + i] == b.orig[p + i]
  {
    HeldBytes(b.orig, p, d);
    ReadsFields(b.orig, p, d);
    IntfBytes(d);
    var s := Encode(d);
    assert b.orig[p + 8] == s[8];
    hide Encode;
  }

  lemma AssocIsBound(b: Binding, raw: seq<byte>, p: nat, d: Desc, first: bool) returns (e: Desc)
    requires d.AssocDesc? && Holds(b.orig, p, d) && |raw| == |b.orig| && DescBound(b, raw, p, first)
    ensures Holds(raw, p, e) && Rebound(b.env, b.eps, d, e, first) && |Encode(e)| == |Encode(d)|
  {
    HeldBytes(b.orig, p, d);
    ReadsFields(b.orig, p, d);
    var s := Encode(d);
    assert b.orig[p + 7] == s[7];
    e := d.(iFunction := raw[p + 7]);
    var t := Encode(e);
    assert |s| == |t| == 8 && t == s[7 := raw[p + 7]];
    forall i | 0 <= i < 8
      ensures raw[p + i] == t[i]
    {
      assert b.orig[p + i] == s[i];
    }
    hide Encode;
    HeldAs(raw, p, e);
  }

  lemma OtherIsBound(b: Binding, raw: seq<byte>, p: nat, d: Desc, first: bool)
    requires !d.IntfDesc? && !d.AssocDesc? && !d.EpDesc? && Canonical(d)
    requires Holds(b.orig, p, d) && |raw| == |b.orig| && DescBound(b, raw, p, first)
    ensures Holds(raw, p, d)
  {
    HeldBytes(b.orig, p, d);
    ReadsFields(b.orig, p, d);
    var s := Encode(d);
    forall i | 0 <= i < |s|
      ensures raw[p + i] == s[i]
    {
      assert b.orig[p + i] == s[i];
    }
    hide Encode;
    HeldAs(raw, p, d);
  }

  lemma EndpointIsBound(b: Binding, raw: seq<byte>, p: nat, d: Desc, k: nat, first: bool) returns (e: Desc)
    requires d.EpDesc? && Holds(b.orig, p, d) && |raw| == |b.orig|
    requires k < |b.env.auto| && b.env.auto[k].Granted?
    requires var a := b.env.auto[k];
      EndpointAfter(b.orig, raw, p, NewEp(if b.env.virtual then d.address else a.address, a.size0, a.size1), first)
    ensures Holds(raw, p, e) && EndpointBound(b.env, d, e, b.env.auto[k], first) && |Encode(e)| == |Encode(d)|
  {
    HeldBytes(b.orig, p, d);
    var s := Encode(d);
    assert forall i :: 0 <= i < |s| ==> b.orig[p + i] == s[i];
    e := d.(address := raw[p + 2], size0 := raw[p + 4], size1 := raw[p + 5]);
    assert b.orig[p + 4] == d.size0 && b.orig[p + 5] == d.size1;
    var t := Encode(e);
    assert |t| == |s|;
    forall i | 0 <= i < |t|
      ensures raw[p + i] == t[i]
    {
      if i != 2 && i != 4 && i != 5 {
        assert t[i] == s[i];
      }
    }
    HeldAs(raw, p, e);
  }

  /** A descriptor of the message, once it is bound. */
  lemma DescIsRebound(b: Binding, raw: seq<byte>, p: nat, d: Desc, j: nat) returns (e: Desc)
    requires b.Ok() && Bindable(b) && RawBound(b, raw) && j < b.Total() && b.Off(j) == p
    requires Holds(b.orig, p, d) && Canonical(d)
    ensures Holds(raw, p, e) && Rebound(b.env, b.eps, d, e, j < b.Lead()) && |Encode(e)| == |Encode(d)|
  {
    hide Binding.Ok, Bindable, Encode, Canonical, At, Binding.Lead, Binding.Total, Holds, DescOk;
    BoundAt(b, raw, j);
    match d
    case IntfDesc(_, _, _, _, _, _, _) => e := IntfIsBound(b, raw, p, d, j < b.Lead());
    case AssocDesc(_, _, _, _, _, _) => e := AssocIsBound(b, raw, p, d, j < b.Lead());
    case EpDesc(_, _, _, _, _, _) => e := EndpointRebound(b, raw, p, d, j);
    case _ =>
      OtherIsBound(b, raw, p, d, j < b.Lead());
      e := d;
  }

  lemma BoundAt(b: Binding, raw: seq<byte>, j: nat)
    requires RawBound(b, raw) && j < b.Total()
    ensures |raw| == |b.orig| && DescBound(b, raw, b.Off(j), j < b.Lead())
  {
    hide DescBound, At, Binding.Lead;
  }

  lemma EndpointRebound(b: Binding, raw: seq<byte>, p: nat, d: Desc, j: nat) returns (e: Desc)
    requires b.Ok() && Bindable(b) && j < b.Total() && b.Off(j) == p && d.EpDesc? && Holds(b.orig, p, d) && Canonical(d)
    requires |raw| == |b.orig| && DescBound(b, raw, p, j < b.Lead())
    ensures Holds(raw, p, e) && Rebound(b.env, b.eps, d, e, j < b.Lead()) && |Encode(e)| == |Encode(d)|
  {
    ReadsFields(b.orig, p, d);
    SectionsEnd(b);
    hide Binding.Ok, Bindable, Encode, Canonical, At, Binding.Lead, Binding.Total, Holds, DescOk, EndpointAfter,
      KeepsRest;
    var k := EndpointOfDesc(b, j, p);
    NewEpOf(b, k);
    SizesOf(b, k);
    e := EndpointIsBound(b, raw, p, d, k, j < b.Lead());
  }

  lemma SectionsEnd(b: Binding)
    requires b.Ok()
    ensures SecStart(b.orig, b.counts, 3) >= 0
  {
  }

  lemma SizesOf(b: Binding, k: nat)
    requires b.Ok() && k < |b.eps| && k < |b.env.auto| && b.env.auto[k].Granted?
    ensures |b.news| == |b.eps|
    ensures var a := b.env.auto[k];
      b.news[k] == NewEp(if b.env.virtual then b.eps[k] else a.address, a.size0, a.size1)
  {
    hide RawOk, AddrMapIs, EnvOk;
  }

  /** The buffer that is bound begins with the descriptors d. */
  ghost predicate Brings(b: Binding, d: Speeds) {
    && b.counts == CountsOf(d)
    && SpeedsCanonical(d)
    && Held(b.orig, 0, EncodeSpeeds(d, 3))
  }

  /** Where a speed's descriptors are. */
  lemma SpeedAt(b: Binding, d: Speeds, s: nat)
    requires b.Ok() && Brings(b, d) && s < 3
    ensures SecStart(b.orig, b.counts, 3) >= 0 && SpeedsRead(b.orig, d, 3)
    ensures SecStart(b.orig, b.counts, s) == |EncodeSpeeds(d, s)| <= |b.orig|
    ensures HoldsAll(b.orig, |EncodeSpeeds(d, s)|, d[s]) && AllCanonical(d[s]) && AllAllowed(d[s])
  {
    SectionsEnd(b);
    hide Binding.Ok, Held, EncodeAll, AllCanonical, AllAllowed, SecStart, SpeedsRead;
    SpeedsOfEncoded(b.orig, d, 3);
    SpeedsHeld(b.orig, d, s);
    SpeedsOfEncoded(b.orig, d, s);
    SpeedStarts(b.orig, d, s);
    HeldFits(b.orig, 0, EncodeSpeeds(d, s));
  }

  lemma SpeedStarts(raw: seq<byte>, d: Speeds, s: nat)
    requires s < 3 && SpeedsRead(raw, d, s)
    ensures SecStart(raw, CountsOf(d), s) == |EncodeSpeeds(d, s)|
  {
  }

  lemma SpeedsHeld(raw: seq<byte>, d: Speeds, s: nat)
    requires s < 3 && Held(raw, 0, EncodeSpeeds(d, 3))
    ensures Held(raw, 0, EncodeSpeeds(d, s)) && Held(raw, |EncodeSpeeds(d, s)|, EncodeAll(d[s]))
  {
    hide Held, EncodeAll;
    HeldParts(raw, 0, EncodeSpeeds(d, 2), EncodeAll(d[2]));
    HeldParts(raw, 0, EncodeSpeeds(d, 1), EncodeAll(d[1]));
    HeldParts(raw, 0, EncodeSpeeds(d, 0), EncodeAll(d[0]));
  }

  /** The i-th descriptor of a speed is the Base(s) + i-th of all, and lies behind the ones before it. */
  lemma DescAt(b: Binding, d: Speeds, s: nat, i: nat)
    requires b.Ok() && Brings(b, d) && s < 3 && i < |d[s]|
    ensures b.Base(s) + i < b.Total()
    ensures b.Off(b.Base(s) + i) == |EncodeSpeeds(d, s)| + |EncodeAll(d[s][..i])|
    ensures Holds(b.orig, |EncodeSpeeds(d, s)| + |EncodeAll(d[s][..i])|, d[s][i]) && Canonical(d[s][i])
  {
    SpeedAt(b, d, s);
    hide Binding.Ok, Held, EncodeAll, SecStart, SpeedsRead, At, Canonical, Encode, AllAllowed, Brings,
      Binding.Base, WalkIs;
    var start, ds := |EncodeSpeeds(d, s)|, d[s];
    var p := start + |EncodeAll(ds[..i])|;
    DescWithin(b.orig, start, ds, i);
    SectionIsStretch(b, s, i);
    SectionIsStretch(b, s, |ds|);
  }

  lemma DescWithin(raw: seq<byte>, start: nat, ds: seq<Desc>, i: nat)
    requires HoldsAll(raw, start, ds) && AllCanonical(ds) && AllAllowed(ds) && i < |ds| && start <= |raw|
    ensures At(raw, start, i) == start + |EncodeAll(ds[..i])|
    ensures Holds(raw, start + |EncodeAll(ds[..i])|, ds[i]) && Canonical(ds[i])
  {
    hide Encode, EncodeAll, At, Held, Canonical, Allowed, WalkIs;
    PrefixHeld(raw, start, ds, i + 1);
    assert ds[..i + 1] == ds[..i] + [ds[i]];
    HoldsBoth(raw, start, ds[..i], ds[i]);
    assert ds[i] in ds && forall e :: e in ds[..i] ==> e in ds;
    WalkOfEncoded(raw, start, ds[..i]);
    WalkEnds(raw, start, ds[..i]);
  }

  lemma WalkEnds(raw: seq<byte>, start: nat, ds: seq<Desc>)
    requires start <= |raw| && WalkIs(raw, start, ds)
    ensures At(raw, start, |ds|) == start + |EncodeAll(ds)|
  {
  }

  lemma {:induction false} PrefixHeld(raw: seq<byte>, start: nat, ds: seq<Desc>, i: nat)
    requires HoldsAll(raw, start, ds) && i <= |ds|
    ensures HoldsAll(raw, start, ds[..i])
  {
    hide Held, Encode;
    if i == |ds| {
      assert ds[..i] == ds;
    } else {
      HeldParts(raw, start, EncodeAll(ds[..|ds| - 1]), Encode(ds[|ds| - 1]));
      PrefixHeld(raw, start, ds[..|ds| - 1], i);
      assert ds[..|ds| - 1][..i] == ds[..i];
    }
  }

  /** Whether a speed leads is what the passes find. */
  lemma EndpointLeads(b: Binding, d: Speeds, s: nat, i: nat)
    requires b.Ok() && Brings(b, d) && s < 3 && i < |d[s]| && d[s][i].EpDesc?
    ensures b.Base(s) + i < b.Lead() <==> Leads(d, s)
  {
    SpeedAt(b, d, s);
    SpeedsHaveEps(b, d);
    AddressListed(d[s], i);
    hide Binding.Ok, Held, EncodeAll, SecStart, SpeedsRead, At, Addresses, Brings, Binding.HasEps, HoldsAll;
    assert b.Base(1) == b.Base(0) + b.counts[0];
    assert b.Base(2) == b.Base(1) + b.counts[1];
    assert b.Base(3) == b.Base(2) + b.counts[2];
    assert b.counts[s] == |d[s]|;
  }

  lemma SpeedsHaveEps(b: Binding, d: Speeds)
    requires b.counts == CountsOf(d) && SpeedsRead(b.orig, d, 3) && SecStart(b.orig, b.counts, 3) >= 0
    ensures forall t :: 0 <= t < 3 ==> (b.HasEps(t) <==> Addresses(d[t]) != [])
  {
    hide EncodeSpeeds, StringsNeeded, SecDecl;
    assert forall t :: 0 <= t < 3 ==> SecDecl(b.orig, b.counts, t).eps == Addresses(d[t]);
    assert forall t :: 0 <= t < 3 && d[t] == [] ==> Addresses(d[t]) == [];
  }

  lemma {:induction false} AddressListed(ds: seq<Desc>, i: nat)
    requires i < |ds| && ds[i].EpDesc?
    ensures Addresses(ds) != []
  {
    if i < |ds| - 1 {
      AddressListed(ds[..|ds| - 1], i);
    }
  }

  lemma ReboundDesc(b: Binding, raw: seq<byte>, d: Speeds, s: nat, i: nat) returns (e: Desc)
    requires b.Ok() && Bindable(b) && RawBound(b, raw) && Brings(b, d) && s < 3 && i < |d[s]|
    ensures Holds(raw, |EncodeSpeeds(d, s)| + |EncodeAll(d[s][..i])|, e) && |Encode(e)| == |Encode(d[s][i])|
    ensures Rebound(b.env, b.eps, d[s][i], e, Leads(d, s))
  {
    hide *;
    DescAt(b, d, s, i);
    var x, j, p := d[s][i], b.Base(s) + i, |EncodeSpeeds(d, s)| + |EncodeAll(d[s][..i])|;
    e := DescIsRebound(b, raw, p, x, j);
    if x.EpDesc? {
      EndpointLeads(b, d, s, i);
    } else {
      OnlyEndpointsLead(b.env, b.eps, x, e, j < b.Lead(), Leads(d, s));
    }
  }

  lemma OnlyEndpointsLead(env: Env, eps: seq<byte>, d: Desc, e: Desc, f: bool, g: bool)
    requires Rebound(env, eps, d, e, f) && !d.EpDesc?
    ensures Rebound(env, eps, d, e, g)
  {
  }

  /** One speed, descriptor by descriptor. */
  lemma {:induction false} ReboundSpeed(b: Binding, raw: seq<byte>, d: Speeds, s: nat, i: nat) returns (es: seq<Desc>)
    requires b.Ok() && Bindable(b) && RawBound(b, raw) && Brings(b, d) && s < 3 && i <= |d[s]|
    ensures SpeedRebound(b.env, b.eps, d[s][..i], es, Leads(d, s))
    ensures HoldsAll(raw, |EncodeSpeeds(d, s)|, es) && |EncodeAll(es)| == |EncodeAll(d[s][..i])|
  {
    hide *;
    if i == 0 {
      NothingRebound(b, raw, d, s);
      es := [];
    } else {
      var before := ReboundSpeed(b, raw, d, s, i - 1);
      var e := ReboundDesc(b, raw, d, s, i - 1);
      es := before + [e];
      assert d[s][..i] == d[s][..i - 1] + [d[s][i - 1]];
      SummariesNext(before, e);
      SummariesNext(d[s][..i - 1], d[s][i - 1]);
      HoldsMore(raw, |EncodeSpeeds(d, s)|, before, e);
      ReboundNext(b.env, b.eps, d[s][..i - 1], d[s][i - 1], before, e, Leads(d, s));
    }
  }

  lemma ReboundNext(env: Env, eps: seq<byte>, ds: seq<Desc>, d: Desc, es: seq<Desc>, e: Desc, first: bool)
    requires SpeedRebound(env, eps, ds, es, first) && Rebound(env, eps, d, e, first)
    ensures SpeedRebound(env, eps, ds + [d], es + [e], first)
  {
    hide Rebound;
  }

  lemma NothingRebound(b: Binding, raw: seq<byte>, d: Speeds, s: nat)
    requires b.Ok() && RawBound(b, raw) && Brings(b, d) && s < 3
    ensures HoldsAll(raw, |EncodeSpeeds(d, s)|, []) && |EncodeAll([])| == |EncodeAll(d[s][..0])|
    ensures SpeedRebound(b.env, b.eps, d[s][..0], [], Leads(d, s))
  {
    SpeedAt(b, d, s);
    SameLength(b, raw);
    hide EncodeSpeeds, Binding.Ok, RawBound, Brings, SecStart, SpeedsRead;
  }

  lemma SameLength(b: Binding, raw: seq<byte>)
    requires RawBound(b, raw)
    ensures |raw| == |b.orig| && SecStart(b.orig, b.counts, 3) >= 0
    ensures var n := SecStart(b.orig, b.counts, 3); raw[n..|raw|] == b.orig[n..|raw|]
  {
    hide SecStart, DescBound, At;
  }

  /**
   The bytes a successful bind leaves are the encoding of the descriptors of the message, one
   for one: interfaces have the numbers and strings the ids of the composite device, endpoints
   the address, and where it is due the packet size, of the hardware endpoint the gadget gave
   for their address; every other field is the user's, and so is the OS section.
   */
  lemma BoundIsEncoding(b: Binding, raw: seq<byte>, d: Speeds) returns (e: Speeds)
    requires b.Ok() && Bindable(b) && RawBound(b, raw) && Brings(b, d)
    ensures forall s :: 0 <= s < 3 ==> SpeedRebound(b.env, b.eps, d[s], e[s], Leads(d, s))
    ensures |EncodeSpeeds(e, 3)| == |EncodeSpeeds(d, 3)| <= |raw| == |b.orig|
    ensures raw == EncodeSpeeds(e, 3) + b.orig[|EncodeSpeeds(d, 3)|..]
  {
    hide Binding.Ok, Bindable, RawBound, Brings, EncodeAll, SpeedRebound, Leads, HoldsAll, EncodeSpeeds;
    var e0 := ReboundSpeed(b, raw, d, 0, |d[0]|);
    var e1 := ReboundSpeed(b, raw, d, 1, |d[1]|);
    var e2 := ReboundSpeed(b, raw, d, 2, |d[2]|);
    assert d[0][..|d[0]|] == d[0] && d[1][..|d[1]|] == d[1] && d[2][..|d[2]|] == d[2];
    e := [e0, e1, e2];
    SpeedsTogether(raw, d, e);
    RestKept(b, raw, d);
    hide *;
    assert raw == raw[0..|EncodeSpeeds(e, 3)|] + raw[|EncodeSpeeds(e, 3)|..];
  }

  lemma SpeedsTogether(raw: seq<byte>, d: Speeds, e: Speeds)
    requires forall s :: 0 <= s < 3 ==> |EncodeAll(e[s])| == |EncodeAll(d[s])|
    requires HoldsAll(raw, |EncodeSpeeds(d, 0)|, e[0]) && HoldsAll(raw, |EncodeSpeeds(d, 1)|, e[1])
    requires HoldsAll(raw, |EncodeSpeeds(d, 2)|, e[2])
    ensures |EncodeSpeeds(e, 3)| == |EncodeSpeeds(d, 3)| <= |raw| && raw[0..|EncodeSpeeds(e, 3)|] == EncodeSpeeds(e, 3)
  {
    hide Held, EncodeAll;
    assert |EncodeSpeeds(e, 1)| == |EncodeSpeeds(d, 1)|;
    assert |EncodeSpeeds(e, 2)| == |EncodeSpeeds(d, 2)|;
    HeldParts(raw, 0, EncodeSpeeds(e, 0), EncodeAll(e[0]));
    HeldParts(raw, 0, EncodeSpeeds(e, 1), EncodeAll(e[1]));
    HeldParts(raw, 0, EncodeSpeeds(e, 2), EncodeAll(e[2]));
    HeldFits(raw, |EncodeSpeeds(d, 0)|, EncodeAll(e[0]));
    HeldIs(raw, 0, EncodeSpeeds(e, 0));
    HeldFits(raw, 0, EncodeSpeeds(e, 3));
    HeldIs(raw, 0, EncodeSpeeds(e, 3));
  }

  lemma RestKept(b: Binding, raw: seq<byte>, d: Speeds)
    requires b.Ok() && RawBound(b, raw) && Brings(b, d)
    ensures |EncodeSpeeds(d, 3)| <= |raw| == |b.orig| && raw[|EncodeSpeeds(d, 3)|..] == b.orig[|EncodeSpeeds(d, 3)|..]
  {
    hide *;
    SpeedAt(b, d, 0);
    SameLength(b, raw);
    EndsAtFeatures(b, d);
    var n := |EncodeSpeeds(d, 3)|;
    assert raw[n..|raw|] == raw[n..] && b.orig[n..|raw|] == b.orig[n..];
  }

  lemma EndsAtFeatures(b: Binding, d: Speeds)
    requires Brings(b, d) && SpeedsRead(b.orig, d, 3)
    ensures SecStart(b.orig, b.counts, 3) == |EncodeSpeeds(d, 3)|
  {
    hide SpeedsRead, EncodeSpeeds, SecStart, Held;
    StartOfFeatures(b.orig, d);
  }

  /** raw is the encoding of what the descriptors d are bound as, and of the OS section as it was. */
  ghost predicate EncodesRebound(b: Binding, raw: seq<byte>, d: Speeds) {
    |EncodeSpeeds(d, 3)| <= |b.orig| &&
    exists e: Speeds ::
      && (forall s :: 0 <= s < 3 ==> SpeedRebound(b.env, b.eps, d[s], e[s], Leads(d, s)))
      && raw == EncodeSpeeds(e, 3) + b.orig[|EncodeSpeeds(d, 3)|..]
  }

  lemma EveryMessageRebound(b: Binding, raw: seq<byte>)
    requires b.Ok() && Bindable(b) && RawBound(b, raw)
    ensures forall d :: Brings(b, d) ==> EncodesRebound(b, raw, d)
  {
    forall d | Brings(b, d)
      ensures EncodesRebound(b, raw, d)
    {
      hide Binding.Ok, Bindable, RawBound, Brings, SpeedRebound, Leads, EncodeSpeeds;
      var e := BoundIsEncoding(b, raw, d);
    }
  }

  /** A message that was accepted is what is then bound. */
  lemma KeptIsBound(ffs: FfsData, m: Message, b: Binding)
    requires Sendable(m) && Kept(ffs, m) && b.orig == ffs.rawDescs && b.counts == ffs.counts
    ensures Brings(b, m.speeds)
  {
    hide EncodeMessage, EncodeBody, EncodeSpeeds, Held, CountersKept, SectionKept, SpeedsCanonical;
  }
}
