/**
 USB descriptors as values with named fields, and the bytes they are sent as, field by
 field as sections 9.6.5 and 9.6.6 of USB 2.0 and the class documents lay them out. What
 validation finds on a walk over bytes is stated here on the fields.
 */
module DescCodec {
  import opened Bytes
  import opened DescWalk

  type Body = b: seq<byte> | |b| <= 253

  datatype Audio = Audio(refresh: byte, synchAddress: byte)

  /** A descriptor; wMaxPacketSize is two bytes, the low one first. */
  datatype Desc =
    | IntfDesc(number: byte, alternate: byte, endpoints: byte, cls: byte, subclass: byte, protocol: byte,
               iInterface: byte)
    | EpDesc(address: byte, attributes: byte, size0: byte, size1: byte, interval: byte, audio: Option<Audio>)
    | AssocDesc(first: byte, count: byte, cls: byte, subclass: byte, protocol: byte, iFunction: byte)
    | HidDesc(bcd: Word16, country: byte, descriptors: byte, report: byte, reportLength: Word16)
    | OtgDesc(attributes: byte)
    | CompDesc(maxBurst: byte, attributes: byte, perInterval: Word16)
    | OtherDesc(kind: byte, body: Body)

  function Encode(d: Desc): (r: seq<byte>)
    ensures 2 <= |r| <= 255 && r[0] == |r|
  {
    match d
    case IntfDesc(n, a, e, c, s, p, i) => [9, 4, n, a, e, c, s, p, i]
    case EpDesc(a, t, s0, s1, i, None) => [7, 5, a, t, s0, s1, i]
    case EpDesc(a, t, s0, s1, i, Some(x)) => [9, 5, a, t, s0, s1, i, x.refresh, x.synchAddress]
    case AssocDesc(f, n, c, s, p, i) => [8, 11, f, n, c, s, p, i]
    case HidDesc(b, c, n, r, l) => [9, 0x21] + Bytes2(b) + [c, n, r] + Bytes2(l)
    case OtgDesc(t) => [3, 9, t]
    case CompDesc(b, t, n) => [6, 0x30, b, t] + Bytes2(n)
    case OtherDesc(k, body) => [|body| + 2, k] + body
  }

  /** A descriptor is called other only if it is none of those with names. */
  ghost predicate Canonical(d: Desc) {
    d.OtherDesc? ==> forall e: Desc :: Encode(e) == Encode(d) ==> e.OtherDesc?
  }

  /**
   What a function may supply: no device, configuration, string or device qualifier
   descriptor, no descriptor of a named type that has another shape, and no endpoint 0.
   */
  predicate Allowed(d: Desc) {
    match d
    case EpDesc(a, _, _, _, _, _) => a % 16 != 0
    case OtherDesc(k, _) => k !in {1, 2, 3, 6} && k !in {4, 5, 9, 11, 0x21, 0x30}
    case _ => true
  }

  /** The string it names, 0 for none. */
  function StringField(d: Desc): nat {
    match d
    case IntfDesc(_, _, _, _, _, _, i) => i
    case AssocDesc(_, _, _, _, _, i) => i
    case _ => 0
  }

  /** How many interfaces there are at least if it is one of them. */
  function InterfaceField(d: Desc): nat {
    match d
    case IntfDesc(n, _, _, _, _, _, _) => n + 1
    case _ => 0
  }

  ghost predicate AllCanonical(ds: seq<Desc>) { forall d :: d in ds ==> Canonical(d) }

  predicate AllAllowed(ds: seq<Desc>) { forall d :: d in ds ==> Allowed(d) }

  function EncodeAll(ds: seq<Desc>): seq<byte> {
    if ds == [] then [] else EncodeAll(ds[..|ds| - 1]) + Encode(ds[|ds| - 1])
  }

  /** The addresses of the endpoints, in order. */
  function Addresses(ds: seq<Desc>): seq<byte> {
    if ds == [] then []
    else
      var before, d := Addresses(ds[..|ds| - 1]), ds[|ds| - 1];
      if d.EpDesc? then before + [d.address] else before
  }

  function InterfacesIn(ds: seq<Desc>): nat {
    if ds == [] then 0 else Max(InterfacesIn(ds[..|ds| - 1]), InterfaceField(ds[|ds| - 1]))
  }

  function StringsIn(ds: seq<Desc>): nat {
    if ds == [] then 0 else Max(StringsIn(ds[..|ds| - 1]), StringField(ds[|ds| - 1]))
  }

  /** m is the largest of the fields f takes from the descriptors, 0 without any. */
  ghost predicate Largest(m: nat, ds: seq<Desc>, f: Desc -> nat) {
    && (forall d :: d in ds ==> f(d) <= m)
    && (m > 0 ==> exists d :: d in ds && f(d) == m)
  }

  lemma {:induction false} TheyAreLargest(ds: seq<Desc>)
    ensures Largest(InterfacesIn(ds), ds, InterfaceField) && Largest(StringsIn(ds), ds, StringField)
  {
    if ds != [] {
      var rest, d := ds[..|ds| - 1], ds[|ds| - 1];
      TheyAreLargest(rest);
      hide InterfacesIn, StringsIn;
      LargestNext(InterfacesIn(rest), rest, d, InterfaceField);
      LargestNext(StringsIn(rest), rest, d, StringField);
      assert ds == rest + [d];
      SummariesNext(rest, d);
    }
  }

  lemma LargestNext(m: nat, ds: seq<Desc>, d: Desc, f: Desc -> nat)
    requires Largest(m, ds, f)
    ensures Largest(Max(m, f(d)), ds + [d], f)
  {
    if m > f(d) {
      var e :| e in ds && f(e) == m;
      assert e in ds + [d];
    }
    assert d in ds + [d];
  }

  lemma SummariesNext(ds: seq<Desc>, d: Desc)
    ensures EncodeAll(ds + [d]) == EncodeAll(ds) + Encode(d)
    ensures Addresses(ds + [d]) == Addresses(ds) + if d.EpDesc? then [d.address] else []
    ensures InterfacesIn(ds + [d]) == Max(InterfacesIn(ds), InterfaceField(d))
    ensures StringsIn(ds + [d]) == Max(StringsIn(ds), StringField(d))
    ensures AllAllowed(ds + [d]) <==> AllAllowed(ds) && Allowed(d)
    ensures AllCanonical(ds + [d]) <==> AllCanonical(ds) && Canonical(d)
  {
    assert (ds + [d])[..|ds|] == ds;
    assert forall e :: e in ds + [d] <==> e in ds || e == d;
  }

  // Reading bytes back.

  /** The descriptor with these bytes. */
  function Decode(s: seq<byte>): (d: Desc)
    requires 2 <= |s| <= 255 && s[0] == |s|
  {
    if s[1] == 4 && |s| == 9 then IntfDesc(s[2], s[3], s[4], s[5], s[6], s[7], s[8])
    else if s[1] == 5 && |s| == 7 then EpDesc(s[2], s[3], s[4], s[5], s[6], None)
    else if s[1] == 5 && |s| == 9 then EpDesc(s[2], s[3], s[4], s[5], s[6], Some(Audio(s[7], s[8])))
    else if s[1] == 11 && |s| == 8 then AssocDesc(s[2], s[3], s[4], s[5], s[6], s[7])
    else if s[1] == 0x21 && |s| == 9 then HidDesc(Le16(s, 2), s[4], s[5], s[6], Le16(s, 7))
    else if s[1] == 9 && |s| == 3 then OtgDesc(s[2])
    else if s[1] == 0x30 && |s| == 6 then CompDesc(s[2], s[3], Le16(s, 4))
    else OtherDesc(s[1], s[2..])
  }

  lemma DecodedEncodes(s: seq<byte>)
    requires 2 <= |s| <= 255 && s[0] == |s|
    ensures Encode(Decode(s)) == s
  {
    if s[1] == 0x21 && |s| == 9 {
      Bytes2Written(s, 2);
      Bytes2Written(s, 7);
    } else if s[1] == 0x30 && |s| == 6 {
      Bytes2Written(s, 4);
    }
    hide Bytes2, Le16;
  }

  lemma EncodedDecodes(d: Desc)
    requires Canonical(d)
    ensures Decode(Encode(d)) == d
  {
    var s := Encode(d);
    match d
    case HidDesc(b, _, _, _, l) =>
      Bytes2Read(b, s, 2);
      Bytes2Read(l, s, 7);
    case CompDesc(_, _, n) => Bytes2Read(n, s, 4);
    case OtherDesc(_, _) => DecodedEncodes(s);
    case _ =>
  }

  lemma DecodedIsCanonical(s: seq<byte>)
    requires 2 <= |s| <= 255 && s[0] == |s|
    ensures Canonical(Decode(s))
  {
    DecodedEncodes(s);
    if Decode(s).OtherDesc? {
      forall e: Desc | Encode(e) == s
        ensures e.OtherDesc?
      {
      }
    }
  }

  // What the walks of the driver find in encoded descriptors.

  /** The bytes of d are at p. */
  ghost predicate Holds(raw: seq<byte>, p: nat, d: Desc) { Held(raw, p, Encode(d)) }

  lemma HeldBytes(raw: seq<byte>, p: nat, d: Desc)
    requires Holds(raw, p, d)
    ensures raw[p] == |Encode(d)| && raw[p + 1] == Encode(d)[1]
    ensures forall i :: 0 <= i < |Encode(d)| ==> raw[p + i] == Encode(d)[i]
  {
    forall i | 0 <= i < |Encode(d)|
      ensures raw[p + i] == Encode(d)[i]
    {
      assert raw[p + i] == raw[p..p + |Encode(d)|][i];
    }
  }

  /** The driver accepts it exactly if its fields are allowed. */
  lemma AcceptsAllowed(raw: seq<byte>, p: nat, d: Desc)
    requires Holds(raw, p, d) && Canonical(d)
    ensures DescOk(raw, p) <==> Allowed(d)
  {
    HeldBytes(raw, p, d);
    EncodedDecodes(d);
    var s := Encode(d);
    match d
    case EpDesc(_, _, _, _, _, _) => assert raw[p + 2] == s[2];
    case _ =>
  }

  /** And then reads from it what its fields say. */
  lemma ReadsFields(raw: seq<byte>, p: nat, d: Desc)
    requires Holds(raw, p, d) && Canonical(d) && DescOk(raw, p)
    ensures raw[p] == |Encode(d)|
    ensures IsEndpoint(raw, p) <==> d.EpDesc?
    ensures d.EpDesc? ==> raw[p + 2] == d.address
    ensures IsInterface(raw, p) <==> d.IntfDesc?
    ensures d.IntfDesc? ==> raw[p + 2] == d.number
    ensures StringAt(raw, p) == -1 <==> StringField(d) == 0
    ensures StringAt(raw, p) != -1 ==> raw[StringAt(raw, p)] == StringField(d)
  {
    HeldBytes(raw, p, d);
    AcceptsAllowed(raw, p, d);
    var s := Encode(d);
    match d
    case IntfDesc(_, _, _, _, _, _, _) => assert raw[p + 2] == s[2] && raw[p + 8] == s[8];
    case EpDesc(_, _, _, _, _, _) => assert raw[p + 2] == s[2];
    case AssocDesc(_, _, _, _, _, _) => assert raw[p + 7] == s[7];
    case _ =>
  }

  /** The bytes of the descriptors ds are at p. */
  ghost predicate HoldsAll(raw: seq<byte>, p: nat, ds: seq<Desc>) { Held(raw, p, EncodeAll(ds)) }

  lemma HoldsBoth(raw: seq<byte>, p: nat, ds: seq<Desc>, d: Desc)
    requires HoldsAll(raw, p, ds + [d])
    ensures HoldsAll(raw, p, ds) && Holds(raw, p + |EncodeAll(ds)|, d)
  {
    SummariesNext(ds, d);
    HeldParts(raw, p, EncodeAll(ds), Encode(d));
  }

  /** What a walk finds in ds, all of which are allowed. */
  ghost predicate WalkIs(raw: seq<byte>, start: nat, ds: seq<Desc>)
    requires start <= |raw|
  {
    && At(raw, start, |ds|) == start + |EncodeAll(ds)|
    && EpAddrs(raw, start, |ds|) == Addresses(ds)
    && IntfCount(raw, start, |ds|) == InterfacesIn(ds)
    && StrMax(raw, start, |ds|) == StringsIn(ds)
  }

  /**
   A walk over the encoding of any descriptors is accepted exactly if the fields of each are
   allowed; it then ends behind the last one, and what it reports is what the fields say.
   */
  lemma {:induction false} WalkOfEncoded(raw: seq<byte>, start: nat, ds: seq<Desc>)
    requires start <= |raw| && HoldsAll(raw, start, ds) && AllCanonical(ds)
    ensures At(raw, start, |ds|) >= 0 <==> AllAllowed(ds)
    ensures AllAllowed(ds) ==> WalkIs(raw, start, ds)
  {
    hide Encode, Canonical, Allowed, Held, WalkIs, AllAllowed, AllCanonical, DescOk, EncodeAll, At;
    if ds == [] {
      NothingWalked(raw, start);
    } else {
      var rest, d := ds[..|ds| - 1], ds[|ds| - 1];
      assert ds == rest + [d];
      HoldsBoth(raw, start, rest, d);
      SummariesNext(rest, d);
      HeldFits(raw, start, EncodeAll(rest));
      WalkOfEncoded(raw, start, rest);
      WalkOfNext(raw, start, rest, d);
    }
  }

  lemma NothingWalked(raw: seq<byte>, start: nat)
    requires Held(raw, start, EncodeAll([]))
    ensures start <= |raw| && At(raw, start, 0) >= 0 && AllAllowed([]) && WalkIs(raw, start, [])
  {
    WalkZero(raw, start);
  }

  lemma WalkOfNext(raw: seq<byte>, start: nat, rest: seq<Desc>, d: Desc)
    requires start <= |raw| && Holds(raw, start + |EncodeAll(rest)|, d) && Canonical(d)
    requires At(raw, start, |rest|) >= 0 <==> AllAllowed(rest)
    requires AllAllowed(rest) ==> WalkIs(raw, start, rest)
    ensures At(raw, start, |rest| + 1) >= 0 <==> AllAllowed(rest + [d])
    ensures AllAllowed(rest + [d]) ==> WalkIs(raw, start, rest + [d])
  {
    SummariesNext(rest, d);
    hide AllAllowed, EncodeAll, Addresses, InterfacesIn, StringsIn, DescOk, StringAt, IsType, EpOffs, EpAddrs,
      IntfCount,
      StrMax, Encode, Holds, Canonical, Allowed;
    if AllAllowed(rest) {
      var p := start + |EncodeAll(rest)|;
      assert p <= |raw|;
      AcceptsAllowed(raw, p, d);
      if Allowed(d) {
        ReadsFields(raw, p, d);
        hide At, InterfaceField, StringField;
        FieldsMatter(d);
        WalkNext(raw, start, |rest|, p);
      }
    }
  }

  lemma FieldsMatter(d: Desc)
    ensures d.IntfDesc? ==> InterfaceField(d) == d.number as nat + 1
    ensures !d.IntfDesc? ==> InterfaceField(d) == 0
  {
  }

  /** No descriptor visited is shorter than its header, so that the next one begins behind it. */
  ghost predicate Whole(raw: seq<byte>, start: nat, k: nat)
    requires start <= |raw|
  {
    forall j {:trigger At(raw, start, j)} ::
      0 <= j < k && 0 <= At(raw, start, j) < |raw| ==> raw[At(raw, start, j)] >= 2
  }

  /**
   The other way round: a walk that is accepted, and visits no descriptor shorter than its
   header, has walked over the encoding of descriptors that are allowed.
   */
  lemma {:induction false} WalkIsEncoded(raw: seq<byte>, start: nat, k: nat) returns (ds: seq<Desc>)
    requires start <= |raw| && At(raw, start, k) >= 0 && Whole(raw, start, k)
    ensures |ds| == k && AllCanonical(ds) && AllAllowed(ds) && HoldsAll(raw, start, ds)
    ensures At(raw, start, k) == start + |EncodeAll(ds)|
  {
    hide DescOk, Canonical, Allowed, Encode;
    if k == 0 {
      ds := [];
    } else {
      var rest := WalkIsEncoded(raw, start, k - 1);
      ds := EncodedNext(raw, start, k - 1, rest);
      assert k - 1 + 1 == k;
    }
  }

  lemma EncodedNext(raw: seq<byte>, start: nat, k: nat, rest: seq<Desc>) returns (ds: seq<Desc>)
    requires start <= |raw| && At(raw, start, k + 1) >= 0 && Whole(raw, start, k + 1)
    requires |rest| == k && AllCanonical(rest) && AllAllowed(rest) && HoldsAll(raw, start, rest)
    requires At(raw, start, k) == start + |EncodeAll(rest)|
    ensures |ds| == k + 1 && AllCanonical(ds) && AllAllowed(ds) && HoldsAll(raw, start, ds)
    ensures At(raw, start, k + 1) == start + |EncodeAll(ds)|
  {
    hide DescOk, Canonical, Allowed, AllAllowed, AllCanonical, Encode, EncodeAll, HoldsAll, Holds;
    WalkStep(raw, start, k, k + 1);
    hide At;
    var d := DecodedAt(raw, At(raw, start, k));
    SummariesNext(rest, d);
    HoldsMore(raw, start, rest, d);
    ds := rest + [d];
  }

  lemma DecodedAt(raw: seq<byte>, p: nat) returns (d: Desc)
    requires p <= |raw| && DescOk(raw, p) && raw[p] >= 2
    ensures Canonical(d) && Allowed(d) && Holds(raw, p, d) && |Encode(d)| == raw[p]
  {
    var s := raw[p..p + raw[p]];
    d := Decode(s);
    DecodedEncodes(s);
    DecodedIsCanonical(s);
    AcceptsAllowed(raw, p, d);
  }

  lemma HoldsMore(raw: seq<byte>, start: nat, rest: seq<Desc>, d: Desc)
    requires HoldsAll(raw, start, rest) && Holds(raw, start + |EncodeAll(rest)|, d)
    ensures HoldsAll(raw, start, rest + [d])
  {
    SummariesNext(rest, d);
    HeldParts(raw, start, EncodeAll(rest), Encode(d));
  }
}
