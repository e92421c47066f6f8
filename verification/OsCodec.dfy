/**
 The Microsoft OS descriptors of a function as values with named fields, and the bytes
 they are sent as, laid out as the extended compatibility and extended properties
 descriptors of the Microsoft OS descriptors 1.0. What validation finds in the section
 is stated here on the fields.
 */
module OsCodec {
  import opened Bytes
  import opened OsDescs

  /** The types of a property, USB_EXT_PROP_UNICODE and so on. */
  datatype PropKind = Unicode | UnicodeEnv | Binary | LittleEndian | BigEndian | UnicodeLink | UnicodeMulti

  function WireCode(k: PropKind): nat {
    match k
    case Unicode => 1
    case UnicodeEnv => 2
    case Binary => 3
    case LittleEndian => 4
    case BigEndian => 5
    case UnicodeLink => 6
    case UnicodeMulti => 7
  }

  ghost predicate KnownKind(code: nat) { exists k :: WireCode(k) == code }

  lemma KnownKinds(code: nat)
    ensures KnownKind(code) <==> 1 <= code <= 7
  {
    var ks := [Unicode, UnicodeEnv, Binary, LittleEndian, BigEndian, UnicodeLink, UnicodeMulti];
    if 1 <= code <= 7 {
      assert WireCode(ks[code - 1]) == code;
    }
  }

  type Id = s: seq<byte> | |s| == 8 witness [0, 0, 0, 0, 0, 0, 0, 0]

  type Padding = s: seq<byte> | |s| == 6 witness [0, 0, 0, 0, 0, 0]

  type Name = s: seq<byte> | |s| < 0x1_0000

  type Data = s: seq<byte> | |s| < 0x1_0000_0000

  datatype Record =
    | CompatRec(first: byte, reserved: byte, id: Id, subId: Id, padding: Padding)
    | PropRec(size: Word32, kind: Word32, name: Name, data: Data)

  /** A feature descriptor: an index of 4 with compatibility records, or of 5 with properties. */
  datatype Feature = Feature(intf: byte, length: Word32, version: Word16, compat: bool, records: seq<Record>)

  predicate Proper(f: Feature) { |f.records| < 0x1_0000 && forall r :: r in f.records ==> r.CompatRec? == f.compat }

  function EncodeRecord(r: Record): (s: seq<byte>)
    ensures |s| == match r
                   case CompatRec(_, _, _, _, _) => 24
                   case PropRec(_, _, n, d) => 14 + |n| + |d|
  {
    match r
    case CompatRec(f, v, id, subId, pad) => [f, v] + id + subId + pad
    case PropRec(size, kind, name, data) =>
      PropHead(size, kind, |name|) + name + Bytes4(|data|) + data
  }

  function PropHead(size: Word32, kind: Word32, n: Word16): (s: seq<byte>)
    ensures |s| == 10
  {
    Bytes4(size) + Bytes4(kind) + Bytes2(n)
  }

  function EncodeRecords(rs: seq<Record>): seq<byte> {
    if rs == [] then [] else EncodeRecords(rs[..|rs| - 1]) + EncodeRecord(rs[|rs| - 1])
  }

  function EncodeHeader(f: Feature): (s: seq<byte>)
    ensures |s| == 11
  {
    [f.intf] + Bytes4(f.length) + Bytes2(f.version) + Bytes2(if f.compat then 4 else 5) + Bytes2(|f.records|)
  }

  function EncodeFeature(f: Feature): (s: seq<byte>)
    ensures |s| >= 11
  {
    EncodeHeader(f) + EncodeRecords(f.records)
  }

  function EncodeFeatures(fs: seq<Feature>): seq<byte> {
    if fs == [] then [] else EncodeFeatures(fs[..|fs| - 1]) + EncodeFeature(fs[|fs| - 1])
  }

  /** A record of a feature for interface intf, of a function with so many interfaces. */
  ghost predicate RecordAllowed(r: Record, intf: byte, interfaces: nat) {
    match r
    case CompatRec(first, _, _, _, padding) => first < interfaces && padding == [0, 0, 0, 0, 0, 0]
    case PropRec(size, kind, name, data) =>
      intf < interfaces && size % 256 == 14 + |name| + |data| && KnownKind(kind)
  }

  ghost predicate RecordsAllowed(rs: seq<Record>, intf: byte, interfaces: nat) {
    forall r :: r in rs ==> RecordAllowed(r, intf, interfaces)
  }

  /** A feature with so many bytes of the message left, itself included. */
  ghost predicate FeatureAllowed(f: Feature, left: int, interfaces: nat) {
    && f.version == 1
    && f.length <= left
    && (f.compat ==> |f.records| <= 255)
    && RecordsAllowed(f.records, f.intf, interfaces)
  }

  ghost predicate FeaturesAllowed(fs: seq<Feature>, left: int, interfaces: nat) {
    if fs == [] then true
    else
      var before, n := fs[..|fs| - 1], |fs| - 1;
      FeaturesAllowed(before, left, interfaces) && FeatureAllowed(fs[n], left - |EncodeFeatures(before)|, interfaces)
  }

  /** The properties, in order, with the interface of their feature. */
  function PropsIn(rs: seq<Record>, intf: byte): seq<Prop> {
    if rs == [] then []
    else
      var before := PropsIn(rs[..|rs| - 1], intf);
      match rs[|rs| - 1]
      case CompatRec(_, _, _, _, _) => before
      case PropRec(_, kind, name, data) => before + [Prop(intf, kind, name, data)]
  }

  /** The ids of the interfaces with compatibility records; the last record of an interface counts. */
  function IdsIn(rs: seq<Record>): map<byte, seq<byte>> {
    if rs == [] then map[]
    else
      var before := IdsIn(rs[..|rs| - 1]);
      match rs[|rs| - 1]
      case CompatRec(first, _, id, subId, _) => before[first := id + subId]
      case PropRec(_, _, _, _) => before
  }

  function AllProps(fs: seq<Feature>): seq<Prop> {
    if fs == [] then []
    else AllProps(fs[..|fs| - 1]) + PropsIn(fs[|fs| - 1].records, fs[|fs| - 1].intf)
  }

  function AllIds(fs: seq<Feature>): map<byte, seq<byte>> {
    if fs == [] then map[] else AllIds(fs[..|fs| - 1]) + IdsIn(fs[|fs| - 1].records)
  }

  lemma PropHeadHeld(raw: seq<byte>, p: nat, size: Word32, kind: Word32, n: Word16)
    requires p + 10 <= |raw|
    ensures Held(raw, p, PropHead(size, kind, n)) <==>
            Le32(raw, p) == size && Le32(raw, p + 4) == kind && Le16(raw, p + 8) == n
  {
    hide Bytes4, Bytes2, Le16, Le32;
    HeldParts(raw, p, Bytes4(size) + Bytes4(kind), Bytes2(n));
    HeldParts(raw, p, Bytes4(size), Bytes4(kind));
    HeldFour(raw, p, size);
    HeldFour(raw, p + 4, kind);
    HeldTwo(raw, p + 8, n);
  }

  /** The parts of a record in its bytes. */
  lemma PropHeld(raw: seq<byte>, p: nat, r: Record)
    requires r.PropRec? && p + |EncodeRecord(r)| <= |raw|
    ensures var n, d := |r.name|, |r.data|;
      Held(raw, p, EncodeRecord(r)) <==>
      && Le32(raw, p) == r.size && Le32(raw, p + 4) == r.kind && Le16(raw, p + 8) == n
      && raw[p + 10..p + 10 + n] == r.name && Le32(raw, p + 10 + n) == d && raw[p + 14 + n..p + 14 + n + d] == r.data
  {
    hide Bytes4, Le16, Le32, PropHead, Held;
    PropBytesHeld(raw, p, r.size, r.kind, r.name, r.data);
  }

  lemma PropBytesHeld(raw: seq<byte>, p: nat, size: Word32, kind: Word32, name: Name, data: Data)
    requires p + 14 + |name| + |data| <= |raw|
    ensures var n, d := |name|, |data|;
      Held(raw, p, PropHead(size, kind, n) + name + Bytes4(d) + data) <==>
      && Le32(raw, p) == size && Le32(raw, p + 4) == kind && Le16(raw, p + 8) == n
      && raw[p + 10..p + 10 + n] == name && Le32(raw, p + 10 + n) == d && raw[p + 14 + n..p + 14 + n + d] == data
  {
    hide Bytes4, Le16, Le32, PropHead;
    var n, d := |name|, |data|;
    FourHeld(raw, p, PropHead(size, kind, n), name, Bytes4(d), data);
    PropHeadHeld(raw, p, size, kind, n);
    HeldFour(raw, p + 10 + n, d);
    HeldIs(raw, p + 10, name);
    HeldIs(raw, p + 14 + n, data);
    hide Held;
  }

  lemma FourHeld(raw: seq<byte>, p: nat, a: seq<byte>, b: seq<byte>, c: seq<byte>, d: seq<byte>)
    ensures Held(raw, p, a + b + c + d) <==>
            && Held(raw, p, a) && Held(raw, p + |a|, b) && Held(raw, p + |a| + |b|, c)
            && Held(raw, p + |a| + |b| + |c|, d)
  {
    HeldParts(raw, p, a + b + c, d);
    HeldParts(raw, p, a + b, c);
    HeldParts(raw, p, a, b);
    hide Held;
  }

  lemma CompatHeld(raw: seq<byte>, p: nat, r: Record)
    requires r.CompatRec? && p + 24 <= |raw|
    ensures Held(raw, p, EncodeRecord(r)) <==>
            && raw[p] == r.first && raw[p + 1] == r.reserved && raw[p + 2..p + 18] == r.id + r.subId
            && raw[p + 18..p + 24] == r.padding
  {
    HeldParts(raw, p, [r.first, r.reserved] + r.id + r.subId, r.padding);
    HeldParts(raw, p, [r.first, r.reserved], r.id + r.subId);
    assert [r.first, r.reserved] + r.id + r.subId == [r.first, r.reserved] + (r.id + r.subId);
    assert raw[p..p + 2] == [raw[p], raw[p + 1]];
  }

  lemma HeaderHeld(raw: seq<byte>, p: nat, f: Feature)
    requires p + 11 <= |raw| && |f.records| < 0x1_0000
    ensures Held(raw, p, EncodeHeader(f)) <==>
            && raw[p] == f.intf && Le32(raw, p + 1) == f.length && Le16(raw, p + 5) == f.version
            && Le16(raw, p + 7) == (if f.compat then 4 else 5) && Le16(raw, p + 9) == |f.records|
  {
    var a, b, c, e := Bytes4(f.length), Bytes2(f.version), Bytes2(if f.compat then 4 else 5), Bytes2(|f.records|);
    hide Bytes4, Bytes2, Le16, Le32;
    HeldParts(raw, p, [f.intf] + a + b + c, e);
    HeldParts(raw, p, [f.intf] + a + b, c);
    HeldParts(raw, p, [f.intf] + a, b);
    HeldParts(raw, p, [f.intf], a);
    assert raw[p..p + 1] == [raw[p]];
    HeldFour(raw, p + 1, f.length);
    HeldTwo(raw, p + 5, f.version);
    HeldTwo(raw, p + 7, if f.compat then 4 else 5);
    HeldTwo(raw, p + 9, |f.records|);
  }

  // What validation finds in encoded features.

  lemma RecordsNext(rs: seq<Record>, r: Record, intf: byte, interfaces: nat)
    ensures EncodeRecords(rs + [r]) == EncodeRecords(rs) + EncodeRecord(r)
    ensures PropsIn(rs + [r], intf) ==
            PropsIn(rs, intf) + if r.PropRec? then [Prop(intf, r.kind, r.name, r.data)] else []
    ensures IdsIn(rs + [r]) == if r.CompatRec? then IdsIn(rs)[r.first := r.id + r.subId] else IdsIn(rs)
    ensures RecordsAllowed(rs + [r], intf, interfaces) <==>
            RecordsAllowed(rs, intf, interfaces) && RecordAllowed(r, intf, interfaces)
  {
    hide RecordAllowed, EncodeRecord;
    assert (rs + [r])[..|rs|] == rs;
    assert forall x :: x in rs + [r] <==> x in rs || x == r;
  }

  /** What was found before, and a record more. */
  ghost predicate Adds(g: Found, g': Found, r: Record, intf: byte) {
    && g'.pos == g.pos + |EncodeRecord(r)|
    && g'.props == g.props + (if r.PropRec? then [Prop(intf, r.kind, r.name, r.data)] else [])
    && g'.ids == if r.CompatRec? then g.ids[r.first := r.id + r.subId] else g.ids
  }

  lemma RecordReads(raw: seq<byte>, h: nat, g: Found, r: Record, interfaces: nat)
    requires h + HEADER_SIZE <= |raw| < TWO_TO_THE_32 && g.pos <= |raw|
    requires IsCompat(raw, h) == r.CompatRec? && Held(raw, g.pos, EncodeRecord(r))
    ensures RecordOk(raw, h, g.pos, interfaces) <==> RecordAllowed(r, raw[h], interfaces)
    ensures RecordOk(raw, h, g.pos, interfaces) ==> Adds(g, AddRecord(raw, h, g, interfaces), r, raw[h])
  {
    if r.CompatRec? {
      CompatReads(raw, h, g, r, interfaces);
    } else {
      PropReads(raw, h, g, r, interfaces);
    }
  }

  lemma CompatReads(raw: seq<byte>, h: nat, g: Found, r: Record, interfaces: nat)
    requires h + HEADER_SIZE <= |raw| && g.pos <= |raw|
    requires IsCompat(raw, h) && r.CompatRec? && Held(raw, g.pos, EncodeRecord(r))
    ensures RecordOk(raw, h, g.pos, interfaces) <==> RecordAllowed(r, raw[h], interfaces)
    ensures RecordOk(raw, h, g.pos, interfaces) ==> Adds(g, AddRecord(raw, h, g, interfaces), r, raw[h])
  {
    CompatHeld(raw, g.pos, r);
    var p := g.pos;
    forall i | 0 <= i < 6
      ensures raw[p + 18 + i] == r.padding[i]
    {
      assert raw[p + 18 + i] == raw[p + 18..p + 24][i];
    }
    assert r.padding == [r.padding[0], r.padding[1], r.padding[2], r.padding[3], r.padding[4], r.padding[5]];
    if RecordAllowed(r, raw[h], interfaces) {
      forall i | p + 18 <= i < p + 24
        ensures raw[i] == 0
      {
        assert raw[p + 18 + (i - p - 18)] == r.padding[i - p - 18];
      }
    }
    if RecordOk(raw, h, p, interfaces) {
      assert forall i :: 0 <= i < 6 ==> r.padding[i] == 0;
    }
  }

  lemma PropReads(raw: seq<byte>, h: nat, g: Found, r: Record, interfaces: nat)
    requires h + HEADER_SIZE <= |raw| < TWO_TO_THE_32 && g.pos <= |raw|
    requires !IsCompat(raw, h) && r.PropRec? && Held(raw, g.pos, EncodeRecord(r))
    ensures RecordOk(raw, h, g.pos, interfaces) <==> RecordAllowed(r, raw[h], interfaces)
    ensures RecordOk(raw, h, g.pos, interfaces) ==> Adds(g, AddRecord(raw, h, g, interfaces), r, raw[h])
  {
    hide *;
    PropLength(r);
    HeldFits(raw, g.pos, EncodeRecord(r));
    PropHeld(raw, g.pos, r);
    PropDecides(raw, h, g.pos, r, interfaces);
    NoCompat(raw, h, g.pos, interfaces);
    if PropOk(raw, h, g.pos, interfaces) {
      PropAdds(raw, h, g, r, interfaces);
    }
  }

  lemma NoCompat(raw: seq<byte>, h: nat, p: nat, interfaces: nat)
    requires h + HEADER_SIZE <= |raw| && p <= |raw| && !IsCompat(raw, h)
    ensures RecordOk(raw, h, p, interfaces) == PropOk(raw, h, p, interfaces)
  {
    hide IsCompat, PropOk, CompatOk;
  }

  lemma PropAdds(raw: seq<byte>, h: nat, g: Found, r: Record, interfaces: nat)
    requires h + HEADER_SIZE <= |raw| < TWO_TO_THE_32 && r.PropRec? && g.pos + 14 + |r.name| + |r.data| <= |raw|
    requires !IsCompat(raw, h) && PropOk(raw, h, g.pos, interfaces)
    requires var p, n, d := g.pos, |r.name|, |r.data|;
      && Le32(raw, p) == r.size && Le32(raw, p + 4) == r.kind && Le16(raw, p + 8) == n
      && raw[p + 10..p + 10 + n] == r.name && Le32(raw, p + 10 + n) == d && raw[p + 14 + n..p + 14 + n + d] == r.data
    ensures Adds(g, AddRecord(raw, h, g, interfaces), r, raw[h])
  {
    hide Le16, Le32, PropOk, IsCompat;
    PropRecordIsExact(raw, h, g.pos, interfaces);
    PropLength(r);
    hide EncodeRecord;
    assert PropAt(raw, h, g.pos, interfaces) == Prop(raw[h], r.kind, r.name, r.data);
  }

  lemma PropLength(r: Record)
    requires r.PropRec?
    ensures |EncodeRecord(r)| == 14 + |r.name| + |r.data|
  {
  }

  lemma PropDecides(raw: seq<byte>, h: nat, p: nat, r: Record, interfaces: nat)
    requires h + HEADER_SIZE <= |raw| < TWO_TO_THE_32 && r.PropRec? && p + 14 + |r.name| + |r.data| <= |raw|
    requires Le32(raw, p) == r.size && Le32(raw, p + 4) == r.kind && Le16(raw, p + 8) == |r.name|
    requires Le32(raw, p + 10 + |r.name|) == |r.data|
    ensures PropOk(raw, h, p, interfaces) <==> RecordAllowed(r, raw[h], interfaces)
  {
    hide Le16, Le32;
    KnownKinds(r.kind);
    hide KnownKind;
  }

  /** The records rs of a feature for intf, found behind f. */
  ghost predicate RecordsFound(f: Found, g: Found, rs: seq<Record>, intf: byte) {
    && g.pos == f.pos + |EncodeRecords(rs)|
    && g.props == f.props + PropsIn(rs, intf)
    && g.ids == f.ids + IdsIn(rs)
  }

  lemma {:induction false} RecordsOfEncoded(raw: seq<byte>, h: nat, f: Found, rs: seq<Record>, interfaces: nat)
    requires h + HEADER_SIZE <= |raw| < TWO_TO_THE_32 && f.pos <= |raw|
    requires Held(raw, f.pos, EncodeRecords(rs)) && forall r :: r in rs ==> IsCompat(raw, h) == r.CompatRec?
    ensures Records(raw, h, f, interfaces, |rs|).Some? <==> RecordsAllowed(rs, raw[h], interfaces)
    ensures RecordsAllowed(rs, raw[h], interfaces) ==>
              RecordsFound(f, Records(raw, h, f, interfaces, |rs|).value, rs, raw[h])
  {
    hide RecordOk, AddRecord, RecordAllowed, EncodeRecord, IsCompat, Held, RecordsFound;
    if rs == [] {
      NothingFound(f, raw[h]);
    } else {
      var rest, r := rs[..|rs| - 1], rs[|rs| - 1];
      assert rs == rest + [r];
      RecordsNext(rest, r, raw[h], interfaces);
      HeldParts(raw, f.pos, EncodeRecords(rest), EncodeRecord(r));
      RecordsOfEncoded(raw, h, f, rest, interfaces);
      hide RecordsAllowed, Records, EncodeRecords, PropsIn, IdsIn;
      RecordsOfNext(raw, h, f, rest, r, interfaces);
    }
  }

  lemma NothingFound(f: Found, intf: byte)
    ensures RecordsFound(f, f, [], intf)
  {
    assert f.ids + map[] == f.ids;
  }

  lemma FoundNext(f: Found, g: Found, g': Found, rest: seq<Record>, r: Record, intf: byte)
    requires RecordsFound(f, g, rest, intf) && Adds(g, g', r, intf)
    ensures RecordsFound(f, g', rest + [r], intf)
  {
    RecordsNext(rest, r, intf, 0);
    hide EncodeRecords, EncodeRecord, PropsIn, IdsIn, RecordsAllowed, RecordAllowed;
    if r.CompatRec? {
      IdsAppend(f.ids, IdsIn(rest), r);
    }
  }

  lemma RecordsOfNext(raw: seq<byte>, h: nat, f: Found, rest: seq<Record>, r: Record, interfaces: nat)
    requires h + HEADER_SIZE <= |raw| < TWO_TO_THE_32 && f.pos <= |raw| && IsCompat(raw, h) == r.CompatRec?
    requires Held(raw, f.pos + |EncodeRecords(rest)|, EncodeRecord(r))
    requires Records(raw, h, f, interfaces, |rest|).Some? <==> RecordsAllowed(rest, raw[h], interfaces)
    requires RecordsAllowed(rest, raw[h], interfaces) ==>
               RecordsFound(f, Records(raw, h, f, interfaces, |rest|).value, rest, raw[h])
    ensures Records(raw, h, f, interfaces, |rest| + 1).Some? <==> RecordsAllowed(rest + [r], raw[h], interfaces)
    ensures RecordsAllowed(rest + [r], raw[h], interfaces) ==>
              RecordsFound(f, Records(raw, h, f, interfaces, |rest| + 1).value, rest + [r], raw[h])
  {
    hide RecordOk, AddRecord, RecordAllowed, RecordsAllowed, EncodeRecord, EncodeRecords, PropsIn, IdsIn, Held,
      IsCompat,
      Adds, Records, RecordsFound;
    RecordsNext(rest, r, raw[h], interfaces);
    RecordsUnfold(raw, h, f, interfaces, |rest|);
    var g := Records(raw, h, f, interfaces, |rest|);
    if g.Some? {
      OneMoreFound(raw, h, f, g.value, rest, r, interfaces);
    }
  }

  lemma OneMoreFound(raw: seq<byte>, h: nat, f: Found, g: Found, rest: seq<Record>, r: Record, interfaces: nat)
    requires h + HEADER_SIZE <= |raw| < TWO_TO_THE_32 && g.pos <= |raw| && IsCompat(raw, h) == r.CompatRec?
    requires Held(raw, f.pos + |EncodeRecords(rest)|, EncodeRecord(r)) && RecordsFound(f, g, rest, raw[h])
    ensures RecordOk(raw, h, g.pos, interfaces) <==> RecordAllowed(r, raw[h], interfaces)
    ensures RecordOk(raw, h, g.pos, interfaces) ==>
              RecordsFound(f, AddRecord(raw, h, g, interfaces), rest + [r], raw[h])
  {
    hide RecordOk, AddRecord, RecordAllowed, EncodeRecord, EncodeRecords, Held, IsCompat, Adds, RecordsFound;
    FoundEnds(f, g, rest, raw[h]);
    RecordReads(raw, h, g, r, interfaces);
    if RecordOk(raw, h, g.pos, interfaces) {
      FoundNext(f, g, AddRecord(raw, h, g, interfaces), rest, r, raw[h]);
    }
  }

  lemma FoundEnds(f: Found, g: Found, rs: seq<Record>, intf: byte)
    requires RecordsFound(f, g, rs, intf)
    ensures g.pos == f.pos + |EncodeRecords(rs)|
  {
  }

  lemma RecordsUnfold(raw: seq<byte>, h: nat, f: Found, interfaces: nat, j: nat)
    requires h + HEADER_SIZE <= |raw| && f.pos <= |raw|
    ensures Records(raw, h, f, interfaces, j + 1) ==
            var g := Records(raw, h, f, interfaces, j);
            if g.None? || !RecordOk(raw, h, g.value.pos, interfaces) then None
            else Some(AddRecord(raw, h, g.value, interfaces))
  {
  }

  lemma IdsAppend(a: map<byte, seq<byte>>, b: map<byte, seq<byte>>, r: Record)
    requires r.CompatRec?
    ensures (a + b)[r.first := r.id + r.subId] == a + b[r.first := r.id + r.subId]
  {
  }

  lemma FeaturesNext(fs: seq<Feature>, f: Feature, left: int, interfaces: nat)
    ensures EncodeFeatures(fs + [f]) == EncodeFeatures(fs) + EncodeFeature(f)
    ensures AllProps(fs + [f]) == AllProps(fs) + PropsIn(f.records, f.intf)
    ensures AllIds(fs + [f]) == AllIds(fs) + IdsIn(f.records)
    ensures FeaturesAllowed(fs + [f], left, interfaces) <==>
            FeaturesAllowed(fs, left, interfaces) && FeatureAllowed(f, left - |EncodeFeatures(fs)|, interfaces)
  {
    hide EncodeFeature, PropsIn, IdsIn, FeatureAllowed;
    assert (fs + [f])[..|fs|] == fs;
  }

  /** One feature, header and records. */
  lemma FeatureReads(raw: seq<byte>, g: Found, f: Feature, interfaces: nat)
    requires g.pos <= |raw| < TWO_TO_THE_32 && Proper(f) && Held(raw, g.pos, EncodeFeature(f))
    ensures (FeatureOk(raw, g.pos) && OneFeature(raw, g, interfaces).Some?) <==>
            FeatureAllowed(f, |raw| - g.pos, interfaces)
    ensures FeatureAllowed(f, |raw| - g.pos, interfaces) ==>
              var g' := OneFeature(raw, g, interfaces).value;
              && g'.pos == g.pos + |EncodeFeature(f)|
              && g'.props == g.props + PropsIn(f.records, f.intf)
              && g'.ids == g.ids + IdsIn(f.records)
  {
    HeldParts(raw, g.pos, EncodeHeader(f), EncodeRecords(f.records));
    HeaderHeld(raw, g.pos, f);
    hide EncodeHeader, Held, Le32, Le16, RecordsAllowed, PropsIn, IdsIn, EncodeRecords, Records;
    FeatureHeader(raw, g.pos, f);
    RecordsOfEncoded(raw, g.pos, g.(pos := g.pos + HEADER_SIZE), f.records, interfaces);
  }

  lemma FeatureHeader(raw: seq<byte>, p: nat, f: Feature)
    requires p + 11 <= |raw| && Proper(f)
    requires raw[p] == f.intf && Le32(raw, p + 1) == f.length && Le16(raw, p + 5) == f.version
    requires Le16(raw, p + 7) == (if f.compat then 4 else 5) && Le16(raw, p + 9) == |f.records|
    ensures FeatureOk(raw, p) <==> f.version == 1 && f.length <= |raw| - p && (f.compat ==> |f.records| <= 255)
    ensures IsCompat(raw, p) == f.compat && forall r :: r in f.records ==> IsCompat(raw, p) == r.CompatRec?
  {
    hide Le32;
  }

  /** What the walk over the features finds. */
  ghost predicate FeaturesRead(g: Found, start: nat, fs: seq<Feature>) {
    && g.pos == start + |EncodeFeatures(fs)|
    && g.props == AllProps(fs)
    && g.ids == AllIds(fs)
  }

  /**
   Validation accepts the encoding of any features exactly if the fields of each are
   allowed; it then ends behind the last, and has found the properties and ids in the fields.
   */
  lemma {:induction false} FeaturesOfEncoded(raw: seq<byte>, start: nat, fs: seq<Feature>, interfaces: nat)
    requires start <= |raw| < TWO_TO_THE_32 && Held(raw, start, EncodeFeatures(fs)) && forall f :: f in fs ==> Proper(f)
    ensures Features(raw, start, interfaces, |fs|).Some? <==> FeaturesAllowed(fs, |raw| - start, interfaces)
    ensures FeaturesAllowed(fs, |raw| - start, interfaces) ==>
              FeaturesRead(Features(raw, start, interfaces, |fs|).value, start, fs)
  {
    hide FeatureOk, OneFeature, FeatureAllowed, EncodeFeature, Proper, Held, FeaturesRead;
    if fs == [] {
      NoFeatures(raw, start, interfaces);
    } else {
      var rest, f := fs[..|fs| - 1], fs[|fs| - 1];
      assert fs == rest + [f] && f in fs;
      FeaturesNext(rest, f, |raw| - start, interfaces);
      HeldParts(raw, start, EncodeFeatures(rest), EncodeFeature(f));
      FeaturesOfEncoded(raw, start, rest, interfaces);
      hide FeaturesAllowed, Features, EncodeFeatures;
      FeaturesOfNext(raw, start, rest, f, interfaces);
    }
  }

  lemma NoFeatures(raw: seq<byte>, start: nat, interfaces: nat)
    requires start <= |raw|
    ensures Features(raw, start, interfaces, 0).Some? && FeaturesAllowed([], |raw| - start, interfaces)
    ensures FeaturesRead(Features(raw, start, interfaces, 0).value, start, [])
  {
  }

  lemma FeaturesOfNext(raw: seq<byte>, start: nat, rest: seq<Feature>, f: Feature, interfaces: nat)
    requires start <= |raw| < TWO_TO_THE_32 && Proper(f)
    requires Held(raw, start + |EncodeFeatures(rest)|, EncodeFeature(f))
    requires Features(raw, start, interfaces, |rest|).Some? <==> FeaturesAllowed(rest, |raw| - start, interfaces)
    requires FeaturesAllowed(rest, |raw| - start, interfaces) ==>
               FeaturesRead(Features(raw, start, interfaces, |rest|).value, start, rest)
    ensures Features(raw, start, interfaces, |rest| + 1).Some? <==>
            FeaturesAllowed(rest + [f], |raw| - start, interfaces)
    ensures FeaturesAllowed(rest + [f], |raw| - start, interfaces) ==>
              FeaturesRead(Features(raw, start, interfaces, |rest| + 1).value, start, rest + [f])
  {
    FeaturesNext(rest, f, |raw| - start, interfaces);
    hide FeatureOk, OneFeature, FeaturesAllowed, FeatureAllowed, EncodeFeatures, EncodeFeature, AllProps, AllIds, Held,
      Proper, PropsIn, IdsIn;
    var g := Features(raw, start, interfaces, |rest|);
    if g.Some? {
      HeldFits(raw, g.value.pos, EncodeFeature(f));
      FeatureReads(raw, g.value, f, interfaces);
    }
  }

  // The other way round: whatever is accepted is such an encoding.

  lemma RecordDecoded(raw: seq<byte>, h: nat, g: Found, interfaces: nat) returns (r: Record)
    requires h + HEADER_SIZE <= |raw| < TWO_TO_THE_32 && g.pos <= |raw| && RecordOk(raw, h, g.pos, interfaces)
    ensures r.CompatRec? == IsCompat(raw, h) && Held(raw, g.pos, EncodeRecord(r))
  {
    hide Le16, Le32, Held, EncodeRecord;
    if IsCompat(raw, h) {
      r := CompatDecoded(raw, g.pos);
    } else {
      PropRecordIsExact(raw, h, g.pos, interfaces);
      r := PropDecoded(raw, g.pos);
    }
  }

  lemma CompatDecoded(raw: seq<byte>, p: nat) returns (r: Record)
    requires p + COMPAT_SIZE <= |raw|
    ensures r.CompatRec? && Held(raw, p, EncodeRecord(r))
  {
    r := CompatRec(raw[p], raw[p + 1], raw[p + 2..p + 10], raw[p + 10..p + 18], raw[p + 18..p + 24]);
    assert raw[p + 2..p + 18] == r.id + r.subId;
    CompatHeld(raw, p, r);
  }

  lemma PropDecoded(raw: seq<byte>, p: nat) returns (r: Record)
    requires p + 14 <= |raw| < TWO_TO_THE_32 && p + 14 + NameLength(raw, p) <= |raw|
    requires p + 14 + NameLength(raw, p) + DataLength(raw, p) <= |raw|
    ensures r.PropRec? && Held(raw, p, EncodeRecord(r))
  {
    hide Le16, Le32, Held;
    var n, d := NameLength(raw, p), DataLength(raw, p);
    r := PropRec(Le32(raw, p), Le32(raw, p + 4), raw[p + 10..p + 10 + n], raw[p + 14 + n..p + 14 + n + d]);
    PropHeld(raw, p, r);
  }

  lemma {:induction false} RecordsDecoded(raw: seq<byte>, h: nat, f: Found, interfaces: nat, j: nat)
    returns (rs: seq<Record>)
    requires h + HEADER_SIZE <= |raw| < TWO_TO_THE_32 && f.pos <= |raw| && Records(raw, h, f, interfaces, j).Some?
    ensures |rs| == j && Held(raw, f.pos, EncodeRecords(rs)) && forall r :: r in rs ==> r.CompatRec? == IsCompat(raw, h)
    ensures Records(raw, h, f, interfaces, j).value.pos == f.pos + |EncodeRecords(rs)|
  {
    hide RecordOk, AddRecord, EncodeRecord, IsCompat;
    if j == 0 {
      rs := [];
    } else {
      var rest := RecordsDecoded(raw, h, f, interfaces, j - 1);
      var g := Records(raw, h, f, interfaces, j - 1).value;
      var r := RecordDecoded(raw, h, g, interfaces);
      RecordReads(raw, h, g, r, interfaces);
      hide EncodeRecords;
      rs := rest + [r];
      RecordsNext(rest, r, raw[h], interfaces);
      HeldParts(raw, f.pos, EncodeRecords(rest), EncodeRecord(r));
    }
  }

  lemma FeatureDecoded(raw: seq<byte>, g: Found, interfaces: nat) returns (f: Feature)
    requires g.pos <= |raw| < TWO_TO_THE_32 && FeatureOk(raw, g.pos) && OneFeature(raw, g, interfaces).Some?
    ensures Proper(f) && Held(raw, g.pos, EncodeFeature(f))
    ensures OneFeature(raw, g, interfaces).value.pos == g.pos + |EncodeFeature(f)|
  {
    var p := g.pos;
    var rs := RecordsDecoded(raw, p, g.(pos := p + HEADER_SIZE), interfaces, Le16(raw, p + 9));
    f := Feature(raw[p], Le32(raw, p + 1), Le16(raw, p + 5), IsCompat(raw, p), rs);
    HeaderHeld(raw, p, f);
    HeldParts(raw, p, EncodeHeader(f), EncodeRecords(rs));
    hide Le16, Le32, EncodeRecords, EncodeHeader, Held, Records;
  }

  /** Every section of OS descriptors that is accepted is the encoding of features whose fields are allowed. */
  lemma {:induction false} FeaturesAreEncoded(raw: seq<byte>, start: nat, interfaces: nat, k: nat)
    returns (fs: seq<Feature>)
    requires start <= |raw| < TWO_TO_THE_32 && Features(raw, start, interfaces, k).Some?
    ensures |fs| == k && (forall f :: f in fs ==> Proper(f)) && Held(raw, start, EncodeFeatures(fs))
    ensures FeaturesAllowed(fs, |raw| - start, interfaces)
    ensures Features(raw, start, interfaces, k).value.pos == start + |EncodeFeatures(fs)|
  {
    hide FeatureOk, OneFeature, EncodeFeature, FeaturesAllowed, Proper;
    if k == 0 {
      fs := [];
    } else {
      var g := Features(raw, start, interfaces, k - 1).value;
      var rest := FeaturesAreEncoded(raw, start, interfaces, k - 1);
      var f := FeatureDecoded(raw, g, interfaces);
      hide EncodeFeatures;
      fs := rest + [f];
      FeaturesNext(rest, f, |raw| - start, interfaces);
      HeldParts(raw, start, EncodeFeatures(rest), EncodeFeature(f));
    }
    FeaturesOfEncoded(raw, start, fs, interfaces);
  }
}
