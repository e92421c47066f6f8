/**
 What the host is told of the properties a bind has filed. Text is reported in UTF-16:
 every character of a name, and of the data of a text property, takes two bytes there.
 */
module HostReport {
  import opened Bytes
  import opened OsDescs
  import opened OsCodec
  import opened OsBind

  /** The text with every character widened to 16 bits. */
  function Widened(text: seq<byte>): seq<byte> {
    if text == [] then [] else Widened(text[..|text| - 1]) + [text[|text| - 1], 0]
  }

  /** The data as the host is sent it: text is widened, a number or binary data is sent as it is. */
  function HostData(k: PropKind, data: seq<byte>): seq<byte> {
    match k
    case Unicode => Widened(data)
    case UnicodeEnv => Widened(data)
    case Binary => data
    case LittleEndian => data
    case BigEndian => data
    case UnicodeLink => Widened(data)
    case UnicodeMulti => Widened(data)
  }

  ghost predicate KindsKnown(props: seq<Prop>) { forall i :: 0 <= i < |props| ==> KnownKind(props[i].kind) }

  /** Name, data and the fixed fields of a property as it is sent. */
  ghost function SentSize(p: Prop): nat
    requires KnownKind(p.kind)
  {
    var k :| WireCode(k) == p.kind;
    |Widened(p.name)| + |HostData(k, p.data)| + 14
  }

  /** The properties of interface t together. */
  ghost function SentFor(props: seq<Prop>, t: nat): nat
    requires KindsKnown(props)
  {
    if props == [] then 0
    else SentFor(props[..|props| - 1], t) + if props[|props| - 1].intf == t then SentSize(props[|props| - 1]) else 0
  }

  /** Property p as it is filed: its type, the two lengths the host is told, and where its name and data lie. */
  ghost predicate PropReported(st: OsSt, x: FiledProp, p: Prop) {
    && x.kind == p.kind
    && x.nameLen == |Widened(p.name)|
    && (forall k :: WireCode(k) == p.kind ==> x.dataLen == |HostData(k, p.data)|)
    && x.name.Some? && Held(st.names, x.name.value, p.name)
    && x.data.Some? && Held(st.datas, x.data.value, p.data)
  }

  /** Interface t: the size of its properties, which are exactly its own and in their order. */
  ghost predicate IntfReported(e: Entry, props: seq<Prop>, t: nat)
    requires KindsKnown(props)
  {
    && e.propLen == SentFor(props, t)
    && (forall i, j :: 0 <= i < j < |e.filed| ==> e.filed[i] < e.filed[j])
    && (forall i :: i in e.filed <==> 0 <= i < |props| && props[i].intf == t)
  }

  ghost predicate Reported(st: OsSt, props: seq<Prop>) {
    && KindsKnown(props)
    && |st.props| == |props|
    && (forall i :: 0 <= i < |props| ==> PropReported(st, st.props[i], props[i]))
    && (forall t :: 0 <= t < |st.table| ==> IntfReported(st.table[t], props, t))
  }

  lemma {:induction false} WidenedLength(text: seq<byte>)
    ensures |Widened(text)| == 2 * |text|
  {
    if text != [] {
      WidenedLength(text[..|text| - 1]);
    }
  }

  /** What is stored as the data's length is the length of what is sent. */
  lemma DataLengthSent(k: PropKind, data: seq<byte>)
    ensures ReportedData(WireCode(k), |data|) == |HostData(k, data)|
  {
    WidenedLength(data);
  }

  lemma SentSizeIs(p: Prop)
    requires KnownKind(p.kind)
    ensures SentSize(p) == 2 * |p.name| + ReportedData(p.kind, |p.data|) + PROP_FIXED
  {
    var k :| WireCode(k) == p.kind && SentSize(p) == |Widened(p.name)| + |HostData(k, p.data)| + 14;
    WidenedLength(p.name);
    DataLengthSent(k, p.data);
  }

  lemma {:induction false} SentForIs(props: seq<Prop>, t: nat)
    requires KindsKnown(props)
    ensures ReportedLength(props, t) == SentFor(props, t)
  {
    hide ReportedData, SentSize;
    if props != [] {
      SentForIs(props[..|props| - 1], t);
      SentSizeIs(props[|props| - 1]);
    }
  }

  lemma {:induction false} OwnersOrdered(props: seq<Prop>, t: nat)
    ensures forall i, j :: 0 <= i < j < |OwnedBy(props, t)| ==> OwnedBy(props, t)[i] < OwnedBy(props, t)[j]
    ensures forall i :: i in OwnedBy(props, t) <==> 0 <= i < |props| && props[i].intf == t
  {
    OwnersAre(props, t);
    if props != [] {
      OwnersAre(props[..|props| - 1], t);
      OwnersOrdered(props[..|props| - 1], t);
      var before := OwnedBy(props[..|props| - 1], t);
      assert forall i :: 0 <= i < |before| ==> before[i] in before;
    }
  }

  /** The i-th text lies behind the ones before it. */
  lemma {:induction false} TextsLie(props: seq<Prop>, i: nat)
    requires i < |props|
    ensures Held(AllNames(props), NamesLength(props[..i]), props[i].name)
    ensures Held(AllDatas(props), DatasLength(props[..i]), props[i].data)
  {
    var rest, last := props[..|props| - 1], props[|props| - 1];
    assert AllNames(props) == AllNames(rest) + last.name && AllDatas(props) == AllDatas(rest) + last.data;
    if i == |props| - 1 {
      assert props[..i] == rest;
    } else {
      TextsLie(rest, i);
      assert rest[..i] == props[..i];
      hide AllNames, AllDatas, NamesLength, DatasLength;
      HeldBefore(AllNames(rest), last.name, NamesLength(props[..i]), props[i].name);
      HeldBefore(AllDatas(rest), last.data, DatasLength(props[..i]), props[i].data);
    }
  }

  lemma HeldBefore(a: seq<byte>, b: seq<byte>, p: nat, s: seq<byte>)
    requires Held(a, p, s)
    ensures Held(a + b, p, s)
  {
    assert (a + b)[p..p + |s|] == a[p..p + |s|];
  }

  lemma HeldInPrefix(a: seq<byte>, n: nat, p: nat, s: seq<byte>)
    requires n <= |a| && Held(a[..n], p, s)
    ensures Held(a, p, s)
  {
    assert a[..n] + a[n..] == a;
    HeldBefore(a[..n], a[n..], p, s);
  }

  lemma PropIsReported(st: OsSt, f: Found, nums: seq<int>, i: nat)
    requires Files(st, f, f.props, nums) && KindsKnown(f.props) && i < |f.props|
    ensures PropReported(st, st.props[i], f.props[i])
  {
    var p := f.props[i];
    TextsLie(f.props, i);
    WidenedLength(p.name);
    forall k | WireCode(k) == p.kind
      ensures ReportedData(p.kind, |p.data|) == |HostData(k, p.data)|
    {
      DataLengthSent(k, p.data);
    }
    assert st.props[i] == FiledOf(f.props, i);
    HeldInPrefix(st.names, st.nameUsed, NamesLength(f.props[..i]), p.name);
    HeldInPrefix(st.datas, st.dataUsed, DatasLength(f.props[..i]), p.data);
  }

  /** Tables that hold a section tell the host what the section says. */
  lemma FiledIsReported(st: OsSt, f: Found, nums: seq<int>)
    requires Files(st, f, f.props, nums) && KindsKnown(f.props)
    ensures Reported(st, f.props)
  {
    forall i | 0 <= i < |f.props|
      ensures PropReported(st, st.props[i], f.props[i])
    {
      PropIsReported(st, f, nums, i);
    }
    forall t | 0 <= t < |st.table|
      ensures IntfReported(st.table[t], f.props, t)
    {
      assert st.table[t] == EntryOf(f, nums, t);
      SentForIs(f.props, t);
      OwnersOrdered(f.props, t);
    }
  }

  /** The kinds of the properties of an accepted section are known. */
  lemma SectionKinds(raw: seq<byte>, start: nat, interfaces: nat, k: nat)
    requires start <= |raw| && Features(raw, start, interfaces, k).Some?
    ensures KindsKnown(Features(raw, start, interfaces, k).value.props)
  {
    FeaturesAccounted(raw, start, interfaces, k);
    var props := Features(raw, start, interfaces, k).value.props;
    forall i | 0 <= i < |props|
      ensures KnownKind(props[i].kind)
    {
      assert props[i] in props;
      KnownKinds(props[i].kind);
    }
  }

  /** One property is filed with the lengths of what the host is sent, and its interface charged for them. */
  ghost predicate SlotReports(before: OsSt, after: OsSt, p: Prop) {
    && before.used < |after.props| && p.intf < |before.table| && p.intf < |after.table|
    && var x := after.props[before.used];
    && x.kind == p.kind
    && x.nameLen == |Widened(p.name)|
    && (forall k :: WireCode(k) == p.kind ==> x.dataLen == |HostData(k, p.data)|)
    && after.table[p.intf].propLen == before.table[p.intf].propLen + x.nameLen + x.dataLen + 14
    && after.table[p.intf].filed == before.table[p.intf].filed + [before.used]
  }

  lemma PropSent(nums: seq<int>, zeroRet: nat, st: OsSt, p: Prop)
    requires FileProp(nums, zeroRet, st, p).Ok? && (zeroRet == 0 || (p.name != [] && p.data != []))
    ensures SlotReports(st, FileProp(nums, zeroRet, st, p).value.0, p)
  {
    WidenedLength(p.name);
    forall k | WireCode(k) == p.kind
      ensures ReportedData(p.kind, |p.data|) == |HostData(k, p.data)|
    {
      DataLengthSent(k, p.data);
    }
    FilePropDone(nums, zeroRet, st, p);
    hide FileProp, ReportedData, HostData, Widened, WireCode, Put;
  }

  /** A walk over a section none of whose copies is refused tells the host what the section says. */
  lemma SectionReported(raw: seq<byte>, nums: seq<int>, zeroRet: nat, st: OsSt, start: nat, k: nat)
    requires start <= |raw| && Features(raw, start, |nums|, k).Some?
    requires Files(st, Found(start, [], [], map[]), Features(raw, start, |nums|, k).value.props, nums)
    requires CopiesSucceed(Features(raw, start, |nums|, k).value.props, zeroRet)
    ensures var r := RunFeatures(raw, nums, zeroRet, st, start, k);
      r.Ok? && Reported(r.value.st, Features(raw, start, |nums|, k).value.props)
  {
    hide Features, RunFeatures, Files, CopiesSucceed, Reported, KindsKnown;
    FiledExactly(raw, nums, zeroRet, st, start, k);
    SectionKinds(raw, start, |nums|, k);
    var r := RunFeatures(raw, nums, zeroRet, st, start, k);
    FiledIsReported(r.value.st, Features(raw, start, |nums|, k).value, nums);
  }
}
