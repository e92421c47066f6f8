/**
 Microsoft OS descriptors: the section that follows the USB descriptors.

 The section is a run of feature descriptors, each an 11-byte header followed
 by a number of records: 24-byte compatibility records, or property records
 whose length is kept in a u8. What a walk has found so far is a Found value.
 */
module OsDescs {
  import opened Bytes

  const HEADER_SIZE := 11
  const COMPAT_SIZE := 24
  const PROP_FIXED := 14
  const EXT_COMPAT := 4
  const EXT_PROP := 5
  const PROP_UNICODE := 1
  const PROP_UNICODE_MULTI := 7

  /** One property, as the driver will report it: owner interface, type, name and data. */
  datatype Prop = Prop(intf: byte, kind: nat, name: seq<byte>, data: seq<byte>)

  /**
   Where a walk stands, and what it has met so far: properties, offsets of
   compatibility records, and the latest compatibility id of each interface.
   */
  datatype Found = Found(pos: nat, props: seq<Prop>, compats: seq<nat>, ids: map<byte, seq<byte>>)

  /** Sizes validation totals for the OS regions. */
  datatype OsSizes = OsSizes(props: nat, names: nat, datas: nat)

  /** dwLength, bcdVersion, wIndex and the count of the feature header at p. */
  predicate FeatureOk(raw: seq<byte>, p: nat)
    requires p <= |raw|
  {
    && |raw| - p >= HEADER_SIZE
    && Le32(raw, p + 1) <= |raw| - p
    && Le16(raw, p + 5) == 1
    && (Le16(raw, p + 7) == EXT_COMPAT || Le16(raw, p + 7) == EXT_PROP)
    && (Le16(raw, p + 7) == EXT_COMPAT ==> Le16(raw, p + 9) <= 255 && raw[p + 10] == 0)
  }

  predicate IsCompat(raw: seq<byte>, h: nat)
    requires h + HEADER_SIZE <= |raw|
  {
    Le16(raw, h + 7) == EXT_COMPAT
  }

  predicate CompatOk(raw: seq<byte>, p: nat, interfaces: nat)
    requires p <= |raw|
  {
    && |raw| - p >= COMPAT_SIZE
    && raw[p] < interfaces
    && forall i :: p + 18 <= i < p + 24 ==> raw[i] == 0
  }

  /** The checks on a property record, with dwSize truncated to a u8 and 32-bit sums. */
  predicate PropOk(raw: seq<byte>, h: nat, p: nat, interfaces: nat)
    requires h + HEADER_SIZE <= |raw| && p <= |raw|
  {
    && |raw| - p >= 10
    && raw[h] < interfaces
    && var length := Le32(raw, p) % 0x100;
    && length <= |raw| - p
    && PROP_UNICODE <= Le32(raw, p + 4) <= PROP_UNICODE_MULTI
    && var pnl := Le16(raw, p + 8);
    && length >= 14 + pnl
    && length == (14 + pnl + Le32(raw, p + 10 + pnl)) % TWO_TO_THE_32
  }

  predicate RecordOk(raw: seq<byte>, h: nat, p: nat, interfaces: nat)
    requires h + HEADER_SIZE <= |raw| && p <= |raw|
  {
    if IsCompat(raw, h) then CompatOk(raw, p, interfaces) else PropOk(raw, h, p, interfaces)
  }

  function RecordLength(raw: seq<byte>, h: nat, p: nat): nat
    requires h + HEADER_SIZE <= |raw| && p + 10 <= |raw|
  {
    if IsCompat(raw, h) then COMPAT_SIZE else Le32(raw, p) % 0x100
  }

  /** The name and data lengths of an accepted property. */
  function NameLength(raw: seq<byte>, p: nat): nat
    requires p + 10 <= |raw|
  {
    Le16(raw, p + 8)
  }

  function DataLength(raw: seq<byte>, p: nat): nat
    requires p + 14 <= |raw| && p + 14 + NameLength(raw, p) <= |raw|
  {
    Le32(raw, p + 10 + NameLength(raw, p))
  }

  /** Despite the u8 length and 32-bit sums, a record is exactly its fixed part, name and data. */
  lemma PropRecordIsExact(raw: seq<byte>, h: nat, p: nat, interfaces: nat)
    requires h + HEADER_SIZE <= |raw| && p <= |raw| && PropOk(raw, h, p, interfaces)
    ensures p + 14 + NameLength(raw, p) <= |raw|
    ensures Le32(raw, p) % 0x100 == PROP_FIXED + NameLength(raw, p) + DataLength(raw, p) <= |raw| - p
  {
    var sum := 14 + Le16(raw, p + 8) + Le32(raw, p + 10 + Le16(raw, p + 8));
    assert sum < 2 * TWO_TO_THE_32;
  }

  function PropAt(raw: seq<byte>, h: nat, p: nat, interfaces: nat): Prop
    requires h + HEADER_SIZE <= |raw| && p <= |raw| && PropOk(raw, h, p, interfaces)
  {
    PropRecordIsExact(raw, h, p, interfaces);
    var n, d := NameLength(raw, p), DataLength(raw, p);
    Prop(raw[h], Le32(raw, p + 4), raw[p + 10..p + 10 + n], raw[p + 14 + n..p + 14 + n + d])
  }

  /** The result of reading one accepted record. */
  function AddRecord(raw: seq<byte>, h: nat, f: Found, interfaces: nat): (r: Found)
    requires h + HEADER_SIZE <= |raw| && f.pos <= |raw| && RecordOk(raw, h, f.pos, interfaces)
    ensures f.pos < r.pos <= |raw|
  {
    if IsCompat(raw, h) then
      f.(pos := f.pos + COMPAT_SIZE, compats := f.compats + [f.pos],
         ids := f.ids[raw[f.pos] := raw[f.pos + 2..f.pos + 18]])
    else
      f.(pos := f.pos + RecordLength(raw, h, f.pos), props := f.props + [PropAt(raw, h, f.pos, interfaces)])
  }

  /** j records of the feature at h, or None when one of them is rejected. */
  function Records(raw: seq<byte>, h: nat, f: Found, interfaces: nat, j: nat): (r: Option<Found>)
    requires h + HEADER_SIZE <= |raw| && f.pos <= |raw|
    ensures r.Some? ==> f.pos <= r.value.pos <= |raw|
  {
    if j == 0 then Some(f)
    else
      var g := Records(raw, h, f, interfaces, j - 1);
      if g.None? || !RecordOk(raw, h, g.value.pos, interfaces) then None
      else Some(AddRecord(raw, h, g.value, interfaces))
  }

  /** The feature whose header is at f.pos, with all its records. */
  function OneFeature(raw: seq<byte>, f: Found, interfaces: nat): (r: Option<Found>)
    requires f.pos <= |raw| && FeatureOk(raw, f.pos)
    ensures r.Some? ==> f.pos <= r.value.pos <= |raw|
  {
    Records(raw, f.pos, f.(pos := f.pos + HEADER_SIZE), interfaces, Le16(raw, f.pos + 9))
  }

  /** k whole feature descriptors from start. */
  function Features(raw: seq<byte>, start: nat, interfaces: nat, k: nat): (r: Option<Found>)
    requires start <= |raw|
    ensures r.Some? ==> start <= r.value.pos <= |raw|
  {
    if k == 0 then Some(Found(start, [], [], map[]))
    else
      var g := Features(raw, start, interfaces, k - 1);
      if g.None? || !FeatureOk(raw, g.value.pos) then None
      else
        OneFeature(raw, g.value, interfaces)
  }

  function NamesLength(props: seq<Prop>): nat {
    if props == [] then 0 else NamesLength(props[..|props| - 1]) + |props[|props| - 1].name|
  }

  function DatasLength(props: seq<Prop>): nat {
    if props == [] then 0 else DatasLength(props[..|props| - 1]) + |props[|props| - 1].data|
  }

  lemma LengthsAppend(props: seq<Prop>, p: Prop)
    ensures NamesLength(props + [p]) == NamesLength(props) + |p.name|
    ensures DatasLength(props + [p]) == DatasLength(props) + |p.data|
  {
    assert (props + [p])[..|props|] == props;
  }

  lemma {:induction false} LengthsMonotone(props: seq<Prop>, k: nat)
    requires k <= |props|
    ensures NamesLength(props[..k]) <= NamesLength(props)
    ensures DatasLength(props[..k]) <= DatasLength(props)
  {
    if k == |props| {
      assert props[..k] == props;
    } else {
      var shorter := props[..|props| - 1];
      LengthsMonotone(shorter, k);
      assert shorter[..k] == props[..k];
    }
  }

  lemma {:induction false} RecordsPrefix(raw: seq<byte>, h: nat, f: Found, interfaces: nat, i: nat, j: nat)
    requires h + HEADER_SIZE <= |raw| && f.pos <= |raw| && i <= j
    requires Records(raw, h, f, interfaces, j).Some?
    ensures Records(raw, h, f, interfaces, i).Some?
    ensures Records(raw, h, f, interfaces, i).value.props <= Records(raw, h, f, interfaces, j).value.props
    decreases j
  {
    if i < j {
      RecordsPrefix(raw, h, f, interfaces, i, j - 1);
    }
  }

  lemma OneFeaturePrefix(raw: seq<byte>, f: Found, interfaces: nat)
    requires f.pos <= |raw| && FeatureOk(raw, f.pos) && OneFeature(raw, f, interfaces).Some?
    ensures f.props <= OneFeature(raw, f, interfaces).value.props
  {
    hide RecordOk, FeatureOk;
    var n := Le16(raw, f.pos + 9);
    RecordsPrefix(raw, f.pos, f.(pos := f.pos + HEADER_SIZE), interfaces, 0, n);
  }

  lemma {:induction false} FeaturesPrefix(raw: seq<byte>, start: nat, interfaces: nat, i: nat, k: nat)
    requires start <= |raw| && i <= k && Features(raw, start, interfaces, k).Some?
    ensures Features(raw, start, interfaces, i).Some?
    ensures Features(raw, start, interfaces, i).value.props <= Features(raw, start, interfaces, k).value.props
    decreases k
  {
    hide OneFeature, FeatureOk;
    if i < k {
      var g := Features(raw, start, interfaces, k - 1).value;
      OneFeaturePrefix(raw, g, interfaces);
      FeaturesPrefix(raw, start, interfaces, i, k - 1);
    }
  }

  /** What every walk keeps: owners and kinds are real ones, and each property paid for its own bytes. */
  ghost predicate Accounted(f: Found, start: nat, interfaces: nat) {
    && start <= f.pos
    && (forall p :: p in f.props ==> p.intf < interfaces && PROP_UNICODE <= p.kind <= PROP_UNICODE_MULTI)
    && (forall i :: i in f.ids ==> i < interfaces && |f.ids[i]| == 16)
    && PROP_FIXED * |f.props| + NamesLength(f.props) + DatasLength(f.props) <= f.pos - start
  }

  lemma RecordAccounted(raw: seq<byte>, h: nat, g: Found, interfaces: nat, start: nat)
    requires h + HEADER_SIZE <= |raw| && g.pos <= |raw| && RecordOk(raw, h, g.pos, interfaces)
    requires Accounted(g, start, interfaces)
    ensures Accounted(AddRecord(raw, h, g, interfaces), start, interfaces)
  {
    hide Le16, Le32;
    if !IsCompat(raw, h) {
      PropRecordIsExact(raw, h, g.pos, interfaces);
      LengthsAppend(g.props, PropAt(raw, h, g.pos, interfaces));
    }
  }

  lemma {:induction false} RecordsAccounted(raw: seq<byte>, h: nat, f: Found, interfaces: nat, j: nat, start: nat)
    requires h + HEADER_SIZE <= |raw| && f.pos <= |raw| && Accounted(f, start, interfaces)
    requires Records(raw, h, f, interfaces, j).Some?
    ensures Accounted(Records(raw, h, f, interfaces, j).value, start, interfaces)
  {
    hide RecordOk, AddRecord, Accounted;
    if j > 0 {
      RecordsAccounted(raw, h, f, interfaces, j - 1, start);
      RecordAccounted(raw, h, Records(raw, h, f, interfaces, j - 1).value, interfaces, start);
    }
  }

  lemma OneFeatureAccounted(raw: seq<byte>, f: Found, interfaces: nat, start: nat)
    requires f.pos <= |raw| && FeatureOk(raw, f.pos) && OneFeature(raw, f, interfaces).Some?
    requires Accounted(f, start, interfaces)
    ensures Accounted(OneFeature(raw, f, interfaces).value, start, interfaces)
  {
    hide RecordOk, FeatureOk, Le16, Le32;
    RecordsAccounted(raw, f.pos, f.(pos := f.pos + HEADER_SIZE), interfaces, Le16(raw, f.pos + 9), start);
  }

  lemma {:induction false} FeaturesAccounted(raw: seq<byte>, start: nat, interfaces: nat, k: nat)
    requires start <= |raw| && Features(raw, start, interfaces, k).Some?
    ensures Accounted(Features(raw, start, interfaces, k).value, start, interfaces)
  {
    hide OneFeature, FeatureOk;
    if k > 0 {
      FeaturesAccounted(raw, start, interfaces, k - 1);
      OneFeatureAccounted(raw, Features(raw, start, interfaces, k - 1).value, interfaces, start);
    }
  }

  /** The buffers agree on the bytes lo..hi. */
  ghost predicate SameOn(a: seq<byte>, b: seq<byte>, lo: nat, hi: nat) {
    && |a| == |b|
    && lo <= hi <= |a|
    && a[lo..hi] == b[lo..hi]
  }

  lemma SameReads(a: seq<byte>, b: seq<byte>, lo: nat, hi: nat)
    requires SameOn(a, b, lo, hi)
    ensures forall i {:trigger a[i]} {:trigger b[i]} :: lo <= i < hi ==> a[i] == b[i]
    ensures forall i: nat :: lo <= i && i + 2 <= hi ==> Le16(a, i) == Le16(b, i)
    ensures forall i: nat :: lo <= i && i + 4 <= hi ==> Le32(a, i) == Le32(b, i)
    ensures forall i: nat, j: nat :: lo <= i <= j <= hi ==> a[i..j] == b[i..j]
  {
    assert forall i :: lo <= i < hi ==> a[i] == a[lo..hi][i - lo];
    assert forall i :: lo <= i < hi ==> b[i] == b[lo..hi][i - lo];
  }

  /** A record is read from its own bytes and the header's; the rest of the buffer does not matter. */
  lemma RecordIsLocal(raw: seq<byte>, raw': seq<byte>, h: nat, g: Found, interfaces: nat)
    requires h + HEADER_SIZE <= g.pos <= |raw| && RecordOk(raw, h, g.pos, interfaces)
    requires SameOn(raw, raw', h, h + HEADER_SIZE)
    requires SameOn(raw, raw', g.pos, AddRecord(raw, h, g, interfaces).pos)
    ensures RecordOk(raw', h, g.pos, interfaces)
    ensures AddRecord(raw', h, g, interfaces) == AddRecord(raw, h, g, interfaces)
  {
    hide Le16, Le32;
    SameReads(raw, raw', h, h + HEADER_SIZE);
    SameReads(raw, raw', g.pos, AddRecord(raw, h, g, interfaces).pos);
    if !IsCompat(raw, h) {
      PropRecordIsExact(raw, h, g.pos, interfaces);
    }
  }

  /** The checks on a record read nothing before it but the header. */
  lemma RecordReadsForward(raw: seq<byte>, raw': seq<byte>, h: nat, p: nat, interfaces: nat)
    requires h + HEADER_SIZE <= p <= |raw|
    requires SameOn(raw, raw', h, h + HEADER_SIZE) && SameOn(raw, raw', p, |raw|)
    ensures RecordOk(raw', h, p, interfaces) == RecordOk(raw, h, p, interfaces)
  {
    hide Le16, Le32;
    SameReads(raw, raw', h, h + HEADER_SIZE);
    SameReads(raw, raw', p, |raw|);
  }

  /** A walk looks only at the bytes it consumes. */
  lemma {:induction false} RecordsLocal(raw: seq<byte>, raw': seq<byte>, h: nat, f: Found, interfaces: nat, j: nat)
    requires h + HEADER_SIZE <= f.pos <= |raw|
    requires Records(raw, h, f, interfaces, j).Some?
    requires SameOn(raw, raw', h, Records(raw, h, f, interfaces, j).value.pos)
    ensures Records(raw', h, f, interfaces, j) == Records(raw, h, f, interfaces, j)
  {
    hide RecordOk;
    if j > 0 {
      var g := Records(raw, h, f, interfaces, j - 1).value;
      SameReads(raw, raw', h, Records(raw, h, f, interfaces, j).value.pos);
      RecordsLocal(raw, raw', h, f, interfaces, j - 1);
      RecordIsLocal(raw, raw', h, g, interfaces);
    }
  }

  lemma OneFeatureLocal(raw: seq<byte>, raw': seq<byte>, f: Found, interfaces: nat)
    requires f.pos <= |raw| && FeatureOk(raw, f.pos) && OneFeature(raw, f, interfaces).Some?
    requires SameOn(raw, raw', f.pos, OneFeature(raw, f, interfaces).value.pos)
    ensures FeatureOk(raw', f.pos) && OneFeature(raw', f, interfaces) == OneFeature(raw, f, interfaces)
  {
    hide Le16, Le32;
    SameReads(raw, raw', f.pos, OneFeature(raw, f, interfaces).value.pos);
    var n := Le16(raw, f.pos + 9);
    RecordsLocal(raw, raw', f.pos, f.(pos := f.pos + HEADER_SIZE), interfaces, n);
  }

  lemma {:induction false} FeaturesLocal(raw: seq<byte>, raw': seq<byte>, start: nat, interfaces: nat, k: nat)
    requires start <= |raw|
    requires Features(raw, start, interfaces, k).Some?
    requires SameOn(raw, raw', start, Features(raw, start, interfaces, k).value.pos)
    ensures Features(raw', start, interfaces, k) == Features(raw, start, interfaces, k)
  {
    hide OneFeature, FeatureOk;
    if k > 0 {
      var g := Features(raw, start, interfaces, k - 1).value;
      SameReads(raw, raw', start, Features(raw, start, interfaces, k).value.pos);
      FeaturesLocal(raw, raw', start, interfaces, k - 1);
      OneFeatureLocal(raw, raw', g, interfaces);
    }
  }

  /** raw with Reserved1 of the compatibility records at the given offsets forced to 1. */
  function Cleaned(raw: seq<byte>, compats: seq<nat>): (r: seq<byte>)
    ensures |r| == |raw|
  {
    if compats == [] then raw
    else
      var before := Cleaned(raw, compats[..|compats| - 1]);
      var p := compats[|compats| - 1];
      if p + 1 < |raw| then before[p + 1 := 1] else before
  }

  /** cur is what validation has made of raw, base at the feature at h; its walk stands at g within that feature. */
  ghost predicate RecordsKept(raw: seq<byte>, base: seq<byte>, cur: seq<byte>,
      h: nat, f: Found, interfaces: nat, j: nat, g: Found)
  {
    && h + HEADER_SIZE <= f.pos <= g.pos <= |raw|
    && cur == Cleaned(raw, g.compats)
    && SameOn(base, cur, 0, h + HEADER_SIZE)
    && SameOn(raw, cur, h, h + HEADER_SIZE)
    && SameOn(raw, cur, g.pos, |raw|)
    && Records(raw, h, f, interfaces, j) == Some(g)
    && Records(cur, h, f, interfaces, j) == Some(g)
  }

  /** The buffer after the record at g.pos has been validated. */
  function Forced(cur: seq<byte>, h: nat, g: Found, interfaces: nat): (r: seq<byte>)
    requires h + HEADER_SIZE <= g.pos <= |cur| && RecordOk(cur, h, g.pos, interfaces)
  {
    if IsCompat(cur, h) then cur[g.pos + 1 := 1] else cur
  }

  /**
   Forcing Reserved1 of a compatibility record changes neither whether the record is accepted nor
   what is read from it.
   */
  lemma ReservedIsIgnored(raw: seq<byte>, h: nat, g: Found, interfaces: nat, v: byte)
    requires h + HEADER_SIZE <= g.pos && g.pos + 1 < |raw| && IsCompat(raw, h)
    ensures var raw' := raw[g.pos + 1 := v];
      && IsCompat(raw', h)
      && (RecordOk(raw', h, g.pos, interfaces) <==> RecordOk(raw, h, g.pos, interfaces))
      && (RecordOk(raw, h, g.pos, interfaces) ==>
            AddRecord(raw', h, g, interfaces) == AddRecord(raw, h, g, interfaces))
  {
    var raw' := raw[g.pos + 1 := v];
    assert Le16(raw', h + 7) == Le16(raw, h + 7);
    assert forall i {:trigger raw[i]} {:trigger raw'[i]} :: 0 <= i < |raw| && i != g.pos + 1 ==> raw'[i] == raw[i];
    if |raw| - g.pos >= COMPAT_SIZE {
      assert raw'[g.pos + 2..g.pos + 18] == raw[g.pos + 2..g.pos + 18];
    }
  }

  /** raw, cur and the validated buffer all read the record at g.pos alike. */
  lemma RecordAgreed(raw: seq<byte>, cur: seq<byte>, h: nat, g: Found, interfaces: nat)
    requires h + HEADER_SIZE <= g.pos <= |raw| == |cur| && RecordOk(cur, h, g.pos, interfaces)
    requires SameOn(raw, cur, h, h + HEADER_SIZE) && SameOn(raw, cur, g.pos, |raw|)
    ensures var cur', g' := Forced(cur, h, g, interfaces), AddRecord(cur, h, g, interfaces);
      && RecordOk(raw, h, g.pos, interfaces)
      && AddRecord(raw, h, g, interfaces) == g'
      && RecordOk(cur', h, g.pos, interfaces)
      && AddRecord(cur', h, g, interfaces) == g'
  {
    SameReads(raw, cur, g.pos, |raw|);
    assert SameOn(cur, raw, g.pos, AddRecord(cur, h, g, interfaces).pos);
    RecordIsLocal(cur, raw, h, g, interfaces);
    if IsCompat(cur, h) {
      ReservedIsIgnored(cur, h, g, interfaces, 1);
    }
  }

  /** Forcing Reserved1 changes one byte of the record, and the list of records to clean grows with it. */
  lemma ForcedKeeps(raw: seq<byte>, cur: seq<byte>, h: nat, g: Found, interfaces: nat)
    requires h + HEADER_SIZE <= g.pos <= |raw| == |cur| && RecordOk(cur, h, g.pos, interfaces)
    requires cur == Cleaned(raw, g.compats) && SameOn(raw, cur, g.pos, |raw|)
    ensures var cur', g' := Forced(cur, h, g, interfaces), AddRecord(cur, h, g, interfaces);
      && cur' == Cleaned(raw, g'.compats)
      && SameOn(cur, cur', 0, g.pos)
      && SameOn(raw, cur', g'.pos, |raw|)
  {
    hide Cleaned, Le16, Le32, SameOn, PropAt, PropOk;
    if IsCompat(cur, h) {
      ReservedForced(raw, cur, g.compats, g.pos);
    } else {
      SamePart(raw, cur, g.pos, |raw|, AddRecord(cur, h, g, interfaces).pos);
    }
  }

  lemma ReservedForced(raw: seq<byte>, cur: seq<byte>, compats: seq<nat>, p: nat)
    requires p + COMPAT_SIZE <= |raw| && cur == Cleaned(raw, compats) && SameOn(raw, cur, p, |raw|)
    ensures |cur| == |raw| && cur[p + 1 := 1] == Cleaned(raw, compats + [p])
    ensures SameOn(cur, cur[p + 1 := 1], 0, p) && SameOn(raw, cur[p + 1 := 1], p + COMPAT_SIZE, |raw|)
  {
    SameReads(raw, cur, p, |raw|);
    CleanedNext(raw, compats, p);
    hide Cleaned;
  }

  lemma SamePart(a: seq<byte>, b: seq<byte>, lo: nat, hi: nat, mid: nat)
    requires SameOn(a, b, lo, hi) && lo <= mid <= hi
    ensures SameOn(a, b, mid, hi) && SameOn(b, b, 0, lo)
  {
    SameReads(a, b, lo, hi);
  }

  lemma CleanedNext(raw: seq<byte>, compats: seq<nat>, p: nat)
    ensures Cleaned(raw, compats + [p]) ==
            if p + 1 < |raw| then Cleaned(raw, compats)[p + 1 := 1] else Cleaned(raw, compats)
  {
    assert (compats + [p])[..|compats|] == compats;
  }

  /** Validating one record decides the same on raw and cur: the walks go on alike, or both are refused. */
  lemma RecordsKeptNext(raw: seq<byte>, base: seq<byte>, cur: seq<byte>,
      h: nat, f: Found, interfaces: nat, j: nat, k: nat, g: Found)
    requires j < k && RecordsKept(raw, base, cur, h, f, interfaces, j, g)
    ensures RecordOk(cur, h, g.pos, interfaces) ==>
              var g' := AddRecord(cur, h, g, interfaces);
              && f.pos <= g'.pos <= |raw|
              && RecordsKept(raw, base, Forced(cur, h, g, interfaces), h, f, interfaces, j + 1, g')
    ensures !RecordOk(cur, h, g.pos, interfaces) ==> Records(raw, h, f, interfaces, k).None?
  {
    hide RecordOk, AddRecord, Forced, Cleaned;
    RecordReadsForward(raw, cur, h, g.pos, interfaces);
    if RecordOk(cur, h, g.pos, interfaces) {
      var cur' := Forced(cur, h, g, interfaces);
      RecordAgreed(raw, cur, h, g, interfaces);
      ForcedKeeps(raw, cur, h, g, interfaces);
      RecordsLocal(cur, cur', h, f, interfaces, j);
      SameReads(cur, cur', 0, g.pos);
    } else {
      RecordsStuck(raw, h, f, interfaces, j + 1, k);
    }
  }

  /** As RecordsKept, between two features. */
  ghost predicate FeaturesKept(raw: seq<byte>, cur: seq<byte>, start: nat, interfaces: nat, k: nat, g: Found) {
    && start <= g.pos <= |raw|
    && cur == Cleaned(raw, g.compats)
    && SameOn(raw, cur, g.pos, |raw|)
    && Features(raw, start, interfaces, k) == Some(g)
    && Features(cur, start, interfaces, k) == Some(g)
  }

  /** The header at g.pos is judged alike on raw and cur, and its records may then be walked. */
  lemma FeatureEntered(raw: seq<byte>, cur: seq<byte>, start: nat, interfaces: nat, k: nat, g: Found)
    requires FeaturesKept(raw, cur, start, interfaces, k, g)
    ensures SameOn(raw, cur, g.pos, |raw|) && FeatureOk(raw, g.pos) == FeatureOk(cur, g.pos)
    ensures FeatureOk(cur, g.pos) ==>
              && Le16(raw, g.pos + 9) == Le16(cur, g.pos + 9)
              && var f := g.(pos := g.pos + HEADER_SIZE); RecordsKept(raw, cur, cur, g.pos, f, interfaces, 0, f)
  {
    hide Le16, Le32, Features;
    SameReads(raw, cur, g.pos, |raw|);
  }

  /** A refused header, or a refused record under it, refuses the whole section. */
  lemma FeatureDecides(raw: seq<byte>, cur: seq<byte>, start: nat, interfaces: nat, k: nat, count: nat, g: Found)
    requires FeaturesKept(raw, cur, start, interfaces, k, g) && k < count
    ensures !FeatureOk(cur, g.pos) ==> Features(raw, start, interfaces, count).None?
    ensures FeatureOk(cur, g.pos) ==>
              var f := g.(pos := g.pos + HEADER_SIZE);
              && RecordsKept(raw, cur, cur, g.pos, f, interfaces, 0, f)
              && (Records(raw, g.pos, f, interfaces, Le16(cur, g.pos + 9)).None? ==>
                    Features(raw, start, interfaces, count).None?)
  {
    hide Le16, FeatureOk, Records;
    FeatureEntered(raw, cur, start, interfaces, k, g);
    if Features(raw, start, interfaces, k + 1).None? {
      FeaturesStuck(raw, start, interfaces, k + 1, count);
    }
  }

  lemma FeaturesZero(raw: seq<byte>, start: nat, interfaces: nat)
    requires start <= |raw|
    ensures FeaturesKept(raw, raw, start, interfaces, 0, Found(start, [], [], map[]))
  {
  }

  lemma FeatureFits(raw: seq<byte>, p: nat)
    requires p <= |raw| && FeatureOk(raw, p)
    ensures p + HEADER_SIZE <= |raw|
  {
  }

  /** All the records of a feature have been walked. */
  lemma FeatureLeft(raw: seq<byte>, before: seq<byte>, cur: seq<byte>, start: nat, interfaces: nat, k: nat,
                    g: Found, g': Found)
    ensures
      && FeaturesKept(raw, before, start, interfaces, k, g)
      && FeatureOk(before, g.pos)
      && RecordsKept(raw, before, cur, g.pos, g.(pos := g.pos + HEADER_SIZE), interfaces, Le16(before, g.pos + 9), g')
      ==> FeaturesKept(raw, cur, start, interfaces, k + 1, g')
  {
    hide Le16, Le32, Records, Features, Cleaned, SameOn;
    if && FeaturesKept(raw, before, start, interfaces, k, g)
       && FeatureOk(before, g.pos)
       && RecordsKept(raw, before, cur, g.pos, g.(pos := g.pos + HEADER_SIZE), interfaces, Le16(before, g.pos + 9), g')
    {
      FeatureEntered(raw, before, start, interfaces, k, g);
      HeaderSame(before, cur, g.pos);
      FeaturesLocal(before, cur, start, interfaces, k);
      FeaturesNext(raw, start, interfaces, k, g, g');
      FeaturesNext(cur, start, interfaces, k, g, g');
    }
  }

  /** Buffers that agree up to the end of a header judge it alike. */
  lemma HeaderSame(a: seq<byte>, b: seq<byte>, p: nat)
    requires p + HEADER_SIZE <= |a| && SameOn(a, b, 0, p + HEADER_SIZE)
    ensures |b| == |a| && FeatureOk(b, p) == FeatureOk(a, p) && Le16(b, p + 9) == Le16(a, p + 9)
    ensures forall lo: nat :: lo <= p ==> SameOn(a, b, lo, p)
  {
    hide Le16, Le32;
    SameReads(a, b, 0, p + HEADER_SIZE);
  }

  lemma FeaturesNext(raw: seq<byte>, start: nat, interfaces: nat, k: nat, g: Found, g': Found)
    requires start <= |raw| && Features(raw, start, interfaces, k) == Some(g)
    requires g.pos + HEADER_SIZE <= |raw| && FeatureOk(raw, g.pos)
    requires Records(raw, g.pos, g.(pos := g.pos + HEADER_SIZE), interfaces, Le16(raw, g.pos + 9)) == Some(g')
    ensures Features(raw, start, interfaces, k + 1) == Some(g')
  {
    hide FeatureOk, Records, Le16;
  }

  /** A rejected record or header rejects every longer walk. */
  lemma {:induction false} RecordsStuck(raw: seq<byte>, h: nat, f: Found, interfaces: nat, j: nat, k: nat)
    requires h + HEADER_SIZE <= |raw| && f.pos <= |raw| && j <= k && Records(raw, h, f, interfaces, j).None?
    ensures Records(raw, h, f, interfaces, k).None?
    decreases k
  {
    hide RecordOk, AddRecord;
    if j < k {
      RecordsStuck(raw, h, f, interfaces, j, k - 1);
    }
  }

  lemma {:induction false} FeaturesStuck(raw: seq<byte>, start: nat, interfaces: nat, j: nat, k: nat)
    requires start <= |raw| && j <= k && Features(raw, start, interfaces, j).None?
    ensures Features(raw, start, interfaces, k).None?
    decreases k
  {
    hide FeatureOk, OneFeature, Records;
    if j < k {
      FeaturesStuck(raw, start, interfaces, j, k - 1);
    }
  }

  /** Compatibility records lie past the section's first header. */
  ghost predicate CompatsFrom(compats: seq<nat>, lo: nat) {
    forall p :: p in compats ==> lo <= p
  }

  lemma {:induction false} RecordsCompats(raw: seq<byte>, h: nat, f: Found, interfaces: nat, j: nat, lo: nat)
    requires h + HEADER_SIZE <= |raw| && lo <= f.pos <= |raw| && CompatsFrom(f.compats, lo)
    requires Records(raw, h, f, interfaces, j).Some?
    ensures CompatsFrom(Records(raw, h, f, interfaces, j).value.compats, lo)
  {
    hide RecordOk, Le16, Le32;
    if j > 0 {
      RecordsCompats(raw, h, f, interfaces, j - 1, lo);
    }
  }

  lemma {:induction false} FeaturesCompats(raw: seq<byte>, start: nat, interfaces: nat, k: nat)
    requires start <= |raw| && Features(raw, start, interfaces, k).Some?
    ensures CompatsFrom(Features(raw, start, interfaces, k).value.compats, start + HEADER_SIZE)
  {
    hide FeatureOk, Le16, Le32, Records;
    if k > 0 {
      FeaturesCompats(raw, start, interfaces, k - 1);
      var g := Features(raw, start, interfaces, k - 1).value;
      RecordsCompats(raw, g.pos, g.(pos := g.pos + HEADER_SIZE), interfaces, Le16(raw, g.pos + 9), start + HEADER_SIZE);
    }
  }

  /** Cleaning writes the Reserved1 byte of each listed record and no other byte. */
  lemma {:induction false} CleanedAt(raw: seq<byte>, compats: seq<nat>, i: nat)
    requires i < |raw|
    ensures Cleaned(raw, compats)[i] == if i > 0 && i - 1 in compats then 1 else raw[i]
  {
    if compats != [] {
      var before, last := compats[..|compats| - 1], compats[|compats| - 1];
      assert compats == before + [last];
      CleanedAt(raw, before, i);
    }
  }
}
