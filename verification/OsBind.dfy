/**
 Binding the OS descriptors: __ffs_func_bind_do_os_desc carves the regions whose
 sizes validation totalled. The walk, the tables and the regions are values here;
 Fault is a cursor leaving its region or an index leaving its table.
 */
module OsBind {
  import opened Bytes
  import opened OsDescs

  /**
   usb_os_desc_ext_prop, its pointers as offsets into their regions; reported lengths count two bytes
   per character.
   */
  datatype FiledProp = FiledProp(kind: nat, name: Option<nat>, nameLen: nat, data: Option<nat>, dataLen: nat)

  /** os_desc_table entry and its usb_os_desc: the filed properties are indices into the property region. */
  datatype Entry = Entry(ifId: int, compatId: seq<byte>, propLen: nat, filed: seq<nat>)

  /** The three regions with their cursors, and the table. */
  datatype OsSt = OsSt(table: seq<Entry>, props: seq<FiledProp>, used: nat,
                       names: seq<byte>, nameUsed: nat, datas: seq<byte>, dataUsed: nat)

  // The largest destination a bounds-checked copy takes, and what it returns for a larger one.
  const COPY_MAX := 0x7fff_ffff
  const ERANGE := 34

  predicate IsUnicode(kind: nat) { kind == 1 || kind == 2 || kind == 6 || kind == 7 }

  function ReportedData(kind: nat, n: nat): nat { if IsUnicode(kind) then 2 * n else n }

  /** The property case of __ffs_func_bind_do_os_desc up to its copies: the next slot is taken, both cursors move on. */
  function TakeSlot(nums: seq<int>, st: OsSt, intf: byte, kind: nat, n: nat, d: nat): Outcome<OsSt> {
    var i, slot := intf as int, st.used;
    if i >= |st.table| || i >= |nums| || slot >= |st.props| then Fault
    else
      Ok(st.(table := st.table[i := st.table[i].(ifId := nums[i])],
             props := st.props[slot := st.props[slot].(kind := kind, nameLen := n, dataLen := d)], used := slot + 1,
             nameUsed := st.nameUsed + n, dataUsed := st.dataUsed + d))
  }

  /** The property case, once the record's fields have been read. */
  function FileProp(nums: seq<int>, zeroRet: nat, st: OsSt, p: Prop): Outcome<(OsSt, nat)> {
    var n, d, i, slot := |p.name|, |p.data|, p.intf as int, st.used;
    match TakeSlot(nums, st, p.intf, p.kind, n, d)
    case Err(e) => Err(e)
    case Fault => Fault
    case Ok(st1) =>
      if d == 0 && zeroRet != 0 then Ok((st1, zeroRet))
      else if st.dataUsed + d > |st.datas| then Fault
      else
        var prop2 := st1.props[slot].(data := Some(st.dataUsed), dataLen := ReportedData(p.kind, d));
        var st2 := st1.(datas := Put(st.datas, st.dataUsed, p.data), props := st1.props[slot := prop2]);
        if n == 0 && zeroRet != 0 then Ok((st2, zeroRet))
        else if st.nameUsed + n > |st.names| then Fault
        else
          var prop3 := prop2.(name := Some(st.nameUsed), nameLen := 2 * n);
          var e := st1.table[i];
          Ok((st2.(names := Put(st.names, st.nameUsed, p.name),
                   props := st2.props[slot := prop3],
                   table := st1.table[i := e.(propLen := e.propLen + prop3.nameLen + prop3.dataLen + PROP_FIXED,
                                              filed := e.filed + [slot])]),
              (n + d + PROP_FIXED) % 0x100))
  }

  /**
   __ffs_func_bind_do_os_desc on the record at p of the feature at h. The result
   pairs the new state with the length the callback returns. zeroRet is what
   memcpy_s returns for an empty destination; one that is too large is always refused.
   */
  function StepOs(raw: seq<byte>, nums: seq<int>, zeroRet: nat, h: nat, st: OsSt, p: nat): Outcome<(OsSt, nat)>
    requires h + HEADER_SIZE <= |raw|
  {
    if IsCompat(raw, h) then
      if p + COMPAT_SIZE > |raw| || raw[p] >= |st.table| || raw[p] >= |nums| then Fault
      else
        var i := raw[p] as int;
        var e := st.table[i].(ifId := nums[i], compatId := raw[p + 2..p + 18]);
        Ok((st.(table := st.table[i := e]), COMPAT_SIZE))
    else if p + PROP_FIXED > |raw| || p + PROP_FIXED + NameLength(raw, p) > |raw| then Fault
    else
      var n, d := NameLength(raw, p), DataLength(raw, p);
      if d > COPY_MAX then
        match TakeSlot(nums, st, raw[h], Le32(raw, p + 4), n, d)
        case Err(e) => Err(e)
        case Fault => Fault
        case Ok(st1) => Ok((st1, ERANGE))
      else if p + PROP_FIXED + n + d > |raw| then Fault
      else
        FileProp(nums, zeroRet, st,
                 Prop(raw[h], Le32(raw, p + 4), raw[p + 10..p + 10 + n], raw[p + 14 + n..p + 14 + n + d]))
  }

  datatype OsWalked = OsWalked(st: OsSt, pos: nat)

  /** ffs_do_single_os_desc with that callback: j records of the feature at h. */
  function RunRecords(raw: seq<byte>, nums: seq<int>, zeroRet: nat, h: nat, st: OsSt, j: nat): Outcome<OsWalked>
    requires h + HEADER_SIZE <= |raw|
  {
    if j == 0 then Ok(OsWalked(st, h + HEADER_SIZE))
    else
      match RunRecords(raw, nums, zeroRet, h, st, j - 1)
      case Err(e) => Err(e)
      case Fault => Fault
      case Ok(w) =>
        match StepOs(raw, nums, zeroRet, h, w.st, w.pos)
        case Err(e) => Err(e)
        case Fault => Fault
        case Ok(s) => Ok(OsWalked(s.0, w.pos + s.1))
  }

  /** ffs_do_os_descs with that callback: k features from start. */
  function RunFeatures(raw: seq<byte>, nums: seq<int>, zeroRet: nat, st: OsSt, start: nat, k: nat): Outcome<OsWalked>
  {
    if k == 0 then Ok(OsWalked(st, start))
    else
      match RunFeatures(raw, nums, zeroRet, st, start, k - 1)
      case Err(e) => Err(e)
      case Fault => Fault
      case Ok(w) =>
        if w.pos > |raw| then Fault
        else if !FeatureOk(raw, w.pos) then Err(EINVAL)
        else RunRecords(raw, nums, zeroRet, w.pos, w.st, Le16(raw, w.pos + 9))
  }

  /** All names, and all data, one after the other. */
  function AllNames(props: seq<Prop>): (r: seq<byte>)
    ensures |r| == NamesLength(props)
  {
    if props == [] then [] else AllNames(props[..|props| - 1]) + props[|props| - 1].name
  }

  function AllDatas(props: seq<Prop>): (r: seq<byte>)
    ensures |r| == DatasLength(props)
  {
    if props == [] then [] else AllDatas(props[..|props| - 1]) + props[|props| - 1].data
  }

  /** Which properties belong to interface t, in order. */
  function OwnedBy(props: seq<Prop>, t: nat): seq<nat> {
    if props == [] then []
    else
      var before := OwnedBy(props[..|props| - 1], t);
      if props[|props| - 1].intf == t then before + [|props| - 1] else before
  }

  /** ext_prop_len of interface t: the reported size of its properties. */
  function ReportedLength(props: seq<Prop>, t: nat): nat {
    if props == [] then 0
    else
      var before, p := ReportedLength(props[..|props| - 1], t), props[|props| - 1];
      if p.intf == t then before + 2 * |p.name| + ReportedData(p.kind, |p.data|) + PROP_FIXED else before
  }

  const NO_ID: seq<byte> := [0, 0, 0, 0, 0, 0, 0, 0, 0, 0, 0, 0, 0, 0, 0, 0]

  function FiledOf(props: seq<Prop>, i: nat): FiledProp
    requires i < |props|
  {
    var p := props[i];
    FiledProp(p.kind, Some(NamesLength(props[..i])), 2 * |p.name|,
              Some(DatasLength(props[..i])), ReportedData(p.kind, |p.data|))
  }

  function EntryOf(f: Found, nums: seq<int>, t: nat): Entry
    requires t < |nums| && t < 0x100
  {
    Entry(if t in f.ids || OwnedBy(f.props, t) != [] then nums[t] else 0,
          if t in f.ids then f.ids[t] else NO_ID,
          ReportedLength(f.props, t), OwnedBy(f.props, t))
  }

  /** The state reflects exactly the records found so far, and its regions are as large as totalled. */
  ghost predicate Files(st: OsSt, f: Found, total: seq<Prop>, nums: seq<int>) {
    && |st.table| == |nums| <= 0x100
    && |st.props| == |total| && |st.names| == 2 * NamesLength(total) && |st.datas| == DatasLength(total)
    && st.used == |f.props| && st.nameUsed == NamesLength(f.props) && st.dataUsed == DatasLength(f.props)
    && st.used <= |st.props| && st.nameUsed <= |st.names| && st.dataUsed <= |st.datas|
    && (forall i :: 0 <= i < |f.props| ==> st.props[i] == FiledOf(f.props, i))
    && st.names[..st.nameUsed] == AllNames(f.props)
    && st.datas[..st.dataUsed] == AllDatas(f.props)
    && (forall t :: 0 <= t < |st.table| ==> st.table[t] == EntryOf(f, nums, t))
  }

  /** Either empty copies succeed, or there are none. */
  ghost predicate CopiesSucceed(props: seq<Prop>, zeroRet: nat) {
    zeroRet == 0 || forall p :: p in props ==> p.name != [] && p.data != []
  }

  lemma SummariesAppend(props: seq<Prop>, p: Prop)
    ensures AllNames(props + [p]) == AllNames(props) + p.name
    ensures AllDatas(props + [p]) == AllDatas(props) + p.data
    ensures forall t: nat :: OwnedBy(props + [p], t) == OwnedBy(props, t) + if p.intf == t then [|props|] else []
    ensures forall t: nat :: ReportedLength(props + [p], t) ==
              ReportedLength(props, t) +
              if p.intf == t then 2 * |p.name| + ReportedData(p.kind, |p.data|) + PROP_FIXED else 0
    ensures forall i :: 0 <= i < |props| ==> FiledOf(props + [p], i) == FiledOf(props, i)
    ensures FiledOf(props + [p], |props|) ==
              FiledProp(p.kind, Some(NamesLength(props)), 2 * |p.name|,
                        Some(DatasLength(props)), ReportedData(p.kind, |p.data|))
  {
    TextsAppend(props, p);
    OwnersAppend(props, p);
    hide AllNames, AllDatas, OwnedBy, ReportedLength, NamesLength, DatasLength;
    assert (props + [p])[..|props|] == props;
    assert forall i :: 0 <= i < |props| ==> (props + [p])[..i] == props[..i];
  }

  lemma TextsAppend(props: seq<Prop>, p: Prop)
    ensures AllNames(props + [p]) == AllNames(props) + p.name
    ensures AllDatas(props + [p]) == AllDatas(props) + p.data
  {
    assert (props + [p])[..|props|] == props;
  }

  lemma OwnersAppend(props: seq<Prop>, p: Prop)
    ensures forall t: nat :: OwnedBy(props + [p], t) == OwnedBy(props, t) + if p.intf == t then [|props|] else []
    ensures forall t: nat :: ReportedLength(props + [p], t) ==
              ReportedLength(props, t) +
              if p.intf == t then 2 * |p.name| + ReportedData(p.kind, |p.data|) + PROP_FIXED else 0
  {
    assert (props + [p])[..|props|] == props;
  }

  lemma PutExtends(s: seq<byte>, i: nat, b: seq<byte>)
    requires i + |b| <= |s|
    ensures Put(s, i, b)[..i + |b|] == s[..i] + b
  {
  }

  /** A compatibility record sets its interface's id. */
  lemma CompatFiled(raw: seq<byte>, nums: seq<int>, zeroRet: nat, h: nat, st: OsSt, f: Found, total: seq<Prop>)
    requires h + HEADER_SIZE <= f.pos <= |raw| && RecordOk(raw, h, f.pos, |nums|) && IsCompat(raw, h)
    requires Files(st, f, total, nums)
    ensures var r, f' := StepOs(raw, nums, zeroRet, h, st, f.pos), AddRecord(raw, h, f, |nums|);
      r.Ok? && f.pos + r.value.1 == f'.pos && Files(r.value.0, f', total, nums)
  {
    hide Le16, Le32;
  }

  /** What filing a property does when it fits and its copies succeed. */
  lemma FilePropDone(nums: seq<int>, zeroRet: nat, st: OsSt, p: Prop)
    requires p.intf < |st.table| && p.intf < |nums| && st.used < |st.props|
    requires st.dataUsed + |p.data| <= |st.datas| && st.nameUsed + |p.name| <= |st.names|
    requires zeroRet == 0 || (p.name != [] && p.data != [])
    ensures var e, n, d := st.table[p.intf], 2 * |p.name|, ReportedData(p.kind, |p.data|);
      var e1 := Entry(nums[p.intf], e.compatId, e.propLen + n + d + PROP_FIXED, e.filed + [st.used]);
      FileProp(nums, zeroRet, st, p) ==
      Ok((OsSt(st.table[p.intf as int := e1],
               st.props[st.used := FiledProp(p.kind, Some(st.nameUsed), n, Some(st.dataUsed), d)], st.used + 1,
               Put(st.names, st.nameUsed, p.name), st.nameUsed + |p.name|,
               Put(st.datas, st.dataUsed, p.data), st.dataUsed + |p.data|),
          (|p.name| + |p.data| + PROP_FIXED) % 0x100))
  {
    hide Put, ReportedData;
    var i, e, n, d := p.intf as int, st.table[p.intf], 2 * |p.name|, ReportedData(p.kind, |p.data|);
    var e1 := Entry(nums[i], e.compatId, e.propLen + n + d + PROP_FIXED, e.filed + [st.used]);
    assert st.table[i := e.(ifId := nums[i])][i := e1] == st.table[i := e1];
    var x := st.props[st.used].(kind := p.kind, nameLen := |p.name|, dataLen := |p.data|);
    var y := x.(data := Some(st.dataUsed), dataLen := d);
    var z := y.(name := Some(st.nameUsed), nameLen := n);
    assert st.props[st.used := x][st.used := y][st.used := z] == st.props[st.used := z];
  }

  /** Filing a property takes the next slot and the next stretch of each region, and never leaves them. */
  lemma PropFiled(nums: seq<int>, zeroRet: nat, st: OsSt, f: Found, p: Prop, total: seq<Prop>)
    requires Files(st, f, total, nums) && f.props + [p] <= total && p.intf < |nums|
    requires zeroRet == 0 || (p.name != [] && p.data != [])
    ensures var r := FileProp(nums, zeroRet, st, p);
      && r.Ok?
      && r.value.1 == (|p.name| + |p.data| + PROP_FIXED) % 0x100
      && Files(r.value.0, f.(props := f.props + [p]), total, nums)
  {
    var props := f.props + [p];
    assert total[..|props|] == props;
    LengthsMonotone(total, |props|);
    LengthsAppend(f.props, p);
    SummariesAppend(f.props, p);
    PutExtends(st.names, st.nameUsed, p.name);
    PutExtends(st.datas, st.dataUsed, p.data);
    FilePropDone(nums, zeroRet, st, p);
    hide FileProp, ReportedData, FiledOf, AllNames, AllDatas, OwnedBy, ReportedLength, NamesLength, DatasLength, Put;
    var st' := FileProp(nums, zeroRet, st, p).value.0;
    forall t | 0 <= t < |st'.table|
      ensures st'.table[t] == EntryOf(f.(props := props), nums, t)
    {
      assert st.table[t] == EntryOf(f, nums, t);
    }
  }

  /** The cursors stand behind the properties props, one of which has been lost. */
  ghost predicate Dropped(st: OsSt, props: seq<Prop>, total: seq<Prop>, nums: seq<int>) {
    && |st.table| == |nums|
    && st.used == |props| <= |st.props| == |total|
    && st.nameUsed == NamesLength(props) <= |st.names| == 2 * NamesLength(total)
    && st.dataUsed == DatasLength(props) <= |st.datas| == DatasLength(total)
  }

  /** An empty name or data, when empty copies are refused: the slot is taken, and no interface gets it. */
  lemma EmptyPropDropped(nums: seq<int>, zeroRet: nat, st: OsSt, f: Found, p: Prop, total: seq<Prop>)
    requires Files(st, f, total, nums) && f.props + [p] <= total && p.intf < |nums|
    requires zeroRet != 0 && (p.name == [] || p.data == [])
    ensures var r := FileProp(nums, zeroRet, st, p);
      && r.Ok?
      && r.value.1 == zeroRet
      && Dropped(r.value.0, f.props + [p], total, nums)
      && (forall t :: 0 <= t < |nums| ==> r.value.0.table[t].filed == OwnedBy(f.props, t))
  {
    var props := f.props + [p];
    assert total[..|props|] == props;
    LengthsMonotone(total, |props|);
    LengthsAppend(f.props, p);
    hide OwnedBy, Put, AllNames, AllDatas, FiledOf;
  }

  /** One record: the callback returns the record's own length and files what the record says. */
  lemma RecordFiled(raw: seq<byte>, nums: seq<int>, zeroRet: nat, h: nat, st: OsSt, f: Found, total: seq<Prop>)
    requires h + HEADER_SIZE <= f.pos <= |raw| && RecordOk(raw, h, f.pos, |nums|) && Files(st, f, total, nums)
    requires var f' := AddRecord(raw, h, f, |nums|); f'.props <= total && CopiesSucceed(f'.props, zeroRet)
    ensures var r, f' := StepOs(raw, nums, zeroRet, h, st, f.pos), AddRecord(raw, h, f, |nums|);
      r.Ok? && f.pos + r.value.1 == f'.pos && Files(r.value.0, f', total, nums)
  {
    hide Le16, Le32;
    if IsCompat(raw, h) {
      CompatFiled(raw, nums, zeroRet, h, st, f, total);
    } else {
      hide FileProp, Files;
      PropRecordIsExact(raw, h, f.pos, |nums|);
      var p := PropAt(raw, h, f.pos, |nums|);
      var f' := AddRecord(raw, h, f, |nums|);
      assert f'.props[|f.props|] == p;
      PropFiled(nums, zeroRet, st, f, p, total);
      var r := StepOs(raw, nums, zeroRet, h, st, f.pos);
      assert r == FileProp(nums, zeroRet, st, p);
      FilesElsewhere(r.value.0, f.(props := f'.props), f', total, nums);
    }
  }

  lemma FilesElsewhere(st: OsSt, f: Found, g: Found, total: seq<Prop>, nums: seq<int>)
    requires Files(st, f, total, nums) && g.props == f.props && g.ids == f.ids
    ensures Files(st, g, total, nums)
  {
  }

  // What becomes of a property whose copy is refused.

  /** Slot q has been taken, and no interface has it. */
  ghost predicate Lost(st: OsSt, q: nat) {
    q < st.used && forall t :: 0 <= t < |st.table| ==> q !in st.table[t].filed
  }

  ghost predicate SomeLost(st: OsSt) { exists q: nat :: Lost(st, q) }

  lemma {:induction false} OwnersAre(props: seq<Prop>, t: nat)
    ensures forall i :: i in OwnedBy(props, t) <==> 0 <= i < |props| && props[i].intf == t
  {
    if props != [] {
      OwnersAre(props[..|props| - 1], t);
    }
  }

  /**
   One record: a property with an empty name or data is lost, and whatever its length, zeroRet is
   what is returned.
   */
  lemma RecordDropped(raw: seq<byte>, nums: seq<int>, zeroRet: nat, h: nat, st: OsSt, f: Found, total: seq<Prop>)
    requires h + HEADER_SIZE <= f.pos <= |raw| && RecordOk(raw, h, f.pos, |nums|) && Files(st, f, total, nums)
    requires CopiesSucceed(f.props, zeroRet)
    requires var f' := AddRecord(raw, h, f, |nums|); f'.props <= total && !CopiesSucceed(f'.props, zeroRet)
    ensures var r, f' := StepOs(raw, nums, zeroRet, h, st, f.pos), AddRecord(raw, h, f, |nums|);
      && r.Ok?
      && r.value.1 == zeroRet
      && Lost(r.value.0, |f.props|)
      && Dropped(r.value.0, f'.props, total, nums)
      && !IsCompat(raw, h) && raw[h] < |nums|
      && |f'.props| == |f.props| + 1
      && var p := f'.props[|f.props|]; f'.pos == f.pos + PROP_FIXED + |p.name| + |p.data|
  {
    hide Le16, Le32, FileProp, Files;
    PropRecordIsExact(raw, h, f.pos, |nums|);
    var p := PropAt(raw, h, f.pos, |nums|);
    var f' := AddRecord(raw, h, f, |nums|);
    assert f'.props == f.props + [p];
    assert StepOs(raw, nums, zeroRet, h, st, f.pos) == FileProp(nums, zeroRet, st, p);
    EmptyPropDropped(nums, zeroRet, st, f, p, total);
    forall t: nat {
      OwnersAre(f.props, t);
    }
  }

  /** A lost slot is never found again, wherever the walk goes. */
  lemma StepLoses(raw: seq<byte>, nums: seq<int>, zeroRet: nat, h: nat, st: OsSt, p: nat)
    requires h + HEADER_SIZE <= |raw| && SomeLost(st)
    ensures var r := StepOs(raw, nums, zeroRet, h, st, p); r.Ok? ==> SomeLost(r.value.0)
  {
    hide Le16, Le32, Put;
    var q: nat :| Lost(st, q);
    var r := StepOs(raw, nums, zeroRet, h, st, p);
    if r.Ok? {
      assert Lost(r.value.0, q);
    }
  }

  lemma {:induction false} RecordsLose(raw: seq<byte>, nums: seq<int>, zeroRet: nat, h: nat, st: OsSt, j: nat)
    requires h + HEADER_SIZE <= |raw| && SomeLost(st)
    ensures var r := RunRecords(raw, nums, zeroRet, h, st, j); r.Ok? ==> SomeLost(r.value.st)
  {
    hide StepOs, SomeLost;
    if j > 0 {
      RecordsLose(raw, nums, zeroRet, h, st, j - 1);
      var w := RunRecords(raw, nums, zeroRet, h, st, j - 1);
      if w.Ok? {
        StepLoses(raw, nums, zeroRet, h, w.value.st, w.value.pos);
      }
    }
  }

  /** A state that files what was found has every property with its interface. */
  lemma FiledNotLost(st: OsSt, f: Found, total: seq<Prop>, nums: seq<int>, q: nat)
    requires Files(st, f, total, nums) && q < |f.props| && f.props[q].intf < |nums|
    ensures !Lost(st, q)
  {
    var t := f.props[q].intf;
    OwnersAre(f.props, t);
    assert st.table[t] == EntryOf(f, nums, t);
    assert q in st.table[t].filed;
  }

  lemma LostNotFiled(st: OsSt, f: Found, total: seq<Prop>, nums: seq<int>)
    requires forall p :: p in f.props ==> p.intf < |nums|
    ensures !(SomeLost(st) && Files(st, f, total, nums))
  {
    if Files(st, f, total, nums) {
      forall q: nat | q < st.used
        ensures !Lost(st, q)
      {
        FiledNotLost(st, f, total, nums, q);
      }
    }
  }

  /** A walk that stands at w has done what validation found, or has lost a property. */
  ghost predicate Reached(r: Outcome<OsWalked>, g: Found, total: seq<Prop>, nums: seq<int>, zeroRet: nat) {
    if CopiesSucceed(g.props, zeroRet) then r.Ok? && r.value.pos == g.pos && Files(r.value.st, g, total, nums)
    else r.Ok? ==> SomeLost(r.value.st)
  }

  /** One more record of a walk. */
  lemma RecordReached(raw: seq<byte>, nums: seq<int>, zeroRet: nat, h: nat, w: Outcome<OsWalked>, g: Found,
                      total: seq<Prop>)
    requires h + HEADER_SIZE <= g.pos <= |raw| && RecordOk(raw, h, g.pos, |nums|)
    requires Reached(w, g, total, nums, zeroRet) && AddRecord(raw, h, g, |nums|).props <= total
    ensures w.Ok? ==>
              var r := StepOs(raw, nums, zeroRet, h, w.value.st, w.value.pos);
              var next := match r
                case Ok(s) => Ok(OsWalked(s.0, w.value.pos + s.1))
                case Err(e) => Err(e)
                case Fault => Fault;
              Reached(next, AddRecord(raw, h, g, |nums|), total, nums, zeroRet)
    ensures !w.Ok? ==> !CopiesSucceed(AddRecord(raw, h, g, |nums|).props, zeroRet)
  {
    var g' := AddRecord(raw, h, g, |nums|);
    assert g.props <= g'.props;
    hide RecordOk, AddRecord, StepOs, Files, SomeLost, CopiesSucceed;
    if CopiesSucceed(g.props, zeroRet) {
      if CopiesSucceed(g'.props, zeroRet) {
        RecordFiled(raw, nums, zeroRet, h, w.value.st, g, total);
      } else {
        RecordDropped(raw, nums, zeroRet, h, w.value.st, g, total);
        LosesOne(StepOs(raw, nums, zeroRet, h, w.value.st, g.pos).value.0, |g.props|);
      }
    } else {
      if CopiesSucceed(g'.props, zeroRet) {
        CopiesPrefix(g.props, g'.props, zeroRet);
      }
      if w.Ok? {
        StepLoses(raw, nums, zeroRet, h, w.value.st, w.value.pos);
      }
    }
  }

  lemma LosesOne(st: OsSt, q: nat)
    requires Lost(st, q)
    ensures SomeLost(st)
  {
  }

  /** All records of one feature. */
  lemma {:induction false} RecordsFiled(raw: seq<byte>, nums: seq<int>, zeroRet: nat, h: nat, st: OsSt, f: Found,
                                        total: seq<Prop>, j: nat)
    requires h + HEADER_SIZE == f.pos <= |raw| && Files(st, f, total, nums) && CopiesSucceed(f.props, zeroRet)
    requires Records(raw, h, f, |nums|, j).Some? && Records(raw, h, f, |nums|, j).value.props <= total
    ensures Reached(RunRecords(raw, nums, zeroRet, h, st, j), Records(raw, h, f, |nums|, j).value, total, nums, zeroRet)
  {
    hide RecordOk, StepOs, Files, AddRecord, CopiesSucceed;
    if j > 0 {
      var g, g' := Records(raw, h, f, |nums|, j - 1).value, Records(raw, h, f, |nums|, j).value;
      RecordsPrefix(raw, h, f, |nums|, j - 1, j);
      PrefixTrans(g.props, g'.props, total);
      RecordsFiled(raw, nums, zeroRet, h, st, f, total, j - 1);
      RecordReached(raw, nums, zeroRet, h, RunRecords(raw, nums, zeroRet, h, st, j - 1), g, total);
    }
  }

  lemma PrefixTrans(a: seq<Prop>, b: seq<Prop>, c: seq<Prop>)
    requires a <= b && b <= c
    ensures a <= c
  {
  }

  lemma CopiesPrefix(a: seq<Prop>, b: seq<Prop>, zeroRet: nat)
    requires a <= b && CopiesSucceed(b, zeroRet)
    ensures CopiesSucceed(a, zeroRet)
  {
    assert forall p :: p in a ==> p in b;
  }

  /** The walk over the whole OS section. */
  lemma {:induction false} FeaturesFiled(raw: seq<byte>, nums: seq<int>, zeroRet: nat, st: OsSt, start: nat,
                                         total: seq<Prop>, k: nat)
    requires start <= |raw| && Files(st, Found(start, [], [], map[]), total, nums)
    requires Features(raw, start, |nums|, k).Some? && Features(raw, start, |nums|, k).value.props <= total
    ensures Reached(RunFeatures(raw, nums, zeroRet, st, start, k),
                    Features(raw, start, |nums|, k).value, total, nums, zeroRet)
  {
    hide FeatureOk, RunRecords, OneFeature, Files, CopiesSucceed, SomeLost, Le16;
    if k > 0 {
      var g, g' := Features(raw, start, |nums|, k - 1).value, Features(raw, start, |nums|, k).value;
      FeaturesPrefix(raw, start, |nums|, k - 1, k);
      PrefixTrans(g.props, g'.props, total);
      FeaturesFiled(raw, nums, zeroRet, st, start, total, k - 1);
      var w := RunFeatures(raw, nums, zeroRet, st, start, k - 1);
      if CopiesSucceed(g.props, zeroRet) {
        FeatureReached(raw, nums, zeroRet, w.value.st, g, total);
      } else if w.Ok? {
        FeatureLost(raw, nums, zeroRet, w.value, g);
        if w.value.pos <= |raw| && FeatureOk(raw, w.value.pos) {
          FeatureFits(raw, w.value.pos);
        }
      } else {
        CopiesLess(g.props, g'.props, zeroRet);
      }
    } else {
      assert CopiesSucceed([], zeroRet) by {
        NothingRefused(zeroRet);
      }
    }
  }

  lemma CopiesLess(a: seq<Prop>, b: seq<Prop>, zeroRet: nat)
    requires a <= b && !CopiesSucceed(a, zeroRet)
    ensures !CopiesSucceed(b, zeroRet)
  {
    hide CopiesSucceed;
    if CopiesSucceed(b, zeroRet) {
      CopiesPrefix(a, b, zeroRet);
    }
  }

  lemma NothingRefused(zeroRet: nat)
    ensures CopiesSucceed([], zeroRet)
  {
  }

  /** One more feature of that walk, when no copy has been refused so far. */
  lemma FeatureReached(raw: seq<byte>, nums: seq<int>, zeroRet: nat, st: OsSt, g: Found, total: seq<Prop>)
    requires g.pos <= |raw| && FeatureOk(raw, g.pos)
    requires Files(st, g, total, nums) && CopiesSucceed(g.props, zeroRet)
    requires OneFeature(raw, g, |nums|).Some? && OneFeature(raw, g, |nums|).value.props <= total
    ensures Reached(RunRecords(raw, nums, zeroRet, g.pos, st, Le16(raw, g.pos + 9)),
                    OneFeature(raw, g, |nums|).value, total, nums, zeroRet)
  {
    hide FeatureOk, OneFeature, Records, RunRecords, Files, CopiesSucceed, SomeLost, Le16, Reached;
    FeatureIs(raw, g, |nums|);
    var f := g.(pos := g.pos + HEADER_SIZE);
    FilesElsewhere(st, g, f, total, nums);
    RecordsFiled(raw, nums, zeroRet, g.pos, st, f, total, Le16(raw, g.pos + 9));
  }

  lemma FeatureIs(raw: seq<byte>, g: Found, interfaces: nat)
    requires g.pos <= |raw| && FeatureOk(raw, g.pos)
    ensures g.pos + HEADER_SIZE <= |raw|
    ensures OneFeature(raw, g, interfaces) ==
            Records(raw, g.pos, g.(pos := g.pos + HEADER_SIZE), interfaces, Le16(raw, g.pos + 9))
  {
    hide Records, Le16, Le32;
  }

  /** Once one has been, the section's copies do not succeed, and nothing the walk does finds the slot again. */
  lemma FeatureLost(raw: seq<byte>, nums: seq<int>, zeroRet: nat, w: OsWalked, g: Found)
    requires g.pos <= |raw| && FeatureOk(raw, g.pos) && OneFeature(raw, g, |nums|).Some?
    requires SomeLost(w.st) && !CopiesSucceed(g.props, zeroRet)
    ensures !CopiesSucceed(OneFeature(raw, g, |nums|).value.props, zeroRet)
    ensures w.pos + HEADER_SIZE <= |raw| ==>
              var r := RunRecords(raw, nums, zeroRet, w.pos, w.st, Le16(raw, w.pos + 9)); r.Ok? ==> SomeLost(r.value.st)
  {
    hide FeatureOk, RunRecords, OneFeature, CopiesSucceed, SomeLost, Le16;
    OneFeaturePrefix(raw, g, |nums|);
    if CopiesSucceed(OneFeature(raw, g, |nums|).value.props, zeroRet) {
      CopiesPrefix(g.props, OneFeature(raw, g, |nums|).value.props, zeroRet);
    }
    if w.pos + HEADER_SIZE <= |raw| {
      RecordsLose(raw, nums, zeroRet, w.pos, w.st, Le16(raw, w.pos + 9));
    }
  }

  /**
   The whole OS section: binding files exactly the properties and ids of the section, and
   then has walked through the offsets validation walked through, never leaving a region
   or a table, if and only if no copy was refused.
   */
  lemma FiledExactly(raw: seq<byte>, nums: seq<int>, zeroRet: nat, st: OsSt, start: nat, k: nat)
    requires start <= |raw| && Features(raw, start, |nums|, k).Some?
    requires Files(st, Found(start, [], [], map[]), Features(raw, start, |nums|, k).value.props, nums)
    ensures var r, f := RunFeatures(raw, nums, zeroRet, st, start, k), Features(raw, start, |nums|, k).value;
      && (r.Ok? && Files(r.value.st, f, f.props, nums) <==> CopiesSucceed(f.props, zeroRet))
      && (CopiesSucceed(f.props, zeroRet) ==> r.value.pos == f.pos)
  {
    hide Features, RunFeatures, Files, CopiesSucceed, SomeLost, NamesLength, DatasLength;
    var r, f := RunFeatures(raw, nums, zeroRet, st, start, k), Features(raw, start, |nums|, k).value;
    FeaturesFiled(raw, nums, zeroRet, st, start, f.props, k);
    FeaturesAccounted(raw, start, |nums|, k);
    if r.Ok? {
      LostNotFiled(r.value.st, f, f.props, nums);
    }
  }

  // Where the walk goes from there.

  /**
   The first property whose copy is refused: its feature, where that begins, its record, and what is
   found up to it.
   */
  datatype Drop = Drop(feature: nat, at: Found, record: nat, before: Found, after: Found)

  ghost predicate DropsFirst(raw: seq<byte>, start: nat, interfaces: nat, zeroRet: nat, x: Drop) {
    && start <= |raw|
    && Features(raw, start, interfaces, x.feature) == Some(x.at)
    && x.at.pos <= |raw|
    && FeatureOk(raw, x.at.pos)
    && x.record < Le16(raw, x.at.pos + 9)
    && var f, n := x.at.(pos := x.at.pos + HEADER_SIZE), x.record + 1;
    && Records(raw, x.at.pos, f, interfaces, x.record) == Some(x.before)
    && Records(raw, x.at.pos, f, interfaces, n) == Some(x.after)
    && CopiesSucceed(x.before.props, zeroRet)
    && !CopiesSucceed(x.after.props, zeroRet)
  }

  lemma {:induction false} RecordRefused(raw: seq<byte>, h: nat, f: Found, interfaces: nat, n: nat, zeroRet: nat)
    returns (j: nat)
    requires h + HEADER_SIZE <= |raw| && f.pos <= |raw| && Records(raw, h, f, interfaces, n).Some?
    requires CopiesSucceed(f.props, zeroRet) && !CopiesSucceed(Records(raw, h, f, interfaces, n).value.props, zeroRet)
    ensures j < n && Records(raw, h, f, interfaces, j).Some? && Records(raw, h, f, interfaces, j + 1).Some?
    ensures CopiesSucceed(Records(raw, h, f, interfaces, j).value.props, zeroRet)
    ensures !CopiesSucceed(Records(raw, h, f, interfaces, j + 1).value.props, zeroRet)
  {
    hide RecordOk, AddRecord, CopiesSucceed;
    if CopiesSucceed(Records(raw, h, f, interfaces, n - 1).value.props, zeroRet) {
      j := n - 1;
      assert j + 1 == n;
    } else {
      j := RecordRefused(raw, h, f, interfaces, n - 1, zeroRet);
    }
  }

  /** Whenever a copy of the section is refused, there is a first one. */
  lemma {:induction false} SomeDropFirst(raw: seq<byte>, start: nat, interfaces: nat, zeroRet: nat, k: nat)
    returns (x: Drop)
    requires start <= |raw| && Features(raw, start, interfaces, k).Some?
    requires !CopiesSucceed(Features(raw, start, interfaces, k).value.props, zeroRet)
    ensures x.feature < k && DropsFirst(raw, start, interfaces, zeroRet, x)
  {
    hide FeatureOk, Records, CopiesSucceed, Le16;
    if k == 0 {
      NothingRefused(zeroRet);
    } else {
      var g := Features(raw, start, interfaces, k - 1).value;
      if CopiesSucceed(g.props, zeroRet) {
        FeatureFits(raw, g.pos);
        var f := g.(pos := g.pos + HEADER_SIZE);
        var j := RecordRefused(raw, g.pos, f, interfaces, Le16(raw, g.pos + 9), zeroRet);
        x := Drop(k - 1, g, j, Records(raw, g.pos, f, interfaces, j).value,
                  Records(raw, g.pos, f, interfaces, j + 1).value);
      } else {
        x := SomeDropFirst(raw, start, interfaces, zeroRet, k - 1);
      }
    }
  }

  /** What one says of the records around it. */
  lemma DropMeans(raw: seq<byte>, start: nat, interfaces: nat, zeroRet: nat, x: Drop)
    requires DropsFirst(raw, start, interfaces, zeroRet, x)
    ensures var h := x.at.pos;
      && h + HEADER_SIZE <= x.before.pos <= |raw|
      && x.at.props <= x.before.props <= x.after.props
      && RecordOk(raw, h, x.before.pos, interfaces) && x.after == AddRecord(raw, h, x.before, interfaces)
  {
    hide FeatureOk, Features, Records, RecordOk, AddRecord, CopiesSucceed, Le16;
    FeatureFits(raw, x.at.pos);
    RecordsBack(raw, x.at.pos, x.at.(pos := x.at.pos + HEADER_SIZE), interfaces, x.record, x.before, x.after);
  }

  lemma RecordsBack(raw: seq<byte>, h: nat, f: Found, interfaces: nat, j: nat, a: Found, c: Found)
    requires h + HEADER_SIZE <= f.pos <= |raw|
    requires Records(raw, h, f, interfaces, j) == Some(a) && Records(raw, h, f, interfaces, j + 1) == Some(c)
    ensures f.props <= a.props <= c.props && h + HEADER_SIZE <= a.pos <= |raw|
    ensures RecordOk(raw, h, a.pos, interfaces) && c == AddRecord(raw, h, a, interfaces)
  {
    hide RecordOk, AddRecord;
    RecordsPrefix(raw, h, f, interfaces, 0, j);
    RecordsPrefix(raw, h, f, interfaces, j, j + 1);
  }

  /**
   The walk has come to the record of the first refused copy, and goes on at the next one
   exactly when zeroRet happens to be the length of this one.
   */
  lemma FirstDrop(raw: seq<byte>, nums: seq<int>, zeroRet: nat, st: OsSt, start: nat, total: seq<Prop>, x: Drop)
    requires DropsFirst(raw, start, |nums|, zeroRet, x) && x.after.props <= total
    requires Files(st, Found(start, [], [], map[]), total, nums)
    ensures RunFeatures(raw, nums, zeroRet, st, start, x.feature).Ok?
    ensures var w, n := RunFeatures(raw, nums, zeroRet, st, start, x.feature).value, x.record + 1;
      && w.pos == x.at.pos && x.at.pos + HEADER_SIZE <= |raw|
      && var r := RunRecords(raw, nums, zeroRet, x.at.pos, w.st, n);
      && r.Ok? && r.value.pos == x.before.pos + zeroRet && Dropped(r.value.st, x.after.props, total, nums)
      && !IsCompat(raw, x.at.pos) && raw[x.at.pos] < |nums|
      && |x.after.props| == |x.before.props| + 1
      && var p := x.after.props[|x.before.props|];
      && (r.value.pos == x.after.pos <==> zeroRet == PROP_FIXED + |p.name| + |p.data|)
  {
    hide FeatureOk, Features, RunFeatures, Records, RunRecords, Files, CopiesSucceed, SomeLost, Dropped, Le16, RecordOk,
      AddRecord;
    DropMeans(raw, start, |nums|, zeroRet, x);
    FeatureFits(raw, x.at.pos);
    var f := x.at.(pos := x.at.pos + HEADER_SIZE);
    PrefixTrans(x.before.props, x.after.props, total);
    PrefixTrans(f.props, x.before.props, total);
    CopiesPrefix(f.props, x.before.props, zeroRet);
    FeaturesFiled(raw, nums, zeroRet, st, start, total, x.feature);
    var st1 := RunFeatures(raw, nums, zeroRet, st, start, x.feature).value.st;
    FilesElsewhere(st1, x.at, f, total, nums);
    RecordsFiled(raw, nums, zeroRet, x.at.pos, st1, f, total, x.record);
    DropNext(raw, nums, zeroRet, x.at.pos, st1, x.record, x.before, total);
  }

  lemma DropNext(raw: seq<byte>, nums: seq<int>, zeroRet: nat, h: nat, st1: OsSt, j: nat, a: Found, total: seq<Prop>)
    requires h + HEADER_SIZE <= a.pos <= |raw| && RecordOk(raw, h, a.pos, |nums|)
    requires var w := RunRecords(raw, nums, zeroRet, h, st1, j);
      w.Ok? && w.value.pos == a.pos && Files(w.value.st, a, total, nums)
    requires var c := AddRecord(raw, h, a, |nums|); c.props <= total && !CopiesSucceed(c.props, zeroRet)
    requires CopiesSucceed(a.props, zeroRet)
    ensures var n := j + 1; var r, c := RunRecords(raw, nums, zeroRet, h, st1, n), AddRecord(raw, h, a, |nums|);
      && r.Ok? && r.value.pos == a.pos + zeroRet && Dropped(r.value.st, c.props, total, nums)
      && !IsCompat(raw, h) && raw[h] < |nums|
      && |c.props| == |a.props| + 1
      && var p := c.props[|a.props|];
      && (r.value.pos == c.pos <==> zeroRet == PROP_FIXED + |p.name| + |p.data|)
  {
    hide RecordOk, AddRecord, StepOs, Files, CopiesSucceed, Lost, Dropped, IsCompat;
    RecordDropped(raw, nums, zeroRet, h, RunRecords(raw, nums, zeroRet, h, st1, j).value.st, a, total);
  }

  /**
   The property record at p, read when names and datas bytes of the regions are left, reaches
   outside the buffer or a region. Empty data, or too much, is refused before it is copied.
   */
  predicate RecordFaults(raw: seq<byte>, p: nat, names: nat, datas: nat) {
    if p + PROP_FIXED > |raw| || p + PROP_FIXED + NameLength(raw, p) > |raw| then true
    else
      var n, d := NameLength(raw, p), DataLength(raw, p);
      0 < d <= COPY_MAX && (p + PROP_FIXED + n + d > |raw| || d > datas || n > names)
  }

  /** A record met where none was validated: exactly when the callback faults. */
  lemma StrayFaults(raw: seq<byte>, nums: seq<int>, zeroRet: nat, h: nat, st: OsSt, p: nat, props: seq<Prop>,
                    total: seq<Prop>)
    requires h + HEADER_SIZE <= |raw| && !IsCompat(raw, h) && raw[h] < |nums| && zeroRet > 0
    requires Dropped(st, props, total, nums) && |props| < |total|
    ensures StepOs(raw, nums, zeroRet, h, st, p).Fault? <==>
            RecordFaults(raw, p, 2 * NamesLength(total) - NamesLength(props), DatasLength(total) - DatasLength(props))
    ensures !StepOs(raw, nums, zeroRet, h, st, p).Err?
  {
    hide Le16, Le32, Put, NamesLength, DatasLength, ReportedData;
  }

  lemma {:induction false} RunRecordsStuck(raw: seq<byte>, nums: seq<int>, zeroRet: nat, h: nat, st: OsSt,
                                           i: nat, k: nat)
    requires i <= k && h + HEADER_SIZE <= |raw| && !RunRecords(raw, nums, zeroRet, h, st, i).Ok?
    ensures RunRecords(raw, nums, zeroRet, h, st, k) == RunRecords(raw, nums, zeroRet, h, st, i)
    decreases k
  {
    hide StepOs;
    if i < k {
      RunRecordsStuck(raw, nums, zeroRet, h, st, i, k - 1);
    }
  }

  lemma {:induction false} RunFeaturesStuck(raw: seq<byte>, nums: seq<int>, zeroRet: nat, st: OsSt, start: nat,
                                            i: nat, k: nat)
    requires i <= k && !RunFeatures(raw, nums, zeroRet, st, start, i).Ok?
    ensures RunFeatures(raw, nums, zeroRet, st, start, k) == RunFeatures(raw, nums, zeroRet, st, start, i)
    decreases k
  {
    hide RunRecords, FeatureOk;
    if i < k {
      RunFeaturesStuck(raw, nums, zeroRet, st, start, i, k - 1);
    }
  }

  /** What follows the first refused copy: a fault, an error, the end of the walk, or more of it. */
  datatype Stray = Faults | Refuses | Ends | GoesOn

  function NextAfter(raw: seq<byte>, total: seq<Prop>, count: nat, zeroRet: nat, x: Drop): Stray
    requires x.at.pos + HEADER_SIZE <= |raw|
    requires NamesLength(x.after.props) <= 2 * NamesLength(total) && DatasLength(x.after.props) <= DatasLength(total)
  {
    var stray := x.before.pos + zeroRet;
    if x.record + 1 < Le16(raw, x.at.pos + 9) then
      if RecordFaults(raw, stray, 2 * NamesLength(total) - NamesLength(x.after.props),
                      DatasLength(total) - DatasLength(x.after.props)) then Faults else GoesOn
    else if x.feature + 1 >= count then Ends
    else if stray > |raw| then Faults
    else if !FeatureOk(raw, stray) then Refuses
    else GoesOn
  }

  /** A section in which a copy is refused: the refused one is within it, and so are its features. */
  lemma DropWithin(raw: seq<byte>, start: nat, interfaces: nat, zeroRet: nat, count: nat, x: Drop)
    requires DropsFirst(raw, start, interfaces, zeroRet, x) && x.feature < count
    requires Features(raw, start, interfaces, count).Some?
    ensures var total := Features(raw, start, interfaces, count).value.props;
      && x.at.pos + HEADER_SIZE <= |raw|
      && x.after.props <= total
      && NamesLength(x.after.props) <= 2 * NamesLength(total) && DatasLength(x.after.props) <= DatasLength(total)
      && (x.record + 1 < Le16(raw, x.at.pos + 9) && !IsCompat(raw, x.at.pos) ==> |x.after.props| < |total|)
  {
    hide FeatureOk, Le16, Features, RecordOk, CopiesSucceed, NamesLength, DatasLength, IsCompat;
    FeatureFits(raw, x.at.pos);
    FeatureWithin(raw, start, interfaces, x.feature, count, x.at);
    RecordWithin(raw, x.at.pos, x.at.(pos := x.at.pos + HEADER_SIZE), interfaces, x.record, Le16(raw, x.at.pos + 9),
                 x.after, Features(raw, start, interfaces, count).value.props);
  }

  lemma FeatureWithin(raw: seq<byte>, start: nat, interfaces: nat, k: nat, count: nat, g: Found)
    requires start <= |raw| && k < count && Features(raw, start, interfaces, count).Some?
    requires Features(raw, start, interfaces, k) == Some(g) && g.pos <= |raw| && FeatureOk(raw, g.pos)
    ensures OneFeature(raw, g, interfaces).Some?
    ensures OneFeature(raw, g, interfaces).value.props <= Features(raw, start, interfaces, count).value.props
  {
    hide FeatureOk, OneFeature;
    var n := k + 1;
    FeaturesPrefix(raw, start, interfaces, n, count);
    assert Features(raw, start, interfaces, n) == OneFeature(raw, g, interfaces);
  }

  lemma RecordWithin(raw: seq<byte>, h: nat, f: Found, interfaces: nat, j: nat, n: nat, c: Found, total: seq<Prop>)
    requires h + HEADER_SIZE <= |raw| && f.pos <= |raw| && j < n && Records(raw, h, f, interfaces, j + 1) == Some(c)
    requires Records(raw, h, f, interfaces, n).Some? && Records(raw, h, f, interfaces, n).value.props <= total
    ensures c.props <= total && NamesLength(c.props) <= 2 * NamesLength(total)
    ensures DatasLength(c.props) <= DatasLength(total)
    ensures j + 1 < n && !IsCompat(raw, h) ==> |c.props| < |total|
  {
    hide RecordOk, Records, NamesLength, DatasLength, IsCompat;
    var whole := Records(raw, h, f, interfaces, n).value.props;
    RecordsPrefix(raw, h, f, interfaces, j + 1, n);
    PrefixTrans(c.props, whole, total);
    PrefixLengths(c.props, total);
    PrefixLengths(whole, total);
    if j + 1 < n && !IsCompat(raw, h) {
      OneMoreRecord(raw, h, f, interfaces, j + 1, n, c);
    }
  }

  lemma PrefixLengths(a: seq<Prop>, b: seq<Prop>)
    requires a <= b
    ensures |a| <= |b| && NamesLength(a) <= NamesLength(b) && DatasLength(a) <= DatasLength(b)
  {
    LengthsMonotone(b, |a|);
    assert b[..|a|] == a;
  }

  lemma OneMoreRecord(raw: seq<byte>, h: nat, f: Found, interfaces: nat, i: nat, n: nat, a: Found)
    requires h + HEADER_SIZE <= |raw| && f.pos <= |raw| && i < n && !IsCompat(raw, h)
    requires Records(raw, h, f, interfaces, n).Some? && Records(raw, h, f, interfaces, i) == Some(a)
    ensures |a.props| < |Records(raw, h, f, interfaces, n).value.props|
  {
    hide RecordOk, PropAt, IsCompat;
    var j := i + 1;
    RecordsPrefix(raw, h, f, interfaces, j, n);
    assert Records(raw, h, f, interfaces, j).value == AddRecord(raw, h, a, interfaces);
  }

  /**
   What the walk over a section comes to when a copy is refused, by what is read behind the
   first one. In the section's last record the walk just ends. Where a record follows, it
   is read at an offset that is wrong unless zeroRet is the refused record's length, and
   the walk faults if that leaves the buffer or a region; so it does if a feature follows
   and the offset is behind the buffer.
   */
  lemma AfterDrop(raw: seq<byte>, nums: seq<int>, zeroRet: nat, st: OsSt, start: nat, count: nat, x: Drop)
    requires DropsFirst(raw, start, |nums|, zeroRet, x) && x.feature < count
    requires Features(raw, start, |nums|, count).Some?
    requires Files(st, Found(start, [], [], map[]), Features(raw, start, |nums|, count).value.props, nums)
    ensures x.at.pos + HEADER_SIZE <= |raw|
    ensures var r := RunFeatures(raw, nums, zeroRet, st, start, count);
      var total := Features(raw, start, |nums|, count).value.props;
      && NamesLength(x.after.props) <= 2 * NamesLength(total) && DatasLength(x.after.props) <= DatasLength(total)
      && match NextAfter(raw, total, count, zeroRet, x)
         case Faults => r == Fault
         case Refuses => r == Err(EINVAL)
         case Ends => r.Ok? && r.value.pos == x.before.pos + zeroRet
         case GoesOn => true
  {
    hide DropsFirst, Features, RunFeatures, RunRecords, Files, FeatureOk, RecordFaults, Dropped, Le16, IsCompat,
      NamesLength,
      DatasLength;
    var total := Features(raw, start, |nums|, count).value.props;
    DropWithin(raw, start, |nums|, zeroRet, count, x);
    FirstDrop(raw, nums, zeroRet, st, start, total, x);
    ZeroRefused(raw, start, |nums|, zeroRet, x);
    var w := RunFeatures(raw, nums, zeroRet, st, start, x.feature).value;
    if x.record + 1 < Le16(raw, x.at.pos + 9) {
      if NextAfter(raw, total, count, zeroRet, x).Faults? {
        RecordStrays(raw, nums, zeroRet, st, start, w.st, count, total, x);
      }
    } else {
      FeatureStrays(raw, nums, zeroRet, st, start, w.st, count, x);
    }
  }

  lemma ZeroRefused(raw: seq<byte>, start: nat, interfaces: nat, zeroRet: nat, x: Drop)
    requires DropsFirst(raw, start, interfaces, zeroRet, x)
    ensures zeroRet > 0 && x.at.pos <= |raw| && FeatureOk(raw, x.at.pos)
    ensures x.at.pos + HEADER_SIZE <= |raw| && x.record + 1 <= Le16(raw, x.at.pos + 9)
  {
    hide Features, Records, Le16, Le32;
  }

  /** A record follows in the same feature. */
  lemma RecordStrays(raw: seq<byte>, nums: seq<int>, zeroRet: nat, st: OsSt, start: nat, st1: OsSt, count: nat,
                     total: seq<Prop>, x: Drop)
    requires x.at.pos + HEADER_SIZE <= |raw| && FeatureOk(raw, x.at.pos) && x.feature < count && zeroRet > 0
    requires RunFeatures(raw, nums, zeroRet, st, start, x.feature) == Ok(OsWalked(st1, x.at.pos))
    requires var n := x.record + 1; var r := RunRecords(raw, nums, zeroRet, x.at.pos, st1, n);
      && r.Ok? && r.value.pos == x.before.pos + zeroRet && Dropped(r.value.st, x.after.props, total, nums)
      && n < Le16(raw, x.at.pos + 9)
    requires !IsCompat(raw, x.at.pos) && raw[x.at.pos] < |nums| && |x.after.props| < |total|
    requires NamesLength(x.after.props) <= 2 * NamesLength(total) && DatasLength(x.after.props) <= DatasLength(total)
    requires RecordFaults(raw, x.before.pos + zeroRet, 2 * NamesLength(total) - NamesLength(x.after.props),
                          DatasLength(total) - DatasLength(x.after.props))
    ensures RunFeatures(raw, nums, zeroRet, st, start, count) == Fault
  {
    hide FeatureOk, Le16, IsCompat, Dropped, StepOs, RecordFaults, NamesLength, DatasLength;
    var n, k := x.record + 2, x.feature + 1;
    var before := RunRecords(raw, nums, zeroRet, x.at.pos, st1, n - 1).value;
    StrayFaults(raw, nums, zeroRet, x.at.pos, before.st, before.pos, x.after.props, total);
    assert RunRecords(raw, nums, zeroRet, x.at.pos, st1, n) == Fault;
    RunRecordsStuck(raw, nums, zeroRet, x.at.pos, st1, n, Le16(raw, x.at.pos + 9));
    assert RunFeatures(raw, nums, zeroRet, st, start, k) == Fault;
    RunFeaturesStuck(raw, nums, zeroRet, st, start, k, count);
  }

  /** It was the last record of its feature. */
  lemma FeatureStrays(raw: seq<byte>, nums: seq<int>, zeroRet: nat, st: OsSt, start: nat, st1: OsSt,
                      count: nat, x: Drop)
    requires x.at.pos + HEADER_SIZE <= |raw| && FeatureOk(raw, x.at.pos) && x.feature < count
    requires RunFeatures(raw, nums, zeroRet, st, start, x.feature) == Ok(OsWalked(st1, x.at.pos))
    requires var r := RunRecords(raw, nums, zeroRet, x.at.pos, st1, Le16(raw, x.at.pos + 9));
      r.Ok? && r.value.pos == x.before.pos + zeroRet
    ensures var r, stray := RunFeatures(raw, nums, zeroRet, st, start, count), x.before.pos + zeroRet;
      && (x.feature + 1 == count ==> r.Ok? && r.value.pos == stray)
      && (x.feature + 1 < count && stray > |raw| ==> r == Fault)
      && (x.feature + 1 < count && stray <= |raw| && !FeatureOk(raw, stray) ==> r == Err(EINVAL))
  {
    hide FeatureOk, Le16, RunRecords;
    var k, n := x.feature + 1, x.feature + 2;
    assert RunFeatures(raw, nums, zeroRet, st, start, k).Ok?;
    if k < count && !RunFeatures(raw, nums, zeroRet, st, start, n).Ok? {
      RunFeaturesStuck(raw, nums, zeroRet, st, start, n, count);
    }
  }

  /** All this is read behind the start of the section. */
  lemma DropLocal(raw: seq<byte>, raw': seq<byte>, start: nat, interfaces: nat, zeroRet: nat, count: nat, x: Drop)
    requires DropsFirst(raw, start, interfaces, zeroRet, x) && SameOn(raw, raw', start, |raw|)
    ensures DropsFirst(raw', start, interfaces, zeroRet, x) && x.at.pos + HEADER_SIZE <= |raw| == |raw'|
    ensures forall total: seq<Prop> {:trigger NextAfter(raw', total, count, zeroRet, x)} ::
              NamesLength(x.after.props) <= 2 * NamesLength(total) &&
              DatasLength(x.after.props) <= DatasLength(total) ==>
                NextAfter(raw', total, count, zeroRet, x) == NextAfter(raw, total, count, zeroRet, x)
  {
    hide Le32, Le16, Features, Records, FeatureOk, RecordFaults, CopiesSucceed, NamesLength, DatasLength;
    SameReads(raw, raw', start, |raw|);
    FeatureFits(raw, x.at.pos);
    var h, f, n := x.at.pos, x.at.(pos := x.at.pos + HEADER_SIZE), x.record + 1;
    assert SameOn(raw, raw', start, h) && SameOn(raw, raw', h, x.after.pos) && SameOn(raw, raw', h, x.before.pos) by {
      DropMeans(raw, start, interfaces, zeroRet, x);
    }
    FeaturesLocal(raw, raw', start, interfaces, x.feature);
    RecordsLocal(raw, raw', h, f, interfaces, x.record);
    RecordsLocal(raw, raw', h, f, interfaces, n);
    HeaderLocal(raw, raw', start, h);
    HeaderLocal(raw, raw', start, x.before.pos + zeroRet);
  }

  lemma HeaderLocal(raw: seq<byte>, raw': seq<byte>, start: nat, p: nat)
    requires SameOn(raw, raw', start, |raw|) && start <= p
    ensures p <= |raw| ==> FeatureOk(raw', p) == FeatureOk(raw, p)
    ensures forall names, datas :: RecordFaults(raw', p, names, datas) == RecordFaults(raw, p, names, datas)
  {
    hide Le16, Le32;
    SameReads(raw, raw', start, |raw|);
  }

  /** The regions and the table as _ffs_func_bind lays them out for the validated totals. */
  function OsStart(interfaces: nat, sizes: OsSizes): OsSt {
    OsSt(seq(interfaces, i => Entry(0, NO_ID, 0, [])), seq(sizes.props, i => FiledProp(0, None, 0, None, 0)), 0,
         seq(sizes.names, i => 0), 0, seq(sizes.datas, i => 0), 0)
  }

  lemma OsStartFiles(total: seq<Prop>, nums: seq<int>, start: nat)
    requires |nums| <= 0x100
    ensures Files(OsStart(|nums|, OsSizes(|total|, 2 * NamesLength(total), DatasLength(total))),
                  Found(start, [], [], map[]), total, nums)
  {
    var f := Found(start, [], [], map[]);
    assert AllNames([]) == [] && AllDatas([]) == [] && NamesLength([]) == 0 && DatasLength([]) == 0;
    forall t | 0 <= t < |nums|
      ensures EntryOf(f, nums, t) == Entry(0, NO_ID, 0, [])
    {
      assert OwnedBy([], t) == [] && ReportedLength([], t) == 0;
    }
    hide EntryOf, AllNames, AllDatas, NamesLength, DatasLength, FiledOf;
  }
}
