/**
 __ffs_data_got_descs: validation of the descriptors user space writes to ep0.
 The accepted buffers are described by Accepts, on the bytes alone; GotDescs is
 proved to accept exactly those.
 */
module DescParser {
  import opened Bytes
  import opened DescWalk
  import opened OsDescs
  import opened DescCodec

  const DESCRIPTORS_MAGIC := 1
  const DESCRIPTORS_MAGIC_V2 := 3
  const HAS_FS_DESC := 1
  const HAS_HS_DESC := 2
  const VIRTUAL_ADDR := 16
  const EVENTFD := 32
  const ALL_CTRL_RECIP := 64
  const KNOWN_FLAGS := 256   // every flag bit below this one is known
  const MAX_EPS_COUNT := 31

  function Bit(flags: nat, flag: nat): (r: nat)
    requires flag > 0
    ensures r == 0 || r == 1
  {
    flags / flag % 2
  }

  predicate Has(flags: nat, flag: nat)
    requires flag > 0
  {
    Bit(flags, flag) == 1
  }

  /** Size of the header, the three per-speed counts, the number of OS descriptors, and the flags. */
  datatype Header = Header(size: nat, counts: seq<nat>, osCount: nat, flags: nat)

  predicate IsV2(data: seq<byte>) requires |data| >= 16 { Le32(data, 0) == DESCRIPTORS_MAGIC_V2 }

  function FlagsOf(data: seq<byte>): nat
    requires |data| >= 16
  {
    if IsV2(data) then Le32(data, 8) else HAS_FS_DESC + HAS_HS_DESC
  }

  function FixedSize(data: seq<byte>): nat
    requires |data| >= 16
  {
    if IsV2(data) then 12 else 8
  }

  /** How many 32-bit words precede the i-th count: the eventfd, then one word for each lower flag. */
  function WordsBefore(flags: nat, i: nat): (r: nat)
    requires i <= 4
  {
    Bit(flags, EVENTFD)
    + (if i > 0 then Bit(flags, 1) else 0)
    + (if i > 1 then Bit(flags, 2) else 0)
    + (if i > 2 then Bit(flags, 4) else 0)
    + (if i > 3 then Bit(flags, 8) else 0)
  }

  predicate MagicOk(data: seq<byte>)
    requires |data| >= 16
  {
    && Le32(data, 4) == |data|
    && (Le32(data, 0) == DESCRIPTORS_MAGIC || Le32(data, 0) == DESCRIPTORS_MAGIC_V2)
  }

  predicate HeaderOk(data: seq<byte>)
    requires |data| >= 16
  {
    && MagicOk(data)
    && FlagsOf(data) < KNOWN_FLAGS
    && FixedSize(data) + 4 * WordsBefore(FlagsOf(data), 4) <= |data|
  }

  const FLAG_OF_COUNT := [1, 2, 4, 8]

  /** The i-th count, 0 when its flag is clear; only meaningful inside the buffer. */
  function CountOf(data: seq<byte>, i: nat): nat
    requires |data| >= 16 && i < 4
  {
    var o := FixedSize(data) + 4 * WordsBefore(FlagsOf(data), i);
    if Has(FlagsOf(data), FLAG_OF_COUNT[i]) && o + 4 <= |data| then Le32(data, o) else 0
  }

  function HeaderOf(data: seq<byte>): Header
    requires |data| >= 16 && HeaderOk(data)
  {
    Header(FixedSize(data) + 4 * WordsBefore(FlagsOf(data), 4),
           [CountOf(data, 0), CountOf(data, 1), CountOf(data, 2)],
           CountOf(data, 3), FlagsOf(data))
  }

  /** What one speed's descriptors declare: endpoint addresses in order, and how many interfaces. */
  datatype Decl = Decl(eps: seq<byte>, interfaces: nat)

  const EMPTY := Decl([], 0)

  type Counts = c: seq<nat> | |c| == 3 witness [0, 0, 0]

  /** Where the i-th speed's descriptors start, -1 when an earlier descriptor is rejected. */
  function SecStart(raw: seq<byte>, counts: Counts, i: nat): (r: int)
    requires i <= 3
    ensures r == -1 || 0 <= r <= |raw|
    ensures r >= 0 ==> forall j :: 0 <= j <= i ==> 0 <= SecStart(raw, counts, j) <= r
  {
    if i == 0 then 0
    else
      var p := SecStart(raw, counts, i - 1);
      if p < 0 then -1 else At(raw, p, counts[i - 1])
  }

  function SecDecl(raw: seq<byte>, counts: Counts, i: nat): Decl
    requires i < 3 && SecStart(raw, counts, i + 1) >= 0
  {
    var p := SecStart(raw, counts, i);
    Decl(EpAddrs(raw, p, counts[i]), IntfCount(raw, p, counts[i]))
  }

  /** From the first speed that declares anything, every described speed declares the same. */
  ghost predicate SectionsAgree(raw: seq<byte>, counts: Counts, n: nat)
    requires n <= 3 && SecStart(raw, counts, n) >= 0
  {
    && (forall i :: 0 <= i < n ==>
          |SecDecl(raw, counts, i).eps| < MAX_EPS_COUNT)
    && (forall i, j :: 0 <= i <= j < n && counts[j] > 0 ==>
          SecDecl(raw, counts, i) != EMPTY ==> SecDecl(raw, counts, j) == SecDecl(raw, counts, i))
  }

  /** What the function as a whole declares: the last speed that declares anything. */
  function Declared(raw: seq<byte>, counts: Counts, n: nat): Decl
    requires n <= 3 && SecStart(raw, counts, n) >= 0
  {
    if n == 0 then EMPTY
    else if SecDecl(raw, counts, n - 1) == EMPTY then Declared(raw, counts, n - 1)
    else SecDecl(raw, counts, n - 1)
  }

  function StringsNeeded(raw: seq<byte>, counts: Counts, n: nat): nat
    requires n <= 3 && SecStart(raw, counts, n) >= 0
  {
    if n == 0 then 0
    else Max(StringsNeeded(raw, counts, n - 1), StrMax(raw, SecStart(raw, counts, n - 1), counts[n - 1]))
  }

  /** The OS descriptors after the per-speed sections. */
  function OsFound(raw: seq<byte>, counts: Counts, osCount: nat): Option<Found>
    requires SecStart(raw, counts, 3) >= 0
  {
    Features(raw, SecStart(raw, counts, 3), Declared(raw, counts, 3).interfaces, osCount)
  }

  /** raw is exactly the counted descriptors followed by the OS descriptors, with nothing left over. */
  ghost predicate RawOk(raw: seq<byte>, counts: Counts, osCount: nat) {
    && |raw| > 0
    && SecStart(raw, counts, 3) >= 0
    && SectionsAgree(raw, counts, 3)
    && OsFound(raw, counts, osCount).Some?
    && OsFound(raw, counts, osCount).value.pos == |raw|
  }

  /** The counts are 32-bit words, and so is the buffer's length. */
  predicate Words32(raw: seq<byte>, counts: Counts) {
    && |raw| < TWO_TO_THE_32
    && counts[0] < TWO_TO_THE_32
    && counts[1] < TWO_TO_THE_32
    && counts[2] < TWO_TO_THE_32
  }

  lemma HeaderWords(data: seq<byte>)
    requires |data| >= 16 && HeaderOk(data)
    ensures var h := HeaderOf(data); Words32(data[h.size..], h.counts)
  {
    hide Le16;
  }

  /** The buffers __ffs_data_got_descs accepts. */
  ghost predicate Accepts(data: seq<byte>, eventfd: int)
    requires |data| >= 16
  {
    && HeaderOk(data)
    && (Has(FlagsOf(data), EVENTFD) ==> eventfd == 0)
    && var h := HeaderOf(data);
       RawOk(data[h.size..], h.counts, h.osCount)
  }

  /** eps_addrmap as the accepted sections fill it: entry k is the k-th endpoint's address. */
  ghost predicate AddrMapIs(addrmap: seq<byte>, eps: seq<byte>) {
    && |addrmap| == MAX_EPS_COUNT
    && |eps| < MAX_EPS_COUNT
    && addrmap[0] == 0
    && forall k :: 1 <= k < MAX_EPS_COUNT ==> addrmap[k] == if k <= |eps| then eps[k - 1] else 0
  }

  lemma SecEmpty(raw: seq<byte>, counts: Counts, i: nat)
    requires i < 3 && SecStart(raw, counts, i) >= 0 && counts[i] == 0
    ensures SecStart(raw, counts, i + 1) == SecStart(raw, counts, i)
    ensures SecDecl(raw, counts, i) == EMPTY
    ensures StringsNeeded(raw, counts, i + 1) == StringsNeeded(raw, counts, i)
  {
    WalkZero(raw, SecStart(raw, counts, i));
  }

  /** Once anything is declared, every declaring speed declares it. */
  lemma {:induction false} DeclaredByAll(raw: seq<byte>, counts: Counts, n: nat)
    requires n <= 3 && SecStart(raw, counts, n) >= 0 && SectionsAgree(raw, counts, n)
    ensures forall j :: 0 <= j < n && SecDecl(raw, counts, j) != EMPTY ==>
              SecDecl(raw, counts, j) == Declared(raw, counts, n)
    ensures Declared(raw, counts, n) != EMPTY ==>
              exists j :: 0 <= j < n && SecDecl(raw, counts, j) == Declared(raw, counts, n)
    ensures |Declared(raw, counts, n).eps| < MAX_EPS_COUNT
  {
    hide At, EpAddrs, IntfCount;
    if n > 0 {
      DeclaredByAll(raw, counts, n - 1);
      if counts[n - 1] == 0 {
        SecEmpty(raw, counts, n - 1);
      }
      if SecDecl(raw, counts, n - 1) != EMPTY {
        assert SecDecl(raw, counts, n - 1) == Declared(raw, counts, n);
      } else if Declared(raw, counts, n) != EMPTY {
        var j :| 0 <= j < n - 1 && SecDecl(raw, counts, j) == Declared(raw, counts, n - 1);
        assert 0 <= j < n && SecDecl(raw, counts, j) == Declared(raw, counts, n);
      }
    }
  }

  ghost predicate AgreeSoFar(raw: seq<byte>, counts: Counts, n: nat) {
    n <= 3 && SecStart(raw, counts, n) >= 0 && SectionsAgree(raw, counts, n)
  }

  /** What the i-th speed must satisfy for the sections to keep agreeing. */
  ghost predicate SectionFits(raw: seq<byte>, counts: Counts, i: nat, addrmap: seq<byte>)
    requires i < 3 && SecStart(raw, counts, i) >= 0 && |addrmap| == MAX_EPS_COUNT
  {
    var d := Declared(raw, counts, i);
    && SectionOk(raw, SecStart(raw, counts, i), counts[i], d == EMPTY, addrmap)
    && (d == EMPTY || counts[i] == 0 || SecDecl(raw, counts, i) == d)
  }

  lemma AgreeNext(raw: seq<byte>, counts: Counts, i: nat, addrmap: seq<byte>)
    requires i < 3 && AgreeSoFar(raw, counts, i) && AddrMapIs(addrmap, Declared(raw, counts, i).eps)
    ensures AgreeSoFar(raw, counts, i + 1) <==> SectionFits(raw, counts, i, addrmap)
  {
    hide At, SectionsAgree, SectionOk, SecDecl;
    if AgreeSoFar(raw, counts, i + 1) {
      AgreedFits(raw, counts, i, addrmap);
    }
    if SectionFits(raw, counts, i, addrmap) {
      FittingAgrees(raw, counts, i, addrmap);
    }
  }

  lemma AgreedFits(raw: seq<byte>, counts: Counts, i: nat, addrmap: seq<byte>)
    requires i < 3 && AgreeSoFar(raw, counts, i) && AddrMapIs(addrmap, Declared(raw, counts, i).eps)
    requires AgreeSoFar(raw, counts, i + 1)
    ensures SectionFits(raw, counts, i, addrmap)
  {
    hide At, EpAddrs, IntfCount;
    DeclaredByAll(raw, counts, i);
    if counts[i] == 0 {
      SecEmpty(raw, counts, i);
    }
    var d := Declared(raw, counts, i);
    if d != EMPTY && counts[i] > 0 {
      var j :| 0 <= j < i && SecDecl(raw, counts, j) == d;
      assert SecDecl(raw, counts, i) == d;
    }
    var n := i + 1;
    assert SecStart(raw, counts, n) == At(raw, SecStart(raw, counts, i), counts[i]);
    assert |SecDecl(raw, counts, i).eps| < MAX_EPS_COUNT;
  }

  lemma FittingAgrees(raw: seq<byte>, counts: Counts, i: nat, addrmap: seq<byte>)
    requires i < 3 && AgreeSoFar(raw, counts, i) && AddrMapIs(addrmap, Declared(raw, counts, i).eps)
    requires SectionFits(raw, counts, i, addrmap)
    ensures AgreeSoFar(raw, counts, i + 1)
  {
    hide At, EpAddrs, IntfCount;
    DeclaredByAll(raw, counts, i);
    if counts[i] == 0 {
      SecEmpty(raw, counts, i);
    }
    var n := i + 1;
    assert SecStart(raw, counts, n) >= 0;
    assert |SecDecl(raw, counts, i).eps| < MAX_EPS_COUNT;
    assert SectionsAgree(raw, counts, n);
  }

  lemma {:induction false} AgreeStuck(raw: seq<byte>, counts: Counts, i: nat)
    requires i <= 3 && AgreeSoFar(raw, counts, 3)
    ensures AgreeSoFar(raw, counts, i)
  {
    hide At;
  }

  /** After the OS walk, reaching the end decides acceptance, and cleaning has changed nothing that is read. */
  lemma CleaningKeepsRaw(raw: seq<byte>, cur: seq<byte>, counts: Counts, osCount: nat, start: nat,
                         interfaces: nat, g: Found)
    requires AgreeSoFar(raw, counts, 3) && start == SecStart(raw, counts, 3)
    requires interfaces == Declared(raw, counts, 3).interfaces
    ensures FeaturesKept(raw, cur, start, interfaces, osCount, g) ==>
              && (RawOk(raw, counts, osCount) <==> 0 < g.pos == |raw|)
              && (RawOk(raw, counts, osCount) ==>
                    && RawOk(cur, counts, osCount)
                    && cur == Cleaned(raw, g.compats)
                    && OsFound(cur, counts, osCount) == OsFound(raw, counts, osCount) == Some(g)
                    && Declared(cur, counts, 3) == Declared(raw, counts, 3)
                    && StringsNeeded(cur, counts, 3) == StringsNeeded(raw, counts, 3))
  {
    if FeaturesKept(raw, cur, start, interfaces, osCount, g) {
      FeaturesCompats(raw, start, interfaces, osCount);
      forall b | 0 <= b < |raw| && b < start + 2
        ensures cur[b] == raw[b]
      {
        CleanedAt(raw, g.compats, b);
      }
      SectionsLocal(raw, cur, counts, 3);
    }
  }

  /** The OS section is well formed and ends, past the start, at the end of the buffer. */
  ghost predicate OsEnds(raw: seq<byte>, start: nat, interfaces: nat, osCount: nat)
    requires start <= |raw|
  {
    var f := Features(raw, start, interfaces, osCount);
    f.Some? && 0 < f.value.pos == |raw|
  }

  lemma FeaturesFound(raw: seq<byte>, cur: seq<byte>, start: nat, interfaces: nat, osCount: nat, g: Found)
    ensures FeaturesKept(raw, cur, start, interfaces, osCount, g) ==>
              start <= |raw| && Features(raw, start, interfaces, osCount) == Some(g)
  {
  }

  lemma OsDecides(raw: seq<byte>, counts: Counts, osCount: nat, start: nat, interfaces: nat)
    requires AgreeSoFar(raw, counts, 3) && start == SecStart(raw, counts, 3)
    requires interfaces == Declared(raw, counts, 3).interfaces
    ensures RawOk(raw, counts, osCount) <==> OsEnds(raw, start, interfaces, osCount)
  {
  }

  lemma {:induction false} SectionsLocal(raw: seq<byte>, cur: seq<byte>, counts: Counts, n: nat)
    requires n <= 3 && |cur| == |raw| && SecStart(raw, counts, n) >= 0
    requires forall b :: 0 <= b < |raw| && b < SecStart(raw, counts, n) + 2 ==> cur[b] == raw[b]
    ensures SecStart(cur, counts, n) == SecStart(raw, counts, n)
    ensures forall i :: 0 <= i < n ==> SecDecl(cur, counts, i) == SecDecl(raw, counts, i)
    ensures Declared(cur, counts, n) == Declared(raw, counts, n)
    ensures StringsNeeded(cur, counts, n) == StringsNeeded(raw, counts, n)
  {
    hide At, EpAddrs, IntfCount, StrMax;
    if n > 0 {
      SectionsLocal(raw, cur, counts, n - 1);
      WalkLocal(raw, cur, SecStart(raw, counts, n - 1), counts[n - 1]);
      assert SecDecl(cur, counts, n - 1) == SecDecl(raw, counts, n - 1);
    }
  }

  datatype Entity = Interface | Str | Endpoint

  /** struct ffs_desc_helper: the counts of the section being walked. */
  class DescHelper {
    var interfacesCount: nat
    var epsCount: nat

    constructor ()
      ensures interfacesCount == 0 && epsCount == 0
    {
      interfacesCount, epsCount := 0, 0;
    }
  }

  /** What one section's walk checks besides framing. */
  ghost predicate SectionOk(raw: seq<byte>, start: nat, k: nat, recording: bool, addrmap: seq<byte>)
    requires start <= |raw| && |addrmap| == MAX_EPS_COUNT
  {
    && At(raw, start, k) >= 0
    && |EpAddrs(raw, start, k)| < MAX_EPS_COUNT
    && (!recording ==> MapMatches(addrmap, EpAddrs(raw, start, k)))
  }

  /** The map has these addresses, in order. */
  ghost predicate MapMatches(addrmap: seq<byte>, eps: seq<byte>)
    requires |eps| < MAX_EPS_COUNT == |addrmap|
  {
    forall i :: 0 <= i < |eps| ==> addrmap[i + 1] == eps[i]
  }

  /** An endpoint that becomes the k-th of its section must fit the map, and match it unless it is being recorded. */
  ghost predicate EndpointFits(raw: seq<byte>, p: nat, k: nat, recording: bool, addrmap: seq<byte>)
    requires p <= |raw| && |addrmap| == MAX_EPS_COUNT
  {
    IsEndpoint(raw, p) ==> k < MAX_EPS_COUNT && (recording || addrmap[k] == raw[p + 2])
  }

  lemma SectionOkNext(raw: seq<byte>, start: nat, k: nat, recording: bool, addrmap: seq<byte>)
    requires start <= |raw| && |addrmap| == MAX_EPS_COUNT && SectionOk(raw, start, k, recording, addrmap)
    ensures SectionOk(raw, start, k + 1, recording, addrmap) <==>
            && DescOk(raw, At(raw, start, k))
            && EndpointFits(raw, At(raw, start, k), |EpAddrs(raw, start, k)| + 1, recording, addrmap)
  {
    hide EpOffs, EpAddrs, StringAt, LengthFits, IsType, IntfCount, StrMax, MapMatches, IsEndpoint;
    var p: nat := At(raw, start, k);
    if DescOk(raw, p) {
      WalkNext(raw, start, k, p);
      assert 0 <= p + raw[p] == At(raw, start, k + 1);
      hide At, DescOk;
      if IsEndpoint(raw, p) && |EpAddrs(raw, start, k)| + 1 < MAX_EPS_COUNT {
        AddressFits(EpAddrs(raw, start, k), raw[p + 2], addrmap);
      }
    } else {
      assert At(raw, start, k + 1) == -1;
    }
  }

  /** One more address agrees with the map exactly if the others do and its own does. */
  lemma AddressFits(e: seq<byte>, x: byte, addrmap: seq<byte>)
    requires |e| + 1 < MAX_EPS_COUNT == |addrmap|
    ensures MapMatches(addrmap, e + [x]) <==> MapMatches(addrmap, e) && addrmap[|e| + 1] == x
  {
    var e' := e + [x];
    assert forall i :: 0 <= i < |e| ==> e'[i] == e[i];
    assert e'[|e|] == x;
  }

  lemma SectionOkPrefix(raw: seq<byte>, start: nat, j: nat, k: nat, recording: bool, addrmap: seq<byte>)
    requires start <= |raw| && |addrmap| == MAX_EPS_COUNT && j <= k
    requires SectionOk(raw, start, k, recording, addrmap)
    ensures SectionOk(raw, start, j, recording, addrmap)
  {
    hide DescOk, IsType;
    WalkPrefix(raw, start, j, k);
    forall i | 0 <= i < |EpAddrs(raw, start, j)|
      ensures EpAddrs(raw, start, j)[i] == EpAddrs(raw, start, k)[i]
    {
      assert EpOffs(raw, start, j)[i] == EpOffs(raw, start, k)[i];
    }
  }

  /** The counters a section's walk updates, and the address map. */
  datatype Tally = Tally(eps: nat, interfaces: nat, strings: nat, addrmap: seq<byte>)

  /** The effect of one accepted descriptor. */
  function AfterDesc(raw: seq<byte>, p: nat, recording: bool, t: Tally): Tally
    requires p <= |raw| && DescOk(raw, p)
  {
    Tally(t.eps + if IsEndpoint(raw, p) then 1 else 0,
          if IsInterface(raw, p) then Max(t.interfaces, raw[p + 2] as int + 1) else t.interfaces,
          if StringAt(raw, p) != -1 then Max(t.strings, raw[StringAt(raw, p)]) else t.strings,
          if IsEndpoint(raw, p) && recording && t.eps + 1 < |t.addrmap|
          then t.addrmap[t.eps + 1 := raw[p + 2]] else t.addrmap)
  }

  /** The counters after k descriptors of a section whose walk began with t0. */
  ghost predicate TallyIs(raw: seq<byte>, start: nat, k: nat, recording: bool, t0: Tally, t: Tally)
    requires start <= |raw|
  {
    && |t0.addrmap| == |t.addrmap| == MAX_EPS_COUNT
    && SectionOk(raw, start, k, recording, t0.addrmap)
    && t.eps == |EpAddrs(raw, start, k)| < MAX_EPS_COUNT
    && t.interfaces == IntfCount(raw, start, k)
    && t.strings == Max(t0.strings, StrMax(raw, start, k))
    && (if recording then AddrMapIs(t.addrmap, EpAddrs(raw, start, k)) else t.addrmap == t0.addrmap)
  }

  /** One descriptor decides the section: either the walk goes on, or the section is refused for good. */
  lemma StepDecides(raw: seq<byte>, start: nat, k: nat, count: nat, p: nat, recording: bool, t0: Tally, t: Tally)
    requires start <= |raw| && At(raw, start, k) == p && k < count
    requires TallyIs(raw, start, k, recording, t0, t)
    ensures DescOk(raw, p) && EndpointFits(raw, p, t.eps + 1, recording, t.addrmap) ==>
              && At(raw, start, k + 1) == p + raw[p]
              && SectionOk(raw, start, k + 1, recording, t0.addrmap)
              && TallyIs(raw, start, k + 1, recording, t0, AfterDesc(raw, p, recording, t))
              && AfterDesc(raw, p, recording, t).eps < MAX_EPS_COUNT
    ensures !(DescOk(raw, p) && EndpointFits(raw, p, t.eps + 1, recording, t.addrmap)) ==>
              !SectionOk(raw, start, count, recording, t0.addrmap)
  {
    hide At, DescOk, EpOffs, EpAddrs, IntfCount, StrMax;
    SectionOkNext(raw, start, k, recording, t0.addrmap);
    if DescOk(raw, p) && EndpointFits(raw, p, t.eps + 1, recording, t.addrmap) {
      WalkNext(raw, start, k, p);
    } else if SectionOk(raw, start, count, recording, t0.addrmap) {
      SectionOkPrefix(raw, start, k + 1, count, recording, t0.addrmap);
    }
  }

  lemma TallyZero(raw: seq<byte>, start: nat, recording: bool, t: Tally)
    requires start <= |raw| && |t.addrmap| == MAX_EPS_COUNT && t.eps == t.interfaces == 0
    requires recording ==> AddrMapIs(t.addrmap, [])
    ensures At(raw, start, 0) == start && TallyIs(raw, start, 0, recording, t, t)
    ensures SectionOk(raw, start, 0, recording, t.addrmap)
  {
    WalkZero(raw, start);
  }

  /** What is read from a descriptor is what its fields say. */
  lemma FieldsDecide(raw: seq<byte>, p: nat)
    requires p <= |raw|
    ensures forall d :: Canonical(d) && Holds(raw, p, d) ==>
              && (DescOk(raw, p) <==> Allowed(d))
              && (DescOk(raw, p) ==>
                    && raw[p] == |Encode(d)|
                    && (IsEndpoint(raw, p) <==> d.EpDesc?)
                    && InterfaceField(d) == (if IsInterface(raw, p) then raw[p + 2] as nat + 1 else 0)
                    && StringField(d) == if StringAt(raw, p) == -1 then 0 else raw[StringAt(raw, p)] as nat)
  {
    forall d | Canonical(d) && Holds(raw, p, d)
      ensures DescOk(raw, p) <==> Allowed(d)
      ensures DescOk(raw, p) ==>
                && raw[p] == |Encode(d)|
                && (IsEndpoint(raw, p) <==> d.EpDesc?)
                && InterfaceField(d) == (if IsInterface(raw, p) then raw[p + 2] as nat + 1 else 0)
                && StringField(d) == if StringAt(raw, p) == -1 then 0 else raw[StringAt(raw, p)] as nat
    {
      AcceptsAllowed(raw, p, d);
      if DescOk(raw, p) {
        ReadsFields(raw, p, d);
        FieldsMatter(d);
        hide Canonical, Holds, Allowed, Encode, StringField, InterfaceField, DescOk, IsEndpoint, IsInterface, StringAt;
      }
    }
  }

  class FfsData {
    var epsCount: nat
    var interfacesCount: nat
    var stringsCount: nat
    const addrmap: array<byte>
    var userFlags: nat
    var rawDescs: seq<byte>       // raw_descs .. raw_descs + raw_descs_length, kept until reset
    var counts: Counts            // fs_descs_count, hs_descs_count, ss_descs_count
    var osCount: nat              // ms_os_descs_count
    var propCount: nat            // ms_os_descs_ext_prop_count
    var propNameLen: nat          // ms_os_descs_ext_prop_name_len
    var propDataLen: nat          // ms_os_descs_ext_prop_data_len

    /** A zeroed ffs_data, as ffs_data_new makes it. */
    ghost predicate Fresh()
      reads this, addrmap
    {
      && addrmap.Length == MAX_EPS_COUNT
      && AddrMapIs(addrmap[..], [])
      && epsCount == interfacesCount == stringsCount == 0
      && propCount == propNameLen == propDataLen == 0
    }

    /** What a successful GotDescs has established; binding relies on nothing else. */
    ghost predicate Ready()
      reads this, addrmap
    {
      && RawOk(rawDescs, counts, osCount)
      && Words32(rawDescs, counts)
      && addrmap.Length == MAX_EPS_COUNT
      && Reflects(rawDescs, counts, 3)
      && Counted(OsFound(rawDescs, counts, osCount).value)
    }

    /** The counters and the address map reflect the first n speeds. */
    ghost predicate Reflects(raw: seq<byte>, c: Counts, n: nat)
      reads `epsCount, `interfacesCount, `stringsCount, addrmap
    {
      && AgreeSoFar(raw, c, n)
      && epsCount == |Declared(raw, c, n).eps|
      && interfacesCount == Declared(raw, c, n).interfaces
      && AddrMapIs(addrmap[..], Declared(raw, c, n).eps)
      && stringsCount == StringsNeeded(raw, c, n)
    }

    /** The totals recorded for the properties found so far. */
    ghost predicate Counted(f: Found)
      reads `propCount, `propNameLen, `propDataLen
    {
      && propCount == |f.props|
      && propNameLen == 2 * NamesLength(f.props)
      && propDataLen == DatasLength(f.props)
    }

    constructor ()
      ensures Fresh() && fresh(addrmap)
    {
      epsCount, interfacesCount, stringsCount := 0, 0, 0;
      propCount, propNameLen, propDataLen := 0, 0, 0;
      userFlags, rawDescs, counts, osCount := 0, [], [0, 0, 0], 0;
      addrmap := new byte[MAX_EPS_COUNT](i => 0);
    }

    /** __ffs_data_do_entity. */
    method DataDoEntity(entity: Entity, value: byte, helper: DescHelper) returns (r: Outcome<()>)
      requires addrmap.Length == MAX_EPS_COUNT && helper.epsCount < MAX_EPS_COUNT
      modifies helper, this`stringsCount, addrmap
      ensures r == Ok(()) || r == Err(EINVAL)
      ensures helper.interfacesCount ==
              if entity == Interface then Max(old(helper.interfacesCount), value as int + 1)
              else old(helper.interfacesCount)
      ensures stringsCount == if entity == Str then Max(old(stringsCount), value) else old(stringsCount)
      ensures helper.epsCount == old(helper.epsCount) + if entity == Endpoint then 1 else 0
      ensures entity != Endpoint ==> r.Ok? && addrmap[..] == old(addrmap[..])
      ensures entity == Endpoint ==>
                var k := helper.epsCount;
                var recording := epsCount == 0 && interfacesCount == 0;
                && (r.Ok? <==> k < MAX_EPS_COUNT && (recording || old(addrmap[..])[k] == value))
                && addrmap[..] == if r.Ok? && recording then old(addrmap[..])[k := value] else old(addrmap[..])
    {
      r := Ok(());
      match entity {
        case Interface =>
          if value >= helper.interfacesCount {
            helper.interfacesCount := value as int + 1;
          }
        case Str =>
          if value > stringsCount {
            stringsCount := value;
          }
        case Endpoint =>
          helper.epsCount := helper.epsCount + 1;
          if helper.epsCount >= MAX_EPS_COUNT {
            return Err(EINVAL);
          }
          if epsCount == 0 && interfacesCount == 0 {
            addrmap[helper.epsCount] := value;
          } else if addrmap[helper.epsCount] != value {
            return Err(EINVAL);
          }
      }
    }

    ghost function TallyOf(helper: DescHelper): Tally
      reads this, addrmap, helper
    {
      Tally(helper.epsCount, helper.interfacesCount, stringsCount, addrmap[..])
    }

    /** ffs_do_single_desc with __ffs_data_do_entity as its callback; returns bLength. */
    method DoSingleDesc(raw: seq<byte>, pos: nat, helper: DescHelper) returns (r: Outcome<nat>)
      requires pos <= |raw| && addrmap.Length == MAX_EPS_COUNT
      requires helper.epsCount < MAX_EPS_COUNT
      modifies helper, this`stringsCount, addrmap
      ensures var recording := epsCount == 0 && interfacesCount == 0;
        && (r.Ok? <==>
              (DescOk(raw, pos) && EndpointFits(raw, pos, old(helper.epsCount) + 1, recording, old(addrmap[..]))))
        && (r.Ok? ==> r.value == raw[pos] && TallyOf(helper) == AfterDesc(raw, pos, recording, old(TallyOf(helper))))
        && (!r.Ok? ==> r == Err(EINVAL))
      ensures forall d :: Canonical(d) && Holds(raw, pos, d) ==>
                && (!d.EpDesc? ==> (r.Ok? <==> Allowed(d)))
                && (r.Ok? ==>
                      && Allowed(d) && r.value == |Encode(d)|
                      && stringsCount == Max(old(stringsCount), StringField(d))
                      && helper.interfacesCount == Max(old(helper.interfacesCount), InterfaceField(d)))
    {
      FieldsDecide(raw, pos);
      hide Canonical, Holds, Allowed, Encode, StringField, InterfaceField;
      if !DescOk(raw, pos) {
        return Err(EINVAL);
      }
      var result := Ok(());
      if raw[pos + 1] == DT_INTERFACE {
        result := DataDoEntity(Interface, raw[pos + 2], helper);
      } else if raw[pos + 1] == DT_ENDPOINT {
        result := DataDoEntity(Endpoint, raw[pos + 2], helper);
      }
      if !result.Ok? {
        return Err(EINVAL);
      }
      var s := StringAt(raw, pos);
      if s != -1 {
        result := DataDoEntity(Str, raw[s], helper);
      }
      r := Ok(raw[pos]);
    }

    /** One turn of that loop: the num-th descriptor, at pos, is taken up, or the section is refused. */
    method NextDesc(raw: seq<byte>, ghost start: nat, ghost num: nat, ghost count: nat, pos: nat, ghost t0: Tally,
                    helper: DescHelper)
      returns (r: Outcome<nat>)
      requires start <= |raw| && addrmap.Length == MAX_EPS_COUNT && helper.epsCount < MAX_EPS_COUNT
      requires num < count && At(raw, start, num) == pos
      requires TallyIs(raw, start, num, epsCount == 0 && interfacesCount == 0, t0, TallyOf(helper))
      modifies helper, this`stringsCount, addrmap
      ensures var recording := epsCount == 0 && interfacesCount == 0;
        && (!r.Ok? ==> !SectionOk(raw, start, count, recording, t0.addrmap))
        && (r.Ok? ==>
              && At(raw, start, num + 1) == pos + r.value
              && TallyIs(raw, start, num + 1, recording, t0, TallyOf(helper))
              && helper.epsCount < MAX_EPS_COUNT && SectionOk(raw, start, num + 1, recording, t0.addrmap))
    {
      StepDecides(raw, start, num, count, pos, epsCount == 0 && interfacesCount == 0, t0, TallyOf(helper));
      hide At, SectionOk, DescOk, EndpointFits, AfterDesc, TallyIs;
      r := DoSingleDesc(raw, pos, helper);
    }

    /** ffs_do_descs with __ffs_data_do_entity as its callback; returns the bytes consumed. */
    method DoDescs(raw: seq<byte>, start: nat, count: nat, helper: DescHelper) returns (r: Outcome<nat>)
      requires start <= |raw| && addrmap.Length == MAX_EPS_COUNT
      requires helper.epsCount == 0 && helper.interfacesCount == 0
      requires epsCount == 0 && interfacesCount == 0 ==> AddrMapIs(addrmap[..], [])
      modifies helper, this`stringsCount, addrmap
      ensures var recording := epsCount == 0 && interfacesCount == 0;
        && (r.Ok? <==> SectionOk(raw, start, count, recording, old(addrmap[..])))
        && (r.Ok? ==>
              && start + r.value == At(raw, start, count)
              && TallyIs(raw, start, count, recording, old(TallyOf(helper)), TallyOf(helper)))
        && (!r.Ok? ==> r == Err(EINVAL))
    {
      ghost var recording := epsCount == 0 && interfacesCount == 0;
      ghost var t0 := TallyOf(helper);
      var pos, num := start, 0;
      TallyZero(raw, start, recording, t0);
      hide At, SectionOk, TallyIs;
      while num < count
        invariant num <= count && At(raw, start, num) == pos
        invariant TallyIs(raw, start, num, recording, t0, TallyOf(helper))
        invariant helper.epsCount < MAX_EPS_COUNT && SectionOk(raw, start, num, recording, t0.addrmap)
      {
        var length := NextDesc(raw, start, num, count, pos, t0, helper);
        if !length.Ok? {
          return Err(EINVAL);
        }
        pos, num := pos + length.value, num + 1;
      }
      r := Ok(pos - start);
    }

    /** __ffs_data_do_os_desc on the record at g.pos of the feature at h. */
    method DataDoOsDesc(data: array<byte>, hdr: nat, h: nat, pos: nat, ghost g: Found) returns (r: Outcome<nat>)
      requires hdr + pos <= data.Length && h + HEADER_SIZE <= pos == g.pos && data != addrmap
      requires Counted(g)
      modifies data, this`propCount, this`propNameLen, this`propDataLen
      ensures var raw := old(data[hdr..]);
        && (r.Ok? <==> RecordOk(raw, h, pos, interfacesCount))
        && (!r.Ok? ==> r == Err(EINVAL))
        && (r.Ok? ==>
              && pos + r.value == AddRecord(raw, h, g, interfacesCount).pos
              && data[..hdr] == old(data[..hdr])
              && data[hdr..] == Forced(raw, h, g, interfacesCount)
              && Counted(AddRecord(raw, h, g, interfacesCount)))
    {
      hide RecordOk, AddRecord, Forced;
      if IsCompat(data[hdr..], h) {
        r := DataDoCompat(data, hdr, h, pos, g);
      } else {
        r := DataDoProp(data, hdr, h, pos, g);
      }
    }

    /** Its case of a compatibility record, whose reserved byte is forced. */
    method DataDoCompat(data: array<byte>, hdr: nat, h: nat, pos: nat, ghost g: Found) returns (r: Outcome<nat>)
      requires hdr + pos <= data.Length && h + HEADER_SIZE <= pos == g.pos && data != addrmap
      requires Counted(g) && IsCompat(data[hdr..], h)
      modifies data, this`propCount, this`propNameLen, this`propDataLen
      ensures var raw := old(data[hdr..]);
        && (r.Ok? <==> RecordOk(raw, h, pos, interfacesCount))
        && (!r.Ok? ==> r == Err(EINVAL))
        && (r.Ok? ==>
              && pos + r.value == AddRecord(raw, h, g, interfacesCount).pos
              && data[..hdr] == old(data[..hdr])
              && data[hdr..] == Forced(raw, h, g, interfacesCount)
              && Counted(AddRecord(raw, h, g, interfacesCount)))
    {
      hide Le16, Le32, NamesLength, DatasLength;
      var raw := data[hdr..];
      var len := |raw| - pos;
      if len < COMPAT_SIZE || raw[pos] >= interfacesCount {
        return Err(EINVAL);
      }
      if data[hdr + pos + 1] != 1 {
        data[hdr + pos + 1] := 1;
      }
      assert data[hdr..] == raw[pos + 1 := 1];
      assert data[..hdr] == old(data[..hdr]);
      for i := 0 to 6
        invariant forall k :: pos + 18 <= k < pos + 18 + i ==> raw[k] == 0
      {
        if data[hdr + pos + 18 + i] != 0 {
          assert raw[pos + 18 + i] != 0;
          return Err(EINVAL);
        }
      }
      r := Ok(COMPAT_SIZE);
    }

    /** Its case of a property record, which is counted. */
    method DataDoProp(data: array<byte>, hdr: nat, h: nat, pos: nat, ghost g: Found) returns (r: Outcome<nat>)
      requires hdr + pos <= data.Length && h + HEADER_SIZE <= pos == g.pos && data != addrmap
      requires Counted(g) && !IsCompat(data[hdr..], h)
      modifies data, this`propCount, this`propNameLen, this`propDataLen
      ensures var raw := old(data[hdr..]);
        && (r.Ok? <==> RecordOk(raw, h, pos, interfacesCount))
        && (!r.Ok? ==> r == Err(EINVAL))
        && (r.Ok? ==>
              && pos + r.value == AddRecord(raw, h, g, interfacesCount).pos
              && data[..hdr] == old(data[..hdr])
              && data[hdr..] == Forced(raw, h, g, interfacesCount)
              && Counted(AddRecord(raw, h, g, interfacesCount)))
    {
      hide Le16, Le32, NamesLength, DatasLength;
      var raw := data[hdr..];
      var len := |raw| - pos;
      if len < 10 || raw[h] >= interfacesCount {
        return Err(EINVAL);
      }
      var length := Le32(raw, pos) % 0x100;
      if len < length {
        return Err(EINVAL);
      }
      var kind := Le32(raw, pos + 4);
      if kind < PROP_UNICODE || kind > PROP_UNICODE_MULTI {
        return Err(EINVAL);
      }
      var pnl := Le16(raw, pos + 8);
      if length < 14 + pnl {
        return Err(EINVAL);
      }
      var pdl := Le32(raw, pos + 10 + pnl);
      if length != (14 + pnl + pdl) % TWO_TO_THE_32 {
        return Err(EINVAL);
      }
      propCount := propCount + 1;
      propNameLen := propNameLen + pnl * 2;
      propDataLen := propDataLen + pdl;
      r := Ok(length);
      PropRecordIsExact(raw, h, pos, interfacesCount);
      LengthsAppend(g.props, PropAt(raw, h, pos, interfacesCount));
    }

    /** ffs_do_single_os_desc: every record of the feature at h; returns the bytes consumed. */
    method DoSingleOsDesc(data: array<byte>, hdr: nat, h: nat, count: nat, ghost raw: seq<byte>, ghost f: Found)
      returns (r: Outcome<nat>, ghost g: Found)
      requires hdr + f.pos <= data.Length && data != addrmap && h + HEADER_SIZE == f.pos && Counted(f)
      requires RecordsKept(raw, data[hdr..], data[hdr..], h, f, interfacesCount, 0, f)
      modifies data, this`propCount, this`propNameLen, this`propDataLen
      ensures !r.Ok? ==> r == Err(EINVAL) && Records(raw, h, f, interfacesCount, count).None?
      ensures r.Ok? ==>
                && f.pos + r.value == g.pos
                && hdr + g.pos <= data.Length
                && RecordsKept(raw, old(data[hdr..]), data[hdr..], h, f, interfacesCount, count, g)
                && data[..hdr] == old(data[..hdr])
                && Counted(g)
    {
      hide Records, RecordOk, AddRecord, Cleaned, RecordsKept, Counted, Forced, SameOn;
      var pos, left := h + HEADER_SIZE, count;
      g := f;
      ghost var j, base := 0, data[hdr..];
      while left > 0
        invariant j + left == count
        invariant f.pos <= pos == g.pos && hdr + pos <= data.Length
        invariant RecordsKept(raw, base, data[hdr..], h, f, interfacesCount, j, g)
        invariant data[..hdr] == old(data[..hdr])
        invariant Counted(g)
      {
        ghost var cur := data[hdr..];
        RecordsKeptNext(raw, base, cur, h, f, interfacesCount, j, count, g);
        var length := DataDoOsDesc(data, hdr, h, pos, g);
        if !length.Ok? {
          return Err(EINVAL), g;
        }
        g := AddRecord(cur, h, g, interfacesCount);
        pos, left, j := pos + length.value, left - 1, j + 1;
      }
      r := Ok(pos - (h + HEADER_SIZE));
    }

    /** The loop body of ffs_do_os_descs: the header at pos, then its records; returns the bytes consumed. */
    method DoFeature(data: array<byte>, hdr: nat, pos: nat, ghost raw: seq<byte>, ghost start: nat,
                     ghost num: nat, ghost count: nat, ghost g: Found)
      returns (r: Outcome<nat>, ghost g': Found)
      requires hdr + pos <= data.Length && data != addrmap && g.pos == pos && num < count && Counted(g)
      requires FeaturesKept(raw, data[hdr..], start, interfacesCount, num, g)
      modifies data, this`propCount, this`propNameLen, this`propDataLen
      ensures !r.Ok? ==> r == Err(EINVAL) && Features(raw, start, interfacesCount, count).None?
      ensures r.Ok? ==>
                && pos + r.value == g'.pos
                && hdr + g'.pos <= data.Length
                && FeaturesKept(raw, data[hdr..], start, interfacesCount, num + 1, g')
                && data[..hdr] == old(data[..hdr])
                && Counted(g')
    {
      hide Features, FeatureOk, FeaturesKept, RecordsKept, Counted, Records;
      ghost var before := data[hdr..];
      FeatureDecides(raw, before, start, interfacesCount, num, count, g);
      if !FeatureOk(data[hdr..], pos) {
        return Err(EINVAL), g;
      }
      FeatureFits(data[hdr..], pos);
      var featureCount := Le16(data[hdr..], pos + 9);
      CountedElsewhere(g, g.(pos := pos + HEADER_SIZE));
      var length;
      length, g' := DoSingleOsDesc(data, hdr, pos, featureCount, raw, g.(pos := pos + HEADER_SIZE));
      if !length.Ok? {
        return Err(EINVAL), g;
      }
      FeatureLeft(raw, before, data[hdr..], start, interfacesCount, num, g, g');
      r := Ok(HEADER_SIZE + length.value);
    }

    /** ffs_do_os_descs: count whole features from start; returns the bytes consumed. */
    method DoOsDescs(data: array<byte>, hdr: nat, start: nat, count: nat) returns (r: Outcome<nat>, ghost g: Found)
      requires hdr + start <= data.Length && data != addrmap
      requires propCount == propNameLen == propDataLen == 0
      modifies data, this`propCount, this`propNameLen, this`propDataLen
      ensures var raw := old(data[hdr..]);
        && (!r.Ok? ==> r == Err(EINVAL) && Features(raw, start, interfacesCount, count).None?)
        && (r.Ok? ==>
              && start + r.value == g.pos
              && FeaturesKept(raw, data[hdr..], start, interfacesCount, count, g)
              && data[..hdr] == old(data[..hdr])
              && Counted(g))
    {
      ghost var raw := data[hdr..];
      var pos, num := start, 0;
      g := Found(start, [], [], map[]);
      FeaturesZero(raw, start, interfacesCount);
      assert Counted(g);
      hide Features, FeaturesKept, Counted;
      while num < count
        invariant num <= count && start <= pos == g.pos && hdr + pos <= data.Length
        invariant FeaturesKept(raw, data[hdr..], start, interfacesCount, num, g)
        invariant data[..hdr] == old(data[..hdr])
        invariant Counted(g)
      {
        var length;
        length, g := DoFeature(data, hdr, pos, raw, start, num, count, g);
        if !length.Ok? {
          return Err(EINVAL), g;
        }
        pos, num := pos + length.value, num + 1;
      }
      r := Ok(pos - start);
    }

    lemma CountedElsewhere(f: Found, g: Found)
      requires Counted(f) && g.props == f.props
      ensures Counted(g)
    {
    }

    /** One turn of the loop over speeds: walk the section, then compare or record its counts. */
    method ReadSection(raw: seq<byte>, c: Counts, i: nat) returns (r: Outcome<nat>)
      requires i < 3 && addrmap.Length == MAX_EPS_COUNT && Reflects(raw, c, i)
      modifies this`epsCount, this`interfacesCount, this`stringsCount, addrmap
      ensures !r.Ok? ==> r == Err(EINVAL) && !AgreeSoFar(raw, c, i + 1)
      ensures r.Ok? ==> Reflects(raw, c, i + 1) && SecStart(raw, c, i) + r.value == SecStart(raw, c, i + 1)
    {
      hide At, EpAddrs, EpOffs, IntfCount, StrMax;
      DeclaredByAll(raw, c, i);
      AgreeNext(raw, c, i, addrmap[..]);
      if c[i] == 0 {
        SecEmpty(raw, c, i);
        return Ok(0);
      }
      ghost var d, map0 := Declared(raw, c, i), addrmap[..];
      var helper := new DescHelper();
      r := DoDescs(raw, SecStart(raw, c, i), c[i], helper);
      if !r.Ok? {
        return;
      }
      if epsCount == 0 && interfacesCount == 0 {
        epsCount, interfacesCount := helper.epsCount, helper.interfacesCount;
      } else {
        if epsCount != helper.epsCount {
          return Err(EINVAL);
        }
        if interfacesCount != helper.interfacesCount {
          return Err(EINVAL);
        }
        assert SecDecl(raw, c, i).eps == d.eps;
      }
      assert SectionFits(raw, c, i, map0);
    }

    /** The loop over the three speeds; returns the bytes consumed. */
    method ReadSections(raw: seq<byte>, c: Counts) returns (r: Outcome<nat>)
      requires Fresh()
      modifies this`epsCount, this`interfacesCount, this`stringsCount, addrmap
      ensures !r.Ok? ==> r == Err(EINVAL) && !AgreeSoFar(raw, c, 3)
      ensures r.Ok? ==> Reflects(raw, c, 3) && r.value == SecStart(raw, c, 3)
    {
      var pos := 0;
      assert Reflects(raw, c, 0);
      for i := 0 to 3
        invariant pos == SecStart(raw, c, i) && Reflects(raw, c, i)
      {
        var length := ReadSection(raw, c, i);
        if !length.Ok? {
          if AgreeSoFar(raw, c, 3) {
            AgreeStuck(raw, c, i + 1);
          }
          return Err(EINVAL);
        }
        pos := pos + length.value;
      }
      r := Ok(pos);
    }

    /** The header: magic, flags, the optional eventfd, and the four optional counts. */
    method ReadHeader(data: array<byte>, eventfd: int) returns (r: Outcome<Header>)
      requires data.Length >= 16
      modifies this`userFlags
      ensures var d := data[..];
        && (r.Ok? <==> HeaderOk(d) && (Has(FlagsOf(d), EVENTFD) ==> eventfd == 0))
        && (r.Ok? ==> r.value == HeaderOf(d))
        && (!r.Ok? ==> r.Err?)
        && (r == Err(ENOSYS) <==> MagicOk(d) && FlagsOf(d) >= KNOWN_FLAGS)
    {
      hide Le16, Le32, Bit;
      var d := data[..];
      if Le32(d, 4) != data.Length {
        return Err(EINVAL);
      }
      var pos, flags;
      if Le32(d, 0) == DESCRIPTORS_MAGIC {
        pos, flags := 8, HAS_FS_DESC + HAS_HS_DESC;
      } else if Le32(d, 0) == DESCRIPTORS_MAGIC_V2 {
        flags := Le32(d, 8);
        userFlags := flags;
        if flags >= KNOWN_FLAGS {
          return Err(ENOSYS);
        }
        pos := 12;
      } else {
        return Err(EINVAL);
      }
      if Has(flags, EVENTFD) {
        if data.Length - pos < 4 {
          return Err(EINVAL);
        }
        if eventfd != 0 {
          return Err(Other(eventfd));
        }
        pos := pos + 4;
      }
      var counts;
      counts, pos := ReadCounts(d, flags, pos);
      if counts == [] {
        return Err(EINVAL);
      }
      r := Ok(Header(pos, counts[..3], counts[3], flags));
    }

    /** The four optional counts from pos on, or none at all when the buffer ends too early. */
    method ReadCounts(d: seq<byte>, flags: nat, start: nat) returns (counts: seq<nat>, pos: nat)
      requires |d| >= 16 && flags == FlagsOf(d) && start == FixedSize(d) + 4 * WordsBefore(flags, 0) <= |d|
      ensures counts == [] <==> FixedSize(d) + 4 * WordsBefore(flags, 4) > |d|
      ensures counts != [] ==> pos == FixedSize(d) + 4 * WordsBefore(flags, 4) && |counts| == 4
      ensures counts != [] ==> forall j :: 0 <= j < 4 ==> counts[j] == CountOf(d, j)
    {
      hide Le16, Le32, Bit;
      pos, counts := start, [0, 0, 0, 0];
      for i := 0 to 4
        invariant |counts| == 4
        invariant pos == FixedSize(d) + 4 * WordsBefore(flags, i) <= |d|
        invariant forall j :: 0 <= j < i ==> counts[j] == CountOf(d, j)
      {
        if !Has(flags, FLAG_OF_COUNT[i]) {
          counts := counts[i := 0];
        } else if |d| - pos < 4 {
          return [], pos;
        } else {
          counts := counts[i := Le32(d, pos)];
          pos := pos + 4;
        }
      }
    }

    /**
     __ffs_data_got_descs on a fresh ffs_data: it accepts exactly the well-formed
     buffers, and leaves behind what binding needs. Its caller, ffs_ep0_write,
     refuses buffers shorter than 16 bytes; eventfd is what eventfd_ctx_fdget
     returned, 0 for success.
     */
    method GotDescs(data: array<byte>, eventfd: int) returns (r: Outcome<()>)
      requires data.Length >= 16 && data != addrmap && Fresh()
      modifies this, addrmap, data
      ensures r.Ok? <==> Accepts(old(data[..]), eventfd)
      ensures r == Err(ENOSYS) <==> MagicOk(old(data[..])) && FlagsOf(old(data[..])) >= KNOWN_FLAGS
      ensures r.Ok? ==>
                var h := HeaderOf(old(data[..]));
                var raw := old(data[..])[h.size..];
                && Ready()
                && counts == h.counts && osCount == h.osCount
                && rawDescs == Cleaned(raw, OsFound(raw, counts, osCount).value.compats)
                && OsFound(rawDescs, counts, osCount) == OsFound(raw, counts, osCount)
    {
      ghost var d := data[..];
      var header := ReadHeader(data, eventfd);
      if !header.Ok? {
        return Err(header.errno);
      }
      var h := header.value;
      var raw, c := data[h.size..], h.counts;
      assert raw == d[h.size..];
      var sections := ReadSections(raw, c);
      if !sections.Ok? {
        return Err(EINVAL);
      }
      ghost var g;
      r, g := GotRest(data, h, sections.value);
      OsDecides(raw, c, h.osCount, sections.value, interfacesCount);
      if r.Ok? {
        HeaderWords(d);
        CleanedIsReady(raw, sections.value, g);
      }
    }

    /** The last part of __ffs_data_got_descs: the OS descriptors, then nothing may be left. */
    method GotRest(data: array<byte>, h: Header, start: nat) returns (r: Outcome<()>, ghost g: Found)
      requires h.size + start <= data.Length && data != addrmap && |h.counts| == 3
      requires propCount == propNameLen == propDataLen == 0
      modifies data, this`propCount, this`propNameLen, this`propDataLen, this`rawDescs, this`counts, this`osCount
      ensures var raw := old(data[h.size..]);
        && (!r.Ok? ==> r == Err(EINVAL) && !OsEnds(raw, start, interfacesCount, h.osCount))
        && (r.Ok? ==>
              && counts == h.counts && osCount == h.osCount
              && FeaturesKept(raw, rawDescs, start, interfacesCount, osCount, g)
              && 0 < g.pos == |raw|
              && Counted(g))
    {
      ghost var raw := data[h.size..];
      hide Features, FeaturesKept, Counted;
      var length;
      length, g := DoOsDescs(data, h.size, start, h.osCount);
      FeaturesFound(raw, data[h.size..], start, interfacesCount, h.osCount, g);
      if !length.Ok? {
        return Err(EINVAL), g;
      }
      var pos := start + length.value;
      if pos == 0 || pos != data.Length - h.size {
        return Err(EINVAL), g;
      }
      rawDescs, counts, osCount := data[h.size..], h.counts, h.osCount;
      r := Ok(());
    }

    /** What the cleaned copy inherits from the buffer it was made from. */
    lemma CleanedIsReady(raw: seq<byte>, start: nat, g: Found)
      requires Reflects(raw, counts, 3) && start == SecStart(raw, counts, 3) && Counted(g)
      requires FeaturesKept(raw, rawDescs, start, interfacesCount, osCount, g) && 0 < g.pos == |raw|
      requires addrmap.Length == MAX_EPS_COUNT && Words32(raw, counts)
      ensures Ready() && RawOk(raw, counts, osCount)
      ensures rawDescs == Cleaned(raw, OsFound(raw, counts, osCount).value.compats)
      ensures OsFound(rawDescs, counts, osCount) == OsFound(raw, counts, osCount)
    {
      hide At, Features, SecStart, Declared, StringsNeeded, SectionsAgree, Cleaned;
      CleaningKeepsRaw(raw, rawDescs, counts, osCount, start, interfacesCount, g);
    }
  }
}
