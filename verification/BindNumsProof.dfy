/**
 The last pass of _ffs_func_bind, over all descriptors at once: interface numbers
 and string indices are replaced by those of the composite device.
 */
module BindNumsProof {
  import opened Bytes
  import opened DescWalk
  import opened OsDescs
  import opened DescParser
  import opened BindModel
  import opened BindDescsProof

  /** The j-th descriptor of the buffer is some speed's i-th. */
  lemma SpeedOfDesc(b: Binding, j: nat) returns (s: nat, i: nat)
    requires b.Ok() && j < b.Total()
    ensures s < 3 && i < b.counts[s] && j == b.Base(s) + i
  {
    hide Binding.Ok;
    assert b.Base(0) == 0;
    assert b.Base(1) == b.Base(0) + b.counts[0];
    assert b.Base(2) == b.Base(1) + b.counts[1];
    assert b.Base(3) == b.Base(2) + b.counts[2];
    if j < b.Base(1) {
      s, i := 0, j;
    } else if j < b.Base(2) {
      s, i := 1, j - b.Base(1);
    } else {
      s, i := 2, j - b.Base(2);
    }
  }

  ghost function Interfaces(b: Binding): nat
    requires SecStart(b.orig, b.counts, 3) >= 0
  {
    Declared(b.orig, b.counts, 3).interfaces
  }

  /** The interfaces and strings of one speed are within the totals of the whole. */
  lemma SpeedInRange(b: Binding, s: nat, start: nat, count: nat)
    requires b.Ok() && s < 3 && SecStart(b.orig, b.counts, 3) >= 0
    requires start == SecStart(b.orig, b.counts, s) && count == b.counts[s] && At(b.orig, start, count) >= 0
    ensures IntfCount(b.orig, start, count) <= Interfaces(b)
    ensures StrMax(b.orig, start, count) <= StringsNeeded(b.orig, b.counts, 3)
  {
    hide At, EpAddrs, StrMax, EnvOk, OsFound;
    DeclaredByAll(b.orig, b.counts, 3);
    assert StringsNeeded(b.orig, b.counts, s + 1) <= StringsNeeded(b.orig, b.counts, 3);
    if IntfCount(b.orig, start, count) > 0 {
      assert SecDecl(b.orig, b.counts, s) != EMPTY;
    }
  }

  /** Every interface number and string index in the buffer is within the validated totals. */
  lemma NumbersInRange(b: Binding, j: nat, p: nat)
    requires b.Ok() && j < b.Total() && SecStart(b.orig, b.counts, 3) >= 0 && At(b.orig, 0, j) == p
    ensures p <= |b.orig| && DescOk(b.orig, p)
    ensures IsInterface(b.orig, p) ==> b.orig[p + 2] < Interfaces(b)
    ensures StringAt(b.orig, p) != -1 ==> b.orig[StringAt(b.orig, p)] <= StringsNeeded(b.orig, b.counts, 3)
  {
    hide At, DescOk, IsType, StringAt, EpAddrs, IntfCount, StrMax, Interfaces, StringsNeeded, Binding.Ok;
    var s, i := SpeedOfDesc(b, j);
    SectionIsStretch(b, s, i);
    SectionIsStretch(b, s, b.counts[s]);
    var start: nat := SecStart(b.orig, b.counts, s);
    SpeedInRange(b, s, start, b.counts[s]);
    TotalsBound(b.orig, start, b.counts[s], i);
  }

  /** User interface i is numbered by some interface descriptor among the first k. */
  ghost predicate Appears(b: Binding, i: int, k: nat) {
    exists j {:trigger At(b.orig, 0, j)} ::
      0 <= j < k && IsInterface(b.orig, At(b.orig, 0, j)) && b.orig[At(b.orig, 0, j) + 2] == i
  }

  /** Every interface among the first k descriptors gets an id. */
  ghost predicate Numbered(b: Binding, k: nat) {
    forall i {:trigger b.env.ids[i]} :: 0 <= i < |b.env.ids| && Appears(b, i, k) ==> b.env.ids[i] >= 0
  }

  /**
   A descriptor that has been renumbered: its interface number and its string index are the device's,
   every other byte the user's.
   */
  ghost predicate DescRenumbered(b: Binding, before: seq<byte>, raw: seq<byte>, p: int)
  {
    && |raw| == |before| == |b.orig|
    && 0 <= p <= |b.orig|
    && DescOk(b.orig, p)
    && (IsEndpoint(b.orig, p) ==> SameOn(before, raw, p, p + b.orig[p]))
    && (IsInterface(b.orig, p) ==>
          var i := b.orig[p + 2];
          i < |b.env.ids| && 0 <= b.env.ids[i] == raw[p + 2])
    && (StringAt(b.orig, p) != -1 ==>
          var n := b.orig[StringAt(b.orig, p)];
          n <= |b.env.strIds| && raw[StringAt(b.orig, p)] == b.env.strIds[n - 1])
    && (!IsEndpoint(b.orig, p) ==> KeepsRest(b.orig, raw, p))
  }

  /** Apart from the interface number and the string index, the descriptor at p is as in orig. */
  ghost predicate KeepsRest(orig: seq<byte>, raw: seq<byte>, p: nat)
    requires p <= |orig| == |raw| && DescOk(orig, p)
  {
    forall i ::
      p <= i < p + orig[p] && !(IsInterface(orig, p) && i == p + 2) && i != StringAt(orig, p) ==> raw[i] == orig[i]
  }

  /** The descriptor at p, renumbered or not yet touched by this pass. */
  ghost predicate NumDesc(b: Binding, before: seq<byte>, raw: seq<byte>, p: int, done: bool) {
    if done then DescRenumbered(b, before, raw, p)
    else 0 <= p < |b.orig| && SameOn(before, raw, p, p + b.orig[p])
  }

  /** The state of the pass after the first k descriptors; before is the buffer it began with. */
  ghost predicate NumsDone(b: Binding, before: seq<byte>, k: nat, st: NumSt) {
    && SecStart(b.orig, b.counts, 3) >= 0
    && b.Off(b.Total()) >= 0
    && |before| == |b.orig|
    && SameFrame(b.orig, st.raw, 0, b.Total())
    && SameOn(before, st.raw, b.Off(b.Total()), |b.orig|)
    && (forall j {:trigger At(b.orig, 0, j)} :: 0 <= j < b.Total() ==>
          NumDesc(b, before, st.raw, At(b.orig, 0, j), j < k))
    && |st.nums| == Interfaces(b) <= |b.env.ids|
    && (forall i :: 0 <= i < |st.nums| ==> st.nums[i] == if Appears(b, i, k) then b.env.ids[i] else -1)
  }

  /** __ffs_func_bind_do_nums on both numbers of the descriptor at p. */
  function StepBoth(env: Env, st: NumSt, p: nat): (r: Outcome<NumSt>)
    requires p <= |st.raw| && DescOk(st.raw, p)
  {
    match StepIntf(env, st, p)
    case Err(e) => Err(e)
    case Fault => Fault
    case Ok(st1) => StepStr(env, st1, p)
  }

  /** raw' differs from raw only inside the descriptor at p, past its header. */
  ghost predicate OnlyBody(raw: seq<byte>, raw': seq<byte>, p: nat) {
    && |raw'| == |raw|
    && p < |raw|
    && forall i :: 0 <= i < |raw| && !(p + 2 <= i < p + raw[p]) ==> raw'[i] == raw[i]
  }

  /** What the callback does to a descriptor whose bytes are still the user's. */
  lemma StepBothIs(b: Binding, st: NumSt, p: nat)
    requires p <= |b.orig| && DescOk(b.orig, p) && !IsEndpoint(b.orig, p)
    requires SameOn(b.orig, st.raw, p, p + b.orig[p]) && p + 2 <= |st.raw| && st.raw[p] == b.orig[p]
    requires st.raw[p + 1] == b.orig[p + 1]
    requires IsInterface(b.orig, p) ==>
               var i := b.orig[p + 2];
               && i < |st.nums| <= |b.env.ids| && b.env.ids[i] < 0x100
               && (st.nums[i] == b.env.ids[i] || st.nums[i] == -1)
    requires StringAt(b.orig, p) != -1 ==> b.orig[StringAt(b.orig, p)] <= |b.env.strIds|
    ensures DescOk(st.raw, p)
    ensures var r := StepBoth(b.env, st, p);
      && !r.Fault?
      && (r.Err? <==> IsInterface(b.orig, p) && b.env.ids[b.orig[p + 2]] < 0)
      && (r.Ok? ==>
            && OnlyBody(st.raw, r.value.raw, p)
            && DescRenumbered(b, st.raw, r.value.raw, p)
            && r.value.nums == if IsInterface(b.orig, p)
                               then st.nums[b.orig[p + 2] as int := b.env.ids[b.orig[p + 2]]] else st.nums)
  {
    SameReads(b.orig, st.raw, p, p + b.orig[p]);
  }

  /** One descriptor's body has been rewritten; every other descriptor is as it was. */
  lemma BodyRewritten(b: Binding, before: seq<byte>, k: nat, st: NumSt, st1: NumSt, p: nat)
    requires NumsDone(b, before, k, st) && k < b.Total() && b.Off(k) == p
    requires OnlyBody(st.raw, st1.raw, p) && DescRenumbered(b, before, st1.raw, p)
    requires IsEndpoint(b.orig, p) ==> st1.raw == st.raw
    requires |st1.nums| == |st.nums|
    requires forall i :: 0 <= i < |st1.nums| ==> st1.nums[i] == if Appears(b, i, k + 1) then b.env.ids[i] else -1
    ensures NumsDone(b, before, k + 1, st1)
  {
    hide At, DescOk, Appears, NumDesc, KeepsHeader, OnlyBody, DescRenumbered;
    WalkStep(b.orig, 0, k, b.Total());
    BodyInside(b.orig, st.raw, st1.raw, p, b.Off(b.Total()));
    forall j {:trigger At(b.orig, 0, j)} | 0 <= j < b.Total()
      ensures KeepsHeader(b.orig, st1.raw, At(b.orig, 0, j))
      ensures NumDesc(b, before, st1.raw, At(b.orig, 0, j), j < k + 1)
    {
      OneAfterBody(b, before, k, st.raw, st1.raw, p, j);
    }
  }

  /** The rewrite stays before the end of the walk. */
  lemma BodyInside(orig: seq<byte>, raw: seq<byte>, raw1: seq<byte>, p: nat, end: nat)
    requires |raw| == |orig| && KeepsHeader(orig, raw, p) && OnlyBody(raw, raw1, p) && p + orig[p] <= end <= |orig|
    ensures |raw1| == |raw| && raw1[end..] == raw[end..]
  {
  }

  /** The j-th descriptor once the body of the k-th, at p, has been rewritten. */
  lemma OneAfterBody(b: Binding, before: seq<byte>, k: nat, raw: seq<byte>, raw1: seq<byte>, p: nat, j: nat)
    requires j < b.Total() && k < b.Total() && b.Off(b.Total()) >= 0 && b.Off(k) == p
    requires |raw| == |b.orig| && KeepsHeader(b.orig, raw, p) && KeepsHeader(b.orig, raw, b.Off(j))
    requires OnlyBody(raw, raw1, p) && DescRenumbered(b, before, raw1, p) && (IsEndpoint(b.orig, p) ==> raw1 == raw)
    requires NumDesc(b, before, raw, b.Off(j), j < k)
    ensures |raw1| == |b.orig| && KeepsHeader(b.orig, raw1, b.Off(j))
    ensures NumDesc(b, before, raw1, b.Off(j), j < k + 1)
  {
    hide At, LengthFits, DescOk, DescRenumbered;
    WalkStep(b.orig, 0, j, b.Total());
    if j < k {
      WalkStep(b.orig, 0, j, k);
      Elsewhere(b, before, raw, raw1, p, b.Off(j), true);
    } else if k < j {
      WalkStep(b.orig, 0, k, j);
      Elsewhere(b, before, raw, raw1, p, b.Off(j), false);
    } else {
      HeaderHere(b.orig, raw, raw1, p);
    }
  }

  lemma HeaderHere(orig: seq<byte>, raw: seq<byte>, raw1: seq<byte>, p: nat)
    requires |raw| == |orig| && KeepsHeader(orig, raw, p) && OnlyBody(raw, raw1, p)
    requires IsEndpoint(orig, p) ==> raw1 == raw
    ensures KeepsHeader(orig, raw1, p)
  {
  }

  /** A rewrite inside the descriptor at p does not reach the descriptor at q. */
  lemma Elsewhere(b: Binding, before: seq<byte>, raw: seq<byte>, raw1: seq<byte>, p: nat, q: nat, earlier: bool)
    requires |raw| == |b.orig| && KeepsHeader(b.orig, raw, q) && OnlyBody(raw, raw1, p) && raw[p] == b.orig[p]
    requires NumDesc(b, before, raw, q, earlier)
    requires if earlier then q + b.orig[q] <= p else p + b.orig[p] <= q
    ensures KeepsHeader(b.orig, raw1, q) && NumDesc(b, before, raw1, q, earlier)
  {
    hide LengthFits;
    if b.orig[q + 1] == DT_ENDPOINT {
      assert IsEndpoint(b.orig, q);
    }
  }

  lemma AppearsNext(b: Binding, k: nat, p: nat)
    requires At(b.orig, 0, k) == p
    ensures forall i :: Appears(b, i, k + 1) <==> Appears(b, i, k) || (IsInterface(b.orig, p) && b.orig[p + 2] == i)
  {
    hide At, IsType;
    forall i
      ensures Appears(b, i, k + 1) <==> Appears(b, i, k) || (IsInterface(b.orig, p) && b.orig[p + 2] == i)
    {
      AppearsOnce(b, i, k, p);
    }
  }

  lemma AppearsOnce(b: Binding, i: int, k: nat, p: nat)
    requires At(b.orig, 0, k) == p
    ensures Appears(b, i, k + 1) <==> Appears(b, i, k) || (IsInterface(b.orig, p) && b.orig[p + 2] == i)
  {
    hide At, IsType, IsInterface;
    if Appears(b, i, k) {
      var j :| 0 <= j < k && IsInterface(b.orig, At(b.orig, 0, j)) && b.orig[At(b.orig, 0, j) + 2] == i;
      assert 0 <= j < k + 1;
    }
    if IsInterface(b.orig, p) && b.orig[p + 2] == i {
      assert 0 <= k < k + 1 && IsInterface(b.orig, At(b.orig, 0, k)) && b.orig[At(b.orig, 0, k) + 2] == i;
    }
  }

  /** The numbers table before any interface has been met: memset to 0xff. */
  function NoNums(interfaces: nat): seq<int> { seq(interfaces, i => -1) }

  lemma NumsBegin(b: Binding, before: seq<byte>)
    requires b.Ok() && Rewritten(b.orig, before, b.Job(), b.Total())
    ensures SecStart(b.orig, b.counts, 3) >= 0
    ensures NumsDone(b, before, 0, NumSt(before, NoNums(Interfaces(b))))
    ensures Numbered(b, 0) && b.Off(0) == 0
  {
    hide DescOk, SectionsAgree, OsFound;
    forall j {:trigger At(b.orig, 0, j)} | 0 <= j < b.Total()
      ensures NumDesc(b, before, before, At(b.orig, 0, j), false)
    {
      assert KeepsHeader(b.orig, before, At(b.orig, 0, j));
      WalkStep(b.orig, 0, j, b.Total());
    }
  }

  /** One descriptor of the pass. */
  lemma NumsStep(b: Binding, before: seq<byte>, k: nat, st: NumSt, p: nat)
    requires b.Ok() && Rewritten(b.orig, before, b.Job(), b.Total())
    requires NumsDone(b, before, k, st) && k < b.Total() && b.Off(k) == p && Numbered(b, k)
    ensures p <= |st.raw| && DescOk(st.raw, p) && b.Off(k + 1) == p + st.raw[p]
    ensures var r := StepBoth(b.env, st, p);
      && !r.Fault?
      && (r.Err? <==> !Numbered(b, k + 1))
      && (r.Ok? ==> NumsDone(b, before, k + 1, r.value))
  {
    hide At, LengthFits, StringAt, Appears, RawOk, NumDesc, DescRenumbered, StepIntf, StepStr;
    WalkStep(b.orig, 0, k, b.Total());
    NumbersInRange(b, k, p);
    AppearsNext(b, k, p);
    var q := At(b.orig, 0, k);
    assert KeepsHeader(b.orig, st.raw, q);
    FrameKept(b.orig, st.raw, q);
    assert NumDesc(b, before, st.raw, q, false);
    assert DescAfter(b.orig, before, q, b.Job(), true, k < b.Lead());
    if IsEndpoint(b.orig, p) {
      EndpointUnnumbered(b, before, st, p);
      BodyRewritten(b, before, k, st, st, p);
    } else {
      StillTheUsers(b, before, st.raw, p, k < b.Lead());
      StepBothIs(b, st, p);
      var r := StepBoth(b.env, st, p);
      if r.Ok? {
        RenumberedAnyhow(b, st.raw, before, r.value.raw, p);
        BodyRewritten(b, before, k, st, r.value, p);
      }
    }
  }

  lemma EndpointUnnumbered(b: Binding, before: seq<byte>, st: NumSt, p: nat)
    requires IsEndpoint(b.orig, p) && |st.raw| == |before| == |b.orig| && KeepsHeader(b.orig, st.raw, p)
    requires NumDesc(b, before, st.raw, p, false)
    ensures DescOk(st.raw, p) && StepBoth(b.env, st, p) == Ok(st)
    ensures DescRenumbered(b, before, st.raw, p) && OnlyBody(st.raw, st.raw, p)
  {
  }

  lemma StillTheUsers(b: Binding, before: seq<byte>, raw: seq<byte>, p: nat, first: bool)
    requires |before| == |b.orig| && NumDesc(b, before, raw, p, false) && DescOk(b.orig, p)
    requires !IsEndpoint(b.orig, p) && DescAfter(b.orig, before, p, b.Job(), true, first)
    ensures SameOn(b.orig, raw, p, p + b.orig[p])
  {
  }

  lemma RenumberedAnyhow(b: Binding, raw0: seq<byte>, raw1: seq<byte>, raw: seq<byte>, p: nat)
    requires |raw0| == |raw1| == |b.orig| && !IsEndpoint(b.orig, p) && DescRenumbered(b, raw0, raw, p)
    ensures DescRenumbered(b, raw1, raw, p)
  {
  }

  /**
   The pass over the first k descriptors never faults; it fails exactly when some
   interface among them gets no id, and otherwise stops where validation stopped.
   */
  lemma {:induction false} NumsPass(b: Binding, before: seq<byte>, k: nat)
    requires b.Ok() && Rewritten(b.orig, before, b.Job(), b.Total()) && k <= b.Total()
    ensures SecStart(b.orig, b.counts, 3) >= 0
    ensures var r := RunNums(b.env, NumSt(before, NoNums(Interfaces(b))), k);
      && !r.Fault?
      && (r.Err? <==> !Numbered(b, k))
      && (r.Ok? ==> r.value.pos == b.Off(k) && NumsDone(b, before, k, r.value.st))
  {
    hide At, DescOk, Rewritten, NumsDone, Binding.Ok, Interfaces, Appears, StepIntf, StepStr;
    NumsBegin(b, before);
    if k > 0 {
      NumsPass(b, before, k - 1);
      assert k - 1 + 1 == k;
      var r := RunNums(b.env, NumSt(before, NoNums(Interfaces(b))), k - 1);
      if r.Ok? {
        NumsStep(b, before, k - 1, r.value.st, r.value.pos);
      } else {
        NumberedLess(b, k - 1);
      }
    }
  }

  lemma NumberedLess(b: Binding, k: nat)
    requires !Numbered(b, k)
    ensures !Numbered(b, k + 1)
  {
    var i :| 0 <= i < |b.env.ids| && Appears(b, i, k) && b.env.ids[i] < 0;
    var j :| 0 <= j < k && IsInterface(b.orig, At(b.orig, 0, j)) && b.orig[At(b.orig, 0, j) + 2] == i;
    assert 0 <= j < k + 1;
    assert Appears(b, i, k + 1);
  }
}
