/**
 The per-speed passes of _ffs_func_bind over a validated buffer: they visit
 exactly the offsets validation visited, they fail exactly when stated, and
 afterwards every endpoint descriptor carries the address assigned to its endpoint.
 */
module BindDescsProof {
  import opened Bytes
  import opened DescWalk
  import opened OsDescs
  import opened DescParser
  import opened BindModel

  /** What an endpoint is to get: its address, and the packet size the gadget has given it. */
  datatype NewEp = NewEp(address: byte, size0: byte, size1: byte)

  /** The address is the hardware's, or the user's own when addresses are virtual. */
  ghost function Assigned(env: Env, eps: seq<byte>): (r: seq<NewEp>)
    ensures |r| == |eps|
  {
    seq(|eps|, k requires 0 <= k < |eps| =>
      if k < |env.auto| && env.auto[k].Granted?
      then NewEp(if env.virtual then eps[k] else env.auto[k].address, env.auto[k].size0, env.auto[k].size1)
      else NewEp(eps[k], 0, 0))
  }

  /**
   What the passes are to do: to which endpoints, over how many descriptors, and where the first
   speed with endpoints ends.
   */
  datatype Plan = Plan(addrmap: seq<byte>, news: seq<NewEp>, total: nat, lead: nat)

  /**
   A validated buffer about to be bound: what GotDescs established, the gadget's
   answers, the user's endpoint addresses, what the endpoints are to get, and the
   reverse map earlier binds of the function have left.
   */
  datatype Binding = Binding(orig: seq<byte>, counts: Counts, osCount: nat, addrmap: seq<byte>, env: Env,
                             eps: seq<byte>, news: seq<NewEp>, was: NumberMap) {

    /** The tables the passes start from. */
    ghost function Begin(): (r: BindSt)
      ensures StOk(r)
    {
      StartOf(orig, |eps|, was)
    }

    ghost predicate Ok() {
      && RawOk(orig, counts, osCount)
      && Words32(orig, counts)
      && eps == Declared(orig, counts, 3).eps
      && news == Assigned(env, eps)
      && AddrMapIs(addrmap, eps)
      && EnvOk(env, |eps|, Declared(orig, counts, 3).interfaces, StringsNeeded(orig, counts, 3))
    }

    /** Number of descriptors before the s-th speed's. */
    ghost function Base(s: nat): nat
      requires s <= 3
    {
      if s == 0 then 0 else Base(s - 1) + counts[s - 1]
    }

    ghost function Total(): nat { Base(3) }

    /** Offset of the j-th descriptor of the whole buffer. */
    ghost function Off(j: nat): int { At(orig, 0, j) }

    /** Does the s-th speed describe endpoints? */
    ghost predicate HasEps(s: nat)
      requires s < 3 && SecStart(orig, counts, s + 1) >= 0
    {
      counts[s] > 0 && SecDecl(orig, counts, s).eps != []
    }

    /** Number of descriptors up to the end of the first speed that describes endpoints. */
    ghost function Lead(): nat {
      if SecStart(orig, counts, 3) < 0 then 0
      else if HasEps(0) then Base(1)
      else if HasEps(1) then Base(2)
      else Base(3)
    }

    ghost function Job(): Plan { Plan(addrmap, news, Total(), Lead()) }
  }

  lemma {:induction false} SecStartIsOff(b: Binding, t: nat)
    requires t <= 3 && SecStart(b.orig, b.counts, t) >= 0
    ensures SecStart(b.orig, b.counts, t) == b.Off(b.Base(t))
  {
    hide DescOk;
    if t > 0 {
      SecStartIsOff(b, t - 1);
      WalkAppend(b.orig, 0, b.Base(t - 1), b.counts[t - 1]);
    }
  }

  /** The s-th speed's walk is a stretch of the walk over the whole buffer. */
  lemma SectionIsStretch(b: Binding, s: nat, i: nat)
    requires s < 3 && SecStart(b.orig, b.counts, 3) >= 0 && i <= b.counts[s]
    ensures At(b.orig, SecStart(b.orig, b.counts, s), i) == b.Off(b.Base(s) + i) >= 0
    ensures b.Base(s) + i <= b.Total()
    ensures b.Off(b.Total()) == SecStart(b.orig, b.counts, 3)
  {
    hide At, Binding.Base;
    var start: nat := SecStart(b.orig, b.counts, s);
    SectionReached(b, s);
    SecStartIsOff(b, s);
    SecStartIsOff(b, 3);
    WalkAppend(b.orig, 0, b.Base(s), i);
    WalkPrefix(b.orig, start, i, b.counts[s]);
  }

  lemma SectionReached(b: Binding, s: nat)
    requires s < 3 && SecStart(b.orig, b.counts, 3) >= 0
    ensures SecStart(b.orig, b.counts, s) >= 0
    ensures At(b.orig, SecStart(b.orig, b.counts, s), b.counts[s]) == SecStart(b.orig, b.counts, s + 1) >= 0
    ensures b.Base(s) + b.counts[s] <= b.Total()
  {
    hide At;
    assert b.Base(1) == b.Base(0) + b.counts[0];
    assert b.Base(2) == b.Base(1) + b.counts[1];
    assert b.Base(3) == b.Base(2) + b.counts[2];
  }

  /** A speed declares every endpoint address in order, or no endpoint at all. */
  lemma SectionDeclares(b: Binding, s: nat)
    requires b.Ok() && s < 3 && SecStart(b.orig, b.counts, s + 1) >= 0 && b.HasEps(s)
    ensures SecStart(b.orig, b.counts, s) >= 0 && SecStart(b.orig, b.counts, s + 1) >= 0
    ensures EpAddrs(b.orig, SecStart(b.orig, b.counts, s), b.counts[s]) == b.eps
  {
    hide At, EpAddrs, IntfCount, EnvOk;
    DeclaredByAll(b.orig, b.counts, 3);
  }

  /** What the endpoint with user address a is to get. */
  ghost function NewOf(plan: Plan, a: byte): NewEp {
    if |plan.addrmap| == MAX_EPS_COUNT && 1 <= AddrIndex(plan.addrmap, a, 1) <= |plan.news|
    then plan.news[AddrIndex(plan.addrmap, a, 1) - 1] else NewEp(a, 0, 0)
  }

  /**
   The endpoint descriptor at p once it has been rewritten: its address; its packet
   size, the gadget's in the first speed with endpoints and where the user left it 0;
   and every other byte as it was.
   */
  ghost predicate EndpointAfter(orig: seq<byte>, raw: seq<byte>, p: nat, n: NewEp, first: bool) {
    && p + 7 <= |raw| == |orig| && p + orig[p] <= |orig|
    && raw[p + 2] == n.address
    && (if first || (orig[p + 4] == 0 && orig[p + 5] == 0) then raw[p + 4] == n.size0 && raw[p + 5] == n.size1
        else raw[p + 4] == orig[p + 4] && raw[p + 5] == orig[p + 5])
    && forall i :: p <= i < p + orig[p] && i != p + 2 && i != p + 4 && i != p + 5 ==> raw[i] == orig[i]
  }

  /** The descriptor at p after the passes have, or have not yet, come to it. */
  ghost predicate DescAfter(orig: seq<byte>, raw: seq<byte>, p: int, plan: Plan, done: bool, first: bool)
    requires |raw| == |orig|
  {
    && 0 <= p <= |orig|
    && DescOk(orig, p)
    && if IsEndpoint(orig, p) && done then EndpointAfter(orig, raw, p, NewOf(plan, orig[p + 2]), first)
       else SameOn(orig, raw, p, p + orig[p])
  }

  /** The first v descriptors have been rewritten; nothing but endpoint bodies has changed. */
  ghost predicate Rewritten(orig: seq<byte>, raw: seq<byte>, plan: Plan, v: nat)
  {
    && At(orig, 0, plan.total) >= 0
    && SameFrame(orig, raw, 0, plan.total)
    && SameOn(orig, raw, At(orig, 0, plan.total), |orig|)
    && forall j {:trigger At(orig, 0, j)} :: 0 <= j < plan.total ==>
         DescAfter(orig, raw, At(orig, 0, j), plan, j < v, j < plan.lead)
  }

  lemma {:induction false} RewrittenAtFirst(orig: seq<byte>, plan: Plan)
    requires At(orig, 0, plan.total) >= 0
    ensures Rewritten(orig, orig, plan, 0)
  {
    forall j {:trigger At(orig, 0, j)} | 0 <= j < plan.total
      ensures KeepsHeader(orig, orig, At(orig, 0, j))
      ensures DescAfter(orig, orig, At(orig, 0, j), plan, false, j < plan.lead)
    {
      WalkStep(orig, 0, j, plan.total);
    }
  }

  /** raw' differs from raw only in the address and packet-size bytes of the endpoint at p. */
  ghost predicate OnlyEndpoint(raw: seq<byte>, raw': seq<byte>, p: nat) {
    && |raw'| == |raw|
    && forall i :: 0 <= i < |raw| && i != p + 2 && i != p + 4 && i != p + 5 ==> raw'[i] == raw[i]
  }

  lemma RewriteOne(orig: seq<byte>, raw: seq<byte>, raw': seq<byte>, plan: Plan, v: nat, p: nat)
    requires At(orig, 0, plan.total) >= 0 && v < plan.total && At(orig, 0, v) == p
    requires Rewritten(orig, raw, plan, v)
    requires IsEndpoint(orig, p) && OnlyEndpoint(raw, raw', p)
    requires EndpointAfter(orig, raw', p, NewOf(plan, orig[p + 2]), v < plan.lead)
    requires raw'[p + 2] % ENDPOINT_NUMBERS != 0
    ensures Rewritten(orig, raw', plan, v + 1)
  {
    hide At, LengthFits, NewOf, KeepsHeader, DescAfter, EndpointAfter, IsType, DescOk;
    WalkStep(orig, 0, v, plan.total);
    EndpointLength(orig, p);
    forall j {:trigger At(orig, 0, j)} | 0 <= j < plan.total
      ensures KeepsHeader(orig, raw', At(orig, 0, j))
      ensures DescAfter(orig, raw', At(orig, 0, j), plan, j < v + 1, j < plan.lead)
    {
      assert KeepsHeader(orig, raw, At(orig, 0, j));
      assert DescAfter(orig, raw, At(orig, 0, j), plan, j < v, j < plan.lead);
      WalkStep(orig, 0, j, plan.total);
      if j < v {
        WalkStep(orig, 0, j, v);
        NotReached(orig, raw, raw', plan, p, At(orig, 0, j), true, j < plan.lead);
      } else if v < j {
        WalkStep(orig, 0, v, j);
        NotReached(orig, raw, raw', plan, p, At(orig, 0, j), false, j < plan.lead);
      } else {
        RewrittenHere(orig, raw, raw', plan, p, v < plan.lead);
      }
    }
  }

  lemma EndpointLength(orig: seq<byte>, p: nat)
    requires IsEndpoint(orig, p)
    ensures orig[p] >= 7 && DescOk(orig, p) && p + orig[p] <= |orig|
  {
  }

  /** The descriptor at q lies before or behind the endpoint at p, so rewriting that one does not reach it. */
  lemma NotReached(orig: seq<byte>, raw: seq<byte>, raw': seq<byte>, plan: Plan, p: nat, q: nat, done: bool,
                   first: bool)
    requires |raw| == |orig| && p < |orig| && orig[p] >= 7 && OnlyEndpoint(raw, raw', p)
    requires KeepsHeader(orig, raw, q) && DescAfter(orig, raw, q, plan, done, first)
    requires if done then q + orig[q] <= p else p + orig[p] <= q
    ensures KeepsHeader(orig, raw', q) && DescAfter(orig, raw', q, plan, done, first)
  {
    hide NewOf;
  }

  lemma RewrittenHere(orig: seq<byte>, raw: seq<byte>, raw': seq<byte>, plan: Plan, p: nat, first: bool)
    requires |raw| == |orig| && IsEndpoint(orig, p) && OnlyEndpoint(raw, raw', p) && KeepsHeader(orig, raw, p)
    requires EndpointAfter(orig, raw', p, NewOf(plan, orig[p + 2]), first) && raw'[p + 2] % ENDPOINT_NUMBERS != 0
    ensures KeepsHeader(orig, raw', p) && DescAfter(orig, raw', p, plan, true, first)
  {
    hide NewOf, EndpointAfter;
  }

  lemma SkipOne(orig: seq<byte>, raw: seq<byte>, plan: Plan, v: nat)
    requires At(orig, 0, plan.total) >= 0 && v < plan.total
    requires Rewritten(orig, raw, plan, v)
    requires !IsEndpoint(orig, At(orig, 0, v))
    ensures Rewritten(orig, raw, plan, v + 1)
  {
    hide At, DescOk, NewOf, EndpointAfter;
    WalkStep(orig, 0, v, plan.total);
    forall j {:trigger At(orig, 0, j)} | 0 <= j < plan.total
      ensures DescAfter(orig, raw, At(orig, 0, j), plan, j < v + 1, j < plan.lead)
    {
      assert DescAfter(orig, raw, At(orig, 0, j), plan, j < v, j < plan.lead);
    }
  }

  /** The first n user addresses are pairwise different. */
  ghost predicate DistinctUpTo(eps: seq<byte>, n: nat)
    requires n <= |eps|
  {
    forall i, j :: 0 <= i < j < n ==> eps[i] != eps[j]
  }

  /** The gadget grants an endpoint each of the first n times it is asked. */
  ghost predicate GrantedUpTo(env: Env, n: nat)
    requires n <= |env.auto|
  {
    forall i :: 0 <= i < n ==> env.auto[i].Granted?
  }

  /** eps_revmap after the first n grants of a bind that found it as was. */
  ghost function RevMap(was: NumberMap, env: Env, n: nat): (r: NumberMap)
    requires n <= |env.auto|
  {
    if n == 0 then was
    else if !env.auto[n - 1].Granted? then RevMap(was, env, n - 1)
    else RevMap(was, env, n - 1)[(env.auto[n - 1].address % ENDPOINT_NUMBERS) as int := n]
  }

  /** Searching the map for the e-th address finds the first endpoint that has it. */
  lemma AddrIndexIs(addrmap: seq<byte>, eps: seq<byte>, e: nat)
    requires AddrMapIs(addrmap, eps) && e < |eps|
    ensures 1 <= AddrIndex(addrmap, eps[e], 1) <= e + 1
    ensures eps[AddrIndex(addrmap, eps[e], 1) - 1] == eps[e]
    ensures AddrIndex(addrmap, eps[e], 1) == e + 1 <==> forall i :: 0 <= i < e ==> eps[i] != eps[e]
  {
    var r := AddrIndex(addrmap, eps[e], 1);
    assert addrmap[e + 1] == eps[e];
    if r != e + 1 {
      assert addrmap[r] == eps[r - 1];
    }
    forall i | 0 <= i < e && r == e + 1
      ensures eps[i] != eps[e]
    {
      assert addrmap[i + 1] == eps[i];
    }
  }

  /** The hardware endpoint of each of the first n endpoints, none for the rest. */
  ghost predicate EpsGranted(env: Env, eps: seq<FfsEp>, n: nat)
    requires n <= |eps| <= |env.auto|
  {
    forall k :: 0 <= k < |eps| ==>
      eps[k].ep == if k < n && env.auto[k].Granted?
                   then Some((env.auto[k].address % ENDPOINT_NUMBERS) as nat) else None
  }

  /** The s-th speed's descriptor slots: filled for the endpoints listed in offs, empty for the rest. */
  ghost predicate Slots(eps: seq<FfsEp>, s: nat, offs: seq<nat>)
    requires s < 3 && forall e :: e in eps ==> |e.descs| == 3
  {
    && |offs| <= |eps|
    && forall k :: 0 <= k < |eps| ==> eps[k].descs[s] == if k < |offs| then Some(offs[k]) else None
  }

  /** What holds of the state st after i descriptors of the s-th speed's pass, which began in st0. */
  ghost predicate PassAt(b: Binding, s: nat, start: nat, i: nat, st0: BindSt, st: BindSt)
  {
    && s < 3
    && StOk(st0)
    && StOk(st)
    && start <= |b.orig|
    && At(b.orig, start, i) >= 0
    && |st.eps| == |st0.eps| == |b.eps|
    && Rewritten(b.orig, st.raw, b.Job(), b.Base(s) + i)
    && Slots(st.eps, s, EpOffs(b.orig, start, i))
    && forall k, t :: 0 <= k < |st.eps| && 0 <= t < 3 && t != s ==> st.eps[k].descs[t] == st0.eps[k].descs[t]
  }

  /** The first n endpoints have been configured, and only those. */
  ghost predicate Allocated(b: Binding, st: BindSt, n: nat)
  {
    && n <= |b.eps| == |st.eps| <= |b.env.auto|
    && EpsGranted(b.env, st.eps, n)
    && st.used == n
    && st.revmap == RevMap(b.was, b.env, n)
    && DistinctUpTo(b.eps, n)
    && GrantedUpTo(b.env, n)
  }

  /** The pass over the s-th speed, which starts at start, is at its i-th descriptor, at offset p. */
  ghost predicate Here(b: Binding, s: nat, start: nat, i: nat, p: nat) {
    && b.Ok()
    && AddrMapIs(b.addrmap, b.eps)
    && s < 3
    && i < b.counts[s]
    && SecStart(b.orig, b.counts, s) == start
    && SecStart(b.orig, b.counts, s + 1) >= 0
    && At(b.orig, start, i) == p
    && b.Off(b.Base(s) + i) == p
    && b.Base(s) + i < b.Total()
    && b.Off(b.Total()) >= 0
  }

  /** The e-th endpoint of a speed is the one whose address comes e-th in the declaration. */
  lemma EndpointInOrder(b: Binding, s: nat, start: nat, i: nat, p: nat)
    requires Here(b, s, start, i, p)
    ensures DescOk(b.orig, p) && At(b.orig, start, i + 1) == p + b.orig[p] >= 0
    ensures EpOffs(b.orig, start, i + 1) ==
            if IsEndpoint(b.orig, p) then EpOffs(b.orig, start, i) + [p] else EpOffs(b.orig, start, i)
    ensures IsEndpoint(b.orig, p) ==>
              var e := |EpOffs(b.orig, start, i)|;
              b.HasEps(s) && e < |b.eps| && b.orig[p + 2] == b.eps[e]
  {
    assert SecStart(b.orig, b.counts, s + 1) == At(b.orig, start, b.counts[s]);
    hide At, DescOk, IsType, EpOffs, EpAddrs, IntfCount, Binding.Ok;
    EndpointListed(b.orig, start, i, b.counts[s], p);
    if IsEndpoint(b.orig, p) {
      assert b.HasEps(s);
      SectionDeclares(b, s);
    }
  }

  /** A rewritten descriptor still passes the checks, with the length it had. */
  lemma FrameKept(orig: seq<byte>, raw: seq<byte>, p: int)
    requires |raw| == |orig| && KeepsHeader(orig, raw, p)
    ensures DescOk(raw, p) && raw[p] == orig[p]
  {
  }

  lemma HereAt(b: Binding, s: nat, start: nat, i: nat, p: nat)
    requires Here(b, s, start, i, p)
    ensures start <= |b.orig| && s < 3 && i < b.counts[s] && At(b.orig, start, i) == p
    ensures At(b.orig, 0, b.Base(s) + i) == p && b.Base(s) + i < b.Total() && At(b.orig, 0, b.Total()) >= 0
    ensures b.Ok() && AddrMapIs(b.addrmap, b.eps) && |b.addrmap| == MAX_EPS_COUNT
    ensures b.Job().total == b.Total() && b.Job().lead == b.Lead()
  {
    hide At, SecStart, Binding.Ok, Binding.Base, Binding.Lead;
  }

  lemma PassIs(b: Binding, s: nat, start: nat, i: nat, st0: BindSt, st: BindSt)
    requires PassAt(b, s, start, i, st0, st)
    ensures Rewritten(b.orig, st.raw, b.Job(), b.Base(s) + i)
    ensures StOk(st0) && StOk(st) && |st.eps| == |st0.eps| == |b.eps| && Slots(st.eps, s, EpOffs(b.orig, start, i))
  {
    hide At, EpOffs, Rewritten, Slots, Binding.Base;
  }

  /** The pass at the next descriptor, when this one was no endpoint. */
  lemma PassKeeps(b: Binding, s: nat, start: nat, i: nat, st0: BindSt, st: BindSt)
    requires PassAt(b, s, start, i, st0, st) && At(b.orig, start, i + 1) >= 0
    requires EpOffs(b.orig, start, i + 1) == EpOffs(b.orig, start, i)
    requires Rewritten(b.orig, st.raw, b.Job(), b.Base(s) + i + 1)
    ensures PassAt(b, s, start, i + 1, st0, st)
  {
    hide At, EpOffs, Rewritten, Slots, Binding.Base;
    assert b.Base(s) + i + 1 == b.Base(s) + (i + 1);
  }

  /** The descriptor the passes come to next is as the user wrote it, in a frame that still holds. */
  lemma NextInRaw(orig: seq<byte>, raw: seq<byte>, plan: Plan, v: nat, p: nat)
    requires Rewritten(orig, raw, plan, v) && v < plan.total && At(orig, 0, v) == p
    ensures |raw| == |orig| && KeepsHeader(orig, raw, p) && DescAfter(orig, raw, p, plan, false, v < plan.lead)
    ensures DescOk(raw, p) && raw[p] == orig[p]
  {
    hide At, LengthFits;
    assert KeepsHeader(orig, raw, At(orig, 0, v));
    assert DescAfter(orig, raw, At(orig, 0, v), plan, false, v < plan.lead);
    FrameKept(orig, raw, p);
  }

  /** A descriptor that is not an endpoint is left alone. */
  lemma StepSkips(b: Binding, s: nat, start: nat, i: nat, p: nat, st0: BindSt, st: BindSt)
    requires Here(b, s, start, i, p) && PassAt(b, s, start, i, st0, st)
    requires !IsEndpoint(b.orig, p)
    ensures StepDesc(b.env, b.addrmap, s, st, p) == Ok(st)
    ensures At(b.orig, start, i + 1) >= 0 && PassAt(b, s, start, i + 1, st0, st)
    ensures p <= |st.raw| && DescOk(st.raw, p) && p + st.raw[p] == At(b.orig, start, i + 1)
  {
    hide *;
    HereAt(b, s, start, i, p);
    PassIs(b, s, start, i, st0, st);
    EndpointInOrder(b, s, start, i, p);
    NextInRaw(b.orig, st.raw, b.Job(), b.Base(s) + i, p);
    StepIgnores(b, s, p, st);
    SkipOne(b.orig, st.raw, b.Job(), b.Base(s) + i);
    PassKeeps(b, s, start, i, st0, st);
  }

  lemma StepIgnores(b: Binding, s: nat, p: nat, st: BindSt)
    requires |b.addrmap| == MAX_EPS_COUNT && s < 3 && StOk(st) && |st.raw| == |b.orig|
    requires p <= |b.orig| && KeepsHeader(b.orig, st.raw, p) && !IsEndpoint(b.orig, p)
    ensures StepDesc(b.env, b.addrmap, s, st, p) == Ok(st)
  {
  }

  /** No earlier endpoint has the address of endpoint e. */
  ghost predicate FirstOfIts(eps: seq<byte>, e: nat)
    requires e < |eps|
  {
    forall x :: 0 <= x < e ==> eps[x] != eps[e]
  }

  /** Before its turn, an endpoint descriptor still holds the user's address. */
  lemma EndpointAsWritten(b: Binding, s: nat, start: nat, i: nat, p: nat, st0: BindSt, st: BindSt)
    requires Here(b, s, start, i, p) && PassAt(b, s, start, i, st0, st)
    requires IsEndpoint(b.orig, p)
    ensures b.HasEps(s)
    ensures var e := |EpOffs(b.orig, start, i)|;
      && e < |b.eps|
      && p + 7 <= |st.raw| == |b.orig|
      && st.raw[p + 1] == DT_ENDPOINT
      && SameOn(b.orig, st.raw, p, p + b.orig[p])
      && st.raw[p + 2] == b.orig[p + 2] == b.eps[e]
      && b.orig[p + 2] % ENDPOINT_NUMBERS != 0
  {
    hide *;
    HereAt(b, s, start, i, p);
    PassIs(b, s, start, i, st0, st);
    EndpointInOrder(b, s, start, i, p);
    UserBytes(b.orig, st.raw, b.Job(), b.Base(s) + i, p);
  }

  /** And its slot, the first with that address, is empty unless an earlier endpoint has it. */
  lemma EndpointSlot(b: Binding, s: nat, start: nat, i: nat, p: nat, st0: BindSt, st: BindSt)
    requires Here(b, s, start, i, p) && PassAt(b, s, start, i, st0, st) && |EpOffs(b.orig, start, i)| < |b.eps|
    ensures |b.addrmap| == MAX_EPS_COUNT && |st.eps| == |b.eps| && s < 3 && StOk(st)
    ensures var e := |EpOffs(b.orig, start, i)|; var idx := AddrIndex(b.addrmap, b.eps[e], 1);
      && 1 <= idx <= e + 1
      && (idx == e + 1 <==> FirstOfIts(b.eps, e))
      && (st.eps[idx - 1].descs[s].None? <==> idx == e + 1)
  {
    hide *;
    HereAt(b, s, start, i, p);
    PassIs(b, s, start, i, st0, st);
    SlotOf(b.addrmap, b.eps, st, s, EpOffs(b.orig, start, i));
  }

  lemma UserBytes(orig: seq<byte>, raw: seq<byte>, plan: Plan, v: nat, p: nat)
    requires Rewritten(orig, raw, plan, v) && v < plan.total && At(orig, 0, v) == p && IsEndpoint(orig, p)
    ensures p + 7 <= |raw| == |orig|
    ensures raw[p + 1] == DT_ENDPOINT && raw[p + 2] == orig[p + 2] && orig[p + 2] % ENDPOINT_NUMBERS != 0
    ensures SameOn(orig, raw, p, p + orig[p])
  {
    hide At, LengthFits, Rewritten;
    NextInRaw(orig, raw, plan, v, p);
  }

  /** The slot the next endpoint finds: its own empty one, unless an earlier endpoint has the same address. */
  lemma SlotOf(addrmap: seq<byte>, eps: seq<byte>, st: BindSt, s: nat, offs: seq<nat>)
    requires AddrMapIs(addrmap, eps) && s < 3 && StOk(st) && |st.eps| == |eps| && |offs| < |eps|
    requires Slots(st.eps, s, offs)
    ensures |addrmap| == MAX_EPS_COUNT
    ensures var e := |offs|; var idx := AddrIndex(addrmap, eps[e], 1);
      && 1 <= idx <= e + 1
      && (idx == e + 1 <==> FirstOfIts(eps, e))
      && (st.eps[idx - 1].descs[s].None? <==> idx == e + 1)
  {
    hide AddrIndex;
    AddrIndexIs(addrmap, eps, |offs|);
  }

  lemma SlotFilled(eps: seq<FfsEp>, eps1: seq<FfsEp>, s: nat, offs: seq<nat>, p: nat)
    requires |eps1| == |eps| && |offs| < |eps| && s < 3
    requires forall e :: e in eps ==> |e.descs| == 3
    requires forall e :: e in eps1 ==> |e.descs| == 3
    requires Slots(eps, s, offs)
    requires eps1[|offs|].descs == eps[|offs|].descs[s := Some(p)]
    requires forall k :: 0 <= k < |eps| && k != |offs| ==> eps1[k] == eps[k]
    ensures Slots(eps1, s, offs + [p])
    ensures forall k, t :: 0 <= k < |eps| && 0 <= t < 3 && t != s ==> eps1[k].descs[t] == eps[k].descs[t]
  {
  }

  /** Entry e of the table has its slot for speed s filled with p, and nothing else differs. */
  ghost predicate SlotTaken(eps: seq<FfsEp>, eps1: seq<FfsEp>, s: nat, e: nat, p: nat) {
    && |eps1| == |eps| && e < |eps| && s < |eps[e].descs|
    && eps1[e].descs == eps[e].descs[s := Some(p)]
    && forall k :: 0 <= k < |eps| && k != e ==> eps1[k] == eps[k]
  }

  /** The slot and the bytes of one endpoint have been filled in; the pass may go on. */
  lemma EndpointDone(b: Binding, s: nat, start: nat, i: nat, p: nat, st0: BindSt, st: BindSt, st1: BindSt)
    requires Here(b, s, start, i, p) && PassAt(b, s, start, i, st0, st)
    requires IsEndpoint(b.orig, p) && SlotTaken(st.eps, st1.eps, s, |EpOffs(b.orig, start, i)|, p)
    requires StOk(st1) && OnlyEndpoint(st.raw, st1.raw, p)
    requires EndpointAfter(b.orig, st1.raw, p, NewOf(b.Job(), b.orig[p + 2]), b.Base(s) + i < b.Lead())
    requires st1.raw[p + 2] % ENDPOINT_NUMBERS != 0
    ensures At(b.orig, start, i + 1) >= 0 && PassAt(b, s, start, i + 1, st0, st1)
    ensures p <= |st1.raw| && DescOk(st1.raw, p) && p + st1.raw[p] == At(b.orig, start, i + 1)
  {
    hide *;
    EndpointInOrder(b, s, start, i, p);
    EndpointRewritten(b, s, start, i, p, st0, st, st1.raw);
    PassMoves(b, s, start, i, p, st0, st, st1);
  }

  /** The bytes' side of one endpoint. */
  lemma EndpointRewritten(b: Binding, s: nat, start: nat, i: nat, p: nat, st0: BindSt, st: BindSt, raw: seq<byte>)
    requires Here(b, s, start, i, p) && PassAt(b, s, start, i, st0, st)
    requires IsEndpoint(b.orig, p) && OnlyEndpoint(st.raw, raw, p)
    requires EndpointAfter(b.orig, raw, p, NewOf(b.Job(), b.orig[p + 2]), b.Base(s) + i < b.Lead())
    requires raw[p + 2] % ENDPOINT_NUMBERS != 0
    ensures Rewritten(b.orig, raw, b.Job(), b.Base(s) + i + 1)
    ensures |raw| == |b.orig| && p <= |raw| && DescOk(raw, p) && raw[p] == b.orig[p]
  {
    hide *;
    HereAt(b, s, start, i, p);
    PassIs(b, s, start, i, st0, st);
    RewriteOne(b.orig, st.raw, raw, b.Job(), b.Base(s) + i, p);
    HeaderAfter(b.orig, raw, b.Job(), b.Base(s) + i, p);
  }

  /** The table's side of one endpoint. */
  lemma PassMoves(b: Binding, s: nat, start: nat, i: nat, p: nat, st0: BindSt, st: BindSt, st1: BindSt)
    requires PassAt(b, s, start, i, st0, st) && At(b.orig, start, i + 1) >= 0
    requires EpOffs(b.orig, start, i + 1) == EpOffs(b.orig, start, i) + [p]
    requires StOk(st1) && SlotTaken(st.eps, st1.eps, s, |EpOffs(b.orig, start, i)|, p)
    requires Rewritten(b.orig, st1.raw, b.Job(), b.Base(s) + i + 1)
    ensures PassAt(b, s, start, i + 1, st0, st1)
  {
    hide At, EpOffs, Rewritten, Slots, Binding.Base;
    SlotFilled(st.eps, st1.eps, s, EpOffs(b.orig, start, i), p);
    OthersStay(st0.eps, st.eps, st1.eps, s);
    assert b.Base(s) + i + 1 == b.Base(s) + (i + 1);
  }

  lemma OthersStay(eps0: seq<FfsEp>, eps: seq<FfsEp>, eps1: seq<FfsEp>, s: nat)
    requires |eps0| == |eps| == |eps1|
    requires forall k :: 0 <= k < |eps| ==> |eps0[k].descs| == |eps[k].descs| == |eps1[k].descs| == 3
    requires forall k, t :: 0 <= k < |eps| && 0 <= t < 3 && t != s ==> eps[k].descs[t] == eps0[k].descs[t]
    requires forall k, t :: 0 <= k < |eps| && 0 <= t < 3 && t != s ==> eps1[k].descs[t] == eps[k].descs[t]
    ensures forall k, t :: 0 <= k < |eps| && 0 <= t < 3 && t != s ==> eps1[k].descs[t] == eps0[k].descs[t]
  {
  }

  lemma HeaderAfter(orig: seq<byte>, raw: seq<byte>, plan: Plan, v: nat, p: nat)
    requires Rewritten(orig, raw, plan, v + 1) && v < plan.total && At(orig, 0, v) == p
    ensures |raw| == |orig| && p <= |raw| && DescOk(raw, p) && raw[p] == orig[p]
  {
    hide At, LengthFits;
    assert KeepsHeader(orig, raw, At(orig, 0, v));
    FrameKept(orig, raw, p);
  }

  /** The address granted to endpoint e is one it may carry. */
  lemma GrantIsUsable(b: Binding, e: nat, a: byte)
    requires b.Ok() && e < |b.eps| && b.eps[e] == a && a % ENDPOINT_NUMBERS != 0
    ensures |b.news| == |b.eps| <= |b.env.auto|
    ensures var g := b.env.auto[e];
      g.Granted? ==>
        && g.address % ENDPOINT_NUMBERS != 0
        && b.news[e] == NewEp(if b.env.virtual then a else g.address, g.size0, g.size1)
        && b.news[e].address % ENDPOINT_NUMBERS != 0
  {
    hide RawOk;
    if b.env.auto[e].Granted? {
      assert b.env.auto[e] in b.env.auto;
    }
  }

  /**
   The first speed with endpoints configures them. A repeated address, or a
   gadget that refuses, is an error; otherwise one more endpoint is configured.
   */
  lemma StepAllocates(b: Binding, s: nat, start: nat, i: nat, p: nat, st0: BindSt, st: BindSt)
    requires Here(b, s, start, i, p) && PassAt(b, s, start, i, st0, st)
    requires IsEndpoint(b.orig, p) && Allocated(b, st, |EpOffs(b.orig, start, i)|) && b.Base(s) + i < b.Lead()
    ensures var e := |EpOffs(b.orig, start, i)|;
      && e < |b.eps| <= |b.env.auto|
      && var r := StepDesc(b.env, b.addrmap, s, st, p);
      && (!(DistinctUpTo(b.eps, e + 1) && GrantedUpTo(b.env, e + 1)) ==> r.Err?)
      && (DistinctUpTo(b.eps, e + 1) && GrantedUpTo(b.env, e + 1) ==>
            && r.Ok?
            && At(b.orig, start, i + 1) >= 0
            && PassAt(b, s, start, i + 1, st0, r.value)
            && Allocated(b, r.value, e + 1)
            && p <= |r.value.raw| && DescOk(r.value.raw, p) && p + r.value.raw[p] == At(b.orig, start, i + 1))
  {
    hide *;
    HereAt(b, s, start, i, p);
    PassIs(b, s, start, i, st0, st);
    EndpointAsWritten(b, s, start, i, p, st0, st);
    EndpointSlot(b, s, start, i, p, st0, st);
    var e := |EpOffs(b.orig, start, i)|;
    GrantIsUsable(b, e, b.orig[p + 2]);
    NewIs(b, e);
    NextAllocated(b, st, e);
    if AddrIndex(b.addrmap, b.eps[e], 1) == e + 1 {
      AllocResult(b.env, b.addrmap, s, st, p, e);
      if b.env.auto[e].Granted? {
        ConfiguredEndpoint(b.orig, st.raw, p, b.env.auto[e], b.env.virtual);
        ConfiguredNumber(st.raw, p, b.env.auto[e], b.env.virtual);
        OneMoreAllocated(b, s, st, e, p, Configure(st.raw, p, b.env.auto[e], b.env.virtual));
        EndpointDone(b, s, start, i, p, st0, st, StepDesc(b.env, b.addrmap, s, st, p).value);
      }
    } else {
      TakenTwice(b.env, b.addrmap, s, st, p);
    }
  }

  lemma NextAllocated(b: Binding, st: BindSt, e: nat)
    requires Allocated(b, st, e) && e < |b.eps|
    ensures st.used == e < |b.env.auto| && |st.eps| == |b.eps| && st.eps[e].ep.None?
    ensures DistinctUpTo(b.eps, e + 1) && GrantedUpTo(b.env, e + 1) <==>
            FirstOfIts(b.eps, e) && b.env.auto[e].Granted?
  {
  }

  lemma OneMoreAllocated(b: Binding, s: nat, st: BindSt, e: nat, p: nat, raw: seq<byte>)
    requires Allocated(b, st, e) && e < |b.eps| <= |b.env.auto| && s < 3 && StOk(st)
    requires DistinctUpTo(b.eps, e + 1) && GrantedUpTo(b.env, e + 1)
    ensures e < |st.eps| && |st.eps[e].descs| == 3 && b.env.auto[e].Granted?
    ensures var number := b.env.auto[e].address % ENDPOINT_NUMBERS;
      var eps1 := st.eps[e := FfsEp(Some(number as nat), st.eps[e].descs[s := Some(p)])];
      var st1 := BindSt(raw, eps1, st.revmap[number as int := e + 1], e + 1);
      StOk(st1) && SlotTaken(st.eps, eps1, s, e, p) && Allocated(b, st1, e + 1)
  {
  }

  /** The slot of an address that has been met before is taken. */
  lemma TakenTwice(env: Env, addrmap: seq<byte>, s: nat, st: BindSt, p: nat)
    requires |addrmap| == MAX_EPS_COUNT && s < 3 && StOk(st) && p + 6 <= |st.raw| && st.raw[p + 1] == DT_ENDPOINT
    requires var idx := AddrIndex(addrmap, st.raw[p + 2], 1); 1 <= idx <= |st.eps| && !st.eps[idx - 1].descs[s].None?
    ensures StepDesc(env, addrmap, s, st, p).Err?
  {
    hide AddrIndex;
  }

  lemma NewIs(b: Binding, e: nat)
    requires b.Ok() && e < |b.eps| == |b.news| && AddrMapIs(b.addrmap, b.eps)
    requires AddrIndex(b.addrmap, b.eps[e], 1) <= |b.eps|
    ensures AddrIndex(b.addrmap, b.eps[e], 1) == e + 1 ==> NewOf(b.Job(), b.eps[e]) == b.news[e]
  {
    hide AddrIndex, Binding.Ok, Binding.Lead;
  }

  /** What the allocating branch computes, for endpoint e, the next the gadget is asked for. */
  lemma AllocResult(env: Env, addrmap: seq<byte>, s: nat, st: BindSt, p: nat, e: nat)
    requires |addrmap| == MAX_EPS_COUNT && s < 3 && StOk(st) && p + 6 <= |st.raw| && st.used == e < |env.auto|
    requires st.raw[p + 1] == DT_ENDPOINT && AddrIndex(addrmap, st.raw[p + 2], 1) == e + 1 <= |st.eps|
    requires st.eps[e].ep.None? && st.eps[e].descs[s].None?
    ensures var r, g := StepDesc(env, addrmap, s, st, p), env.auto[e];
      if !g.Granted? then r.Err?
      else
        var number := g.address % ENDPOINT_NUMBERS;
        r == Ok(BindSt(Configure(st.raw, p, g, env.virtual),
                       st.eps[e := FfsEp(Some(number as nat), st.eps[e].descs[s := Some(p)])],
                       st.revmap[number as int := e + 1], e + 1))
  {
    hide Configure, AddrIndex;
  }

  lemma ConfiguredNumber(raw: seq<byte>, p: nat, g: Auto, virtual: bool)
    requires p + 6 <= |raw| && g.Granted?
    ensures Configure(raw, p, g, virtual)[p + 2] == if virtual then raw[p + 2] else g.address
  {
  }

  /** What the gadget writes is what the first descriptor of an endpoint is to hold. */
  lemma ConfiguredEndpoint(orig: seq<byte>, raw: seq<byte>, p: nat, g: Auto, virtual: bool)
    requires IsEndpoint(orig, p) && |raw| == |orig| && SameOn(orig, raw, p, p + orig[p]) && g.Granted?
    ensures EndpointAfter(orig, Configure(raw, p, g, virtual), p,
                            NewEp(if virtual then orig[p + 2] else g.address, g.size0, g.size1), true)
    ensures OnlyEndpoint(raw, Configure(raw, p, g, virtual), p)
  {
    hide DescOk, IsEndpoint;
    EndpointLength(orig, p);
    assert forall i :: p <= i < p + orig[p] ==> raw[i] == orig[i];
  }

  /** Full speed describes every endpoint, at offs. */
  ghost predicate FullSpeed(b: Binding, offs: seq<nat>) {
    && At(b.orig, 0, b.counts[0]) >= 0
    && offs == EpOffs(b.orig, 0, b.counts[0])
    && EpAddrs(b.orig, 0, b.counts[0]) == b.eps
  }

  /** The full-speed descriptor of endpoint e lies behind, and carries the endpoint's new address and packet size. */
  lemma LenderIsRewritten(b: Binding, raw: seq<byte>, offs: seq<nat>, e: nat, v: nat)
    requires FullSpeed(b, offs) && e < |b.eps| && b.Lead() == b.counts[0] <= v <= b.Total()
    requires Rewritten(b.orig, raw, b.Job(), v)
    ensures e < |offs| == |b.eps| && offs[e] + 7 <= |raw|
    ensures At(b.orig, 0, v) >= offs[e] + 7
    ensures var n := NewOf(b.Job(), b.eps[e]);
      raw[offs[e] + 2] == n.address && raw[offs[e] + 4] == n.size0 && raw[offs[e] + 5] == n.size1
    ensures raw[offs[e] + 2] % ENDPOINT_NUMBERS != 0
  {
    hide At, DescOk, NewOf, EpOffs, EpAddrs, Binding.Lead, Binding.Base, Rewritten, DescAfter, EndpointAfter,
      KeepsHeader;
    assert EpAddrs(b.orig, 0, b.counts[0])[e] == b.orig[offs[e] + 2];
    var j := EpOffsVisited(b.orig, 0, b.counts[0], e);
    RewrittenAt(b.orig, raw, b.Job(), v, j, offs[e]);
    FirstEndpoint(b.orig, raw, offs[e], b.Job());
    WalkPrefix(b.orig, 0, v, b.Total());
    WalkStep(b.orig, 0, j, v);
  }

  lemma RewrittenAt(orig: seq<byte>, raw: seq<byte>, plan: Plan, v: nat, j: nat, p: nat)
    requires Rewritten(orig, raw, plan, v) && j < v <= plan.total && At(orig, 0, j) == p
    ensures |raw| == |orig| && KeepsHeader(orig, raw, p) && DescAfter(orig, raw, p, plan, true, j < plan.lead)
    ensures At(orig, 0, plan.total) >= 0
  {
    hide At, DescAfter, KeepsHeader;
    assert KeepsHeader(orig, raw, At(orig, 0, j));
    assert DescAfter(orig, raw, At(orig, 0, j), plan, true, j < plan.lead);
  }

  lemma FirstEndpoint(orig: seq<byte>, raw: seq<byte>, p: nat, plan: Plan)
    requires |raw| == |orig| && IsEndpoint(orig, p) && KeepsHeader(orig, raw, p)
    requires DescAfter(orig, raw, p, plan, true, true)
    ensures p + 7 <= |raw| && orig[p] >= 7 && raw[p + 2] % ENDPOINT_NUMBERS != 0
    ensures var n := NewOf(plan, orig[p + 2]); raw[p + 2] == n.address && raw[p + 4] == n.size0 && raw[p + 5] == n.size1
  {
    hide NewOf;
  }

  /** What the copying branch computes, for endpoint e with its full-speed descriptor at d0. */
  lemma CopyResult(env: Env, addrmap: seq<byte>, s: nat, st: BindSt, p: nat, e: nat, d0: nat)
    requires |addrmap| == MAX_EPS_COUNT && 0 < s < 3 && StOk(st) && p + 6 <= |st.raw| && d0 + 6 <= |st.raw|
    requires st.raw[p + 1] == DT_ENDPOINT && AddrIndex(addrmap, st.raw[p + 2], 1) == e + 1 <= |st.eps|
    requires st.eps[e].ep.Some? && st.eps[e].descs[s].None? && st.eps[e].descs[0] == Some(d0)
    ensures StepDesc(env, addrmap, s, st, p) ==
            Ok(st.(raw := CopyFrom(st.raw, p, d0),
                      eps := st.eps[e := st.eps[e].(descs := st.eps[e].descs[s := Some(p)])]))
  {
    hide CopyFrom;
  }

  /** The copied address and packet size are what a later descriptor of the endpoint is to hold. */
  lemma CopiedEndpoint(orig: seq<byte>, raw: seq<byte>, p: nat, d0: nat, n: NewEp)
    requires IsEndpoint(orig, p) && |raw| == |orig| && SameOn(orig, raw, p, p + orig[p]) && d0 + 7 <= p
    requires raw[d0 + 2] == n.address && raw[d0 + 4] == n.size0 && raw[d0 + 5] == n.size1
    ensures EndpointAfter(orig, CopyFrom(raw, p, d0), p, n, false)
    ensures OnlyEndpoint(raw, CopyFrom(raw, p, d0), p)
  {
    hide DescOk, IsEndpoint;
    EndpointLength(orig, p);
    assert forall i :: p <= i < p + orig[p] ==> raw[i] == orig[i];
  }

  /** A later speed copies the address of the full-speed descriptor, and its packet size where there is none. */
  lemma StepCopies(b: Binding, s: nat, start: nat, i: nat, p: nat, st0: BindSt, st: BindSt, offs: seq<nat>)
    requires Here(b, s, start, i, p) && PassAt(b, s, start, i, st0, st) && s > 0
    requires IsEndpoint(b.orig, p) && Allocated(b, st, |b.eps|)
    requires FullSpeed(b, offs) && Slots(st0.eps, 0, offs) && b.Lead() == b.counts[0]
    ensures var r := StepDesc(b.env, b.addrmap, s, st, p);
      && r.Ok?
      && At(b.orig, start, i + 1) >= 0
      && PassAt(b, s, start, i + 1, st0, r.value)
      && Allocated(b, r.value, |b.eps|)
      && p <= |r.value.raw| && DescOk(r.value.raw, p) && p + r.value.raw[p] == At(b.orig, start, i + 1)
  {
    hide *;
    HereAt(b, s, start, i, p);
    PassIs(b, s, start, i, st0, st);
    EndpointAsWritten(b, s, start, i, p, st0, st);
    EndpointSlot(b, s, start, i, p, st0, st);
    var e := |EpOffs(b.orig, start, i)|;
    BaseAbove(b, s);
    LenderIsRewritten(b, st.raw, offs, e, b.Base(s) + i);
    LenderSlot(b, s, start, i, st0, st, offs, e, p, CopyFrom(st.raw, p, offs[e]));
    CopyResult(b.env, b.addrmap, s, st, p, e, offs[e]);
    CopiedEndpoint(b.orig, st.raw, p, offs[e], NewOf(b.Job(), b.eps[e]));
    CopyKeepsNumber(st.raw, p, offs[e]);
    EndpointDone(b, s, start, i, p, st0, st, StepDesc(b.env, b.addrmap, s, st, p).value);
  }

  lemma BaseAbove(b: Binding, s: nat)
    requires 0 < s <= 3
    ensures b.counts[0] <= b.Base(s)
  {
    assert b.Base(1) == b.Base(0) + b.counts[0];
  }

  /** Endpoint e is configured and its full-speed slot filled; filling another slot of it changes neither. */
  lemma LenderSlot(b: Binding, s: nat, start: nat, i: nat, st0: BindSt, st: BindSt, offs: seq<nat>, e: nat,
                   p: nat, raw: seq<byte>)
    requires PassAt(b, s, start, i, st0, st) && s > 0 && Allocated(b, st, |b.eps|) && Slots(st0.eps, 0, offs)
    requires e < |offs| && e == |EpOffs(b.orig, start, i)| < |b.eps|
    ensures e < |st.eps| && st.eps[e].ep.Some? && |st.eps[e].descs| == 3
    ensures st.eps[e].descs[0] == Some(offs[e]) && st.eps[e].descs[s].None?
    ensures FirstOfIts(b.eps, e)
    ensures var eps1 := st.eps[e := st.eps[e].(descs := st.eps[e].descs[s := Some(p)])];
      StOk(st.(raw := raw, eps := eps1)) && SlotTaken(st.eps, eps1, s, e, p)
      && Allocated(b, st.(raw := raw, eps := eps1), |b.eps|)
  {
    hide At, EpOffs, Rewritten, Binding.Base;
  }

  lemma CopyKeepsNumber(raw: seq<byte>, p: nat, d0: nat)
    requires p + 6 <= |raw| && d0 + 6 <= |raw|
    ensures CopyFrom(raw, p, d0)[p + 2] == raw[d0 + 2]
  {
  }

  /** When full speed described no endpoint, a second speed's endpoint reads through a NULL descs[0]. */
  lemma StepFaults(b: Binding, s: nat, start: nat, i: nat, p: nat, st0: BindSt, st: BindSt)
    requires Here(b, s, start, i, p) && PassAt(b, s, start, i, st0, st) && s > 0
    requires IsEndpoint(b.orig, p) && Allocated(b, st, |b.eps|) && Slots(st.eps, 0, [])
    ensures StepDesc(b.env, b.addrmap, s, st, p).Fault?
  {
    hide At, DescOk, EpOffs, Binding.Ok, Rewritten;
    EndpointAsWritten(b, s, start, i, p, st0, st);
    EndpointSlot(b, s, start, i, p, st0, st);
  }

  lemma HereFrom(b: Binding, s: nat, start: nat, i: nat) returns (p: nat)
    requires b.Ok() && s < 3 && i < b.counts[s] && SecStart(b.orig, b.counts, s) == start
    ensures Here(b, s, start, i, p)
  {
    hide At, DescOk, SectionsAgree, EnvOk, OsFound;
    SectionIsStretch(b, s, i);
    SectionIsStretch(b, s, b.counts[s]);
    p := At(b.orig, start, i);
  }

  /** One turn of ffs_do_descs, given what the callback answered. */
  lemma RunNext(b: Binding, s: nat, st0: BindSt, start: nat, i: nat, st: BindSt, p: nat)
    requires |b.addrmap| == MAX_EPS_COUNT && s < 3 && StOk(st0) && StOk(st)
    requires RunDescs(b.env, b.addrmap, s, st0, start, i) == Ok(Walked(st, p))
    ensures var r, q := StepDesc(b.env, b.addrmap, s, st, p), RunDescs(b.env, b.addrmap, s, st0, start, i + 1);
      && (r.Err? ==> q.Err?)
      && (r.Fault? ==> q.Fault?)
      && (r.Ok? && p <= |r.value.raw| && DescOk(r.value.raw, p) ==> q == Ok(Walked(r.value, p + r.value.raw[p])))
  {
  }

  /** What the allocating pass over the s-th speed has come to after i descriptors. */
  ghost predicate Allocating(b: Binding, s: nat, start: nat, i: nat, st0: BindSt)
    requires b.Ok() && |b.addrmap| == MAX_EPS_COUNT && s < 3 && StOk(st0)
    requires start <= |b.orig| && At(b.orig, start, i) >= 0
  {
    var e, r := |EpOffs(b.orig, start, i)|, RunDescs(b.env, b.addrmap, s, st0, start, i);
    && e <= |b.eps| <= |b.env.auto|
    && (!(DistinctUpTo(b.eps, e) && GrantedUpTo(b.env, e)) ==> r.Err?)
    && (DistinctUpTo(b.eps, e) && GrantedUpTo(b.env, e) ==>
          && r.Ok?
          && r.value.pos == At(b.orig, start, i)
          && PassAt(b, s, start, i, st0, r.value.st)
          && Allocated(b, r.value.st, e))
  }

  /**
   The first speed with endpoints. The pass succeeds exactly when the addresses
   are distinct and the gadget grants an endpoint each time; it never faults.
   */
  lemma {:induction false} AllocatingPass(b: Binding, s: nat, start: nat, i: nat, st0: BindSt)
    requires b.Ok() && s < 3 && i <= b.counts[s] && SecStart(b.orig, b.counts, s) == start
    requires StOk(st0) && PassAt(b, s, start, 0, st0, st0)
    requires Allocated(b, st0, 0) && b.Base(s) + b.counts[s] <= b.Lead()
    ensures |b.addrmap| == MAX_EPS_COUNT && At(b.orig, start, i) >= 0
    ensures Allocating(b, s, start, i, st0)
  {
    hide *;
    if i == 0 {
      AllocatingBegins(b, s, start, st0);
    } else {
      AllocatingPass(b, s, start, i - 1, st0);
      AllocatingNext(b, s, start, i - 1, st0);
      assert i - 1 + 1 == i;
    }
  }

  lemma AllocatingBegins(b: Binding, s: nat, start: nat, st0: BindSt)
    requires b.Ok() && s < 3 && SecStart(b.orig, b.counts, s) == start
    requires StOk(st0) && PassAt(b, s, start, 0, st0, st0) && Allocated(b, st0, 0)
    ensures |b.addrmap| == MAX_EPS_COUNT && At(b.orig, start, 0) >= 0
    ensures Allocating(b, s, start, 0, st0)
  {
    hide Binding.Ok, PassAt, Allocated, SecStart, RunDescs, At, EpOffs;
    PassBegins(b, s, start, st0);
  }

  lemma AllocatingNext(b: Binding, s: nat, start: nat, i: nat, st0: BindSt)
    requires b.Ok() && s < 3 && i < b.counts[s] && SecStart(b.orig, b.counts, s) == start
    requires StOk(st0) && |b.addrmap| == MAX_EPS_COUNT && At(b.orig, start, i) >= 0
    requires Allocating(b, s, start, i, st0) && b.Base(s) + b.counts[s] <= b.Lead()
    ensures At(b.orig, start, i + 1) >= 0 && Allocating(b, s, start, i + 1, st0)
  {
    hide Binding.Ok, PassAt, Allocated, SecStart, RunDescs, At, EpOffs, StepDesc, DistinctUpTo, GrantedUpTo, StOk, Here,
      Binding.Base, Binding.Lead, DescOk, IsEndpoint;
    var p := HereFrom(b, s, start, i);
    HereAt(b, s, start, i, p);
    EndpointInOrder(b, s, start, i, p);
    UpToLess(b, |EpOffs(b.orig, start, i)|);
    var r := RunDescs(b.env, b.addrmap, s, st0, start, i);
    if r.Ok? {
      RunNext(b, s, st0, start, i, r.value.st, p);
      if IsEndpoint(b.orig, p) {
        StepAllocates(b, s, start, i, p, st0, r.value.st);
      } else {
        StepSkips(b, s, start, i, p, st0, r.value.st);
      }
    } else {
      RunStays(b, s, st0, start, i);
    }
  }

  lemma UpToLess(b: Binding, e: nat)
    requires |b.eps| <= |b.env.auto|
    ensures e < |b.eps| && DistinctUpTo(b.eps, e + 1) && GrantedUpTo(b.env, e + 1) ==>
              DistinctUpTo(b.eps, e) && GrantedUpTo(b.env, e)
  {
  }

  lemma PassBegins(b: Binding, s: nat, start: nat, st0: BindSt)
    requires b.Ok() && s < 3 && StOk(st0) && start <= |b.orig|
    ensures |b.addrmap| == MAX_EPS_COUNT && |b.eps| <= |b.env.auto|
    ensures DistinctUpTo(b.eps, 0) && GrantedUpTo(b.env, 0)
    ensures At(b.orig, start, 0) == start && EpOffs(b.orig, start, 0) == []
    ensures RunDescs(b.env, b.addrmap, s, st0, start, 0) == Ok(Walked(st0, start))
  {
  }

  lemma RunStays(b: Binding, s: nat, st0: BindSt, start: nat, i: nat)
    requires |b.addrmap| == MAX_EPS_COUNT && s < 3 && StOk(st0)
    ensures var r, q := RunDescs(b.env, b.addrmap, s, st0, start, i), RunDescs(b.env, b.addrmap, s, st0, start, i + 1);
      (r.Err? ==> q.Err?) && (r.Fault? ==> q.Fault?)
  {
  }

  /** A later speed, when full speed has endpoints: the pass always succeeds. */
  lemma {:induction false} CopyingPass(b: Binding, s: nat, start: nat, i: nat, st0: BindSt, offs: seq<nat>)
    requires b.Ok() && 0 < s < 3 && i <= b.counts[s] && SecStart(b.orig, b.counts, s) == start
    requires StOk(st0) && PassAt(b, s, start, 0, st0, st0) && Allocated(b, st0, |b.eps|)
    requires FullSpeed(b, offs) && Slots(st0.eps, 0, offs) && b.Lead() == b.counts[0]
    ensures |b.addrmap| == MAX_EPS_COUNT && At(b.orig, start, i) >= 0
    ensures var r := RunDescs(b.env, b.addrmap, s, st0, start, i);
      && r.Ok?
      && r.value.pos == At(b.orig, start, i)
      && PassAt(b, s, start, i, st0, r.value.st)
      && Allocated(b, r.value.st, |b.eps|)
  {
    hide *;
    if i == 0 {
      PassBegins(b, s, start, st0);
    } else {
      CopyingPass(b, s, start, i - 1, st0, offs);
      assert i - 1 + 1 == i;
      var p := HereFrom(b, s, start, i - 1);
      HereAt(b, s, start, i - 1, p);
      var st := RunDescs(b.env, b.addrmap, s, st0, start, i - 1).value.st;
      RunNext(b, s, st0, start, i - 1, st, p);
      if IsEndpoint(b.orig, p) {
        StepCopies(b, s, start, i - 1, p, st0, st, offs);
      } else {
        StepSkips(b, s, start, i - 1, p, st0, st);
      }
    }
  }

  /** A later speed, when endpoints were configured but not by full speed: the first endpoint faults. */
  lemma {:induction false} FaultingPass(b: Binding, s: nat, start: nat, i: nat, st0: BindSt, n: nat)
    requires b.Ok() && 0 < s < 3 && i <= b.counts[s] && SecStart(b.orig, b.counts, s) == start
    requires StOk(st0) && PassAt(b, s, start, 0, st0, st0) && Allocated(b, st0, n)
    requires n == |b.eps| && Slots(st0.eps, 0, [])
    ensures |b.addrmap| == MAX_EPS_COUNT && At(b.orig, start, i) >= 0
    ensures var e, r := |EpOffs(b.orig, start, i)|, RunDescs(b.env, b.addrmap, s, st0, start, i);
      && (e > 0 ==> r.Fault?)
      && (e == 0 ==>
            && r.Ok?
            && r.value.pos == At(b.orig, start, i)
            && PassAt(b, s, start, i, st0, r.value.st)
            && Allocated(b, r.value.st, n))
  {
    hide *;
    if i == 0 {
      PassBegins(b, s, start, st0);
    } else {
      FaultingPass(b, s, start, i - 1, st0, n);
      assert i - 1 + 1 == i;
      var p := HereFrom(b, s, start, i - 1);
      HereAt(b, s, start, i - 1, p);
      EndpointInOrder(b, s, start, i - 1, p);
      var r := RunDescs(b.env, b.addrmap, s, st0, start, i - 1);
      if r.Ok? {
        RunNext(b, s, st0, start, i - 1, r.value.st, p);
        if IsEndpoint(b.orig, p) {
          SlotsStay(b, s, start, i - 1, st0, r.value.st);
          StepFaults(b, s, start, i - 1, p, st0, r.value.st);
        } else {
          StepSkips(b, s, start, i - 1, p, st0, r.value.st);
        }
      } else {
        RunStays(b, s, st0, start, i - 1);
      }
    }
  }

  /** A pass over one speed leaves the slots of the other speeds alone. */
  lemma SlotsStay(b: Binding, s: nat, start: nat, i: nat, st0: BindSt, st: BindSt)
    requires PassAt(b, s, start, i, st0, st)
    ensures forall t, offs :: 0 <= t < 3 && t != s && Slots(st0.eps, t, offs) ==> Slots(st.eps, t, offs)
  {
  }

  /** A speed without endpoints changes nothing. */
  lemma {:induction false} IdlePass(b: Binding, s: nat, start: nat, i: nat, st0: BindSt)
    requires b.Ok() && s < 3 && i <= b.counts[s] && SecStart(b.orig, b.counts, s) == start
    requires StOk(st0) && PassAt(b, s, start, 0, st0, st0)
    requires SecStart(b.orig, b.counts, s + 1) >= 0 && !b.HasEps(s)
    ensures |b.addrmap| == MAX_EPS_COUNT && At(b.orig, start, i) >= 0 && EpOffs(b.orig, start, i) == []
    ensures RunDescs(b.env, b.addrmap, s, st0, start, i) == Ok(Walked(st0, At(b.orig, start, i)))
    ensures PassAt(b, s, start, i, st0, st0)
  {
    hide *;
    if i == 0 {
      PassBegins(b, s, start, st0);
    } else {
      IdlePass(b, s, start, i - 1, st0);
      assert i - 1 + 1 == i;
      var p := HereFrom(b, s, start, i - 1);
      HereAt(b, s, start, i - 1, p);
      EndpointInOrder(b, s, start, i - 1, p);
      RunNext(b, s, st0, start, i - 1, st0, p);
      StepSkips(b, s, start, i - 1, p, st0, st0);
    }
  }

  /** Some speed before the n-th describes endpoints. */
  ghost predicate AnyEps(b: Binding, n: nat)
    requires n <= 3 && SecStart(b.orig, b.counts, 3) >= 0
  {
    exists t :: 0 <= t < n && b.HasEps(t)
  }

  /** The endpoint descriptors of the t-th speed, or none. */
  ghost function SpeedOffs(b: Binding, t: nat): seq<nat>
    requires t < 3 && SecStart(b.orig, b.counts, 3) >= 0
  {
    if b.HasEps(t) then EpOffs(b.orig, SecStart(b.orig, b.counts, t), b.counts[t]) else []
  }

  /** What fills the t-th speed's slots once the first n speeds have been passed over. */
  ghost function FilledOffs(b: Binding, n: nat, t: nat): seq<nat>
    requires t < 3 && SecStart(b.orig, b.counts, 3) >= 0
  {
    if t < n then SpeedOffs(b, t) else []
  }

  /** What holds once the first n speeds have been passed over. */
  ghost predicate SpeedsDone(b: Binding, n: nat, st: BindSt) {
    && n <= 3
    && SecStart(b.orig, b.counts, 3) >= 0
    && StOk(st)
    && |st.eps| == |b.eps|
    && Rewritten(b.orig, st.raw, b.Job(), b.Base(n))
    && Allocated(b, st, if AnyEps(b, n) then |b.eps| else 0)
    && forall t :: 0 <= t < 3 ==> Slots(st.eps, t, FilledOffs(b, n, t))
  }

  /** Endpoints described at high and super speed but not at full speed. */
  ghost predicate LenderMissing(b: Binding)
    requires SecStart(b.orig, b.counts, 3) >= 0
  {
    !b.HasEps(0) && b.HasEps(1) && b.HasEps(2)
  }

  ghost predicate Bindable(b: Binding)
    requires b.Ok()
  {
    DistinctUpTo(b.eps, |b.eps|) && GrantedUpTo(b.env, |b.eps|)
  }

  lemma SpeedsBegin(b: Binding)
    requires b.Ok()
    ensures SpeedsDone(b, 0, b.Begin())
  {
    hide At, SectionsAgree, OsFound;
    SectionIsStretch(b, 2, b.counts[2]);
    RewrittenAtFirst(b.orig, b.Job());
    assert b.Begin().revmap == RevMap(b.was, b.env, 0);
    assert !AnyEps(b, 0);
  }

  /** A speed that has no descriptors is not passed over. */
  lemma SpeedAbsent(b: Binding, s: nat, st: BindSt)
    requires s < 3 && SpeedsDone(b, s, st) && b.counts[s] == 0
    ensures SpeedsDone(b, s + 1, st)
  {
    hide Rewritten, Allocated, Slots, At;
    assert !b.HasEps(s);
    assert AnyEps(b, s + 1) == AnyEps(b, s);
    assert b.Base(s + 1) == b.Base(s);
    var n := s + 1;
    forall t | 0 <= t < 3
      ensures Slots(st.eps, t, FilledOffs(b, n, t))
    {
      assert Slots(st.eps, t, FilledOffs(b, s, t));
      assert FilledOffs(b, n, t) == FilledOffs(b, s, t);
    }
  }

  lemma PassOpens(b: Binding, s: nat, st: BindSt)
    requires s < 3 && SpeedsDone(b, s, st)
    ensures PassAt(b, s, SecStart(b.orig, b.counts, s), 0, st, st)
  {
    hide Rewritten, Allocated;
    assert FilledOffs(b, s, s) == [];
  }

  lemma PassCloses(b: Binding, s: nat, start: nat, st0: BindSt, st: BindSt)
    requires s < 3 && SpeedsDone(b, s, st0) && start == SecStart(b.orig, b.counts, s)
    requires PassAt(b, s, start, b.counts[s], st0, st)
    requires EpOffs(b.orig, start, b.counts[s]) == SpeedOffs(b, s)
    requires Allocated(b, st, if AnyEps(b, s + 1) then |b.eps| else 0)
    ensures SpeedsDone(b, s + 1, st)
  {
    hide Rewritten, Allocated, At, EpOffs;
    SlotsStay(b, s, start, b.counts[s], st0, st);
    var n := s + 1;
    forall t | 0 <= t < 3
      ensures Slots(st.eps, t, FilledOffs(b, n, t))
    {
      assert Slots(st0.eps, t, FilledOffs(b, s, t));
      assert t != s ==> FilledOffs(b, n, t) == FilledOffs(b, s, t);
    }
    assert b.Base(s + 1) == b.Base(s) + b.counts[s];
  }

  lemma LeadIs(b: Binding, s: nat)
    requires s < 3 && SecStart(b.orig, b.counts, 3) >= 0 && b.HasEps(s)
    ensures !AnyEps(b, s) ==> b.Base(s) + b.counts[s] <= b.Lead()
    ensures b.HasEps(0) ==> b.Lead() == b.counts[0]
  {
    assert b.Base(0) == 0;
    assert b.Base(1) == b.Base(0) + b.counts[0];
    assert b.Base(2) == b.Base(1) + b.counts[1];
    assert b.Base(3) == b.Base(2) + b.counts[2];
  }

  /** The pass over one more speed. */
  lemma SpeedNext(b: Binding, s: nat, st: BindSt)
    requires b.Ok() && s < 3 && SpeedsDone(b, s, st) && b.counts[s] > 0
    requires AnyEps(b, s) ==> Bindable(b)
    ensures |b.addrmap| == MAX_EPS_COUNT && SecStart(b.orig, b.counts, 3) >= 0 && StOk(st)
    ensures var r := RunDescs(b.env, b.addrmap, s, st, SecStart(b.orig, b.counts, s), b.counts[s]);
      && (r.Fault? <==> AnyEps(b, s) && b.HasEps(s) && !b.HasEps(0))
      && (r.Err? <==> b.HasEps(s) && !Bindable(b))
      && (r.Ok? ==> SpeedsDone(b, s + 1, r.value.st) && r.value.pos == SecStart(b.orig, b.counts, s + 1))
  {
    hide At, DescOk, EpOffs, EpAddrs, RunDescs, Binding.Ok, Allocated, PassAt;
    var start: nat, count := SecStart(b.orig, b.counts, s), b.counts[s];
    assert SecStart(b.orig, b.counts, s + 1) == At(b.orig, start, count);
    PassOpens(b, s, st);
    PassBegins(b, s, start, st);
    var r := RunDescs(b.env, b.addrmap, s, st, start, count);
    if !b.HasEps(s) {
      IdlePass(b, s, start, count, st);
      assert AnyEps(b, s + 1) == AnyEps(b, s);
    } else {
      assert AnyEps(b, s + 1);
      SectionDeclares(b, s);
      LeadIs(b, s);
      if !AnyEps(b, s) {
        AllocatingPass(b, s, start, count, st);
      } else if b.HasEps(0) {
        SectionDeclares(b, 0);
        assert FilledOffs(b, s, 0) == SpeedOffs(b, 0);
        CopyingPass(b, s, start, count, st, SpeedOffs(b, 0));
      } else {
        assert FilledOffs(b, s, 0) == [];
        FaultingPass(b, s, start, count, st, |b.eps|);
      }
    }
    if r.Ok? {
      PassCloses(b, s, start, st, r.value.st);
    }
  }

  /** The s-th speed has so many descriptors that one more is 0 in 32 bits: its list has no entry. */
  ghost predicate Unlisted(b: Binding, s: nat)
    requires s < 3
  {
    b.counts[s] == TWO_TO_THE_32 - 1
  }

  /** One of the first n passes begins and has such a list; a pass begins unless an endpoint was refused before. */
  ghost predicate Overruns(b: Binding, n: nat)
    requires b.Ok() && n <= 3
  {
    exists s :: 0 <= s < n && Unlisted(b, s) && (AnyEps(b, s) ==> Bindable(b))
  }

  /** The pass over one more speed, with its list. */
  lemma SpeedListed(b: Binding, s: nat, st: BindSt)
    requires b.Ok() && s < 3 && SpeedsDone(b, s, st) && b.counts[s] > 0
    requires AnyEps(b, s) ==> Bindable(b)
    ensures |b.addrmap| == MAX_EPS_COUNT && SecStart(b.orig, b.counts, 3) >= 0 && StOk(st)
    ensures var r := RunListed(b.env, b.addrmap, s, st, SecStart(b.orig, b.counts, s), b.counts[s]);
      && (r.Fault? <==> Unlisted(b, s) || (AnyEps(b, s) && b.HasEps(s) && !b.HasEps(0)))
      && (r.Err? <==> !Unlisted(b, s) && b.HasEps(s) && !Bindable(b))
      && (r.Ok? ==> SpeedsDone(b, s + 1, r.value.st) && r.value.pos == SecStart(b.orig, b.counts, s + 1))
  {
    hide At, RunListed, RunDescs, SpeedsDone, Bindable, RawOk, AddrMapIs, EnvOk, Assigned;
    SpeedNext(b, s, st);
    ListedOrNot(b.env, b.addrmap, s, st, SecStart(b.orig, b.counts, s), b.counts[s]);
  }

  lemma ListedOrNot(env: Env, addrmap: seq<byte>, speed: nat, st: BindSt, start: nat, count: nat)
    requires |addrmap| == MAX_EPS_COUNT && speed < 3 && StOk(st) && 0 < count < TWO_TO_THE_32
    ensures RunListed(env, addrmap, speed, st, start, count) ==
            if count == TWO_TO_THE_32 - 1 then Fault else RunDescs(env, addrmap, speed, st, start, count)
  {
    assert RunDescs(env, addrmap, speed, st, start, 0) == Ok(Walked(st, start));
    hide RunDescs;
  }

  /** The passes over n + 1 speeds fault or fail where those over n do, or where the next one does. */
  lemma OverrunsNext(b: Binding, n: nat)
    requires b.Ok() && n < 3
    ensures Overruns(b, n + 1) <==> Overruns(b, n) || (Unlisted(b, n) && (AnyEps(b, n) ==> Bindable(b)))
    ensures !Overruns(b, 0)
  {
    hide At, SectionsAgree, OsFound, EnvOk, AnyEps, Bindable;
    if Overruns(b, n) {
      var s :| 0 <= s < n && Unlisted(b, s) && (AnyEps(b, s) ==> Bindable(b));
      assert 0 <= s < n + 1;
    }
    if Unlisted(b, n) && (AnyEps(b, n) ==> Bindable(b)) {
      assert 0 <= n < n + 1;
    }
  }

  /**
   The three passes together. They fault exactly when one with endless descriptors has
   no list, or when full speed has no endpoints while both other speeds have; otherwise
   they fail exactly when an address is repeated or the gadget refuses an endpoint; and
   when they succeed, they have stopped where validation found the descriptors to end.
   */
  lemma SpeedsOutcome(b: Binding, n: nat)
    requires b.Ok() && n <= 3
    ensures |b.addrmap| == MAX_EPS_COUNT && SecStart(b.orig, b.counts, 3) >= 0
    ensures var r := RunSpeeds(b.env, b.addrmap, b.Begin(), b.counts, n);
      && (r.Fault? <==> Overruns(b, n) || (n == 3 && Bindable(b) && LenderMissing(b)))
      && (r.Err? <==> AnyEps(b, n) && !Bindable(b) && !Overruns(b, n))
      && (r.Ok? ==> SpeedsDone(b, n, r.value.st) && r.value.pos == SecStart(b.orig, b.counts, n))
  {
    hide At, RunSpeeds, SpeedsDone, SectionsAgree, EnvOk, OsFound, Bindable, Overruns;
    if n == 0 {
      NoSpeeds(b.env, b.addrmap, b.Begin(), b.counts);
      SpeedsBegin(b);
      OverrunsNext(b, 0);
    } else {
      SpeedsOutcome(b, n - 1);
      AnyEpsNext(b, n - 1);
      OverrunsNext(b, n - 1);
      MoreSpeeds(b, n - 1, RunSpeeds(b.env, b.addrmap, b.Begin(), b.counts, n - 1));
    }
  }

  lemma NoSpeeds(env: Env, addrmap: seq<byte>, st: BindSt, counts: Counts)
    requires |addrmap| == MAX_EPS_COUNT && StOk(st)
    ensures RunSpeeds(env, addrmap, st, counts, 0) == Ok(Walked(st, 0))
  {
  }

  /** The (s + 1)-st pass, if the first s have succeeded. */
  lemma MoreSpeeds(b: Binding, s: nat, r: Outcome<Walked<BindSt>>)
    requires b.Ok() && s < 3 && |b.addrmap| == MAX_EPS_COUNT
    requires r == RunSpeeds(b.env, b.addrmap, b.Begin(), b.counts, s)
    requires SecStart(b.orig, b.counts, 3) >= 0 && (AnyEps(b, s) && r.Ok? ==> Bindable(b))
    requires r.Ok? ==> SpeedsDone(b, s, r.value.st) && r.value.pos == SecStart(b.orig, b.counts, s)
    ensures var n := s + 1; var q := RunSpeeds(b.env, b.addrmap, b.Begin(), b.counts, n);
      && (q.Fault? <==> r.Fault? || (r.Ok? && (Unlisted(b, s) || (AnyEps(b, s) && b.HasEps(s) && !b.HasEps(0)))))
      && (q.Err? <==> r.Err? || (r.Ok? && !Unlisted(b, s) && b.HasEps(s) && !Bindable(b)))
      && (q.Ok? ==> SpeedsDone(b, n, q.value.st) && q.value.pos == SecStart(b.orig, b.counts, n))
  {
    hide At, DescOk, EpOffs, RunListed, SpeedsDone, SectionsAgree, EnvOk, OsFound, Bindable, AnyEps,
      Binding.Begin, StOk;
    if r.Ok? {
      if b.counts[s] == 0 {
        SecEmpty(b.orig, b.counts, s);
        SpeedAbsent(b, s, r.value.st);
      } else {
        SpeedListed(b, s, r.value.st);
      }
    }
  }

  lemma AnyEpsNext(b: Binding, n: nat)
    requires n < 3 && SecStart(b.orig, b.counts, 3) >= 0
    ensures AnyEps(b, n + 1) == (AnyEps(b, n) || b.HasEps(n))
    ensures AnyEps(b, 0) == false && AnyEps(b, 1) == b.HasEps(0) && AnyEps(b, 2) == (b.HasEps(0) || b.HasEps(1))
  {
  }
}
