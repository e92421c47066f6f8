/**
 OsalMemAlloc, OsalMemAllocAlign and OsalMemFree over raw memory: a block from the
 kernel, a header of eight bytes somewhere in it, and the caller's bytes behind that.
 Addresses and sizes are 64-bit.
 */
module OsalMem {
  import opened Bits
  import opened Bytes
  import opened Vla

  const HEADER := 8
  const PTR_SIZE := 8                    // sizeof(void *)
  const ADDRESS_BITS := 64
  const SIZE_MAX := 0xffff_ffff_ffff_ffff
  const KMALLOC_SIZE := 0x2_0000
  const TYPE_KMALLOC := 0xa5a5_a5a1
  const TYPE_VMALLOC := 0xa5a5_a5a2

  datatype Kind = Kmalloc | Vmalloc

  function TypeOf(kind: Kind): nat { if kind == Kmalloc then TYPE_KMALLOC else TYPE_VMALLOC }

  function KindFor(size: nat): Kind { if size > KMALLOC_SIZE - HEADER then Vmalloc else Kmalloc }

  /** What was handed to kfree or vfree, or neither. */
  datatype Freed = Freed(kind: Kind, base: int) | NotFreed

  /** The header of the block, written at a. */
  function PutHeader(ram: seq<byte>, a: nat, kind: Kind, offset: nat): (r: seq<byte>)
    requires a + HEADER <= |ram|
    ensures |r| == |ram|
  {
    Put(ram, a, Bytes4(TypeOf(kind)) + Bytes4(offset))
  }

  /** OsalMemFree: what to free, and how, is in the header in front of the address. */
  function Free(ram: seq<byte>, ptr: nat): Freed
    requires HEADER <= ptr <= |ram|
  {
    var kind, base := Le32(ram, ptr - 8), ptr - 8 - Le32(ram, ptr - 4);
    if kind == TYPE_KMALLOC then Freed(Kmalloc, base)
    else if kind == TYPE_VMALLOC then Freed(Vmalloc, base) else NotFreed
  }

  lemma HeaderFound(ram: seq<byte>, a: nat, kind: Kind, offset: nat)
    requires a + HEADER <= |ram| && offset < TWO_TO_THE_32
    ensures Free(PutHeader(ram, a, kind, offset), a + HEADER) == Freed(kind, a - offset)
  {
    var r, h := PutHeader(ram, a, kind, offset), Bytes4(TypeOf(kind)) + Bytes4(offset);
    assert r[a..a + 8] == h;
    assert r[a..a + 4] == r[a..a + 8][..4] == Bytes4(TypeOf(kind));
    assert r[a + 4..a + 8] == r[a..a + 8][4..] == Bytes4(offset);
    hide Bytes4, Le32;
    Bytes4Read(TypeOf(kind), r, a);
    Bytes4Read(offset, r, a + 4);
  }

  /** The sizes OsalMemAlloc asks the kernel for. */
  predicate AllocValid(size: nat) { size != 0 && size <= SIZE_MAX - HEADER }

  /** The arguments OsalMemAllocAlign goes on with. */
  predicate AlignValid(alignment: nat, size: nat) {
    && size != 0
    && alignment != 0
    && And(alignment, alignment - 1) == 0
    && alignment % PTR_SIZE == 0
    && alignment <= SIZE_MAX
    && size <= SIZE_MAX - alignment
    && size + alignment <= SIZE_MAX - HEADER
  }

  /** They are the powers of two of at least a pointer's size, with a total that fits. */
  lemma AlignValidMeans(alignment: nat, size: nat)
    ensures AlignValid(alignment, size) <==>
            size != 0 && IsPow2(alignment) && alignment >= PTR_SIZE && size + alignment + HEADER <= SIZE_MAX
  {
    if alignment > 0 {
      PowerTest(alignment);
      if IsPow2(alignment) {
        var k := PowersOfTwo(alignment);
        assert Pow2(3) == 8;
        if k >= 3 {
          var m := Pow2Divides(3, k);
          hide Pow2;
          DivModUnique(alignment, 8, m, 0);
        } else {
          Pow2Monotone(k, 2);
          assert Pow2(2) == 4;
        }
      }
    }
  }

  /** The aligned address: the mask arithmetic on the end of the header. */
  function AlignedFrom(base: nat, alignment: nat): nat
    requires 0 < alignment <= SIZE_MAX
  {
    And((base + HEADER + alignment - 1) % (SIZE_MAX + 1), SIZE_MAX - (alignment - 1))
  }

  /** It is the least multiple of the alignment that leaves room for the header. */
  lemma AlignedIs(base: nat, alignment: nat)
    requires IsPow2(alignment) && alignment <= SIZE_MAX && base + HEADER + alignment - 1 <= SIZE_MAX
    ensures AlignedFrom(base, alignment) == RoundUp(base + HEADER, alignment)
  {
    Words();
    var k := PowersOfTwo(alignment);
    if k > ADDRESS_BITS {
      Pow2Monotone(ADDRESS_BITS, k);
    }
    hide Pow2, And, RoundUp;
    MaskedUpAs(ADDRESS_BITS, base + HEADER, k, alignment, SIZE_MAX + 1);
    RoundDownUp(base + HEADER, alignment);
    SmallMod(base + HEADER + alignment - 1, SIZE_MAX + 1);
    AlignedAs(base, alignment, k);
  }

  lemma AlignedAs(base: nat, alignment: nat, k: nat)
    requires alignment == Pow2(k) && k <= ADDRESS_BITS && Pow2(ADDRESS_BITS) == SIZE_MAX + 1 && alignment <= SIZE_MAX
    requires base + HEADER + alignment - 1 <= SIZE_MAX
    ensures AlignedFrom(base, alignment) == MaskedUp(ADDRESS_BITS, base + HEADER, k)
  {
    hide Pow2, And;
    SmallMod(base + HEADER + alignment - 1, SIZE_MAX + 1);
  }

  /** How far behind the block's own header the caller's bytes begin; the header keeps 32 bits of it. */
  function OffsetOf(base: nat, alignment: nat): int
    requires 0 < alignment <= SIZE_MAX
  {
    AlignedFrom(base, alignment) - (base + HEADER)
  }

  lemma OffsetFits(alignment: nat, size: nat, base: nat)
    requires AlignValid(alignment, size) && base + HEADER + size + alignment <= SIZE_MAX + 1
    ensures 0 <= OffsetOf(base, alignment) < alignment
    ensures 0 <= OffsetOf(base, alignment) % TWO_TO_THE_32 <= OffsetOf(base, alignment)
  {
    AlignValidMeans(alignment, size);
    AlignedIs(base, alignment);
    hide AlignedFrom, AlignValid, IsPow2;
    WrapSmall(OffsetOf(base, alignment), TWO_TO_THE_32);
  }

  /** Memory after OsalMemAllocAlign has written its header. */
  function Aligned(ram: seq<byte>, alignment: nat, size: nat, base: nat): (r: seq<byte>)
    requires AlignValid(alignment, size) && base + HEADER + size + alignment <= |ram| <= SIZE_MAX + 1
    ensures |r| == |ram|
  {
    OffsetFits(alignment, size, base);
    PutHeader(ram, base + OffsetOf(base, alignment) % TWO_TO_THE_32, KindFor(size + alignment),
              OffsetOf(base, alignment) % TWO_TO_THE_32)
  }

  /**
   A block the kernel has given: it lies in memory and is aligned at least for a pointer.
   It is far when its owner's bytes begin so far behind its own header that 32 bits do not
   hold the distance.
   */
  datatype Block = Block(base: nat, length: nat, kind: Kind, size: nat, far: bool)

  /**
   An aligned pointer is aligned, its size bytes and the header in front of it lie in
   the block. Freeing it hands the block's own base back to the right allocator,
   whatever memory held before, if and only if the offset fits the header's 32 bits.
   */
  lemma AlignedRoundTrip(alignment: nat, size: nat, base: nat, limit: nat)
    requires AlignValid(alignment, size) && base + HEADER + size + alignment <= limit <= SIZE_MAX + 1
    ensures var ptr, offset := AlignedFrom(base, alignment), OffsetOf(base, alignment);
      && ptr % alignment == 0
      && base <= ptr - HEADER && ptr + size <= base + HEADER + size + alignment
      && 0 <= offset < alignment
      && ((forall ram: seq<byte> :: |ram| == limit ==>
             Free(Aligned(ram, alignment, size, base), ptr) == Freed(KindFor(size + alignment), base)) <==>
          offset < TWO_TO_THE_32)
  {
    AlignValidMeans(alignment, size);
    AlignedIs(base, alignment);
    var ptr, offset := AlignedFrom(base, alignment), OffsetOf(base, alignment);
    hide AlignedFrom, RoundUp, Free, PutHeader, AlignValid;
    KeptOrMissed(alignment, size, base, limit, ptr, offset);
  }

  lemma KeptOrMissed(alignment: nat, size: nat, base: nat, limit: nat, ptr: nat, offset: nat)
    requires AlignValid(alignment, size) && base + HEADER + size + alignment <= limit <= SIZE_MAX + 1
    requires offset == OffsetOf(base, alignment) && ptr == base + HEADER + offset <= limit
    ensures (forall ram: seq<byte> :: |ram| == limit ==>
               Free(Aligned(ram, alignment, size, base), ptr) == Freed(KindFor(size + alignment), base)) <==>
            offset < TWO_TO_THE_32
  {
    hide AlignedFrom, RoundUp, Free, PutHeader, AlignValid;
    if offset < TWO_TO_THE_32 {
      SmallMod(offset, TWO_TO_THE_32);
      forall ram: seq<byte> | |ram| == limit
        ensures Free(Aligned(ram, alignment, size, base), ptr) == Freed(KindFor(size + alignment), base)
      {
        HeaderFound(ram, base + offset, KindFor(size + alignment), offset);
      }
    } else {
      var ram := seq(limit, i => 0);
      HeaderMissed(ram, base, offset, ptr, KindFor(size + alignment));
    }
  }

  /** Nothing outside lo .. lo + n is written. */
  ghost predicate OnlyInside(ram: seq<byte>, ram': seq<byte>, lo: nat, n: nat) {
    |ram'| == |ram| && forall i :: 0 <= i < |ram| && !(lo <= i < lo + n) ==> ram'[i] == ram[i]
  }

  lemma HeaderInside(ram: seq<byte>, a: nat, kind: Kind, offset: nat, lo: nat, n: nat)
    requires a + HEADER <= |ram| && lo <= a && a + HEADER <= lo + n
    ensures OnlyInside(ram, PutHeader(ram, a, kind, offset), lo, n)
  {
  }

  /**
   A header of which 32 bits of offset are kept is written elsewhere: in front of the pointer there
   is still what was there.
   */
  lemma HeaderMissed(ram: seq<byte>, base: nat, offset: nat, ptr: nat, kind: Kind)
    requires ptr == base + HEADER + offset && ptr <= |ram| && offset >= TWO_TO_THE_32
    requires forall i :: 0 <= i < |ram| ==> ram[i] == 0
    ensures Free(PutHeader(ram, base + offset % TWO_TO_THE_32, kind, offset % TWO_TO_THE_32), ptr) == NotFreed
  {
    hide PutHeader;
    var low := offset % TWO_TO_THE_32;
    var r := PutHeader(ram, base + low, kind, low);
    assert low + HEADER <= offset;
    HeaderInside(ram, base + low, kind, low, base + low, HEADER);
    ZerosFreeNothing(r, ptr);
  }

  lemma ZerosFreeNothing(r: seq<byte>, ptr: nat)
    requires HEADER <= ptr <= |r| && forall i :: ptr - HEADER <= i < ptr ==> r[i] == 0
    ensures Free(r, ptr) == NotFreed
  {
  }

  /** Memory, and the live allocations by the pointer their owner has. */
  datatype Heap = Heap(ram: seq<byte>, live: map<nat, Block>)

  datatype Op =
    | AllocOp(size: nat, base: nat)                   // OsalMemAlloc, the kernel giving the block at base
    | AlignOp(alignment: nat, size: nat, base: nat)   // OsalMemAllocAlign, likewise
    | WriteOp(ptr: nat, at: nat, bytes: seq<byte>)    // the owner writes its own bytes
    | FreeOp(ptr: nat)

  predicate Apart(b: nat, n: nat, c: nat, m: nat) { b + n <= c || c + m <= b }

  /** The kernel gives memory that exists, is aligned for a pointer and is not given to anyone else. */
  ghost predicate Room(h: Heap, base: nat, length: nat) {
    && base % PTR_SIZE == 0
    && base + length <= |h.ram|
    && forall p :: p in h.live ==> Apart(base, length, h.live[p].base, h.live[p].length)
  }

  ghost predicate Enabled(h: Heap, op: Op) {
    match op
    case AllocOp(size, base) => AllocValid(size) && Room(h, base, size + HEADER)
    case AlignOp(alignment, size, base) =>
      AlignValid(alignment, size) && Room(h, base, size + alignment + HEADER)
    case WriteOp(ptr, at, bytes) => ptr in h.live && at + |bytes| <= h.live[ptr].size && ptr + at + |bytes| <= |h.ram|
    case FreeOp(ptr) => ptr in h.live && !h.live[ptr].far
  }

  /** The blocks of the two calls. */
  function Plain(size: nat, base: nat): Block { Block(base, size + HEADER, KindFor(size), size, false) }

  function AlignedBlock(alignment: nat, size: nat, base: nat): Block
    requires 0 < alignment <= SIZE_MAX
  {
    Block(base, size + alignment + HEADER, KindFor(size + alignment), size, OffsetOf(base, alignment) >= TWO_TO_THE_32)
  }

  ghost function Do(h: Heap, op: Op): Heap
    requires |h.ram| <= SIZE_MAX + 1 && Enabled(h, op)
  {
    match op
    case AllocOp(size, base) =>
      Heap(PutHeader(h.ram, base, KindFor(size), 0), h.live[base + HEADER := Plain(size, base)])
    case AlignOp(alignment, size, base) =>
      Heap(Aligned(h.ram, alignment, size, base),
           h.live[AlignedFrom(base, alignment) := AlignedBlock(alignment, size, base)])
    case WriteOp(ptr, at, bytes) => h.(ram := Put(h.ram, ptr + at, bytes))
    case FreeOp(ptr) => h.(live := h.live - {ptr})
  }

  /**
   The owner's bytes and a header in front of them lie in the block, which is kmalloc's exactly if it
   takes at most 128 KiB; unless it is far, freeing finds exactly that block.
   */
  ghost predicate Sound(ram: seq<byte>, p: nat, b: Block) {
    && p % PTR_SIZE == 0
    && b.base + HEADER <= p
    && p + b.size <= b.base + b.length <= |ram|
    && (b.kind == Kmalloc <==> b.length <= 0x2_0000)
    && (!b.far ==> Free(ram, p) == Freed(b.kind, b.base))
  }

  ghost predicate Inv(h: Heap) {
    && |h.ram| <= SIZE_MAX + 1
    && (forall p :: p in h.live ==> Sound(h.ram, p, h.live[p]))
    && (forall p, q :: p in h.live && q in h.live && p != q ==>
          Apart(h.live[p].base, h.live[p].length, h.live[q].base, h.live[q].length))
  }

  /** A header is read back from its eight bytes alone. */
  lemma SoundElsewhere(ram: seq<byte>, ram': seq<byte>, p: nat, b: Block)
    requires Sound(ram, p, b) && |ram'| == |ram|
    requires forall i :: p - HEADER <= i < p ==> ram'[i] == ram[i]
    ensures Sound(ram', p, b)
  {
  }

  lemma NewAlloc(h: Heap, size: nat, base: nat)
    requires |h.ram| <= SIZE_MAX + 1 && Enabled(h, AllocOp(size, base))
    ensures Sound(PutHeader(h.ram, base, KindFor(size), 0), base + HEADER, Plain(size, base))
  {
    hide Free, PutHeader;
    HeaderFound(h.ram, base, KindFor(size), 0);
  }

  lemma NewAligned(h: Heap, alignment: nat, size: nat, base: nat)
    requires |h.ram| <= SIZE_MAX + 1 && Enabled(h, AlignOp(alignment, size, base))
    ensures Sound(Aligned(h.ram, alignment, size, base), AlignedFrom(base, alignment),
                  AlignedBlock(alignment, size, base))
  {
    hide Free, Aligned, AlignedFrom, AlignValid;
    AlignedRoundTrip(alignment, size, base, |h.ram|);
    AlignValidMeans(alignment, size);
    PointerAligned(AlignedFrom(base, alignment), alignment);
  }

  lemma PointerAligned(p: nat, alignment: nat)
    requires IsPow2(alignment) && alignment >= PTR_SIZE && p % alignment == 0
    ensures p % PTR_SIZE == 0
  {
    var k := PowersOfTwo(alignment);
    assert Pow2(3) == 8 && Pow2(2) == 4;
    if k < 3 {
      Pow2Monotone(k, 2);
    }
    var m := Pow2Divides(3, k);
    hide Pow2;
    var q := p / alignment;
    assert p == alignment * q == 8 * (m * q);
    DivModUnique(p, 8, m * q, 0);
  }

  lemma AlignedInside(h: Heap, alignment: nat, size: nat, base: nat)
    requires |h.ram| <= SIZE_MAX + 1 && Enabled(h, AlignOp(alignment, size, base))
    ensures OnlyInside(h.ram, Aligned(h.ram, alignment, size, base), base, size + alignment + HEADER)
  {
    hide AlignedFrom, AlignValid, PutHeader, And;
    OffsetFits(alignment, size, base);
    var offset := OffsetOf(base, alignment) % TWO_TO_THE_32;
    HeaderInside(h.ram, base + offset, KindFor(size + alignment), offset, base, size + alignment + HEADER);
  }

  /** A write inside a block that meets no live one leaves every live pointer sound. */
  lemma OthersSound(h: Heap, ram': seq<byte>, lo: nat, n: nat, q: nat)
    requires Inv(h) && q in h.live && Apart(lo, n, h.live[q].base, h.live[q].length) && OnlyInside(h.ram, ram', lo, n)
    ensures Sound(ram', q, h.live[q])
  {
    assert Sound(h.ram, q, h.live[q]);
    SoundElsewhere(h.ram, ram', q, h.live[q]);
  }

  /** A new block beside the live ones, with its header in place. */
  lemma Added(h: Heap, ram': seq<byte>, ptr: nat, b: Block)
    requires Inv(h) && Room(h, b.base, b.length) && OnlyInside(h.ram, ram', b.base, b.length) && Sound(ram', ptr, b)
    ensures Inv(Heap(ram', h.live[ptr := b]))
  {
    hide Sound;
    forall q | q in h.live
      ensures Sound(ram', q, h.live[q])
    {
      OthersSound(h, ram', b.base, b.length, q);
    }
  }

  /** The owner of ptr writes its own bytes. */
  lemma OwnWrite(ram: seq<byte>, p: nat, b: Block, at: nat, bytes: seq<byte>)
    requires Sound(ram, p, b) && at + |bytes| <= b.size
    ensures OnlyInside(ram, Put(ram, p + at, bytes), b.base, b.length) && Sound(Put(ram, p + at, bytes), p, b)
  {
    SoundElsewhere(ram, Put(ram, p + at, bytes), p, b);
  }

  lemma Written(h: Heap, ptr: nat, ram': seq<byte>)
    requires Inv(h) && ptr in h.live && OnlyInside(h.ram, ram', h.live[ptr].base, h.live[ptr].length)
    requires Sound(ram', ptr, h.live[ptr])
    ensures Inv(h.(ram := ram'))
  {
    hide Sound;
    forall q | q in h.live
      ensures Sound(ram', q, h.live[q])
    {
      if q != ptr {
        OthersSound(h, ram', h.live[ptr].base, h.live[ptr].length, q);
      }
    }
  }

  lemma AllocStep(h: Heap, size: nat, base: nat)
    requires Inv(h) && Enabled(h, AllocOp(size, base))
    ensures Inv(Do(h, AllocOp(size, base)))
  {
    hide Sound, PutHeader, OnlyInside;
    NewAlloc(h, size, base);
    HeaderInside(h.ram, base, KindFor(size), 0, base, size + HEADER);
    Added(h, PutHeader(h.ram, base, KindFor(size), 0), base + HEADER, Plain(size, base));
  }

  lemma AlignStep(h: Heap, alignment: nat, size: nat, base: nat)
    requires Inv(h) && Enabled(h, AlignOp(alignment, size, base))
    ensures Inv(Do(h, AlignOp(alignment, size, base)))
  {
    hide Sound, Aligned, AlignedFrom, And, OnlyInside;
    NewAligned(h, alignment, size, base);
    AlignedInside(h, alignment, size, base);
    Added(h, Aligned(h.ram, alignment, size, base), AlignedFrom(base, alignment),
          AlignedBlock(alignment, size, base));
  }

  lemma WriteStep(h: Heap, ptr: nat, at: nat, bytes: seq<byte>)
    requires Inv(h) && Enabled(h, WriteOp(ptr, at, bytes))
    ensures Inv(Do(h, WriteOp(ptr, at, bytes)))
  {
    hide Sound, Put, OnlyInside;
    OwnWrite(h.ram, ptr, h.live[ptr], at, bytes);
    Written(h, ptr, Put(h.ram, ptr + at, bytes));
  }

  lemma StepInv(h: Heap, op: Op)
    requires Inv(h) && Enabled(h, op)
    ensures Inv(Do(h, op))
  {
    hide Sound, Put, PutHeader, Aligned, AlignedFrom, AlignValid, Apart;
    match op
    case AllocOp(size, base) => AllocStep(h, size, base);
    case AlignOp(alignment, size, base) => AlignStep(h, alignment, size, base);
    case WriteOp(ptr, at, bytes) => WriteStep(h, ptr, at, bytes);
    case FreeOp(ptr) => Released(h, ptr);
  }

  lemma Released(h: Heap, ptr: nat)
    requires Inv(h)
    ensures Inv(h.(live := h.live - {ptr}))
  {
    hide Sound;
  }

  ghost function Run(ram: seq<byte>, ops: seq<Op>): (r: Option<Heap>)
    requires |ram| <= SIZE_MAX + 1
    ensures r.Some? ==> |r.value.ram| == |ram|
  {
    if ops == [] then Some(Heap(ram, map[]))
    else
      match Run(ram, ops[..|ops| - 1])
      case None => None
      case Some(h) =>
        var op := ops[|ops| - 1];
        if Enabled(h, op) then Some(Do(h, op)) else None
  }

  /**
   Over any run of allocations, aligned allocations, writes by the owners into their own
   bytes, and frees of what is not far, on memory of any contents: a live pointer is
   aligned for a pointer, its bytes and its header lie inside its block, no two blocks
   meet, one of at most 128 KiB is kmalloc's and a larger one vmalloc's, and unless it is
   far, freeing it hands its own block back to the allocator it came from.
   */
  lemma {:induction false} FreeFindsBlock(ram: seq<byte>, ops: seq<Op>)
    requires |ram| <= SIZE_MAX + 1
    ensures var r := Run(ram, ops); r.Some? ==> Inv(r.value)
  {
    hide Enabled, Do, Inv;
    if ops == [] {
      NothingLive(ram);
    } else {
      FreeFindsBlock(ram, ops[..|ops| - 1]);
      var r, op := Run(ram, ops[..|ops| - 1]), ops[|ops| - 1];
      if r.Some? && Enabled(r.value, op) {
        StepInv(r.value, op);
      }
    }
  }

  lemma NothingLive(ram: seq<byte>)
    requires |ram| <= SIZE_MAX + 1
    ensures Inv(Heap(ram, map[]))
  {
  }

  /** An alignment of at most 2^32 always leaves an offset that fits. */
  lemma SmallAlignments(alignment: nat, size: nat, base: nat)
    requires AlignValid(alignment, size) && base + HEADER + size + alignment <= SIZE_MAX + 1
    requires alignment <= TWO_TO_THE_32
    ensures OffsetOf(base, alignment) < TWO_TO_THE_32
  {
    OffsetFits(alignment, size, base);
  }

  /** osal_mem.c over an array that is the whole memory; the kernel's answer is a parameter. */
  class Memory {
    const ram: array<byte>

    constructor (length: nat)
      ensures ram.Length == length
    {
      ram := new byte[length](i => 0);
    }

    method WriteHeader(a: nat, kind: Kind, offset: nat)
      requires a + HEADER <= ram.Length
      modifies ram
      ensures ram[..] == PutHeader(old(ram[..]), a, kind, offset)
    {
      var header := Bytes4(TypeOf(kind)) + Bytes4(offset);
      var i := 0;
      while i < HEADER
        invariant i <= HEADER
        invariant forall j :: 0 <= j < ram.Length ==> ram[j] == if a <= j < a + i then header[j - a] else old(ram[j])
      {
        ram[a + i] := header[i];
        i := i + 1;
      }
    }

    /** OsalMemAlloc. */
    method Alloc(size: nat, given: Option<nat>) returns (ptr: Option<nat>)
      requires given.Some? && AllocValid(size) ==> given.value + size + HEADER <= ram.Length
      modifies ram
      ensures ptr.Some? <==> AllocValid(size) && given.Some?
      ensures ptr.Some? ==>
                ptr.value == given.value + HEADER && ram[..] == PutHeader(old(ram[..]), given.value, KindFor(size), 0)
      ensures ptr.None? ==> ram[..] == old(ram[..])
    {
      if size == 0 || size > SIZE_MAX - HEADER || given.None? {
        return None;
      }
      WriteHeader(given.value, KindFor(size), 0);
      ptr := Some(given.value + HEADER);
    }

    /** OsalMemAllocAlign. */
    method AllocAlign(alignment: nat, size: nat, given: Option<nat>) returns (ptr: Option<nat>)
      requires alignment <= SIZE_MAX && ram.Length <= SIZE_MAX + 1
      requires given.Some? && AlignValid(alignment, size) ==> given.value + size + alignment + HEADER <= ram.Length
      modifies ram
      ensures ptr.Some? <==> AlignValid(alignment, size) && given.Some?
      ensures ptr.Some? ==>
                ptr.value == AlignedFrom(given.value, alignment)
                && ram[..] == Aligned(old(ram[..]), alignment, size, given.value)
      ensures ptr.None? ==> ram[..] == old(ram[..])
    {
      if !AlignValid(alignment, size) || given.None? {
        return None;
      }
      hide And, Bytes4, AlignValid;
      var base := given.value;
      OffsetFits(alignment, size, base);
      var aligned := AlignedFrom(base, alignment);
      var offset := (aligned - (base + HEADER)) % TWO_TO_THE_32;
      WriteHeader(base + offset, KindFor(size + alignment), offset);
      ptr := Some(aligned);
    }

    /** OsalMemFree; NULL is not freed. */
    method Release(ptr: Option<nat>) returns (freed: Freed)
      requires ptr.Some? ==> HEADER <= ptr.value <= ram.Length
      ensures freed == if ptr.Some? then Free(ram[..], ptr.value) else NotFreed
    {
      if ptr.None? {
        return NotFreed;
      }
      var kind, base := Le32(ram[..], ptr.value - 8), ptr.value - 8 - Le32(ram[..], ptr.value - 4);
      if kind == TYPE_KMALLOC {
        freed := Freed(Kmalloc, base);
      } else if kind == TYPE_VMALLOC {
        freed := Freed(Vmalloc, base);
      } else {
        freed := NotFreed;
      }
    }
  }
}
