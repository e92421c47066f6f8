/**
 The single chunk _ffs_func_bind allocates: twelve arrays carved with the vla_* macros.
 Three of them, the descriptor lists, are sized by a 32-bit sum.
 */
module BindChunk {
  import opened Bits
  import opened Bytes
  import opened Vla
  import opened OsDescs
  import opened DescParser
  import opened BindModel

  const FFS_EP_SIZE := 48
  const POINTER_SIZE := 8

  /** What the chunk is to hold; useOs is cdev->use_os_string, length that of the raw descriptors. */
  datatype Demand = Demand(counts: Counts, endpoints: nat, interfaces: nat, sizes: OsSizes, length: nat, useOs: bool)

  /** What validation leaves are 32-bit numbers, and a name is counted twice. */
  predicate Demand32(d: Demand) {
    && d.endpoints < TWO_TO_THE_32 && d.interfaces < TWO_TO_THE_32 && d.length < TWO_TO_THE_32
    && d.sizes.props < TWO_TO_THE_32 && d.sizes.names < 2 * TWO_TO_THE_32 && d.sizes.datas < TWO_TO_THE_32
  }

  /** The arrays in order. */
  function Chunk(k: Kernel, d: Demand): (r: seq<Item>)
    ensures |r| == 12 && forall i :: 0 <= i < 12 ==> r[i].alignBits <= 3
  {
    var n := if d.useOs then d.interfaces else 0;
    [Item(3, FFS_EP_SIZE, d.endpoints),
     Item(3, POINTER_SIZE, ListRoom(d.counts[0])),
     Item(3, POINTER_SIZE, ListRoom(d.counts[1])),
     Item(3, POINTER_SIZE, ListRoom(d.counts[2])),
     Item(1, 2, d.interfaces),
     Item(3, k.osTable, n),
     Item(0, 16, n),
     Item(3, k.osDesc, n),
     Item(3, k.osProp, d.sizes.props),
     Item(0, 1, d.sizes.names),
     Item(0, 1, d.sizes.datas),
     Item(0, 1, d.length)]
  }

  function ChunkSize(k: Kernel, d: Demand): nat { NextAt(SIZE_T_BITS, Chunk(k, d), 12) }

  /** Every item is aligned for a pointer at most, and no larger than most. */
  ghost predicate Bounded(items: seq<Item>, most: nat) {
    forall i :: 0 <= i < |items| ==> items[i].alignBits <= 3 && Size(items[i]) <= most
  }

  lemma {:induction false} EndBounded(items: seq<Item>, k: nat, most: nat)
    requires Bounded(items, most) && k <= |items|
    ensures End(items, k) <= k * (most + 8)
  {
    hide Size, RoundUp;
    if k > 0 {
      EndBounded(items, k - 1, most);
      Pow2Monotone(items[k - 1].alignBits, 3);
      assert Pow2(3) == 8;
      assert k * (most + 8) == (k - 1) * (most + 8) + (most + 8);
    }
  }

  lemma Product(a: nat, b: nat, x: nat, y: nat)
    requires a <= x && b <= y
    ensures a * b <= x * y
  {
  }

  const MOST := 0x1_0000_0000_0000

  lemma ChunkBounded(k: Kernel, d: Demand)
    requires KernelOk(k) && Demand32(d)
    ensures Bounded(Chunk(k, d), MOST)
  {
    var n := if d.useOs then d.interfaces else 0;
    Product(k.osTable, n, TWO_TO_THE_16, TWO_TO_THE_32);
    Product(k.osDesc, n, TWO_TO_THE_16, TWO_TO_THE_32);
    Product(k.osProp, d.sizes.props, TWO_TO_THE_16, TWO_TO_THE_32);
  }

  /**
   The twelve arrays are aligned, apart and inside the chunk, whose size has not wrapped,
   and the first one, by which the chunk is freed later, begins it. Each is as large as what
   the passes put there.
   */
  lemma ChunkLaidOut(k: Kernel, d: Demand)
    requires KernelOk(k) && Demand32(d)
    ensures AlignsFit(SIZE_T_BITS, Chunk(k, d))
    ensures LaidOut(Chunk(k, d), Offsets(SIZE_T_BITS, Chunk(k, d)), ChunkSize(k, d))
    ensures Offsets(SIZE_T_BITS, Chunk(k, d))[0] == 0
    ensures ArraysHold(Chunk(k, d), k, d)
  {
    ChunkBounded(k, d);
    SmallLaidOut(k, d, MOST);
    ArraysFit(k, d);
  }

  /**
   The sizes in bytes: the endpoints; a list of pointers for each speed, one more than its
   descriptors; the interface numbers; for each interface an OS table entry, an id and a
   descriptor; and the properties, their names and data, and the raw descriptors.
   */
  ghost predicate ArraysHold(items: seq<Item>, k: Kernel, d: Demand)
    requires |items| == 12
  {
    && Size(items[0]) == 48 * d.endpoints
    && (forall s :: 0 <= s < 3 && d.counts[s] == 0 ==> Size(items[s + 1]) == 0)
    && (forall s :: 0 <= s < 3 && 0 < d.counts[s] < 0xFFFF_FFFF ==> Size(items[s + 1]) == 8 * (d.counts[s] + 1))
    && Size(items[4]) == 2 * d.interfaces
    && (d.useOs ==>
          && Size(items[5]) == k.osTable * d.interfaces && Size(items[6]) == 16 * d.interfaces
          && Size(items[7]) == k.osDesc * d.interfaces)
    && Size(items[8]) == k.osProp * d.sizes.props && Size(items[9]) == d.sizes.names
    && Size(items[10]) == d.sizes.datas && Size(items[11]) == d.length
  }

  lemma ArraysFit(k: Kernel, d: Demand)
    ensures ArraysHold(Chunk(k, d), k, d)
  {
    forall s | 0 <= s < 3
      ensures Size(Chunk(k, d)[s + 1]) == 8 * ListRoom(d.counts[s])
    {
      ListSize(k, d, s);
    }
    hide Chunk, Size;
    OtherSizes(k, d);
  }

  lemma OtherSizes(k: Kernel, d: Demand)
    ensures var c := Chunk(k, d);
      && Size(c[0]) == 48 * d.endpoints && Size(c[4]) == 2 * d.interfaces
      && (d.useOs ==>
            && Size(c[5]) == k.osTable * d.interfaces && Size(c[6]) == 16 * d.interfaces
            && Size(c[7]) == k.osDesc * d.interfaces)
      && Size(c[8]) == k.osProp * d.sizes.props && Size(c[9]) == d.sizes.names
      && Size(c[10]) == d.sizes.datas && Size(c[11]) == d.length
  {
    hide ListRoom;
  }

  /** Twelve items of any moderate size do not wrap. */
  lemma SmallLaidOut(k: Kernel, d: Demand, most: nat)
    requires Bounded(Chunk(k, d), most) && most <= MOST
    ensures AlignsFit(SIZE_T_BITS, Chunk(k, d)) && ChunkSize(k, d) <= 12 * (most + 8)
    ensures LaidOut(Chunk(k, d), Offsets(SIZE_T_BITS, Chunk(k, d)), ChunkSize(k, d))
    ensures Offsets(SIZE_T_BITS, Chunk(k, d))[0] == 0
  {
    hide Chunk, Pow2, End, NextAt, OffsetAt, RoundUp, Bounded, LaidOut;
    EndBounded(Chunk(k, d), 12, most);
    Words();
    Layout(SIZE_T_BITS, Chunk(k, d));
  }

  /**
   Validation allows 2^32 - 1 zero-length descriptors, and then the list has no entry;
   any other list has one for each descriptor and the NULL behind them.
   */
  lemma RoomForAll(count: nat)
    requires count < TWO_TO_THE_32
    ensures count < ListRoom(count) <==> 0 < count != TWO_TO_THE_32 - 1
    ensures count == TWO_TO_THE_32 - 1 ==> ListRoom(count) == 0
    ensures 0 < count != TWO_TO_THE_32 - 1 ==> ListRoom(count) == count + 1
  {
  }

  lemma ListInChunk(k: Kernel, d: Demand, s: nat)
    requires KernelOk(k) && Demand32(d) && s < 3
    ensures POINTER_SIZE * ListRoom(d.counts[s]) <= ChunkSize(k, d)
  {
    hide Chunk, ListRoom, NextAt, OffsetAt, Size, LaidOut, Offsets, ChunkSize;
    var items := Chunk(k, d);
    ListSize(k, d, s);
    ChunkLaidOut(k, d);
    ItemInside(items, Offsets(SIZE_T_BITS, items), ChunkSize(k, d), s + 1);
  }

  lemma ListSize(k: Kernel, d: Demand, s: nat)
    requires s < 3
    ensures Size(Chunk(k, d)[s + 1]) == POINTER_SIZE * ListRoom(d.counts[s])
  {
    hide ListRoom;
  }

  lemma ItemInside(items: seq<Item>, offsets: seq<nat>, group: nat, i: nat)
    requires LaidOut(items, offsets, group) && i < |items|
    ensures Size(items[i]) <= group
  {
    hide Size;
    assert offsets[i] + Size(items[i]) <= group;
  }

  /** When the chunk can be had and no list has wrapped, the 32-bit sum of the counts is their sum. */
  lemma CountsAddUp(k: Kernel, d: Demand)
    requires KernelOk(k) && Demand32(d) && ChunkSize(k, d) <= k.memory
    requires forall s :: 0 <= s < 3 ==> d.counts[s] < TWO_TO_THE_32 && d.counts[s] != TWO_TO_THE_32 - 1
    ensures d.counts[0] + d.counts[1] + d.counts[2] < TWO_TO_THE_32
  {
    hide Chunk, ListRoom, ChunkSize;
    forall s | 0 <= s < 3
      ensures POINTER_SIZE * d.counts[s] < TWO_TO_THE_32
    {
      ListInChunk(k, d, s);
      RoomForAll(d.counts[s]);
    }
  }
}
