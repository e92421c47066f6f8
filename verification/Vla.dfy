/**
 The vla_* macros: several arrays of different types carved out of one allocation.
 size_t is a word of w bits, so every sum and product wraps at 2^w.
 */
module Vla {
  import opened Bits

  const SIZE_T_BITS := 64

  /** vla_item(group, type, name, n): the type's alignment is 2^alignBits. */
  datatype Item = Item(alignBits: nat, sizeOf: nat, n: nat)

  /** A sum or product as a size_t holds it. */
  function Wrap(w: nat, x: nat): (r: nat)
    ensures r < Pow2(w)
    ensures r <= x && (x < Pow2(w) ==> r == x)
  {
    WrapSmall(x, Pow2(w));
    x % Pow2(w)
  }

  lemma WrapSmall(x: nat, d: nat)
    requires d > 0
    ensures x % d <= x && (x < d ==> x % d == x)
  {
  }

  function Size(item: Item): nat { item.sizeOf * item.n }

  ghost predicate AlignsFit(w: nat, items: seq<Item>) { forall i :: 0 <= i < |items| ==> items[i].alignBits <= w }

  /** The offset vla_item computes when the group so far ends at next. */
  function MaskedUp(w: nat, next: nat, alignBits: nat): nat
    requires alignBits <= w
  {
    var mask: nat := Pow2(alignBits) - 1;
    Pow2Monotone(alignBits, w);
    And(Wrap(w, next + mask), Pow2(w) - 1 - mask)
  }

  /** groupname__next after the first k items, and the offset of the item after them. */
  function NextAt(w: nat, items: seq<Item>, k: nat): (r: nat)
    requires AlignsFit(w, items) && k <= |items|
    ensures r < Pow2(w)
    decreases k, 0
  {
    if k == 0 then 0 else Wrap(w, OffsetAt(w, items, k - 1) + Wrap(w, Size(items[k - 1])))
  }

  function OffsetAt(w: nat, items: seq<Item>, k: nat): nat
    requires AlignsFit(w, items) && k < |items|
    decreases k, 1
  {
    MaskedUp(w, NextAt(w, items, k), items[k].alignBits)
  }

  // The layout that is wanted.

  /** The least multiple of a that is not below x. */
  function RoundUp(x: nat, a: nat): (r: nat)
    requires a > 0
    ensures x <= r < x + a && r % a == 0
    ensures forall y: nat :: x <= y && y % a == 0 ==> r <= y
  {
    var r := if x % a == 0 then x else x - x % a + a;
    RoundUpIs(x, a, r);
    r
  }

  lemma RoundUpIs(x: nat, a: nat, r: nat)
    requires a > 0 && r == if x % a == 0 then x else x - x % a + a
    ensures x <= r < x + a && r % a == 0
    ensures forall y: nat :: x <= y && y % a == 0 ==> r <= y
  {
    var q := x / a;
    assert x == a * q + x % a;
    if x % a != 0 {
      assert r == a * (q + 1);
      DivModUnique(r, a, q + 1, 0);
      forall y: nat | x <= y && y % a == 0
        ensures r <= y
      {
        assert y == a * (y / a);
        if y / a <= q {
          MulMonotone(a, y / a, q);
        } else {
          MulMonotone(a, q + 1, y / a);
        }
      }
    }
  }

  /** Where the first k items end, without any wrap. */
  function End(items: seq<Item>, k: nat): nat
    requires k <= |items|
    decreases k, 0
  {
    if k == 0 then 0 else Start(items, k - 1) + Size(items[k - 1])
  }

  function Start(items: seq<Item>, k: nat): nat
    requires k < |items|
    decreases k, 1
  {
    RoundUp(End(items, k), Pow2(items[k].alignBits))
  }

  /** Each item is aligned, begins no earlier than any item before it ends, and ends within the group. */
  ghost predicate LaidOut(items: seq<Item>, offsets: seq<nat>, group: nat) {
    && |offsets| == |items|
    && (forall i :: 0 <= i < |items| ==> offsets[i] % Pow2(items[i].alignBits) == 0)
    && (forall i, j :: 0 <= i < j < |items| ==> offsets[i] + Size(items[i]) <= offsets[j])
    && (forall i :: 0 <= i < |items| ==> offsets[i] + Size(items[i]) <= group)
  }

  function Offsets(w: nat, items: seq<Item>): seq<nat>
    requires AlignsFit(w, items)
  {
    seq(|items|, i requires 0 <= i < |items| => OffsetAt(w, items, i))
  }

  lemma MaskedUpAs(w: nat, next: nat, alignBits: nat, a: nat, word: nat)
    requires alignBits <= w && a == Pow2(alignBits) && word == Pow2(w)
    ensures a <= word
    ensures var x := (next + a - 1) % word; MaskedUp(w, next, alignBits) == x - x % a
  {
    Pow2Monotone(alignBits, w);
    var x := (next + (a - 1)) % word;
    MaskRoundsDown(x, alignBits, w);
    hide Pow2, And;
    assert word - 1 - (a - 1) == word - a;
  }

  /** The mask arithmetic rounds up, unless the sum wraps, and then it gives 0. */
  lemma MaskedUpIs(w: nat, next: nat, alignBits: nat)
    requires alignBits <= w && next < Pow2(w)
    ensures MaskedUp(w, next, alignBits) ==
            if RoundUp(next, Pow2(alignBits)) < Pow2(w) then RoundUp(next, Pow2(alignBits)) else 0
  {
    hide *;
    var a, word := Pow2(alignBits), Pow2(w);
    MaskedUpAs(w, next, alignBits, a, word);
    var m := Pow2Divides(alignBits, w);
    var y := next + a - 1;
    RoundDownUp(next, a);
    if y < word {
      SmallMod(y, word);
    } else {
      WrapOnce(y, word);
      SmallMod(y - word, a);
      MultipleAbove(word, a, m, RoundUp(next, a), y);
    }
  }

  lemma WrapOnce(y: nat, d: nat)
    requires d <= y < 2 * d
    ensures y % d == y - d
  {
  }

  lemma SmallMod(x: nat, d: nat)
    requires x < d
    ensures x % d == x
  {
  }

  /** Rounding x + a - 1 down is rounding x up. */
  lemma RoundDownUp(x: nat, a: nat)
    requires a > 0
    ensures x + a - 1 - (x + a - 1) % a == RoundUp(x, a)
  {
    var q, r := x / a, x % a;
    assert x == a * q + r;
    if r == 0 {
      DivModUnique(x + a - 1, a, q, a - 1);
    } else {
      assert x + a - 1 == a * (q + 1) + (r - 1);
      DivModUnique(x + a - 1, a, q + 1, r - 1);
    }
  }

  /** u is the multiple of a within a - 1 below y; w is a multiple of a not above y, so not above u. */
  lemma MultipleAbove(w: nat, a: nat, m: nat, u: nat, y: nat)
    requires a > 0 && w == a * m && w <= y && u == y - y % a
    ensures w <= u
  {
    var q := y / a;
    assert y == a * q + y % a;
    if m > q {
      MulMonotone(a, q + 1, m);
    } else {
      MulMonotone(a, m, q);
    }
  }

  lemma EndMonotone(items: seq<Item>, j: nat, k: nat)
    requires j <= k <= |items|
    ensures End(items, j) <= End(items, k)
    decreases k
  {
    if j < k {
      EndMonotone(items, j, k - 1);
    }
  }

  /** While the wanted layout fits in a word, the macros compute it. */
  lemma {:induction false} FollowsLayout(w: nat, items: seq<Item>, k: nat)
    requires AlignsFit(w, items) && k <= |items| && End(items, k) < Pow2(w)
    ensures NextAt(w, items, k) == End(items, k)
    ensures forall i :: 0 <= i < k ==> OffsetAt(w, items, i) == Start(items, i)
  {
    hide MaskedUp, RoundUp, Wrap, Pow2, Size;
    if k > 0 {
      EndMonotone(items, k - 1, k);
      FollowsLayout(w, items, k - 1);
      MaskedUpIs(w, NextAt(w, items, k - 1), items[k - 1].alignBits);
    }
  }

  lemma {:induction false} LayoutGood(items: seq<Item>, k: nat, i: nat)
    requires i < k <= |items|
    ensures Start(items, i) % Pow2(items[i].alignBits) == 0
    ensures Start(items, i) + Size(items[i]) <= End(items, k)
    ensures k < |items| ==> Start(items, i) + Size(items[i]) <= Start(items, k)
  {
    EndMonotone(items, i + 1, k);
  }

  /** If what the macros computed is a layout, nothing wrapped on the way. */
  lemma {:induction false} LayoutNeverWraps(w: nat, items: seq<Item>, k: nat)
    requires AlignsFit(w, items) && k <= |items|
    requires LaidOut(items, Offsets(w, items), NextAt(w, items, |items|))
    ensures End(items, k) < Pow2(w) && NextAt(w, items, k) == End(items, k)
  {
    hide MaskedUp, RoundUp, Wrap, Pow2, Size;
    if k > 0 {
      LayoutNeverWraps(w, items, k - 1);
      var i := k - 1;
      MaskedUpIs(w, NextAt(w, items, i), items[i].alignBits);
      assert Offsets(w, items)[i] == OffsetAt(w, items, i);
      if i > 0 {
        assert Offsets(w, items)[i - 1] == OffsetAt(w, items, i - 1);
        OneBefore(w, items, i);
      }
      RoundUpAtLeast(End(items, i), Pow2(items[i].alignBits));
    }
  }

  lemma RoundUpAtLeast(x: nat, a: nat)
    requires a > 0
    ensures RoundUp(x, a) >= x && RoundUp(0, a) == 0
  {
  }

  lemma OneBefore(w: nat, items: seq<Item>, i: nat)
    requires AlignsFit(w, items) && 0 < i < |items| && LaidOut(items, Offsets(w, items), NextAt(w, items, |items|))
    ensures OffsetAt(w, items, i - 1) + Size(items[i - 1]) <= OffsetAt(w, items, i)
  {
    hide OffsetAt, NextAt, Size, Pow2;
    var j := i - 1;
    assert 0 <= j < i;
    assert Offsets(w, items)[j] + Size(items[j]) <= Offsets(w, items)[i];
  }

  /** Without a wrap the macros compute the wanted layout. */
  lemma FittingLayout(w: nat, items: seq<Item>)
    requires AlignsFit(w, items) && End(items, |items|) < Pow2(w)
    ensures NextAt(w, items, |items|) == End(items, |items|)
    ensures forall i :: 0 <= i < |items| ==> Offsets(w, items)[i] == Start(items, i)
    ensures LaidOut(items, Offsets(w, items), NextAt(w, items, |items|))
  {
    hide OffsetAt, NextAt, RoundUp, Start, End, Pow2, Size;
    FollowsLayout(w, items, |items|);
    forall i, k | 0 <= i < k <= |items|
      ensures Start(items, i) % Pow2(items[i].alignBits) == 0
      ensures Start(items, i) + Size(items[i]) <= End(items, k)
      ensures k < |items| ==> Start(items, i) + Size(items[i]) <= Start(items, k)
    {
      LayoutGood(items, k, i);
    }
  }

  lemma FirstAtZero(items: seq<Item>)
    requires items != []
    ensures Start(items, 0) == 0
  {
    hide RoundUp, Pow2;
    RoundUpAtLeast(0, Pow2(items[0].alignBits));
  }

  /**
   For any list of items, the macros lay the regions out, aligned, disjoint, in order
   and within the group, exactly when the group fits in a word. The offsets are then
   the least possible, and the first item sits at 0, so that freeing it frees the chunk.
   */
  lemma Layout(w: nat, items: seq<Item>)
    requires AlignsFit(w, items)
    ensures LaidOut(items, Offsets(w, items), NextAt(w, items, |items|)) <==> End(items, |items|) < Pow2(w)
    ensures End(items, |items|) < Pow2(w) ==>
              && NextAt(w, items, |items|) == End(items, |items|)
              && (forall i :: 0 <= i < |items| ==> Offsets(w, items)[i] == Start(items, i))
              && (items != [] ==> Offsets(w, items)[0] == 0)
  {
    hide LaidOut, OffsetAt, NextAt, RoundUp, Start, End, Pow2, Size;
    if End(items, |items|) < Pow2(w) {
      FittingLayout(w, items);
      if items != [] {
        FirstAtZero(items);
      }
    }
    if LaidOut(items, Offsets(w, items), NextAt(w, items, |items|)) {
      LayoutNeverWraps(w, items, |items|);
    }
  }

  /** vla_group and vla_item: the running end of the group. */
  class Group {
    const w: nat      // bits of a size_t
    var next: nat
    ghost var items: seq<Item>

    ghost predicate Valid()
      reads this
    {
      AlignsFit(w, items) && next == NextAt(w, items, |items|)
    }

    constructor (w: nat)
      ensures Valid() && items == [] && this.w == w
    {
      this.w := w;
      next, items := 0, [];
    }

    method AddItem(item: Item) returns (offset: nat)
      requires Valid() && item.alignBits <= w
      modifies this
      ensures Valid() && items == old(items) + [item]
      ensures offset == OffsetAt(w, items, |old(items)|)
    {
      Prefix(w, items, items + [item], |items|);
      offset := MaskedUp(w, next, item.alignBits);
      items := items + [item];
      next := Wrap(w, offset + Wrap(w, Size(item)));
    }
  }

  lemma {:induction false} Prefix(w: nat, a: seq<Item>, b: seq<Item>, k: nat)
    requires a <= b && AlignsFit(w, b) && k <= |a|
    ensures NextAt(w, a, k) == NextAt(w, b, k)
  {
    hide MaskedUp, Wrap, Pow2, Size;
    if k > 0 {
      Prefix(w, a, b, k - 1);
    }
  }
}
