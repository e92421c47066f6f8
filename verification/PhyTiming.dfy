/**
 PLL and prepare-time settings of the MIPI D-PHY from the data rate of a lane in
 Mbit/s. The C arithmetic is on 32-bit unsigned words, and results are kept in a byte.
 A register value v stands for a time of 8000 (v + 1) / rate nanoseconds, of which
 the hardware takes up 10 before it begins to count.
 */
module PhyTiming {
  import opened Bytes

  const REF_CLK := 27
  const TCLK_PREPARE := 60
  const THS_PREPARE := 80
  const COMPENSATE := 10
  const ROUND_UP := 7999
  const PERIOD := 8000
  const NOT_FOUND: byte := 255

  /** A value as an unsigned 32-bit word. */
  function U32(x: int): (r: nat)
    ensures r < TWO_TO_THE_32
    ensures 0 <= x < TWO_TO_THE_32 ==> r == x
    ensures -TWO_TO_THE_32 <= x < 0 ==> r == x + TWO_TO_THE_32
  {
    x % TWO_TO_THE_32
  }

  function CeilDiv(a: nat, b: nat): nat
    requires b > 0
  {
    (a + b - 1) / b
  }

  /** temp0 of MipiTxDrvGetPhyClkPrepare and MipiTxDrvGetPhyDataPrepare, for prepare time t. */
  function Nested(rate: nat, t: nat): byte {
    var a := U32(rate * t + ROUND_UP) / PERIOD;
    var b := U32(rate * COMPENSATE + ROUND_UP) / PERIOD;
    var over := U32((a + b) * PERIOD - COMPENSATE * rate - t * rate) / PERIOD;
    U32(a - 1 + b - over) % 0x100
  }

  /** What is left of the time of a register value after the compensation, as the code computes it. */
  function Left(rate: nat, v: nat): nat { U32(U32((v + 1) * PERIOD) - U32(COMPENSATE * rate)) }

  /** MipiTxDrvGetPhyClkPrepare. */
  function ClkPrepare(rate: nat): byte {
    var v := Nested(rate, TCLK_PREPARE);
    if Left(rate, v) > U32(94 * rate) then if v > 0 then v - 1 else NOT_FOUND else v
  }

  /** MipiTxDrvGetPhyDataPrepare. */
  function DataPrepare(rate: nat): byte {
    var v := Nested(rate, THS_PREPARE);
    if rate > 105 && Left(rate, v) > U32(85 * rate + 6000) then if v > 0 then v - 1 else NOT_FOUND else v
  }

  /** The error value is what the code falls back to. */
  predicate ClkFails(rate: nat) {
    Nested(rate, TCLK_PREPARE) == 0 && Left(rate, 0) > U32(94 * rate)
  }

  predicate DataFails(rate: nat) {
    rate > 105 && Nested(rate, THS_PREPARE) == 0 && Left(rate, 0) > U32(85 * rate + 6000)
  }

  // Rates beyond this one leave no byte that meets either bound.
  const HIGHEST := 42666

  /** Up to this rate the comparisons do not wrap. */
  predicate Compares(rate: nat) { 104 * rate <= TWO_TO_THE_32 }

  /**
   As long as no word wraps, the nested expression is the whole time, rounded up to
   periods, less one: rounding twice and taking back what that overshot.
   */
  lemma NestedIsCeiling(rate: nat, t: nat)
    requires rate >= 1 && (t == TCLK_PREPARE || t == THS_PREPARE) && rate * t + ROUND_UP < TWO_TO_THE_32
    ensures Nested(rate, t) == (CeilDiv((t + COMPENSATE) * rate, PERIOD) - 1) % 0x100
  {
    var x, y := rate * t, rate * COMPENSATE;
    var a, b := (x + ROUND_UP) / PERIOD, (y + ROUND_UP) / PERIOD;
    var over := ((a + b) * PERIOD - (x + y)) / PERIOD;
    CeilingOfSum(x, y, a, b, over);
  }

  lemma CeilingOfSum(x: nat, y: nat, a: nat, b: nat, over: int)
    requires a == (x + ROUND_UP) / PERIOD && b == (y + ROUND_UP) / PERIOD
    requires over == ((a + b) * PERIOD - (x + y)) / PERIOD
    ensures x + y > 0 ==> CeilDiv(x + y, PERIOD) == a + b - over >= 1
    ensures 0 <= over <= 1
  {
  }

  lemma CeilingBounds(x: nat)
    requires x > 0
    ensures var c := CeilDiv(x, PERIOD) - 1; c >= 0 && PERIOD * c < x <= PERIOD * (c + 1)
  {
  }

  /** Within those rates the comparisons are of true values, except that a negative remainder looks enormous. */
  lemma LeftIs(rate: nat, v: byte)
    requires Compares(rate)
    ensures var left := PERIOD * (v + 1) - COMPENSATE * rate;
      Left(rate, v) == if left >= 0 then left else left + TWO_TO_THE_32
    ensures U32(94 * rate) == 94 * rate && U32(85 * rate + 6000) == 85 * rate + 6000
  {
  }

  /** Section 6.9 of MIPI D-PHY v1.1: 38 ns to 95 ns, here 94, in units of 1 / rate. */
  predicate ClkMet(rate: nat, v: nat) { 38 * rate <= PERIOD * (v + 1) - COMPENSATE * rate <= 94 * rate }

  /** 40 ns and 4 bit times to 85 ns and 6 bit times. */
  predicate DataMet(rate: nat, v: nat) {
    40 * rate + 4000 <= PERIOD * (v + 1) - COMPENSATE * rate <= 85 * rate + 6000
  }

  /** The clock's setting while it fits a byte: the ceiling, or one less where the ceiling is too long. */
  lemma ClkValue(rate: nat, c: nat)
    requires 1 <= rate <= 29257 && c == CeilDiv(70 * rate, PERIOD) - 1
    ensures ClkFails(rate) <==> rate < 77
    ensures rate >= 77 ==> ClkPrepare(rate) == if PERIOD * (c + 1) <= 104 * rate then c else c - 1
    ensures rate < 77 ==> ClkPrepare(rate) == NOT_FOUND
  {
    NestedIsCeiling(rate, TCLK_PREPARE);
    CeilingBounds(70 * rate);
    hide Nested, Left, U32, CeilDiv;
    assert Nested(rate, TCLK_PREPARE) == c;
    LeftIs(rate, c);
  }

  /**
   Beyond a byte the setting is what is left of the ceiling, and the error value is
   chosen when that is 0. It is far too short, except where it is first the error value.
   */
  lemma ClkOverflows(rate: nat, c: nat)
    requires rate >= 29258 && Compares(rate) && c == CeilDiv(70 * rate, PERIOD) - 1
    ensures ClkFails(rate) <==> c % 0x100 == 0
    ensures ClkMet(rate, ClkPrepare(rate)) <==> rate <= 29371
  {
    NestedIsCeiling(rate, TCLK_PREPARE);
    hide Nested, CeilDiv;
    LeftIs(rate, 0);
    if rate > HIGHEST {
      ClkHopeless(rate, ClkPrepare(rate));
    } else {
      ClkJustOver(rate, c);
    }
  }

  lemma ClkJustOver(rate: nat, c: nat)
    requires 29258 <= rate <= HIGHEST && c == CeilDiv(70 * rate, PERIOD) - 1
    ensures ClkMet(rate, ClkPrepare(rate)) <==> rate <= 29371
  {
    NestedIsCeiling(rate, TCLK_PREPARE);
    CeilingBounds(70 * rate);
    hide Nested, Left, U32, CeilDiv;
    assert Nested(rate, TCLK_PREPARE) == c - 0x100;
    LeftIs(rate, c - 0x100);
  }

  /** No byte will do beyond the highest rate, and at rate 0 nothing is measured. */
  lemma ClkHopeless(rate: nat, v: byte)
    requires rate == 0 || rate > HIGHEST
    ensures !ClkMet(rate, v)
  {
  }

  /** For every rate: the clock's prepare time is within the protocol's bounds exactly from 77 to 29371 Mbit/s. */
  lemma ClkPrepareMet(rate: nat)
    requires rate < TWO_TO_THE_32
    ensures ClkMet(rate, ClkPrepare(rate)) <==> 77 <= rate <= 29371
  {
    hide ClkPrepare, CeilDiv;
    if rate == 0 || rate > HIGHEST {
      ClkHopeless(rate, ClkPrepare(rate));
    } else if rate <= 29257 {
      CeilingBounds(70 * rate);
      ClkValue(rate, CeilDiv(70 * rate, PERIOD) - 1);
    } else {
      CeilingBounds(70 * rate);
      ClkOverflows(rate, CeilDiv(70 * rate, PERIOD) - 1);
    }
  }

  lemma DataValue(rate: nat, c: nat)
    requires 1 <= rate <= 22755 && c == CeilDiv(90 * rate, PERIOD) - 1
    ensures !DataFails(rate)
    ensures DataPrepare(rate) == if rate <= 105 || PERIOD * (c + 1) <= 95 * rate + 6000 then c else c - 1
  {
    NestedIsCeiling(rate, THS_PREPARE);
    CeilingBounds(90 * rate);
    hide Nested, Left, U32, CeilDiv;
    assert Nested(rate, THS_PREPARE) == c;
    LeftIs(rate, c);
  }

  lemma DataOverflows(rate: nat)
    requires 22756 <= rate <= HIGHEST
    ensures DataMet(rate, DataPrepare(rate)) <==> rate <= 22844
    ensures rate <= 22844 ==> DataFails(rate)
  {
    NestedIsCeiling(rate, THS_PREPARE);
    CeilingBounds(90 * rate);
    var c := CeilDiv(90 * rate, PERIOD) - 1;
    var v := c - 0x100;
    hide Nested, Left, U32, CeilDiv;
    assert Nested(rate, THS_PREPARE) == v;
    LeftIs(rate, v);
  }

  lemma DataHopeless(rate: nat, v: byte)
    requires rate > HIGHEST
    ensures !DataMet(rate, v)
  {
  }

  /**
   For every rate: the data lanes' prepare time is within the bounds exactly from 22 to 80 and 106 to
   22844 Mbit/s.
   */
  lemma DataPrepareMet(rate: nat)
    requires rate < TWO_TO_THE_32
    ensures DataMet(rate, DataPrepare(rate)) <==> 22 <= rate <= 80 || 106 <= rate <= 22844
  {
    if rate == 0 {
    } else {
      hide DataPrepare, CeilDiv;
      if rate > HIGHEST {
        DataHopeless(rate, DataPrepare(rate));
      } else if rate <= 22755 {
        CeilingBounds(90 * rate);
        DataValue(rate, CeilDiv(90 * rate, PERIOD) - 1);
      } else {
        DataOverflows(rate);
      }
    }
  }

  /** MipiTxDrvGetPhyPllSet0. */
  function PllSet0(rate: nat): byte {
    if rate > 750 then 0x0 else if rate > 375 then 0x8 else if rate > 188 then 0xa else if rate > 94 then 0xc else 0xe
  }

  function PllRef(set0: byte): nat {
    if set0 / 2 == 4 then 2 else if set0 / 2 == 5 then 4
    else if set0 / 2 == 6 then 8 else if set0 / 2 == 7 then 16 else 1
  }

  /** The factor by which it divides, a power of two, brings a rate of 47 to 1500 Mbit/s to between 751 and 1504. */
  lemma PllDivides(rate: nat)
    ensures var ref := PllRef(PllSet0(rate));
      && (ref == 1 || ref == 2 || ref == 4 || ref == 8 || ref == 16)
      && (ref < 16 ==> 751 <= rate * ref)
      && (ref > 1 ==> rate * ref <= 1504)
      && (rate >= 47 ==> 751 <= rate * ref)
  {
  }

  /** MipiTxDrvGetPhyPllSet1Set5. */
  function PllSet1Set5(rate: nat, set0: byte): (byte, byte) {
    var factor := U32(rate + REF_CLK - 1) / REF_CLK * PllRef(set0);
    if factor % 2 == 1 then (0x10, ((factor - 1) / 2 % 0x100) as byte) else (0x20, ((factor / 2 - 1) % 0x100) as byte)
  }

  /** The multiple of the reference clock that the two registers stand for. */
  function Factor(set1: byte, set5: byte): nat { 2 * set5 + if set1 == 0x10 then 1 else 2 }

  /**
   The registers stand for the least multiple of the reference clock that, divided by
   the setting of pllSet0, is not below the rate, exactly up to 512 times the reference.
   */
  lemma PllFactor(rate: nat)
    requires rate < TWO_TO_THE_32
    ensures var ref, s := PllRef(PllSet0(rate)), PllSet1Set5(rate, PllSet0(rate));
      && (Factor(s.0, s.1) == CeilDiv(rate, REF_CLK) * ref <==> 1 <= rate <= 13824)
      && (1 <= rate <= 13824 ==> rate * ref <= REF_CLK * Factor(s.0, s.1) < (rate + REF_CLK) * ref)
  {
    var q, ref := CeilDiv(rate, REF_CLK), PllRef(PllSet0(rate));
    assert rate <= REF_CLK * q < rate + REF_CLK;
    assert rate + REF_CLK - 1 < TWO_TO_THE_32 ==> U32(rate + REF_CLK - 1) / REF_CLK == q;
    assert ref == 1 || ref == 2 || ref == 4 || ref == 8 || ref == 16;
    if rate + REF_CLK - 1 < TWO_TO_THE_32 {
      hide CeilDiv, U32, PllRef;
      FactorKept(q * ref, PllSet1Set5(rate, PllSet0(rate)));
    }
  }

  lemma FactorKept(factor: nat, s: (byte, byte))
    requires s ==
             if factor % 2 == 1 then (0x10 as byte, ((factor - 1) / 2 % 0x100) as byte)
             else (0x20 as byte, ((factor / 2 - 1) % 0x100) as byte)
    ensures Factor(s.0, s.1) == factor <==> 1 <= factor <= 512
  {
  }
}
