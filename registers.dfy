/** The six 32-bit words of the ADF4351 as `computeRegisterValues` packs
    them, the dirty mask it derives by comparing them with the stored bank,
    and the order in which `writeRegisters` sends the dirty ones. */
module Registers {
  import opened Planner

  /** The number of registers of the chip. */
  const NumRegs: nat := 6

  /** The fixed bits every new word starts from; the low three bits of
      template `i` are the control field `i`. */
  const Templates: seq<bv32> := [0x0, 0x1, 0x4e42, 0x4b3, 0xac8024, 0x580005]

  /** A C `bool` promoted to an integer. */
  function BoolBit(b: bool): bv32 {
    if b then 1 else 0
  }

  /** `1 << i` for the eight bits of a `uint8_t`. */
  const BitValues: seq<bv8> := [1, 2, 4, 8, 16, 32, 64, 128]

  /** Bit `i` of an 8-bit mask. */
  predicate Bit(m: bv8, i: nat)
    requires i < 8
  {
    m & BitValues[i] != 0
  }

  /** The values of the three-bit control field. */
  const ControlValues: seq<bv32> := [0, 1, 2, 3, 4, 5, 6, 7]

  /** The control field of `w` (its low three bits) names register `i`. */
  predicate Addresses(w: bv32, i: nat)
    requires i < 8
  {
    w & 0x7 == ControlValues[i]
  }

  /** The register index the driver computes as `regVal & 0x7`. */
  function ControlField(w: bv32): (r: nat)
    ensures r < 8 && Addresses(w, r)
  {
    var r := (w & 0x7) as nat;
    ControlFieldValue(w);
    r
  }

  lemma ControlFieldValue(w: bv32)
    ensures (w & 0x7) as nat < 8 && Addresses(w, (w & 0x7) as nat)
  {
    var f := w & 0x7;
    if f == 0 {
    } else if f == 1 {
    } else if f == 2 {
    } else if f == 3 {
    } else if f == 4 {
    } else if f == 5 {
    } else if f == 6 {
    } else {
    }
  }

  /** A word addresses one register only. */
  lemma AddressesUnique(w: bv32, i: nat, j: nat)
    requires i < 8 && j < 8 && Addresses(w, i) && Addresses(w, j)
    ensures i == j
  {
  }

  /** One clear-then-OR step of register 4: the field `mask << pos` is
      cleared and `v & mask` put in its place. */
  function SetField(w: bv32, mask: bv32, pos: bv32, v: bv32): bv32
    requires pos < 32
  {
    (w & !(mask << pos)) | ((v & mask) << pos)
  }

  // ---------------------------------------------------------------------
  // The words

  function Register0(resultInt: bv32, resultFrac: bv32): bv32 {
    Templates[0] | ((resultInt & 0xffff) << 15) | ((resultFrac & 0xfff) << 3)
  }

  function Register1(resultMod: bv32, phaseValue: bv32, resultPrescaler: bv32, phaseAdjust: bool): bv32 {
    Templates[1] | ((resultMod & 0xfff) << 3) | ((phaseValue & 0xfff) << 15)
      | ((resultPrescaler & 0x1) << 27) | ((BoolBit(phaseAdjust) & 0x1) << 28)
  }

  function Register2(integerN: bool, referenceDivide: bool, referenceDouble: bool): bv32 {
    var w := if integerN then Templates[2] | (1 << 8) else Templates[2];
    w | ((BoolBit(referenceDivide) & 0x1) << 24) | ((BoolBit(referenceDouble) & 0x1) << 25)
  }

  function Register4(outputPowerVal: bv32, outputEnable: bool, auxPowerVal: bv32, auxEnable: bool,
                     auxDivide: bool, muteTillLockDetect: bool, rfDiv: bv32): bv32
  {
    var w := SetField(Templates[4], 0x3, 3, outputPowerVal);
    var w := SetField(w, 0x1, 5, BoolBit(outputEnable));
    var w := SetField(w, 0x3, 6, auxPowerVal);
    var w := SetField(w, 0x1, 8, BoolBit(auxEnable));
    var w := SetField(w, 0x1, 9, BoolBit(!auxDivide));
    var w := SetField(w, 0x1, 10, BoolBit(muteTillLockDetect));
    SetField(w, 0x7, 20, rfDiv)
  }

  /** Register 0 carries INT in bits 15-30 and FRAC in bits 3-14. */
  lemma Register0Fields(resultInt: bv32, resultFrac: bv32)
    ensures var w := Register0(resultInt, resultFrac);
      && w & 0x7 == 0
      && (w >> 3) & 0xfff == resultFrac & 0xfff
      && (w >> 15) & 0xffff == resultInt & 0xffff
      && w >> 31 == 0
  {
  }

  /** Register 1 carries MOD in bits 3-14, the phase in bits 15-26, the
      prescaler in bit 27 and phase adjust in bit 28. */
  lemma Register1Fields(resultMod: bv32, phaseValue: bv32, resultPrescaler: bv32, phaseAdjust: bool)
    ensures var w := Register1(resultMod, phaseValue, resultPrescaler, phaseAdjust);
      && w & 0x7 == 1
      && (w >> 3) & 0xfff == resultMod & 0xfff
      && (w >> 15) & 0xfff == phaseValue & 0xfff
      && (w >> 27) & 0x1 == resultPrescaler & 0x1
      && (w >> 28) & 0x1 == BoolBit(phaseAdjust)
      && w >> 29 == 0
  {
  }

  /** Register 2 is its template with integer-N in bit 8, the reference
      divider in bit 24 and the doubler in bit 25. */
  lemma Register2Fields(integerN: bool, referenceDivide: bool, referenceDouble: bool)
    ensures var w := Register2(integerN, referenceDivide, referenceDouble);
      && w & 0x7 == 2
      && (w >> 8) & 0x1 == BoolBit(integerN)
      && (w >> 24) & 0x1 == BoolBit(referenceDivide)
      && (w >> 25) & 0x1 == BoolBit(referenceDouble)
      && w & !0x0300_0100 == Templates[2]
  {
  }

  /** The bits of register 4 that the driver rewrites. */
  const Register4Fields: bv32 := 0x0070_07f8

  /** Register 4 carries the output power code in bits 3-4, the output
      enable in bit 5, the aux power code in bits 6-7, the aux enable in
      bit 8, the inverted aux divide in bit 9, mute-till-lock in bit 10 and
      the DIV index in bits 20-22; all other bits are those of the
      template. */
  lemma Register4Decodes(outputPowerVal: bv32, outputEnable: bool, auxPowerVal: bv32, auxEnable: bool,
                         auxDivide: bool, muteTillLockDetect: bool, rfDiv: bv32)
    ensures var w := Register4(outputPowerVal, outputEnable, auxPowerVal, auxEnable,
                               auxDivide, muteTillLockDetect, rfDiv);
      && (w >> 3) & 0x3 == outputPowerVal & 0x3
      && (w >> 5) & 0x1 == BoolBit(outputEnable)
      && (w >> 6) & 0x3 == auxPowerVal & 0x3
      && (w >> 8) & 0x1 == BoolBit(auxEnable)
      && (w >> 9) & 0x1 == BoolBit(!auxDivide)
      && (w >> 10) & 0x1 == BoolBit(muteTillLockDetect)
      && (w >> 20) & 0x7 == rfDiv & 0x7
      && w & !Register4Fields == Templates[4] & !Register4Fields
  {
  }

  /** The planner's results as the `uint32_t` values that are masked and
      shifted into the words. */
  datatype Fields = Fields(
    resultInt: bv32,
    resultFrac: bv32,
    resultMod: bv32,
    phaseValue: bv32,
    resultPrescaler: bv32,
    outputPowerVal: bv32,
    auxPowerVal: bv32,
    rfDiv: bv32)

  function FieldsOf(p: Plan): (f: Fields)
    requires p.dividers.rfDiv <= 6 && p.output.code <= 3 && p.aux.code <= 3
  {
    var d := p.dividers;
    Fields(d.resultInt as bv32, d.resultFrac as bv32, d.resultMod as bv32, p.phaseValue as bv32,
           d.resultPrescaler as bv32, p.output.code as bv32, p.aux.code as bv32, DivField(d.rfDiv))
  }

  /** The DIV index as a `uint32_t`; it fits the three-bit field. */
  function DivField(rfDiv: nat): (b: bv32)
    requires rfDiv <= 6
    ensures b & 0x7 == b
  {
    rfDiv as bv32
  }

  /** The six words built from the templates and the configuration flags. */
  function Pack(c: Config, f: Fields): (w: seq<bv32>)
    ensures |w| == NumRegs
  {
    [ Register0(f.resultInt, f.resultFrac),
      Register1(f.resultMod, f.phaseValue, f.resultPrescaler, c.phaseAdjust),
      Register2(c.integerN, c.referenceDivide, c.referenceDouble),
      Templates[3],
      Register4(f.outputPowerVal, c.outputEnable, f.auxPowerVal, c.auxEnable,
                c.auxDivide, c.muteTillLockDetect, f.rfDiv),
      Templates[5] ]
  }

  /** Every packed word addresses its own register. */
  lemma PackControl(c: Config, f: Fields)
    ensures var w := Pack(c, f);
      && w[0] & 0x7 == 0 && w[1] & 0x7 == 1 && w[2] & 0x7 == 2
      && w[3] & 0x7 == 3 && w[4] & 0x7 == 4 && w[5] & 0x7 == 5
  {
    Register0Fields(f.resultInt, f.resultFrac);
    Register1Fields(f.resultMod, f.phaseValue, f.resultPrescaler, c.phaseAdjust);
    Register2Fields(c.integerN, c.referenceDivide, c.referenceDouble);
    Register4Control(f.outputPowerVal, c.outputEnable, f.auxPowerVal, c.auxEnable,
                     c.auxDivide, c.muteTillLockDetect, f.rfDiv);
  }

  /** Registers 3 and 5 are constant, and the DIV field of register 4 is
      the DIV index. */
  lemma PackLayout(c: Config, f: Fields)
    requires f.rfDiv & 0x7 == f.rfDiv
    ensures var w := Pack(c, f);
      && w[3] == 0x4b3 && w[5] == 0x580005
      && (w[4] >> 20) & 0x7 == f.rfDiv
  {
    Register4Decodes(f.outputPowerVal, c.outputEnable, f.auxPowerVal, c.auxEnable,
                     c.auxDivide, c.muteTillLockDetect, f.rfDiv);
  }

  /** The six new words for a configuration the planner accepts. */
  function Words(c: Config): (w: seq<bv32>)
    requires Computable(c)
    ensures |w| == NumRegs
  {
    Pack(c, FieldsOf(PlanOf(c)))
  }

  /** The new words address their own registers, registers 3 and 5 are
      the templates, and bits 20-22 of register 4 hold the DIV index the
      search chose. */
  lemma WordsLayout(c: Config)
    requires Computable(c)
    ensures var w := Words(c);
      && (forall i :: 0 <= i < NumRegs ==> Addresses(w[i], i))
      && w[3] == 0x4b3 && w[5] == 0x580005
      && (w[4] >> 20) & 0x7 == DivField(DividersOf(c).rfDiv)
  {
    var w := Words(c);
    PackControl(c, FieldsOf(PlanOf(c)));
    PackLayout(c, FieldsOf(PlanOf(c)));
    forall i | 0 <= i < NumRegs
      ensures Addresses(w[i], i)
    {
      if i == 0 {
      } else if i == 1 {
      } else if i == 2 {
      } else if i == 3 {
      } else if i == 4 {
      } else {
      }
    }
  }

  /** The control bits of register 4 are outside the rewritten fields. */
  lemma Register4Control(outputPowerVal: bv32, outputEnable: bool, auxPowerVal: bv32, auxEnable: bool,
                         auxDivide: bool, muteTillLockDetect: bool, rfDiv: bv32)
    ensures Register4(outputPowerVal, outputEnable, auxPowerVal, auxEnable,
                      auxDivide, muteTillLockDetect, rfDiv) & 0x7 == 4
  {
  }

  // ---------------------------------------------------------------------
  // The dirty mask

  /** The bits the comparison loop sets after looking at registers
      `0 .. n-1`: bit `i` exactly when the stored word differs from the new
      one. */
  function DiffMask(bank: seq<bv32>, words: seq<bv32>, n: nat): bv8
    requires |bank| == NumRegs && |words| == NumRegs && n <= NumRegs
  {
    if n == 0 then 0
    else DiffMask(bank, words, n - 1) | (if bank[n - 1] != words[n - 1] then BitValues[n - 1] else 0)
  }

  /** One pass of the comparison loop in terms of the mask so far. */
  lemma DiffMaskStep(bank: seq<bv32>, words: seq<bv32>, n: nat)
    requires |bank| == NumRegs && |words| == NumRegs && n < NumRegs
    ensures DiffMask(bank, words, n + 1)
            == if bank[n] != words[n] then DiffMask(bank, words, n) | BitValues[n] else DiffMask(bank, words, n)
  {
  }

  /** The comparison mask has bit `i` set exactly when `i < n` and word `i`
      changed. */
  lemma {:induction false} DiffMaskBits(bank: seq<bv32>, words: seq<bv32>, n: nat)
    requires |bank| == NumRegs && |words| == NumRegs && n <= NumRegs
    ensures forall i :: 0 <= i < 8 ==> (Bit(DiffMask(bank, words, n), i) <==> i < n && bank[i] != words[i])
  {
    if n == 0 {
      NoBits();
    } else {
      DiffMaskBits(bank, words, n - 1);
      var prev := DiffMask(bank, words, n - 1);
      var add: bv8 := if bank[n - 1] != words[n - 1] then BitValues[n - 1] else 0;
      assert DiffMask(bank, words, n) == prev | add;
      AddBit(bank, words, n, prev, add);
    }
  }

  /** One pass of the comparison loop sets bit `k` exactly when word `k`
      changed and keeps the bits already set. */
  lemma AddBit(bank: seq<bv32>, words: seq<bv32>, n: nat, prev: bv8, add: bv8)
    requires |bank| == NumRegs && |words| == NumRegs && 1 <= n <= NumRegs
    requires forall i :: 0 <= i < 8 ==> (Bit(prev, i) <==> i < n - 1 && bank[i] != words[i])
    requires add == if bank[n - 1] != words[n - 1] then BitValues[n - 1] else 0
    ensures forall i :: 0 <= i < 8 ==> (Bit(prev | add, i) <==> i < n && bank[i] != words[i])
  {
    forall i | 0 <= i < 8
      ensures Bit(prev | add, i) <==> i < n && bank[i] != words[i]
    {
      OrBit(prev, add, i);
      NoBit(i);
      SingleBit(n - 1, i);
    }
  }

  /** `1 << k` in a `uint8_t` is the table's bit value. */
  lemma ShiftedOne(k: nat)
    requires k < 8
    ensures (1 as bv8) << k == BitValues[k]
  {
    if k == 0 {
    } else if k == 1 {
    } else if k == 2 {
    } else if k == 3 {
    } else if k == 4 {
    } else if k == 5 {
    } else if k == 6 {
    } else {
    }
  }

  /** The driver's test `(registerMask >> regId) & 1` reads bit `regId`. */
  lemma ShiftedBit(m: bv8, i: nat)
    requires i < 8
    ensures (m >> i) & 1 == 1 <==> Bit(m, i)
  {
    if i == 0 {
    } else if i == 1 {
    } else if i == 2 {
    } else if i == 3 {
    } else if i == 4 {
    } else if i == 5 {
    } else if i == 6 {
    } else {
    }
  }

  /** `1 << k` as the comparison loop ORs it into a `uint8_t` mask. */
  function ShiftOne(k: nat): (b: bv8)
    requires k < 8
    ensures b == BitValues[k]
  {
    ShiftedOne(k);
    1 << k
  }

  /** `(m >> i) & 1`, the test of `writeRegisters`: bit `i` of `m`. */
  predicate ShiftTest(m: bv8, i: nat)
    requires i < 8
    ensures ShiftTest(m, i) <==> Bit(m, i)
  {
    ShiftedBit(m, i);
    (m >> i) & 1 == 1
  }

  /** The empty mask has no bit set. */
  lemma NoBits()
    ensures forall i :: 0 <= i < 8 ==> !Bit(0, i)
  {
    forall i | 0 <= i < 8
      ensures !Bit(0, i)
    {
      NoBit(i);
    }
  }

  lemma OrBit(a: bv8, b: bv8, i: nat)
    requires i < 8
    ensures Bit(a | b, i) <==> Bit(a, i) || Bit(b, i)
  {
  }

  lemma SingleBit(n: nat, i: nat)
    requires n < 8 && i < 8
    ensures Bit(BitValues[n], i) <==> i == n
  {
  }

  lemma NoBit(i: nat)
    requires i < 8
    ensures !Bit(0, i)
  {
  }

  /** A mask with bits 6 and 7 clear has no bit of `0xc0`. */
  lemma HighBitsClear(m: bv8)
    requires !Bit(m, 6) && !Bit(m, 7)
    ensures m & 0xc0 == 0
  {
  }

  /** The new-register mask of one compute: the changed words, plus
      register 0 when a double-buffered value changed. */
  function NewRegMask(bank: seq<bv32>, words: seq<bv32>, latch: bool): bv8
    requires |bank| == NumRegs && |words| == NumRegs
  {
    Latched(DiffMask(bank, words, NumRegs), latch)
  }

  /** `newRegMask |= 1` when a double-buffered value changed. */
  function Latched(m: bv8, latch: bool): bv8 {
    if latch then m | 1 else m
  }

  /** Bit 0 of the new-register mask is set exactly when word 0 changed or
      the latch is requested, bits 1-5 exactly when their word changed, and
      bits 6 and 7 never. */
  lemma NewRegMaskBits(bank: seq<bv32>, words: seq<bv32>, latch: bool)
    requires |bank| == NumRegs && |words| == NumRegs
    ensures var m := NewRegMask(bank, words, latch);
      && (Bit(m, 0) <==> bank[0] != words[0] || latch)
      && (forall i :: 1 <= i < NumRegs ==> (Bit(m, i) <==> bank[i] != words[i]))
      && !Bit(m, 6) && !Bit(m, 7) && m & 0xc0 == 0
  {
    var m := DiffMask(bank, words, NumRegs);
    var r := NewRegMask(bank, words, latch);
    DiffMaskBits(bank, words, NumRegs);
    OrBit(m, 1, 0);
    OrBit(m, 1, 6);
    OrBit(m, 1, 7);
    assert forall i :: 1 <= i < NumRegs ==> (Bit(r, i) <==> Bit(m, i)) by {
      forall i | 1 <= i < NumRegs
        ensures Bit(r, i) <==> Bit(m, i)
      {
        OrBit(m, 1, i);
        SingleBit(0, i);
        assert BitValues[0] == 1;
      }
    }
    SingleBit(0, 0);
    SingleBit(0, 6);
    SingleBit(0, 7);
    HighBitsClear(r);
  }

  /** ORing a new-register mask into the pending mask: bit `i` ends up set
      exactly when it was pending or is new, and no bit is cleared. */
  lemma AccumulateMask(pending: bv8, bank: seq<bv32>, words: seq<bv32>, latch: bool)
    requires |bank| == NumRegs && |words| == NumRegs
    ensures var m := pending | NewRegMask(bank, words, latch);
      && (Bit(m, 0) <==> Bit(pending, 0) || bank[0] != words[0] || latch)
      && (forall i :: 1 <= i < NumRegs ==> (Bit(m, i) <==> Bit(pending, i) || bank[i] != words[i]))
      && (forall i :: 0 <= i < 8 && Bit(pending, i) ==> Bit(m, i))
      && (pending & 0xc0 == 0 ==> m & 0xc0 == 0)
  {
    var n := NewRegMask(bank, words, latch);
    NewRegMaskBits(bank, words, latch);
    forall i | 0 <= i < 8
      ensures Bit(pending | n, i) <==> Bit(pending, i) || Bit(n, i)
    {
      OrBit(pending, n, i);
    }
    if pending & 0xc0 == 0 {
      HighBitsOr(pending, n);
    }
  }

  /** ORing the marks of a compute into a pending mask without bits 6
      and 7 leaves those bits clear. */
  lemma MaskStaysLow(pending: bv8, bank: seq<bv32>, words: seq<bv32>, latch: bool)
    requires |bank| == NumRegs && |words| == NumRegs && pending & 0xc0 == 0
    ensures (pending | Latched(DiffMask(bank, words, NumRegs), latch)) & 0xc0 == 0
  {
    NewRegMaskBits(bank, words, latch);
    HighBitsOr(pending, NewRegMask(bank, words, latch));
  }

  lemma HighBitsOr(a: bv8, b: bv8)
    requires a & 0xc0 == 0 && b & 0xc0 == 0
    ensures (a | b) & 0xc0 == 0
  {
  }

  // ---------------------------------------------------------------------
  // The send order

  /** The indices from `lo` up to 5 whose mask bit is set, highest first:
      the order in which the downward loop of `writeRegisters` visits
      them. */
  function DirtyOrder(mask: bv8, lo: nat): (idx: seq<nat>)
    requires lo <= NumRegs
    ensures forall i :: i in idx <==> lo <= i < NumRegs && Bit(mask, i)
    ensures forall j :: 0 <= j < |idx| ==> lo <= idx[j] < NumRegs
    ensures forall j, k :: 0 <= j < k < |idx| ==> idx[j] > idx[k]
    decreases NumRegs - lo
  {
    if lo == NumRegs then []
    else if Bit(mask, lo) then DirtyOrder(mask, lo + 1) + [lo]
    else DirtyOrder(mask, lo + 1)
  }

  /** Register 0, when dirty, is sent last, so that it latches the
      double-buffered values written before it. */
  lemma LatchSentLast(mask: bv8)
    requires Bit(mask, 0)
    ensures var idx := DirtyOrder(mask, 0); |idx| > 0 && idx[|idx| - 1] == 0
  {
    assert DirtyOrder(mask, 0) == DirtyOrder(mask, 1) + [0];
  }

  /** The `j`-th gathered word is the word at the `j`-th index. */
  lemma {:induction false} GatherAt(bank: seq<bv32>, idx: seq<nat>)
    requires forall j :: 0 <= j < |idx| ==> idx[j] < |bank|
    ensures forall j :: 0 <= j < |idx| ==> Gather(bank, idx)[j] == bank[idx[j]]
  {
    if idx != [] {
      GatherAt(bank, idx[..|idx| - 1]);
    }
  }

  /** Gathering one more index appends the word at that index. */
  lemma GatherSnoc(bank: seq<bv32>, idx: seq<nat>, k: nat)
    requires forall j :: 0 <= j < |idx| ==> idx[j] < |bank|
    requires k < |bank|
    ensures Gather(bank, idx + [k]) == Gather(bank, idx) + [bank[k]]
  {
    assert (idx + [k])[..|idx|] == idx;
  }

  /** The words at the given indices of the bank, in that order. */
  function Gather(bank: seq<bv32>, idx: seq<nat>): (ws: seq<bv32>)
    requires forall j :: 0 <= j < |idx| ==> idx[j] < |bank|
    ensures |ws| == |idx|
  {
    if idx == [] then []
    else Gather(bank, idx[..|idx| - 1]) + [bank[idx[|idx| - 1]]]
  }
}
