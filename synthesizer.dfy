/** The `Siner_ADF4351` driver object: its public configuration fields, the
    cached register bank, the pending mask, the double-buffered values and
    the results of the last compute, updated in place by `computeRegisterValues`, `writeRegister`,
    `writeRegisters` and `program`. Each method is proved to follow the
    state functions of `Device`; the words pushed to the chip are recorded
    in the ghost trace `sent`. */
module Adf4351 {
  import opened BinaryGcd
  import opened Planner
  import opened Registers
  import opened Device

  /** The DIV loop: the first index of the bank whose divider exceeds
      `minDiv`, or the fallback index 6. */
  method SearchDiv(minDiv: nat) returns (rfDiv: nat)
    ensures rfDiv == DivIndex(minDiv)
  {
    rfDiv := 6;
    for divId := 0 to 7
      invariant rfDiv == 6
      invariant forall j :: 0 <= j < divId ==> DivBank[j] <= minDiv
    {
      if DivBank[divId] > minDiv {
        rfDiv := divId;
        break;
      }
    }
    DivIndexOfSearch(minDiv, rfDiv);
  }

  /** The divider half of `computeRegisterValues`: the request rounded to
      10 kHz, the prescaler, the PFD frequency, the DIV search, INT, the
      remainder reduced by its binary GCD with the PFD frequency into FRAC
      and MOD, and the frequency reported. */
  method PlanDividers(c: Config) returns (d: Dividers)
    requires DividersDefined(c)
    ensures d == DividersOf(c)
  {
    var tenKHzUnits: u32 := c.frequencyHz / 10000;
    var tenKHzRem: u32 := c.frequencyHz % 10000;
    var frequencyHz: u32 := Wrap32(10000 * (tenKHzUnits + if tenKHzRem >= 5000 then 1 else 0));

    var resultPrescaler: u32;
    if frequencyHz > 3600000000 {
      resultPrescaler := 1;
    } else {
      resultPrescaler := 0;
    }

    var resultPfdHz: u32 := c.referenceHz;
    if c.referenceDouble {
      resultPfdHz := Wrap32(resultPfdHz * 2);
    }
    if c.referenceDivide {
      resultPfdHz := resultPfdHz / 2;
    }

    var ratio: u32 := frequencyHz / resultPfdHz;
    var minDiv := MinDiv(ratio, resultPfdHz);
    var rfDiv := SearchDiv(minDiv);

    var resultDiv := DivBank[rfDiv];
    var resultInt := IntOf(resultDiv, frequencyHz, resultPfdHz);
    var nRem := RemOf(resultDiv, frequencyHz, resultPfdHz);
    var gcdVal := BinaryGcd.BinaryGcd(nRem, resultPfdHz);
    var resultFrac: u32, resultFrequency: u32;
    if c.integerN {
      resultFrac := 0;
      resultFrequency := IntegerNFrequency(resultInt, c.referenceHz, resultDiv);
    } else {
      resultFrac := QuotientBound(nRem, gcdVal);
      resultFrequency := frequencyHz;
    }
    var resultMod: u32 := QuotientBound(resultPfdHz, gcdVal);
    d := Dividers(frequencyHz, resultPrescaler, resultPfdHz, ratio, minDiv, rfDiv,
                  resultDiv, resultInt, nRem, resultFrac, resultMod, resultFrequency);
  }

  class Synthesizer {
    /** The public configuration fields (`frequencyHz`, `referenceHz`,
        `outputEnable`, `outputPower`, `auxEnable`, `auxPower`,
        `auxDivide`, `muteTillLockDetect`, `phaseAdjust`, `phaseDegrees`,
        `referenceDouble`, `referenceDivide`, `integerN`). */
    var config: Config

    /** The last word stored for each register. */
    const registers: array<bv32>

    /** -1 when the object was built without pins: nothing is sent. */
    const pinLoad: int

    /** Bit `i` set: register `i` still has to be written. */
    var registerMask: bv8

    /** `lastMod`, `lastPhaseValue`, `lastReferenceDouble` and
        `lastReferenceDivide`: the double-buffered values of the last compute. */
    var snapshot: Snapshot

    /** The `result*` fields of the last compute. */
    var results: Results

    /** Every word pushed to the chip, oldest first. */
    ghost var sent: seq<bv32>

    /** The whole object as a `Device.State`. */
    ghost function Model(): State
      reads this, registers
    {
      Device.State(config, registers[..], registerMask, snapshot, results)
    }

    /** The six-word bank, and no pending bit above bit 5. Both hold for
        every object: `registers` is never reallocated and only the class
        writes `registerMask`. */
    ghost predicate Valid()
      reads this, registers
    {
      registers.Length == NumRegs && registerMask & 0xc0 == 0
    }

    /** The header's defaults; `pinLoad` is -1 for the constructor without
        pins and the load pin otherwise. */
    constructor (pinLoad: int)
      ensures Valid()
      ensures Model() == Initial(DefaultConfig)
      ensures this.pinLoad == pinLoad && sent == []
      ensures fresh(registers)
    {
      config := DefaultConfig;
      registers := new bv32[6] [0xFFFF_FFFF, 0, 0, 0, 0, 0];
      this.pinLoad := pinLoad;
      registerMask := 0;
      snapshot := Snapshot(0, 0, false, false);
      results := Results(0, 0, 0, 0, 0, 0);
      sent := [];
    }

    /** Plans the configuration, builds the six words, marks the changed
        ones (and register 0 when a double-buffered value changed) in the
        pending mask, and stores the words. */
    method ComputeRegisterValues() returns (ok: bool)
      requires Valid() && Computable(config)
      modifies this, registers
      ensures Valid() && ok
      ensures Model() == Compute(old(Model())) && Consistent(Model())
      ensures sent == old(sent)
    {
      var c := config;
      var d := PlanDividers(c);
      var phaseResolution: u32 := QuotientBound(360, d.resultMod);
      var phaseValue: u32 := QuotientBound(c.phaseDegrees, phaseResolution);
      var output := SnapPower(c.outputPower);
      var aux := SnapPower(c.auxPower);
      var newRegisters := Pack(c, FieldsOf(Plan(d, phaseValue, output, aux)));
      ghost var s := Model();
      StoreResults(d, phaseValue, output, aux, newRegisters);
      MaskStaysLow(s.mask, s.bank, newRegisters, snapshot != s.snapshot);
      ComputeOfParts(s, Model(), d, phaseValue, output, aux);
      return true;
    }

    /** The second half of `computeRegisterValues`: writes the plan back
        into the fields, stores the new words while marking the changed
        ones, marks register 0 when a double-buffered value changed,
        remembers those values and ORs the new marks into the pending mask. */
    method StoreResults(d: Dividers, phaseValue: u32, output: Power, aux: Power, newRegisters: seq<bv32>)
      requires registers.Length == NumRegs && |newRegisters| == NumRegs
      modifies registers, this`config, this`results, this`snapshot, this`registerMask
      ensures config == old(config).(frequencyHz := d.frequencyHz,
                                     outputPower := output.level, auxPower := aux.level)
      ensures results == Results(d.resultPrescaler, d.resultDiv, d.resultInt, d.resultFrac,
                                 d.resultMod, d.resultFrequency)
      ensures snapshot == Snapshot(d.resultMod, phaseValue, config.referenceDouble, config.referenceDivide)
      ensures registers[..] == newRegisters
      ensures registerMask == old(registerMask)
                              | Latched(DiffMask(old(registers[..]), newRegisters, NumRegs),
                                        snapshot != old(snapshot))
    {
      config := config.(frequencyHz := d.frequencyHz, outputPower := output.level, auxPower := aux.level);
      results := Results(d.resultPrescaler, d.resultDiv, d.resultInt, d.resultFrac,
                         d.resultMod, d.resultFrequency);
      var newRegMask := StoreWords(newRegisters);
      MarkLatch(phaseValue, newRegMask);
    }

    /** Marks register 0 when a double-buffered value changed, remembers
        those values and ORs the new marks into the pending mask. */
    method MarkLatch(phaseValue: u32, newRegMask: bv8)
      modifies this`snapshot, this`registerMask
      ensures snapshot == Snapshot(results.resultMod, phaseValue, config.referenceDouble, config.referenceDivide)
      ensures registerMask == old(registerMask) | Latched(newRegMask, snapshot != old(snapshot))
    {
      var marks := newRegMask;
      // Register 0 latches the double-buffered values.
      if results.resultMod != snapshot.lastMod || phaseValue != snapshot.lastPhaseValue
         || config.referenceDouble != snapshot.lastReferenceDouble
         || config.referenceDivide != snapshot.lastReferenceDivide
      {
        marks := marks | 1;
      }
      snapshot := Snapshot(results.resultMod, phaseValue, config.referenceDouble, config.referenceDivide);
      registerMask := registerMask | marks;
    }

    /** The comparison loop: marks each register whose stored word differs
        from the new one and stores the new word. */
    method StoreWords(newRegisters: seq<bv32>) returns (newRegMask: bv8)
      requires registers.Length == NumRegs && |newRegisters| == NumRegs
      modifies registers
      ensures registers[..] == newRegisters
      ensures newRegMask == DiffMask(old(registers[..]), newRegisters, NumRegs)
    {
      ghost var oldBank := registers[..];
      newRegMask := 0;
      for regId := 0 to 6
        invariant forall i :: 0 <= i < regId ==> registers[i] == newRegisters[i]
        invariant forall i :: regId <= i < 6 ==> registers[i] == oldBank[i]
        invariant newRegMask == DiffMask(oldBank, newRegisters, regId)
      {
        DiffMaskStep(oldBank, newRegisters, regId);
        newRegMask := StoreWord(regId, newRegisters[regId], newRegMask);
      }
      assert registers[..] == newRegisters;
    }

    /** One pass of the comparison loop: stores `word` in slot `regId` and
        marks that slot when the stored word differs. */
    method StoreWord(regId: nat, word: bv32, mask: bv8) returns (newMask: bv8)
      requires registers.Length == NumRegs && regId < NumRegs
      modifies registers
      ensures registers[regId] == word
      ensures forall i :: 0 <= i < NumRegs && i != regId ==> registers[i] == old(registers[i])
      ensures newMask == if old(registers[regId]) != word then mask | BitValues[regId] else mask
    {
      newMask := mask;
      if registers[regId] != word {
        newMask := mask | ShiftOne(regId);
      }
      registers[regId] := word;
    }

    /** Sends one word to the chip and caches it in the slot its control
        field names; an object without a load pin does nothing. */
    method WriteRegister(regVal: bv32)
      requires Valid()
      modifies this, registers
      ensures Valid()
      ensures pinLoad == -1 ==> Model() == old(Model()) && sent == old(sent)
      ensures pinLoad != -1 ==> Model() == Cached(old(Model()), regVal)
      ensures pinLoad != -1 ==> sent == old(sent) + [regVal]
    {
      if pinLoad == -1 {
        return;
      }
      var regIndex := ControlField(regVal);
      if regIndex < 6 {
        registers[regIndex] := regVal;
      }
      sent := sent + [regVal];
    }

    /** Sends the dirty registers from 5 down to 0, so that register 0 goes
        last, then clears the pending mask. Each word sent is cached again
        in the slot it addresses. */
    method WriteRegisters()
      requires Valid()
      modifies this, registers
      ensures Valid()
      ensures Model() == Flushed(old(Model()), pinLoad == -1)
      ensures sent == old(sent) + Sent(old(Model()), pinLoad == -1)
    {
      ghost var s := Model();
      ghost var offline := pinLoad == -1;
      var regId := NumRegs as int - 1;
      while regId >= 0
        invariant -1 <= regId < NumRegs
        invariant Valid() && Model() == AfterPasses(s, offline, regId + 1)
        invariant sent == old(sent) + SentFrom(s, offline, regId + 1)
      {
        ghost var t := Model();
        AppendAssoc(old(sent), SentFrom(s, offline, regId + 1), SentOne(t, offline, regId));
        WritePass(regId);
        regId := regId - 1;
      }
      registerMask := 0;
    }

    /** One pass of the loop of `writeRegisters`: rewrites register
        `regId` when it is dirty. */
    method WritePass(regId: nat)
      requires Valid() && regId < NumRegs
      modifies this, registers
      ensures Valid()
      ensures Model() == Pass(old(Model()), pinLoad == -1, regId)
      ensures sent == old(sent) + SentOne(old(Model()), pinLoad == -1, regId)
    {
      if ShiftTest(registerMask, regId) {
        WriteRegister(registers[regId]);
      }
    }

    /** A compute followed by a write; it always reports success. */
    method Program() returns (ok: bool)
      requires Valid() && Computable(config)
      modifies this, registers
      ensures Valid() && ok
      ensures Model() == Programmed(old(Model()), pinLoad == -1)
      ensures sent == old(sent) + Sent(Compute(old(Model())), pinLoad == -1)
    {
      var computed := ComputeRegisterValues();
      if computed {
        WriteRegisters();
        return true;
      }
      return true;
    }
  }
}
