/** The driver object's state as a value, and what `computeRegisterValues`
    and `writeRegisters` do to it. The class in `synthesizer.dfy` is proved
    to follow these functions; the lemmas here are the promises the driver
    makes about them. */
module Device {
  import opened BinaryGcd
  import opened Planner
  import opened Registers

  /** The values of the last compute that are double-buffered by the chip
      and latched by a write of register 0. */
  datatype Snapshot = Snapshot(
    lastMod: u32,
    lastPhaseValue: u32,
    lastReferenceDouble: bool,
    lastReferenceDivide: bool)

  /** The result fields the driver keeps after a compute. */
  datatype Results = Results(
    resultPrescaler: u32,
    resultDiv: u32,
    resultInt: u32,
    resultFrac: u32,
    resultMod: u32,
    resultFrequency: u32)

  datatype State = State(
    config: Config,
    bank: seq<bv32>,
    mask: bv8,
    snapshot: Snapshot,
    results: Results)

  /** `registers[6] = {0xFFFFFFFF}`: the first word set, the rest zero. */
  const InitialBank: seq<bv32> := [0xFFFF_FFFF, 0, 0, 0, 0, 0]

  /** The header's defaults around a configuration of the public fields. */
  function Initial(c: Config): State {
    State(c, InitialBank, 0, Snapshot(0, 0, false, false), Results(0, 0, 0, 0, 0, 0))
  }

  /** The header's default public fields; `frequencyHz` starts at 0 and
      `integerN`, which the header does not declare, is taken as false. */
  const DefaultConfig: Config :=
    Config(0, 25000000, true, -4, false, -4, true, true, false, 1, false, false, false)

  /** Six words, and every dirty slot holds a word that addresses it. A
      compute leaves the state so, and caching a word keeps it so; a caller
      storing into the public `registers` array directly can break it, so
      the write path below is defined for every bank. */
  predicate Consistent(s: State) {
    && |s.bank| == NumRegs
    && forall i :: 0 <= i < NumRegs && Bit(s.mask, i) ==> Addresses(s.bank[i], i)
  }

  // ---------------------------------------------------------------------
  // computeRegisterValues

  /** The double-buffered values a compute of `c` produces. */
  function SnapshotOf(c: Config): Snapshot
    requires Computable(c)
  {
    var p := PlanOf(c);
    Snapshot(p.dividers.resultMod, p.phaseValue, c.referenceDouble, c.referenceDivide)
  }

  function ResultsOf(c: Config): Results
    requires Computable(c)
  {
    var d := DividersOf(c);
    Results(d.resultPrescaler, d.resultDiv, d.resultInt, d.resultFrac, d.resultMod, d.resultFrequency)
  }

  /** Register 0 must be rewritten when a double-buffered value changed. */
  predicate Latch(c: Config, snapshot: Snapshot)
    requires Computable(c)
  {
    SnapshotOf(c) != snapshot
  }

  /** The end of a compute, for any new words, snapshot and results: the
      bank is replaced by the words, the changed registers (and register 0
      when the snapshot changed) are ORed into the pending mask. */
  function Commit(s: State, c: Config, words: seq<bv32>, snapshot: Snapshot, results: Results): State
    requires |s.bank| == NumRegs && |words| == NumRegs
  {
    State(c, words, s.mask | NewRegMask(s.bank, words, snapshot != s.snapshot), snapshot, results)
  }

  /** A state whose parts are those a commit produces is that commit. */
  lemma CommitOfParts(s: State, m: State, c: Config, words: seq<bv32>, snapshot: Snapshot, results: Results)
    requires |s.bank| == NumRegs && |words| == NumRegs
    requires m.config == c && m.bank == words && m.snapshot == snapshot && m.results == results
    requires m.mask == s.mask | Latched(DiffMask(s.bank, words, NumRegs), snapshot != s.snapshot)
    ensures m == Commit(s, c, words, snapshot, results)
  {
  }

  /** The state after `computeRegisterValues`: the caller's fields as the
      planner leaves them, and the new words, snapshot and results of this
      plan committed. */
  function Compute(s: State): State
    requires |s.bank| == NumRegs && Computable(s.config)
  {
    var c := s.config;
    Commit(s, Applied(c), Words(c), SnapshotOf(c), ResultsOf(c))
  }

  /** `Compute` assembled from its parts: given the divider plan, the phase
      word and the snapped powers of `s.config`, the words, snapshot,
      results and written-back configuration of `Compute(s)` are the ones
      built from these parts. */
  lemma ComputeFromParts(s: State, d: Dividers, phaseValue: u32, output: Power, aux: Power)
    requires |s.bank| == NumRegs && Computable(s.config)
    requires d == DividersOf(s.config)
    requires phaseValue == PhaseValue(s.config.phaseDegrees, d.resultMod)
    requires output == SnapPower(s.config.outputPower) && aux == SnapPower(s.config.auxPower)
    ensures var c := s.config;
      var p := Plan(d, phaseValue, output, aux);
      && Compute(s) == Commit(s, Applied(c), Pack(c, FieldsOf(p)),
                              Snapshot(d.resultMod, phaseValue, c.referenceDouble, c.referenceDivide),
                              Results(d.resultPrescaler, d.resultDiv, d.resultInt, d.resultFrac,
                                      d.resultMod, d.resultFrequency))
      && Applied(c) == c.(frequencyHz := d.frequencyHz, outputPower := output.level, auxPower := aux.level)
  {
  }

  /** A state whose parts are those the compute of `s` produces, given the
      divider plan, phase word and snapped powers of `s.config`, is
      `Compute(s)`, and it is consistent when `s` is. */
  lemma ComputeOfParts(s: State, m: State, d: Dividers, phaseValue: u32, output: Power, aux: Power)
    requires |s.bank| == NumRegs && Computable(s.config)
    requires d == DividersOf(s.config)
    requires phaseValue == PhaseValue(s.config.phaseDegrees, d.resultMod)
    requires output == SnapPower(s.config.outputPower) && aux == SnapPower(s.config.auxPower)
    requires m.config == s.config.(frequencyHz := d.frequencyHz, outputPower := output.level, auxPower := aux.level)
    requires m.bank == Pack(s.config, FieldsOf(Plan(d, phaseValue, output, aux)))
    requires m.snapshot == Snapshot(d.resultMod, phaseValue, s.config.referenceDouble, s.config.referenceDivide)
    requires m.results == Results(d.resultPrescaler, d.resultDiv, d.resultInt, d.resultFrac,
                                  d.resultMod, d.resultFrequency)
    requires m.mask == s.mask | Latched(DiffMask(s.bank, m.bank, NumRegs), m.snapshot != s.snapshot)
    ensures m == Compute(s) && Consistent(m)
  {
    ComputeFromParts(s, d, phaseValue, output, aux);
    ComputeConsistent(s);
    CommitOfParts(s, m, m.config, m.bank, m.snapshot, m.results);
  }

  /** After a commit, mask bit `i` is set exactly when it was pending, when
      word `i` changed, or (for bit 0) when a double-buffered value changed;
      no pending bit is ever cleared. */
  lemma CommitMask(s: State, c: Config, words: seq<bv32>, snapshot: Snapshot, results: Results)
    requires |s.bank| == NumRegs && |words| == NumRegs
    ensures var t := Commit(s, c, words, snapshot, results);
      && (Bit(t.mask, 0) <==> Bit(s.mask, 0) || s.bank[0] != words[0] || snapshot != s.snapshot)
      && (forall i :: 1 <= i < NumRegs ==> (Bit(t.mask, i) <==> Bit(s.mask, i) || s.bank[i] != words[i]))
      && (forall i :: 0 <= i < 8 && Bit(s.mask, i) ==> Bit(t.mask, i))
  {
    AccumulateMask(s.mask, s.bank, words, snapshot != s.snapshot);
  }

  /** Committing words that address their own registers leaves the state
      consistent, whatever the bank held before, and sets no mask bit above
      bit 5. */
  lemma CommitConsistent(s: State, c: Config, words: seq<bv32>, snapshot: Snapshot, results: Results)
    requires |s.bank| == NumRegs && |words| == NumRegs
    requires forall i :: 0 <= i < NumRegs ==> Addresses(words[i], i)
    ensures Consistent(Commit(s, c, words, snapshot, results))
    ensures s.mask & 0xc0 == 0 ==> Commit(s, c, words, snapshot, results).mask & 0xc0 == 0
  {
    AccumulateMask(s.mask, s.bank, words, snapshot != s.snapshot);
  }

  /** A compute leaves the state consistent, from any bank, and sets no
      mask bit above bit 5. */
  lemma ComputeConsistent(s: State)
    requires |s.bank| == NumRegs && Computable(s.config)
    ensures Consistent(Compute(s))
    ensures s.mask & 0xc0 == 0 ==> Compute(s).mask & 0xc0 == 0
  {
    var c := s.config;
    WordsLayout(c);
    CommitConsistent(s, Applied(c), Words(c), SnapshotOf(c), ResultsOf(c));
  }

  /** Planning again from what the planner left behind yields the same
      words, snapshot and results. */
  lemma WordsStable(c: Config)
    requires Computable(c) && c.frequencyHz < 4294965000
    ensures Computable(Applied(c))
    ensures Words(Applied(c)) == Words(c)
    ensures SnapshotOf(Applied(c)) == SnapshotOf(c)
    ensures ResultsOf(Applied(c)) == ResultsOf(c)
    ensures Applied(Applied(c)) == Applied(c)
  {
    ReplanIsStable(c);
  }

  /** A compute right after a compute changes nothing: rounding, snapping
      and packing are idempotent, so the new words equal the bank, the
      snapshot is current, and no mask bit is added. */
  lemma ComputeIdempotent(s: State)
    requires |s.bank| == NumRegs && Computable(s.config) && s.config.frequencyHz < 4294965000
    ensures Computable(Compute(s).config)
    ensures Compute(Compute(s)) == Compute(s)
  {
    WordsStable(s.config);
    var t := Compute(s);
    NoChangeNoBits(t.bank);
    OrZero(t.mask);
  }

  /** Comparing a bank with itself, without a latch, sets no bit. */
  lemma NoChangeNoBits(bank: seq<bv32>)
    requires |bank| == NumRegs
    ensures NewRegMask(bank, bank, false) == 0
  {
    var m := NewRegMask(bank, bank, false);
    NewRegMaskBits(bank, bank, false);
    AllClear(m);
  }

  /** A mask with no bit set is zero. */
  lemma AllClear(m: bv8)
    requires forall i :: 0 <= i < 8 ==> !Bit(m, i)
    ensures m == 0
  {
    assert !Bit(m, 0) && !Bit(m, 1) && !Bit(m, 2) && !Bit(m, 3);
    assert !Bit(m, 4) && !Bit(m, 5) && !Bit(m, 6) && !Bit(m, 7);
  }

  lemma OrZero(m: bv8)
    ensures m | 0 == m
  {
  }

  /** Committing words that address their own registers to the initial
      bank marks all six registers dirty: every word differs from the
      initial one. */
  lemma CommitInitialMarksAll(s: State, c: Config, words: seq<bv32>, snapshot: Snapshot, results: Results)
    requires s.bank == InitialBank && s.mask == 0 && |words| == NumRegs
    requires forall i :: 0 <= i < NumRegs ==> Addresses(words[i], i)
    ensures Commit(s, c, words, snapshot, results).mask == 0x3f
  {
    assert Addresses(InitialBank[0], 7);
    assert forall i :: 1 <= i < NumRegs ==> Addresses(InitialBank[i], 0);
    var n := NewRegMask(InitialBank, words, snapshot != s.snapshot);
    NewRegMaskBits(InitialBank, words, snapshot != s.snapshot);
    forall i | 0 <= i < NumRegs
      ensures words[i] != InitialBank[i]
    {
      if words[i] == InitialBank[i] {
        AddressesUnique(words[i], i, if i == 0 then 7 else 0);
      }
    }
    LowSixBits(n);
    OrZeroLeft(n);
  }

  /** The first compute on a fresh object marks all six registers dirty. */
  lemma FirstComputeMarksAll(c: Config)
    requires Computable(c)
    ensures Compute(Initial(c)).mask == 0x3f
  {
    WordsLayout(c);
    CommitInitialMarksAll(Initial(c), Applied(c), Words(c), SnapshotOf(c), ResultsOf(c));
  }

  lemma OrZeroLeft(m: bv8)
    ensures 0 | m == m
  {
  }

  /** A mask with exactly bits 0-5 set is `0x3f`. */
  lemma LowSixBits(m: bv8)
    requires forall i :: 0 <= i < NumRegs ==> Bit(m, i)
    requires !Bit(m, 6) && !Bit(m, 7)
    ensures m == 0x3f
  {
    assert Bit(m, 0) && Bit(m, 1) && Bit(m, 2) && Bit(m, 3) && Bit(m, 4) && Bit(m, 5);
  }

  /** `lastMod` starts at 0 while MOD is at least 1, so the first compute
      always requests the latch of register 0. */
  lemma FirstComputeLatches(c: Config)
    requires Computable(c)
    ensures Latch(c, Initial(c).snapshot)
  {
  }

  /** The default power requests are already supported levels, and the
      default 25 MHz reference gives a nonzero PFD frequency. */
  lemma DefaultsAreFixed()
    ensures SnapPower(DefaultConfig.outputPower).level == DefaultConfig.outputPower
    ensures SnapPower(DefaultConfig.auxPower).level == DefaultConfig.auxPower
    ensures PfdHz(DefaultConfig.referenceHz, DefaultConfig.referenceDouble, DefaultConfig.referenceDivide) == 25000000
  {
  }

  // ---------------------------------------------------------------------
  // writeRegisters

  /** `writeRegister(regVal)` on an object with a load pin: the word is
      cached in the slot its control field names when that is one of the
      six, and no other slot changes. */
  function Cache(bank: seq<bv32>, w: bv32): (b: seq<bv32>)
    requires |bank| == NumRegs
    ensures |b| == NumRegs
    ensures forall i :: 0 <= i < NumRegs ==> b[i] == if Addresses(w, i) then w else bank[i]
  {
    var r := ControlField(w);
    if r < NumRegs then bank[r := w] else bank
  }

  /** The state after `writeRegister(w)` on an object with a load pin. */
  function Cached(s: State, w: bv32): State
    requires |s.bank| == NumRegs
  {
    s.(bank := Cache(s.bank, w))
  }

  /** Writing back a dirty register's stored word changes nothing. */
  lemma RewriteDirty(s: State, i: nat)
    requires Consistent(s) && i < NumRegs && Bit(s.mask, i)
    ensures Cached(s, s.bank[i]) == s
  {
    CacheOwnWord(s.bank, i);
  }

  /** Writing back a stored word that addresses its own slot changes
      nothing. */
  lemma CacheOwnWord(bank: seq<bv32>, i: nat)
    requires |bank| == NumRegs && i < NumRegs && Addresses(bank[i], i)
    ensures Cache(bank, bank[i]) == bank
  {
    var b := Cache(bank, bank[i]);
    forall k | 0 <= k < NumRegs
      ensures b[k] == bank[k]
    {
      if Addresses(bank[i], k) {
        AddressesUnique(bank[i], i, k);
      }
    }
  }

  /** Caching any word keeps the state consistent: a slot only ever
      receives a word that addresses it. */
  lemma CacheConsistent(s: State, w: bv32)
    requires Consistent(s)
    ensures Consistent(Cached(s, w))
  {
  }

  /** The pass of the downward loop of `writeRegisters` for register `i`:
      when `i` is dirty and the object has a load pin, its stored word goes
      through `writeRegister`, which caches it in the slot the word
      addresses (not necessarily slot `i`). The mask is not touched. */
  function Pass(s: State, offline: bool, i: nat): (t: State)
    requires |s.bank| == NumRegs && i < NumRegs
    ensures |t.bank| == NumRegs && t.mask == s.mask
  {
    if !offline && Bit(s.mask, i) then Cached(s, s.bank[i]) else s
  }

  /** The word the pass for register `i` sends, if any. */
  function SentOne(s: State, offline: bool, i: nat): seq<bv32>
    requires |s.bank| == NumRegs && i < NumRegs
  {
    if !offline && Bit(s.mask, i) then [s.bank[i]] else []
  }

  /** The state after the passes for registers 5 down to `lo`. */
  function AfterPasses(s: State, offline: bool, lo: nat): (t: State)
    requires |s.bank| == NumRegs && lo <= NumRegs
    ensures |t.bank| == NumRegs && t.mask == s.mask
    decreases NumRegs - lo
  {
    if lo == NumRegs then s else Pass(AfterPasses(s, offline, lo + 1), offline, lo)
  }

  /** The words the passes for registers 5 down to `lo` send, in order;
      each pass reads the bank as the earlier passes left it. */
  function SentFrom(s: State, offline: bool, lo: nat): seq<bv32>
    requires |s.bank| == NumRegs && lo <= NumRegs
    decreases NumRegs - lo
  {
    if lo == NumRegs then []
    else SentFrom(s, offline, lo + 1) + SentOne(AfterPasses(s, offline, lo + 1), offline, lo)
  }

  lemma AppendAssoc(a: seq<bv32>, b: seq<bv32>, c: seq<bv32>)
    ensures a + b + c == a + (b + c)
  {
  }

  /** The words `writeRegisters` sends. */
  function Sent(s: State, offline: bool): seq<bv32>
    requires |s.bank| == NumRegs
  {
    SentFrom(s, offline, 0)
  }

  /** The state after `writeRegisters`: the passes, then the mask cleared. */
  function Flushed(s: State, offline: bool): State
    requires |s.bank| == NumRegs
  {
    AfterPasses(s, offline, 0).(mask := 0)
  }

  /** In a consistent state every dirty word addresses its own slot, so
      the passes leave the state as it was. */
  lemma {:induction false} PassesKeepState(s: State, offline: bool, lo: nat)
    requires Consistent(s) && lo <= NumRegs
    ensures AfterPasses(s, offline, lo) == s
    decreases NumRegs - lo
  {
    if lo < NumRegs {
      PassesKeepState(s, offline, lo + 1);
      if !offline && Bit(s.mask, lo) {
        RewriteDirty(s, lo);
      }
    }
  }

  /** In a consistent state `writeRegisters` changes only the mask, to 0. */
  lemma FlushConsistent(s: State, offline: bool)
    requires Consistent(s)
    ensures Flushed(s, offline) == s.(mask := 0)
  {
    PassesKeepState(s, offline, 0);
  }

  /** A dirty word that addresses another of the six slots is cached there
      by its pass: the bank changes during the loop. */
  lemma MisaddressedWordMoves(s: State, i: nat, j: nat)
    requires |s.bank| == NumRegs && i < NumRegs && j < NumRegs && i != j
    requires Bit(s.mask, i) && Addresses(s.bank[i], j) && s.bank[j] != s.bank[i]
    ensures Pass(s, false, i).bank[j] == s.bank[i] != s.bank[j]
    ensures Pass(s, false, i).bank[i] == s.bank[i]
  {
  }

  /** In a consistent state with a load pin, the loop sends the stored
      words of the dirty registers in the order of `DirtyOrder`, highest
      first. */
  lemma {:induction false} SentFromGathers(s: State, lo: nat)
    requires Consistent(s) && lo <= NumRegs
    ensures SentFrom(s, false, lo) == Gather(s.bank, DirtyOrder(s.mask, lo))
    decreases NumRegs - lo
  {
    if lo < NumRegs {
      SentFromGathers(s, lo + 1);
      PassesKeepState(s, false, lo + 1);
      if Bit(s.mask, lo) {
        GatherSnoc(s.bank, DirtyOrder(s.mask, lo + 1), lo);
      }
    }
  }

  /** Without a load pin nothing is sent. */
  lemma {:induction false} OfflineSendsNothing(s: State, lo: nat)
    requires |s.bank| == NumRegs && lo <= NumRegs
    ensures SentFrom(s, true, lo) == []
    decreases NumRegs - lo
  {
    if lo < NumRegs {
      OfflineSendsNothing(s, lo + 1);
    }
  }

  /** Without a load pin `writeRegisters` changes only the mask, to 0. */
  lemma {:induction false} OfflineKeepsBank(s: State, lo: nat)
    requires |s.bank| == NumRegs && lo <= NumRegs
    ensures AfterPasses(s, true, lo) == s
    decreases NumRegs - lo
  {
    if lo < NumRegs {
      OfflineKeepsBank(s, lo + 1);
    }
  }

  /** The `j`-th word sent is the stored word of the `j`-th dirty register
      of `DirtyOrder` (the dirty registers, highest first), and it addresses
      that register; when register 0 is dirty, the last word sent
      addresses it. */
  lemma SentInOrder(s: State)
    requires Consistent(s)
    ensures var ws := Sent(s, false);
      var idx := DirtyOrder(s.mask, 0);
      && |ws| == |idx|
      && (forall j :: 0 <= j < |ws| ==> ws[j] == s.bank[idx[j]] && Addresses(ws[j], idx[j]))
      && (Bit(s.mask, 0) ==> |ws| > 0 && Addresses(ws[|ws| - 1], 0))
  {
    SentFromGathers(s, 0);
    GatherDirty(s);
  }

  /** The dirty words of a consistent state, gathered highest first, each
      address their own register, and register 0's comes last. */
  lemma GatherDirty(s: State)
    requires Consistent(s)
    ensures var idx := DirtyOrder(s.mask, 0);
      var ws := Gather(s.bank, idx);
      && |ws| == |idx|
      && (forall j :: 0 <= j < |ws| ==> ws[j] == s.bank[idx[j]] && Addresses(ws[j], idx[j]))
      && (Bit(s.mask, 0) ==> |ws| > 0 && Addresses(ws[|ws| - 1], 0))
  {
    var idx := DirtyOrder(s.mask, 0);
    var ws := Gather(s.bank, idx);
    GatherAt(s.bank, idx);
    forall j | 0 <= j < |ws|
      ensures Addresses(ws[j], idx[j])
    {
      assert idx[j] in idx;
    }
    if Bit(s.mask, 0) {
      LatchSentLast(s.mask);
    }
  }

  /** With no register pending nothing is sent. */
  lemma {:induction false} CleanSendsNothing(s: State, offline: bool, lo: nat)
    requires |s.bank| == NumRegs && s.mask == 0 && lo <= NumRegs
    ensures SentFrom(s, offline, lo) == []
    decreases NumRegs - lo
  {
    if lo < NumRegs {
      NoBit(lo);
      CleanSendsNothing(s, offline, lo + 1);
    }
  }

  /** A fresh object has nothing to send. */
  lemma FreshSendsNothing(c: Config, offline: bool)
    ensures Sent(Initial(c), offline) == []
  {
    CleanSendsNothing(Initial(c), offline, 0);
  }

  // ---------------------------------------------------------------------
  // program

  /** `program()`: a compute followed by a write. */
  function Programmed(s: State, offline: bool): State
    requires |s.bank| == NumRegs && Computable(s.config)
  {
    Flushed(Compute(s), offline)
  }

  /** After `program()`, from any bank, nothing is pending, the bank holds
      the new words, the words sent are the dirty new words highest first,
      and a second `program()` with nothing changed sends nothing. */
  lemma ProgramSettles(s: State, offline: bool)
    requires |s.bank| == NumRegs && Computable(s.config) && s.config.frequencyHz < 4294965000
    ensures Programmed(s, offline) == Compute(s).(mask := 0)
    ensures Programmed(s, offline).bank == Words(s.config)
    ensures Computable(Programmed(s, offline).config)
    ensures Sent(Compute(s), false) == Gather(Words(s.config), DirtyOrder(Compute(s).mask, 0))
    ensures Sent(Compute(Programmed(s, offline)), false) == []
  {
    var t := Compute(s);
    ComputeConsistent(s);
    FlushConsistent(t, offline);
    SentFromGathers(t, 0);
    ComputeIdempotent(s);
    var p := Programmed(s, offline);
    assert Compute(p) == t.(mask := 0) by {
      NoChangeNoBits(t.bank);
      ReplanIsStable(s.config);
      assert Words(p.config) == t.bank;
      assert SnapshotOf(p.config) == t.snapshot;
    }
    CleanSendsNothing(Compute(p), false, 0);
  }

  /** A request 10 kHz off a 250 kHz step, with the default 25 MHz
      reference in fractional-N mode: DIV is 1, the remainder is 10000 Hz,
      MOD is 2500 and the phase resolution `360 / MOD` is 0, so the compute
      divides by zero. */
  lemma FineStepNotComputable()
    ensures var c := DefaultConfig.(frequencyHz := 2400010000);
      && DividersDefined(c)
      && DividersOf(c).rfDiv == 0
      && DividersOf(c).nRem == 10000
      && DividersOf(c).resultMod == 2500
      && !Computable(c)
  {
    var c := DefaultConfig.(frequencyHz := 2400010000);
    assert RoundTo10k(c.frequencyHz) == 2400010000;
    assert PfdHz(c.referenceHz, c.referenceDouble, c.referenceDivide) == 25000000;
    assert 2400010000 / 25000000 == 96;
    assert MinDiv(96, 25000000) == 0;
    assert DivIndex(0) == 0;
    assert RemOf(1, 2400010000, 25000000) == 10000;
    assert Divides(10000, 25000000) by { assert 25000000 == 10000 * 2500; }
    assert Divides(10000, 10000) by { assert 10000 == 10000 * 1; }
    GcdUnique(10000, 10000, 25000000);
    assert ModOf(10000, 25000000) == 2500;
  }

}
