# Siner_ADF4351 in Dafny

A model of the core of the `Siner_ADF4351` Arduino driver for the Analog
Devices ADF4351 wideband PLL synthesizer, with proofs of what it promises.

The driver object holds a set of public configuration fields (requested
output frequency, reference frequency, output and aux power and enables,
phase, reference doubler and divider, integer-N mode), a cache of the six
32-bit register words last stored, an 8-bit mask of registers still to be
written, and the double-buffered values of the last compute.

- `computeRegisterValues` plans the synthesizer:
  - it rounds the request to 10 kHz and picks the 4/5 or 8/9 prescaler;
  - it derives the PFD frequency and searches the output divider DIV;
  - it solves INT, then FRAC and MOD by reducing the remainder with Stein's
    binary gcd;
  - it bins the phase and snaps both power requests to supported levels,
    writing the rounded frequency and snapped powers back into the fields;
  - it packs six words from fixed templates and marks each word that
    differs from the cached one;
  - it also marks register 0 when a double-buffered value (MOD, phase,
    doubler, divider) changed, then ORs the marks into the pending mask.
- `writeRegister` caches a word in the slot its control bits name and sends
  it. An object built without a load pin does nothing.
- `writeRegisters` sends the dirty words from register 5 down to register 0,
  so that register 0 (which latches the double-buffered values) goes last,
  then clears the mask.
- `program` is a compute followed by a write.

The project has five modules:

| module | file | role |
|---|---|---|
| `BinaryGcd` | `binary_gcd.dfy` | `binary_gcd` as an imperative method with the C loops, proved equal to a subtractive reference `Gcd`; gcd lemmas |
| `Planner` | `planner.dfy` | the frequency plan as functions on a `Config` value, with every `uint32_t` wrap written out (`Wrap32`), and its properties |
| `Registers` | `registers.dfy` | the register words, their bit layout, the dirty mask and the send order |
| `Device` | `device.dfy` | the driver's state as a value, what compute, write and program do to it, and the lemmas about it |
| `Adf4351` | `synthesizer.dfy` | the driver as a class updated in place, each method proved to follow `Device` |

The class keeps the cached bank as an `array<bv32>` and the mask as a `bv8`.
It groups the public configuration, the `last*` fields and the `result*`
fields into three record-valued fields (`config`, `snapshot`, `results`).
A ghost sequence `sent` records every word pushed to the chip in place of
the serial transport.

One consequence of the C arithmetic is proved rather than corrected. For a
request of 4294965000 Hz or more, `10000 * (f / 10000 + ...)` wraps in
`uint32_t` to 2704 Hz. Unless the PFD frequency is at most 2704 Hz, that
compute already divides by zero (`ratio` is 0). The 2704 Hz is written back
into `frequencyHz`, and it rounds to 0, so every later compute divides by
zero (`Planner.WrappedRounding`). The model keeps the wrapped value, as the
code does.

The cached bank is a public array, so a caller can store into it words
whose control bits name another register. `writeRegisters` is modelled for
every bank: each dirty word passes through `writeRegister`, which caches it
in the slot it addresses, so such a word moves during the loop
(`Device.MisaddressedWordMoves`). When every dirty word addresses its own
slot, which a compute guarantees, the loop only sends the dirty words in
descending order and clears the mask (`Device.FlushConsistent`,
`Device.SentInOrder`).

## Model

| member | source | states |
|---|---|---|
| BinaryGcd.BinaryGcd | src/binary_gcd.h:22-69 | Stein's algorithm with the C loops returns the greatest common divisor of its arguments: `v` when `u` is 0, `u` when `v` is 0, positive unless both are 0; the final shift never wraps |
| BinaryGcd.GcdIsGreatestCommonDivisor | src/binary_gcd.h:22-69 | the reference `Gcd` divides both arguments and every common divisor divides it |
| BinaryGcd.GcdUnique | src/binary_gcd.h:22-69 | any number with the greatest-common-divisor property is `Gcd` |
| BinaryGcd.GcdSymmetric | src/binary_gcd.h:58-62 | the gcd does not depend on argument order, which the swap step relies on |
| BinaryGcd.GcdBounds | src/binary_gcd.h:26-32 | the gcd is 0 exactly for (0, 0) and never exceeds a nonzero argument |
| BinaryGcd.GcdScale | src/binary_gcd.h:36-39 | scaling both arguments by k scales the gcd by k (the common powers of two restored at the end) |
| BinaryGcd.GcdDropTwo | src/binary_gcd.h:41-52 | a factor of two in one argument is not common when the other is odd |
| BinaryGcd.GcdReduced | src/Siner_ADF4351.cpp:129-139 | dividing a numerator and a positive denominator by their gcd leaves coprime parts that multiply back |
| Planner.RoundTo10k | src/Siner_ADF4351.cpp:77-79 | below 4294965000 Hz the result is the nearest multiple of 10 kHz (halves up) and stays below that bound; from there on it wraps to 2704 |
| Planner.RoundIdempotent | src/Siner_ADF4351.cpp:77-79 | rounding a rounded frequency changes nothing |
| Planner.PfdHz | src/Siner_ADF4351.cpp:91-97 | the PFD frequency for each doubler/divider combination, including the `uint32_t` wrap of the doubling |
| Planner.DivIndex | src/Siner_ADF4351.cpp:104-119 | the index of the smallest divider strictly above the minimum, every earlier divider is at most the minimum, and 6 (divider 64) when none is above |
| Planner.FirstDivAbove | src/Siner_ADF4351.cpp:112-119 | the search loop from index `from` on: the first divider above the minimum, 6 when none is, and past any `from` whose divider is at most the minimum |
| Planner.DividersOf | src/Siner_ADF4351.cpp:77-139 | the frequency is the rounded request, the PFD is positive, DIV is a bank entry, the remainder is below the PFD and MOD is at least 1 |
| Planner.PrescalerChoice | src/Siner_ADF4351.cpp:82-88 | the prescaler is 8/9 exactly when the rounded frequency is above 3.6 GHz |
| Planner.RatioSteps | src/Siner_ADF4351.cpp:100 | `ratio` is the number of whole PFD steps in the frequency, at least one |
| Planner.DivChoice | src/Siner_ADF4351.cpp:104-123 | DIV is the smallest bank divider above `VCO_MIN / (ratio * PFD)`, which lifts `ratio * PFD` above the 2.2 GHz VCO minimum; otherwise it falls back to 64 |
| Planner.IntAndRemainder | src/Siner_ADF4351.cpp:126-128 | INT whole PFD steps plus the remainder make up the `uint32_t` product `DIV * f` |
| Planner.ModulusDividesPfd | src/Siner_ADF4351.cpp:131-139 | MOD times the gcd of remainder and PFD is the PFD frequency |
| Planner.IntegerNMode | src/Siner_ADF4351.cpp:132-134 | in integer-N mode FRAC is 0 and the reported frequency is INT times reference over DIV in `uint32_t` |
| Planner.FractionalMode | src/Siner_ADF4351.cpp:135-139 | in fractional-N mode FRAC < MOD, they are coprime, FRAC/MOD equals remainder/PFD, and the reported frequency is the rounded request |
| Planner.PhaseValue | src/Siner_ADF4351.cpp:144-145 | the phase word is the bin of the requested degrees at resolution `360 / MOD` |
| Planner.SnapPower | src/Siner_ADF4351.cpp:148-175 | the level is the highest supported level not above the request (the lowest, -4 dBm, below that) and the code is its index |
| Planner.SnapIdempotent | src/Siner_ADF4351.cpp:148-175 | snapping a snapped level gives the same level and code |
| Planner.ReplanIsStable | src/Siner_ADF4351.cpp:77-175 | below the wrap, planning again from the written-back fields gives the same plan and the same fields |
| Planner.WrappedRounding | src/Siner_ADF4351.cpp:77-109 | from 4294965000 Hz on the rounding gives 2704 Hz; the plan divides by zero when the PFD frequency exceeds 2704 Hz, and the 2704 Hz written back makes the next plan divide by zero |
| Planner.PlanOf | src/Siner_ADF4351.cpp:77-175 | the whole plan of a configuration: its dividers are `DividersOf`, its phase word is `PhaseValue` of the planned MOD, and its powers are the snapped requests |
| Planner.DividersDefined | src/Siner_ADF4351.cpp:100-109 | the divisions by the PFD frequency and by `ratio * PFD` are defined: the PFD is nonzero and the rounded request is at least one PFD step |
| Planner.Computable | src/Siner_ADF4351.cpp:100-145 | the domain of a compute: the divisions at lines 100 and 109 are defined and MOD is at most 360 so that `360 / MOD` is nonzero; `WrappedRounding` and `FineStepNotComputable` show requests outside it |
| Planner.Applied | src/Siner_ADF4351.cpp:77-175 | the caller's fields after a compute: frequency rounded, both powers snapped, all else unchanged; `ReplanIsStable` shows it is a fixed point below the wrap |
| Planner.MinDiv | src/Siner_ADF4351.cpp:109 | `2200000000 / (ratio * PFD)`, the product not wrapping because it is at most the frequency; `DivChoice` relates it to DIV |
| Planner.IntOf | src/Siner_ADF4351.cpp:126 | INT: the whole PFD steps in the `uint32_t` product `DIV * f`; `IntAndRemainder` states the split |
| Planner.RemOf | src/Siner_ADF4351.cpp:128 | the remainder INT leaves, below the PFD frequency |
| Planner.ModOf | src/Siner_ADF4351.cpp:139 | MOD, the PFD frequency over its gcd with the remainder, at least 1; `ModulusDividesPfd` states the product |
| Planner.FracOf | src/Siner_ADF4351.cpp:136 | FRAC in fractional-N mode, the remainder over the same gcd; `FractionalMode` states that FRAC/MOD is the remainder over the PFD in lowest terms |
| Planner.IntegerNFrequency | src/Siner_ADF4351.cpp:134 | the integer-N report `resultInt * (referenceHz / resultDiv)` in `uint32_t`, as `IntegerNMode` states |
| Registers.ControlField | src/Siner_ADF4351.cpp:250 | `regVal & 7` is below 8 and names the register the word addresses |
| Registers.AddressesUnique | src/Siner_ADF4351.cpp:250 | a word addresses at most one register |
| Registers.Register0Fields | src/Siner_ADF4351.cpp:178-179 | register 0 holds FRAC in bits 3-14, INT in bits 15-30 and control value 0 |
| Registers.Register1Fields | src/Siner_ADF4351.cpp:182-185 | register 1 holds MOD, the phase word, the prescaler and phase adjust in their fields, control value 1, nothing above bit 28 |
| Registers.Register2Fields | src/Siner_ADF4351.cpp:188-192 | register 2 is its template with integer-N, reference divider and doubler in bits 8, 24 and 25 |
| Registers.Register4Decodes | src/Siner_ADF4351.cpp:195-214 | each field of register 4 reads back the value written, and every other bit is the template's |
| Registers.Register0 | src/Siner_ADF4351.cpp:178-179 | word 0 from its template, INT and FRAC; decoded by `Register0Fields` |
| Registers.Register1 | src/Siner_ADF4351.cpp:182-185 | word 1 from its template, MOD, phase word, prescaler and phase adjust; decoded by `Register1Fields` |
| Registers.Register2 | src/Siner_ADF4351.cpp:188-192 | word 2 from its template and the integer-N, divider and doubler flags; decoded by `Register2Fields` |
| Registers.Register4 | src/Siner_ADF4351.cpp:195-214 | word 4 by the seven clear-then-OR steps; decoded by `Register4Decodes` |
| Registers.SetField | src/Siner_ADF4351.cpp:195-214 | one clear-then-OR step: the field `mask << pos` is cleared and `v & mask` put there; `Register4Decodes` shows each field reads back |
| Registers.Pack | src/Siner_ADF4351.cpp:63-214 | the six new words, rebuilt from the templates on every call, so nothing of the old bank carries over; laid out as `PackControl` and `PackLayout` state |
| Registers.Words | src/Siner_ADF4351.cpp:63-214 | the six new words of a computable configuration, packed from its plan; `WordsLayout` states that each addresses its own register |
| Registers.PackControl | src/Siner_ADF4351.cpp:63-214 | each packed word carries its own register number in the control bits |
| Registers.WordsLayout | src/Siner_ADF4351.cpp:63-214 | the new words address their own registers, registers 3 and 5 are the templates, and register 4 carries the chosen DIV index |
| Registers.DiffMask | src/Siner_ADF4351.cpp:217-222 | the marks of the comparison loop after `n` registers; `DiffMaskBits` states which bits are set |
| Registers.NewRegMask | src/Siner_ADF4351.cpp:217-231 | the comparison marks plus bit 0 on a latch; `NewRegMaskBits` states which bits are set |
| Registers.Latched | src/Siner_ADF4351.cpp:226-231 | bit 0 is set in `newRegMask` when a double-buffered value changed, and the mask is unchanged otherwise |
| Registers.MaskStaysLow | src/Siner_ADF4351.cpp:239 | ORing the marks of a compute into a mask without bits 6 and 7 keeps those bits clear |
| Registers.DiffMaskBits | src/Siner_ADF4351.cpp:217-222 | the comparison loop's mask has bit i exactly when word i changed |
| Registers.NewRegMaskBits | src/Siner_ADF4351.cpp:217-231 | the new mask has bit 0 exactly when word 0 changed or a latch is needed, bits 1-5 exactly when their word changed, bits 6-7 never |
| Registers.AccumulateMask | src/Siner_ADF4351.cpp:239 | ORing into the pending mask keeps every pending bit, adds exactly the new ones, and sets no bit above 5 |
| Registers.ShiftTest | src/Siner_ADF4351.cpp:315 | `(registerMask >> regId) & 1` holds exactly when bit `regId` is set |
| Registers.ShiftOne | src/Siner_ADF4351.cpp:219 | `1 << regId` is the mask bit of register `regId` |
| Registers.DirtyOrder | src/Siner_ADF4351.cpp:314-318 | the registers visited and written are exactly the dirty ones, in strictly descending order |
| Registers.LatchSentLast | src/Siner_ADF4351.cpp:314-318 | when register 0 is dirty it is the last one written |
| Device.Initial | src/Siner_ADF4351.h:34-72 | a fresh object: the caller's fields, the bank `{0xFFFFFFFF, 0, 0, 0, 0, 0}`, an empty mask, zero snapshot and results |
| Device.ResultsOf | src/Siner_ADF4351.cpp:84-139 | the `result*` fields a compute leaves: prescaler, DIV, INT, FRAC, MOD and the achieved frequency of the plan |
| Device.SnapshotOf | src/Siner_ADF4351.cpp:232-235 | the `last*` fields a compute leaves: the planned MOD and phase word and the two reference flags |
| Device.Latch | src/Siner_ADF4351.cpp:226-231 | register 0 must be rewritten exactly when one of the four double-buffered values differs from the last compute's |
| Device.Commit | src/Siner_ADF4351.cpp:216-239 | the end of a compute: the bank replaced by the new words, the changed registers (and register 0 on a latch) ORed into the mask, and the new snapshot and results; `CommitMask` and `CommitConsistent` state its properties |
| Device.Compute | src/Siner_ADF4351.cpp:58-241 | the state after a compute: fields as `Applied`, bank as `Words`, the new snapshot and results, and the new marks ORed into the mask; `CommitMask`, `ComputeConsistent` and `ComputeIdempotent` state its properties |
| Device.CommitMask | src/Siner_ADF4351.cpp:217-239 | after a compute, mask bit i is set exactly when it was pending or word i changed (bit 0 also on a latch), and no pending bit is cleared |
| Device.CommitConsistent | src/Siner_ADF4351.cpp:217-239 | committing self-addressed words, from any bank, leaves every dirty word addressing its slot, and adds no mask bit above 5 |
| Device.ComputeConsistent | src/Siner_ADF4351.cpp:58-241 | after a compute, from any bank, every dirty word addresses its own slot, and no mask bit above 5 appears |
| Device.ComputeOfParts | src/Siner_ADF4351.cpp:58-241 | the fields the compute stores, from the divider plan, phase word and snapped powers, form the state `Compute` describes |
| Device.WordsStable | src/Siner_ADF4351.cpp:77-214 | planning from the written-back fields gives the same words, double-buffered values and results |
| Device.ComputeIdempotent | src/Siner_ADF4351.cpp:58-241 | a second compute right after a compute changes nothing |
| Device.NoChangeNoBits | src/Siner_ADF4351.cpp:217-231 | identical words and no latch give an empty new mask |
| Device.FirstComputeMarksAll | src/Siner_ADF4351.h:46 | the first compute on a fresh object marks all six registers dirty |
| Device.FirstComputeLatches | src/Siner_ADF4351.h:69-72 | the first compute always requests the latch of register 0 |
| Device.DefaultsAreFixed | src/Siner_ADF4351.h:34-46 | the default power requests are supported levels and the default 25 MHz reference gives a 25 MHz PFD |
| Device.Cached | src/Siner_ADF4351.cpp:243-253 | the state after `writeRegister` with a load pin: only the bank changes, as `Cache` states |
| Device.Cache | src/Siner_ADF4351.cpp:248-251 | a written word replaces exactly the slot it addresses, if that is one of the six |
| Device.RewriteDirty | src/Siner_ADF4351.cpp:314-317 | rewriting a dirty register's cached word leaves the state unchanged |
| Device.CacheOwnWord | src/Siner_ADF4351.cpp:248-251 | caching a word that addresses its own slot changes nothing |
| Device.CacheConsistent | src/Siner_ADF4351.cpp:243-253 | caching any word keeps the driver's invariant |
| Device.Pass | src/Siner_ADF4351.cpp:314-317 | one pass of the loop: a dirty register's word goes through `writeRegister` and is cached where it addresses, without a load pin nothing happens, and the mask is unchanged |
| Device.SentOne | src/Siner_ADF4351.cpp:315-316 | the word one pass sends: the slot's current word when the register is dirty and a load pin is given, nothing otherwise |
| Device.AfterPasses | src/Siner_ADF4351.cpp:314-318 | the state after the passes from 5 down to `lo`, each reading the bank the earlier ones left; the mask is unchanged |
| Device.SentFrom | src/Siner_ADF4351.cpp:314-318 | the words those passes send, in order |
| Device.Sent | src/Siner_ADF4351.cpp:310-320 | the words `writeRegisters` sends; `SentInOrder` and `OfflineSendsNothing` state what they are |
| Device.Flushed | src/Siner_ADF4351.cpp:310-320 | the state after `writeRegisters`: the passes, then mask 0; `FlushConsistent` shows only the mask changes when every dirty word addresses its slot |
| Device.PassesKeepState | src/Siner_ADF4351.cpp:314-318 | when every dirty word addresses its own slot, the passes leave the state unchanged |
| Device.FlushConsistent | src/Siner_ADF4351.cpp:310-320 | in that case `writeRegisters` changes only the mask, to 0 |
| Device.MisaddressedWordMoves | src/Siner_ADF4351.cpp:243-253 | a dirty word that addresses another of the six slots is cached there by its pass, overwriting that slot |
| Device.OfflineKeepsBank | src/Siner_ADF4351.cpp:245-247 | without a load pin the passes change nothing |
| Device.SentFromGathers | src/Siner_ADF4351.cpp:310-320 | when every dirty word addresses its slot, the words sent are the cached words of the dirty registers, highest first |
| Device.GatherDirty | src/Siner_ADF4351.cpp:314-318 | the gathered dirty words each address their own register, and register 0's comes last |
| Device.SentInOrder | src/Siner_ADF4351.cpp:310-320 | the j-th word sent is the cached word of the j-th dirty register, it addresses that register, and a dirty register 0 goes last |
| Device.OfflineSendsNothing | src/Siner_ADF4351.cpp:245-247 | an object without a load pin sends nothing |
| Device.CleanSendsNothing | src/Siner_ADF4351.cpp:310-320 | with an empty mask nothing is sent |
| Device.FreshSendsNothing | src/Siner_ADF4351.h:68 | a fresh object has nothing pending to send |
| Device.Programmed | src/Siner_ADF4351.cpp:322-328 | the state after `program`: a compute, then `writeRegisters` |
| Device.ProgramSettles | src/Siner_ADF4351.cpp:322-328 | after `program`, from any bank, only the mask differs from the compute (it is 0), the cache holds the planned words, the words sent are the dirty planned words highest first, and a second compute marks nothing, so a write sends nothing |
| Device.FineStepNotComputable | src/Siner_ADF4351.cpp:100-145 | with the default 25 MHz reference, 2400010000 Hz gives DIV index 0, a 10000 Hz remainder and MOD 2500, so `360 / MOD` is 0 and the request is outside the domain |
| Adf4351.SearchDiv | src/Siner_ADF4351.cpp:104-119 | the DIV loop with its `break` finds the index `DivIndex` specifies |
| Adf4351.PlanDividers | src/Siner_ADF4351.cpp:77-139 | the step-by-step divider computation, calling `BinaryGcd`, yields the planner's `DividersOf` |
| Adf4351.Synthesizer.constructor | src/Siner_ADF4351.cpp:28-43 | a new object holds the header's defaults, the bank `{0xFFFFFFFF, 0, ...}`, an empty mask, and satisfies the invariant |
| Adf4351.Synthesizer.ComputeRegisterValues | src/Siner_ADF4351.cpp:58-241 | from any bank, the object's new state is `Compute` of the old one, every dirty word then addresses its slot, nothing is sent, and it returns true |
| Adf4351.Synthesizer.StoreResults | src/Siner_ADF4351.cpp:79-239 | the written-back fields, the results, the double-buffered values, the new bank and the mask ORed with the changed words and latch |
| Adf4351.Synthesizer.MarkLatch | src/Siner_ADF4351.cpp:226-239 | register 0 is marked exactly when a double-buffered value changed, the values are remembered, and the marks are ORed into the pending mask |
| Adf4351.Synthesizer.StoreWords | src/Siner_ADF4351.cpp:217-222 | the bank becomes the new words and the returned mask marks exactly the changed ones |
| Adf4351.Synthesizer.StoreWord | src/Siner_ADF4351.cpp:218-221 | one slot is stored, the others are untouched, and its bit is added exactly when its word changed |
| Adf4351.Synthesizer.WriteRegister | src/Siner_ADF4351.cpp:243-253 | without a load pin nothing changes; otherwise the word is cached where it addresses and appended to what was sent |
| Adf4351.Synthesizer.WriteRegisters | src/Siner_ADF4351.cpp:310-320 | from any bank, the new state is `Flushed` of the old one and the words sent are `Sent`: the passes from 5 down to 0, then mask 0 |
| Adf4351.Synthesizer.WritePass | src/Siner_ADF4351.cpp:315-317 | one pass of the loop: `Pass` of the state, and `SentOne` appended to what was sent |
| Adf4351.Synthesizer.Program | src/Siner_ADF4351.cpp:322-328 | from any bank, the new state is `Programmed` of the old one, the words sent are those of the computed state, and it returns true |

## Left out

- The serial transport (hardware SPI and the bit-banged clock and data pins, `src/Siner_ADF4351.cpp:255-307`) is not modelled; the ghost trace `sent` records the words it would push.
- `begin` (pin directions) and the pin arguments of the constructors are left out; only whether a load pin was given (`pinLoad == -1` or not) is kept.
- `enable` and `disable` drive a chip-enable pin only and are left out.
- The phase word is not checked against MOD; the driver's comment notes it must not exceed MOD, and the code does not enforce it either.
- Adf4351.Synthesizer.ComputeRegisterValues: requires `Computable`, because the C code divides by zero when the PFD frequency is 0, when the rounded request is below one PFD step, or when MOD exceeds 360 (`360 / resultMod` is then 0). What a division by zero does on the target is not modelled.
- Adf4351.Synthesizer.ComputeRegisterValues: the MOD ≤ 360 part of `Computable` excludes many ordinary requests. With the default 25 MHz reference in fractional-N mode, MOD is at most 360 only when the remainder is a multiple of 100 kHz or 250 kHz. For example, 2400010000 Hz leaves a remainder of 10000 Hz, so MOD is 2500 and the phase resolution is 0 (`Device.FineStepNotComputable`). The comment at `src/Siner_ADF4351.cpp:142-143` shows the phase was meant to be binned at resolution 360/MOD, so this division by zero is a defect of the code. The model gives no result for those requests.
- Adf4351.Synthesizer.Program: requires `Computable` for the same reason.
- The header does not declare `integerN` or the `result*` fields that the code uses; they are modelled as fields starting at false and 0.
- The order in which a compute writes the individual fields back is not modelled; only the state after the call is, with the rounded frequency and snapped powers written back together.
- The words are built by the `Register0`..`Register4` functions rather than by the in-place ORs on the template array; the values are the same.
- The latch test compares the planned MOD and phase word against the stored ones after the plan, as the code does.
- C `int` is taken as 32 bits; all `uint32_t` products that can wrap are reduced modulo 2^32 explicitly.
