/** The frequency planner of `Siner_ADF4351::computeRegisterValues`: from the
    caller's configuration to the DIV, INT, FRAC, MOD, prescaler, phase and
    power values that the register words carry. Every `uint32_t` expression
    that can wrap in C is reduced modulo 2^32 explicitly; the divisions that
    would divide by zero are excluded by `Computable`. */
module Planner {
  import opened BinaryGcd

  /** `int8_t`, the type of the two power fields. */
  type i8 = x: int | -128 <= x < 128

  /** `uint16_t`, the type of the phase field. */
  type u16 = x: nat | x < 0x1_0000

  /** The caller-set configuration fields of the driver object. */
  datatype Config = Config(
    frequencyHz: u32,
    referenceHz: u32,
    outputEnable: bool,
    outputPower: i8,
    auxEnable: bool,
    auxPower: i8,
    auxDivide: bool,
    muteTillLockDetect: bool,
    phaseAdjust: bool,
    phaseDegrees: u16,
    referenceDouble: bool,
    referenceDivide: bool,
    integerN: bool)

  /** The valid output dividers; the register holds the index, not the value. */
  const DivBank: seq<Positive> := [1, 2, 4, 8, 16, 32, 64]

  type Positive = x: nat | x >= 1 witness 1

  /** The lowest frequency of the internal VCO, in Hz. */
  const VcoMinHz: nat := 2200000000

  /** Above this output frequency the 8/9 prescaler is selected. */
  const PrescalerThresholdHz: nat := 3600000000

  /** The four supported power levels in dBm, indexed by register code. */
  const PowerLevels: seq<int> := [-4, -1, 2, 5]

  /** The `uint32_t` value of a nonnegative C expression: reduction modulo
      2^32. */
  function Wrap32(x: nat): (r: u32)
    ensures x < TWO32 ==> r == x
  {
    x % TWO32
  }

  // ---------------------------------------------------------------------
  // Rounding to 10 kHz

  /** `10000 * (f / 10000 + (f % 10000 >= 5000))` in `uint32_t`: the nearest
      multiple of 10 kHz, halves rounding up, for every request below
      4294965000 Hz; from there on the product wraps to 2704. */
  function RoundTo10k(f: u32): (r: u32)
    ensures f < 4294965000 ==> r % 10000 == 0 && r - 5000 <= f < r + 5000
    ensures f < 4294965000 ==> r < 4294965000
    ensures f >= 4294965000 ==> r == 2704
  {
    var tenKHzUnits := f / 10000;
    var tenKHzRem := f % 10000;
    NearestTenKHz(f);
    Wrap32(10000 * (tenKHzUnits + if tenKHzRem >= 5000 then 1 else 0))
  }

  /** The unwrapped product of the rounding: the nearest multiple of 10000,
      which passes 2^32 exactly from 4294965000 on. */
  lemma NearestTenKHz(f: u32)
    ensures var m := 10000 * (f / 10000 + if f % 10000 >= 5000 then 1 else 0);
      && m % 10000 == 0 && m - 5000 <= f < m + 5000
      && (f < 4294965000 ==> m < 4294965000)
      && (f >= 4294965000 ==> m == TWO32 + 2704)
  {
    assert f == 10000 * (f / 10000) + f % 10000;
  }

  /** Rounding an already rounded frequency leaves it unchanged. */
  lemma RoundIdempotent(f: u32)
    requires f < 4294965000
    ensures RoundTo10k(RoundTo10k(f)) == RoundTo10k(f)
  {
    var r := RoundTo10k(f);
    assert r == 10000 * (r / 10000);
  }

  // ---------------------------------------------------------------------
  // Phase-detector frequency and DIV selection

  /** The PFD frequency: the reference, doubled in `uint32_t` (which can
      wrap) and then halved with truncation. */
  function PfdHz(referenceHz: u32, referenceDouble: bool, referenceDivide: bool): (pfd: u32)
    ensures !referenceDouble && !referenceDivide ==> pfd == referenceHz
    ensures !referenceDouble && referenceDivide ==> pfd == referenceHz / 2
    ensures referenceDouble && referenceHz < TWO32 / 2 ==>
              pfd == if referenceDivide then referenceHz else 2 * referenceHz
    ensures referenceDouble && referenceHz >= TWO32 / 2 ==>
              pfd == if referenceDivide then referenceHz - TWO32 / 2 else 2 * referenceHz - TWO32
  {
    var doubled := if referenceDouble then Wrap32(referenceHz * 2) else referenceHz;
    if referenceDivide then doubled / 2 else doubled
  }

  /** The first index of `DivBank` whose divider exceeds `minDiv`, starting
      the search at `from`; 6 (divider 64) when none does. */
  function FirstDivAbove(minDiv: nat, from: nat): (k: nat)
    requires from <= 7
    ensures k <= 6
    ensures minDiv < 64 && from <= 6 && DivBank[from] <= minDiv ==> from < k
    decreases 7 - from
  {
    if from == 7 then 6
    else if DivBank[from] > minDiv then from
    else FirstDivAbove(minDiv, from + 1)
  }

  /** The DIV search of the driver: the smallest index whose divider is
      strictly greater than `minDiv`, or the fallback index 6 when no
      divider is. */
  function DivIndex(minDiv: nat): (k: nat)
    ensures k <= 6
    ensures minDiv < 64 ==> DivBank[k] > minDiv
    ensures forall j :: 0 <= j < k ==> DivBank[j] <= minDiv
    ensures minDiv >= 64 ==> k == 6
  {
    FirstDivAbove(minDiv, 0)
  }

  /** The exit of the driver's DIV loop determines `DivIndex`: an index up
      to 6 whose predecessors are all at most `minDiv`, and which is either
      above `minDiv` or the fallback 6, is the index of the search. */
  lemma DivIndexOfSearch(minDiv: nat, k: nat)
    requires k <= 6 && (k == 6 || DivBank[k] > minDiv)
    requires forall j :: 0 <= j < k ==> DivBank[j] <= minDiv
    ensures k == DivIndex(minDiv)
  {
  }

  /** A divider above `VcoMinHz / x` brings `x` above the VCO minimum. */
  lemma AboveQuotient(div: nat, x: nat)
    requires x > 0 && div > VcoMinHz / x
    ensures div * x > VcoMinHz
  {
    var q := VcoMinHz / x;
    assert VcoMinHz == x * q + VcoMinHz % x;
    MulMonotone(x, q + 1, div);
    assert x * (q + 1) == x * q + x;
  }

  // ---------------------------------------------------------------------
  // INT, FRAC and MOD

  /** The planner's intermediate values: the rounded frequency, prescaler,
      PFD, DIV, INT, FRAC, MOD and the achieved frequency. `nRem` is the
      remainder that INT leaves. */
  datatype Dividers = Dividers(
    frequencyHz: u32,
    resultPrescaler: u32,
    resultPfdHz: u32,
    ratio: u32,
    minDiv: nat,
    rfDiv: nat,
    resultDiv: u32,
    resultInt: u32,
    nRem: u32,
    resultFrac: u32,
    resultMod: u32,
    resultFrequency: u32)

  /** The divisions by the PFD frequency and by `ratio * PFD` are defined. */
  predicate DividersDefined(c: Config) {
    var pfd := PfdHz(c.referenceHz, c.referenceDouble, c.referenceDivide);
    pfd > 0 && RoundTo10k(c.frequencyHz) / pfd >= 1
  }

  /** The divider half of the planner, step by step as the driver computes
      it. Its properties are the lemmas that follow. */
  function DividersOf(c: Config): (r: Dividers)
    requires DividersDefined(c)
    ensures r.frequencyHz == RoundTo10k(c.frequencyHz)
    ensures r.resultPfdHz == PfdHz(c.referenceHz, c.referenceDouble, c.referenceDivide) > 0
    ensures r.rfDiv <= 6 && r.resultDiv == DivBank[r.rfDiv]
    ensures r.nRem < r.resultPfdHz && r.resultMod >= 1
  {
    var f := RoundTo10k(c.frequencyHz);
    var prescaler: u32 := if f > PrescalerThresholdHz then 1 else 0;
    var pfd := PfdHz(c.referenceHz, c.referenceDouble, c.referenceDivide);
    var ratio: u32 := f / pfd;
    var minDiv := MinDiv(ratio, pfd);
    var rfDiv := DivIndex(minDiv);
    var div := DivBank[rfDiv];
    var resultInt := IntOf(div, f, pfd);
    var nRem := RemOf(div, f, pfd);
    var resultMod := ModOf(nRem, pfd);
    var frac := if c.integerN then 0 else FracOf(nRem, pfd);
    var freq := if c.integerN then IntegerNFrequency(resultInt, c.referenceHz, div) else f;
    Dividers(f, prescaler, pfd, ratio, minDiv, rfDiv, div, resultInt, nRem, frac, resultMod, freq)
  }

  /** The smallest divider that lifts the PFD multiple `ratio * PFD` to the
      VCO minimum is above this quotient. */
  function MinDiv(ratio: u32, pfd: u32): nat
    requires ratio >= 1 && pfd >= 1
  {
    MulAtLeast(pfd, ratio);
    VcoMinHz / (ratio * pfd)
  }

  /** INT: whole PFD steps in the `uint32_t` product `DIV * f`. */
  function IntOf(div: Positive, f: u32, pfd: u32): u32
    requires pfd > 0
  {
    QuotientBound(Wrap32(div * f), pfd)
  }

  /** The remainder that INT leaves. */
  function RemOf(div: Positive, f: u32, pfd: u32): (nRem: u32)
    requires pfd > 0
    ensures nRem < pfd
  {
    Wrap32(div * f) % pfd
  }

  /** MOD: the PFD frequency over `gcd(nRem, PFD)`. */
  function ModOf(nRem: u32, pfd: u32): (m: u32)
    requires nRem < pfd
    ensures m >= 1
  {
    GcdBounds(nRem, pfd);
    QuotientBound(pfd, Gcd(nRem, pfd))
  }

  /** FRAC in fractional-N mode: the remainder over `gcd(nRem, PFD)`. */
  function FracOf(nRem: u32, pfd: u32): u32
    requires nRem < pfd
  {
    GcdBounds(nRem, pfd);
    QuotientBound(nRem, Gcd(nRem, pfd))
  }

  /** The frequency the driver reports in integer-N mode:
      `resultInt * (referenceHz / resultDiv)` in `uint32_t`. */
  function IntegerNFrequency(resultInt: u32, referenceHz: u32, div: Positive): u32 {
    Wrap32(resultInt * (referenceHz / div))
  }

  /** `n / d` brackets `n` between two consecutive multiples of `d`. */
  lemma QuotientBracket(n: nat, d: nat)
    requires d > 0
    ensures (n / d) * d <= n < (n / d + 1) * d
  {
    DivRem(n, d);
  }

  /** `n / d`, with the fact that it does not exceed `n`. */
  function QuotientBound(n: nat, d: nat): (q: nat)
    requires d > 0
    ensures q <= n && q == n / d
    ensures n >= d ==> q >= 1
  {
    DivRem(n, d);
    n / d
  }

  /** Euclidean division of a natural number by a positive one. */
  lemma DivRem(n: nat, d: nat)
    requires d > 0
    ensures (n / d) * d + n % d == n && n % d < d && n / d <= n
    ensures n >= d ==> n / d >= 1
  {
    assert n == d * (n / d) + n % d;
    if n / d >= 1 {
      MulAtLeast(d, n / d);
      MulAtLeast(n / d, d);
    }
  }

  /** The prescaler is 8/9 (value 1) exactly above 3.6 GHz, else 4/5. */
  lemma PrescalerChoice(c: Config)
    requires DividersDefined(c)
    ensures var r := DividersOf(c);
      r.resultPrescaler <= 1 && (r.resultPrescaler == 1 <==> r.frequencyHz > PrescalerThresholdHz)
  {
  }

  /** `ratio` counts whole PFD steps in the frequency, at least one. */
  lemma RatioSteps(c: Config)
    requires DividersDefined(c)
    ensures var r := DividersOf(c);
      r.ratio >= 1 && r.ratio * r.resultPfdHz <= r.frequencyHz < (r.ratio + 1) * r.resultPfdHz
  {
    var r := DividersOf(c);
    QuotientBracket(r.frequencyHz, r.resultPfdHz);
  }

  /** DIV is the smallest divider of the bank above `minDiv`, which then
      brings the PFD multiple `ratio * PFD` above the VCO minimum; when no
      divider is above `minDiv`, DIV falls back to 64. */
  lemma DivChoice(c: Config)
    requires DividersDefined(c)
    ensures var r := DividersOf(c);
      && r.minDiv == VcoMinHz / (r.ratio * r.resultPfdHz)
      && (forall j :: 0 <= j < r.rfDiv ==> DivBank[j] <= r.minDiv)
      && (r.minDiv < 64 ==> r.resultDiv > r.minDiv && r.resultDiv * (r.ratio * r.resultPfdHz) > VcoMinHz)
      && (r.minDiv >= 64 ==> r.rfDiv == 6 && r.resultDiv == 64)
  {
    var r := DividersOf(c);
    MulAtLeast(r.resultPfdHz, r.ratio);
    if r.minDiv < 64 {
      AboveQuotient(r.resultDiv, r.ratio * r.resultPfdHz);
    }
  }

  /** INT and the remainder it leaves split `DIV * f`, reduced modulo 2^32 as
      the `uint32_t` product is, into whole PFD steps and a remainder. */
  lemma IntAndRemainder(c: Config)
    requires DividersDefined(c)
    ensures var r := DividersOf(c);
      r.resultInt * r.resultPfdHz + r.nRem == Wrap32(r.resultDiv * r.frequencyHz)
  {
    var r := DividersOf(c);
    DivRem(Wrap32(r.resultDiv * r.frequencyHz), r.resultPfdHz);
  }

  /** MOD is the PFD frequency over the gcd of the remainder and the PFD. */
  lemma ModulusDividesPfd(c: Config)
    requires DividersDefined(c)
    ensures var r := DividersOf(c);
      r.resultMod * Gcd(r.nRem, r.resultPfdHz) == r.resultPfdHz
  {
    var r := DividersOf(c);
    ReducedFraction(r.nRem, r.resultPfdHz);
  }

  /** In integer-N mode FRAC is 0 and the reported frequency is INT times
      the reference over DIV, in `uint32_t`. */
  lemma IntegerNMode(c: Config)
    requires DividersDefined(c) && c.integerN
    ensures var r := DividersOf(c);
      r.resultFrac == 0 && r.resultFrequency == IntegerNFrequency(r.resultInt, c.referenceHz, r.resultDiv)
  {
  }

  /** In fractional-N mode FRAC / MOD is the remainder over the PFD
      frequency in lowest terms, and the reported frequency is the rounded
      request. */
  lemma FractionalMode(c: Config)
    requires DividersDefined(c) && !c.integerN
    ensures var r := DividersOf(c);
      && r.resultFrac < r.resultMod
      && Gcd(r.resultFrac, r.resultMod) == 1
      && r.resultFrac * r.resultPfdHz == r.nRem * r.resultMod
      && r.resultFrequency == r.frequencyHz
  {
    var r := DividersOf(c);
    ReducedFraction(r.nRem, r.resultPfdHz);
  }

  lemma MulRotate(a: int, g: int, b: int)
    ensures a * (g * b) == (g * a) * b
  {
  }

  /** `nRem / pfd` divided through by their gcd: a proper fraction in
      lowest terms with the same value. */
  lemma ReducedFraction(nRem: nat, pfd: nat)
    requires nRem < pfd
    ensures var g := Gcd(nRem, pfd);
      g > 0
      && nRem / g < pfd / g
      && Gcd(nRem / g, pfd / g) == 1
      && (nRem / g) * pfd == nRem * (pfd / g)
      && (pfd / g) * g == pfd
  {
    var g := Gcd(nRem, pfd);
    GcdReduced(nRem, pfd);
    CommonFactor(nRem, pfd, g, nRem / g, pfd / g);
  }

  /** Cancelling a common factor `g` from `g * a < g * b`. */
  lemma CommonFactor(n: nat, d: nat, g: nat, a: nat, b: nat)
    requires g > 0 && n == g * a && d == g * b && n < d
    ensures a < b && a * d == n * b && b * g == d
  {
    if a >= b {
      MulMonotone(g, b, a);
    }
    MulRotate(a, g, b);
  }

  // ---------------------------------------------------------------------
  // Phase and power

  /** The phase word: the requested degrees binned by the resolution
      `360 / MOD`. */
  function PhaseValue(phaseDegrees: u16, resultMod: u32): (v: u32)
    requires 1 <= resultMod <= 360
    ensures v * (360 / resultMod) <= phaseDegrees < (v + 1) * (360 / resultMod)
  {
    phaseDegrees / (360 / resultMod)
  }

  /** A power request snapped to a supported level: the register code and
      the level written back into the configuration. */
  datatype Power = Power(code: nat, level: i8)

  /** Snaps a power request down to the highest supported level not above
      it; requests below -4 dBm get the lowest level. */
  function SnapPower(requested: i8): (p: Power)
    ensures p.code <= 3 && p.level == PowerLevels[p.code]
    ensures p.level <= requested || p.code == 0
    ensures forall k :: 0 <= k < 4 && PowerLevels[k] <= requested ==> k <= p.code
  {
    if requested >= 5 then Power(3, 5)
    else if requested >= 2 then Power(2, 2)
    else if requested >= -1 then Power(1, -1)
    else Power(0, -4)
  }

  /** Snapping a snapped level gives it back. */
  lemma SnapIdempotent(requested: i8)
    ensures SnapPower(SnapPower(requested).level) == SnapPower(requested)
  {
  }

  // ---------------------------------------------------------------------
  // The whole plan

  /** Every division the planner performs is defined: the PFD frequency is
      nonzero, the request is at least one PFD step, and MOD is at most 360
      so that the phase resolution `360 / MOD` is nonzero. */
  predicate Computable(c: Config) {
    DividersDefined(c) && DividersOf(c).resultMod <= 360
  }

  datatype Plan = Plan(dividers: Dividers, phaseValue: u32, output: Power, aux: Power)

  function PlanOf(c: Config): (p: Plan)
    requires Computable(c)
    ensures p.dividers == DividersOf(c)
    ensures p.phaseValue == PhaseValue(c.phaseDegrees, p.dividers.resultMod)
    ensures p.output == SnapPower(c.outputPower) && p.aux == SnapPower(c.auxPower)
  {
    var d := DividersOf(c);
    Plan(d, PhaseValue(c.phaseDegrees, d.resultMod), SnapPower(c.outputPower), SnapPower(c.auxPower))
  }

  /** The configuration as the planner leaves it: the frequency rounded and
      both power levels snapped, everything else as it was. */
  function Applied(c: Config): Config {
    c.(frequencyHz := RoundTo10k(c.frequencyHz),
       outputPower := SnapPower(c.outputPower).level,
       auxPower := SnapPower(c.auxPower).level)
  }

  /** Planning again from the configuration the planner left behind gives
      the same plan and the same configuration. */
  lemma ReplanIsStable(c: Config)
    requires Computable(c) && c.frequencyHz < 4294965000
    ensures Computable(Applied(c))
    ensures PlanOf(Applied(c)) == PlanOf(c)
    ensures Applied(Applied(c)) == Applied(c)
  {
    RoundIdempotent(c.frequencyHz);
    SnapIdempotent(c.outputPower);
    SnapIdempotent(c.auxPower);
    var a := Applied(c);
    assert DividersOf(a) == DividersOf(c);
  }

  /** From 4294965000 Hz on the rounding wraps to 2704 Hz. The first plan
      then already divides by zero unless the PFD frequency is at most
      2704 Hz, and the 2704 Hz written back rounds to 0, so every later
      plan divides by zero. */
  lemma WrappedRounding(c: Config)
    requires c.frequencyHz >= 4294965000
    ensures RoundTo10k(c.frequencyHz) == 2704
    ensures PfdHz(c.referenceHz, c.referenceDouble, c.referenceDivide) > 2704 ==> !DividersDefined(c)
    ensures Applied(c).frequencyHz == 2704
    ensures !DividersDefined(Applied(c))
  {
  }
}
