/**
 * The SPI clock search: setFrequency, setClockDivider and the register cache.
 *
 * The clock register is a 32-bit word with the fields EQU (bit 31), Pre (bits 18-30), N (bits 12-17),
 * H (bits 6-11) and L (bits 0-5); the bus runs at clock / ((Pre + 1) * (N + 1)).
 */
module SpiClock {
  import opened Division

  const SYS_CLOCK_DIVIDER: nat := 0x8000_0000
  const SLOWEST_DIVIDER: nat := 0x7FFF_F000
  const MAX_N: nat := 0x3F
  const MAX_PRE: nat := 0x1FFF

  datatype ClkReg = ClkReg(l: nat, h: nat, n: nat, pre: nat, equ: nat) {
    predicate Fits() {
      l < 64 && h < 64 && n <= MAX_N && pre <= MAX_PRE && equ < 2
    }

    function Value(): nat {
      l + 0x40 * h + 0x1000 * n + 0x4_0000 * pre + 0x8000_0000 * equ
    }
  }

  function FieldN(value: nat): nat { value / 0x1000 % 0x40 }

  function FieldPre(value: nat): nat { value / 0x4_0000 % 0x2000 }

  function FieldL(value: nat): nat { value % 0x40 }

  /** Reading the fields back out of the packed word gives what was put in. */
  lemma FieldsOfValue(r: ClkReg)
    requires r.Fits()
    ensures FieldN(r.Value()) == r.n && FieldPre(r.Value()) == r.pre && FieldL(r.Value()) == r.l
    ensures r.Value() < 0x8000_0000 <==> r.equ == 0
  {
    var v := r.Value();
    QuotientUnique(v, 0x40, r.h + 0x40 * r.n + 0x1000 * r.pre + 0x200_0000 * r.equ);
    QuotientUnique(v, 0x1000, r.n + 0x40 * r.pre + 0x8_0000 * r.equ);
    QuotientUnique(r.n + 0x40 * r.pre + 0x8_0000 * r.equ, 0x40, r.pre + 0x2000 * r.equ);
    QuotientUnique(v, 0x4_0000, r.pre + 0x2000 * r.equ);
    QuotientUnique(r.pre + 0x2000 * r.equ, 0x2000, r.equ);
  }

  /** The bus frequency a register value selects. */
  function Frequency(clock: nat, n: nat, pre: nat): nat {
    clock / ((pre + 1) * (n + 1))
  }

  function MinFrequency(clock: nat): nat { Frequency(clock, FieldN(SLOWEST_DIVIDER), FieldPre(SLOWEST_DIVIDER)) }

  /** The prescaler tried for `variant`, clamped to the 13 bits of its field. */
  function Candidate(clock: nat, freq: nat, n: nat, variant: int): (pre: nat)
    requires 0 < freq
    ensures pre <= MAX_PRE
  {
    var calPre := clock / (n + 1) / freq - 1 + variant;
    if calPre > MAX_PRE then MAX_PRE else if calPre <= 0 then 0 else calPre
  }

  /** No setting of this N stays at or below `freq` and comes closer to it than `bound`. */
  ghost predicate NoneCloser(clock: nat, freq: nat, n: nat, bound: nat) {
    forall pre | 0 <= pre <= MAX_PRE ::
      Frequency(clock, n, pre) <= freq ==> Frequency(clock, n, pre) <= bound
  }

  ghost predicate NoneAsClose(clock: nat, freq: nat, n: nat, bound: nat) {
    forall pre | 0 <= pre <= MAX_PRE ::
      Frequency(clock, n, pre) <= freq ==> Frequency(clock, n, pre) < bound
  }

  /**
   * `value` is the best register for `freq`: it does not exceed it, none of the 63 * 8192 settings is closer
   * from below, no smaller N is as close, L is half the period, and the system-clock bit is off.
   */
  ghost predicate Best(clock: nat, freq: nat, value: nat) {
    && value < 0x8000_0000
    && 1 <= FieldN(value)
    && FieldL(value) == (FieldN(value) + 1) / 2
    && var f := Frequency(clock, FieldN(value), FieldPre(value));
    && f <= freq
    && (forall n | 1 <= n <= MAX_N :: NoneCloser(clock, freq, n, f))
    && (forall n | 1 <= n < FieldN(value) :: NoneAsClose(clock, freq, n, f))
  }

  /** What the register should hold after a request below the system clock. */
  ghost predicate Right(clock: nat, freq: nat, value: nat) {
    if freq < MinFrequency(clock) then value == SLOWEST_DIVIDER else Best(clock, freq, value)
  }

  /** The first variant wins whenever it is feasible: no setting of this N then beats it. */
  lemma FirstVariantBest(a: nat, freq: nat, p: nat, p0: nat)
    requires 0 < freq && 0 < p && 0 < p0
    requires p0 <= a / freq || p0 == 1
    requires a / p <= freq && a / p0 <= freq
    ensures a / p <= a / p0
  {
    if p < p0 {
      Scale(p0, a / freq, freq);
      QuotientAtMost(a, p0, freq - 1);
      assert freq * p0 <= a / freq * freq <= a;
    } else {
      QuotientAntitone(a, p0, p);
    }
  }

  /** When the first variant is too fast, the next slower divisor is the fastest feasible one. */
  lemma SecondVariantBest(a: nat, freq: nat, p: nat, p0: nat)
    requires 0 < freq && 0 < p && 0 < p0
    requires p0 == a / freq
    requires a / p <= freq < a / p0
    ensures p0 < p && a / p <= a / (p0 + 1) <= freq
  {
    if p <= p0 {
      QuotientAntitone(a, p, p0);
    }
    QuotientAntitone(a, p0 + 1, p);
    QuotientAtMost(a, freq, p0);
    assert a < (p0 + 1) * freq;
    QuotientAtMost(a, p0 + 1, freq);
    assert (freq + 1) * (p0 + 1) == (p0 + 1) * freq + (p0 + 1);
  }

  /**
   * Two of the four variants already decide one N: the prescaler whose divisor is the floored quotient, and
   * the next slower one. Every feasible setting of this N is dominated by one of the two.
   */
  lemma VariantsSuffice(clock: nat, freq: nat, n: nat, pre: nat)
    requires 0 < freq && pre <= MAX_PRE && Frequency(clock, n, pre) <= freq
    ensures var c0 := Frequency(clock, n, Candidate(clock, freq, n, 0));
            var c1 := Frequency(clock, n, Candidate(clock, freq, n, 1));
            || Frequency(clock, n, pre) <= c0 <= freq
            || Frequency(clock, n, pre) <= c1 <= freq
  {
    var a := clock / (n + 1);
    var p0, p1 := Candidate(clock, freq, n, 0), Candidate(clock, freq, n, 1);
    NestedQuotient(clock, n + 1, pre + 1);
    NestedQuotient(clock, n + 1, p0 + 1);
    NestedQuotient(clock, n + 1, p1 + 1);
    if a / (p0 + 1) <= freq {
      FirstVariantBest(a, freq, pre + 1, p0 + 1);
    } else {
      if p0 == MAX_PRE {
        QuotientAntitone(a, pre + 1, p0 + 1);
      }
      SecondVariantBest(a, freq, pre + 1, p0 + 1);
    }
  }

  /** The four variants tried for one N bound every setting of that N. */
  lemma VariantsBoundN(clock: nat, freq: nat, n: nat, bound: nat)
    requires 0 < freq
    requires forall v | -1 <= v <= 2 ::
               var f := Frequency(clock, n, Candidate(clock, freq, n, v)); f <= freq ==> f <= bound
    ensures NoneCloser(clock, freq, n, bound)
  {
    forall pre | 0 <= pre <= MAX_PRE && Frequency(clock, n, pre) <= freq
      ensures Frequency(clock, n, pre) <= bound
    {
      VariantsSuffice(clock, freq, n, pre);
    }
  }

  /** The slowest setting is feasible for every request that reaches the search, and runs at 1 Hz or more. */
  lemma SlowestFeasible(clock: nat, freq: nat)
    requires 0x8_0000 <= clock && MinFrequency(clock) <= freq
    ensures 1 <= Frequency(clock, MAX_N, MAX_PRE) <= freq
  {
    assert FieldN(SLOWEST_DIVIDER) == MAX_N && FieldPre(SLOWEST_DIVIDER) == MAX_PRE;
    QuotientAtMost(clock, 0x8_0000, 0);
  }

  /** A best register is never one of the two special words, so it leaves the system clock unselected. */
  lemma RightIsDivided(clock: nat, freq: nat, value: nat)
    requires Right(clock, freq, value)
    ensures value != SYS_CLOCK_DIVIDER && value != 0
  {
  }

  /** The best frequency for a request is unique: any two right registers run the bus equally fast. */
  lemma BestFrequencyUnique(clock: nat, freq: nat, v: nat, w: nat)
    requires Best(clock, freq, v) && Best(clock, freq, w)
    ensures FieldN(v) == FieldN(w)
    ensures Frequency(clock, FieldN(v), FieldPre(v)) == Frequency(clock, FieldN(w), FieldPre(w))
  {
    assert NoneCloser(clock, freq, FieldN(w), Frequency(clock, FieldN(v), FieldPre(v)));
    assert NoneCloser(clock, freq, FieldN(v), Frequency(clock, FieldN(w), FieldPre(w)));
    assert FieldN(v) < FieldN(w) ==> NoneAsClose(clock, freq, FieldN(v), Frequency(clock, FieldN(w), FieldPre(w)));
    assert FieldN(w) < FieldN(v) ==> NoneAsClose(clock, freq, FieldN(w), Frequency(clock, FieldN(v), FieldPre(v)));
  }

  /** What the search has kept: nothing yet, or a setting running at `freq` with its N and L. */
  ghost predicate Kept(clock: nat, reg: ClkReg, freq: nat) {
    && reg.Fits() && reg.equ == 0
    && (0 < freq ==> 1 <= reg.n && reg.l == (reg.n + 1) / 2 && Frequency(clock, reg.n, reg.pre) == freq)
  }

  /** No variant of `n` up to `last` is feasible and closer to `freq` than `bound`. */
  ghost predicate Tried(clock: nat, freq: nat, n: nat, last: int, bound: nat)
    requires 0 < freq
  {
    forall v | -1 <= v <= last ::
      var f := Frequency(clock, n, Candidate(clock, freq, n, v)); f <= freq ==> f <= bound
  }

  /** Every N below `upTo` is bounded by `bound`, and those below `first` stay strictly under it. */
  ghost predicate Explored(clock: nat, freq: nat, upTo: nat, first: nat, bound: nat) {
    && (forall n | 1 <= n < upTo :: NoneCloser(clock, freq, n, bound))
    && (forall n | 1 <= n < first :: NoneAsClose(clock, freq, n, bound))
  }

  /** One more N: a kept setting stays first with its bound, an improved one makes every earlier N strictly worse. */
  lemma ExploreNext(clock: nat, freq: nat, upTo: nat, first: nat, bound: nat, newBound: nat)
    requires Explored(clock, freq, upTo, first, bound) && first < upTo && bound <= newBound
    ensures bound < newBound ==> Explored(clock, freq, upTo, upTo, newBound)
    ensures NoneCloser(clock, freq, upTo, newBound) ==>
              Explored(clock, freq, upTo + 1, if bound < newBound then upTo else first, newBound)
  {
    forall n | 1 <= n < upTo
      ensures NoneCloser(clock, freq, n, newBound)
      ensures bound < newBound ==> NoneAsClose(clock, freq, n, newBound)
    {
      assert NoneCloser(clock, freq, n, bound);
    }
  }

  /** What the loop leaves behind, exact or not, is the best register. */
  lemma SearchDone(clock: nat, freq: nat, reg: ClkReg, found: nat)
    requires 0x8_0000 <= clock && MinFrequency(clock) <= freq
    requires found <= freq && Kept(clock, reg, found)
    requires exists upTo :: (found == freq || MAX_N < upTo) && Explored(clock, freq, upTo, reg.n, found)
    ensures Best(clock, freq, reg.Value())
  {
    SlowestFeasible(clock, freq);
    assert found == freq || NoneCloser(clock, freq, MAX_N, found);
    FieldsOfValue(reg);
    forall n | 1 <= n <= MAX_N
      ensures NoneCloser(clock, freq, n, found)
    {
    }
  }

  /** The inner loop: four prescalers for one N, stopping at an exact match. */
  method TryVariants(clock: nat, freq: nat, calN: nat, reg0: ClkReg, freq0: nat)
    returns (bestReg: ClkReg, bestFreq: nat, calFreq: nat)
    requires 0 < freq && 1 <= calN <= MAX_N && freq0 < freq
    requires Kept(clock, reg0, freq0)
    ensures calFreq == freq ==> Kept(clock, bestReg, freq) && bestReg.n == calN
    ensures calFreq != freq ==> freq0 <= bestFreq < freq && Kept(clock, bestReg, bestFreq)
    ensures calFreq != freq ==> NoneCloser(clock, freq, calN, bestFreq)
    ensures calFreq != freq ==> bestReg.n == if freq0 < bestFreq then calN else reg0.n
  {
    bestReg, bestFreq, calFreq := reg0, freq0, 0;
    var calPreVari := -2;
    while calPreVari <= 1
      invariant -2 <= calPreVari <= 2
      invariant freq0 <= bestFreq < freq && calFreq != freq
      invariant Kept(clock, bestReg, bestFreq)
      invariant bestReg.n == if freq0 < bestFreq then calN else reg0.n
      invariant Tried(clock, freq, calN, calPreVari, bestFreq)
    {
      calPreVari := calPreVari + 1;
      var reg := ClkReg((calN + 1) / 2, 0, calN, Candidate(clock, freq, calN, calPreVari), 0);
      calFreq := Frequency(clock, reg.n, reg.pre);
      if calFreq == freq {
        bestReg := reg;
        return;
      } else if calFreq < freq {
        if freq - calFreq < freq - bestFreq {
          bestFreq := calFreq;
          bestReg := reg;
        }
      }
    }
    VariantsBoundN(clock, freq, calN, bestFreq);
  }

  /** The search: N from 1 to 63, stopping at an exact match. */
  method Search(clock: nat, freq: nat) returns (value: nat)
    requires 0x8_0000 <= clock && MinFrequency(clock) <= freq
    ensures Best(clock, freq, value)
  {
    var calN := 1;
    var bestReg := ClkReg(0, 0, 0, 0, 0);
    var bestFreq: nat := 0;
    ghost var found: nat := 0;
    while calN <= MAX_N
      invariant 1 <= calN <= MAX_N + 1
      invariant bestFreq < freq && Kept(clock, bestReg, bestFreq) && bestReg.n < calN
      invariant found == bestFreq
      invariant Explored(clock, freq, calN, bestReg.n, bestFreq)
    {
      var calFreq;
      ghost var first, before := bestReg.n, bestFreq;
      bestReg, bestFreq, calFreq := TryVariants(clock, freq, calN, bestReg, bestFreq);
      if calFreq == freq {
        found := freq;
        ExploreNext(clock, freq, calN, first, before, freq);
        break;
      }
      found := bestFreq;
      ExploreNext(clock, freq, calN, first, before, bestFreq);
      calN := calN + 1;
    }
    SearchDone(clock, freq, bestReg, found);
    value := bestReg.Value();
  }

  class SpiClass {
    const clock: nat
    var clkReg: nat
    var sysClock: bool
    var lastSetFrequency: nat
    var lastSetRegister: nat

    ghost predicate ColdCache()
      reads this
    {
      lastSetFrequency == 0 && lastSetRegister == 0
    }

    /** The cache pair is the initial one, or the register is the right one for the frequency. */
    ghost predicate Valid()
      reads this
    {
      && 0x8_0000 <= clock < 0x8000_0000
      && (sysClock <==> clkReg == SYS_CLOCK_DIVIDER)
      && (ColdCache() || Right(clock, lastSetFrequency, lastSetRegister))
    }

    constructor (clock: nat, resetRegister: nat)
      requires 0x8_0000 <= clock < 0x8000_0000
      ensures Valid() && ColdCache()
      ensures this.clock == clock && clkReg == resetRegister
    {
      this.clock := clock;
      clkReg := resetRegister;
      sysClock := resetRegister == SYS_CLOCK_DIVIDER;
      lastSetFrequency, lastSetRegister := 0, 0;
    }

    method SetClockDivider(clockDiv: nat)
      requires Valid()
      modifies this`clkReg, this`sysClock
      ensures Valid()
      ensures clkReg == clockDiv
    {
      sysClock := clockDiv == SYS_CLOCK_DIVIDER;
      clkReg := clockDiv;
    }

    /**
     * Requests at or above the clock select it undivided. Below it the register is the right one for the
     * request whatever the cache held, except that a zero request on a zeroed register and a cold cache is
     * mistaken for a repeat.
     */
    method SetFrequency(freq: nat)
      requires Valid()
      modifies this
      ensures Valid()
      ensures freq >= clock ==>
                clkReg == SYS_CLOCK_DIVIDER && sysClock
                && lastSetFrequency == old(lastSetFrequency) && lastSetRegister == old(lastSetRegister)
      ensures freq < clock ==>
                (Right(clock, freq, clkReg) && !sysClock
                 <==> !(freq == 0 && old(clkReg) == 0 && old(ColdCache())))
      ensures freq < clock && freq == 0 && old(clkReg) == 0 && old(ColdCache()) ==> clkReg == 0
      ensures freq < clock ==> lastSetFrequency == freq && lastSetRegister == clkReg
    {
      if freq >= clock {
        SetClockDivider(SYS_CLOCK_DIVIDER);
        return;
      }
      if lastSetFrequency == freq && lastSetRegister == clkReg {
        if Right(clock, freq, clkReg) {
          RightIsDivided(clock, freq, clkReg);
        }
        return;
      }
      if freq < MinFrequency(clock) {
        SetClockDivider(SLOWEST_DIVIDER);
        lastSetRegister := clkReg;
        lastSetFrequency := freq;
        return;
      }
      var value := Search(clock, freq);
      SetClockDivider(value);
      lastSetRegister := clkReg;
      lastSetFrequency := freq;
    }
  }
}
