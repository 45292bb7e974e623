/** Rate compensation of the 1588 counter (src/hardware/devnp/mx6x/ptp.c): clock setup and
    the search for the correction that comes closest to the requested offset. */
module PtpComp {
  import opened Arith

  const SECOND: nat := 1_000_000_000

  /** ~0, the initial min_err. */
  const WORST: int := 0xFFFF_FFFF

  datatype Outcome = Done | Refused | ZeroDivide

  /** rem_offset. */
  function Rem(freq: nat, comp: nat): nat
    requires freq > 0
  {
    QuotientShrinks(comp, freq);
    comp - comp / freq
  }

  /** The correction period for an extra i nanoseconds. */
  function Period(freq: nat, comp: nat, i: nat): nat
    requires freq > 0 && Rem(freq, comp) > 0
  {
    freq * i / Rem(freq, comp)
  }

  /** The first divisor of the search, Rem, and the second one at i == 1 are not zero. */
  predicate Defined(freq: nat, comp: nat) {
    freq > 0 && 0 < Rem(freq, comp) <= freq
  }

  lemma {:induction false} PeriodPositive(freq: nat, comp: nat, i: nat)
    requires Defined(freq, comp) && i > 0
    ensures Period(freq, comp, i) > 0
  {
    MulAtLeast(freq, i);
    DivideBack(freq * i, Rem(freq, comp));
  }

  /** err: how far the offset of an extra i every Period ticks is above the requested one. */
  function Err(freq: nat, comp: nat, i: nat): (e: nat)
    requires Defined(freq, comp) && i > 0
    ensures e <= WORST
  {
    PeriodPositive(freq, comp, i);
    Wrap(freq * i / Period(freq, comp, i) - comp)
  }

  /** r has the least error of 1..inc, and is the smallest with it. */
  ghost predicate Least(freq: nat, comp: nat, inc: nat, r: nat)
    requires Defined(freq, comp)
  {
    && 1 <= r <= inc
    && (forall i | 1 <= i <= inc :: Err(freq, comp, r) <= Err(freq, comp, i))
    && (forall i | 1 <= i < r :: Err(freq, comp, r) < Err(freq, comp, i))
  }

  /** All of 1..inc have the error that min_err starts with. */
  ghost predicate Hopeless(freq: nat, comp: nat, inc: nat)
    requires Defined(freq, comp)
  {
    forall i | 1 <= i <= inc :: Err(freq, comp, i) == WORST
  }

  // ---- when the arithmetic is sound ----

  lemma {:induction false} RemBelow(freq: nat, comp: nat)
    requires comp < freq
    ensures Rem(freq, comp) == comp
  {
    DivisionIsUnique(comp, freq, 0, comp);
  }

  lemma {:induction false} RemAt(freq: nat, comp: nat, r: nat)
    requires comp == freq + r && r < freq
    ensures Rem(freq, comp) == comp - 1
  {
    DivisionIsUnique(comp, freq, 1, r);
  }

  /** A divisor of the search is zero, the second one already at i == 1, exactly when the
      offset is at least two above the frequency (three at 2 Hz, and always at 1 Hz). */
  lemma {:induction false} DefinedExactly(freq: nat, comp: nat)
    requires freq > 0 && comp > 0
    ensures Defined(freq, comp) <==> freq >= 2 && comp <= (if freq == 2 then 4 else freq + 1)
    ensures freq >= 2 ==> Rem(freq, comp) > 0
    ensures freq >= 2 && !Defined(freq, comp) ==> Period(freq, comp, 1) == 0
  {
    if freq == 1 {
      DivisionIsUnique(comp, 1, comp, 0);
    } else if freq > 2 {
      if comp < freq {
        RemBelow(freq, comp);
      } else if comp < 2 * freq {
        RemAt(freq, comp, comp - freq);
      } else {
        RemLarge(freq, comp);
      }
    }
    if Rem(freq, comp) > freq {
      DivisionIsUnique(freq, Rem(freq, comp), 0, freq);
    }
  }

  lemma {:induction false} RemLarge(freq: nat, comp: nat)
    requires freq >= 3 && comp >= 2 * freq
    ensures Rem(freq, comp) > freq
  {
    var q := comp / freq;
    QuotientBounds(comp, freq);
    QuotientAtLeast(comp, freq, 2);
    MulMonotone(2, q, freq - 1);
    assert q * freq == q * (freq - 1) + q;
    assert comp - q >= q * (freq - 1) >= 2 * (freq - 1);
  }

  /** Up to the frequency the error never underflows and beats the initial min_err. */
  lemma {:induction false} ErrSound(freq: nat, comp: nat, i: nat)
    requires 0 < comp <= freq && i > 0 && freq * i <= WORST && (comp == freq ==> freq >= 3)
    requires comp == freq ==> i == 1
    ensures Defined(freq, comp) && Period(freq, comp, i) > 0
    ensures freq * i / Period(freq, comp, i) >= comp
    ensures Err(freq, comp, i) == freq * i / Period(freq, comp, i) - comp < WORST
  {
    if comp < freq {
      RemBelow(freq, comp);
      MulAtLeast(freq, i);
      DivideBack(freq * i, comp);
    } else {
      RemAt(freq, comp, 0);
      DivisionIsUnique(freq, freq - 1, 1, 1);
      DivisionIsUnique(freq, 1, freq, 0);
    }
    QuotientShrinks(freq * i, Period(freq, comp, i));
  }

  /** One above the frequency every error underflows, so no correction is chosen. */
  lemma {:induction false} ErrUnderflows(freq: nat, i: nat)
    requires freq >= 2 && i > 0 && freq <= WORST
    ensures Defined(freq, freq + 1) && Err(freq, freq + 1, i) == WORST
  {
    RemAt(freq, freq + 1, 1);
    PeriodPositive(freq, freq + 1, i);
    DivisionIsUnique(freq * i, freq, i, 0);
    DivisionIsUnique(freq * i, i, freq, 0);
  }

  /** The first turn of the search neither divides by zero nor underflows exactly when the
      request is at most the clock frequency (and below it, for clocks of 1 and 2 Hz). */
  lemma {:induction false} SoundExactly(freq: nat, comp: nat)
    requires 0 < freq <= WORST && comp > 0
    ensures Defined(freq, comp) && Period(freq, comp, 1) > 0 && freq / Period(freq, comp, 1) >= comp <==>
      comp < freq || (comp == freq && freq >= 3)
  {
    hide Period;
    DefinedExactly(freq, comp);
    if comp < freq || (comp == freq && freq >= 3) {
      ErrSound(freq, comp, 1);
    } else if Defined(freq, comp) {
      TooMuchRequested(freq, comp);
    }
  }

  lemma {:induction false} TooMuchRequested(freq: nat, comp: nat)
    requires Defined(freq, comp) && comp >= freq && (comp == freq ==> freq == 2) && freq >= 2
    requires comp <= (if freq == 2 then 4 else freq + 1)
    ensures Period(freq, comp, 1) > 0 && freq / Period(freq, comp, 1) < comp
  {
    hide Period;
    PeriodPositive(freq, comp, 1);
    QuotientShrinks(freq, Period(freq, comp, 1));
    if comp == freq {
      TwoHertz();
    }
  }

  lemma {:induction false} TwoHertz()
    ensures Rem(2, 2) == 1 && Period(2, 2, 1) == 2
  {
  }

  /** What a request adds to the base increment. */
  function Whole(freq: nat, comp: nat): nat
    requires freq > 0
  {
    QuotientShrinks(comp, freq);
    comp / freq
  }

  /** 32 bits hold every product of the search, whenever it is entered without a zero divisor. */
  lemma {:induction false} NoOverflow(freq: nat, period: nat, comp: nat)
    requires freq * period <= SECOND && freq <= WORST && Defined(freq, comp) && Whole(freq, comp) <= freq / 2
    ensures Whole(freq, comp) <= 1 && freq * (period + Whole(freq, comp)) <= WORST
  {
    WholeIsSmall(freq, comp);
    var q := Whole(freq, comp);
    AddMul(period, q, freq);
    MulMonotone(q, 1, freq);
    if period > 0 { MulAtLeast(freq, period); }
  }

  lemma {:induction false} WholeIsSmall(freq: nat, comp: nat)
    requires Defined(freq, comp) && Whole(freq, comp) <= freq / 2
    ensures Whole(freq, comp) <= 1
  {
    if comp < 2 * freq {
      QuotientAtMost(comp, freq, 1);
    } else if freq >= 3 {
      RemLarge(freq, comp);
    }
  }

  // ---- the search ----

  /** The clock period in nanoseconds from count ticks in diff nanoseconds, rounded, or the
      default of 125 MHz. */
  function Measured(diff: nat, count: nat): nat {
    if diff > 0 && count > 0 then (diff + count / 2) / count else 8
  }

  /** The search after 1..k of 1..inc. */
  ghost predicate Progress(freq: nat, comp: nat, inc: nat, k: nat, minErr: int, cor: nat, per: nat)
    requires Defined(freq, comp)
  {
    && minErr <= WORST && cor <= inc
    && (minErr == WORST ==> cor == inc && per == 0 && Hopeless(freq, comp, k))
    && (minErr < WORST ==>
          Least(freq, comp, k, cor) && minErr == Err(freq, comp, cor) && per == Period(freq, comp, cor))
  }

  lemma {:induction false} ProgressStep(freq: nat, comp: nat, inc: nat, k: nat, minErr: int, cor: nat, per: nat)
    requires Defined(freq, comp) && Progress(freq, comp, inc, k, minErr, cor, per) && k < inc
    ensures var e := Err(freq, comp, k + 1);
      if e < minErr then Progress(freq, comp, inc, k + 1, e, k + 1, Period(freq, comp, k + 1))
      else Progress(freq, comp, inc, k + 1, minErr, cor, per)
  {
    hide Err, Period, Defined;
  }

  /** An exact match needs no further search. */
  lemma {:induction false} ExactIsLeast(freq: nat, comp: nat, inc: nat, k: nat, minErr: int, cor: nat, per: nat)
    requires Defined(freq, comp) && Progress(freq, comp, inc, k, minErr, cor, per) && k < inc
    requires minErr > 0 && Err(freq, comp, k + 1) == 0
    ensures Least(freq, comp, inc, k + 1)
  {
    hide Period, Defined;
  }

  /** One turn of the search loop. */
  method Try(freq: nat, comp: nat, i: nat) returns (defined: bool, testPeriod: nat, err: int)
    requires freq > 0 && i > 0 && Rem(freq, comp) > 0 && (i > 1 ==> Defined(freq, comp)) && freq * i <= WORST
    ensures defined <==> Defined(freq, comp)
    ensures defined ==> testPeriod == Period(freq, comp, i) && err == Err(freq, comp, i)
  {
    hide Wrap, Defined, Rem;
    FirstPeriod(freq, comp, i);
    defined, testPeriod, err := true, Wrap(freq * i) / Rem(freq, comp), 0;
    if testPeriod == 0 {
      return false, 0, 0;
    }
    ErrIs(freq, comp, i);
    var testOffset := Wrap(freq * i) / testPeriod;
    err := Wrap(testOffset - comp);
  }

  /** The outcome of a search over 1..inc. */
  ghost predicate Chosen(freq: nat, comp: nat, inc: nat, cor: nat, per: nat) {
    inc > 0 && Defined(freq, comp) ==>
      if Hopeless(freq, comp, inc) then cor == inc && per == 0
      else Least(freq, comp, inc, cor) && per == Period(freq, comp, cor)
  }

  lemma {:induction false} ChosenIsLeast(freq: nat, comp: nat, inc: nat, cor: nat, per: nat)
    requires Defined(freq, comp) && inc > 0 && Chosen(freq, comp, inc, cor, per) && !Hopeless(freq, comp, inc)
    ensures Least(freq, comp, inc, cor) && per == Period(freq, comp, cor)
  {
  }

  /** Refused when the request is more than half the clock; otherwise a divisor is zero
      exactly when the search has an undefined first step. */
  function Verdict(freq: nat, period: nat, comp: nat): Outcome {
    if comp == 0 then Done
    else if freq == 0 then ZeroDivide
    else if Whole(freq, comp) > freq / 2 then Refused
    else if period + Whole(freq, comp) > 0 && !Defined(freq, comp) then ZeroDivide
    else Done
  }

  lemma {:induction false} WholeBelow(freq: nat, comp: nat)
    requires comp < freq
    ensures Whole(freq, comp) == 0
  {
    DivisionIsUnique(comp, freq, 0, comp);
  }

  lemma {:induction false} AcceptedRem(freq: nat, comp: nat)
    requires freq > 0 && comp > 0 && Whole(freq, comp) <= freq / 2
    ensures Rem(freq, comp) > 0
  {
    if freq == 1 {
      DivisionIsUnique(comp, 1, comp, 0);
    } else {
      QuotientAtMost(comp, freq, comp - 1) by { MulMonotone(2, freq, comp); }
    }
  }

  /** Below the frequency every step of the search is sound and some correction is chosen. */
  lemma {:induction false} SearchSound(freq: nat, comp: nat, period: nat)
    requires 0 < comp < freq <= WORST && period > 0 && freq * period <= SECOND
    ensures Defined(freq, comp) && freq * period <= WORST && !Hopeless(freq, comp, period)
    ensures forall i | 1 <= i <= period :: Period(freq, comp, i) > 0 && freq * i / Period(freq, comp, i) >= comp
    ensures forall i | 1 <= i <= period :: Err(freq, comp, i) == freq * i / Period(freq, comp, i) - comp
  {
    RemBelow(freq, comp);
    forall i | 1 <= i <= period
      ensures Period(freq, comp, i) > 0 && freq * i / Period(freq, comp, i) >= comp
      ensures Err(freq, comp, i) == freq * i / Period(freq, comp, i) - comp < WORST
    {
      MulMonotone(i, period, freq);
      ErrSound(freq, comp, i);
    }
    assert Err(freq, comp, 1) < WORST;
  }

  lemma {:induction false} NothingTried(freq: nat, comp: nat, inc: nat)
    requires Defined(freq, comp)
    ensures Progress(freq, comp, inc, 0, WORST, inc, 0)
  {
  }

  lemma {:induction false} InRange(freq: nat, comp: nat, i: nat, inc: nat)
    requires 1 <= i <= inc && freq <= WORST && (i > 1 ==> Defined(freq, comp))
    requires Defined(freq, comp) ==> freq * inc <= WORST
    ensures freq * i <= WORST
  {
    if i > 1 { MulMonotone(i, inc, freq); }
  }

  lemma {:induction false} LeastNotHopeless(freq: nat, comp: nat, inc: nat, r: nat)
    requires Defined(freq, comp) && Least(freq, comp, inc, r) && Err(freq, comp, r) == 0
    ensures !Hopeless(freq, comp, inc) && r <= inc
  {
  }

  lemma {:induction false} ProgressEnd(freq: nat, comp: nat, inc: nat, minErr: int, cor: nat, per: nat)
    requires Defined(freq, comp) && inc > 0 && Progress(freq, comp, inc, inc, minErr, cor, per)
    ensures cor <= inc
    ensures if Hopeless(freq, comp, inc) then cor == inc && per == 0
            else Least(freq, comp, inc, cor) && per == Period(freq, comp, cor)
  {
    hide Period, Defined;
  }

  lemma {:induction false} FirstPeriod(freq: nat, comp: nat, i: nat)
    requires freq > 0 && i > 0 && Rem(freq, comp) > 0 && (i > 1 ==> Defined(freq, comp))
    ensures Period(freq, comp, i) == freq * i / Rem(freq, comp)
    ensures Period(freq, comp, i) > 0 <==> Defined(freq, comp)
  {
    if Defined(freq, comp) {
      PeriodPositive(freq, comp, i);
    } else {
      DivisionIsUnique(freq, Rem(freq, comp), 0, freq);
    }
  }

  lemma {:induction false} ErrIs(freq: nat, comp: nat, i: nat)
    requires Defined(freq, comp) && i > 0
    ensures Period(freq, comp, i) > 0 && Err(freq, comp, i) == Wrap(freq * i / Period(freq, comp, i) - comp)
  {
    PeriodPositive(freq, comp, i);
  }

  // ---- the driver ----

  class Timer {
    var period: nat     // mx6q_clock_period, in nanoseconds
    var freq: nat       // mx6q_clock_freq, in Hz
    var inc: nat        // TIMER_INCR, the increment
    var incCorr: nat    // TIMER_INCR, the increment used when correcting
    var corr: nat       // TIMER_CORR

    /** What both clock setups establish. */
    ghost predicate Valid()
      reads this
    {
      freq * period <= SECOND && freq <= WORST
    }

    constructor ()
      ensures Valid()
    {
      period, freq, inc, incCorr, corr := 0, 0, 0, 0, 0;
    }

    /** The end of mx6q_ptp_cal: count ticks were counted in diff nanoseconds. */
    method Calibrate(diff: nat, count: nat) returns (r: Outcome)
      requires diff + count / 2 <= WORST
      modifies this`period, this`freq
      ensures r == if Measured(diff, count) == 0 then ZeroDivide else Done
      ensures r == Done ==> Valid() && period == Measured(diff, count)
      ensures r == Done ==> freq * period <= SECOND < (freq + 1) * period
    {
      hide Measured;
      period := Measured(diff, count);
      if period == 0 {
        return ZeroDivide;
      }
      freq := SECOND / period;
      QuotientBounds(SECOND, period);
      QuotientShrinks(SECOND, period);
      r := Done;
    }

    /** The configured clock of mx6q_ptp_start. */
    method SetFrequency(clockFreq: nat)
      requires 0 < clockFreq <= WORST
      modifies this`period, this`freq
      ensures Valid() && freq == clockFreq && period * freq <= SECOND < (period + 1) * freq
    {
      freq := clockFreq;
      period := SECOND / freq;
      QuotientBounds(SECOND, freq);
    }

    /** The search over 1..inc; no choice is inc itself with period 0. */
    method Search(comp: nat, inc: nat) returns (r: Outcome, cor: nat, per: nat)
      requires freq > 0 && Rem(freq, comp) > 0 && freq <= WORST && comp <= WORST
      requires Defined(freq, comp) ==> freq * inc <= WORST
      ensures r == if inc > 0 && !Defined(freq, comp) then ZeroDivide else Done
      ensures r == Done ==> cor <= inc
      ensures r == Done ==> Chosen(freq, comp, inc, cor, per)
    {
      hide Err, Period, Rem, Defined, Least, Hopeless, Progress;
      var minErr := WORST;
      cor, per := inc, 0;
      var i := 1;
      if Defined(freq, comp) {
        NothingTried(freq, comp, inc);
      }
      while i <= inc
        invariant 1 <= i <= inc + 1 && cor <= inc && (i > 1 ==> Defined(freq, comp))
        invariant Defined(freq, comp) ==> Progress(freq, comp, inc, i - 1, minErr, cor, per) && minErr > 0
      {
        InRange(freq, comp, i, inc);
        var defined, testPeriod, err := Try(freq, comp, i);
        if !defined {
          return ZeroDivide, cor, per;
        }
        ProgressStep(freq, comp, inc, i - 1, minErr, cor, per);
        if err == 0 {
          ExactIsLeast(freq, comp, inc, i - 1, minErr, cor, per);
          LeastNotHopeless(freq, comp, inc, i);
          return Done, i, testPeriod;
        } else if err < minErr {
          cor, per, minErr := i, testPeriod, err;
        }
        i := i + 1;
      }
      if inc > 0 {
        ProgressEnd(freq, comp, inc, minErr, cor, per);
      }
      r := Done;
    }

    /** mx6q_ptp_set_compensation. cor is the chosen extra increment. A request of at least
        the clock frequency also raises the base increment, whichever its direction. */
    method SetCompensation(comp: nat, positive: bool) returns (r: Outcome, ghost cor: nat)
      requires Valid() && comp <= WORST
      modifies this`inc, this`incCorr, this`corr
      ensures r == Verdict(freq, period, comp)
      ensures r != Done ==> inc == old(inc) && incCorr == old(incCorr) && corr == old(corr)
      ensures comp == 0 ==> inc == period && incCorr == 0 && corr == 0
      ensures comp > 0 && r == Done ==>
        && inc == period + Whole(freq, comp) && cor <= inc
        && incCorr == (if positive then inc + cor else inc - cor)
        && Chosen(freq, comp, inc, cor, corr)
      ensures 0 < comp < freq && period > 0 ==>
        r == Done && inc == period && Least(freq, comp, period, cor) && corr == Period(freq, comp, cor)
    {
      hide Err, Period, Rem, Defined, Least, Hopeless, Whole, Chosen;
      cor := 0;
      r := Done;
      if comp == 0 {
        corr, inc, incCorr := 0, period, 0;
        return;
      }
      if freq == 0 {
        return ZeroDivide, 0;
      }
      if comp < freq {
        WholeBelow(freq, comp);
      }
      if Whole(freq, comp) > freq / 2 {
        return Refused, 0;
      }
      var base := period;
      if comp >= freq {
        base := base + Whole(freq, comp);
      }
      AcceptedRem(freq, comp);
      if Defined(freq, comp) {
        NoOverflow(freq, period, comp);
      }
      if comp < freq && period > 0 {
        SearchSound(freq, comp, period);
      }
      var c, per;
      r, c, per := Search(comp, base);
      if r == ZeroDivide {
        return;
      }
      cor := c;
      if comp < freq && period > 0 {
        ChosenIsLeast(freq, comp, base, cor, per);
      }
      inc, incCorr, corr := base, if positive then base + c else base - c, per;
    }
  }
}
