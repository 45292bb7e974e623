/** 1588 time (src/hardware/devnp/mx6x/ptp.c, event.c): a hardware counter of nanoseconds,
    seconds counted in software by a delayed interrupt, and a half-second flag that tells
    which of the two is behind. */
module PtpTime {
  import opened Arith
  import opened Options

  const SECOND: nat := 1_000_000_000
  const HALF: nat := 500_000_000
  /** An interrupt is serviced less than this long after its event. */
  const LATE: nat := 250_000_000

  datatype Time = Time(sec: nat, ns: nat)

  /** The true time, the software seconds, the half-second flag, for each of the two
      interrupts how long ago its event was if it has not been serviced, and whether the ISR
      has read a pending rollover from IEVENT and has yet to act on it. */
  datatype State = State(now: Time, rtc: nat, half: bool, roll: Option<nat>, halfDue: Option<nat>, seen: bool)

  /** Reset of the counter, nothing pending. */
  const START := State(Time(0, 0), 0, false, None, None, false)

  /** Time passes; the ISR reads IEVENT, enters its critical section, or leaves before it
      for a receive interrupt; the half-second ISR runs; the time is set. */
  datatype Step = Tick(d: nat) | Read | Serve | Leave | ServeHalf | Set(t: Time)

  function Later(t: Time, d: nat): Time {
    if t.ns + d >= SECOND then Time(t.sec + 1, t.ns + d - SECOND) else Time(t.sec, t.ns + d)
  }

  function Older(age: Option<nat>, d: nat): Option<nat> {
    if age.Some? then Some(age.value + d) else None
  }

  /** Neither event is left unserviced for too long. */
  predicate InTime(s: State) {
    && (s.roll.Some? ==> s.roll.value < LATE)
    && (s.halfDue.Some? ==> s.halfDue.value < LATE)
  }

  /** The counter advances; crossing a second or the half raises an interrupt. */
  function Advance(s: State, d: nat): State {
    var t := Later(s.now, d);
    s.(now := t,
       roll := if t.sec > s.now.sec then Some(t.ns) else Older(s.roll, d),
       halfDue := if t.sec == s.now.sec && s.now.ns < HALF <= t.ns then Some(t.ns - HALF) else Older(s.halfDue, d))
  }

  predicate Enabled(s: State, a: Step) {
    match a
    case Tick(d) => d < LATE && InTime(Advance(s, d))
    case Read => !s.seen
    case Serve => s.seen
    case Leave => s.seen
    case ServeHalf => s.halfDue.Some?
    case Set(t) => t.ns < SECOND && t.sec < 0x1_0000_0000
  }

  /** The critical section acts on what the ISR has read. mx6q_ptp_set_cnt drops a pending
      rollover; it leaves alone the half-second flag and what the ISR has read. */
  function Apply(s: State, a: Step): State {
    match a
    case Tick(d) => Advance(s, d)
    case Read => s.(seen := s.roll.Some?)
    case Serve => s.(rtc := Wrap(s.rtc + 1), half := false, roll := None, seen := false)
    case Leave => s.(seen := false)
    case ServeHalf => s.(half := true, halfDue := None)
    case Set(t) => s.(now := t, rtc := t.sec, roll := None)
  }

  /** The fix-up shared by mx6q_ptp_get_cnt and the packet time stamps: the seconds of a
      captured nanosecond value. */
  function Seconds(rtc: nat, half: bool, ns: nat): (sec: nat)
  {
    if ns > 750_000_000 && !half then Wrap(rtc - 1)
    else if ns < 250_000_000 && half then Wrap(rtc + 1)
    else rtc
  }

  /** The time d nanoseconds ago. */
  function Ago(t: Time, d: nat): Time
    requires d <= t.ns || (t.sec > 0 && d <= SECOND + t.ns)
  {
    if d <= t.ns then Time(t.sec, t.ns - d) else Time(t.sec - 1, SECOND + t.ns - d)
  }

  // ---- invariants ----

  /** A pending rollover is as old as the counter is past zero. */
  predicate Timely(s: State) {
    InTime(s) && s.now.ns < SECOND && (s.roll.Some? ==> s.roll.value == s.now.ns)
  }

  /** The software seconds lag by the pending rollover, and are e ahead. */
  predicate Ahead(s: State, e: nat) {
    Timely(s) && s.rtc == Wrap(s.now.sec - (if s.roll.Some? then 1 else 0) + e)
  }

  predicate Counted(s: State) {
    Ahead(s, 0)
  }

  /** What the ISR has read is still pending. */
  predicate Fresh(s: State) {
    s.seen ==> s.roll.Some?
  }

  /** The half-second event belongs to this second. */
  predicate HalfInPlace(s: State) {
    s.halfDue.Some? ==> s.now.ns == HALF + s.halfDue.value
  }

  /** The flag says which half of its second the software is in. */
  predicate FlagRight(s: State) {
    s.half <==> s.roll.Some? || (s.now.ns >= HALF && s.halfDue.None?)
  }

  predicate Sync(s: State) {
    Counted(s) && Fresh(s) && HalfInPlace(s) && FlagRight(s)
  }

  /** Every step but the service of a rollover that is no longer pending keeps the software
      seconds as they are with respect to the true ones; setting the time puts them right. */
  lemma {:induction false} AheadKept(s: State, a: Step, e: nat)
    requires Ahead(s, e) && Enabled(s, a) && (a.Serve? ==> s.roll.Some?)
    ensures Ahead(Apply(s, a), if a.Set? then 0 else e)
  {
  }

  /** Servicing a rollover that the time was set over counts a second too many. */
  lemma {:induction false} StaleServe(s: State)
    requires Counted(s) && s.seen && s.roll.None?
    ensures Ahead(Apply(s, Serve), 1)
  {
  }

  lemma {:induction false} SyncKept(s: State, a: Step)
    requires Sync(s) && Enabled(s, a) && !a.Set?
    ensures Sync(Apply(s, a))
  {
    AheadKept(s, a, 0);
  }

  /** Setting the time keeps the protocol in step exactly when the ISR is not about to
      service a rollover, no half-second event is pending and the flag suits the new time. */
  lemma {:induction false} SetKeepsSync(s: State, t: Time)
    requires Sync(s) && Enabled(s, Set(t))
    ensures s.halfDue.None? ==> (Sync(Apply(s, Set(t))) <==> !s.seen && (s.half <==> t.ns >= HALF))
    ensures s.halfDue.Some? ==> (Sync(Apply(s, Set(t))) <==> !s.seen && t.ns == s.now.ns)
  {
  }

  /** Whatever the flag was, servicing a pending rollover with no half-second event pending
      puts the protocol in step again. */
  lemma {:induction false} RolloverResyncs(s: State)
    requires Counted(s) && s.seen && s.roll.Some? && s.halfDue.None?
    ensures Sync(Apply(s, Serve))
  {
  }

  // ---- reading the time ----

  /** mx6q_ptp_get_cnt gives the true second exactly outside the two windows in which the
      flag does not suit the counter. */
  lemma {:induction false} ReadExactly(s: State)
    requires Counted(s)
    ensures Seconds(s.rtc, s.half, s.now.ns) == Wrap(s.now.sec) <==>
      if s.roll.Some? then s.half
      else !(s.now.ns > 750_000_000 && !s.half) && !(s.now.ns < 250_000_000 && s.half)
  {
  }

  /** In step, a value captured less than 250 ms ago gets its true second. */
  lemma {:induction false} StampExactly(s: State, d: nat)
    requires Sync(s) && d < LATE && (d <= s.now.ns || s.now.sec > 0)
    ensures Seconds(s.rtc, s.half, Ago(s.now, d).ns) == Wrap(Ago(s.now, d).sec)
  {
  }

  /** Reading back a time just set. */
  lemma {:induction false} SetReadsBack(s: State, t: Time)
    requires Counted(s) && Enabled(s, Set(t))
    ensures var r := Apply(s, Set(t));
      Seconds(r.rtc, r.half, r.now.ns) == t.sec <==>
      !(t.ns > 750_000_000 && !s.half) && !(t.ns < 250_000_000 && s.half)
  {
    ReadExactly(Apply(s, Set(t)));
    assert Wrap(t.sec) == t.sec;
  }

  // ---- whole runs ----

  ghost predicate Possible(s: State, run: seq<Step>) {
    run == [] || (Possible(s, run[..|run| - 1]) && Enabled(After(s, run[..|run| - 1]), run[|run| - 1]))
  }

  function After(s: State, run: seq<Step>): State {
    if run == [] then s else Apply(After(s, run[..|run| - 1]), run[|run| - 1])
  }

  /** No time is set from step k on. */
  predicate NoSet(run: seq<Step>, k: nat) {
    forall i | k <= i < |run| :: !run[i].Set?
  }

  /** Since the time was last set, the ISR has serviced a rollover that was no longer pending. */
  predicate Stale(s: State, run: seq<Step>) {
    run != [] &&
    var r, a := run[..|run| - 1], run[|run| - 1];
    !a.Set? && (Stale(s, r) || (a.Serve? && After(s, r).roll.None?))
  }

  /** In every run, with the time set however often and at any point, the software seconds
      are right exactly if no dropped rollover has been serviced since; otherwise they are
      one ahead, and stay so until the time is set again. */
  lemma {:induction false} SecondsExactly(s: State, run: seq<Step>)
    requires Counted(s) && Possible(s, run)
    ensures Ahead(After(s, run), if Stale(s, run) then 1 else 0)
    ensures Stale(s, run) ==> Fresh(After(s, run))
    ensures Counted(After(s, run)) <==> !Stale(s, run)
  {
    if run != [] {
      var r, a := run[..|run| - 1], run[|run| - 1];
      SecondsExactly(s, r);
      var t := After(s, r);
      if a.Serve? && t.roll.None? {
        StaleServe(t);
      } else {
        AheadKept(t, a, if Stale(s, r) then 1 else 0);
      }
    }
  }

  lemma {:induction false} StaysInSync(s: State, run: seq<Step>)
    requires Sync(s) && Possible(s, run) && NoSet(run, 0)
    ensures Sync(After(s, run))
  {
    if run != [] {
      StaysInSync(s, run[..|run| - 1]);
      SyncKept(After(s, run[..|run| - 1]), run[|run| - 1]);
    }
  }

  /** The time d nanoseconds ago is converted to its true second. */
  predicate Exact(s: State, d: nat) {
    d < LATE && (d <= s.now.ns || s.now.sec > 0) ==> Seconds(s.rtc, s.half, Ago(s.now, d).ns) == Wrap(Ago(s.now, d).sec)
  }

  /** In every interleaving of the counter and the two interrupts, each serviced in time,
      every reading is the true time, and so is every stamp up to 250 ms old. */
  lemma {:induction false} ExactTime(run: seq<Step>, d: nat)
    requires Possible(START, run) && NoSet(run, 0)
    ensures Exact(After(START, run), 0) && Exact(After(START, run), d)
  {
    StaysInSync(START, run);
    SyncIsExact(After(START, run), 0);
    SyncIsExact(After(START, run), d);
  }

  lemma {:induction false} SyncIsExact(s: State, d: nat)
    requires Sync(s)
    ensures Exact(s, d)
  {
    if d < LATE && (d <= s.now.ns || s.now.sec > 0) {
      StampExactly(s, d);
    }
  }

  // ---- setting the time ----

  /** It is safe to set the time: the ISR has not read a rollover that it has yet to service,
      and a pending half-second event will be serviced before the new second ends. */
  predicate SafeSet(s: State, t: Time) {
    !s.seen && (s.halfDue.Some? ==> t.ns - s.halfDue.value <= SECOND - LATE)
  }

  /** The software seconds are right, and the next rollover will find no half-second event pending. */
  predicate OnTrack(s: State) {
    && Counted(s) && Fresh(s)
    && (s.halfDue.Some? ==> s.roll.None? && s.now.ns - s.halfDue.value <= SECOND - LATE)
  }

  lemma {:induction false} OnTrackKept(s: State, a: Step)
    requires OnTrack(s) && Enabled(s, a) && !a.Set?
    ensures OnTrack(Apply(s, a)) && (a.Serve? ==> Sync(Apply(s, a)))
  {
    AheadKept(s, a, 0);
  }

  lemma {:induction false} SyncOnceServed(s: State, run: seq<Step>)
    requires OnTrack(s) && Possible(s, run) && NoSet(run, 0)
    ensures OnTrack(After(s, run)) && (Serve in run ==> Sync(After(s, run)))
  {
    if run != [] {
      var r, a := run[..|run| - 1], run[|run| - 1];
      SyncOnceServed(s, r);
      OnTrackKept(After(s, r), a);
      if Serve in r {
        SyncKept(After(s, r), a);
      }
    }
  }

  lemma {:induction false} Extend(s: State, run: seq<Step>, a: Step)
    requires Possible(s, run) && Enabled(After(s, run), a)
    ensures Possible(s, run + [a]) && After(s, run + [a]) == Apply(After(s, run), a)
  {
    hide Apply, Enabled;
    assert (run + [a])[..|run|] == run;
  }

  lemma {:induction false} Nothing(s: State)
    ensures Possible(s, []) && After(s, []) == s && NoSet([], 0)
  {
  }

  /** The ISR services a rollover that was dropped, after any half-second event. */
  lemma {:induction false} StaleStart(u: State) returns (run: seq<Step>)
    requires Counted(u) && u.seen && u.roll.None?
    ensures Possible(u, run) && NoSet(run, 0) && Serve in run
    ensures After(u, run) == u.(rtc := Wrap(u.rtc + 1), half := false, halfDue := None, seen := false)
  {
    hide Possible, After;
    Nothing(u);
    run := [];
    var t := u;
    if u.halfDue.Some? {
      Extend(u, run, ServeHalf);
      run, t := run + [ServeHalf], Apply(t, ServeHalf);
    }
    Extend(u, run, Serve);
    run := run + [Serve];
  }

  /** Serving a dropped rollover at once, or across the next second, reads one ahead. */
  lemma {:induction false} StaleRun(u: State) returns (run: seq<Step>)
    requires Counted(u) && u.seen && u.roll.None?
    ensures Possible(u, run) && NoSet(run, 0) && Serve in run && !Exact(After(u, run), 0)
  {
    hide Possible, After, Wrap;
    run := StaleStart(u);
    var t := After(u, run);
    StaleServe(u);
    WrapDiffers(u.now.sec);
    if u.now.ns > 750_000_000 {
      WrapDiffers(u.now.sec + 1);
      Extend(u, run, Tick(SECOND - u.now.ns));
      run, t := run + [Tick(SECOND - u.now.ns)], Apply(t, Tick(SECOND - u.now.ns));
      Extend(u, run, Read);
      run, t := run + [Read], Apply(t, Read);
      AheadKept(t, Serve, 1);
      Extend(u, run, Serve);
      run, t := run + [Serve], Apply(t, Serve);
    }
  }

  lemma {:induction false} WrapDiffers(x: int)
    ensures Wrap(x + 1) != Wrap(x) && Wrap(Wrap(x) + 1) == Wrap(x + 1)
  {
  }

  /** A half-second event pending from before, serviced after the next rollover. */
  lemma {:induction false} OverdueRun(u: State) returns (run: seq<Step>)
    requires Counted(u) && !u.seen && u.roll.None? && u.halfDue.Some? && u.now.ns - u.halfDue.value > SECOND - LATE
    ensures Possible(u, run) && NoSet(run, 0) && Serve in run && !Exact(After(u, run), 0)
  {
    hide Possible, After, Wrap;
    Nothing(u);
    Extend(u, [], Tick(SECOND - u.now.ns));
    run := [] + [Tick(SECOND - u.now.ns)];
    var t := Apply(u, Tick(SECOND - u.now.ns));
    AheadKept(u, Tick(SECOND - u.now.ns), 0);
    Extend(u, run, Read);
    run, t := run + [Read], Apply(t, Read);
    AheadKept(t, Serve, 0);
    Extend(u, run, Serve);
    run, t := run + [Serve], Apply(t, Serve);
    Extend(u, run, ServeHalf);
    run, t := run + [ServeHalf], Apply(t, ServeHalf);
    WrapDiffers(t.now.sec);
  }

  /** After the time was set, once the ISR has serviced a rollover. */
  ghost predicate RightAgain(u: State) {
    forall run | Possible(u, run) && NoSet(run, 0) && Serve in run :: Exact(After(u, run), 0)
  }

  /** Everything read after the next service of a rollover is right, however the interrupts
      come, exactly if the time was set at a safe moment. */
  lemma {:induction false} RightAgainExactly(s: State, t: Time)
    requires Timely(s) && Enabled(s, Set(t))
    ensures RightAgain(Apply(s, Set(t))) <==> SafeSet(s, t)
  {
    var u := Apply(s, Set(t));
    if SafeSet(s, t) {
      forall run | Possible(u, run) && NoSet(run, 0) && Serve in run
        ensures Exact(After(u, run), 0)
      {
        SyncOnceServed(u, run);
        SyncIsExact(After(u, run), 0);
      }
    } else {
      var run;
      if s.seen { run := StaleRun(u); } else { run := OverdueRun(u); }
      assert !Exact(After(u, run), 0);
    }
  }

  /** After a safe setting of the time, whatever came before, stamps too are exact from the
      first rollover served. */
  lemma {:induction false} ExactAfterRollover(s: State, t: Time, run: seq<Step>, d: nat)
    requires Timely(s) && Enabled(s, Set(t)) && SafeSet(s, t)
    requires Possible(Apply(s, Set(t)), run) && NoSet(run, 0) && Serve in run
    ensures Exact(After(Apply(s, Set(t)), run), d)
  {
    SyncOnceServed(Apply(s, Set(t)), run);
    SyncIsExact(After(Apply(s, Set(t)), run), d);
  }

  /** Setting the time can make the next reading wrong by a second: set shortly before a
      full second while the flag is clear. */
  lemma {:induction false} SetCanMislead()
    ensures var s := START.(now := Time(7, 100), rtc := 7);
      var t := Apply(s, Set(Time(20, 800_000_000)));
      && Sync(s) && Enabled(s, Set(Time(20, 800_000_000)))
      && Seconds(t.rtc, t.half, t.now.ns) == 19
  {
  }

  /** Setting the time on one core between the ISR's two accesses on another leaves the
      clock a second ahead for good: at 7 s the ISR has read the rollover, the time is set
      to 20.6 s, and after the next rollover is served 21 s reads 22. */
  lemma {:induction false} SetRacesIsr() returns (run: seq<Step>)
    ensures var s := State(Time(7, 0), 6, true, Some(0), None, false);
      && Sync(s) && Possible(s, run) && |run| == 7
      && run[..2] == [Read, Set(Time(20, 600_000_000))] && NoSet(run, 2) && run[6] == Serve
      && var t := After(s, run);
         t.now == Time(21, 0) && Seconds(t.rtc, t.half, t.now.ns) == 22
  {
    var s := State(Time(7, 0), 6, true, Some(0), None, false);
    run := [];
    Extend(s, run, Read);
    run := run + [Read];
    Extend(s, run, Set(Time(20, 600_000_000)));
    run := run + [Set(Time(20, 600_000_000))];
    Extend(s, run, Serve);
    run := run + [Serve];
    Extend(s, run, Tick(200_000_000));
    run := run + [Tick(200_000_000)];
    Extend(s, run, Tick(200_000_000));
    run := run + [Tick(200_000_000)];
    Extend(s, run, Read);
    run := run + [Read];
    Extend(s, run, Serve);
    run := run + [Serve];
  }

  // ---- the driver ----

  class Clock {
    // hardware: TIMER_VALUER, IEVENT_TS_TIMER, and the compare flag of the half-second timer
    var valuer: nat
    var tsTimer: bool
    var compare: bool
    // software
    var rtc: nat
    var rtcHalf: bool
    var seen: bool        // TS_TIMER in the ISR's copy of IEVENT
    // what the true time is, and how old the pending events are
    ghost var sec: nat
    ghost var rollAge: nat
    ghost var halfAge: nat

    ghost function View(): State
      reads this
    {
      State(Time(sec, valuer), rtc, rtcHalf,
            if tsTimer then Some(rollAge) else None,
            if compare then Some(halfAge) else None,
            seen)
    }

    /** mx6q_ptp_start: the counter restarts at zero. */
    constructor ()
      ensures View() == START && Sync(View())
    {
      valuer, tsTimer, compare, rtc, rtcHalf, seen := 0, false, false, 0, false, false;
      sec, rollAge, halfAge := 0, 0, 0;
    }

    /** Time passes. */
    method Run(d: nat)
      requires Timely(View()) && Enabled(View(), Tick(d))
      modifies this
      ensures View() == Apply(old(View()), Tick(d))
    {
      rollAge, halfAge := rollAge + d, halfAge + d;
      if valuer + d >= SECOND {
        sec, valuer := sec + 1, valuer + d - SECOND;
        tsTimer, rollAge := true, valuer;
      } else {
        if valuer < HALF <= valuer + d {
          compare, halfAge := true, valuer + d - HALF;
        }
        valuer := valuer + d;
      }
    }

    /** mx6q_isr reads IEVENT. */
    method IsrRead()
      requires !seen
      modifies this`seen
      ensures View() == Apply(old(View()), Read)
    {
      seen := tsTimer;
    }

    /** mx6q_isr returns for a receive interrupt before it gets to the rollover. */
    method IsrLeave()
      requires seen
      modifies this`seen
      ensures View() == Apply(old(View()), Leave)
    {
      seen := false;
    }

    /** The TS_TIMER part of mx6q_isr, under rtc_spinner, on the copy read before. */
    method IsrServe()
      modifies this`tsTimer, this`rtcHalf, this`rtc, this`seen
      ensures View() == if old(seen) then Apply(old(View()), Serve) else old(View())
    {
      if seen {
        tsTimer := false;
        rtcHalf := false;
        rtc := Wrap(rtc + 1);
        seen := false;
      }
    }

    /** mx6q_1588_isr. */
    method Isr1588()
      requires compare
      modifies this`rtcHalf, this`compare
      ensures View() == Apply(old(View()), ServeHalf)
    {
      rtcHalf := true;
      compare := false;
    }

    /** mx6q_ptp_get_cnt. */
    method GetCnt() returns (t: Time)
      ensures t == Time(Seconds(rtc, rtcHalf, valuer), valuer)
      ensures Sync(View()) ==> t == Time(Wrap(sec), valuer)
    {
      t := FixUp(valuer, 0);
    }

    /** The seconds of a nanosecond value captured d ns ago: the tail of mx6q_ptp_get_cnt,
        mx6q_ptp_add_rx_timestamp and mx6q_ptp_add_tx_timestamp. */
    method FixUp(ns: nat, ghost d: nat) returns (t: Time)
      requires d < LATE && (d <= valuer || sec > 0) && ns == Ago(View().now, d).ns
      ensures t == Time(Seconds(rtc, rtcHalf, ns), ns)
      ensures Sync(View()) ==> t == Time(Wrap(Ago(View().now, d).sec), ns)
    {
      var s: int := rtc;
      if ns > 750_000_000 && !rtcHalf {
        s := Wrap(s - 1);
      } else if ns < 250_000_000 && rtcHalf {
        s := Wrap(s + 1);
      }
      if Sync(View()) {
        StampExactly(View(), d);
      }
      t := Time(s, ns);
    }

    /** mx6q_ptp_set_cnt. */
    method SetCnt(t: Time)
      requires Timely(View()) && Enabled(View(), Set(t))
      modifies this`valuer, this`tsTimer, this`rtc, this`sec
      ensures View() == Apply(old(View()), Set(t)) && Counted(View())
    {
      valuer := 0;
      tsTimer := false;
      rtc := t.sec;
      valuer := t.ns;
      sec := t.sec;
    }
  }
}
