/** Receive wake-up protocol: the ISR, the Rx thread and the stack thread share the
    interrupt mask, rx_queue, rx_running and rx_full (src/hardware/devnp/mx6x/event.c,
    receive.c and detect.c). Each step below is one shared-memory access or one critical
    section of the source; the interface stays running. */
module RxWakeup {
  /** Who holds rx_mutex. */
  datatype Owner = Free | ByRx | ByStack

  /** The Rx thread: waiting for a pulse; serving queue q up to the clearing of IEVENT;
      in the loop of mx6q_receive; then, with the mutex held, before the enqueue, before
      the test of rx_running, between setting it and raising the event, before the flow
      control test, before the two unlocks; and about to unmask after returning 1. */
  datatype RxPc =
    | Waiting
    | Begin(q: nat)
    | Loop(q: nat)
    | Locked(q: nat)
    | Queued(q: nat)
    | Raise(q: nat)
    | Check(q: nat)
    | StopHere(q: nat)
    | GoOn(q: nat)
    | Unmask(q: nat)

  /** The stack thread: idle; before the lock or delivering; locked before the dequeue;
      locked with a frame; in mx6q_enable_queue before the unmask, before clearing
      rx_full, before clearing rx_running, before the unlock. */
  datatype StPc = Idle | Top | Dequeue | Got | Enable | ClearFull | ClearRunning | Release

  /** The MAC's interrupt registers, the pulses under way, and the frames waiting in each ring. */
  datatype Irq = Irq(imask: set<nat>, ievent: set<nat>, pulses: set<nat>, unread: map<nat, nat>)

  /** Fields under rx_mutex, and whether inter_queue is queued to the stack thread. */
  datatype Shared = Shared(mutex: Owner, qlen: nat, running: bool, full: set<nat>, event: bool)

  /** stalled names the queues whose last pass returned 0. */
  datatype State = State(irq: Irq, sh: Shared, rx: RxPc, st: StPc, stalled: set<nat>)

  /** The number of rings, the capacity of rx_queue, and whether pause frames may be in use. */
  datatype Config = Config(queues: nat, maxlen: nat, flow: bool)

  datatype Action =
    | Arrive(q: nat)      // the MAC stores a frame
    | Isr(q: nat)         // the ISR masks queue q and sends its pulse; it read IEVENT before
                          // it took the lock, so the cause may have been cleared since
    | Pulse(q: nat)       // the Rx thread receives the pulse
    | ClearEvent          // IEVENT bit written
    | TakeDirect          // a frame dropped or sent straight up
    | TakeFrame           // a frame for rx_queue; the mutex is taken
    | NoFrame             // the next descriptor is EMPTY
    | Enqueue             // IF_ENQUEUE, or free the frame if IF_QFULL
    | TestRunning
    | RaiseEvent
    | TestFlow(on: bool)  // with pause frames in use or not at the time
    | RxUnlock
    | DoUnmask
    | Pick                // the stack thread starts mx6q_process_queue
    | StLock
    | StDequeue
    | StUnlock
    | StUnmask
    | StClearFull
    | StClearRunning
    | StRelease

  function Unread(s: State, q: nat): nat {
    if q in s.irq.unread then s.irq.unread[q] else 0
  }

  predicate Enabled(c: Config, s: State, a: Action) {
    match a
    case Arrive(q) => q < c.queues
    case Isr(q) => q < c.queues && q in s.irq.imask
    case Pulse(q) => s.rx == Waiting && q in s.irq.pulses
    case ClearEvent => s.rx.Begin?
    case TakeDirect => s.rx.Loop? && Unread(s, s.rx.q) > 0
    case TakeFrame => s.rx.Loop? && Unread(s, s.rx.q) > 0 && s.sh.mutex == Free
    case NoFrame => s.rx.Loop? && Unread(s, s.rx.q) == 0
    case Enqueue => s.rx.Locked?
    case TestRunning => s.rx.Queued?
    case RaiseEvent => s.rx.Raise?
    case TestFlow(on) => s.rx.Check? && (on ==> c.flow)
    case RxUnlock => s.rx.StopHere? || s.rx.GoOn?
    case DoUnmask => s.rx.Unmask?
    case Pick => s.st == Idle && s.sh.event
    case StLock => s.st == Top && s.sh.mutex == Free
    case StDequeue => s.st == Dequeue
    case StUnlock => s.st == Got
    case StUnmask => s.st == Enable
    case StClearFull => s.st == ClearFull
    case StClearRunning => s.st == ClearRunning
    case StRelease => s.st == Release
  }

  function OneLess(s: State): Irq
    requires s.rx.Loop? && Unread(s, s.rx.q) > 0
  {
    s.irq.(unread := s.irq.unread[s.rx.q := Unread(s, s.rx.q) - 1])
  }

  function Apply(c: Config, s: State, a: Action): State
    requires Enabled(c, s, a)
  {
    match a
    case Arrive(q) => s.(irq := s.irq.(ievent := s.irq.ievent + {q}, unread := s.irq.unread[q := Unread(s, q) + 1]))
    case Isr(q) => s.(irq := s.irq.(imask := s.irq.imask - {q}, pulses := s.irq.pulses + {q}))
    case Pulse(q) => s.(irq := s.irq.(pulses := s.irq.pulses - {q}), rx := Begin(q), stalled := s.stalled - {q})
    case ClearEvent => s.(irq := s.irq.(ievent := s.irq.ievent - {s.rx.q}), rx := Loop(s.rx.q))
    case TakeDirect => s.(irq := OneLess(s))
    case TakeFrame => s.(irq := OneLess(s), sh := s.sh.(mutex := ByRx), rx := Locked(s.rx.q))
    case NoFrame => s.(rx := Unmask(s.rx.q))
    case Enqueue =>
      if s.sh.qlen >= c.maxlen then s.(rx := Check(s.rx.q))
      else s.(sh := s.sh.(qlen := s.sh.qlen + 1), rx := Queued(s.rx.q))
    case TestRunning =>
      if s.sh.running then s.(rx := Check(s.rx.q)) else s.(sh := s.sh.(running := true), rx := Raise(s.rx.q))
    case RaiseEvent => s.(sh := s.sh.(event := true), rx := Check(s.rx.q))
    case TestFlow(on) =>
      if on && s.sh.qlen >= c.maxlen - 1 then
        s.(sh := s.sh.(full := s.sh.full + {s.rx.q}), rx := StopHere(s.rx.q), stalled := s.stalled + {s.rx.q})
      else s.(rx := GoOn(s.rx.q))
    case RxUnlock => s.(sh := s.sh.(mutex := Free), rx := if s.rx.StopHere? then Waiting else Loop(s.rx.q))
    case DoUnmask => s.(irq := s.irq.(imask := s.irq.imask + {s.rx.q}), rx := Waiting)
    case Pick => s.(sh := s.sh.(event := false), st := Top)
    case StLock => s.(sh := s.sh.(mutex := ByStack), st := Dequeue)
    case StDequeue =>
      if s.sh.qlen > 0 then s.(sh := s.sh.(qlen := s.sh.qlen - 1), st := Got) else s.(st := Enable)
    case StUnlock => s.(sh := s.sh.(mutex := Free), st := Top)
    case StUnmask => s.(irq := s.irq.(imask := s.irq.imask + s.sh.full), st := ClearFull)
    case StClearFull => s.(sh := s.sh.(full := {}), st := ClearRunning)
    case StClearRunning => s.(sh := s.sh.(running := false), st := Release)
    case StRelease => s.(sh := s.sh.(mutex := Free), st := Idle)
  }

  /** Every Rx interrupt enabled, nothing under way. */
  ghost predicate Init(c: Config, s: State) {
    && (forall q: nat :: q in s.irq.imask <==> q < c.queues)
    && s.irq.ievent == {} && s.irq.pulses == {} && s.irq.unread == map[]
    && s.sh == Shared(Free, 0, false, {}, false) && s.rx == Waiting && s.st == Idle && s.stalled == {}
  }

  // ---- the invariant ----

  predicate RxHolds(rx: RxPc) {
    rx.Locked? || rx.Queued? || rx.Raise? || rx.Check? || rx.StopHere? || rx.GoOn?
  }

  predicate StHolds(st: StPc) {
    st != Idle && st != Top
  }

  /** The Rx thread is serving queue q. */
  predicate InPass(rx: RxPc, q: nat) {
    rx != Waiting && rx.q == q
  }

  predicate MutexInv(s: State) {
    && (s.sh.mutex == ByRx <==> RxHolds(s.rx))
    && (s.sh.mutex == ByStack <==> StHolds(s.st))
  }

  /** A non-empty queue has rx_running set, except just after an enqueue. */
  predicate RunningInv(s: State) {
    && (s.sh.qlen > 0 ==> s.sh.running || s.rx.Queued?)
    && (s.st in {Enable, ClearFull, ClearRunning, Release} ==> s.sh.qlen == 0)
    && (s.rx.Check? || s.rx.StopHere? || s.rx.Raise? ==> s.sh.running)
  }

  /** rx_running says that the stack thread is active, or its event queued or just being raised. */
  predicate EventInv(s: State) {
    && (s.sh.running <==> s.sh.event || s.rx.Raise? || (s.st != Idle && s.st != Release))
    && (s.sh.event ==> s.st == Idle && !s.rx.Raise?)
    && (s.rx.Raise? ==> s.st == Idle)
  }

  /** rx_full is only non-empty while rx_running, and names queues nobody else serves. */
  ghost predicate FullInv(s: State) {
    && (s.sh.full != {} ==> s.sh.running && s.st != ClearRunning)
    && (s.st != ClearFull ==>
          forall q | q in s.sh.full :: q !in s.irq.imask && q !in s.irq.pulses && (InPass(s.rx, q) ==> s.rx.StopHere?))
  }

  /** A queue being served is masked. */
  ghost predicate ServedInv(c: Config, s: State) {
    && (forall q | q in s.irq.pulses :: q < c.queues && q !in s.irq.imask && !InPass(s.rx, q))
    && (s.rx != Waiting ==> s.rx.q < c.queues && s.rx.q !in s.irq.imask)
    && (s.rx.StopHere? ==> s.rx.q in s.sh.full)
  }

  /** A masked queue is being served or waits in rx_full. */
  ghost predicate MaskInv(c: Config, s: State) {
    forall q | 0 <= q < c.queues ::
      q in s.irq.imask || q in s.irq.pulses || InPass(s.rx, q) || (q in s.sh.full && s.st != ClearFull)
  }

  /** A frame in the ring will be noticed, or its queue's last pass stopped early. */
  ghost predicate NoticeInv(s: State) {
    && (forall q | Unread(s, q) > 0 ::
          q in s.irq.ievent || q in s.irq.pulses || (InPass(s.rx, q) && !s.rx.Unmask?) || q in s.stalled)
    && (s.rx.StopHere? ==> s.rx.q in s.stalled)
  }

  ghost predicate Inv(c: Config, s: State) {
    MutexInv(s) && RunningInv(s) && EventInv(s) && FullInv(s) && ServedInv(c, s) && MaskInv(c, s) && NoticeInv(s)
  }

  lemma {:induction false} MutexKept(c: Config, s: State, a: Action)
    requires c.maxlen > 0 && MutexInv(s) && Enabled(c, s, a)
    ensures var t := Apply(c, s, a); MutexInv(t)
  {
  }

  lemma {:induction false} RunningKept(c: Config, s: State, a: Action)
    requires c.maxlen > 0 && MutexInv(s) && RunningInv(s) && EventInv(s) && Enabled(c, s, a)
    ensures var t := Apply(c, s, a); RunningInv(t)
  {
  }

  lemma {:induction false} EventKept(c: Config, s: State, a: Action)
    requires c.maxlen > 0 && MutexInv(s) && RunningInv(s) && EventInv(s) && Enabled(c, s, a)
    ensures var t := Apply(c, s, a); EventInv(t)
  {
  }

  lemma {:induction false} FullKept(c: Config, s: State, a: Action)
    requires c.maxlen > 0 && MutexInv(s) && EventInv(s) && RunningInv(s) && FullInv(s) && ServedInv(c, s) &&
      Enabled(c, s, a)
    ensures var t := Apply(c, s, a); FullInv(t)
  {
  }

  lemma {:induction false} ServedKept(c: Config, s: State, a: Action)
    requires c.maxlen > 0 && MutexInv(s) && FullInv(s) && ServedInv(c, s) && Enabled(c, s, a)
    ensures var t := Apply(c, s, a); ServedInv(c, t)
  {
  }

  lemma {:induction false} MaskKept(c: Config, s: State, a: Action)
    requires c.maxlen > 0 && MutexInv(s) && FullInv(s) && ServedInv(c, s) && MaskInv(c, s) && Enabled(c, s, a)
    ensures var t := Apply(c, s, a); MaskInv(c, t)
  {
  }

  lemma {:induction false} NoticeKept(c: Config, s: State, a: Action)
    requires c.maxlen > 0 && NoticeInv(s) && Enabled(c, s, a)
    ensures var t := Apply(c, s, a); NoticeInv(t)
  {
  }

  /** Every step of every thread keeps the invariant. */
  lemma {:induction false} StepKeepsInv(c: Config, s: State, a: Action)
    requires c.maxlen > 0 && Inv(c, s) && Enabled(c, s, a)
    ensures Inv(c, Apply(c, s, a))
  {
    hide MutexInv, RunningInv, EventInv, FullInv, ServedInv, MaskInv, NoticeInv, Apply, Enabled;
    MutexKept(c, s, a);
    RunningKept(c, s, a);
    EventKept(c, s, a);
    FullKept(c, s, a);
    ServedKept(c, s, a);
    MaskKept(c, s, a);
    NoticeKept(c, s, a);
  }

  // ---- whole runs ----

  /** The actions can be done one after the other from s. */
  predicate Possible(c: Config, s: State, run: seq<Action>)
    decreases |run|
  {
    run == [] || (Enabled(c, s, run[0]) && Possible(c, Apply(c, s, run[0]), run[1..]))
  }

  function After(c: Config, s: State, run: seq<Action>): State
    requires Possible(c, s, run)
    decreases |run|
  {
    if run == [] then s else After(c, Apply(c, s, run[0]), run[1..])
  }

  lemma {:induction false} RunKeepsInv(c: Config, s: State, run: seq<Action>)
    requires c.maxlen > 0 && Inv(c, s) && Possible(c, s, run)
    ensures Inv(c, After(c, s, run))
    decreases |run|
  {
    hide Inv, Apply, Enabled;
    if run != [] {
      StepKeepsInv(c, s, run[0]);
      RunKeepsInv(c, Apply(c, s, run[0]), run[1..]);
    }
  }

  /** The wake-up guarantee: a non-empty queue has rx_running while the mutex is free; a
      masked interrupt has a pulse or a pass in flight or waits in rx_full with rx_running;
      rx_running has the stack thread active or about to be. */
  ghost predicate Awake(c: Config, s: State) {
    && (s.sh.mutex == Free && s.sh.qlen > 0 ==> s.sh.running)
    && (forall q | 0 <= q < c.queues && q !in s.irq.imask ::
          q in s.irq.pulses || InPass(s.rx, q) || (q in s.sh.full && s.sh.running))
    && (s.sh.running ==> s.sh.event || s.st != Idle || s.rx.Raise?)
  }

  lemma {:induction false} InvIsAwake(c: Config, s: State)
    requires Inv(c, s)
    ensures Awake(c, s)
  {
  }

  lemma {:induction false} InitInv(c: Config, s: State)
    requires Init(c, s)
    ensures Inv(c, s)
  {
  }

  /** In every state of every run. */
  lemma {:induction false} AlwaysAwake(c: Config, s: State, run: seq<Action>)
    requires c.maxlen > 0 && Init(c, s) && Possible(c, s, run)
    ensures Awake(c, After(c, s, run))
  {
    hide Inv, Awake, Init;
    InitInv(c, s);
    RunKeepsInv(c, s, run);
    InvIsAwake(c, After(c, s, run));
  }

  // ---- the stack thread brings every stalled queue back ----

  /** The one action the stack thread can do next. */
  function StackNext(s: State): Action {
    match s.st
    case Idle => Pick
    case Top => StLock
    case Dequeue => StDequeue
    case Got => StUnlock
    case Enable => StUnmask
    case ClearFull => StClearFull
    case ClearRunning => StClearRunning
    case Release => StRelease
  }

  /** Steps left until the stack thread is idle again. */
  function Rank(s: State): nat {
    3 * s.sh.qlen + match s.st
      case Idle => 10
      case Top => 6
      case Dequeue => 5
      case Got => 7
      case Enable => 4
      case ClearFull => 3
      case ClearRunning => 2
      case Release => 1
  }

  predicate Rest(s: State) {
    s.sh.mutex == Free && s.sh.qlen == 0 && !s.sh.running && s.sh.full == {}
  }

  /** While rx_running is set and the Rx thread is outside the mutex, the stack thread alone
      reaches idle; the queue is then empty and rx_full has been dealt with. */
  lemma {:induction false} StackFinishes(c: Config, s: State) returns (run: seq<Action>)
    requires c.maxlen > 0 && Inv(c, s) && (s.sh.running || s.st != Idle) && s.sh.mutex != ByRx
    ensures |run| <= Rank(s) && Possible(c, s, run)
    ensures var t := After(c, s, run);
      && Inv(c, t) && t.st == Idle && Rest(t) && t.rx == s.rx
      && t.irq == s.irq.(imask := t.irq.imask)
    decreases Rank(s)
  {
    var a := StackNext(s);
    StackEnabled(c, s);
    StepKeepsInv(c, s, a);
    StackEffect(c, s);
    var t := Apply(c, s, a);
    if s.st == Release {
      run := [a];
      LastStep(c, s, a);
    } else {
      hide Inv, Apply, Enabled;
      var rest := StackFinishes(c, t);
      run := [a] + rest;
      assert run[1..] == rest;
    }
  }

  lemma {:induction false} StackEnabled(c: Config, s: State)
    requires Inv(c, s) && (s.sh.running || s.st != Idle) && s.sh.mutex != ByRx
    ensures Enabled(c, s, StackNext(s))
  {
  }

  lemma {:induction false} StackEffect(c: Config, s: State)
    requires Inv(c, s) && Enabled(c, s, StackNext(s)) && s.sh.mutex != ByRx
    ensures var t := Apply(c, s, StackNext(s));
      && Rank(t) + (if s.st == Release then 0 else 1) <= Rank(s) + (if s.st == Release then 10 else 0)
      && t.sh.mutex != ByRx && t.rx == s.rx
      && t.irq == s.irq.(imask := t.irq.imask)
      && (if s.st == Release then t.st == Idle && Rest(t) else t.sh.running || t.st != Idle)
  {
  }

  lemma {:induction false} LastStep(c: Config, s: State, a: Action)
    requires Enabled(c, s, a)
    ensures Possible(c, s, [a]) && After(c, s, [a]) == Apply(c, s, a)
  {
    assert [a][1..] == [];
  }

  lemma {:induction false} Extend(c: Config, s: State, run: seq<Action>, a: Action)
    requires Possible(c, s, run) && Enabled(c, After(c, s, run), a)
    ensures Possible(c, s, run + [a]) && After(c, s, run + [a]) == Apply(c, After(c, s, run), a)
    decreases |run|
  {
    hide Apply, Enabled;
    if run == [] {
      LastStep(c, s, a);
    } else {
      Extend(c, Apply(c, s, run[0]), run[1..], a);
      assert (run + [a])[1..] == run[1..] + [a];
    }
  }

  lemma {:induction false} Concat(c: Config, s: State, run: seq<Action>, more: seq<Action>)
    requires Possible(c, s, run) && Possible(c, After(c, s, run), more)
    ensures Possible(c, s, run + more) && After(c, s, run + more) == After(c, After(c, s, run), more)
    decreases |run|
  {
    hide Apply, Enabled;
    if run == [] {
      assert run + more == more;
    } else {
      Concat(c, Apply(c, s, run[0]), run[1..], more);
      assert (run + more)[1..] == run[1..] + more;
    }
  }

  function RxRank(rx: RxPc): nat {
    match rx
    case Locked(_) => 5
    case Queued(_) => 4
    case Raise(_) => 3
    case Check(_) => 2
    case StopHere(_) => 1
    case GoOn(_) => 1
    case _ => 0
  }

  function RxNext(rx: RxPc): Action {
    match rx
    case Locked(_) => Enqueue
    case Queued(_) => TestRunning
    case Raise(_) => RaiseEvent
    case Check(_) => TestFlow(false)
    case _ => RxUnlock
  }

  lemma {:induction false} RxEffect(c: Config, s: State)
    requires Inv(c, s) && s.sh.mutex == ByRx && s.sh.running
    ensures Enabled(c, s, RxNext(s.rx))
    ensures var t := Apply(c, s, RxNext(s.rx));
      && RxRank(t.rx) < RxRank(s.rx) && t.irq == s.irq && t.sh.running
      && (if RxRank(s.rx) == 1 then t.sh.mutex == Free else t.sh.mutex == ByRx)
  {
  }

  /** The Rx thread never waits while it holds the mutex. */
  lemma {:induction false} RxReleases(c: Config, s: State) returns (run: seq<Action>)
    requires c.maxlen > 0 && Inv(c, s) && s.sh.mutex == ByRx && s.sh.running
    ensures |run| <= RxRank(s.rx) && Possible(c, s, run)
    ensures var t := After(c, s, run); Inv(c, t) && t.sh.mutex == Free && t.sh.running && t.irq == s.irq
    decreases RxRank(s.rx)
  {
    hide Inv, Apply, Enabled;
    var a := RxNext(s.rx);
    RxEffect(c, s);
    StepKeepsInv(c, s, a);
    if RxRank(s.rx) == 1 {
      run := [a];
      LastStep(c, s, a);
    } else {
      var rest := RxReleases(c, Apply(c, s, a));
      run := [a] + rest;
      assert run[1..] == rest;
    }
  }

  /** From every reachable state with rx_running, the two threads alone can get to where
      every queue is unmasked or being served: nothing stays masked for good. */
  lemma {:induction false} StalledQueuesReturn(c: Config, init: State, run: seq<Action>) returns (more: seq<Action>)
    requires c.maxlen > 0 && Init(c, init) && Possible(c, init, run) && After(c, init, run).sh.running
    ensures Possible(c, After(c, init, run), more)
    ensures var s := After(c, init, run);
      var t := After(c, s, more);
      && Rest(t)
      && forall q | 0 <= q < c.queues :: q in t.irq.imask || q in s.irq.pulses || InPass(t.rx, q)
  {
    hide Inv, Apply, Enabled, Init;
    var s := After(c, init, run);
    InitInv(c, init);
    RunKeepsInv(c, init, run);
    var first := [];
    if s.sh.mutex == ByRx {
      first := RxReleases(c, s);
    }
    var m := After(c, s, first);
    var second := StackFinishes(c, m);
    Concat(c, s, first, second);
    more := first + second;
    InvIsAwake(c, After(c, m, second));
  }

  /** A step of the stack thread. */
  predicate OfStack(a: Action) {
    a in {Pick, StLock, StDequeue, StUnlock, StUnmask, StClearFull, StClearRunning, StRelease}
  }

  /** The steps of the stack thread in a run, and the calls of IF_ENQUEUE. */
  function StackSteps(run: seq<Action>): nat {
    if run == [] then 0 else (if OfStack(run[0]) then 1 else 0) + StackSteps(run[1..])
  }

  function Enqueues(run: seq<Action>): nat {
    if run == [] then 0 else (if run[0] == Enqueue then 1 else 0) + Enqueues(run[1..])
  }

  lemma {:induction false} RankFalls(c: Config, s: State, a: Action)
    requires Enabled(c, s, a) && a != StRelease
    ensures Rank(Apply(c, s, a)) + (if OfStack(a) then 1 else 0) <= Rank(s) + (if a == Enqueue then 3 else 0)
  {
  }

  /** However the threads are interleaved, the stack thread rests after at most Rank of its
      own steps, and three more for every frame queued in the meantime. */
  lemma {:induction false} StackRestsSoon(c: Config, s: State, run: seq<Action>)
    requires Possible(c, s, run) && StRelease !in run
    ensures StackSteps(run) + Rank(After(c, s, run)) <= Rank(s) + 3 * Enqueues(run)
    decreases |run|
  {
    hide Rank, Apply, Enabled;
    if run != [] {
      RankFalls(c, s, run[0]);
      StackRestsSoon(c, Apply(c, s, run[0]), run[1..]);
    }
  }

  /** When it rests, every queue is unmasked or being served. */
  lemma {:induction false} RestReturnsQueues(c: Config, init: State, run: seq<Action>)
    requires c.maxlen > 0 && Init(c, init) && Possible(c, init, run) && Enabled(c, After(c, init, run), StRelease)
    ensures var t := Apply(c, After(c, init, run), StRelease);
      && t.st == Idle && Rest(t)
      && forall q | 0 <= q < c.queues :: q in t.irq.imask || q in t.irq.pulses || InPass(t.rx, q)
  {
    InitInv(c, init);
    RunKeepsInv(c, init, run);
    StepKeepsInv(c, After(c, init, run), StRelease);
  }

  // ---- the limits of the protocol ----

  /** Every frame in a ring has its interrupt raised or a pass that will read it. */
  ghost predicate Noticed(s: State) {
    forall q | Unread(s, q) > 0 :: q in s.irq.ievent || q in s.irq.pulses || InPass(s.rx, q)
  }

  lemma {:induction false} NeverStalls(c: Config, s: State, run: seq<Action>)
    requires s.stalled == {} && Possible(c, s, run) && !c.flow
    ensures After(c, s, run).stalled == {}
    decreases |run|
  {
    if run != [] {
      StallStep(c, s, run[0]);
      hide Apply, Enabled;
      NeverStalls(c, Apply(c, s, run[0]), run[1..]);
    }
  }

  lemma {:induction false} StallStep(c: Config, s: State, a: Action)
    requires s.stalled == {} && Enabled(c, s, a) && !c.flow
    ensures Apply(c, s, a).stalled == {}
  {
  }

  /** A frame can only be forgotten in the ring of a queue whose last pass was stopped by
      flow control; without flow control none ever is. */
  lemma {:induction false} AlwaysNoticed(c: Config, s: State, run: seq<Action>)
    requires c.maxlen > 0 && Init(c, s) && Possible(c, s, run)
    ensures var t := After(c, s, run);
      && (forall q | Unread(t, q) > 0 :: q in t.irq.ievent || q in t.irq.pulses || InPass(t.rx, q) || q in t.stalled)
      && (!c.flow ==> Noticed(t))
  {
    InitInv(c, s);
    RunKeepsInv(c, s, run);
    if !c.flow { NeverStalls(c, s, run); }
  }

  function Below(n: nat): (s: set<nat>)
    ensures forall q :: q in s <==> 0 <= q < n
  {
    if n == 0 then {} else Below(n - 1) + {n - 1}
  }

  function Start(c: Config): State {
    State(Irq(Below(c.queues), {}, {}, map[]), Shared(Free, 0, false, {}, false), Waiting, Idle, {})
  }

  lemma {:induction false} StartIsInit(c: Config)
    ensures Init(c, Start(c))
  {
  }

  /** One more action of a run known so far. */
  lemma {:induction false} Then(c: Config, run: seq<Action>, t: State, a: Action)
    requires Possible(c, Start(c), run) && After(c, Start(c), run) == t && Enabled(c, t, a)
    ensures Possible(c, Start(c), run + [a]) && After(c, Start(c), run + [a]) == Apply(c, t, a)
  {
    hide Apply, Enabled;
    Extend(c, Start(c), run, a);
  }

  /** n frames arrive on queue 0. */
  lemma {:induction false} FramesArrive(c: Config, n: nat) returns (run: seq<Action>)
    requires c.queues > 0 && n > 0
    ensures Possible(c, Start(c), run)
    ensures After(c, Start(c), run) == Start(c).(irq := Irq(Below(c.queues), {0}, {}, map[0 := n]))
  {
    if n == 1 {
      run := [];
      Then(c, run, Start(c), Arrive(0));
      run := run + [Arrive(0)];
    } else {
      hide Possible, After, Below;
      run := FramesArrive(c, n - 1);
      var t := After(c, Start(c), run);
      Then(c, run, t, Arrive(0));
      run := run + [Arrive(0)];
    }
  }

  /** The Rx thread in its loop on queue 0, with n frames left in the ring and qlen queued. */
  function Filling(c: Config, n: nat, qlen: nat): State {
    State(Irq(Below(c.queues) - {0}, {}, {}, map[0 := n]), Shared(Free, qlen, qlen > 0, {}, qlen > 0),
          Loop(0), Idle, {})
  }

  /** The interrupt is taken and the Rx thread enters the loop. */
  lemma {:induction false} PassBegins(c: Config, n: nat) returns (run: seq<Action>)
    requires c.queues > 0 && n > 0
    ensures Possible(c, Start(c), run) && After(c, Start(c), run) == Filling(c, n, 0)
  {
    hide Possible, After;
    run := FramesArrive(c, n);
    var t := After(c, Start(c), run);
    Then(c, run, t, Isr(0));
    run, t := run + [Isr(0)], Apply(c, t, Isr(0));
    Then(c, run, t, Pulse(0));
    run, t := run + [Pulse(0)], Apply(c, t, Pulse(0));
    Then(c, run, t, ClearEvent);
    run, t := run + [ClearEvent], Apply(c, t, ClearEvent);
    assert t.irq.pulses == {} == t.irq.ievent;
  }

  /** A frame is queued, and the stack thread told if it was not running, up to the flow
      control test. */
  lemma {:induction false} OneQueued(c: Config, run: seq<Action>, n: nat, qlen: nat) returns (more: seq<Action>)
    requires Possible(c, Start(c), run) && After(c, Start(c), run) == Filling(c, n, qlen)
    requires n > 0 && qlen < c.maxlen
    ensures Possible(c, Start(c), more)
    ensures After(c, Start(c), more) ==
      Filling(c, n - 1, qlen + 1).(rx := Check(0), sh := Shared(ByRx, qlen + 1, true, {}, true))
  {
    hide Possible, After, Below;
    var t := Filling(c, n, qlen);
    Then(c, run, t, TakeFrame);
    more, t := run + [TakeFrame], Apply(c, t, TakeFrame);
    Then(c, more, t, Enqueue);
    more, t := more + [Enqueue], Apply(c, t, Enqueue);
    Then(c, more, t, TestRunning);
    more, t := more + [TestRunning], Apply(c, t, TestRunning);
    if qlen == 0 {
      Then(c, more, t, RaiseEvent);
      more, t := more + [RaiseEvent], Apply(c, t, RaiseEvent);
    }
  }

  /** The queue fills up to k frames while the stack thread does not run. */
  lemma {:induction false} QueueFills(c: Config, k: nat, n: nat) returns (run: seq<Action>)
    requires c.queues > 0 && c.flow && n > 0 && (k > 0 ==> k + 1 < c.maxlen)
    ensures Possible(c, Start(c), run) && After(c, Start(c), run) == Filling(c, n, k)
    decreases k
  {
    if k == 0 {
      run := PassBegins(c, n);
    } else {
      hide Possible, After, Below;
      run := QueueFills(c, k - 1, n + 1);
      run := OneQueued(c, run, n + 1, k - 1);
      var t := After(c, Start(c), run);
      Then(c, run, t, TestFlow(true));
      run, t := run + [TestFlow(true)], Apply(c, t, TestFlow(true));
      Then(c, run, t, RxUnlock);
      run, t := run + [RxUnlock], Apply(c, t, RxUnlock);
    }
  }

  /** The pass that stops under flow control, with a frame left in the ring. */
  lemma {:induction false} PassStops(c: Config) returns (run: seq<Action>)
    requires c.queues > 0 && c.maxlen > 0 && c.flow
    ensures Possible(c, Start(c), run)
    ensures var t := After(c, Start(c), run);
      && t.irq == Irq(Below(c.queues) - {0}, {}, {}, map[0 := 1]) && t.rx == Waiting
      && t.sh.mutex == Free && t.sh.running
  {
    hide Possible, After, Below;
    var k := if c.maxlen <= 2 then 0 else c.maxlen - 2;
    run := QueueFills(c, k, 2);
    run := OneQueued(c, run, 2, k);
    var t := After(c, Start(c), run);
    Then(c, run, t, TestFlow(true));
    run, t := run + [TestFlow(true)], Apply(c, t, TestFlow(true));
    Then(c, run, t, RxUnlock);
    run := run + [RxUnlock];
  }

  /** With flow control a frame can be left in the ring, whatever the number of queues and
      their capacity: the pass stopped early after its interrupt cause was cleared, so
      unmasking raises no interrupt until another frame arrives. */
  lemma {:induction false} FlowForgetsFrame(c: Config) returns (run: seq<Action>)
    requires c.queues > 0 && c.maxlen > 0 && c.flow
    ensures Possible(c, Start(c), run)
    ensures var t := After(c, Start(c), run);
      && !Noticed(t) && Unread(t, 0) == 1
      && t.rx == Waiting && t.st == Idle && !t.sh.event && t.sh.qlen == 0 && 0 in t.irq.imask
  {
    StartIsInit(c);
    InitInv(c, Start(c));
    run := PassStops(c);
    RunKeepsInv(c, Start(c), run);
    var s := After(c, Start(c), run);
    var rest := StackFinishes(c, s);
    Concat(c, Start(c), run, rest);
    var t := After(c, s, rest);
    assert Unread(t, 0) == 1;
    assert !InPass(t.rx, 0) && 0 !in t.irq.ievent && 0 !in t.irq.pulses;
    run := run + rest;
  }

  /** In every run every frame in a ring is noticed exactly if pause frames are not used. */
  lemma {:induction false} NoticedExactly(c: Config)
    requires c.queues > 0 && c.maxlen > 0
    ensures (forall run | Possible(c, Start(c), run) :: Noticed(After(c, Start(c), run))) <==> !c.flow
  {
    if c.flow {
      var run := FlowForgetsFrame(c);
      assert !Noticed(After(c, Start(c), run));
    } else {
      StartIsInit(c);
      forall run | Possible(c, Start(c), run)
        ensures Noticed(After(c, Start(c), run))
      {
        AlwaysNoticed(c, Start(c), run);
      }
    }
  }

  /** The guarantee of AlwaysAwake needs its hypothesis: a queue of no capacity, which the
      driver does not configure, would leave an interrupt masked for good. */
  lemma {:induction false} ZeroCapacityStrands(c: Config) returns (run: seq<Action>)
    requires c.queues > 0 && c.maxlen == 0 && c.flow
    ensures Possible(c, Start(c), run) && !Awake(c, After(c, Start(c), run))
  {
    hide Possible, After;
    run := PassBegins(c, 1);
    var t := After(c, Start(c), run);
    Then(c, run, t, TakeFrame);
    run, t := run + [TakeFrame], Apply(c, t, TakeFrame);
    Then(c, run, t, Enqueue);
    run, t := run + [Enqueue], Apply(c, t, Enqueue);
    Then(c, run, t, TestFlow(true));
    run, t := run + [TestFlow(true)], Apply(c, t, TestFlow(true));
    Then(c, run, t, RxUnlock);
    run := run + [RxUnlock];
  }
}
