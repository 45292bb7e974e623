/** Two samples of a statistics counter at once (src/hardware/devnp/mx6x/stats.c): in every
    interleaving of the two, when the count is still true. */
module StatsOverlap {
  import opened Arith
  import opened Stats

  /** How far a sampler has got: the last two are done with and without counting. */
  datatype Phase = NotYet | Fetched | Saw | Counted | Stored | Returned

  /** Two samplers i and j, i being the first to read the register: the true count of the last
      sample before them and when they read it; what they have done; whether each looked at
      *old after the other had stored it; and which of them stored it last. */
  datatype Pair = Pair(
    base: nat, a: nat, b: nat, pi: Phase, pj: Phase, sawI: bool, sawJ: bool, jLast: bool)

  /** The count whose residue i, or j, compared with. */
  function OldI(p: Pair): nat { if p.sawI then p.b else p.base }
  function OldJ(p: Pair): nat { if p.sawJ then p.a else p.base }

  /** The count whose residue is in *old. */
  function LastOf(p: Pair): nat {
    if p.pi == Stored && (p.pj == Stored ==> !p.jLast) then p.a
    else if p.pj == Stored then p.b
    else p.base
  }

  function Gain(now: nat, before: nat): nat {
    Delta(now % W16, before % W16, W16)
  }

  /** The total that has been accumulated. */
  function TotalOf(p: Pair): nat {
    p.base + (if p.pi in {Counted, Stored} then Gain(p.a, OldI(p)) else 0)
           + (if p.pj in {Counted, Stored} then Gain(p.b, OldJ(p)) else 0)
  }

  function Next(p: Pair, s: State, i: nat, j: nat, act: Step): Pair {
    match act
    case Fetch(k) =>
      if k == i then p.(a := s.frames, pi := Fetched)
      else if k == j then p.(b := s.frames, pj := Fetched)
      else p
    case Look(k) =>
      if k >= |s.samplers| || !s.samplers[k].Got? then p
      else
        var phase := if s.samplers[k].value == s.last then Returned else Saw;
        if k == i then p.(pi := phase, sawI := p.pj == Stored)
        else if k == j then p.(pj := phase, sawJ := p.pi == Stored)
        else p
    case Add(k) => if k == i then p.(pi := Counted) else if k == j then p.(pj := Counted) else p
    case Store(k) =>
      if k == i then p.(pi := Stored, jLast := false)
      else if k == j then p.(pj := Stored, jLast := true)
      else p
    case _ => p
  }

  /** Sampler i reads the register, then j does, and nobody else. */
  predicate InTurn(p: Pair, i: nat, j: nat, act: Step) {
    act.Fetch? ==>
      if p.pi == NotYet then act.i == i && p.pj == NotYet else act.i == j && p.pj == NotYet
  }

  ghost function Track(c: Config, s: State, run: seq<Step>, i: nat, j: nat): Pair
    requires Possible(c, s, run)
  {
    if run == [] then Pair(s.base, 0, 0, NotYet, NotYet, false, false, false)
    else
      var r := run[..|run| - 1];
      Next(Track(c, s, r, i, j), After(c, s, r), i, j, run[|run| - 1])
  }

  ghost predicate TwoSamples(c: Config, s: State, run: seq<Step>, i: nat, j: nat)
    requires Possible(c, s, run)
  {
    run != [] ==>
      var r := run[..|run| - 1];
      TwoSamples(c, s, r, i, j) && InTurn(Track(c, s, r, i, j), i, j, run[|run| - 1])
  }

  // ---- the invariant ----

  predicate HasLooked(x: Phase) { x == Saw || x == Counted || x == Stored || x == Returned }

  predicate Counts(p: Pair, frames: nat) {
    && p.base <= frames < p.base + W16
    && (p.pi != NotYet ==> p.base <= p.a <= frames)
    && (p.pj != NotYet ==> p.pi != NotYet && p.a <= p.b <= frames)
    && (p.sawI ==> p.pj == Stored && HasLooked(p.pi) && !p.sawJ)
    && (p.sawJ ==> p.pi == Stored && HasLooked(p.pj))
    && (HasLooked(p.pi) ==> (p.pi == Returned <==> p.a == OldI(p)))
    && (HasLooked(p.pj) ==> (p.pj == Returned <==> p.b == OldJ(p)))
    && (p.sawI && p.pi == Stored ==> !p.jLast)
    && (p.sawJ && p.pj == Stored ==> p.jLast)
  }

  predicate At(x: Sampler, phase: Phase, at: nat, prev: nat) {
    match phase
    case Fetched => x == Got(at % W16, at)
    case Saw => x == Looked(at % W16, at, prev % W16)
    case Counted => x == Added(at % W16, at)
    case _ => !Inside(x)
  }

  ghost predicate Places(ps: seq<Sampler>, p: Pair, i: nat, j: nat) {
    && i < |ps| && j < |ps| && i != j
    && At(ps[i], p.pi, p.a, OldI(p)) && At(ps[j], p.pj, p.b, OldJ(p))
    && (forall k | 0 <= k < |ps| && k != i && k != j :: !Inside(ps[k]))
  }

  predicate Values(s: State, p: Pair) {
    && s.total == TotalOf(p) % W32 && s.base == LastOf(p) && s.last == LastOf(p) % W16
    && s.mark == if p.pj != NotYet then p.b else if p.pi != NotYet then p.a else p.base
  }

  ghost predicate Inv(s: State, p: Pair, i: nat, j: nat) {
    Counts(p, s.frames) && Places(s.samplers, p, i, j) && Values(s, p)
  }

  /** Residues of close counts tell them apart. */
  lemma {:induction false} SameResidue(x: nat, y: nat, m: nat)
    requires x < y + m && y < x + m && m > 0
    ensures x % m == y % m <==> x == y
  {
    if x % m == y % m {
      if x <= y { CloseAndCongruent(x, y, m); } else { CloseAndCongruent(y, x, m); }
    }
  }

  lemma {:induction false} AddGain(x: nat, g: nat)
    ensures (x % W32 + g) % W32 == (x + g) % W32
  {
    ModOfSum(x % W32, g, W32);
    ModOfSum(x, g, W32);
    ModIdempotent(x);
  }

  lemma {:induction false} ModIdempotent(x: nat)
    ensures x % W32 % W32 == x % W32
  {
  }

  lemma {:induction false} FetchStep(c: Config, s: State, p: Pair, i: nat, j: nat, k: nat)
    requires Inv(s, p, i, j) && Enabled(c, s, Fetch(k)) && InTurn(p, i, j, Fetch(k))
    ensures Inv(Apply(c, s, Fetch(k)), Next(p, s, i, j, Fetch(k)), i, j)
  {
    hide Gain;
  }

  lemma {:induction false} FirstLooks(c: Config, s: State, p: Pair, i: nat, j: nat)
    requires Inv(s, p, i, j) && Enabled(c, s, Look(i))
    ensures Inv(Apply(c, s, Look(i)), Next(p, s, i, j, Look(i)), i, j)
  {
    hide Gain;
    SameResidue(p.a, LastOf(p), W16);
  }

  lemma {:induction false} SecondLooks(c: Config, s: State, p: Pair, i: nat, j: nat)
    requires Inv(s, p, i, j) && Enabled(c, s, Look(j))
    ensures Inv(Apply(c, s, Look(j)), Next(p, s, i, j, Look(j)), i, j)
  {
    hide Gain;
    SameResidue(p.b, LastOf(p), W16);
  }

  lemma {:induction false} LookStep(c: Config, s: State, p: Pair, i: nat, j: nat, k: nat)
    requires Inv(s, p, i, j) && Enabled(c, s, Look(k))
    ensures Inv(Apply(c, s, Look(k)), Next(p, s, i, j, Look(k)), i, j)
  {
    hide Next, Apply, Values, Counts;
    if k == i {
      FirstLooks(c, s, p, i, j);
    } else {
      SecondLooks(c, s, p, i, j);
    }
  }

  lemma {:induction false} AddStep(c: Config, s: State, p: Pair, i: nat, j: nat, k: nat)
    requires Inv(s, p, i, j) && Enabled(c, s, Add(k))
    ensures Inv(Apply(c, s, Add(k)), Next(p, s, i, j, Add(k)), i, j)
  {
    hide Delta;
    AddGain(TotalOf(p), if k == i then Gain(p.a, OldI(p)) else Gain(p.b, OldJ(p)));
  }

  lemma {:induction false} StoreStep(c: Config, s: State, p: Pair, i: nat, j: nat, k: nat)
    requires Inv(s, p, i, j) && Enabled(c, s, Store(k))
    ensures Inv(Apply(c, s, Store(k)), Next(p, s, i, j, Store(k)), i, j)
  {
    hide Gain;
  }

  /** Loading, sending and calls that have not begun leave the two samplers alone. */
  lemma {:induction false} OtherStep(c: Config, s: State, p: Pair, i: nat, j: nat, act: Step)
    requires Inv(s, p, i, j) && Enabled(c, s, act) && (act.Load? || act.Send? || act.Ask?)
    requires Apply(c, s, act).frames < p.base + W16
    ensures Inv(Apply(c, s, act), Next(p, s, i, j, act), i, j)
  {
    hide Gain;
  }

  lemma {:induction false} PairStep(c: Config, s: State, p: Pair, i: nat, j: nat, act: Step)
    requires Inv(s, p, i, j) && Enabled(c, s, act) && InTurn(p, i, j, act) && Apply(c, s, act).frames < p.base + W16
    ensures Inv(Apply(c, s, act), Next(p, s, i, j, act), i, j)
  {
    hide Inv, Next, Apply, Enabled, InTurn;
    match act
    case Fetch(k) => FetchStep(c, s, p, i, j, k);
    case Look(k) => LookStep(c, s, p, i, j, k);
    case Add(k) => AddStep(c, s, p, i, j, k);
    case Store(k) => StoreStep(c, s, p, i, j, k);
    case _ => OtherStep(c, s, p, i, j, act);
  }

  lemma {:induction false} FramesGrow(c: Config, s: State, act: Step)
    requires Enabled(c, s, act)
    ensures s.frames <= Apply(c, s, act).frames
  {
  }

  /** The counter was true and nobody was sampling. */
  ghost predicate Calm(s: State) {
    Nobody(s.samplers) && s.base == s.mark <= s.frames && s.total == s.base % W32 && s.last == s.base % W16
  }

  lemma {:induction false} PairRun(c: Config, s: State, run: seq<Step>, i: nat, j: nat)
    requires Possible(c, s, run) && TwoSamples(c, s, run, i, j) && Calm(s)
    requires i < |s.samplers| && j < |s.samplers| && i != j && After(c, s, run).frames < s.base + W16
    ensures Inv(After(c, s, run), Track(c, s, run, i, j), i, j) && Track(c, s, run, i, j).base == s.base
  {
    if run != [] {
      hide Inv, Apply, Enabled, InTurn, Calm;
      var r, act := run[..|run| - 1], run[|run| - 1];
      FramesGrow(c, After(c, s, r), act);
      PairRun(c, s, r, i, j);
      PairStep(c, After(c, s, r), Track(c, s, r, i, j), i, j, act);
    }
  }

  // ---- when the count is true ----

  /** The first sampler found nothing to count, or it had stored before the second looked. */
  predicate Harmless(p: Pair) {
    p.pi == Returned || p.sawJ
  }

  lemma {:induction false} GainForward(now: nat, before: nat)
    requires before <= now < before + W16
    ensures Gain(now, before) == now - before
  {
    DeltaIsDistance(before, now, W16);
    DivisionIsUnique(now - before, W16, 0, now - before);
  }

  /** A stale value taken for a counter that has wrapped. */
  lemma {:induction false} GainBackward(now: nat, before: nat)
    requires now < before < now + W16
    ensures Gain(now, before) == W16 - (before - now)
  {
    DeltaIsDistance(before, now + W16, W16);
    AddMultiple(now, 1, W16);
    DivisionIsUnique(now + W16 - before, W16, 0, now + W16 - before);
  }

  /** What two finished samples have made of the total. */
  lemma {:induction false} TotalAtEnd(p: Pair, frames: nat)
    requires Counts(p, frames) && p.pi in {Stored, Returned} && p.pj in {Stored, Returned}
    ensures TotalOf(p) == if Harmless(p) then p.b else if p.sawI then p.a + W16 else p.a + (p.b - p.base)
    ensures Harmless(p) ==> LastOf(p) == p.b
    ensures !Harmless(p) && p.sawI ==> LastOf(p) == p.a
    ensures !Harmless(p) && !p.sawI ==> p.base < p.a <= p.b && (LastOf(p) == p.a || LastOf(p) == p.b)
  {
    hide Gain;
    if p.pj == Stored { GainForward(p.b, OldJ(p)); }
    if p.pi == Stored {
      if p.sawI { GainBackward(p.a, p.b); } else { GainForward(p.a, p.base); }
    }
  }

  /** Two samples that start from a true count, interleaved in any way with each other and
      with frames being sent, leave it true exactly if the first to read the register found
      nothing to count, or had stored before the second looked at *old. Otherwise events are
      counted twice, or, by a stale value taken for a wrap, 2^16 too many. */
  lemma {:induction false} TwoSamplesExactly(c: Config, s: State, run: seq<Step>, i: nat, j: nat)
    requires Possible(c, s, run) && TwoSamples(c, s, run, i, j) && Calm(s)
    requires i < |s.samplers| && j < |s.samplers| && i != j
    requires var t := After(c, s, run); Nobody(t.samplers) && t.frames < s.base + W16
    requires Track(c, s, run, i, j).pj != NotYet
    ensures var t, p := After(c, s, run), Track(c, s, run, i, j);
      && (CountTrue(t) <==> Harmless(p))
      && t.total == (if Harmless(p) then p.b else if p.sawI then p.a + W16 else p.a + (p.b - s.base)) % W32
  {
    hide Gain, Delta, Possible, TwoSamples, Track, After, Calm;
    PairRun(c, s, run, i, j);
    var t, p := After(c, s, run), Track(c, s, run, i, j);
    assert !Inside(t.samplers[i]) && !Inside(t.samplers[j]);
    TotalAtEnd(p, t.frames);
    if !Harmless(p) {
      CloseTotals(TotalOf(p), LastOf(p));
    }
  }

  lemma {:induction false} CloseTotals(x: nat, y: nat)
    requires y < x < y + W32
    ensures x % W32 != y % W32
  {
    if x % W32 == y % W32 { CloseAndCongruent(y, x, W32); }
  }

  /** One caller has read 0, then a frame is sent and another caller counts it. */
  lemma {:induction false} StaleValueRead(c: Config, s: State, k: nat, m: nat) returns (run: seq<Step>)
    requires Initial(s, k, m) && k > 0 && m > 1 && c.n > 2 && !c.locked
    ensures Possible(c, s, run)
    ensures var t := After(c, s, run);
      && t.frames == t.total == t.last == 1
      && t.samplers == s.samplers[1 := Got(0, 0)]
  {
    hide Possible, After, Rebased;
    Nothing(c, s);
    Extend(c, s, [], Ask(1));
    run := [] + [Ask(1)];
    Extend(c, s, run, Fetch(1));
    run := run + [Fetch(1)];
    RebasedLike(s.queues);
    Extend(c, s, run, Load(0));
    run := run + [Load(0)];
    Extend(c, s, run, Send(0, 1, true));
    run := run + [Send(0, 1, true)];
    run := Sampling(c, s, run, 0);
    Extend(c, s, run, Store(0));
    run := run + [Store(0)];
    var t := After(c, s, run);
    assert t.samplers == s.samplers[1 := Got(0, 0)];
  }

  /** A caller reads 0, another one counts a frame, and the first takes 1 in *old for a wrap:
      one frame sent, 65536 counted. */
  lemma {:induction false} StaleValueWraps(c: Config, s: State, k: nat, m: nat) returns (run: seq<Step>)
    requires Initial(s, k, m) && k > 0 && m > 1 && c.n > 2 && !c.locked
    ensures Possible(c, s, run)
    ensures var t := After(c, s, run); Nobody(t.samplers) && t.frames == 1 && t.total == W16 && t.last == 0
  {
    hide Possible, After, Rebased;
    run := StaleValueRead(c, s, k, m);
    Extend(c, s, run, Look(1));
    run := run + [Look(1)];
    Extend(c, s, run, Add(1));
    run := run + [Add(1)];
    Extend(c, s, run, Store(1));
    run := run + [Store(1)];
  }

  lemma {:induction false} RebasedLike(qs: seq<Queue>)
    requires forall q | 0 <= q < |qs| :: qs[q].loaded == 0 && qs[q].sent == 0
    ensures Rebased(qs) == qs
  {
  }
}
