/** Extension of the MAC's short event counters (src/hardware/devnp/mx6x/stats.c). They are
    sampled on every lap of a transmit ring (transmit.c), and detect.c bounds the rings. */
module Stats {
  import opened Arith

  const W16: nat := 0x1_0000
  const W32: nat := 0x1_0000_0000
  const W64: nat := 0x1_0000_0000_0000_0000

  // ---- sampling ----

  /** What a sample adds, for a counter of modulus w. */
  function Delta(value: nat, last: nat, w: nat): (d: nat)
    requires value < w && last < w
  {
    if value >= last then value - last else w - last + value
  }

  /** The total and the last value after a sample of a 16-bit counter. */
  function Sampled32(total: nat, last: nat, value: nat): (nat, nat)
    requires value < W16 && last < W16
  {
    ((total + Delta(value, last, W16)) % W32, value)
  }

  /** The same for a 32-bit counter. */
  function Sampled64(total: nat, last: nat, value: nat): (nat, nat)
    requires value < W32 && last < W32
  {
    ((total + Delta(value, last, W32)) % W64, value)
  }

  lemma {:induction false} DeltaIsDistance(before: nat, now: nat, w: nat)
    requires before <= now && w > 0
    ensures Delta(now % w, before % w, w) == (now - before) % w
  {
    var a, b := before / w, before % w;
    var c, e := now / w, now % w;
    AddMul(c - a, a, w);
    assert now - before == (c - a) * w + (e - b);
    if e >= b {
      DivisionIsUnique(now - before, w, c - a, e - b);
    } else {
      AddMul(c - a - 1, 1, w);
      DivisionIsUnique(now - before, w, c - a - 1, w - b + e);
    }
  }

  /** Numbers less than a modulus apart are congruent only if equal. */
  lemma {:induction false} CloseAndCongruent(x: nat, y: nat, m: nat)
    requires x <= y < x + m && x % m == y % m
    ensures x == y
  {
    var q := y / m - x / m;
    AddMul(q, x / m, m);
    assert y - x == q * m;
    SmallMultipleIsZero(q, m);
  }

  /** Adding a multiple of the modulus. */
  lemma {:induction false} AddMultiple(x: nat, k: nat, m: nat)
    requires m > 0
    ensures (k * m + x) % m == x % m
  {
    AddMul(k, x / m, m);
    DivisionIsUnique(k * m + x, m, k + x / m, x % m);
  }

  lemma {:induction false} ModOfSum(x: nat, y: nat, m: nat)
    requires m > 0
    ensures (x % m + y % m) % m == (x + y) % m
  {
    var a, b := x / m, y / m;
    AddMul(a, b, m);
    assert x + y == (a + b) * m + (x % m + y % m);
    AddMultiple(x % m + y % m, a + b, m);
  }

  /** Reducing first by a multiple of the modulus changes nothing. */
  lemma {:induction false} ModTwice(d: nat, w: nat, k: nat, m: nat)
    requires w > 0 && k > 0 && m == k * w
    ensures m > 0 && d % m % w == d % w
  {
    MulAtLeast(w, k);
    var e, f := d / m, d % m;
    MulAssoc(e, k, w);
    AddMultiple(f, e * k, w);
  }

  /** Adding a distance known modulo w only, where m is k times w. */
  lemma {:induction false} SampleExactly(before: nat, d: nat, w: nat, k: nat, m: nat)
    requires w > 0 && k > 0 && m == k * w
    ensures m > 0
    ensures (before % m + d % w) % m == (before + d) % m <==> d % m < w
  {
    ModTwice(d, w, k, m);
    ModOfSum(before, d, m);
    SampleOfParts(before % m, d % m, d % w, w, m);
  }

  lemma {:induction false} SampleOfParts(b: nat, f: nat, h: nat, w: nat, m: nat)
    requires 0 < w && f < m && h == f % w
    ensures (b + h) % m == (b + f) % m <==> f < w
  {
    QuotientBounds(f, w);
    if f < w {
      DivisionIsUnique(f, w, 0, f);
    } else if (b + h) % m == (b + f) % m {
      CloseAndCongruent(b + h, b + f, m);
    }
  }

  /** A sample that was right stays right exactly when the true count has moved by less
      than the counter holds (or by a number the accumulator cannot tell from one). */
  lemma {:induction false} Sample32Exactly(before: nat, now: nat)
    requires before <= now
    ensures (before % W32 + Delta(now % W16, before % W16, W16)) % W32 == now % W32 <==> (now - before) % W32 < W16
  {
    DeltaIsDistance(before, now, W16);
    SampleExactly(before, now - before, W16, W16, W32);
  }

  lemma {:induction false} Sample64Exactly(before: nat, now: nat)
    requires before <= now
    ensures (before % W64 + Delta(now % W32, before % W32, W32)) % W64 == now % W64 <==> (now - before) % W64 < W32
  {
    DeltaIsDistance(before, now, W32);
    SampleExactly(before, now - before, W32, W32, W64);
  }

  // ---- ring sizes ----

  const MIN_TX: nat := 64
  const MIN_RX: nat := 16
  const MAX_DESCRIPTORS: nat := 2048

  /** The clamping of a configured descriptor count. */
  method ClampDescriptors(n: int, min: nat) returns (r: nat)
    requires min == MIN_TX || min == MIN_RX
    ensures min <= r <= MAX_DESCRIPTORS && r % 4 == 0
    ensures min <= n <= MAX_DESCRIPTORS ==> r <= n < r + 4
    ensures n < min ==> r == min
    ensures n > MAX_DESCRIPTORS ==> r == MAX_DESCRIPTORS
  {
    var m := n - n % 4;
    if m < min {
      m := min;
    }
    if m > MAX_DESCRIPTORS {
      m := MAX_DESCRIPTORS;
    }
    r := m;
  }

  // ---- whole runs ----

  /** One transmit ring: the producer index, the descriptors loaded and not yet sent, and
      how many were loaded and sent since the counter was last read. */
  datatype Queue = Queue(pidx: nat, unsent: nat, loaded: nat, sent: nat)

  /** A thread in do_stat32: not there; about to read the register; with its value and the
      true count at that time; with the last value it compares with; and with the total
      stored but not yet the last value. */
  datatype Sampler =
    | Out
    | Want
    | Got(value: nat, at: nat)
    | Looked(value: nat, at: nat, prev: nat)
    | Added(value: nat, at: nat)

  /** The true number of frames sent; the count when the register was read by the latest
      sample to have finished, and when it was last read at all; the accumulated counter. */
  datatype State = State(queues: seq<Queue>, frames: nat, base: nat, mark: nat, total: nat, last: nat,
    samplers: seq<Sampler>)

  /** The size of the rings, and whether mx6q_update_stats is called under a lock. The code
      takes none, and has three callers: transmit, receive and device control. */
  datatype Config = Config(n: nat, locked: bool)

  /** Sampler 0 is the transmit path, which samples on every lap of a ring. */
  datatype Step =
    | Load(q: nat)                        // a descriptor is loaded
    | Send(q: nat, d: nat, ok: bool)      // a frame of d descriptors is sent, or fails
    | Ask(i: nat)                         // a thread calls mx6q_update_stats
    | Fetch(i: nat)                       // value = *addr
    | Look(i: nat)                        // *old; nothing more to do if it equals the value
    | Add(i: nat)                         // *new += ...
    | Store(i: nat)                       // *old = value

  predicate Inside(p: Sampler) {
    p.Got? || p.Looked? || p.Added?
  }

  predicate Nobody(ps: seq<Sampler>) {
    forall i | 0 <= i < |ps| :: !Inside(ps[i])
  }

  predicate Enabled(c: Config, s: State, a: Step) {
    match a
    case Load(q) => q < |s.queues| && s.queues[q].unsent + 1 < c.n && s.samplers != [] && s.samplers[0].Out?
    case Send(q, d, _) => q < |s.queues| && 0 < d <= s.queues[q].unsent
    case Ask(i) => i < |s.samplers| && s.samplers[i].Out?
    case Fetch(i) => i < |s.samplers| && s.samplers[i].Want? && (c.locked ==> Nobody(s.samplers))
    case Look(i) => i < |s.samplers| && s.samplers[i].Got?
    case Add(i) => i < |s.samplers| && s.samplers[i].Looked? && s.samplers[i].value < W16 && s.samplers[i].prev < W16
    case Store(i) => i < |s.samplers| && s.samplers[i].Added?
  }

  function Rebased(qs: seq<Queue>): (r: seq<Queue>)
    ensures |r| == |qs|
    ensures forall i | 0 <= i < |qs| :: r[i] == qs[i].(loaded := 0, sent := 0)
  {
    seq(|qs|, i requires 0 <= i < |qs| => qs[i].(loaded := 0, sent := 0))
  }

  function Apply(c: Config, s: State, a: Step): State
    requires Enabled(c, s, a)
  {
    match a
    case Load(q) =>
      var r := s.queues[q];
      var lap := r.pidx + 1 == c.n;
      s.(queues := s.queues[q := Queue(if lap then 0 else r.pidx + 1, r.unsent + 1, r.loaded + 1, r.sent)],
         samplers := if lap then s.samplers[0 := Want] else s.samplers)
    case Send(q, d, ok) =>
      var r := s.queues[q];
      s.(queues := s.queues[q := r.(unsent := r.unsent - d, sent := r.sent + d)],
         frames := s.frames + if ok then 1 else 0)
    case Ask(i) => s.(samplers := s.samplers[i := Want])
    case Fetch(i) =>
      s.(queues := Rebased(s.queues), mark := s.frames, samplers := s.samplers[i := Got(s.frames % W16, s.frames)])
    case Look(i) =>
      var p := s.samplers[i];
      if p.value == s.last then s.(base := p.at, samplers := s.samplers[i := Out])
      else s.(samplers := s.samplers[i := Looked(p.value, p.at, s.last)])
    case Add(i) =>
      var p := s.samplers[i];
      s.(total := (s.total + Delta(p.value, p.prev, W16)) % W32, samplers := s.samplers[i := Added(p.value, p.at)])
    case Store(i) =>
      var p := s.samplers[i];
      s.(last := p.value, base := p.at, samplers := s.samplers[i := Out])
  }

  ghost predicate Possible(c: Config, s: State, run: seq<Step>)
    decreases |run|, 0
  {
    run == [] ||
    (Possible(c, s, run[..|run| - 1]) && Enabled(c, After(c, s, run[..|run| - 1]), run[|run| - 1]))
  }

  ghost function After(c: Config, s: State, run: seq<Step>): State
    requires Possible(c, s, run)
    decreases |run|, 1
  {
    if run == [] then s else Apply(c, After(c, s, run[..|run| - 1]), run[|run| - 1])
  }

  lemma {:induction false} Extend(c: Config, s: State, run: seq<Step>, a: Step)
    requires Possible(c, s, run) && Enabled(c, After(c, s, run), a)
    ensures Possible(c, s, run + [a]) && After(c, s, run + [a]) == Apply(c, After(c, s, run), a)
  {
    hide Apply, Enabled;
    assert (run + [a])[..|run|] == run;
  }

  lemma {:induction false} Nothing(c: Config, s: State)
    ensures Possible(c, s, []) && After(c, s, []) == s
  {
  }

  // ---- sampling without overlap ----

  /** Since the counter was last read a ring has been lapped at most where the transmit
      path is about to read it again, so what it sent was in it then or was loaded since. */
  predicate RingOk(r: Queue, n: nat, due: bool) {
    && r.pidx < n && r.unsent < n && r.sent + r.unsent <= n - 1 + r.loaded
    && (if due then r.loaded <= n else r.loaded <= r.pidx)
  }

  ghost predicate RingsOk(qs: seq<Queue>, n: nat, due: bool) {
    forall i | 0 <= i < |qs| :: RingOk(qs[i], n, due)
  }

  function SentSince(qs: seq<Queue>): nat {
    if qs == [] then 0 else SentSince(qs[..|qs| - 1]) + qs[|qs| - 1].sent
  }

  /** The one sampler inside has read the right values and stored the right ones. */
  predicate SamplerOk(p: Sampler, base: nat, mark: nat, total: nat) {
    match p
    case Out => true
    case Want => true
    case Got(value, at) => at == mark && value == at % W16 && total == base % W32
    case Looked(value, at, prev) => at == mark && value == at % W16 && prev == base % W16 && total == base % W32
    case Added(value, at) => at == mark && value == at % W16 && total == mark % W32
  }

  ghost predicate SamplersOk(ps: seq<Sampler>, base: nat, mark: nat, total: nat) {
    && (forall i, j | 0 <= i < j < |ps| :: !(Inside(ps[i]) && Inside(ps[j])))
    && (forall i | 0 <= i < |ps| :: SamplerOk(ps[i], base, mark, total))
    && (Nobody(ps) ==> base == mark && total == base % W32)
  }

  ghost predicate CountsOk(s: State) {
    && s.base <= s.mark <= s.frames <= s.mark + SentSince(s.queues)
    && s.mark - s.base < W16
    && s.last == s.base % W16
  }

  ghost predicate Inv(c: Config, s: State) {
    && 0 < c.n <= MAX_DESCRIPTORS && |s.queues| <= 3 && s.samplers != []
    && RingsOk(s.queues, c.n, s.samplers[0].Want?)
    && CountsOk(s)
    && SamplersOk(s.samplers, s.base, s.mark, s.total)
  }

  /** No sampler reads the counter while another is at work. */
  ghost predicate Apart(c: Config, s: State, run: seq<Step>)
    requires Possible(c, s, run)
  {
    run != [] ==>
      var r, a := run[..|run| - 1], run[|run| - 1];
      Apart(c, s, r) && (a.Fetch? ==> Nobody(After(c, s, r).samplers))
  }

  lemma {:induction false} SentSinceUpdate(qs: seq<Queue>, q: nat, r: Queue)
    requires q < |qs|
    ensures SentSince(qs[q := r]) == SentSince(qs) - qs[q].sent + r.sent
  {
    var k := |qs| - 1;
    if q < k {
      SentSinceUpdate(qs[..k], q, r);
      assert qs[q := r][..k] == qs[..k][q := r];
    } else {
      assert qs[q := r][..k] == qs[..k];
    }
  }

  lemma {:induction false} SentSinceNone(qs: seq<Queue>)
    requires forall i | 0 <= i < |qs| :: qs[i].sent == 0
    ensures SentSince(qs) == 0
  {
    if qs != [] { SentSinceNone(qs[..|qs| - 1]); }
  }

  /** Fewer than two laps of each ring are sent between two reads of the counter. */
  lemma {:induction false} SentSinceBounded(qs: seq<Queue>, n: nat, due: bool)
    requires RingsOk(qs, n, due) && n > 0
    ensures SentSince(qs) <= |qs| * (2 * n - 1)
  {
    if qs != [] {
      SentSinceBounded(qs[..|qs| - 1], n, due);
      AddMul(|qs| - 1, 1, 2 * n - 1);
    }
  }

  lemma {:induction false} Few(k: nat, n: nat)
    requires k <= 3 && 0 < n <= MAX_DESCRIPTORS
    ensures k * (2 * n - 1) < W16
  {
  }

  lemma {:induction false} NobodyAfter(ps: seq<Sampler>, i: nat, p: Sampler)
    requires i < |ps|
    ensures Inside(p) ==> !Nobody(ps[i := p])
    ensures !Inside(p) && !Inside(ps[i]) ==> (Nobody(ps[i := p]) <==> Nobody(ps))
  {
    assert ps[i := p][i] == p;
    if Nobody(ps[i := p]) && !Inside(ps[i]) {
      forall j | 0 <= j < |ps|
        ensures !Inside(ps[j])
      {
        assert j != i ==> ps[i := p][j] == ps[j];
      }
    }
  }

  lemma {:induction false} LoadKeepsRings(c: Config, s: State, q: nat)
    requires Inv(c, s) && Enabled(c, s, Load(q))
    ensures var t := Apply(c, s, Load(q)); RingsOk(t.queues, c.n, t.samplers[0].Want?)
  {
    hide SamplersOk, CountsOk;
  }

  lemma {:induction false} LoadKeepsSamplers(c: Config, s: State, q: nat)
    requires Inv(c, s) && Enabled(c, s, Load(q))
    ensures SamplersOk(Apply(c, s, Load(q)).samplers, s.base, s.mark, s.total)
  {
    hide RingsOk, CountsOk, Nobody;
    NobodyAfter(s.samplers, 0, Want);
  }

  lemma {:induction false} LoadKeepsInv(c: Config, s: State, q: nat)
    requires Inv(c, s) && Enabled(c, s, Load(q))
    ensures Inv(c, Apply(c, s, Load(q)))
  {
    hide SamplersOk, RingsOk, SentSince;
    LoadKeepsRings(c, s, q);
    LoadKeepsSamplers(c, s, q);
    var r := s.queues[q];
    var lap := r.pidx + 1 == c.n;
    SentSinceUpdate(s.queues, q, Queue(if lap then 0 else r.pidx + 1, r.unsent + 1, r.loaded + 1, r.sent));
  }

  lemma {:induction false} SendKeepsInv(c: Config, s: State, q: nat, d: nat, ok: bool)
    requires Inv(c, s) && Enabled(c, s, Send(q, d, ok))
    ensures Inv(c, Apply(c, s, Send(q, d, ok)))
  {
    hide SamplersOk;
    var r := s.queues[q];
    SentSinceUpdate(s.queues, q, r.(unsent := r.unsent - d, sent := r.sent + d));
  }

  lemma {:induction false} AskKeepsInv(c: Config, s: State, i: nat)
    requires Inv(c, s) && Enabled(c, s, Ask(i))
    ensures Inv(c, Apply(c, s, Ask(i)))
  {
    hide Nobody, SentSince;
    NobodyAfter(s.samplers, i, Want);
  }

  lemma {:induction false} FetchKeepsInv(c: Config, s: State, i: nat)
    requires Inv(c, s) && Enabled(c, s, Fetch(i)) && Nobody(s.samplers)
    ensures Inv(c, Apply(c, s, Fetch(i)))
  {
    SentSinceBounded(s.queues, c.n, s.samplers[0].Want?);
    Few(|s.queues|, c.n);
    MulMonotone(|s.queues|, 3, 2 * c.n - 1);
    SentSinceNone(Rebased(s.queues));
    NobodyAfter(s.samplers, i, Got(s.frames % W16, s.frames));
  }

  lemma {:induction false} LookKeepsInv(c: Config, s: State, i: nat)
    requires Inv(c, s) && Enabled(c, s, Look(i))
    ensures Inv(c, Apply(c, s, Look(i)))
  {
    var p := s.samplers[i];
    if p.value == s.last {
      CloseAndCongruent(s.base, s.mark, W16);
      assert Inside(s.samplers[i]);
    } else {
      NobodyAfter(s.samplers, i, Looked(p.value, p.at, s.last));
    }
  }

  lemma {:induction false} AddKeepsInv(c: Config, s: State, i: nat)
    requires Inv(c, s) && Enabled(c, s, Add(i))
    ensures Inv(c, Apply(c, s, Add(i)))
  {
    hide RingsOk, SentSince, Delta, Nobody;
    AddIsRight(s.base, s.mark);
    NobodyAfter(s.samplers, i, Added(s.samplers[i].value, s.samplers[i].at));
  }

  lemma {:induction false} AddIsRight(base: nat, mark: nat)
    requires base <= mark < base + W16
    ensures (base % W32 + Delta(mark % W16, base % W16, W16)) % W32 == mark % W32
  {
    hide Delta;
    Sample32Exactly(base, mark);
    DivisionIsUnique(mark - base, W32, 0, mark - base);
  }

  lemma {:induction false} StoreKeepsInv(c: Config, s: State, i: nat)
    requires Inv(c, s) && Enabled(c, s, Store(i))
    ensures Inv(c, Apply(c, s, Store(i)))
  {
    assert Inside(s.samplers[i]);
  }

  lemma {:induction false} StepKeepsInv(c: Config, s: State, a: Step)
    requires Inv(c, s) && Enabled(c, s, a) && (a.Fetch? ==> Nobody(s.samplers))
    ensures Inv(c, Apply(c, s, a))
  {
    hide Inv;
    match a
    case Load(q) => LoadKeepsInv(c, s, q);
    case Send(q, d, ok) => SendKeepsInv(c, s, q, d, ok);
    case Ask(i) => AskKeepsInv(c, s, i);
    case Fetch(i) => FetchKeepsInv(c, s, i);
    case Look(i) => LookKeepsInv(c, s, i);
    case Add(i) => AddKeepsInv(c, s, i);
    case Store(i) => StoreKeepsInv(c, s, i);
  }

  // ---- whether the count is true ----

  /** mx6q_clear_stats, with k rings and m threads. */
  ghost predicate Initial(s: State, k: nat, m: nat) {
    s == State(seq(k, _ => Queue(0, 0, 0, 0)), 0, 0, 0, 0, 0, seq(m, _ => Out))
  }

  /** With no sampler at work, the total is the true count at the time of the latest sample. */
  ghost predicate CountTrue(s: State) {
    Nobody(s.samplers) ==> s.base == s.mark && s.total == s.base % W32
  }

  /** In every run in which samples do not overlap, each one has the true number of frames
      sent modulo 2^32, however often the 16-bit counter wrapped. */
  lemma {:induction false} CountIsTrue(c: Config, s: State, k: nat, m: nat, run: seq<Step>)
    requires Initial(s, k, m) && k <= 3 && m > 0 && 0 < c.n <= MAX_DESCRIPTORS && Possible(c, s, run) &&
      Apart(c, s, run)
    ensures var t := After(c, s, run); Inv(c, t) && CountTrue(t)
  {
    if run == [] {
      SentSinceNone(s.queues);
    } else {
      CountIsTrue(c, s, k, m, run[..|run| - 1]);
      StepKeepsInv(c, After(c, s, run[..|run| - 1]), run[|run| - 1]);
    }
  }

  lemma {:induction false} SameThreads(c: Config, s: State, a: Step)
    requires Enabled(c, s, a)
    ensures |Apply(c, s, a).samplers| == |s.samplers|
  {
  }

  /** A lock, or a single caller, keeps samples apart. */
  lemma {:induction false} LockKeepsApart(c: Config, s: State, run: seq<Step>)
    requires Possible(c, s, run) && (c.locked || |s.samplers| == 1)
    ensures Apart(c, s, run) && |After(c, s, run).samplers| == |s.samplers|
  {
    hide Apply;
    if run != [] {
      var r := run[..|run| - 1];
      LockKeepsApart(c, s, r);
      SameThreads(c, After(c, s, r), run[|run| - 1]);
    }
  }

  /** A thread that finds something to count samples without a lock, up to but not including
      the store of *old. */
  lemma {:induction false} Sampling(c: Config, s: State, run: seq<Step>, i: nat) returns (more: seq<Step>)
    requires Possible(c, s, run) && !c.locked
    requires var t := After(c, s, run); i < |t.samplers| && t.samplers[i].Out? && t.frames % W16 != t.last < W16
    ensures Possible(c, s, more)
    ensures var t := After(c, s, run);
      After(c, s, more) == t.(queues := Rebased(t.queues), mark := t.frames,
        total := (t.total + Delta(t.frames % W16, t.last, W16)) % W32,
        samplers := t.samplers[i := Added(t.frames % W16, t.frames)])
  {
    hide Possible, After, Rebased, Nobody, Delta;
    Extend(c, s, run, Ask(i));
    more := run + [Ask(i)];
    Extend(c, s, more, Fetch(i));
    more := more + [Fetch(i)];
    Extend(c, s, more, Look(i));
    more := more + [Look(i)];
    Extend(c, s, more, Add(i));
    more := more + [Add(i)];
  }

  lemma {:induction false} FrameSent(c: Config, s: State, k: nat, m: nat) returns (run: seq<Step>)
    requires Initial(s, k, m) && k > 0 && m > 0 && c.n > 2
    ensures Possible(c, s, run)
    ensures var t := After(c, s, run); t == s.(frames := 1, queues := t.queues)
  {
    hide Possible, After;
    Nothing(c, s);
    Extend(c, s, [], Load(0));
    run := [] + [Load(0)];
    Extend(c, s, run, Send(0, 1, true));
    run := run + [Send(0, 1, true)];
  }

  /** Where samples can overlap, two threads that sample at once count the same frame twice. */
  lemma {:induction false} DoubleCount(c: Config, s: State, k: nat, m: nat) returns (run: seq<Step>)
    requires Initial(s, k, m) && k > 0 && m > 1 && c.n > 2 && !c.locked
    ensures Possible(c, s, run)
    ensures var t := After(c, s, run); Nobody(t.samplers) && t.frames == t.base == 1 && t.total == 2
  {
    hide Possible, After, Rebased;
    run := FrameSent(c, s, k, m);
    run := Sampling(c, s, run, 1);
    run := Sampling(c, s, run, 0);
    Extend(c, s, run, Store(0));
    run := run + [Store(0)];
    Extend(c, s, run, Store(1));
    run := run + [Store(1)];
  }

  /** The count is true in every run exactly if samples are locked or only one thread takes
      them. */
  lemma {:induction false} CountTrueExactly(c: Config, s: State, k: nat, m: nat)
    requires Initial(s, k, m) && 0 < k <= 3 && m > 0 && MIN_TX <= c.n <= MAX_DESCRIPTORS
    ensures (forall run | Possible(c, s, run) :: CountTrue(After(c, s, run))) <==> c.locked || m == 1
  {
    if c.locked || m == 1 {
      forall run | Possible(c, s, run)
        ensures CountTrue(After(c, s, run))
      {
        LockKeepsApart(c, s, run);
        CountIsTrue(c, s, k, m, run);
      }
    } else {
      var run := DoubleCount(c, s, k, m);
      assert !CountTrue(After(c, s, run));
    }
  }

  /** A 16-bit counter of the MAC accumulated in 32 bits. */
  class Counter32 {
    var total: nat
    var last: nat

    constructor ()
      ensures total == 0 && last == 0
    {
      total, last := 0, 0;
    }

    /** do_stat32. */
    method Sample(value: nat)
      requires value < W16 && last < W16 && total < W32
      modifies this
      ensures (total, last) == Sampled32(old(total), old(last), value)
    {
      if value == last {
        // do nothing
      } else if value > last {
        total := (total + (value - last)) % W32;
        last := value;
      } else {
        total := (total + (W16 - last + value)) % W32;
        last := value;
      }
    }
  }

  /** A 32-bit counter of the MAC accumulated in 64 bits. */
  class Counter64 {
    var total: nat
    var last: nat

    constructor ()
      ensures total == 0 && last == 0
    {
      total, last := 0, 0;
    }

    /** do_stat64. */
    method Sample(value: nat)
      requires value < W32 && last < W32 && total < W64
      modifies this
      ensures (total, last) == Sampled64(old(total), old(last), value)
    {
      if value == last {
        // do nothing
      } else if value > last {
        total := (total + (value - last)) % W64;
        last := value;
      } else {
        total := (total + (W32 - last + value)) % W64;
        last := value;
      }
    }
  }

  /** The steps of a sampler that runs alone. */
  function Alone(s: State, i: nat): seq<Step> {
    if s.frames % W16 == s.last then [Fetch(i), Look(i)] else [Fetch(i), Look(i), Add(i), Store(i)]
  }

  /** Together they do what Counter32.Sample does. */
  lemma {:induction false} SampleIsSteps(c: Config, s: State, i: nat)
    requires i < |s.samplers| && s.samplers[i].Want? && Nobody(s.samplers) && s.last < W16 && s.total < W32
    ensures Possible(c, s, Alone(s, i))
    ensures var t := After(c, s, Alone(s, i));
      && (t.total, t.last) == Sampled32(s.total, s.last, s.frames % W16)
      && t.base == t.mark == t.frames == s.frames && t.samplers == s.samplers[i := Out]
  {
    hide Possible, After;
    Nothing(c, s);
    Extend(c, s, [], Fetch(i));
    assert [] + [Fetch(i)] == [Fetch(i)];
    Extend(c, s, [Fetch(i)], Look(i));
    assert [Fetch(i)] + [Look(i)] == [Fetch(i), Look(i)];
    if s.frames % W16 != s.last {
      Extend(c, s, [Fetch(i), Look(i)], Add(i));
      assert [Fetch(i), Look(i)] + [Add(i)] == [Fetch(i), Look(i), Add(i)];
      Extend(c, s, [Fetch(i), Look(i), Add(i)], Store(i));
      assert [Fetch(i), Look(i), Add(i)] + [Store(i)] == [Fetch(i), Look(i), Add(i), Store(i)];
    }
  }
}
