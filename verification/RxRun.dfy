/** Runs of the receive ring: the stores of mx6q_receive and mx6q_add_pkt
    (src/hardware/devnp/mx6x/receive.c) and the steps of the MAC in any order. */
module RxRun {
  import opened Options
  import opened Ring
  import opened RxModel

  datatype Rx = Rx(bd: seq<Bd>, pkts: seq<Option<nat>>, cidx: nat, mac: Mac, turn: Turn)

  /** The MAC stores a part; the driver takes a descriptor, stores to it, gives it back. */
  datatype Step = Fill(p: Part) | Take | Store(b: Bd, m: Option<nat>) | Give

  ghost predicate RingInv(r: Rx) {
    Inv(r.bd, r.pkts, r.cidx, r.mac, r.turn)
  }

  predicate Enabled(r: Rx, a: Step) {
    && |r.pkts| == |r.bd| > 0 && r.cidx < |r.bd| && r.mac.idx < |r.bd|
    && var k := Slot(r.turn.done, |r.bd|);
       match a
       case Fill(_) => r.bd[r.mac.idx].empty
       case Take => !r.turn.busy && !r.bd[r.cidx].empty
       case Store(b, m) => r.turn.busy && b.wrap == r.bd[k].wrap && b.ts == r.bd[k].ts && !b.empty
       case Give => r.turn.busy && r.pkts[k] == Some(r.bd[k].buffer)
  }

  function Apply(r: Rx, a: Step): Rx
    requires Enabled(r, a)
  {
    var n := |r.bd|;
    var k := Slot(r.turn.done, n);
    match a
    case Fill(p) =>
      var b := r.bd[r.mac.idx];
      r.(bd := r.bd[r.mac.idx := Filled(b, r.mac.acc, p)], mac := MacNext(r.mac, b, p))
    case Take => r.(cidx := Next(r.cidx, n), turn := r.turn.(busy := true))
    case Store(b, m) => r.(bd := r.bd[k := b], pkts := r.pkts[k := m])
    case Give =>
      r.(bd := r.bd[k := r.bd[k].(empty := true, wrap := k == n - 1, last := false, err := false)],
         turn := Turn(r.turn.done + 1, false))
  }

  lemma {:induction false} StepKeepsInv(r: Rx, a: Step)
    requires RingInv(r) && Enabled(r, a)
    ensures RingInv(Apply(r, a))
  {
    hide Inv;
    match a
    case Fill(p) =>
      MacSees(r.bd, r.pkts, r.cidx, r.mac, r.turn);
      MacKeepsInv(r.bd, r.pkts, r.cidx, r.mac, r.turn, p);
    case Take =>
      DriverSees(r.bd, r.pkts, r.cidx, r.mac, r.turn);
      StoredAhead(r);
      TakeKeepsInv(r.bd, r.pkts, r.cidx, r.mac, r.turn);
    case Store(b, m) =>
      StoreKeepsInv(r.bd, r.pkts, r.cidx, r.mac, r.turn, b, m);
    case Give =>
      GiveKeepsInv(r.bd, r.pkts, r.cidx, r.mac, r.turn);
  }

  lemma {:induction false} StoredAhead(r: Rx)
    requires RingInv(r)
    ensures r.turn.done <= |r.mac.segs| <= r.turn.done + |r.bd| && |r.pkts| == |r.bd| > 0 && r.cidx < |r.bd| &&
      r.mac.idx < |r.bd|
  {
  }

  /** The ring as initialised, with mbufs named after their slots. */
  function Initial(n: nat): Rx {
    Rx(seq(n, i requires 0 <= i < n => Bd(i, 0, true, i == n - 1, false, false, 0)),
         seq(n, i requires 0 <= i < n => Some(i)), 0, Mac(0, 0, []), Turn(0, false))
  }

  ghost predicate Possible(r: Rx, run: seq<Step>)
    decreases |run|, 0
  {
    run == [] || (Possible(r, run[..|run| - 1]) && Enabled(After(r, run[..|run| - 1]), run[|run| - 1]))
  }

  ghost function After(r: Rx, run: seq<Step>): Rx
    requires Possible(r, run)
    decreases |run|, 1
  {
    if run == [] then r else Apply(After(r, run[..|run| - 1]), run[|run| - 1])
  }

  /** One more step of a run that keeps the invariant. */
  lemma {:induction false} Extend(r: Rx, run: seq<Step>, a: Step)
    requires Possible(r, run) && Enabled(After(r, run), a) && RingInv(After(r, run))
    ensures Possible(r, run + [a]) && After(r, run + [a]) == Apply(After(r, run), a) && RingInv(After(r, run + [a]))
  {
    hide Apply, Enabled, RingInv;
    assert (run + [a])[..|run|] == run;
    StepKeepsInv(After(r, run), a);
  }

  /** The MAC fills k descriptors of the ring; part i arrives at time i. */
  lemma {:induction false} LapFills(n: nat, k: nat) returns (run: seq<Step>)
    requires k <= n && n > 0
    ensures Possible(Initial(n), run)
    ensures var r := After(Initial(n), run);
      && RingInv(r) && |r.bd| == n && r.turn == Turn(0, false)
      && |r.mac.segs| == k && forall i | 0 <= i < k :: r.mac.segs[i].part.last && r.mac.segs[i].part.ts == i
  {
    if k == 0 {
      run := [];
    } else {
      hide RingInv, Possible, After;
      run := LapFills(n, k - 1);
      var r := After(Initial(n), run);
      StoredAhead(r);
      FillEnabled(r);
      Extend(Initial(n), run, Fill(Part(64, true, false, k - 1)));
      run := run + [Fill(Part(64, true, false, k - 1))];
    }
  }

  lemma {:induction false} FillEnabled(r: Rx)
    requires RingInv(r) && |r.mac.segs| < r.turn.done + |r.bd|
    ensures forall p :: Enabled(r, Fill(p))
  {
    hide Slot, Field;
    MacSees(r.bd, r.pkts, r.cidx, r.mac, r.turn);
  }

  lemma {:induction false} TakeEnabled(r: Rx)
    requires RingInv(r) && !r.turn.busy && r.turn.done < |r.mac.segs|
    ensures Enabled(r, Take)
  {
    hide Slot, Field;
    DriverSees(r.bd, r.pkts, r.cidx, r.mac, r.turn);
  }

  lemma {:induction false} BusySlot(r: Rx)
    requires RingInv(r) && r.turn.busy
    ensures !r.bd[Slot(r.turn.done, |r.bd|)].empty
  {
  }

  /** A run of every ring in which the stamp read for the first frame, which arrived at time
      0, is that of a frame that arrived later: the MAC is a whole lap ahead and refills the
      descriptor between its return and the read. */
  lemma {:induction false} StampOfAnother(n: nat) returns (run: seq<Step>)
    requires n > 0
    ensures Possible(Initial(n), run)
    ensures var r := After(Initial(n), run);
      && RingInv(r) && r.turn == Turn(1, false)
      && r.mac.segs[0].part.last && r.mac.segs[0].part.ts == 0 && r.bd[Slot(0, |r.bd|)].ts == n
  {
    hide RingInv, Possible, After, Inv, Slot;
    run := LapFills(n, n);
    var r := After(Initial(n), run);
    TakeEnabled(r);
    Extend(Initial(n), run, Take);
    run, r := run + [Take], Apply(r, Take);
    StoredAhead(r);
    BusySlot(r);
    // mx6q_add_pkt with a new mbuf
    var a := Store(r.bd[Slot(0, |r.bd|)].(buffer := n, length := 0), Some(n));
    Extend(Initial(n), run, a);
    run, r := run + [a], Apply(r, a);
    StoredAhead(r);
    Extend(Initial(n), run, Give);
    run, r := run + [Give], Apply(r, Give);
    StoredAhead(r);
    FillEnabled(r);
    Extend(Initial(n), run, Fill(Part(64, true, false, n)));
    run, r := run + [Fill(Part(64, true, false, n))], Apply(r, Fill(Part(64, true, false, n)));
    LastStamp(r);
  }

  lemma {:induction false} LastStamp(r: Rx)
    requires RingInv(r) && r.turn == Turn(1, false) && |r.mac.segs| == |r.bd| + 1
    ensures |r.bd| > 0 && r.bd[Slot(0, |r.bd|)].ts == r.mac.segs[|r.bd|].part.ts
  {
    StampRead(r.bd, r.pkts, r.cidx, r.mac, r.turn, 0);
  }
}
