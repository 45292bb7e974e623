/** Receive descriptor ring shared by the driver and the MAC
    (src/hardware/devnp/mx6x/receive.c): the state, the MAC's step, the invariant kept by
    every store, and the reassembly of frames from descriptors. */
module RxModel {
  import opened Options
  import opened Ring

  /** Part of a frame as it arrives: its bytes, whether it ends the frame, whether the MAC
      reports an error with it, and the 1588 time of its arrival. */
  datatype Part = Part(len: nat, last: bool, err: bool, ts: nat)

  /** A part the MAC has stored, with the mbuf whose buffer received it. */
  datatype Seg = Seg(buf: nat, part: Part)

  /** The fields of mpc_bd_t; empty, wrap, last and err are RXBD_E, _W, _L and _ERR. The
      buffer address is named by the mbuf it belongs to. */
  datatype Bd = Bd(buffer: nat, length: nat, empty: bool, wrap: bool, last: bool, err: bool, ts: nat)

  /** The MAC: its ring position, the bytes of the frame in progress, what it has stored. */
  datatype Mac = Mac(idx: nat, acc: nat, segs: seq<Seg>)

  /** Descriptors returned so far, and whether the driver is working on the next one. */
  datatype Turn = Turn(done: nat, busy: bool)

  // ---- the invariant ----

  /** Bytes already received of the frame that is not yet complete. */
  function Acc(segs: seq<Seg>): nat {
    if segs == [] || segs[|segs| - 1].part.last then 0
    else Acc(segs[..|segs| - 1]) + segs[|segs| - 1].part.len
  }

  /** The length field of a descriptor: the frame's length in its last one. */
  function Field(segs: seq<Seg>, i: nat): nat
    requires i < |segs|
  {
    segs[i].part.len + if segs[i].part.last then Acc(segs[..i]) else 0
  }

  predicate Holds(b: Bd, s: Seg, length: nat) {
    !b.empty && b.buffer == s.buf && b.length == length && b.last == s.part.last && b.err == s.part.err &&
      b.ts == s.part.ts
  }

  /** Descriptors from position lo on hold what the MAC stored. */
  ghost predicate Full(bd: seq<Bd>, segs: seq<Seg>, lo: nat)
    requires |bd| > 0
  {
    forall i {:trigger Slot(i, |bd|)} | lo <= i < |segs| :: Holds(bd[Slot(i, |bd|)], segs[i], Field(segs, i))
  }

  /** The rest are the MAC's; the time stamp is the one of the previous lap. */
  ghost predicate Owned(bd: seq<Bd>, segs: seq<Seg>, hi: nat)
    requires |bd| > 0 && hi <= |segs| + |bd|
  {
    forall i {:trigger Slot(i, |bd|)} | |segs| <= i < hi ::
      bd[Slot(i, |bd|)].empty && (i >= |bd| ==> bd[Slot(i, |bd|)].ts == segs[i - |bd|].part.ts)
  }

  /** rx_pkts remembers the mbuf of every descriptor but the one being worked on. */
  ghost predicate Remembered(bd: seq<Bd>, pkts: seq<Option<nat>>, lo: nat, hi: nat)
    requires |pkts| == |bd| > 0
  {
    forall i {:trigger Slot(i, |bd|)} | lo <= i < hi :: pkts[Slot(i, |bd|)] == Some(bd[Slot(i, |bd|)].buffer)
  }

  ghost predicate Wraps(bd: seq<Bd>) {
    forall i | 0 <= i < |bd| :: bd[i].wrap == (i == |bd| - 1)
  }

  ghost predicate Busy(b: Bd, s: Seg) {
    !b.empty && b.ts == s.part.ts
  }

  ghost predicate MacAt(mac: Mac, n: nat)
    requires n > 0
  {
    mac.idx == Slot(|mac.segs|, n) && mac.acc == Acc(mac.segs)
  }

  ghost predicate Inv(bd: seq<Bd>, pkts: seq<Option<nat>>, cidx: nat, mac: Mac, turn: Turn) {
    var lo := turn.done + if turn.busy then 1 else 0;
    && |pkts| == |bd| > 0
    && lo <= |mac.segs| <= turn.done + |bd|
    && cidx == Slot(lo, |bd|)
    && MacAt(mac, |bd|)
    && Wraps(bd)
    && Full(bd, mac.segs, lo)
    && Owned(bd, mac.segs, turn.done + |bd|)
    && Remembered(bd, pkts, lo, turn.done + |bd|)
    && (turn.busy ==> Busy(bd[Slot(turn.done, |bd|)], mac.segs[turn.done]))
  }

  // ---- the MAC ----

  /** Store the next part in the descriptor at the MAC's position. */
  function Filled(b: Bd, acc: nat, p: Part): Bd {
    b.(length := p.len + if p.last then acc else 0, empty := false, last := p.last, err := p.err, ts := p.ts)
  }

  function MacNext(mac: Mac, b: Bd, p: Part): Mac {
    Mac(if b.wrap then 0 else mac.idx + 1, if p.last then 0 else mac.acc + p.len, mac.segs + [Seg(b.buffer, p)])
  }

  lemma {:induction false} AccNext(segs: seq<Seg>, s: Seg)
    ensures Acc(segs + [s]) == if s.part.last then 0 else Acc(segs) + s.part.len
  {
    assert (segs + [s])[..|segs|] == segs;
  }

  lemma {:induction false} FieldPrefix(segs: seq<Seg>, more: seq<Seg>, i: nat)
    requires i < |segs|
    ensures Field(segs + more, i) == Field(segs, i)
  {
    assert (segs + more)[..i] == segs[..i];
  }

  /** What the MAC leaves alone: descriptors it does not own. */
  ghost predicate MacFrame(bd: seq<Bd>, bd': seq<Bd>, mac: Mac, mac': Mac, turn: Turn)
    requires |bd| > 0
  {
    && |bd'| == |bd|
    && mac.segs <= mac'.segs
    && (forall i {:trigger Slot(i, |bd|)} | turn.done <= i < |mac.segs| :: bd'[Slot(i, |bd|)] == bd[Slot(i, |bd|)])
  }

  /** The MAC's position is an EMPTY descriptor exactly when it is less than a lap ahead. */
  lemma {:induction false} MacSees(bd: seq<Bd>, pkts: seq<Option<nat>>, cidx: nat, mac: Mac, turn: Turn)
    requires Inv(bd, pkts, cidx, mac, turn)
    ensures mac.idx < |bd|
    ensures bd[mac.idx].empty <==> |mac.segs| < turn.done + |bd|
  {
    if |mac.segs| == turn.done + |bd| {
      SlotLap(turn.done, |bd|);
    }
  }

  lemma {:induction false} FullNext(bd: seq<Bd>, mac: Mac, lo: nat, hi: nat, p: Part)
    requires |bd| > 0 && MacAt(mac, |bd|)
    requires lo <= |mac.segs| < hi <= lo + |bd|
    requires Full(bd, mac.segs, lo) && Owned(bd, mac.segs, hi)
    ensures Full(bd[mac.idx := Filled(bd[mac.idx], mac.acc, p)], mac.segs + [Seg(bd[mac.idx].buffer, p)], lo)
  {
    hide Slot, Acc;
    SlotAlone(|mac.segs|, lo, |bd|);
    var bd' := bd[mac.idx := Filled(bd[mac.idx], mac.acc, p)];
    var segs' := mac.segs + [Seg(bd[mac.idx].buffer, p)];
    forall i {:trigger Slot(i, |bd'|)} | lo <= i < |segs'|
      ensures Holds(bd'[Slot(i, |bd'|)], segs'[i], Field(segs', i))
    {
      if i < |mac.segs| {
        FieldPrefix(mac.segs, [Seg(bd[mac.idx].buffer, p)], i);
      } else {
        assert segs'[..i] == mac.segs;
      }
    }
  }

  lemma {:induction false} OwnedNext(bd: seq<Bd>, mac: Mac, lo: nat, hi: nat, p: Part)
    requires |bd| > 0 && MacAt(mac, |bd|)
    requires lo <= |mac.segs| < hi <= lo + |bd| && Owned(bd, mac.segs, hi)
    ensures Owned(bd[mac.idx := Filled(bd[mac.idx], mac.acc, p)], mac.segs + [Seg(bd[mac.idx].buffer, p)], hi)
  {
    hide Slot, Acc;
    SlotAlone(|mac.segs|, lo, |bd|);
  }

  lemma {:induction false} RememberedNext(bd: seq<Bd>, pkts: seq<Option<nat>>, k: nat, b: Bd, lo: nat, hi: nat)
    requires |pkts| == |bd| > 0 && Remembered(bd, pkts, lo, hi)
    requires k < |bd| && b.buffer == bd[k].buffer
    ensures Remembered(bd[k := b], pkts, lo, hi)
  {
  }

  /** A step of the MAC keeps the invariant and touches no descriptor it does not own. */
  lemma {:induction false} MacKeepsInv(bd: seq<Bd>, pkts: seq<Option<nat>>, cidx: nat, mac: Mac, turn: Turn, p: Part)
    requires Inv(bd, pkts, cidx, mac, turn) && |mac.segs| < turn.done + |bd|
    ensures mac.idx < |bd|
    ensures var b := bd[mac.idx];
      var bd', mac' := bd[mac.idx := Filled(b, mac.acc, p)], MacNext(mac, b, p);
      Inv(bd', pkts, cidx, mac', turn) && MacFrame(bd, bd', mac, mac', turn)
  {
    hide Slot, Acc, Full, Owned, Remembered;
    var b := bd[mac.idx];
    var lo, hi := turn.done + (if turn.busy then 1 else 0), turn.done + |bd|;
    SlotAlone(|mac.segs|, turn.done, |bd|);
    FullNext(bd, mac, lo, hi, p);
    OwnedNext(bd, mac, turn.done, hi, p);
    RememberedNext(bd, pkts, mac.idx, Filled(b, mac.acc, p), lo, hi);
    AccNext(mac.segs, Seg(b.buffer, p));
    SlotNext(|mac.segs|, |bd|);
  }

  // ---- the driver's stores ----

  /** EMPTY at the consumer index means that everything stored has been returned. */
  lemma {:induction false} DriverSees(bd: seq<Bd>, pkts: seq<Option<nat>>, cidx: nat, mac: Mac, turn: Turn)
    requires Inv(bd, pkts, cidx, mac, turn) && !turn.busy
    ensures cidx < |bd|
    ensures bd[cidx].empty <==> |mac.segs| == turn.done
    ensures !bd[cidx].empty ==>
      Holds(bd[cidx], mac.segs[turn.done], Field(mac.segs, turn.done)) && pkts[cidx] == Some(mac.segs[turn.done].buf)
  {
    hide Field;
    if |mac.segs| > turn.done {
      assert Holds(bd[Slot(turn.done, |bd|)], mac.segs[turn.done], Field(mac.segs, turn.done));
    }
  }

  /** rx_cidx moves on before the descriptor is worked on. */
  lemma {:induction false} TakeKeepsInv(bd: seq<Bd>, pkts: seq<Option<nat>>, cidx: nat, mac: Mac, turn: Turn)
    requires Inv(bd, pkts, cidx, mac, turn) && !turn.busy && turn.done < |mac.segs|
    ensures cidx < |bd| && Inv(bd, pkts, Next(cidx, |bd|), mac, turn.(busy := true))
  {
    hide Slot, Field, Acc;
    SlotNext(turn.done, |bd|);
    assert Holds(bd[Slot(turn.done, |bd|)], mac.segs[turn.done], Field(mac.segs, turn.done));
  }

  /** Stores to the descriptor being worked on that leave EMPTY clear, and to its rx_pkts entry. */
  lemma {:induction false} StoreKeepsInv(bd: seq<Bd>, pkts: seq<Option<nat>>, cidx: nat, mac: Mac, turn: Turn, b: Bd,
      m: Option<nat>)
    requires Inv(bd, pkts, cidx, mac, turn) && turn.busy
    requires var old_b := bd[Slot(turn.done, |bd|)]; b.wrap == old_b.wrap && b.ts == old_b.ts && !b.empty
    ensures Inv(bd[Slot(turn.done, |bd|) := b], pkts[Slot(turn.done, |bd|) := m], cidx, mac, turn)
  {
    hide Slot, Field, Acc;
    SlotAlone(turn.done, turn.done, |bd|);
  }

  /** The status store gives the descriptor back. */
  lemma {:induction false} GiveKeepsInv(bd: seq<Bd>, pkts: seq<Option<nat>>, cidx: nat, mac: Mac, turn: Turn)
    requires Inv(bd, pkts, cidx, mac, turn) && turn.busy
    requires pkts[Slot(turn.done, |bd|)] == Some(bd[Slot(turn.done, |bd|)].buffer)
    ensures var k := Slot(turn.done, |bd|);
      Inv(bd[k := bd[k].(empty := true, wrap := k == |bd| - 1, last := false, err := false)], pkts, cidx, mac,
          Turn(turn.done + 1, false))
  {
    hide Slot, Field, Acc;
    SlotAlone(turn.done, turn.done, |bd|);
    SlotLap(turn.done, |bd|);
  }

  /** The time stamp read after the descriptor was given back is still the one of part k
      exactly when the MAC has not come round to the descriptor again. */
  lemma {:induction false} StampRead(bd: seq<Bd>, pkts: seq<Option<nat>>, cidx: nat, mac: Mac, turn: Turn, k: nat)
    requires Inv(bd, pkts, cidx, mac, turn) && !turn.busy && turn.done == k + 1
    ensures bd[Slot(k, |bd|)].ts == if |mac.segs| <= k + |bd| then mac.segs[k].part.ts else mac.segs[k + |bd|].part.ts
  {
    hide Slot, Field, Acc;
    SlotLap(k, |bd|);
    if |mac.segs| > k + |bd| {
      assert Holds(bd[Slot(k + |bd|, |bd|)], mac.segs[k + |bd|], Field(mac.segs, k + |bd|));
    } else {
      assert bd[Slot(k + |bd|, |bd|)].ts == mac.segs[k].part.ts;
    }
  }
}
