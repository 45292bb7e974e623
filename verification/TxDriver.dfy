/** The transmit path of the driver (src/hardware/devnp/mx6x/transmit.c) for one queue:
    mx6q_defrag, mx6q_tx, mx6q_transmit_complete, mx6q_start and mx6q_output, with the MAC
    running between any two stores. */
module TxDriver {
  import opened Options
  import opened Ring
  import opened TxModel

  /** MX6Q_MAX_FRAGS. */
  const MAX_FRAGS: nat := 10

  datatype Errno = EOK | ENOMEM | ENOBUFS

  /** The bytes of a chain; m_pkthdr.len. */
  function Len(frags: seq<Frag>): nat {
    if frags == [] then 0 else Len(frags[..|frags| - 1]) + frags[|frags| - 1].len
  }

  lemma {:induction false} NonEmptyIffLoaded(frags: seq<Frag>)
    ensures Len(frags) > 0 <==> Loaded(frags) != []
  {
    if frags != [] {
      NonEmptyIffLoaded(frags[..|frags| - 1]);
    }
  }

  /** Loading one more fragment of a chain. */
  lemma {:induction false} LoadedNext(frags: seq<Frag>, i: nat)
    requires i < |frags|
    ensures frags[i].len != 0 ==> Loaded(frags[..i + 1]) == Loaded(frags[..i]) + [frags[i]]
    ensures frags[i].len == 0 ==> Loaded(frags[..i + 1]) == Loaded(frags[..i])
  {
    assert frags[..i + 1][..i] == frags[..i];
  }

  lemma {:induction false} LoadedNone(frags: seq<Frag>)
    ensures Loaded(frags[..0]) == []
  {
  }

  lemma {:induction false} LoadedPrefix(frags: seq<Frag>, i: nat)
    requires i <= |frags|
    ensures |Loaded(frags[..i])| <= |Loaded(frags)|
    decreases |frags| - i
  {
    if i == |frags| {
      assert frags[..i] == frags;
    } else {
      LoadedPrefix(frags, i + 1);
      LoadedNext(frags, i);
    }
  }

  /** The fragment count of mx6q_tx: a misaligned fragment counts for more than a frame may have. */
  function Fragments(frags: seq<Frag>): (c: nat)
    ensures c >= |Loaded(frags)|
  {
    if frags == [] then 0
    else
      var f := frags[|frags| - 1];
      Fragments(frags[..|frags| - 1]) +
        (if f.len == 0 then 0 else if f.aligned then 1 else MAX_FRAGS + 1)
  }

  /** The descriptors of a packet as loaded so far, before LAST is set. */
  function Unfinished(l: seq<Frag>, m: Packet): (ds: seq<Desc>)
    ensures |ds| == |l|
  {
    seq(|l|, j requires 0 <= j < |l| => Desc(Fetch(l[j].addr, l[j].len, false), j == 0, m))
  }

  lemma {:induction false} Finishing(m: Packet)
    requires Loaded(m.frags) != []
    ensures WithLast(Unfinished(Loaded(m.frags), m)) == Descs(m)
  {
  }

  /** mx6q_output takes back the ether header in front of the data. */
  function WithHeader(m: Packet, aligned: bool): (r: Packet)
    requires |m.frags| > 0 && m.frags[0].addr >= 14
    ensures r.frags != [] && r.frags[0].len > 0
  {
    m.(frags := m.frags[0 := Frag(m.frags[0].addr - 14, m.frags[0].len + 14, aligned)])
  }

  /** No packet needs a copy. */
  predicate Simple(ms: seq<Packet>) {
    forall i | 0 <= i < |ms| :: Fragments(ms[i].frags) <= MAX_FRAGS
  }

  /** Apart from a packet in hand, every owned packet is queued or freed, once. */
  ghost predicate Balanced(owned: multiset<Packet>, dropped: seq<Packet>, accepted: seq<Packet>, hand: Option<Packet>) {
    owned == multiset(dropped) + multiset(accepted) + (if hand.Some? then multiset{hand.value} else multiset{})
  }

  lemma {:induction false} InvSizes(s: Tx)
    requires Inv(s)
    ensures |s.log.descs| + |s.busy.descs| < s.log.consumed + s.n
    ensures |s.bd| == s.n > 0 && s.mac.fetchIdx < s.n && s.mac.releaseIdx < s.n
    ensures s.drv.pidx < s.n && s.drv.cidx < s.n && |s.pkts| == s.n
    ensures s.log.consumed <= s.mac.done <= |s.log.descs|
  {
  }

  lemma {:induction false} LoadPosIsFree(s: Tx)
    requires Inv(s) && LoadPos(s) < s.log.consumed + s.n && !s.busy.dirty
    ensures IsFree(s.bd[Slot(LoadPos(s), s.n)], false)
  {
  }

  lemma {:induction false} IdleIndices(s: Tx)
    requires Inv(s) && s.busy == IDLE
    ensures s.n > 0 && s.drv.pidx == Slot(|s.log.descs|, s.n)
    ensures s.drv.inuse == |s.log.descs| - s.log.consumed
  {
  }

  /** tx_bd_first == tx_bd exactly for a frame of one descriptor. */
  lemma {:induction false} OneDescriptor(p: nat, count: nat, n: nat)
    requires 0 < count <= n
    ensures Slot(p, n) == Slot(p + count - 1, n) <==> count == 1
  {
    if count > 1 {
      SlotDistinct(p, p + count - 1, n);
    }
  }

  lemma {:induction false} DirtySlot(s: Tx)
    requires Inv(s) && s.busy.dirty
    ensures s.log.consumed > 0 && |s.bd| == s.n > 0 && |s.log.descs| <= s.log.consumed - 1 + s.n
    ensures s.drv.cidx == Slot(s.log.consumed - 1 + s.n, s.n) < s.n
    ensures !s.bd[s.drv.cidx].ready
  {
    SlotLap(s.log.consumed - 1, s.n);
    assert IsFree(s.bd[Slot(s.log.consumed - 1 + s.n, s.n)], true);
  }

  lemma {:induction false} SimpleNext(ms: seq<Packet>, m: Packet)
    ensures Simple(ms + [m]) ==> Simple(ms) && Fragments(m.frags) <= MAX_FRAGS
  {
    if Simple(ms + [m]) {
      assert (ms + [m])[|ms|] == m;
      forall i | 0 <= i < |ms|
        ensures Fragments(ms[i].frags) <= MAX_FRAGS
      {
        assert (ms + [m])[i] == ms[i];
      }
    }
  }

  /** The loop test of mx6q_transmit_complete. */
  lemma {:induction false} EqualMeansEmpty(s: Tx)
    requires Inv(s) && s.busy == IDLE
    ensures s.drv.pidx == s.drv.cidx <==> s.log.consumed == |s.log.descs|
    ensures s.log.consumed <= |s.log.descs|
  {
    SlotDistance(s.log.consumed, |s.log.descs|, s.n);
  }

  lemma {:induction false} HeaderLoads(frags: seq<Frag>)
    requires frags != [] && frags[0].len > 0
    ensures Loaded(frags) != []
  {
    if |frags| > 1 {
      HeaderLoads(frags[..|frags| - 1]);
    }
  }

  class TxQueue {
    const n: nat
    const mclbytes: nat
    const storeAndForward: bool
    // shared descriptors, and the driver's own state
    var bd: seq<Bd>
    var pkts: seq<Option<Packet>>
    var pidx: nat
    var cidx: nat
    var inuse: nat
    var sendQueue: seq<Packet>   // if_snd
    var txFull: bool
    // the MAC
    var mac: Mac
    // history
    ghost var log: Log
    ghost var busy: Busy
    ghost var owned: multiset<Packet>   // every packet handed to, or allocated by, the transmit path
    ghost var dropped: seq<Packet>      // packets freed without being queued

    ghost function View(): Tx
      reads this
    {
      Tx(n, bd, pkts, Driver(pidx, cidx, inuse), mac, log, busy)
    }

    ghost predicate Ok()
      reads this
    {
      Inv(View()) && (storeAndForward ==> WholeFrames(mac))
    }

    /** Between calls: the ring invariant, and every owned packet is either queued or
        has been freed, once. */
    ghost predicate Valid()
      reads this
    {
      && Ok() && busy == IDLE
      && n > MAX_FRAGS
      && Balanced(owned, dropped, log.accepted, None)
    }

    /** Ring initialisation: no ownership bit, WRAP on the last descriptor. */
    constructor (n: nat, mclbytes: nat, storeAndForward: bool)
      requires n > MAX_FRAGS
      ensures Valid()
      ensures log.accepted == [] && dropped == [] && owned == multiset{}
      ensures this.n == n && inuse == 0 && sendQueue == [] && !txFull
    {
      this.n, this.mclbytes, this.storeAndForward := n, mclbytes, storeAndForward;
      bd := seq(n, i => Bd(0, 0, false, i == n - 1, false, false));
      pkts := seq(n, i => None);
      pidx, cidx, inuse, sendQueue, txFull := 0, 0, 0, [], false;
      mac := Mac(0, 0, false, [], 0);
      log, busy := Log([], [], 0, []), IDLE;
      owned, dropped := multiset{}, [];
    }

    /** The MAC runs: any number of any of its steps. */
    method Interfere()
      requires Ok()
      modifies this`bd, this`mac
      ensures Ok() && old(mac).done <= mac.done
      ensures MacFrame(old(bd), bd, old(mac), mac, log)
    {
      hide Slot, Inv;
      var steps: nat := *;
      InvSizes(View());
      while steps > 0
        invariant Ok()
        invariant |bd| == n > 0
        invariant MacFrame(old(bd), bd, old(mac), mac, log)
      {
        var a: MacStep := *;
        InvSizes(View());
        if !storeAndForward || StoreForward(mac, a) {
          MacKeepsInv(View(), a);
          if storeAndForward {
            StoreForwardKeeps(bd, mac, a);
          }
          var r := MacApply(bd, mac, a);
          bd, mac := r.0, r.1;
        }
        steps := steps - 1;
      }
    }

    // ---- mx6q_tx ----

    /** Counting the fragments of a chain. */
    method CountFragments(m: Packet) returns (count: nat)
      ensures count == Fragments(m.frags)
    {
      count := 0;
      for i := 0 to |m.frags|
        invariant count == Fragments(m.frags[..i])
      {
        assert m.frags[..i + 1][..i] == m.frags[..i];
        if m.frags[i].len != 0 {
          count := count + (if m.frags[i].aligned then 1 else MAX_FRAGS + 1);
        }
      }
      assert m.frags[..|m.frags|] == m.frags;
    }

    /** mx6q_last_bd_active, by which the ISR decides to start the MAC again. */
    method LastBdActive() returns (active: bool)
      requires Ok()
      ensures active <==>
        if busy.advanced && busy.descs != [] then |busy.descs| > 1
        else mac.done + (if mac.updating then 1 else 0) < |log.descs|
    {
      hide Inv;
      InvSizes(View());
      TxModel.LastBdActive(View());
      var idx := pidx;
      if idx != 0 {
        idx := idx - 1;
      } else {
        idx := n - 1;
      }
      active := bd[idx].ready;
    }

    /** A packet comes into the transmit path. */
    method Acquire(m: Packet)
      requires Balanced(owned, dropped, log.accepted, None)
      modifies this`owned
      ensures Balanced(owned, dropped, log.accepted, Some(m)) && owned == old(owned) + multiset{m}
    {
      owned := owned + multiset{m};
    }

    /** m_freem on the packet in hand. */
    method Drop(m: Packet)
      requires Balanced(owned, dropped, log.accepted, Some(m))
      modifies this`dropped
      ensures Balanced(owned, dropped, log.accepted, None) && dropped == old(dropped) + [m]
    {
      dropped := dropped + [m];
    }

    /** mx6q_defrag. dup is what m_dup returns for the chain, cluster what m_getcl returns:
        the id and address of a fresh cluster. The original is freed in every case. */
    method Defrag(m: Packet, dup: Option<Packet>, cluster: Option<(nat, nat)>) returns (r: Option<Packet>)
      requires dup.Some? ==> Len(dup.value.frags) == Len(m.frags)
      requires Balanced(owned, dropped, log.accepted, Some(m))
      modifies this`owned, this`dropped
      ensures r.Some? ==> Len(r.value.frags) == Len(m.frags) && |Loaded(r.value.frags)| <= MAX_FRAGS
      ensures Balanced(owned, dropped, log.accepted, r) && old(owned) <= owned
      ensures old(dropped) + [m] <= dropped
    {
      if Len(m.frags) > mclbytes {
        Drop(m);
        if dup.None? {
          return None;
        }
        Acquire(dup.value);
        if |dup.value.frags| > MAX_FRAGS {
          Drop(dup.value);
          return None;
        }
        return dup;
      }
      if cluster.None? {
        Drop(m);
        return None;
      }
      var frags := [Frag(cluster.value.1, Len(m.frags), true)];
      assert frags[..0] == [];
      var copy := Packet(cluster.value.0, frags);
      Drop(m);
      Acquire(copy);
      return Some(copy);
    }

    /** A store to the descriptor at the load position, which stays not READY; then the MAC runs. */
    method Fill(idx: nat, b: Bd)
      requires Ok() && !busy.dirty && LoadPos(View()) < log.consumed + n && idx == Slot(LoadPos(View()), n)
      requires |bd| == n && b.wrap == bd[idx].wrap && IsFree(b, false)
      modifies this`bd, this`mac
      ensures Ok() && |bd| == n && bd[idx] == b
    {
      hide Slot, Inv, WholeFrames;
      FillKeepsInv(View(), b);
      InvSizes(View());
      bd := bd[idx := b];
      Interfere();
    }

    /** One turn of the load loop: buffer, length and, unless first, READY. */
    method LoadDescriptor(m: Packet, f: Frag, idx: nat, first: bool, ghost l: seq<Frag>)
      requires Ok() && busy == IDLE.(descs := Unfinished(l, m)) && first == (l == [])
      requires |log.descs| + |l| + 1 < log.consumed + n
      requires idx == Slot(|log.descs| + |l|, n)
      modifies this`bd, this`mac, this`busy
      ensures Ok() && busy == IDLE.(descs := Unfinished(l + [f], m))
    {
      hide Slot, Inv, WholeFrames;
      InvSizes(View());
      LoadPosIsFree(View());
      if bd[idx].ready {
        assert false;  // "Tx descriptors hit end"
      }
      Fill(idx, bd[idx].(buffer := f.addr));
      Fill(idx, bd[idx].(length := f.len));
      ghost var d := Desc(Fetch(f.addr, f.len, false), l == [], m);
      assert Unfinished(l, m) + [d] == Unfinished(l + [f], m);
      if first {
        ExtendKeepsInv(View(), d, bd[idx]);
        assert bd[idx := bd[idx]] == bd;
      } else {
        ExtendKeepsInv(View(), d, bd[idx].(ready := true));
        bd := bd[idx := bd[idx].(ready := true)];
      }
      busy := busy.(descs := busy.descs + [d]);
    }

    /** The load loop over the chain. */
    method LoadFrame(m: Packet) returns (idx: nat, last: nat, count: nat)
      requires Ok() && busy == IDLE && Loaded(m.frags) != []
      requires inuse + |Loaded(m.frags)| < n
      modifies this`bd, this`mac, this`busy
      ensures Ok() && busy == IDLE.(descs := Unfinished(Loaded(m.frags), m))
      ensures count == |Loaded(m.frags)|
      ensures idx == Slot(|log.descs| + count, n) && last == Slot(|log.descs| + count - 1, n)
    {
      hide Slot, Inv, WholeFrames, MacFrame, Loaded, Next;
      IdleIndices(View());
      idx, last, count := pidx, pidx, 0;
      ghost var l := [];
      LoadedNone(m.frags);
      for i := 0 to |m.frags|
        invariant Ok() && busy == IDLE.(descs := Unfinished(l, m))
        invariant n > 0 && count == |l| && l == Loaded(m.frags[..i])
        invariant idx == Slot(|log.descs| + count, n)
        invariant count > 0 ==> last == Slot(|log.descs| + count - 1, n)
      {
        LoadedNext(m.frags, i);
        LoadedPrefix(m.frags, i + 1);
        if m.frags[i].len != 0 {
          LoadDescriptor(m, m.frags[i], idx, count == 0, l);
          Interfere();
          SlotNext(|log.descs| + count, n);
          last, idx, count := idx, Next(idx, n), count + 1;
          l := l + [m.frags[i]];
        }
      }
      assert m.frags[..|m.frags|] == m.frags;
    }

    /** The bookkeeping stores: tx_descr_inuse, tx_pkts and tx_pidx. */
    method Record(m: Packet, idx: nat, count: nat)
      requires Ok() && Loaded(m.frags) != [] && count == |Loaded(m.frags)|
      requires busy == IDLE.(descs := Unfinished(Loaded(m.frags), m))
      requires idx == Slot(|log.descs| + count, n)
      modifies this`bd, this`mac, this`busy, this`inuse, this`pkts, this`pidx
      ensures Ok() && busy == Busy(Unfinished(Loaded(m.frags), m), true, true, true, false)
      ensures inuse == old(inuse) + count && pidx == idx
    {
      hide Slot, Inv, WholeFrames;
      CountKeepsInv(View());
      inuse := inuse + count;
      busy := busy.(counted := true);
      Interfere();
      InvSizes(View());
      HoldKeepsInv(View());
      assert pkts[pidx] == None;  // no packet is overwritten
      pkts := pkts[pidx := Some(m)];
      busy := busy.(stored := true);
      Interfere();
      AdvanceKeepsInv(View());
      pidx := idx;
      busy := busy.(advanced := true);
    }

    /** The stores that start transmission: LAST in the last descriptor, then READY in the first. */
    method Publish(m: Packet, first: nat, last: nat)
      requires Ok() && Loaded(m.frags) != []
      requires busy == Busy(Unfinished(Loaded(m.frags), m), true, true, true, false)
      requires first == Slot(|log.descs|, n) && last == Slot(|log.descs| + |Loaded(m.frags)| - 1, n)
      modifies this`bd, this`mac, this`busy, this`log
      ensures Ok() && busy == IDLE
      ensures log == old(log).(accepted := old(log).accepted + [m], descs := old(log).descs + Descs(m))
    {
      hide Slot, Inv, WholeFrames, Descs;
      InvSizes(View());
      Finishing(m);
      OneDescriptor(|log.descs|, |Loaded(m.frags)|, n);
      if first == last {
        PublishOneKeepsInv(View(), m);
        bd := bd[last := bd[last].(ready := true, last := true)];
      } else {
        LastKeepsInv(View());
        bd := bd[last := bd[last].(last := true)];
        busy := busy.(descs := WithLast(busy.descs));
        Interfere();
        InvSizes(View());
        PublishKeepsInv(View(), m);
        bd := bd[first := bd[first].(ready := true)];
      }
      log := log.(accepted := log.accepted + [m], descs := log.descs + Descs(m));
      busy := IDLE;
    }

    /** The start of mx6q_tx: the packet as it is, or its copy if it has too many fragments. */
    method Prepare(m: Packet, dup: Option<Packet>, cluster: Option<(nat, nat)>) returns (r: Option<Packet>)
      requires Loaded(m.frags) != []
      requires dup.Some? ==> Len(dup.value.frags) == Len(m.frags)
      requires Balanced(owned, dropped, log.accepted, None)
      modifies this`owned, this`dropped
      ensures Balanced(owned, dropped, log.accepted, r) && old(owned) + multiset{m} <= owned
      ensures r.Some? ==> Len(r.value.frags) == Len(m.frags) && 0 < |Loaded(r.value.frags)| <= MAX_FRAGS
      ensures Fragments(m.frags) <= MAX_FRAGS ==> r == Some(m) && dropped == old(dropped)
      ensures Fragments(m.frags) > MAX_FRAGS ==> old(dropped) + [m] <= dropped
    {
      hide Balanced, Loaded, Fragments, Len;
      Acquire(m);
      NonEmptyIffLoaded(m.frags);
      var count := CountFragments(m);
      if count > MAX_FRAGS {
        r := Defrag(m, dup, cluster);
        if r.Some? {
          NonEmptyIffLoaded(r.value.frags);
        }
      } else {
        r := Some(m);
      }
    }

    /** The rest of mx6q_tx: load, record, publish. */
    method Queue(m: Packet)
      requires Ok() && busy == IDLE && Loaded(m.frags) != []
      requires inuse + |Loaded(m.frags)| < n && Balanced(owned, dropped, log.accepted, Some(m))
      modifies this`bd, this`mac, this`busy, this`inuse, this`pkts, this`pidx, this`log
      ensures Ok() && busy == IDLE && Balanced(owned, dropped, log.accepted, None)
      ensures log == old(log).(accepted := old(log).accepted + [m], descs := old(log).descs + Descs(m))
      ensures inuse == old(inuse) + |Loaded(m.frags)|
    {
      hide Slot, Inv, WholeFrames, Descs, Loaded;
      IdleIndices(View());
      var first := pidx;
      var idx, last, count := LoadFrame(m);
      Interfere();
      Record(m, idx, count);
      Interfere();
      Publish(m, first, last);
    }

    /** mx6q_tx: the packet is queued; or freed, and its copy queued if there is one. */
    method Transmit(m: Packet, dup: Option<Packet>, cluster: Option<(nat, nat)>)
        returns (err: Errno, ghost queued: Packet)
      requires Valid() && Loaded(m.frags) != []
      requires n - inuse > MAX_FRAGS
      requires dup.Some? ==> Len(dup.value.frags) == Len(m.frags)
      modifies this`bd, this`mac, this`busy, this`inuse, this`pkts, this`pidx, this`log, this`owned, this`dropped
      ensures Valid()
      ensures err == EOK || err == ENOMEM
      ensures old(owned) + multiset{m} <= owned
      ensures log.accepted == old(log).accepted + (if err == EOK then [queued] else [])
      ensures log.reaped == old(log).reaped
      ensures err == EOK ==> Len(queued.frags) == Len(m.frags)
      ensures Fragments(m.frags) <= MAX_FRAGS ==> err == EOK && queued == m && dropped == old(dropped)
      ensures Fragments(m.frags) > MAX_FRAGS ==> old(dropped) + [m] <= dropped
    {
      hide Slot, Inv, WholeFrames, Descs, Loaded, Fragments, Len, Balanced;
      var r := Prepare(m, dup, cluster);
      if r.Some? {
        Queue(r.value);
        err, queued := EOK, r.value;
      } else {
        err, queued := ENOMEM, m;
      }
    }

    // ---- mx6q_transmit_complete ----

    /** A store to the reaped descriptor; then the MAC runs. */
    method Reset(idx: nat, b: Bd)
      requires Ok() && busy.dirty && |bd| == n && idx == cidx < n && b.wrap == bd[idx].wrap && !b.ready
      modifies this`bd, this`mac
      ensures Ok() && |bd| == n && bd[idx] == b && old(mac).done <= mac.done
    {
      hide Slot, Inv, WholeFrames;
      ResetKeepsInv(View(), b);
      bd := bd[idx := b];
      DirtySlot(View());
      Interfere();
    }

    /** One descriptor: free its packet, reset it, and move tx_cidx on. */
    method ReapOne()
      requires Ok() && busy == IDLE && log.consumed < mac.done
      modifies this`bd, this`mac, this`pkts, this`busy, this`log, this`inuse, this`cidx
      ensures Ok() && busy == IDLE && log.consumed <= |log.descs|
      ensures old(log).consumed < |old(log).descs| && log == ReapLog(old(log))
      ensures inuse == old(inuse) - 1 && old(mac).done <= mac.done
    {
      hide Slot, Inv, WholeFrames, Firsts, MacFrame;
      InvSizes(View());
      var idx := cidx;
      ReapKeepsInv(View());
      var m := pkts[idx];
      pkts := pkts[idx := None];
      // m_freem(m), if there is one
      log := log.(consumed := log.consumed + 1, reaped := log.reaped + (if m.Some? then [m.value] else []));
      busy := IDLE.(dirty := true);
      Interfere();
      DirtySlot(View());
      Reset(idx, bd[idx].(ready := false, last := false));
      Reset(idx, bd[idx].(bdu := false));
      ReapEndKeepsInv(View());
      inuse := inuse - 1;
      cidx := Next(idx, n);
      busy := IDLE;
      InvSizes(View());
    }

    /** mx6q_transmit_complete: reap, oldest first, at least every descriptor the MAC had
        given back at the call. */
    method TransmitComplete()
      requires Valid()
      modifies this`bd, this`mac, this`pkts, this`busy, this`log, this`inuse, this`cidx
      ensures Valid()
      ensures log.accepted == old(log).accepted && log.descs == old(log).descs
      ensures old(log).reaped <= log.reaped
      ensures inuse <= old(inuse) && old(mac).done <= log.consumed
    {
      hide Slot, Inv, WholeFrames, Firsts, Flat, Balanced;
      IdleIndices(View());
      InvSizes(View());
      while pidx != cidx
        invariant Valid()
        invariant log.accepted == old(log).accepted && log.descs == old(log).descs
        invariant old(log).reaped <= log.reaped
        invariant inuse <= old(inuse) && old(mac).done <= mac.done
        invariant |bd| == n && cidx < n
        decreases inuse
      {
        EqualMeansEmpty(View());
        ghost var before := View();
        var status := bd[cidx];
        Interfere();
        InvSizes(View());
        ReapTestRace(before, View());
        if status.ready || (status.last && !bd[cidx].bdu) {
          return;  // the MAC still owned this descriptor
        }
        ReapOne();
        InvSizes(View());
      }
      EqualMeansEmpty(View());
      InvSizes(View());
    }

    // ---- mx6q_start and mx6q_output ----

    /** The space test made before every packet: reap if no more than a frame's worth is free. */
    method HasSpace() returns (ok: bool)
      requires Valid()
      modifies this`bd, this`mac, this`pkts, this`busy, this`log, this`inuse, this`cidx
      ensures Valid() && ok == (n - inuse > MAX_FRAGS)
      ensures log.accepted == old(log).accepted && old(log).reaped <= log.reaped
      ensures !ok ==> old(mac).done <= log.consumed
    {
      hide Inv, WholeFrames, Flat, Balanced;
      if n - inuse <= MAX_FRAGS {
        TransmitComplete();
      }
      ok := n - inuse > MAX_FRAGS;
    }

    /** IFQ_PURGE: free everything waiting. */
    method Purge()
      requires Valid()
      modifies this`sendQueue, this`owned, this`dropped
      ensures Valid() && sendQueue == [] && log == old(log)
      ensures dropped == old(dropped) + old(sendQueue) && owned == old(owned) + multiset(old(sendQueue))
    {
      hide Inv, WholeFrames;
      owned, dropped := owned + multiset(sendQueue), dropped + sendQueue;
      sendQueue := [];
    }

    /** The packet at the head of the send queue is handed to mx6q_tx. */
    method StartOne()
      requires Valid() && Sendable(sendQueue) && sendQueue != [] && n - inuse > MAX_FRAGS
      modifies this
      ensures Valid() && sendQueue == old(sendQueue)[1..] && txFull == old(txFull)
      ensures old(log).accepted <= log.accepted && log.reaped == old(log).reaped
      ensures old(owned) + multiset{old(sendQueue)[0]} <= owned
      ensures Fragments(old(sendQueue)[0].frags) <= MAX_FRAGS ==>
        log.accepted == old(log).accepted + [old(sendQueue)[0]] && dropped == old(dropped)
    {
      hide Inv, WholeFrames, Balanced, Fragments;
      var m := sendQueue[0];
      sendQueue := sendQueue[1..];
      var dup: Option<Packet> :| dup.Some? ==> Len(dup.value.frags) == Len(m.frags);
      var cluster: Option<(nat, nat)> := *;
      var err, queued := Transmit(m, dup, cluster);
    }

    /** mx6q_start: queue packets until none waits or the ring is full. */
    method Start(up: bool) returns (ghost taken: seq<Packet>)
      requires Valid() && Sendable(sendQueue)
      modifies this
      ensures Valid() && Sendable(sendQueue)
      ensures old(sendQueue) == taken + sendQueue
      ensures !up ==> sendQueue == [] && log == old(log)
      ensures up ==> sendQueue == [] || (txFull && n - inuse <= MAX_FRAGS)
      ensures old(log).accepted <= log.accepted && old(log).reaped <= log.reaped
      ensures old(owned) + multiset(taken) <= owned
      ensures up && Simple(taken) ==> log.accepted == old(log).accepted + taken && dropped == old(dropped)
    {
      hide Inv, WholeFrames, Loaded, Balanced, Fragments, Simple;
      taken := [];
      if !up {
        taken := sendQueue;
        Purge();
        return;
      }
      while true
        invariant Valid() && Sendable(sendQueue)
        invariant old(sendQueue) == taken + sendQueue
        invariant old(log).accepted <= log.accepted && old(log).reaped <= log.reaped
        invariant old(owned) + multiset(taken) <= owned
        invariant Simple(taken) ==> log.accepted == old(log).accepted + taken && dropped == old(dropped)
        decreases |sendQueue|
      {
        var ok := HasSpace();
        if !ok {
          txFull := true;
          return;
        }
        if sendQueue == [] {
          return;
        }
        SimpleNext(taken, sendQueue[0]);
        taken := taken + [sendQueue[0]];
        StartOne();
      }
    }

    /** A packet that finds no room is freed at once. */
    method Refuse(m: Packet)
      requires Valid()
      modifies this`owned, this`dropped
      ensures Valid() && dropped == old(dropped) + [m] && owned == old(owned) + multiset{m}
    {
      hide Inv, WholeFrames, Balanced;
      Acquire(m);
      Drop(m);
    }

    /** mx6q_output: priorities 0 and 1 go to the stack; any other packet is queued here, or
        freed if there is no room. direct tells which. */
    method Output(m: Packet, priority: nat, aligned: bool, dup: Option<Packet>, cluster: Option<(nat, nat)>)
        returns (direct: bool, err: Errno)
      requires Valid() && |m.frags| > 0 && m.frags[0].addr >= 14
      requires dup.Some? ==> Len(dup.value.frags) == Len(WithHeader(m, aligned).frags)
      modifies this`bd, this`mac, this`pkts, this`busy, this`log, this`inuse, this`pidx, this`cidx, this`owned,
        this`dropped
      ensures Valid() && (direct <==> priority > 1)
      ensures !direct ==> View() == old(View()) && owned == old(owned) && dropped == old(dropped)
      ensures old(log).accepted <= log.accepted && old(log).reaped <= log.reaped
      ensures var full := WithHeader(m, aligned);
        direct ==>
        match err
        case ENOBUFS =>
          && n - inuse <= MAX_FRAGS && old(mac).done <= log.consumed && log.accepted == old(log).accepted
          && dropped == old(dropped) + [m] && owned == old(owned) + multiset{m}
        case ENOMEM =>
          && Fragments(full.frags) > MAX_FRAGS && log.accepted == old(log).accepted
          && old(dropped) + [full] <= dropped && old(owned) + multiset{full} <= owned
        case EOK =>
          && |log.accepted| == |old(log).accepted| + 1 && old(owned) + multiset{full} <= owned
          && (Fragments(full.frags) <= MAX_FRAGS ==>
            log.accepted == old(log).accepted + [full] && dropped == old(dropped))
          && (Fragments(full.frags) > MAX_FRAGS ==> old(dropped) + [full] <= dropped)
    {
      hide Inv, WholeFrames, Balanced, Loaded, Fragments, Len, WithHeader;
      if priority <= 1 {
        return false, EOK;
      }
      direct := true;
      var ok := HasSpace();
      if !ok {
        Refuse(m);
        return direct, ENOBUFS;
      }
      var full := WithHeader(m, aligned);
      HeaderLoads(full.frags);
      ghost var queued;
      err, queued := Transmit(full, dup, cluster);
    }
  }

  /** What holds of the queue between any two calls, however the calls and the MAC were
      interleaved before. */
  lemma {:induction false} Guarantees(q: TxQueue)
    requires q.Valid()
    ensures q.cidx < q.n && q.pidx < q.n
    ensures q.inuse == Distance(q.cidx, q.pidx, q.n) <= q.n - 1
    ensures FetchedPrefix(q.mac.fetched, Flat(q.log.accepted))
    ensures q.log.reaped <= q.log.accepted
    ensures q.owned == multiset(q.dropped) + multiset(q.log.reaped) + multiset(Pending(q.log))
    ensures q.storeAndForward ==> |Flat(q.log.reaped)| <= |q.mac.fetched|
  {
    Accounting(q.View());
    FetchedWasPublished(q.View());
    ReapedInOrder(q.log);
    assert q.log.accepted == q.log.reaped + Pending(q.log);
    if q.storeAndForward {
      FreedAfterFetch(q.View());
    }
  }
}
