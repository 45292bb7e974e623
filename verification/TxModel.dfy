/** Transmit descriptor ring shared by the driver and the MAC
    (src/hardware/devnp/mx6x/transmit.c): the state, the MAC's steps and the
    invariant that every store of the driver and every step of the MAC keeps. */
module TxModel {
  import opened Options
  import opened Ring

  /** One mbuf of a chain. */
  datatype Frag = Frag(addr: nat, len: nat, aligned: bool)

  /** An mbuf chain; id tells two packets with equal contents apart. */
  datatype Packet = Packet(id: nat, frags: seq<Frag>)

  /** The bits of mpc_bd_t that carry the protocol: TXBD_R, TXBD_W, TXBD_L, BD_BDU. */
  datatype Bd = Bd(buffer: nat, length: nat, ready: bool, wrap: bool, last: bool, bdu: bool)

  /** What the MAC reads when it fetches a descriptor. */
  datatype Fetch = Fetch(buffer: nat, length: nat, last: bool)

  /** A descriptor as the driver means it. */
  datatype Desc = Desc(fetch: Fetch, first: bool, pkt: Packet)

  /** tx_pidx, tx_cidx and tx_descr_inuse. */
  datatype Driver = Driver(pidx: nat, cidx: nat, inuse: nat)

  /** The MAC: its two ring positions, whether it has yet to set BDU in the frame's last
      descriptor, every fetch so far, and how many descriptors it has given back. */
  datatype Mac = Mac(fetchIdx: nat, releaseIdx: nat, updating: bool, fetched: seq<Fetch>, done: nat)

  /** History: packets published, their descriptors, how many of these are reaped, and
      the packets freed by reaping; all in order. */
  datatype Log = Log(accepted: seq<Packet>, descs: seq<Desc>, consumed: nat, reaped: seq<Packet>)

  /** What the driver is in the middle of: the descriptors loaded for the frame not yet
      published, which bookkeeping stores of that frame are done, and whether the
      descriptor just reaped is still being reset. */
  datatype Busy = Busy(descs: seq<Desc>, counted: bool, stored: bool, advanced: bool, dirty: bool)

  const IDLE := Busy([], false, false, false, false)

  /** The whole transmit queue; n is num_tx_descriptors. */
  datatype Tx = Tx(n: nat, bd: seq<Bd>, pkts: seq<Option<Packet>>, drv: Driver, mac: Mac, log: Log, busy: Busy)

  // ---- frames and descriptors ----

  /** mx6q_tx skips zero-length fragments. */
  function Loaded(frags: seq<Frag>): (l: seq<Frag>)
    ensures |l| <= |frags|
  {
    if frags == [] then []
    else
      var f := frags[|frags| - 1];
      Loaded(frags[..|frags| - 1]) + (if f.len != 0 then [f] else [])
  }

  /** The descriptors of a packet: LAST on the final one only. */
  function Descs(m: Packet): (ds: seq<Desc>)
    ensures |ds| == |Loaded(m.frags)|
  {
    var l := Loaded(m.frags);
    seq(|l|, j requires 0 <= j < |l| => Desc(Fetch(l[j].addr, l[j].len, j == |l| - 1), j == 0, m))
  }

  /** The descriptors of a sequence of packets. */
  function Flat(ms: seq<Packet>): seq<Desc> {
    if ms == [] then [] else Flat(ms[..|ms| - 1]) + Descs(ms[|ms| - 1])
  }

  /** The packets whose first descriptor is in ds. */
  function Firsts(ds: seq<Desc>): seq<Packet> {
    if ds == [] then []
    else Firsts(ds[..|ds| - 1]) + (if ds[|ds| - 1].first then [ds[|ds| - 1].pkt] else [])
  }

  lemma {:induction false} FirstsAppend(a: seq<Desc>, b: seq<Desc>)
    ensures Firsts(a + b) == Firsts(a) + Firsts(b)
  {
    if b == [] {
      assert a + b == a;
    } else {
      FirstsAppend(a, b[..|b| - 1]);
      assert (a + b)[..|a + b| - 1] == a + b[..|b| - 1];
    }
  }

  lemma {:induction false} FirstsOfTail(ds: seq<Desc>)
    requires forall j | 0 <= j < |ds| :: !ds[j].first
    ensures Firsts(ds) == []
  {
    if ds != [] {
      FirstsOfTail(ds[..|ds| - 1]);
    }
  }

  lemma {:induction false} FirstsOfPacket(m: Packet)
    requires Loaded(m.frags) != []
    ensures Firsts(Descs(m)) == [m]
  {
    var ds := Descs(m);
    assert ds == ds[..1] + ds[1..];
    FirstsAppend(ds[..1], ds[1..]);
    FirstsOfTail(ds[1..]);
    assert ds[..1][..0] == [];
    assert Firsts(ds[..1]) == [m];
  }

  /** Every packet has something to send. */
  ghost predicate Sendable(ms: seq<Packet>) {
    forall i | 0 <= i < |ms| :: Loaded(ms[i].frags) != []
  }

  lemma {:induction false} FirstsJoin(a: seq<Desc>, b: seq<Desc>, ms: seq<Packet>, m: Packet)
    requires Firsts(a) == ms && Firsts(b) == [m]
    ensures Firsts(a + b) == ms + [m]
  {
    FirstsAppend(a, b);
  }

  /** Flattening loses no packet and keeps the order. */
  lemma {:induction false} FirstsOfFlat(ms: seq<Packet>)
    requires Sendable(ms)
    ensures Firsts(Flat(ms)) == ms
  {
    if ms != [] {
      var k := |ms| - 1;
      var a, b := Flat(ms[..k]), Descs(ms[k]);
      assert Firsts(a) == ms[..k] by { FirstsOfFlat(ms[..k]); }
      assert Firsts(b) == [ms[k]] by { FirstsOfPacket(ms[k]); }
      FirstsJoin(a, b, ms[..k], ms[k]);
      assert ms == ms[..k] + [ms[k]];
    }
  }

  lemma {:induction false} FlatAppend(ms: seq<Packet>, m: Packet)
    ensures Flat(ms + [m]) == Flat(ms) + Descs(m)
  {
    assert (ms + [m])[..|ms|] == ms;
  }

  // ---- the invariant ----

  predicate Matches(b: Bd, f: Fetch) {
    b.buffer == f.buffer && b.length == f.length && b.last == f.last
  }

  /** The used part of the ring never fills it. */
  ghost predicate RingNotFull(n: nat, log: Log, busy: Busy) {
    && log.consumed <= |log.descs|
    && |log.descs| + |busy.descs| + (if busy.dirty then 1 else 0) < log.consumed + n
    && (busy.dirty ==> busy.descs == [] && log.consumed > 0)
  }

  /** The indices and the count stored by the driver. */
  ghost predicate DriverIndices(n: nat, drv: Driver, log: Log, busy: Busy)
    requires RingNotFull(n, log, busy)
  {
    && drv.pidx == Slot(|log.descs| + (if busy.advanced then |busy.descs| else 0), n)
    && drv.cidx == Slot(log.consumed - (if busy.dirty then 1 else 0), n)
    && drv.inuse == |log.descs| - log.consumed
         + (if busy.counted then |busy.descs| else 0) + (if busy.dirty then 1 else 0)
  }

  ghost predicate MacPosition(n: nat, mac: Mac, log: Log)
    requires n > 0
  {
    && log.consumed <= mac.done <= |mac.fetched| <= |log.descs|
    && (mac.updating ==> mac.done < |mac.fetched| && log.descs[mac.done].fetch.last)
    && mac.fetchIdx == Slot(|mac.fetched|, n) && mac.releaseIdx == Slot(mac.done, n)
  }

  ghost predicate Wraps(bd: seq<Bd>) {
    forall i | 0 <= i < |bd| :: bd[i].wrap == (i == |bd| - 1)
  }

  /** A published descriptor is intact; READY says that the MAC has not given it back,
      and a returned LAST descriptor has BDU. */
  predicate InWindow(b: Bd, d: Desc, i: nat, done: nat, updating: bool) {
    && Matches(b, d.fetch)
    && b.ready == (i > done || (i == done && !updating))
    && (i >= done ==> !b.bdu)
    && (i < done && b.last ==> b.bdu)
  }

  ghost predicate Window(bd: seq<Bd>, descs: seq<Desc>, lo: nat, done: nat, updating: bool)
    requires |bd| > 0
  {
    forall i {:trigger Slot(i, |bd|)} | lo <= i < |descs| :: InWindow(bd[Slot(i, |bd|)], descs[i], i, done, updating)
  }

  /** Descriptors of the frame being loaded, from position p: READY on all but the first. */
  ghost predicate Loading(bd: seq<Bd>, p: nat, cur: seq<Desc>)
    requires |bd| > 0
  {
    forall i {:trigger Slot(i, |bd|)} | p <= i < p + |cur| ::
      var b := bd[Slot(i, |bd|)];
      Matches(b, cur[i - p].fetch) && b.ready == (i > p) && !b.bdu
  }

  predicate IsFree(b: Bd, dirty: bool) {
    !b.ready && (dirty || (!b.last && !b.bdu))
  }

  /** Free descriptors own nothing; the one being reset (dirty) is at least not READY. */
  ghost predicate Free(bd: seq<Bd>, lo: nat, hi: nat, dirty: bool)
    requires |bd| > 0
  {
    forall i {:trigger Slot(i, |bd|)} | lo <= i < hi :: IsFree(bd[Slot(i, |bd|)], dirty && i == hi - 1)
  }

  /** A slot holds a packet exactly when it is the first descriptor of a pending frame. */
  ghost predicate Holders(pkts: seq<Option<Packet>>, log: Log, busy: Busy)
    requires |pkts| > 0
  {
    forall i {:trigger Slot(i, |pkts|)} | log.consumed <= i < log.consumed + |pkts| ::
      pkts[Slot(i, |pkts|)] ==
        if i < |log.descs| then (if log.descs[i].first then Some(log.descs[i].pkt) else None)
        else if i == |log.descs| && busy.stored && busy.descs != [] then Some(busy.descs[0].pkt)
        else None
  }

  /** The MAC has fetched a prefix of the published descriptors, exactly as published. */
  ghost predicate FetchedPrefix(fetched: seq<Fetch>, descs: seq<Desc>) {
    && |fetched| <= |descs|
    && forall i | 0 <= i < |fetched| :: fetched[i] == descs[i].fetch
  }

  ghost predicate History(log: Log) {
    && log.descs == Flat(log.accepted)
    && Sendable(log.accepted)
    && log.consumed <= |log.descs|
    && log.reaped == Firsts(log.descs[..log.consumed])
  }

  ghost predicate Inv(s: Tx) {
    && s.n > 0 && |s.bd| == s.n && |s.pkts| == s.n
    && RingNotFull(s.n, s.log, s.busy)
    && DriverIndices(s.n, s.drv, s.log, s.busy)
    && MacPosition(s.n, s.mac, s.log)
    && Wraps(s.bd)
    && Window(s.bd, s.log.descs, s.log.consumed, s.mac.done, s.mac.updating)
    && Loading(s.bd, |s.log.descs|, s.busy.descs)
    && Free(s.bd, |s.log.descs| + |s.busy.descs|, s.log.consumed + s.n, s.busy.dirty)
    && Holders(s.pkts, s.log, s.busy)
    && FetchedPrefix(s.mac.fetched, s.log.descs)
    && History(s.log)
  }

  // ---- steps of the MAC ----

  datatype MacStep = DoFetch | DoRelease(bdu: bool) | DoUpdate

  /** A step works on the shared descriptors and the MAC's own state only. */
  function MacApply(bd: seq<Bd>, mac: Mac, a: MacStep): (r: (seq<Bd>, Mac))
    requires mac.fetchIdx < |bd| && mac.releaseIdx < |bd|
    ensures |r.0| == |bd|
  {
    match a
    case DoFetch => (bd, MacFetch(bd, mac))
    case DoRelease(bdu) => MacRelease(bd, mac, bdu)
    case DoUpdate => MacUpdate(bd, mac)
  }

  function Step(b: Bd, idx: nat): nat {
    if b.wrap then 0 else idx + 1
  }

  /** Fetch the descriptor at the MAC's position if it is READY and not already held. */
  function MacFetch(bd: seq<Bd>, mac: Mac): Mac
    requires mac.fetchIdx < |bd|
  {
    var b := bd[mac.fetchIdx];
    if b.ready && |mac.fetched| < mac.done + |bd| then
      mac.(fetched := mac.fetched + [Fetch(b.buffer, b.length, b.last)], fetchIdx := Step(b, mac.fetchIdx))
    else mac
  }

  /** Give back the oldest fetched descriptor: clear READY. The frame's last descriptor
      is only finished by MacUpdate; bdu is what the MAC leaves in the others. */
  function MacRelease(bd: seq<Bd>, mac: Mac, bdu: bool): (r: (seq<Bd>, Mac))
    requires mac.releaseIdx < |bd|
    ensures |r.0| == |bd|
  {
    if mac.done < |mac.fetched| && !mac.updating then
      var b := bd[mac.releaseIdx];
      if mac.fetched[mac.done].last then
        (bd[mac.releaseIdx := b.(ready := false)], mac.(updating := true))
      else
        (bd[mac.releaseIdx := b.(ready := false, bdu := bdu)],
         mac.(releaseIdx := Step(b, mac.releaseIdx), done := mac.done + 1))
    else (bd, mac)
  }

  /** Set BDU in the frame's last descriptor. */
  function MacUpdate(bd: seq<Bd>, mac: Mac): (r: (seq<Bd>, Mac))
    requires mac.releaseIdx < |bd|
    ensures |r.0| == |bd|
  {
    if mac.updating then
      var b := bd[mac.releaseIdx];
      (bd[mac.releaseIdx := b.(bdu := true)],
       mac.(releaseIdx := Step(b, mac.releaseIdx), done := mac.done + 1, updating := false))
    else (bd, mac)
  }

  /** What the MAC leaves alone: every descriptor outside the published window; and it
      never takes back a fetch or a returned descriptor. */
  ghost predicate MacFrame(bd: seq<Bd>, bd': seq<Bd>, mac: Mac, mac': Mac, log: Log)
    requires |bd| > 0
  {
    && |bd'| == |bd|
    && mac.done <= mac'.done
    && (mac.updating && !mac'.updating ==> mac.done < mac'.done)
    && mac.fetched <= mac'.fetched
    && (forall i {:trigger Slot(i, |bd|)} | |log.descs| <= i < log.consumed + |bd| ::
      bd'[Slot(i, |bd|)] == bd[Slot(i, |bd|)])
  }

  lemma {:induction false} WrapStep(bd: seq<Bd>, i: nat)
    requires |bd| > 0 && Wraps(bd)
    ensures (if bd[Slot(i, |bd|)].wrap then 0 else Slot(i, |bd|) + 1) == Slot(i + 1, |bd|)
  {
    hide Slot;
    SlotNext(i, |bd|);
  }

  /** A store to one descriptor of the ring leaves the others of the lap alone. */
  lemma {:induction false} StoreElsewhere(bd: seq<Bd>, k: nat, b: Bd, lo: nat)
    requires |bd| > 0 && lo <= k < lo + |bd|
    ensures bd[Slot(k, |bd|) := b][Slot(k, |bd|)] == b
    ensures forall i {:trigger Slot(i, |bd|)} | lo <= i < lo + |bd| && i != k ::
      bd[Slot(k, |bd|) := b][Slot(i, |bd|)] == bd[Slot(i, |bd|)]
  {
    hide Slot;
    SlotAlone(k, lo, |bd|);
  }

  /** The MAC never fetches past the last published frame: the first descriptor of the
      frame being loaded is not READY, and neither is a free one. */
  lemma {:induction false} FetchStaysBehind(s: Tx)
    requires Inv(s) && s.bd[s.mac.fetchIdx].ready
    ensures |s.mac.fetched| < |s.log.descs|
  {
    hide Slot;
    assert s.mac.fetchIdx == Slot(|s.mac.fetched|, s.n);
  }

  lemma {:induction false} FetchedGrows(fetched: seq<Fetch>, descs: seq<Desc>, f: Fetch)
    requires FetchedPrefix(fetched, descs) && |fetched| < |descs| && f == descs[|fetched|].fetch
    ensures FetchedPrefix(fetched + [f], descs)
  {
  }

  lemma {:induction false} FetchKeepsInv(s: Tx)
    requires Inv(s)
    ensures Inv(s.(mac := MacFetch(s.bd, s.mac)))
  {
    hide Slot, Free, Loading, Holders, Wraps, History, FetchedPrefix;
    var f := |s.mac.fetched|;
    var b := s.bd[s.mac.fetchIdx];
    if b.ready {
      FetchStaysBehind(s);
      WrapStep(s.bd, f);
      assert InWindow(s.bd[Slot(f, s.n)], s.log.descs[f], f, s.mac.done, s.mac.updating);
      FetchedGrows(s.mac.fetched, s.log.descs, Fetch(b.buffer, b.length, b.last));
    }
  }

  /** A store inside the window does not disturb the rest of the ring. */
  lemma {:induction false} WindowStore(s: Tx, k: nat, b: Bd)
    requires Inv(s) && s.log.consumed <= k < |s.log.descs|
    requires b.wrap == s.bd[Slot(k, s.n)].wrap
    ensures var bd := s.bd[Slot(k, s.n) := b];
      && Wraps(bd)
      && Loading(bd, |s.log.descs|, s.busy.descs)
      && Free(bd, |s.log.descs| + |s.busy.descs|, s.log.consumed + s.n, s.busy.dirty)
      && (forall i {:trigger Slot(i, s.n)} | s.log.consumed <= i < s.log.consumed + s.n && i != k ::
        bd[Slot(i, s.n)] == s.bd[Slot(i, s.n)])
  {
    hide Slot;
    StoreElsewhere(s.bd, k, b, s.log.consumed);
  }

  /** The MAC's position moves on over the one descriptor it has stored to. */
  lemma {:induction false} WindowMoves(bd: seq<Bd>, bd': seq<Bd>, descs: seq<Desc>, lo: nat, mac: Mac, mac': Mac)
    requires |bd| == |bd'| > 0 && lo <= mac.done < |descs| < lo + |bd|
    requires Window(bd, descs, lo, mac.done, mac.updating)
    requires (mac'.done == mac.done && mac'.updating) || (mac'.done == mac.done + 1 && !mac'.updating)
    requires InWindow(bd'[Slot(mac.done, |bd|)], descs[mac.done], mac.done, mac'.done, mac'.updating)
    requires forall i {:trigger Slot(i, |bd|)} | lo <= i < lo + |bd| && i != mac.done ::
      bd'[Slot(i, |bd|)] == bd[Slot(i, |bd|)]
    ensures Window(bd', descs, lo, mac'.done, mac'.updating)
  {
    hide Slot;
    forall i {:trigger Slot(i, |bd'|)} | lo <= i < |descs|
      ensures InWindow(bd'[Slot(i, |bd'|)], descs[i], i, mac'.done, mac'.updating)
    {
      assert InWindow(bd[Slot(i, |bd|)], descs[i], i, mac.done, mac.updating);
    }
  }

  lemma {:induction false} ReleaseKeepsInv(s: Tx, bdu: bool)
    requires Inv(s)
    ensures var (bd, mac) := MacRelease(s.bd, s.mac, bdu);
      Inv(s.(bd := bd, mac := mac)) && MacFrame(s.bd, bd, s.mac, mac, s.log)
  {
    hide Slot, Free, Loading, Holders, Wraps, History;
    var (bd, mac) := MacRelease(s.bd, s.mac, bdu);
    var k := s.mac.done;
    if k < |s.mac.fetched| && !s.mac.updating {
      assert InWindow(s.bd[Slot(k, s.n)], s.log.descs[k], k, k, s.mac.updating);
      assert s.mac.fetched[k] == s.log.descs[k].fetch;
      WindowStore(s, k, bd[s.mac.releaseIdx]);
      WrapStep(s.bd, k);
      WindowMoves(s.bd, bd, s.log.descs, s.log.consumed, s.mac, mac);
    }
  }

  lemma {:induction false} UpdateKeepsInv(s: Tx)
    requires Inv(s)
    ensures var (bd, mac) := MacUpdate(s.bd, s.mac);
      Inv(s.(bd := bd, mac := mac)) && MacFrame(s.bd, bd, s.mac, mac, s.log)
  {
    hide Slot, Free, Loading, Holders, Wraps, History;
    var (bd, mac) := MacUpdate(s.bd, s.mac);
    var k := s.mac.done;
    if s.mac.updating {
      assert InWindow(s.bd[Slot(k, s.n)], s.log.descs[k], k, k, s.mac.updating);
      WindowStore(s, k, bd[s.mac.releaseIdx]);
      WrapStep(s.bd, k);
      WindowMoves(s.bd, bd, s.log.descs, s.log.consumed, s.mac, mac);
    }
  }

  /** Any step of the MAC, at any point of the driver's code. */
  lemma {:induction false} MacKeepsInv(s: Tx, a: MacStep)
    requires Inv(s)
    ensures var (bd, mac) := MacApply(s.bd, s.mac, a);
      Inv(s.(bd := bd, mac := mac)) && MacFrame(s.bd, bd, s.mac, mac, s.log)
  {
    hide Slot;
    match a
    case DoFetch => FetchKeepsInv(s);
    case DoRelease(bdu) => ReleaseKeepsInv(s, bdu);
    case DoUpdate => UpdateKeepsInv(s);
  }

  // ---- stores of the driver: loading a frame ----

  /** The position the driver loads next. */
  function LoadPos(s: Tx): nat { |s.log.descs| + |s.busy.descs| }

  /** A store outside the window leaves it alone. */
  lemma {:induction false} OutsideStore(s: Tx, k: nat, b: Bd)
    requires Inv(s) && |s.log.descs| <= k < s.log.consumed + s.n
    requires b.wrap == s.bd[Slot(k, s.n)].wrap
    ensures var bd := s.bd[Slot(k, s.n) := b];
      && Wraps(bd)
      && Window(bd, s.log.descs, s.log.consumed, s.mac.done, s.mac.updating)
      && bd[Slot(k, s.n)] == b
      && (forall i {:trigger Slot(i, s.n)} | s.log.consumed <= i < s.log.consumed + s.n && i != k ::
        bd[Slot(i, s.n)] == s.bd[Slot(i, s.n)])
  {
    hide Slot;
    StoreElsewhere(s.bd, k, b, s.log.consumed);
  }

  /** Storing the buffer or the length of a descriptor that is not READY yet. */
  lemma {:induction false} FillKeepsInv(s: Tx, b: Bd)
    requires Inv(s) && LoadPos(s) < s.log.consumed + s.n && !s.busy.dirty
    requires b.wrap == s.bd[Slot(LoadPos(s), s.n)].wrap && IsFree(b, false)
    ensures Inv(s.(bd := s.bd[Slot(LoadPos(s), s.n) := b]))
  {
    hide Slot;
    OutsideStore(s, LoadPos(s), b);
  }

  /** Two descriptor arrays agree on the positions lo..hi of a lap. */
  ghost predicate SameOn(bd: seq<Bd>, bd': seq<Bd>, lo: nat, hi: nat)
    requires |bd| == |bd'| > 0
  {
    forall i {:trigger Slot(i, |bd|)} | lo <= i < hi :: bd'[Slot(i, |bd|)] == bd[Slot(i, |bd|)]
  }

  lemma {:induction false} FreeSame(bd: seq<Bd>, bd': seq<Bd>, lo: nat, lo': nat, hi: nat, dirty: bool)
    requires |bd| == |bd'| > 0 && lo <= lo'
    requires Free(bd, lo, hi, dirty) && SameOn(bd, bd', lo', hi)
    ensures Free(bd', lo', hi, dirty)
  {
    hide Slot;
  }

  lemma {:induction false} LoadingExtends(bd: seq<Bd>, bd': seq<Bd>, p: nat, cur: seq<Desc>, d: Desc)
    requires |bd| == |bd'| > 0 && Loading(bd, p, cur) && SameOn(bd, bd', p, p + |cur|)
    requires var b := bd'[Slot(p + |cur|, |bd|)];
      Matches(b, d.fetch) && b.ready == (|cur| > 0) && !b.bdu
    ensures Loading(bd', p, cur + [d])
  {
    hide Slot;
  }

  lemma {:induction false} LoadingLast(bd: seq<Bd>, bd': seq<Bd>, p: nat, cur: seq<Desc>)
    requires |bd| == |bd'| > 0 && cur != [] && Loading(bd, p, cur)
    requires SameOn(bd, bd', p, p + |cur| - 1)
    requires var k := Slot(p + |cur| - 1, |bd|); bd'[k] == bd[k].(last := true)
    ensures Loading(bd', p, WithLast(cur))
  {
    hide Slot;
  }

  /** A frame whose first descriptor becomes READY moves from Loading to Window. */
  lemma {:induction false} WindowGrows(bd: seq<Bd>, bd': seq<Bd>, descs: seq<Desc>, cur: seq<Desc>, lo: nat,
      done: nat, updating: bool)
    requires |bd| == |bd'| > 0 && cur != [] && done <= |descs| && (updating ==> done < |descs|)
    requires Window(bd, descs, lo, done, updating) && Loading(bd, |descs|, cur)
    requires SameOn(bd, bd', lo, |descs|) && SameOn(bd, bd', |descs| + 1, |descs| + |cur|)
    requires var k := Slot(|descs|, |bd|); bd'[k] == bd[k].(ready := true)
    ensures Window(bd', descs + cur, lo, done, updating)
  {
    hide Slot;
    var all := descs + cur;
    forall i {:trigger Slot(i, |bd'|)} | lo <= i < |all|
      ensures InWindow(bd'[Slot(i, |bd'|)], all[i], i, done, updating)
    {
      if i < |descs| {
        assert InWindow(bd[Slot(i, |bd|)], descs[i], i, done, updating);
      } else {
        assert all[i] == cur[i - |descs|];
      }
    }
  }

  lemma {:induction false} FreeGrows(bd: seq<Bd>, lo: nat, hi: nat)
    requires |bd| > 0 && Free(bd, lo, hi, false) && !bd[Slot(hi, |bd|)].ready
    ensures Free(bd, lo, hi + 1, true)
  {
    hide Slot;
  }

  lemma {:induction false} HoldersReap(pkts: seq<Option<Packet>>, log: Log)
    requires |pkts| > 0 && log.consumed < |log.descs| <= log.consumed + |pkts| && Holders(pkts, log, IDLE)
    ensures Holders(pkts[Slot(log.consumed, |pkts|) := None], ReapLog(log), IDLE.(dirty := true))
  {
    hide Slot;
    SlotLap(log.consumed, |pkts|);
    SlotAlone(log.consumed, log.consumed, |pkts|);
  }

  lemma {:induction false} HistoryReap(log: Log)
    requires History(log) && log.consumed < |log.descs|
    ensures History(ReapLog(log))
  {
    var c := log.consumed;
    assert log.descs[..c + 1][..c] == log.descs[..c];
  }

  /** The descriptor at the load position joins the frame: READY unless it is the first. */
  lemma {:induction false} ExtendKeepsInv(s: Tx, d: Desc, b: Bd)
    requires Inv(s) && !s.busy.dirty && !s.busy.counted && !s.busy.stored && !s.busy.advanced
    requires LoadPos(s) + 1 < s.log.consumed + s.n
    requires b.wrap == s.bd[Slot(LoadPos(s), s.n)].wrap
    requires Matches(b, d.fetch) && b.ready == (s.busy.descs != []) && !b.bdu
    ensures Inv(s.(bd := s.bd[Slot(LoadPos(s), s.n) := b], busy := s.busy.(descs := s.busy.descs + [d])))
  {
    hide Slot, Window, Free, Loading, Wraps, History, FetchedPrefix;
    OutsideStore(s, LoadPos(s), b);
    var bd, p := s.bd[Slot(LoadPos(s), s.n) := b], |s.log.descs|;
    LoadingExtends(s.bd, bd, p, s.busy.descs, d);
    FreeSame(s.bd, bd, LoadPos(s), LoadPos(s) + 1, s.log.consumed + s.n, false);
  }

  /** tx_descr_inuse += num_frag. */
  lemma {:induction false} CountKeepsInv(s: Tx)
    requires Inv(s) && !s.busy.dirty && !s.busy.counted
    ensures Inv(s.(drv := s.drv.(inuse := s.drv.inuse + |s.busy.descs|), busy := s.busy.(counted := true)))
  {
    hide Slot;
  }

  /** tx_pkts[tx_pidx] = m: the slot was empty. */
  lemma {:induction false} HoldKeepsInv(s: Tx)
    requires Inv(s) && s.busy.descs != [] && !s.busy.dirty && !s.busy.advanced && !s.busy.stored
    ensures s.pkts[s.drv.pidx] == None
    ensures Inv(s.(pkts := s.pkts[s.drv.pidx := Some(s.busy.descs[0].pkt)], busy := s.busy.(stored := true)))
  {
    hide Slot;
    SlotAlone(|s.log.descs|, s.log.consumed, s.n);
  }

  /** tx_pidx = idx. */
  lemma {:induction false} AdvanceKeepsInv(s: Tx)
    requires Inv(s) && !s.busy.dirty && !s.busy.advanced
    ensures Inv(s.(drv := s.drv.(pidx := Slot(LoadPos(s), s.n)), busy := s.busy.(advanced := true)))
  {
    hide Slot;
  }

  /** The same descriptors with LAST on the final one. */
  function WithLast(ds: seq<Desc>): (r: seq<Desc>)
    requires ds != []
    ensures |r| == |ds|
  {
    var k := |ds| - 1;
    ds[k := ds[k].(fetch := ds[k].fetch.(last := true))]
  }

  /** Setting LAST in the final descriptor of a frame of several. */
  lemma {:induction false} LastKeepsInv(s: Tx)
    requires Inv(s) && |s.busy.descs| > 1 && !s.busy.dirty
    ensures var k := Slot(LoadPos(s) - 1, s.n);
      Inv(s.(bd := s.bd[k := s.bd[k].(last := true)], busy := s.busy.(descs := WithLast(s.busy.descs))))
  {
    hide Slot, Window, Free, Loading, Wraps, History, FetchedPrefix;
    var p := LoadPos(s) - 1;
    var b := s.bd[Slot(p, s.n)].(last := true);
    var bd := s.bd[Slot(p, s.n) := b];
    OutsideStore(s, p, b);
    LoadingLast(s.bd, bd, |s.log.descs|, s.busy.descs);
    FreeSame(s.bd, bd, p + 1, p + 1, s.log.consumed + s.n, false);
  }

  /** Setting READY in the first descriptor publishes the whole frame. */
  lemma {:induction false} PublishKeepsInv(s: Tx, m: Packet)
    requires Inv(s) && s.busy.counted && s.busy.stored && s.busy.advanced && !s.busy.dirty
    requires Loaded(m.frags) != []
    requires s.busy.descs == Descs(m)
    ensures var k := Slot(|s.log.descs|, s.n);
      Inv(s.(bd := s.bd[k := s.bd[k].(ready := true)],
             log := s.log.(accepted := s.log.accepted + [m], descs := s.log.descs + s.busy.descs),
             busy := IDLE))
  {
    hide Slot, Window, Free, Holders, Wraps, Matches, Descs, History;
    var p := |s.log.descs|;
    var b := s.bd[Slot(p, s.n)].(ready := true);
    OutsideStore(s, p, b);
    var bd := s.bd[Slot(p, s.n) := b];
    var descs := s.log.descs + s.busy.descs;
    WindowGrows(s.bd, bd, s.log.descs, s.busy.descs, s.log.consumed, s.mac.done, s.mac.updating);
    FreeSame(s.bd, bd, |descs|, |descs|, s.log.consumed + s.n, false);
    PublishHistory(s.log, m);
    PublishHolders(s, m);
  }

  lemma {:induction false} PublishHistory(log: Log, m: Packet)
    requires History(log) && Loaded(m.frags) != []
    ensures History(log.(accepted := log.accepted + [m], descs := log.descs + Descs(m)))
  {
    FlatAppend(log.accepted, m);
    assert (log.descs + Descs(m))[..log.consumed] == log.descs[..log.consumed];
  }

  lemma {:induction false} PublishHolders(s: Tx, m: Packet)
    requires Inv(s) && s.busy.stored && s.busy.descs == Descs(m) && s.busy.descs != []
    ensures Holders(s.pkts, s.log.(accepted := s.log.accepted + [m], descs := s.log.descs + s.busy.descs), IDLE)
  {
    hide Slot;
  }

  /** A frame of one descriptor gets READY and LAST in the same store. */
  lemma {:induction false} PublishOneKeepsInv(s: Tx, m: Packet)
    requires Inv(s) && s.busy.counted && s.busy.stored && s.busy.advanced && !s.busy.dirty
    requires |s.busy.descs| == 1 && WithLast(s.busy.descs) == Descs(m)
    ensures var k := Slot(|s.log.descs|, s.n);
      Inv(s.(bd := s.bd[k := s.bd[k].(ready := true, last := true)],
             log := s.log.(accepted := s.log.accepted + [m], descs := s.log.descs + WithLast(s.busy.descs)),
             busy := IDLE))
  {
    hide Slot, Window, Free, Loading, Wraps, History, FetchedPrefix, Descs;
    var p := |s.log.descs|;
    var k := Slot(p, s.n);
    OutsideStore(s, p, s.bd[k].(last := true));
    var t := s.(bd := s.bd[k := s.bd[k].(last := true)], busy := s.busy.(descs := WithLast(s.busy.descs)));
    LoadingLast(s.bd, t.bd, p, s.busy.descs);
    FreeSame(s.bd, t.bd, p + 1, p + 1, s.log.consumed + s.n, false);
    PublishKeepsInv(t, m);
    assert t.bd[k := t.bd[k].(ready := true)] == s.bd[k := s.bd[k].(ready := true, last := true)];
  }

  // ---- stores of the driver: reaping ----

  /** mx6q_transmit_complete's test on the oldest descriptor: neither READY, nor LAST
      without BDU. It says that the MAC has given the descriptor back. */
  lemma {:induction false} ReapTest(s: Tx)
    requires Inv(s) && s.busy == IDLE && s.log.consumed < |s.log.descs|
    ensures s.drv.cidx == Slot(s.log.consumed, s.n)
    ensures var b := s.bd[s.drv.cidx];
      s.log.consumed < s.mac.done <==> !(b.ready || (b.last && !b.bdu))
  {
    hide Slot;
    var i := s.log.consumed;
    assert InWindow(s.bd[Slot(i, s.n)], s.log.descs[i], i, s.mac.done, s.mac.updating);
  }

  /** The status word and the BDU word are read one after the other, with the MAC running
      in between: the test passes only if the MAC has given the descriptor back, and fails
      only if it had not when the status was read. */
  lemma {:induction false} ReapTestRace(s: Tx, t: Tx)
    requires Inv(s) && s.busy == IDLE && s.log.consumed < |s.log.descs|
    requires Inv(t) && t == s.(bd := t.bd, mac := t.mac) && MacFrame(s.bd, t.bd, s.mac, t.mac, s.log)
    ensures if s.bd[s.drv.cidx].ready || (s.bd[s.drv.cidx].last && !t.bd[s.drv.cidx].bdu)
            then s.mac.done <= s.log.consumed else t.log.consumed < t.mac.done
  {
    hide Slot;
    var i := s.log.consumed;
    assert InWindow(s.bd[Slot(i, s.n)], s.log.descs[i], i, s.mac.done, s.mac.updating);
    assert InWindow(t.bd[Slot(i, s.n)], s.log.descs[i], i, t.mac.done, t.mac.updating);
  }

  /** Freeing the packet, if this is a first descriptor, and starting to reset it. */
  function ReapLog(log: Log): Log
    requires log.consumed < |log.descs|
  {
    var d := log.descs[log.consumed];
    log.(consumed := log.consumed + 1, reaped := log.reaped + (if d.first then [d.pkt] else []))
  }

  lemma {:induction false} ReapKeepsInv(s: Tx)
    requires Inv(s) && s.busy == IDLE && s.log.consumed < s.mac.done
    ensures s.pkts[s.drv.cidx] ==
      (if s.log.descs[s.log.consumed].first then Some(s.log.descs[s.log.consumed].pkt) else None)
    ensures Inv(s.(pkts := s.pkts[s.drv.cidx := None], log := ReapLog(s.log), busy := IDLE.(dirty := true)))
  {
    hide Slot, Free, Loading, Wraps, History, FetchedPrefix;
    var c := s.log.consumed;
    assert InWindow(s.bd[Slot(c, s.n)], s.log.descs[c], c, s.mac.done, s.mac.updating);
    SlotLap(c, s.n);
    FreeGrows(s.bd, |s.log.descs|, c + s.n);
    HoldersReap(s.pkts, s.log);
    HistoryReap(s.log);
  }

  /** Resetting the status word or the BDU word of the reaped descriptor. */
  lemma {:induction false} ResetKeepsInv(s: Tx, b: Bd)
    requires Inv(s) && s.busy.dirty
    requires b.wrap == s.bd[s.drv.cidx].wrap && !b.ready
    ensures Inv(s.(bd := s.bd[s.drv.cidx := b]))
  {
    hide Slot;
    var k := s.log.consumed - 1 + s.n;
    SlotLap(s.log.consumed - 1, s.n);
    OutsideStore(s, k, b);
  }

  /** tx_descr_inuse-- and tx_cidx = NEXT_TX(idx). */
  lemma {:induction false} ReapEndKeepsInv(s: Tx)
    requires Inv(s) && s.busy.dirty && IsFree(s.bd[s.drv.cidx], false)
    ensures s.drv.inuse > 0
    ensures Inv(s.(drv := Driver(s.drv.pidx, Next(s.drv.cidx, s.n), s.drv.inuse - 1), busy := s.busy.(dirty := false)))
  {
    hide Slot;
    SlotLap(s.log.consumed - 1, s.n);
    SlotNext(s.log.consumed - 1, s.n);
  }

  // ---- what the invariant says ----

  /** The indices count descriptors queued and reaped, modulo N. */
  lemma {:induction false} IndicesAreResidues(s: Tx)
    requires Inv(s) && s.busy == IDLE
    ensures s.n > 0 && s.drv.pidx == |s.log.descs| % s.n && s.drv.cidx == s.log.consumed % s.n
  {
    SlotIsMod(|s.log.descs|, s.n);
    SlotIsMod(s.log.consumed, s.n);
  }

  /** tx_descr_inuse is (pidx - cidx) mod N and at most N - 1, so equal indices mean an
      empty ring. */
  lemma {:induction false} Accounting(s: Tx)
    requires Inv(s) && s.busy == IDLE
    ensures s.drv.pidx < s.n && s.drv.cidx < s.n
    ensures s.drv.inuse == Distance(s.drv.cidx, s.drv.pidx, s.n) <= s.n - 1
    ensures s.drv.pidx == s.drv.cidx <==> s.drv.inuse == 0
  {
    SlotDistance(s.log.consumed, |s.log.descs|, s.n);
  }

  /** The descriptor before the producer index is READY exactly while the MAC has not given
      back everything published (or holds descriptors of a frame about to be published). */
  lemma {:induction false} LastBdActive(s: Tx)
    requires Inv(s)
    ensures s.drv.pidx < s.n
    ensures s.bd[if s.drv.pidx != 0 then s.drv.pidx - 1 else s.n - 1].ready <==>
      if s.busy.advanced && s.busy.descs != [] then |s.busy.descs| > 1
      else s.mac.done + (if s.mac.updating then 1 else 0) < |s.log.descs|
  {
    hide Slot, History, Holders, FetchedPrefix, Wraps, Flat;
    var p := |s.log.descs| + if s.busy.advanced then |s.busy.descs| else 0;
    var last := p + s.n - 1;
    SlotNext(last, s.n);
    SlotLap(p, s.n);
    if p > 0 { SlotLap(p - 1, s.n); }
    if p == s.log.consumed {
      assert IsFree(s.bd[Slot(last, s.n)], s.busy.dirty && last == s.log.consumed + s.n - 1);
    } else if !s.busy.advanced || s.busy.descs == [] {
      assert InWindow(s.bd[Slot(p - 1, s.n)], s.log.descs[p - 1], p - 1, s.mac.done, s.mac.updating);
    }
  }

  /** READY is only ever set inside the in-use part of the ring. */
  lemma {:induction false} ReadyInUse(s: Tx, k: nat) returns (i: nat)
    requires Inv(s) && k < s.n && s.bd[k].ready
    ensures s.log.consumed <= i < |s.log.descs| + |s.busy.descs| && Slot(i, s.n) == k
  {
    i := SlotCovers(s.log.consumed, s.n, k);
  }

  /** Publication safety: whatever the driver is in the middle of, all that the MAC has
      ever fetched is a prefix of the descriptors of the published packets, each with its
      final buffer, length and LAST bit; nothing of the frame being loaded is in it. */
  lemma {:induction false} FetchedWasPublished(s: Tx)
    requires Inv(s)
    ensures |s.mac.fetched| <= |Flat(s.log.accepted)|
    ensures forall i | 0 <= i < |s.mac.fetched| :: s.mac.fetched[i] == Flat(s.log.accepted)[i].fetch
  {
  }

  lemma {:induction false} FirstsOfPrefix(ds: seq<Desc>, c: nat)
    requires c <= |ds|
    ensures Firsts(ds[..c]) <= Firsts(ds)
  {
    hide Firsts;
    FirstsAppend(ds[..c], ds[c..]);
    assert ds == ds[..c] + ds[c..];
  }

  /** Reaped packets are freed in queueing order, each once. */
  lemma {:induction false} ReapedInOrder(log: Log)
    requires History(log)
    ensures log.reaped <= log.accepted
  {
    FirstsOfFlat(log.accepted);
    FirstsOfPrefix(log.descs, log.consumed);
  }

  /** The packets queued and not yet freed. */
  function Pending(log: Log): seq<Packet>
    requires log.reaped <= log.accepted
  {
    log.accepted[|log.reaped|..]
  }

  // ---- a MAC in store-and-forward mode ----

  /** A LAST descriptor has been fetched at or after position i. */
  predicate LastFrom(fetched: seq<Fetch>, i: nat) {
    exists j | i <= j < |fetched| :: fetched[j].last
  }

  /** The frame of the oldest unreturned descriptor has been fetched to its end. */
  predicate FrameFetched(mac: Mac) {
    LastFrom(mac.fetched, mac.done)
  }

  /** A MAC that gives a descriptor back only after fetching the whole frame. */
  predicate StoreForward(mac: Mac, a: MacStep) {
    a.DoRelease? && mac.done < |mac.fetched| && !mac.updating ==> FrameFetched(mac)
  }

  /** Every descriptor given back lies in a frame fetched to its end. */
  ghost predicate WholeFrames(mac: Mac) {
    && mac.done <= |mac.fetched|
    && (mac.updating ==> FrameFetched(mac))
    && forall i | 0 <= i < mac.done :: LastFrom(mac.fetched, i)
  }

  lemma {:induction false} LastAhead(fetched: seq<Fetch>, more: seq<Fetch>, i: nat)
    requires fetched <= more && LastFrom(fetched, i)
    ensures LastFrom(more, i)
  {
    var j :| i <= j < |fetched| && fetched[j].last;
    assert more[j].last;
  }

  lemma {:induction false} StoreForwardKeeps(bd: seq<Bd>, mac: Mac, a: MacStep)
    requires mac.fetchIdx < |bd| && mac.releaseIdx < |bd| && WholeFrames(mac) && StoreForward(mac, a)
    ensures WholeFrames(MacApply(bd, mac, a).1)
  {
    var mac' := MacApply(bd, mac, a).1;
    forall i | 0 <= i && LastFrom(mac.fetched, i)
      ensures LastFrom(mac'.fetched, i)
    {
      LastAhead(mac.fetched, mac'.fetched, i);
    }
  }

  lemma {:induction false} FlatPrefix(ms: seq<Packet>, r: nat)
    requires r <= |ms|
    ensures Flat(ms[..r]) <= Flat(ms)
  {
    if r < |ms| {
      var k := |ms| - 1;
      FlatPrefix(ms[..k], r);
      assert ms[..k][..r] == ms[..r];
    } else {
      assert ms[..r] == ms;
    }
  }

  /** c descriptors of the packets ms begin at most |ms| packets. */
  lemma {:induction false} FirstsWithin(ds: seq<Desc>, ms: seq<Packet>, c: nat)
    requires Sendable(ms) && Flat(ms) <= ds && c <= |Flat(ms)|
    ensures |Firsts(ds[..c])| <= |ms|
  {
    FirstsOfPrefix(Flat(ms), c);
    FirstsOfFlat(ms);
    assert ds[..c] == Flat(ms)[..c];
  }

  /** A LAST bit at or after the start of a packet is at or after its end. */
  lemma {:induction false} LastEndsPacket(ds: seq<Desc>, ms: seq<Packet>, m: Packet, j: nat)
    requires Flat(ms) + Descs(m) <= ds && |Flat(ms)| <= j < |ds| && ds[j].fetch.last
    ensures |Flat(ms) + Descs(m)| <= j + 1
  {
    if j < |Flat(ms) + Descs(m)| {
      assert ds[j] == Descs(m)[j - |Flat(ms)|];
    }
  }

  /** The packet reaped last has been reached by the reaper. */
  lemma {:induction false} LastReaped(log: Log, ms: seq<Packet>, m: Packet)
    requires History(log) && log.reaped == ms + [m]
    ensures Flat(ms) + Descs(m) == Flat(log.reaped) <= log.descs
    ensures |Flat(ms)| < log.consumed
  {
    var r := |log.reaped|;
    ReapedInOrder(log);
    assert log.accepted[..r] == log.reaped && log.accepted[..r - 1] == ms;
    FlatPrefix(log.accepted, r);
    FlatPrefix(log.accepted, r - 1);
    FlatAppend(ms, m);
    if log.consumed <= |Flat(ms)| {
      FirstsWithin(log.descs, ms, log.consumed);
    }
  }

  /** Under that mode a packet is freed only after the MAC has fetched all of its
      descriptors, so it never reads the buffers of a freed packet. */
  lemma {:induction false} FreedAfterFetch(s: Tx)
    requires Inv(s) && WholeFrames(s.mac)
    ensures |Flat(s.log.reaped)| <= |s.mac.fetched|
  {
    hide Slot, Window, Free, Loading, Holders, Wraps, DriverIndices, Descs, Firsts;
    var log := s.log;
    if log.reaped != [] {
      var r := |log.reaped| - 1;
      var ms, m := log.reaped[..r], log.reaped[r];
      assert log.reaped == ms + [m];
      LastReaped(log, ms, m);
      assert LastFrom(s.mac.fetched, |Flat(ms)|);
      var j :| |Flat(ms)| <= j < |s.mac.fetched| && s.mac.fetched[j].last;
      LastEndsPacket(log.descs, ms, m, j);
    }
  }
}
