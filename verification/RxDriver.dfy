/** The receive path of the driver (src/hardware/devnp/mx6x/receive.c) for one queue:
    mx6q_add_pkt and mx6q_receive, with the MAC running between any two stores and the
    stack thread emptying the queue. */
module RxDriver {
  import opened Options
  import opened Ring
  import opened RxModel

  /** One mbuf of a chain, with m_len. */
  datatype Frag = Frag(id: nat, len: int)

  /** A reassembled frame, with m_pkthdr.len. */
  datatype Frame = Frame(frags: seq<Frag>, total: int)

  /** A descriptor the driver has worked on: kept for a frame, or dropped because of an
      error or for want of a new mbuf. */
  datatype Event = Event(seg: Seg, kept: bool)

  // ---- what the descriptors mean ----

  function Sum(frags: seq<Frag>): int {
    if frags == [] then 0 else Sum(frags[..|frags| - 1]) + frags[|frags| - 1].len
  }

  function Segs(ev: seq<Event>): (segs: seq<Seg>)
    ensures |segs| == |ev|
  {
    seq(|ev|, i requires 0 <= i < |ev| => ev[i].seg)
  }

  /** The chain of the frame in progress. */
  function Partial(ev: seq<Event>): seq<Frag> {
    if ev == [] then []
    else
      var e := ev[|ev| - 1];
      if !e.kept || e.seg.part.last then [] else Partial(ev[..|ev| - 1]) + [Frag(e.seg.buf, e.seg.part.len)]
  }

  /** A chain closed by the mbuf of the last descriptor, whose length field is total. */
  function Closed(chain: seq<Frag>, id: nat, total: int): Frame {
    Frame(chain + [Frag(id, total - Sum(chain))], total)
  }

  /** The frames completed, in order. */
  function Frames(ev: seq<Event>): seq<Frame> {
    if ev == [] then []
    else
      var k := |ev| - 1;
      var e := ev[k];
      Frames(ev[..k]) +
        if e.kept && e.seg.part.last then [Closed(Partial(ev[..k]), e.seg.buf, Field(Segs(ev), k))] else []
  }

  /** The descriptors of the frame in progress start here. */
  function Start(ev: seq<Event>): (lo: nat)
    ensures lo <= |ev|
  {
    if ev == [] then 0
    else if !ev[|ev| - 1].kept || ev[|ev| - 1].seg.part.last then |ev|
    else Start(ev[..|ev| - 1])
  }

  /** Positions of the descriptors that completed a frame. */
  function Ends(ev: seq<Event>): seq<nat> {
    if ev == [] then []
    else
      var k := |ev| - 1;
      Ends(ev[..k]) + if ev[k].kept && ev[k].seg.part.last then [k] else []
  }

  /** Descriptors lo..k, all kept and only the last one marked LAST, after the end of a
      frame or a dropped descriptor. */
  ghost predicate IsRun(ev: seq<Event>, lo: nat, k: nat) {
    && lo <= k < |ev|
    && (forall i | lo <= i <= k :: ev[i].kept && ev[i].seg.part.last == (i == k))
    && (lo == 0 || ev[lo - 1].seg.part.last || !ev[lo - 1].kept)
  }

  /** Bytes of the hardware's frame that arrived before position lo. */
  function Before(ev: seq<Event>, lo: nat): nat
    requires lo <= |ev|
  {
    Acc(Segs(ev)[..lo])
  }

  /** The frame of a run: its mbufs are the ones the MAC filled, in order, its lengths are
      the hardware's except that the last fragment also takes whatever came before the run. */
  ghost predicate Describes(f: Frame, ev: seq<Event>, lo: nat, k: nat)
    requires lo <= k < |ev|
  {
    && |f.frags| == k - lo + 1
    && (forall i | lo <= i <= k :: f.frags[i - lo] ==
          Frag(ev[i].seg.buf, ev[i].seg.part.len + if i == k then Before(ev, lo) else 0))
    && f.total == Before(ev, k) + ev[k].seg.part.len
    && f.total == Sum(f.frags)
  }

  lemma {:induction false} BeforeNext(ev: seq<Event>, k: nat)
    requires k < |ev|
    ensures Before(ev, k + 1) == if ev[k].seg.part.last then 0 else Before(ev, k) + ev[k].seg.part.len
  {
    assert Segs(ev)[..k + 1] == Segs(ev)[..k] + [ev[k].seg];
    AccNext(Segs(ev)[..k], ev[k].seg);
  }

  lemma {:induction false} BeforePrefix(ev: seq<Event>, k: nat, lo: nat)
    requires lo <= k <= |ev|
    ensures Before(ev[..k], lo) == Before(ev, lo)
  {
    assert Segs(ev[..k])[..lo] == Segs(ev)[..lo];
  }

  /** The open chain is the run of kept descriptors since Start. */
  ghost predicate Open(ev: seq<Event>) {
    var lo, c := Start(ev), Partial(ev);
    && |c| == |ev| - lo
    && (forall i | lo <= i < |ev| ::
      ev[i].kept && !ev[i].seg.part.last && c[i - lo] == Frag(ev[i].seg.buf, ev[i].seg.part.len))
    && (lo == 0 || ev[lo - 1].seg.part.last || !ev[lo - 1].kept)
    && Before(ev, |ev|) == Before(ev, lo) + Sum(c)
  }

  lemma {:induction false} IsOpen(ev: seq<Event>)
    ensures Open(ev)
  {
    if ev != [] {
      var k := |ev| - 1;
      var e := ev[k];
      if e.kept && !e.seg.part.last {
        IsOpen(ev[..k]);
        OpenNext(ev);
      }
    }
  }

  lemma {:induction false} OpenNext(ev: seq<Event>)
    requires ev != [] && ev[|ev| - 1].kept && !ev[|ev| - 1].seg.part.last && Open(ev[..|ev| - 1])
    ensures Open(ev)
  {
    hide Acc, Before, Sum;
    var k := |ev| - 1;
    var lo := Start(ev);
    BeforeNext(ev, k);
    BeforePrefix(ev, k, k);
    BeforePrefix(ev, k, lo);
    var c, d := Partial(ev[..k]), Frag(ev[k].seg.buf, ev[k].seg.part.len);
    assert Partial(ev) == c + [d];
    SumNext(c, d);
  }

  lemma {:induction false} SumNext(c: seq<Frag>, d: Frag)
    ensures Sum(c + [d]) == Sum(c) + d.len
  {
    assert (c + [d])[..|c|] == c;
  }

  /** The frame closed at k. */
  lemma {:induction false} ClosedDescribes(ev: seq<Event>, k: nat)
    requires k < |ev| && ev[k].kept && ev[k].seg.part.last
    ensures IsRun(ev, Start(ev[..k]), k)
    ensures Describes(Closed(Partial(ev[..k]), ev[k].seg.buf, Field(Segs(ev), k)), ev, Start(ev[..k]), k)
  {
    hide Acc, Start, Partial;
    IsOpen(ev[..k]);
    var lo, c := Start(ev[..k]), Partial(ev[..k]);
    BeforePrefix(ev, k, k);
    BeforePrefix(ev, k, lo);
    var f := Closed(c, ev[k].seg.buf, Field(Segs(ev), k));
    assert f.frags[..|c|] == c;
  }

  lemma {:induction false} EndsMatch(ev: seq<Event>)
    ensures |Frames(ev)| == |Ends(ev)|
    ensures forall i | 0 <= i < |Ends(ev)| :: Ends(ev)[i] < |ev|
  {
    if ev != [] { EndsMatch(ev[..|ev| - 1]); }
  }

  /** Every kept LAST descriptor completes a frame. */
  lemma {:induction false} EndsAll(ev: seq<Event>, k: nat)
    requires k < |ev| && ev[k].kept && ev[k].seg.part.last
    ensures k in Ends(ev)
  {
    if k < |ev| - 1 { EndsAll(ev[..|ev| - 1], k); }
  }

  /** Every completed frame is the frame of one run. */
  lemma {:induction false} FrameIsRun(ev: seq<Event>, i: nat)
    requires i < |Ends(ev)|
    ensures |Frames(ev)| == |Ends(ev)| && Ends(ev)[i] < |ev|
    ensures var k := Ends(ev)[i];
      IsRun(ev, Start(ev[..k]), k) && Describes(Frames(ev)[i], ev, Start(ev[..k]), k)
  {
    hide IsRun, Describes, Start, Partial, Field;
    EndsMatch(ev);
    var j := |ev| - 1;
    EndsMatch(ev[..j]);
    var k := Ends(ev)[i];
    if i < |Ends(ev[..j])| {
      assert k == Ends(ev[..j])[i] && Frames(ev)[i] == Frames(ev[..j])[i];
      FrameIsRun(ev[..j], i);
      assert ev[..j][..k] == ev[..k];
      RunExtends(Frames(ev)[i], ev, j, Start(ev[..k]), k);
    } else {
      ClosedDescribes(ev, j);
    }
  }

  lemma {:induction false} RunExtends(f: Frame, ev: seq<Event>, j: nat, lo: nat, k: nat)
    requires k < j <= |ev| && IsRun(ev[..j], lo, k) && Describes(f, ev[..j], lo, k)
    ensures IsRun(ev, lo, k) && Describes(f, ev, lo, k)
  {
    BeforePrefix(ev, j, lo);
    BeforePrefix(ev, j, k);
  }

  /** A delivered frame has the hardware's fragment lengths exactly when none of its bytes
      were dropped before it. */
  lemma {:induction false} LengthsRight(f: Frame, ev: seq<Event>, lo: nat, k: nat)
    requires IsRun(ev, lo, k) && Describes(f, ev, lo, k)
    ensures (forall i | lo <= i <= k :: f.frags[i - lo].len == ev[i].seg.part.len) <==> Before(ev, lo) == 0
    ensures lo == 0 || ev[lo - 1].seg.part.last ==> Before(ev, lo) == 0
  {
    hide Acc;
    if lo > 0 { BeforeNext(ev, lo - 1); } else { assert Segs(ev)[..0] == []; NothingYet(); }
    assert f.frags[k - lo].len == ev[k].seg.part.len + Before(ev, lo);
  }

  lemma {:induction false} NothingYet()
    ensures Acc([]) == 0
  {
  }

  /** After a dropped descriptor with data, the rest of the frame is passed up as a frame
      whose last fragment claims the missing bytes too. */
  lemma {:induction false} DropMakesLongFragment()
    ensures var ev := [Event(Seg(0, Part(100, false, false, 0)), false), Event(Seg(1, Part(28, true, false, 0)), true)];
      Frames(ev) == [Frame([Frag(1, 128)], 128)]
  {
    var ev := [Event(Seg(0, Part(100, false, false, 0)), false), Event(Seg(1, Part(28, true, false, 0)), true)];
    assert ev[..1] == [ev[0]];
    assert Segs(ev)[..1] == [ev[0].seg];
    assert Acc([]) == 0;
    assert [ev[0].seg][..0] == [];
    assert Acc([ev[0].seg]) == 100;
    assert Field(Segs(ev), 1) == 128;
    assert [ev[0]][..0] == [];
    assert Partial(ev[..1]) == [] && Frames(ev[..1]) == [];
    assert Closed([], 1, 128) == Frame([Frag(1, 128)], 128);
    assert Frames(ev) == Frames(ev[..1]) + [Closed([], 1, 128)];
  }

  // ---- where every mbuf is ----

  function Ids(frags: seq<Frag>): multiset<nat> {
    if frags == [] then multiset{} else Ids(frags[..|frags| - 1]) + multiset{frags[|frags| - 1].id}
  }

  function FrameIds(frames: seq<Frame>): multiset<nat> {
    if frames == [] then multiset{} else FrameIds(frames[..|frames| - 1]) + Ids(frames[|frames| - 1].frags)
  }

  lemma {:induction false} IdsNext(c: seq<Frag>, d: Frag)
    ensures Ids(c + [d]) == Ids(c) + multiset{d.id}
  {
    assert (c + [d])[..|c|] == c;
  }

  lemma {:induction false} FrameIdsNext(fs: seq<Frame>, f: Frame)
    ensures FrameIds(fs + [f]) == FrameIds(fs) + Ids(f.frags)
  {
    assert (fs + [f])[..|fs|] == fs;
  }

  lemma {:induction false} FrameIdsHead(fs: seq<Frame>)
    requires fs != []
    ensures FrameIds(fs) == Ids(fs[0].frags) + FrameIds(fs[1..])
  {
    hide Ids;
    var k := |fs| - 1;
    if k > 0 {
      FrameIdsHead(fs[..k]);
      var rest := fs[1..k];
      assert fs[..k][1..] == rest && fs[1..] == rest + [fs[k]];
      FrameIdsNext(rest, fs[k]);
    } else {
      assert fs[..0] == [] && fs[1..] == [];
    }
  }

  /** How often an mbuf is held: by the ring, by chains and freed, or in hand. */
  ghost function Held(pkts: seq<Option<nat>>, other: multiset<nat>, hand: Option<nat>, id: nat): nat {
    multiset(pkts)[Some(id)] + other[id] + if hand == Some(id) then 1 else 0
  }

  /** Every mbuf allocated so far is in exactly one place, and nothing else is anywhere. */
  ghost predicate Conserved(pkts: seq<Option<nat>>, other: multiset<nat>, hand: Option<nat>, allocs: nat) {
    forall id: nat :: Held(pkts, other, hand, id) == if id < allocs then 1 else 0
  }

  lemma {:induction false} Alloc(pkts: seq<Option<nat>>, other: multiset<nat>, allocs: nat)
    requires Conserved(pkts, other, None, allocs)
    ensures Conserved(pkts, other, Some(allocs), allocs + 1)
  {
    forall id: nat
      ensures Held(pkts, other, Some(allocs), id) == if id < allocs + 1 then 1 else 0
    {
      assert Held(pkts, other, None, id) == if id < allocs then 1 else 0;
    }
  }

  lemma {:induction false} TakeOut(pkts: seq<Option<nat>>, k: nat, other: multiset<nat>, hand: Option<nat>, allocs: nat)
    requires k < |pkts| && pkts[k].Some? && Conserved(pkts, other, hand, allocs)
    ensures Conserved(pkts[k := None], other + multiset{pkts[k].value}, hand, allocs)
  {
    var m := pkts[k].value;
    var pkts', other' := pkts[k := None], other + multiset{m};
    forall id: nat
      ensures Held(pkts', other', hand, id) == if id < allocs then 1 else 0
    {
      assert Held(pkts, other, hand, id) == if id < allocs then 1 else 0;
      assert multiset(pkts[k := None])[Some(id)] == multiset(pkts)[Some(id)] - if id == m then 1 else 0;
    }
  }

  lemma {:induction false} PutIn(pkts: seq<Option<nat>>, k: nat, other: multiset<nat>, m: nat, allocs: nat)
    requires k < |pkts| && pkts[k].None? && Conserved(pkts, other, Some(m), allocs)
    ensures Conserved(pkts[k := Some(m)], other, None, allocs)
  {
    var pkts' := pkts[k := Some(m)];
    forall id: nat
      ensures Held(pkts', other, None, id) == if id < allocs then 1 else 0
    {
      assert Held(pkts, other, Some(m), id) == if id < allocs then 1 else 0;
      assert multiset(pkts[k := Some(m)])[Some(id)] == multiset(pkts)[Some(id)] + if id == m then 1 else 0;
    }
  }

  // ---- bookkeeping of the receive path ----

  /** The mbufs outside the ring. */
  ghost function Others(chain: seq<Frag>, queue: seq<Frame>, delivered: seq<Frame>,
      freed: multiset<nat>): multiset<nat> {
    Ids(chain) + FrameIds(queue) + FrameIds(delivered) + freed
  }

  /** m_freem on a chain. */
  ghost function Free(freed: multiset<nat>, chain: seq<Frag>): multiset<nat> {
    freed + Ids(chain)
  }

  /** What becomes of a completed frame. */
  datatype Fate = Straight | Queued | Lost

  /** The fate of each completed frame, and how each delivered frame came. */
  datatype Routes = Routes(done: seq<Fate>, up: seq<Fate>)

  /** The frames of one fate, in order. */
  function Pick(frames: seq<Frame>, fates: seq<Fate>, x: Fate): seq<Frame>
    requires |frames| == |fates|
  {
    if frames == [] then []
    else
      var k := |frames| - 1;
      Pick(frames[..k], fates[..k], x) + if fates[k] == x then [frames[k]] else []
  }

  /** Frames that are queued are delivered in the order of their completion, those still
      queued come after them, frames sent straight up keep their order too, and the rest was
      freed on overflow. */
  ghost predicate Settled(done: seq<Frame>, r: Routes, queue: seq<Frame>, delivered: seq<Frame>, overflow: seq<Frame>) {
    && |r.done| == |done| && |r.up| == |delivered| && Lost !in r.up
    && Pick(done, r.done, Queued) == Pick(delivered, r.up, Queued) + queue
    && Pick(done, r.done, Straight) == Pick(delivered, r.up, Straight)
    && Pick(done, r.done, Lost) == overflow
  }

  /** Exactly the IEEE 1722 frames go straight up. */
  ghost predicate Routed(ends: seq<nat>, fates: seq<Fate>, direct: nat -> bool) {
    |ends| == |fates| && forall i | 0 <= i < |ends| :: fates[i] == Straight <==> direct(ends[i])
  }

  lemma {:induction false} PickNext(frames: seq<Frame>, fates: seq<Fate>, f: Frame, x: Fate)
    requires |frames| == |fates|
    ensures forall y :: Pick(frames + [f], fates + [x], y) == Pick(frames, fates, y) + if x == y then [f] else []
  {
    assert (frames + [f])[..|frames|] == frames && (fates + [x])[..|fates|] == fates;
  }

  function Count(frames: seq<Frame>, g: Frame): nat {
    multiset(frames)[g]
  }

  lemma {:induction false} CountNext(frames: seq<Frame>, f: Frame, g: Frame)
    ensures Count(frames + [f], g) == Count(frames, g) + if f == g then 1 else 0
  {
  }

  /** Every frame has one fate. */
  lemma {:induction false} PickAll(frames: seq<Frame>, fates: seq<Fate>, g: Frame)
    requires |frames| == |fates|
    ensures Count(frames, g) ==
      Count(Pick(frames, fates, Straight), g) + Count(Pick(frames, fates, Queued), g)
        + Count(Pick(frames, fates, Lost), g)
  {
    if frames != [] {
      hide Count, Pick;
      var k := |frames| - 1;
      var fs, xs, f, x := frames[..k], fates[..k], frames[k], fates[k];
      PickAll(fs, xs, g);
      PickSplit(frames, fates);
      CountNext(fs, f, g);
      CountNext(Pick(fs, xs, x), f, g);
    } else {
      PickEmpty();
    }
  }

  lemma {:induction false} PickEmpty()
    ensures forall x :: Pick([], [], x) == []
  {
  }

  lemma {:induction false} PickSplit(frames: seq<Frame>, fates: seq<Fate>)
    requires |frames| == |fates| && frames != []
    ensures var k := |frames| - 1;
      && frames == frames[..k] + [frames[k]]
      && forall y :: Pick(frames, fates, y) ==
           if y == fates[k] then Pick(frames[..k], fates[..k], y) + [frames[k]] else Pick(frames[..k], fates[..k], y)
  {
  }

  lemma {:induction false} PickNone(frames: seq<Frame>, fates: seq<Fate>, x: Fate)
    requires |frames| == |fates| && x !in fates
    ensures Pick(frames, fates, x) == []
  {
    if frames != [] { PickNone(frames[..|frames| - 1], fates[..|frames| - 1], x); }
  }

  lemma {:induction false} CountJoin(a: seq<Frame>, b: seq<Frame>, g: Frame)
    ensures Count(a + b, g) == Count(a, g) + Count(b, g)
  {
  }

  lemma {:induction false} SameCounts(done: seq<Frame>, a: seq<Frame>, b: seq<Frame>, c: seq<Frame>)
    requires forall g: Frame :: Count(done, g) == Count(a, g) + Count(b, g) + Count(c, g)
    ensures multiset(done) == multiset(a) + multiset(b) + multiset(c)
  {
    forall g: Frame
      ensures multiset(done)[g] == multiset(a)[g] + multiset(b)[g] + multiset(c)[g]
    {
      assert Count(done, g) == Count(a, g) + Count(b, g) + Count(c, g);
    }
  }

  /** In particular every completed frame is queued, delivered or was freed, once. */
  lemma {:induction false} SettledOnce(done: seq<Frame>, r: Routes, queue: seq<Frame>, delivered: seq<Frame>,
      overflow: seq<Frame>)
    requires Settled(done, r, queue, delivered, overflow)
    ensures multiset(done) == multiset(queue) + multiset(delivered) + multiset(overflow)
  {
    PickNone(delivered, r.up, Lost);
    forall g: Frame
      ensures Count(done, g) == Count(queue, g) + Count(delivered, g) + Count(overflow, g)
    {
      PickAll(done, r.done, g);
      PickAll(delivered, r.up, g);
      CountJoin(Pick(delivered, r.up, Queued), queue, g);
    }
    SameCounts(done, queue, delivered, overflow);
  }

  /** The descriptors worked on are the first ones the MAC stored. */
  ghost predicate Consumed(ev: seq<Event>, segs: seq<Seg>) {
    |ev| <= |segs| && forall i | 0 <= i < |ev| :: ev[i].seg == segs[i]
  }

  /** A descriptor is kept exactly when it has no error and a new mbuf was to be had. */
  ghost predicate Decided(ev: seq<Event>, noMbuf: nat -> bool) {
    forall i | 0 <= i < |ev| :: ev[i].kept <==> !ev[i].seg.part.err && !noMbuf(i)
  }

  function Drops(ev: seq<Event>): nat {
    if ev == [] then 0 else Drops(ev[..|ev| - 1]) + if ev[|ev| - 1].kept then 0 else 1
  }

  /** The frame in progress and the counters, after the descriptors ev. */
  ghost predicate Assembled(ev: seq<Event>, chain: seq<Frag>, length: int) {
    chain == Partial(ev) && length == Sum(chain)
  }

  lemma {:induction false} AfterDrop(ev: seq<Event>, s: Seg)
    ensures var ev' := ev + [Event(s, false)];
      Assembled(ev', [], 0) && Frames(ev') == Frames(ev) && Ends(ev') == Ends(ev) && Drops(ev') == Drops(ev) + 1
  {
    assert (ev + [Event(s, false)])[..|ev|] == ev;
  }

  lemma {:induction false} AfterMiddle(ev: seq<Event>, chain: seq<Frag>, length: int, s: Seg)
    requires Assembled(ev, chain, length) && !s.part.last
    ensures var ev' := ev + [Event(s, true)];
      && Assembled(ev', chain + [Frag(s.buf, s.part.len)], length + s.part.len)
      && Frames(ev') == Frames(ev) && Ends(ev') == Ends(ev) && Drops(ev') == Drops(ev)
  {
    assert (ev + [Event(s, true)])[..|ev|] == ev;
    SumNext(chain, Frag(s.buf, s.part.len));
  }

  lemma {:induction false} AfterLast(ev: seq<Event>, chain: seq<Frag>, length: int, segs: seq<Seg>)
    requires Assembled(ev, chain, length) && Consumed(ev, segs) && |ev| < |segs|
    requires segs[|ev|].part.last
    ensures var s, total := segs[|ev|], Field(segs, |ev|);
      var ev' := ev + [Event(s, true)];
      && Assembled(ev', [], 0) && Drops(ev') == Drops(ev) && Ends(ev') == Ends(ev) + [|ev|]
      && Frames(ev') == Frames(ev) + [Frame(chain + [Frag(s.buf, total - length)], total)]
  {
    var ev' := ev + [Event(segs[|ev|], true)];
    assert ev'[..|ev|] == ev;
    assert Segs(ev')[..|ev|] == segs[..|ev|];
  }

  lemma {:induction false} InvSizes(bd: seq<Bd>, pkts: seq<Option<nat>>, cidx: nat, mac: Mac, turn: Turn)
    requires Inv(bd, pkts, cidx, mac, turn)
    ensures |pkts| == |bd| > 0 && cidx < |bd|
    ensures turn.done <= |mac.segs| && (turn.busy ==> turn.done < |mac.segs| && !bd[Slot(turn.done, |bd|)].empty)
  {
  }

  lemma {:induction false} FrameRefl(bd: seq<Bd>, mac: Mac, turn: Turn, pkts: seq<Option<nat>>, cidx: nat)
    requires Inv(bd, pkts, cidx, mac, turn)
    ensures |bd| > 0 && MacFrame(bd, bd, mac, mac, turn)
  {
  }

  lemma {:induction false} FrameTrans(a: seq<Bd>, b: seq<Bd>, c: seq<Bd>, ma: Mac, mb: Mac, mc: Mac, turn: Turn)
    requires |a| > 0 && MacFrame(a, b, ma, mb, turn) && |b| > 0 && MacFrame(b, c, mb, mc, turn)
    ensures MacFrame(a, c, ma, mc, turn)
  {
    hide Slot;
  }

  lemma {:induction false} TakeSlot(bd: seq<Bd>, pkts: seq<Option<nat>>, cidx: nat, mac: Mac, turn: Turn)
    requires Inv(bd, pkts, cidx, mac, turn) && !turn.busy
    ensures |bd| > 0 && cidx == Slot(turn.done, |bd|)
  {
  }

  lemma {:induction false} PrefixConsumed(prev: seq<Event>, ev: seq<Event>, segs: seq<Seg>)
    requires Consumed(ev, segs) && prev <= ev
    ensures Consumed(prev, segs)
  {
  }

  lemma {:induction false} SameIds(c: seq<Frag>, id: nat, len: int, len': int)
    ensures Ids(c + [Frag(id, len)]) == Ids(c + [Frag(id, len')])
  {
    IdsNext(c, Frag(id, len));
    IdsNext(c, Frag(id, len'));
  }

  lemma {:induction false} ToDelivered(f: Frame, queue: seq<Frame>, delivered: seq<Frame>, freed: multiset<nat>)
    ensures Others([], queue, delivered + [f], freed) == Others(f.frags, queue, delivered, freed)
  {
    FrameIdsNext(delivered, f);
  }

  lemma {:induction false} ToQueue(f: Frame, queue: seq<Frame>, delivered: seq<Frame>, freed: multiset<nat>)
    ensures Others([], queue + [f], delivered, freed) == Others(f.frags, queue, delivered, freed)
  {
    FrameIdsNext(queue, f);
  }

  lemma {:induction false} QueueToDelivered(chain: seq<Frag>, queue: seq<Frame>, delivered: seq<Frame>,
      freed: multiset<nat>)
    requires queue != []
    ensures Others(chain, queue[1..], delivered + [queue[0]], freed) == Others(chain, queue, delivered, freed)
  {
    hide Ids, FrameIds;
    FrameIdsHead(queue);
    FrameIdsNext(delivered, queue[0]);
  }

  lemma {:induction false} SettleMoved(done: seq<Frame>, r: Routes, queue: seq<Frame>, delivered: seq<Frame>,
      overflow: seq<Frame>)
    requires queue != [] && Settled(done, r, queue, delivered, overflow)
    ensures Settled(done, r.(up := r.up + [Queued]), queue[1..], delivered + [queue[0]], overflow)
  {
    hide Pick;
    PickNext(delivered, r.up, queue[0], Queued);
    assert queue == [queue[0]] + queue[1..];
  }

  lemma {:induction false} SettleDelivered(done: seq<Frame>, f: Frame, r: Routes, queue: seq<Frame>,
      delivered: seq<Frame>, overflow: seq<Frame>)
    requires Settled(done, r, queue, delivered, overflow)
    ensures Settled(done + [f], Routes(r.done + [Straight], r.up + [Straight]), queue, delivered + [f], overflow)
  {
    hide Pick;
    PickNext(done, r.done, f, Straight);
    PickNext(delivered, r.up, f, Straight);
  }

  lemma {:induction false} SettleQueued(done: seq<Frame>, f: Frame, r: Routes, queue: seq<Frame>,
      delivered: seq<Frame>, overflow: seq<Frame>)
    requires Settled(done, r, queue, delivered, overflow)
    ensures Settled(done + [f], Routes(r.done + [Queued], r.up), queue + [f], delivered, overflow)
  {
    hide Pick;
    PickNext(done, r.done, f, Queued);
  }

  lemma {:induction false} SettleOverflow(done: seq<Frame>, f: Frame, r: Routes, queue: seq<Frame>,
      delivered: seq<Frame>, overflow: seq<Frame>)
    requires Settled(done, r, queue, delivered, overflow)
    ensures Settled(done + [f], Routes(r.done + [Lost], r.up), queue, delivered, overflow + [f])
  {
    hide Pick;
    PickNext(done, r.done, f, Lost);
  }

  lemma {:induction false} RoutedNext(ends: seq<nat>, fates: seq<Fate>, direct: nat -> bool, k: nat, x: Fate)
    requires Routed(ends, fates, direct) && (x == Straight <==> direct(k))
    ensures Routed(ends + [k], fates + [x], direct)
  {
  }

  lemma {:induction false} SumNone()
    ensures Sum([]) == 0
  {
  }

  lemma {:induction false} FreeChain(chain: seq<Frag>, queue: seq<Frame>, delivered: seq<Frame>, freed: multiset<nat>)
    ensures Others([], queue, delivered, Free(freed, chain)) == Others(chain, queue, delivered, freed)
  {
    hide FrameIds;
  }

  lemma {:induction false} DecidedNext(ev: seq<Event>, noMbuf: nat -> bool, e: Event)
    requires Decided(ev, noMbuf) && (e.kept <==> !e.seg.part.err && !noMbuf(|ev|))
    ensures Decided(ev + [e], noMbuf)
  {
  }

  lemma {:induction false} ConsumedNext(ev: seq<Event>, segs: seq<Seg>, kept: bool)
    requires Consumed(ev, segs) && |ev| < |segs|
    ensures Consumed(ev + [Event(segs[|ev|], kept)], segs)
  {
  }

  lemma {:induction false} FrameKeeps(bd: seq<Bd>, bd': seq<Bd>, mac: Mac, mac': Mac, turn: Turn, idx: nat)
    requires |bd| > 0 && MacFrame(bd, bd', mac, mac', turn) && turn.done < |mac.segs| && idx == Slot(turn.done, |bd|)
    ensures bd'[idx] == bd[idx] && mac'.segs[turn.done] == mac.segs[turn.done]
    ensures Field(mac'.segs, turn.done) == Field(mac.segs, turn.done)
  {
    assert mac'.segs[..turn.done] == mac.segs[..turn.done];
  }

  lemma {:induction false} SameField(segs: seq<Seg>, segs': seq<Seg>, i: nat)
    requires segs <= segs' && i < |segs|
    ensures Field(segs', i) == Field(segs, i)
  {
    assert segs'[..i] == segs[..i];
  }

  lemma {:induction false} FieldOfMiddle(segs: seq<Seg>, i: nat)
    requires i < |segs| && !segs[i].part.last
    ensures Field(segs, i) == segs[i].part.len
  {
  }

  lemma {:induction false} StillConsumed(ev: seq<Event>, segs: seq<Seg>, s: Seg)
    requires Consumed(ev, segs)
    ensures Consumed(ev, segs + [s])
  {
  }

  function Named(n: nat): seq<Option<nat>> {
    if n == 0 then [] else Named(n - 1) + [Some(n - 1)]
  }

  lemma {:induction false} NamedOnce(n: nat, id: nat)
    ensures multiset(Named(n))[Some(id)] == if id < n then 1 else 0
  {
    if n > 0 { NamedOnce(n - 1, id); }
  }

  lemma {:induction false} NamedAt(n: nat, i: nat)
    ensures |Named(n)| == n && (i < n ==> Named(n)[i] == Some(i))
  {
    if n > 0 { NamedAt(n - 1, i); }
  }

  /** At the start the ring holds every mbuf. */
  lemma {:induction false} FreshRing(n: nat, pkts: seq<Option<nat>>)
    requires |pkts| == n && forall i | 0 <= i < n :: pkts[i] == Some(i)
    ensures Conserved(pkts, Others([], [], [], multiset{}), None, n)
  {
    NamedAt(n, 0);
    forall i | 0 <= i < n
      ensures Named(n)[i] == pkts[i]
    {
      NamedAt(n, i);
    }
    assert Named(n) == pkts;
    forall id: nat
      ensures Held(pkts, Others([], [], [], multiset{}), None, id) == if id < n then 1 else 0
    {
      NamedOnce(n, id);
    }
  }

  ghost predicate InQueue(f: Frame, queue: seq<Frame>, delivered: seq<Frame>) {
    f in queue || f in delivered
  }

  /** f is the frame of descriptors lo..k, none of them in error. */
  ghost predicate IsFrameOf(f: Frame, ev: seq<Event>, lo: nat, k: nat) {
    IsRun(ev, lo, k) && Describes(f, ev, lo, k) && forall i | lo <= i <= k :: !ev[i].seg.part.err
  }

  lemma {:induction false} RunIsClean(ev: seq<Event>, noMbuf: nat -> bool, lo: nat, k: nat)
    requires Decided(ev, noMbuf) && IsRun(ev, lo, k)
    ensures forall i | lo <= i <= k :: !ev[i].seg.part.err
  {
  }

  class RxQueue {
    const n: nat
    const maxlen: nat      // ifq_maxlen of rx_queue
    const flow: bool       // pause frames are in use
    const noMbuf: nat -> bool   // for which descriptors no new mbuf can be allocated
    const direct: nat -> bool   // which LAST descriptors end an IEEE 1722 frame
    // shared descriptors, and the driver's own state
    var bd: seq<Bd>
    var pkts: seq<Option<nat>>
    var cidx: nat
    var chain: seq<Frag>   // rpkt .. rpkt_tail
    var length: int
    var queue: seq<Frame>
    var allocs: nat        // mbufs are named in the order of allocation
    var ipackets: nat
    var ierrors: nat
    var worked: nat        // descriptors worked on, which names the environment's choices
    // the MAC, and what is still to arrive
    var mac: Mac
    var incoming: seq<Part>
    // history
    ghost var turn: Turn
    ghost var ev: seq<Event>
    ghost var delivered: seq<Frame>
    ghost var routes: Routes
    ghost var overflow: seq<Frame>
    ghost var freed: multiset<nat>

    /** The ring invariant and the history of descriptors. */
    ghost predicate RingOk()
      reads this
    {
      |bd| == n && Inv(bd, pkts, cidx, mac, turn) && turn.done == |ev| == worked && Consumed(ev, mac.segs) &&
        Decided(ev, noMbuf)
    }

    ghost predicate MbufsOk(hand: Option<nat>)
      reads this
    {
      Conserved(pkts, Others(chain, queue, delivered, freed), hand, allocs)
    }

    /** The frames of the descriptors e, and the counters. */
    ghost predicate FramesOk(e: seq<Event>)
      reads this
    {
      && Settled(Frames(e), routes, queue, delivered, overflow)
      && Routed(Ends(e), routes.done, direct)
      && ipackets == |Frames(e)|
      && ierrors == Drops(e) + |overflow|
      && |queue| <= maxlen
    }

    /** Between descriptors. */
    ghost predicate Valid()
      reads this
    {
      RingOk() && !turn.busy && MbufsOk(None) && Assembled(ev, chain, length) && FramesOk(ev)
    }

    /** Parts on the wire or in descriptors not yet worked on. */
    ghost function Left(): int
      reads this
    {
      |incoming| + |mac.segs| - |ev|
    }

    /** Ring initialisation: every descriptor EMPTY with an mbuf of its own. */
    constructor (n: nat, maxlen: nat, flow: bool, noMbuf: nat -> bool, direct: nat -> bool, incoming: seq<Part>)
      requires n > 0
      ensures Valid() && allocs == n && ev == [] && mac.segs == [] && chain == [] && queue == [] && delivered == []
      ensures this.n == n && this.maxlen == maxlen && this.flow == flow && this.incoming == incoming
    {
      this.n, this.maxlen, this.flow, this.incoming := n, maxlen, flow, incoming;
      this.noMbuf, this.direct := noMbuf, direct;
      bd := seq(n, i requires 0 <= i < n => Bd(i, 0, true, i == n - 1, false, false, 0));
      pkts := seq(n, i requires 0 <= i < n => Some(i));
      cidx, chain, length, queue, allocs, ipackets, ierrors, worked := 0, [], 0, [], n, 0, 0, 0;
      mac, turn, ev := Mac(0, 0, []), Turn(0, false), [];
      delivered, routes, overflow, freed := [], Routes([], []), [], multiset{};
      new;
      FreshRing(n, pkts);
    }

    /** The MAC runs: any number of its steps. */
    method Interfere()
      requires RingOk()
      modifies this`bd, this`mac, this`incoming
      ensures RingOk() && Left() == old(Left()) && old(mac.segs) <= mac.segs
      ensures MacFrame(old(bd), bd, old(mac), mac, turn)
    {
      hide Slot, Inv, MacFrame, Consumed, Decided;
      var steps: nat := *;
      FrameRefl(bd, mac, turn, pkts, cidx);
      while steps > 0 && incoming != []
        invariant RingOk() && Left() == old(Left()) && old(mac.segs) <= mac.segs
        invariant MacFrame(old(bd), bd, old(mac), mac, turn)
      {
        MacSees(bd, pkts, cidx, mac, turn);
        if bd[mac.idx].empty {
          MacKeepsInv(bd, pkts, cidx, mac, turn, incoming[0]);
          var b := bd[mac.idx];
          FrameTrans(old(bd), bd, bd[mac.idx := Filled(b, mac.acc, incoming[0])],
            old(mac), mac, MacNext(mac, b, incoming[0]), turn);
          StillConsumed(ev, mac.segs, Seg(b.buffer, incoming[0]));
          bd, mac := bd[mac.idx := Filled(b, mac.acc, incoming[0])], MacNext(mac, b, incoming[0]);
          incoming := incoming[1..];
        }
        steps := steps - 1;
      }
    }

    /** A store to the descriptor being worked on and its rx_pkts entry; then the MAC runs. */
    method Store(idx: nat, b: Bd, m: Option<nat>)
      requires RingOk() && turn.busy && n > 0 && idx == Slot(turn.done, n)
      requires b.wrap == bd[idx].wrap && b.ts == bd[idx].ts && !b.empty
      modifies this`bd, this`pkts, this`mac, this`incoming
      ensures RingOk() && Left() == old(Left())
      ensures bd[idx] == b && pkts == old(pkts)[idx := m] && old(mac.segs) <= mac.segs
    {
      hide Slot, Inv, Consumed, Decided;
      InvSizes(bd, pkts, cidx, mac, turn);
      StoreKeepsInv(bd, pkts, cidx, mac, turn, b, m);
      bd, pkts := bd[idx := b], pkts[idx := m];
      Interfere();
    }

    /** The status store: EMPTY, with WRAP on the last descriptor of the ring. */
    method Give(idx: nat, ghost kept: bool)
      requires RingOk() && turn.busy && n > 0 && idx == Slot(turn.done, n) && pkts[idx] == Some(bd[idx].buffer)
      requires turn.done < |mac.segs| && (kept <==> !mac.segs[turn.done].part.err && !noMbuf(turn.done))
      modifies this`bd, this`mac, this`incoming, this`turn, this`ev, this`worked
      ensures RingOk() && !turn.busy && Left() == old(Left()) - 1 && old(mac.segs) <= mac.segs
      ensures |old(ev)| < |old(mac.segs)| && ev == old(ev) + [Event(old(mac.segs)[|old(ev)|], kept)]
    {
      hide Slot, Inv, MacFrame, Consumed, Decided;
      InvSizes(bd, pkts, cidx, mac, turn);
      GiveKeepsInv(bd, pkts, cidx, mac, turn);
      assert idx % n == idx;
      ghost var s := mac.segs[turn.done];
      ConsumedNext(ev, mac.segs, kept);
      DecidedNext(ev, noMbuf, Event(s, kept));
      bd := bd[idx := bd[idx].(empty := true, wrap := idx % n == n - 1, last := false, err := false)];
      turn, ev := Turn(turn.done + 1, false), ev + [Event(s, kept)];
      worked := worked + 1;
      Interfere();
    }

    /** mx6q_add_pkt: an mbuf goes into the descriptor being worked on, which is then
        given back to the MAC. */
    method AddPkt(m: nat, idx: nat, ghost kept: bool)
      requires RingOk() && turn.busy && n > 0 && idx == Slot(turn.done, n)
      requires turn.done < |mac.segs| && (kept <==> !mac.segs[turn.done].part.err && !noMbuf(turn.done))
      modifies this`bd, this`pkts, this`mac, this`incoming, this`turn, this`ev, this`worked
      ensures RingOk() && !turn.busy && Left() == old(Left()) - 1
      ensures pkts == old(pkts)[idx := Some(m)] && old(mac.segs) <= mac.segs
      ensures |old(ev)| < |old(mac.segs)| && ev == old(ev) + [Event(old(mac.segs)[|old(ev)|], kept)]
    {
      hide Slot, Inv, MacFrame, Consumed, Decided;
      InvSizes(bd, pkts, cidx, mac, turn);
      Store(idx, bd[idx], Some(m));
      InvSizes(bd, pkts, cidx, mac, turn);
      Store(idx, bd[idx].(buffer := m), Some(m));
      InvSizes(bd, pkts, cidx, mac, turn);
      Store(idx, bd[idx].(length := 0), Some(m));
      InvSizes(bd, pkts, cidx, mac, turn);
      assert pkts == old(pkts)[idx := Some(m)];
      Give(idx, kept);
    }

    /** Give the old mbuf back to the MAC and discard the frame in progress. */
    method Refuse(idx: nat)
      requires RingOk() && turn.busy && n > 0 && idx == Slot(turn.done, n)
      requires pkts[idx].Some? && MbufsOk(None) && Assembled(ev, chain, length) && FramesOk(ev)
      requires mac.segs[turn.done].part.err || noMbuf(turn.done)
      modifies this`bd, this`pkts, this`mac, this`incoming, this`turn, this`ev, this`worked, this`ierrors, this`chain,
        this`length, this`freed
      ensures Valid() && Left() == old(Left()) - 1 && chain == [] && old(mac.segs) <= mac.segs
      ensures |old(ev)| < |old(mac.segs)| && ev == old(ev) + [Event(old(mac.segs)[|old(ev)|], false)]
    {
      hide Slot, Inv, Conserved, Settled, Frames, Ends, Routed, Drops, Partial, Consumed, Others, Sum, Decided;
      InvSizes(bd, pkts, cidx, mac, turn);
      assert pkts[idx := pkts[idx]] == pkts;
      ghost var prev := ev;
      AddPkt(pkts[idx].value, idx, false);
      Discard(prev);
    }

    /** Free the frame in progress, if any, after a dropped descriptor. */
    method Discard(ghost prev: seq<Event>)
      requires RingOk() && !turn.busy && MbufsOk(None) && Assembled(prev, chain, length) && FramesOk(prev)
      requires ev != [] && ev == prev + [Event(ev[|ev| - 1].seg, false)]
      modifies this`ierrors, this`chain, this`length, this`freed
      ensures Valid() && chain == []
    {
      hide Slot, Inv, Conserved, Settled, Frames, Ends, Routed, Drops, Partial, Consumed, Ids, Others, Sum, Free,
        Decided;
      AfterDrop(prev, ev[|ev| - 1].seg);
      ierrors := ierrors + 1;
      if chain != [] {
        FreeChain(chain, queue, delivered, freed);
        freed := Free(freed, chain);
        chain := [];
        length := 0;
      } else {
        SumNone();
      }
    }

    /** Link the received mbuf into the chain and put a new one into the descriptor. */
    method Keep(idx: nat)
      requires RingOk() && turn.busy && n > 0 && idx == Slot(turn.done, n)
      requires bd[idx].buffer == mac.segs[turn.done].buf && bd[idx].length == Field(mac.segs, turn.done)
      requires pkts[idx] == Some(mac.segs[turn.done].buf) && MbufsOk(None)
      requires !mac.segs[turn.done].part.err && !noMbuf(turn.done)
      modifies this`bd, this`pkts, this`mac, this`incoming, this`turn, this`ev, this`worked, this`allocs, this`chain
      ensures RingOk() && !turn.busy && MbufsOk(None) && Left() == old(Left()) - 1 && old(mac.segs) <= mac.segs
      ensures |old(ev)| < |old(mac.segs)| && ev == old(ev) + [Event(old(mac.segs)[|old(ev)|], true)]
      ensures chain == old(chain) + [Frag(old(mac.segs)[|old(ev)|].buf, Field(old(mac.segs), |old(ev)|))]
    {
      hide Slot, Inv, Conserved, Consumed, Field, Ids, FrameIds, Decided;
      InvSizes(bd, pkts, cidx, mac, turn);
      var fresh_m := allocs;
      Alloc(pkts, Others(chain, queue, delivered, freed), allocs);
      allocs := allocs + 1;
      var m := pkts[idx].value;
      TakeOut(pkts, idx, Others(chain, queue, delivered, freed), Some(fresh_m), allocs);
      IdsNext(chain, Frag(m, bd[idx].length));
      ghost var before := Others(chain, queue, delivered, freed);
      Store(idx, bd[idx], None);
      chain := chain + [Frag(m, bd[idx].length)];
      assert Others(chain, queue, delivered, freed) == before + multiset{m};
      PutIn(pkts, idx, Others(chain, queue, delivered, freed), fresh_m, allocs);
      AddPkt(fresh_m, idx, true);
    }

    /** The stack thread takes a frame off rx_queue (mx6q_process_queue). */
    method Dequeue() returns (more: bool)
      requires MbufsOk(None) && FramesOk(ev)
      modifies this`queue, this`delivered, this`routes
      ensures MbufsOk(None) && FramesOk(ev)
      ensures more == (old(queue) != [])
      ensures if more then queue == old(queue)[1..] && delivered == old(delivered) + [old(queue)[0]]
              else queue == old(queue) && delivered == old(delivered)
    {
      hide Conserved, Ids, Frames, Ends, Routed, Drops, FrameIds, Settled, Others;
      more := queue != [];
      if more {
        QueueToDelivered(chain, queue, delivered, freed);
        SettleMoved(Frames(ev), routes, queue, delivered, overflow);
        var m := queue[0];
        queue, delivered, routes := queue[1..], delivered + [m], routes.(up := routes.up + [Queued]);
      }
    }

    /** The stack thread runs: any number of frames taken. */
    method Drain()
      requires MbufsOk(None) && FramesOk(ev)
      modifies this`queue, this`delivered, this`routes
      ensures MbufsOk(None) && FramesOk(ev)
    {
      hide Conserved, Ids, Frames, Ends, Routed, Drops, FrameIds, Settled;
      var turns: nat := *;
      while turns > 0
        invariant MbufsOk(None) && FramesOk(ev)
      {
        var _ := Dequeue();
        turns := turns - 1;
      }
    }

    /** mx6q_ptp_add_rx_timestamp reads the descriptor after it was given back: the stamp is
        the frame's own exactly when the MAC is not a whole lap ahead. */
    method ReadStamp(idx: nat) returns (ts: nat)
      requires RingOk() && !turn.busy && n > 0 && ev != [] && idx == Slot(|ev| - 1, n)
      ensures ts == if |mac.segs| < |ev| + n then ev[|ev| - 1].seg.part.ts else mac.segs[|ev| + n - 1].part.ts
    {
      hide Slot, Inv;
      InvSizes(bd, pkts, cidx, mac, turn);
      StampRead(bd, pkts, cidx, mac, turn, |ev| - 1);
      ts := bd[idx].ts;
    }

    /** A finished frame goes straight up. */
    method PassUp(f: Frame, ghost prev: seq<Event>)
      requires RingOk() && !turn.busy && MbufsOk(None) && FramesOk(prev) && Assembled(ev, [], 0)
      requires chain == f.frags && Frames(ev) == Frames(prev) + [f] && Drops(ev) == Drops(prev)
      requires Ends(ev) == Ends(prev) + [|prev|] && direct(|prev|)
      modifies this`chain, this`length, this`routes, this`delivered, this`ipackets
      ensures Valid() && chain == [] && delivered == old(delivered) + [f]
    {
      hide Slot, Inv, Conserved, Ids, Frames, Drops, FrameIds, Partial, Settled, Others, Consumed, Sum, Free, Decided,
        Ends, Routed;
      ToDelivered(f, queue, delivered, freed);
      SettleDelivered(Frames(prev), f, routes, queue, delivered, overflow);
      RoutedNext(Ends(prev), routes.done, direct, |prev|, Straight);
      routes := Routes(routes.done + [Straight], routes.up + [Straight]);
      ipackets := ipackets + 1;
      delivered := delivered + [f];
      chain, length := [], 0;
    }

    /** A finished frame is queued for the stack thread. */
    method Enqueue(f: Frame, ghost prev: seq<Event>)
      requires RingOk() && !turn.busy && MbufsOk(None) && FramesOk(prev) && Assembled(ev, [], 0)
      requires chain == f.frags && Frames(ev) == Frames(prev) + [f] && Drops(ev) == Drops(prev)
      requires |queue| < maxlen
      requires Ends(ev) == Ends(prev) + [|prev|] && !direct(|prev|)
      modifies this`chain, this`length, this`routes, this`queue, this`ipackets
      ensures Valid() && chain == [] && queue == old(queue) + [f]
    {
      hide Slot, Inv, Conserved, Ids, Frames, Drops, FrameIds, Partial, Settled, Others, Consumed, Sum, Free, Decided,
        Ends, Routed;
      ToQueue(f, queue, delivered, freed);
      SettleQueued(Frames(prev), f, routes, queue, delivered, overflow);
      RoutedNext(Ends(prev), routes.done, direct, |prev|, Queued);
      routes := Routes(routes.done + [Queued], routes.up);
      ipackets := ipackets + 1;
      queue := queue + [f];
      chain, length := [], 0;
    }

    /** A finished frame is freed because the queue is full. */
    method Overflow(f: Frame, ghost prev: seq<Event>)
      requires RingOk() && !turn.busy && MbufsOk(None) && FramesOk(prev) && Assembled(ev, [], 0)
      requires chain == f.frags && Frames(ev) == Frames(prev) + [f] && Drops(ev) == Drops(prev)
      requires Ends(ev) == Ends(prev) + [|prev|] && !direct(|prev|)
      modifies this`chain, this`length, this`routes, this`overflow, this`freed, this`ipackets, this`ierrors
      ensures Valid() && chain == [] && overflow == old(overflow) + [f]
    {
      hide Slot, Inv, Conserved, Ids, Frames, Drops, FrameIds, Partial, Settled, Others, Consumed, Sum, Free, Decided,
        Ends, Routed;
      FreeChain(chain, queue, delivered, freed);
      SettleOverflow(Frames(prev), f, routes, queue, delivered, overflow);
      RoutedNext(Ends(prev), routes.done, direct, |prev|, Lost);
      routes := Routes(routes.done + [Lost], routes.up);
      ipackets := ipackets + 1;
      freed, overflow := Free(freed, chain), overflow + [f];
      ierrors := ierrors + 1;
      chain, length := [], 0;
    }

    /** The end of a frame: fix the lengths and pass it on; direct frames skip the queue. */
    method Complete(straight: bool, ghost prev: seq<Event>, ghost partial: seq<Frag>) returns (stalled: bool)
      requires RingOk() && !turn.busy && MbufsOk(None) && FramesOk(prev) && Assembled(prev, partial, length)
      requires |prev| < |mac.segs| && ev == prev + [Event(mac.segs[|prev|], true)]
      requires mac.segs[|prev|].part.last && straight == direct(|prev|)
      requires chain == partial + [Frag(mac.segs[|prev|].buf, Field(mac.segs, |prev|))]
      modifies this`chain, this`length, this`queue, this`delivered, this`routes, this`overflow, this`freed,
        this`ipackets, this`ierrors
      ensures Valid() && chain == [] && (stalled <==> flow && !straight && |queue| + 1 >= maxlen)
      ensures Frames(ev) != []
      ensures var f := Frames(ev)[|Frames(ev)| - 1];
        if straight then queue == old(queue) && delivered == old(delivered) + [f]
        else if |old(queue)| < maxlen then queue == old(queue) + [f] && delivered == old(delivered)
        else queue == old(queue) && delivered == old(delivered) && overflow == old(overflow) + [f]
    {
      hide Slot, Inv, Conserved, Ids, Frames, Drops, FrameIds, Partial, Field, Settled, Consumed, Sum, Decided, Ends,
        Routed;
      var k := |chain| - 1;
      var total := chain[k].len;
      PrefixConsumed(prev, ev, mac.segs);
      AfterLast(prev, partial, length, mac.segs);
      SameIds(partial, chain[k].id, total, total - length);
      chain := chain[k := chain[k].(len := chain[k].len - length)];
      assert chain == partial + [Frag(mac.segs[|prev|].buf, total - length)];
      var f := Frame(chain, total);
      stalled := false;
      if straight {
        PassUp(f, prev);
      } else {
        if |queue| >= maxlen {
          Overflow(f, prev);
        } else {
          Enqueue(f, prev);
        }
        stalled := flow && |queue| + 1 >= maxlen;
      }
    }

    /** mx6q_receive. It stalls (returns 0) when the queue is nearly full under flow control;
        otherwise it returns when everything stored has been worked on. */
    method Receive() returns (stalled: bool)
      requires Valid()
      modifies this
      ensures Valid() && old(ev) <= ev && old(mac.segs) <= mac.segs
      ensures if stalled then flow && |queue| + 1 >= maxlen && chain == [] else |ev| == |mac.segs|
    {
      hide Slot, Inv, Conserved, Ids, Frames, Ends, Routed, Drops, FrameIds, Partial, Field, Settled, MacFrame,
        Others, Sum, Decided;
      while true
        invariant Valid() && old(ev) <= ev && old(mac.segs) <= mac.segs
        decreases Left()
      {
        Interfere();
        DriverSees(bd, pkts, cidx, mac, turn);
        var idx := cidx;
        var status := bd[idx];
        if status.empty {
          return false;
        }
        stalled := Work(idx, status);
        if stalled {
          return;
        }
      }
    }

    /** rx_cidx moves on; the descriptor stays as it was read. */
    method Take(idx: nat)
      requires RingOk() && !turn.busy && |ev| < |mac.segs| && idx == cidx < |bd|
      modifies this`cidx, this`turn, this`bd, this`mac, this`incoming
      ensures RingOk() && turn == old(turn).(busy := true) && n > 0 && idx == Slot(turn.done, n)
      ensures Left() == old(Left()) && old(mac.segs) <= mac.segs && turn.done < |mac.segs|
      ensures bd[idx] == old(bd[idx]) && Field(mac.segs, turn.done) == old(Field(mac.segs, |ev|))
    {
      hide Slot, Inv, MacFrame, Field, Consumed, Decided;
      TakeKeepsInv(bd, pkts, cidx, mac, turn);
      TakeSlot(bd, pkts, cidx, mac, turn);
      cidx, turn := Next(idx, n), turn.(busy := true);
      ghost var bd0, mac0 := bd, mac;
      Interfere();
      FrameKeeps(bd0, bd, mac0, mac, turn, idx);
    }

    /** A descriptor in the middle of a frame: its bytes count towards the fix-up at the end. */
    method Extend(ghost prev: seq<Event>, ghost partial: seq<Frag>)
      requires RingOk() && !turn.busy && MbufsOk(None) && FramesOk(prev) && Assembled(prev, partial, length)
      requires |prev| < |mac.segs| && ev == prev + [Event(mac.segs[|prev|], true)] && !mac.segs[|prev|].part.last
      requires chain == partial + [Frag(mac.segs[|prev|].buf, Field(mac.segs, |prev|))]
      modifies this`length
      ensures Valid()
    {
      hide Slot, Inv, Conserved, Frames, Ends, Routed, Drops, Partial, Field, Settled, Others, Sum, Decided, Consumed;
      FieldOfMiddle(mac.segs, |prev|);
      AfterMiddle(prev, partial, length, mac.segs[|prev|]);
      length := length + chain[|chain| - 1].len;
    }

    /** A received part joins the frame in progress, which may end with it. */
    method Accept(idx: nat, last: bool) returns (stalled: bool)
      requires RingOk() && turn.busy && n > 0 && idx == Slot(turn.done, n)
      requires MbufsOk(None) && Assembled(ev, chain, length) && FramesOk(ev)
      requires bd[idx].buffer == mac.segs[turn.done].buf && bd[idx].length == Field(mac.segs, turn.done)
      requires pkts[idx] == Some(mac.segs[turn.done].buf) && last == mac.segs[turn.done].part.last
      requires !mac.segs[turn.done].part.err && !noMbuf(turn.done)
      modifies this
      ensures Valid() && Left() == old(Left()) - 1
      ensures |ev| == |old(ev)| + 1 && old(ev) <= ev && old(mac.segs) <= mac.segs
      ensures stalled ==> flow && |queue| + 1 >= maxlen && chain == []
    {
      hide Slot, Inv, Conserved, Frames, Ends, Routed, Drops, Partial, Field, Settled, Others, Sum, Decided, Consumed;
      stalled := false;
      var at := worked;
      ghost var prev, partial, segs := ev, chain, mac.segs;
      Keep(idx);
      SameField(segs, mac.segs, |prev|);
      if last {
        var event: bool := *;
        if event {
          var _ := ReadStamp(idx);
        }
        stalled := Complete(direct(at), prev, partial);
      } else {
        Extend(prev, partial);
      }
    }

    /** One turn of the loop, on a descriptor that is not EMPTY. */
    method Work(idx: nat, status: Bd) returns (stalled: bool)
      requires Valid() && |ev| < |mac.segs| && idx == cidx < |bd| && status == bd[idx]
      requires Holds(status, mac.segs[|ev|], Field(mac.segs, |ev|)) && pkts[idx] == Some(mac.segs[|ev|].buf)
      modifies this
      ensures Valid() && Left() == old(Left()) - 1
      ensures |ev| == |old(ev)| + 1 && old(ev) <= ev && old(mac.segs) <= mac.segs
      ensures stalled ==> flow && |queue| + 1 >= maxlen && chain == []
    {
      hide Slot, Inv, Conserved, Frames, Ends, Routed, Drops, Partial, Field, Settled, Others, Sum, Decided, Consumed;
      stalled := false;
      var at := worked;
      Take(idx);
      if status.err || noMbuf(at) {
        Refuse(idx);
        return;
      }
      Drain();   // the stack thread, up to the next time it is locked out
      stalled := Accept(idx, status.last);
    }
  }

  /** What holds between descriptors in every run: each frame passed up or waiting is
      the frame of one run of good descriptors; each mbuf allocated is in exactly one place. */
  lemma {:induction false} Guarantees(q: RxQueue)
    requires q.Valid()
    ensures Consumed(q.ev, q.mac.segs) && Decided(q.ev, q.noMbuf)
    ensures multiset(Frames(q.ev)) == multiset(q.queue) + multiset(q.delivered) + multiset(q.overflow)
    ensures Settled(Frames(q.ev), q.routes, q.queue, q.delivered, q.overflow) &&
      Routed(Ends(q.ev), q.routes.done, q.direct)
    ensures forall f | InQueue(f, q.queue, q.delivered) :: exists lo, k :: IsFrameOf(f, q.ev, lo, k)
    ensures forall id: nat ::
      Held(q.pkts, Ids(q.chain) + FrameIds(q.queue) + FrameIds(q.delivered) + q.freed, None, id) ==
        if id < q.allocs then 1 else 0
    ensures forall i | 0 <= i < q.n :: q.bd[i].wrap == (i == q.n - 1) && q.pkts[i].Some?
  {
    hide Describes, IsRun, Frames, Ends, Start, Ids, FrameIds, Partial, Sum;
    SettledOnce(Frames(q.ev), q.routes, q.queue, q.delivered, q.overflow);
    forall f | InQueue(f, q.queue, q.delivered)
      ensures exists lo, k :: IsFrameOf(f, q.ev, lo, k)
    {
      assert f in multiset(Frames(q.ev));
      assert f in Frames(q.ev);
      var i :| 0 <= i < |Frames(q.ev)| && Frames(q.ev)[i] == f;
      EndsMatch(q.ev);
      FrameIsRun(q.ev, i);
      var k := Ends(q.ev)[i];
      RunIsClean(q.ev, q.noMbuf, Start(q.ev[..k]), k);
      assert IsFrameOf(f, q.ev, Start(q.ev[..k]), k);
    }
    forall i | 0 <= i < q.n
      ensures q.pkts[i].Some?
    {
      var p := SlotCovers(q.turn.done, q.n, i);
    }
  }
}
