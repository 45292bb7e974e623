/** The interrupt-driven I2C master (src/hardware/i2c/imx): one interrupt at a time, and
    whole transactions over every sequence of interrupts. */
module I2c {
  datatype BusState = Stopped | WaitRestart | Addr7 | Addr10Msb | Addr10Lsb | TxData | RxData
  datatype Kind = Send | Receive
  datatype Status = InProgress | Complete | Failed
  datatype Error = NoError | Arbl | Nack | Unexpected

  /** MSTA, MTX and TXAK of the control register. */
  datatype Ctrl = Ctrl(msta: bool, mtx: bool, txak: bool)

  /** What the controller is made to do: a start or repeated start, a byte written to the
      data register, a byte clocked out of the slave and how it is acknowledged, a stop. */
  datatype Op = Start | Restart | Write(byte: nat) | Clock(nack: bool) | Stop

  /** The status register's IAL and RXAK, and the data register, at an interrupt. */
  datatype Intr = Intr(ial: bool, rxak: bool, data: nat)

  /** The fields of imx_dev_t that belong to a transaction; tx and rx are its buffers. */
  datatype Dev = Dev(
    addr: nat, ten: bool, kind: Kind, status: Status, error: Error, bus: BusState, stop: bool,
    tx: seq<nat>, txIdx: nat, rx: seq<nat>, rxIdx: nat, ctrl: Ctrl, log: seq<Op>)

  // ---- one interrupt ----

  function WriteData(d: Dev, b: nat): Dev {
    d.(log := d.log + [Write(b)])
  }

  /** A master that receives clocks the next byte out of the slave by reading. */
  function ReadData(d: Dev): Dev {
    if d.ctrl.msta && !d.ctrl.mtx then d.(log := d.log + [Clock(d.ctrl.txak)]) else d
  }

  /** Clearing MSTA puts a stop on the bus. */
  function SetCtrl(d: Dev, c: Ctrl): Dev {
    d.(ctrl := c, log := if d.ctrl.msta && !c.msta then d.log + [Stop] else d.log)
  }

  /** IMX_I2C_XADDR2. */
  function LowAddress(addr: nat): nat { addr % 256 }

  /** The first address byte: 7 bits shifted up, or 0xf0 and bits 9 and 8; bit 0 says receive. */
  function AddressByte(addr: nat, ten: bool, kind: Kind): nat {
    (if ten then 0xf0 + (addr / 256 % 4) * 2 else addr * 2 % 256) + if kind == Receive then 1 else 0
  }

  /** The acknowledge bit is looked at in these states only. */
  predicate Acknowledges(bus: BusState) {
    bus == Addr7 || bus == Addr10Msb || bus == TxData
  }

  function Fail(d: Dev, e: Error): Dev {
    d.(status := Failed, error := e)
  }

  /** imx_i2c_intr: the new state and whether the event is raised. */
  function Step(d: Dev, i: Intr): (Dev, bool) {
    if i.ial then
      (Fail(d, Arbl).(ctrl := Ctrl(false, false, false)), true)   // the controller has already let go of the bus
    else if Acknowledges(d.bus) && i.rxak then
      (SetCtrl(Fail(d, Nack), Ctrl(false, false, false)), true)
    else if d.bus == Addr10Msb then
      (WriteData(d, LowAddress(d.addr)).(bus := Addr10Lsb), false)
    else if (d.bus == Addr10Lsb || d.bus == Addr7) && d.kind == Receive then
      (ReadData(SetCtrl(d.(bus := RxData), Ctrl(true, false, |d.rx| == 1))), false)
    else if d.bus == Addr10Lsb || d.bus == Addr7 || d.bus == TxData then
      StepTx(d.(bus := TxData))
    else if d.bus == RxData then
      StepRx(d, i.data)
    else
      (d.(error := Unexpected), true)
  }

  function StepTx(d: Dev): (Dev, bool) {
    if d.txIdx < |d.tx| then
      (WriteData(d, d.tx[d.txIdx]).(txIdx := d.txIdx + 1), false)
    else if d.stop then
      (SetCtrl(d, Ctrl(false, false, false)).(bus := Stopped, status := Complete), true)
    else
      (d.(bus := WaitRestart, status := Complete), true)
  }

  /** Before the byte is read: the stop after the last one, no acknowledge for it. */
  function RxControl(d: Dev): Dev {
    if d.rxIdx == |d.rx| - 1 then
      if d.stop then SetCtrl(d, Ctrl(false, true, true)).(bus := Stopped, status := Complete)
      else SetCtrl(d, Ctrl(true, true, true)).(bus := WaitRestart, status := Complete)
    else if d.rxIdx == |d.rx| - 2 then SetCtrl(d, Ctrl(true, false, true))
    else d
  }

  function StepRx(d: Dev, data: nat): (Dev, bool) {
    var rx := if d.rxIdx < |d.rx| then d.rx[d.rxIdx := data] else d.rx;
    var r := ReadData(RxControl(d)).(rxIdx := d.rxIdx + 1, rx := rx);
    (r, r.rxIdx == |r.rx|)
  }

  lemma {:induction false} RxControlKeeps(d: Dev)
    ensures RxControl(d).rx == d.rx && RxControl(d).rxIdx == d.rxIdx
  {
  }

  /** imx_sendaddr7 and imx_sendaddr10. The start depends on how the last transaction left the bus. */
  function SendAddress(d: Dev): Dev {
    var m := d.ctrl.(mtx := true);
    var started :=
      if d.bus == Stopped then d.(ctrl := m.(msta := true), log := d.log + [Start])
      else if d.bus == WaitRestart then d.(ctrl := m, log := d.log + [Restart])
      else d.(ctrl := m);
    WriteData(started, AddressByte(d.addr, d.ten, d.kind)).(bus := if d.ten then Addr10Msb else Addr7)
  }

  // ---- whole transactions ----

  /** The state after all the interrupts, the last one being the latest. */
  function After(d: Dev, ins: seq<Intr>): Dev {
    if ins == [] then d else Step(After(d, ins[..|ins| - 1]), ins[|ins| - 1]).0
  }

  /** Whether the latest interrupt raised the event. */
  predicate Event(d: Dev, ins: seq<Intr>)
    requires ins != []
  {
    Step(After(d, ins[..|ins| - 1]), ins[|ins| - 1]).1
  }

  /** Interrupt k, counted from one, raised the event. */
  predicate RaisedAt(d: Dev, ins: seq<Intr>, k: nat)
    requires 0 < k <= |ins|
  {
    Event(d, ins[..k])
  }

  /** None of the first m interrupts raised the event. */
  ghost predicate Quiet(d: Dev, ins: seq<Intr>, m: nat)
    requires m <= |ins|
  {
    forall k | 0 < k <= m :: !RaisedAt(d, ins, k)
  }

  /** The address has been sent and the slave's answer is awaited. */
  predicate Begun(d: Dev, kind: Kind) {
    && d.kind == kind && d.status == InProgress && d.error == NoError
    && (if kind == Send then d.txIdx == 0 else d.rxIdx == 0)
    && d.bus == (if d.ten then Addr10Msb else Addr7)
    && (if kind == Send then |d.tx| > 0 else |d.rx| > 0)
  }

  /** Interrupts before the data phase, besides the one after the first address byte. */
  function Lead(d: Dev): nat {
    if d.ten then 1 else 0
  }

  /** Interrupts of an undisturbed transaction. */
  function Needed(d: Dev): nat {
    Lead(d) + 1 + if d.kind == Send then |d.tx| else |d.rx|
  }

  /** The acknowledge bit of interrupt k matters: the first address byte, and the data of a
      send. That of the second address byte is never looked at. */
  predicate Tested(d: Dev, k: nat) {
    k == 0 || (d.kind == Send && k > Lead(d))
  }

  predicate Good(d: Dev, i: Intr, k: nat) {
    !i.ial && (Tested(d, k) ==> !i.rxak)
  }

  ghost predicate AllGood(d: Dev, ins: seq<Intr>) {
    forall k | 0 <= k < |ins| :: Good(d, ins[k], k)
  }

  function Writes(bytes: seq<nat>): (ops: seq<Op>)
    ensures |ops| == |bytes|
  {
    seq(|bytes|, i requires 0 <= i < |bytes| => Write(bytes[i]))
  }

  function LowByte(d: Dev): seq<nat> {
    if d.ten then [LowAddress(d.addr)] else []
  }

  /** A send after n good interrupts. */
  function TxState(d: Dev, n: nat): Dev
    requires n < Needed(d) && d.kind == Send
  {
    if n == 0 then d
    else if n <= Lead(d) then d.(bus := Addr10Lsb, log := d.log + Writes(LowByte(d)))
    else d.(bus := TxData, txIdx := n - Lead(d), log := Sent(d, n - Lead(d)))
  }

  lemma {:induction false} WritesNext(a: seq<nat>, b: nat)
    ensures Writes(a + [b]) == Writes(a) + [Write(b)]
  {
  }

  /** What a send has written after the address when k bytes of data are out. */
  function Sent(d: Dev, k: nat): seq<Op>
    requires k <= |d.tx|
  {
    d.log + Writes(LowByte(d) + d.tx[..k])
  }

  lemma {:induction false} SentNext(d: Dev, k: nat)
    requires k < |d.tx|
    ensures Sent(d, k + 1) == Sent(d, k) + [Write(d.tx[k])]
  {
    assert LowByte(d) + d.tx[..k + 1] == (LowByte(d) + d.tx[..k]) + [d.tx[k]];
    WritesNext(LowByte(d) + d.tx[..k], d.tx[k]);
  }

  lemma {:induction false} SentNone(d: Dev)
    ensures Sent(d, 0) == d.log + Writes(LowByte(d))
    ensures d.ten ==> Writes(LowByte(d)) == [Write(LowAddress(d.addr))]
    ensures !d.ten ==> Sent(d, 0) == d.log
  {
    assert LowByte(d) + d.tx[..0] == LowByte(d);
  }

  /** The interrupt after the first byte of a 10-bit address. */
  lemma {:induction false} LowAddressStep(s: Dev, i: Intr)
    requires s.bus == Addr10Msb && !i.ial && !i.rxak
    ensures Step(s, i) == (s.(bus := Addr10Lsb, log := s.log + [Write(LowAddress(s.addr))]), false)
  {
    hide LowAddress;
  }

  /** A byte of data goes out. */
  lemma {:induction false} TxDataStep(s: Dev, i: Intr)
    requires s.kind == Send && !i.ial && s.txIdx < |s.tx|
    requires s.bus == Addr10Lsb || ((s.bus == Addr7 || s.bus == TxData) && !i.rxak)
    ensures Step(s, i) == (s.(bus := TxData, txIdx := s.txIdx + 1, log := s.log + [Write(s.tx[s.txIdx])]), false)
  {
  }

  lemma {:induction false} TxStep(d: Dev, n: nat, i: Intr)
    requires Begun(d, Send) && n + 1 < Needed(d) && Good(d, i, n)
    ensures Step(TxState(d, n), i) == (TxState(d, n + 1), false)
  {
    hide Writes, LowByte, LowAddress, Sent, Step;
    SentNone(d);
    if n >= Lead(d) {
      SentNext(d, n - Lead(d));
      TxDataStep(TxState(d, n), i);
    } else {
      LowAddressStep(d, i);
    }
  }

  lemma {:induction false} TxLast(d: Dev, i: Intr)
    requires Begun(d, Send) && Good(d, i, Needed(d) - 1)
    ensures var r := Step(TxState(d, Needed(d) - 1), i);
      && r.1 && r.0.status == Complete && r.0.error == NoError
      && r.0.bus == (if d.stop then Stopped else WaitRestart)
      && r.0.log == Sent(d, |d.tx|) + (if d.stop && d.ctrl.msta then [Stop] else [])
  {
    hide Sent;
  }

  lemma {:induction false} TxBad(d: Dev, n: nat, i: Intr)
    requires Begun(d, Send) && n < Needed(d) && !Good(d, i, n)
    ensures var r := Step(TxState(d, n), i);
      && r.1 && r.0.status == Failed && r.0.error == (if i.ial then Arbl else Nack) && !r.0.ctrl.msta
      && r.0.log == TxState(d, n).log + (if !i.ial && d.ctrl.msta then [Stop] else [])
  {
    hide Sent, LowByte, Writes;
  }

  lemma {:induction false} AfterNext(d: Dev, ins: seq<Intr>, i: Intr)
    ensures After(d, ins + [i]) == Step(After(d, ins), i).0
    ensures Event(d, ins + [i]) == Step(After(d, ins), i).1
  {
    hide Step;
    assert (ins + [i])[..|ins|] == ins;
  }

  /** While everything is acknowledged, a send has put the address and the data so far on
      the bus. */
  lemma {:induction false} TxRun(d: Dev, ins: seq<Intr>)
    requires Begun(d, Send) && AllGood(d, ins) && |ins| < Needed(d)
    ensures After(d, ins) == TxState(d, |ins|)
  {
    hide Step, TxState;
    if ins == [] {
      TxStart(d);
    } else {
      var n := |ins| - 1;
      var i := ins[n];
      assert ins == ins[..n] + [i] && Good(d, i, n);
      TxRun(d, ins[..n]);
      TxStep(d, n, i);
      AfterNext(d, ins[..n], i);
    }
  }

  lemma {:induction false} TxStart(d: Dev)
    requires Begun(d, Send)
    ensures TxState(d, 0) == d
  {
  }

  // ---- receiving ----

  /** k bytes clocked out of the slave: only byte len - 1 is not acknowledged. */
  function Clocks(k: nat, len: nat): (ops: seq<Op>)
    ensures |ops| == k
  {
    seq(k, j => Clock(j == len - 1))
  }

  lemma {:induction false} ClocksNext(k: nat, len: nat)
    ensures Clocks(k + 1, len) == Clocks(k, len) + [Clock(k == len - 1)]
  {
  }

  /** The bytes found in the data register from interrupt lo on. */
  function DataFrom(ins: seq<Intr>, lo: nat): (bytes: seq<nat>)
    requires lo <= |ins|
    ensures |bytes| == |ins| - lo
  {
    if lo == |ins| then [] else DataFrom(ins[..|ins| - 1], lo) + [ins[|ins| - 1].data]
  }

  lemma {:induction false} DataAt(ins: seq<Intr>, lo: nat, j: nat)
    requires lo <= j < |ins|
    ensures DataFrom(ins, lo)[j - lo] == ins[j].data
  {
    if j < |ins| - 1 { DataAt(ins[..|ins| - 1], lo, j); }
  }

  lemma {:induction false} DataNext(ins: seq<Intr>, i: Intr, lo: nat)
    requires lo <= |ins|
    ensures DataFrom(ins + [i], lo) == DataFrom(ins, lo) + [i.data]
  {
    assert (ins + [i])[..|ins|] == ins;
  }

  /** What a receive has done on the bus when k bytes have been clocked. */
  function Clocked(d: Dev, k: nat): seq<Op> {
    d.log + Writes(LowByte(d)) + Clocks(k, |d.rx|)
  }

  lemma {:induction false} ClockedNext(d: Dev, k: nat)
    ensures Clocked(d, k + 1) == Clocked(d, k) + [Clock(k == |d.rx| - 1)]
  {
    hide Writes, LowByte, Clocks;
    ClocksNext(k, |d.rx|);
  }

  lemma {:induction false} ClockedNone(d: Dev)
    ensures Clocked(d, 0) == d.log + Writes(LowByte(d))
    ensures !d.ten ==> Clocked(d, 0) == d.log
    ensures d.ten ==> Clocked(d, 0) == d.log + [Write(LowAddress(d.addr))]
  {
  }

  /** A receive after the good interrupts ins. */
  function RxState(d: Dev, ins: seq<Intr>): Dev
    requires |ins| < Needed(d) && d.kind == Receive
  {
    if ins == [] then d
    else if |ins| <= Lead(d) then d.(bus := Addr10Lsb, log := Clocked(d, 0))
    else
      var k := |ins| - Lead(d) - 1;
      d.(bus := RxData, rxIdx := k, rx := DataFrom(ins, Lead(d) + 1) + d.rx[k..],
         ctrl := Ctrl(true, false, k == |d.rx| - 1), log := Clocked(d, k + 1))
  }

  lemma {:induction false} RxStep(d: Dev, ins: seq<Intr>, i: Intr)
    requires Begun(d, Receive) && |ins| + 1 < Needed(d) && Good(d, i, |ins|)
    ensures Step(RxState(d, ins), i) == (RxState(d, ins + [i]), false)
  {
    if |ins| > Lead(d) {
      RxStepData(d, ins, i);
    } else {
      RxStepAddress(d, ins, i);
    }
  }

  lemma {:induction false} RxStepAddress(d: Dev, ins: seq<Intr>, i: Intr)
    requires Begun(d, Receive) && |ins| + 1 < Needed(d) && Good(d, i, |ins|) && |ins| <= Lead(d)
    ensures Step(RxState(d, ins), i) == (RxState(d, ins + [i]), false)
  {
    hide Clocked, DataFrom, Step, LowAddress;
    ClockedNone(d);
    if |ins| < Lead(d) {
      LowAddressStep(d, i);
    } else {
      ClockedNext(d, 0);
      RxDummyRead(RxState(d, ins), i);
      assert DataFrom(ins + [i], Lead(d) + 1) + d.rx[0..] == d.rx;
    }
  }

  /** The interrupt after the address makes the slave send its first byte. */
  lemma {:induction false} RxDummyRead(s: Dev, i: Intr)
    requires s.kind == Receive && !i.ial && (s.bus == Addr10Lsb || (s.bus == Addr7 && !i.rxak))
    ensures Step(s, i) ==
      (s.(bus := RxData, ctrl := Ctrl(true, false, |s.rx| == 1), log := s.log + [Clock(|s.rx| == 1)]), false)
  {
    hide StepRx, StepTx;
  }

  lemma {:induction false} RxStepData(d: Dev, ins: seq<Intr>, i: Intr)
    requires Begun(d, Receive) && |ins| + 1 < Needed(d) && Good(d, i, |ins|) && |ins| > Lead(d)
    ensures Step(RxState(d, ins), i) == (RxState(d, ins + [i]), false)
  {
    hide Clocked, DataFrom, StepTx;
    var k := |ins| - Lead(d) - 1;
    ClockedNext(d, k + 1);
    DataNext(ins, i, Lead(d) + 1);
    PutByte(DataFrom(ins, Lead(d) + 1), d.rx, i.data, k);
  }

  /** Storing byte k behind the first k bytes. */
  lemma {:induction false} PutByte(b: seq<nat>, rx: seq<nat>, x: nat, k: nat)
    requires |b| == k < |rx|
    ensures (b + rx[k..])[k := x] == b + [x] + rx[k + 1..]
  {
  }

  lemma {:induction false} RxLast(d: Dev, ins: seq<Intr>, i: Intr)
    requires Begun(d, Receive) && |ins| == Needed(d) - 1 && Good(d, i, |ins|)
    ensures var r := Step(RxState(d, ins), i);
      && r.1 && r.0.status == Complete && r.0.error == NoError
      && r.0.bus == (if d.stop then Stopped else WaitRestart)
      && r.0.rx == DataFrom(ins + [i], Lead(d) + 1) && r.0.rxIdx == |d.rx|
      && r.0.log == Clocked(d, |d.rx|) + (if d.stop then [Stop] else [])
  {
    hide Clocked, DataFrom, Step, StepRx, LowByte, Writes;
    var s := RxState(d, ins);
    StepReceives(s, i);
    RxLastByte(s, i.data);
    DataNext(ins, i, Lead(d) + 1);
    PutByte(DataFrom(ins, Lead(d) + 1), d.rx, i.data, |d.rx| - 1);
  }

  lemma {:induction false} StepReceives(s: Dev, i: Intr)
    requires s.bus == RxData && !i.ial
    ensures Step(s, i) == StepRx(s, i.data)
  {
    hide StepRx, StepTx;
  }

  /** The last byte is read when the stop has been set up, so nothing more is clocked. */
  lemma {:induction false} RxLastByte(s: Dev, data: nat)
    requires s.rxIdx == |s.rx| - 1 && s.ctrl.msta
    ensures var r := StepRx(s, data);
      && r.1 && r.0.status == Complete && r.0.error == s.error
      && r.0.bus == (if s.stop then Stopped else WaitRestart)
      && r.0.rx == s.rx[s.rxIdx := data] && r.0.rxIdx == |s.rx|
      && r.0.log == s.log + (if s.stop then [Stop] else [])
  {
  }

  lemma {:induction false} RxBad(d: Dev, ins: seq<Intr>, i: Intr)
    requires Begun(d, Receive) && |ins| < Needed(d) && !Good(d, i, |ins|)
    ensures var r := Step(RxState(d, ins), i);
      && r.1 && r.0.status == Failed && r.0.error == (if i.ial then Arbl else Nack) && !r.0.ctrl.msta
      && r.0.rx == RxState(d, ins).rx
  {
    hide Clocked, DataFrom;
  }

  /** While nothing goes wrong, a receive has clocked out one byte more than it has stored. */
  lemma {:induction false} RxRun(d: Dev, ins: seq<Intr>)
    requires Begun(d, Receive) && AllGood(d, ins) && |ins| < Needed(d)
    ensures After(d, ins) == RxState(d, ins)
  {
    hide Step, RxState;
    if ins == [] {
      RxStart(d);
    } else {
      var n := |ins| - 1;
      var i := ins[n];
      assert ins == ins[..n] + [i] && Good(d, i, n);
      RxRun(d, ins[..n]);
      RxStep(d, ins[..n], i);
      AfterNext(d, ins[..n], i);
    }
  }

  lemma {:induction false} RxStart(d: Dev)
    requires Begun(d, Receive)
    ensures RxState(d, []) == d
  {
  }

  // ---- events nobody waits for ----

  /** How many of the interrupts raise the event. */
  function Events(d: Dev, ins: seq<Intr>): nat {
    if ins == [] then 0 else Events(d, ins[..|ins| - 1]) + if Event(d, ins) then 1 else 0
  }

  lemma {:induction false} EventsNone(d: Dev)
    ensures Events(d, []) == 0
  {
  }

  lemma {:induction false} EventsNext(d: Dev, ins: seq<Intr>, i: Intr)
    ensures Events(d, ins + [i]) == Events(d, ins) + if Step(After(d, ins), i).1 then 1 else 0
  {
    hide Step;
    assert (ins + [i])[..|ins|] == ins;
  }

  /** Handling interrupts in two parts. */
  lemma {:induction false} EventsJoin(d: Dev, ins: seq<Intr>, late: seq<Intr>)
    ensures After(d, ins + late) == After(After(d, ins), late)
    ensures Events(d, ins + late) == Events(d, ins) + Events(After(d, ins), late)
  {
    hide Step;
    if late == [] {
      assert ins + late == ins;
    } else {
      var k := |late| - 1;
      EventsJoin(d, ins, late[..k]);
      assert late == late[..k] + [late[k]];
      assert ins + late == (ins + late[..k]) + [late[k]];
      EventsNext(d, ins + late[..k], late[k]);
      AfterNext(d, ins + late[..k], late[k]);
    }
  }

  lemma {:induction false} EventsIfRaised(d: Dev, ins: seq<Intr>, k: nat)
    requires 0 < k <= |ins| && RaisedAt(d, ins, k)
    ensures Events(d, ins) > 0
  {
    hide Step;
    if k < |ins| {
      var r := ins[..|ins| - 1];
      assert r[..k] == ins[..k];
      EventsIfRaised(d, r, k);
    } else {
      assert ins[..k] == ins;
    }
  }

  lemma {:induction false} NoEventsIfQuiet(d: Dev, ins: seq<Intr>)
    requires Quiet(d, ins, |ins|)
    ensures Events(d, ins) == 0
  {
    hide Step;
    if ins != [] {
      var r := ins[..|ins| - 1];
      forall k | 0 < k <= |r|
        ensures !RaisedAt(d, r, k)
      {
        assert r[..k] == ins[..k] && !RaisedAt(d, ins, k);
      }
      NoEventsIfQuiet(d, r);
      assert ins[..|ins|] == ins && !RaisedAt(d, ins, |ins|);
    }
  }

  // ---- how a transaction ends ----

  /** Good interrupts at the front, up to the number needed. */
  function Leading(d: Dev, ins: seq<Intr>, k: nat): (g: nat)
    requires k <= |ins| && k <= Needed(d)
    ensures k <= g <= |ins| && g <= Needed(d)
    ensures forall j | k <= j < g :: Good(d, ins[j], j)
    ensures g < |ins| && g < Needed(d) ==> !Good(d, ins[g], g)
    decreases |ins| - k
  {
    if k < |ins| && k < Needed(d) && Good(d, ins[k], k) then Leading(d, ins, k + 1) else k
  }

  /** n interrupts were taken: up to the first one that raised the event, or all. */
  ghost predicate Taken(d: Dev, ins: seq<Intr>, n: nat) {
    && n <= |ins|
    && (if n > 0 then Quiet(d, ins, n - 1) else ins == [])
    && (n < |ins| ==> RaisedAt(d, ins, n))
  }

  lemma {:induction false} TakeOne(ins: seq<Intr>, m: nat)
    requires m < |ins|
    ensures ins[..m + 1] == ins[..m] + [ins[m]]
  {
  }

  /** Good interrupts short of the number needed raise nothing. */
  lemma {:induction false} NotYet(d: Dev, ins: seq<Intr>, k: nat)
    requires Begun(d, d.kind) && 0 < k <= |ins| && k < Needed(d) && AllGood(d, ins[..k])
    ensures !RaisedAt(d, ins, k)
  {
    hide Step, TxState, RxState, Begun;
    var before, i := ins[..k - 1], ins[k - 1];
    TakeOne(ins, k - 1);
    AfterNext(d, before, i);
    assert AllGood(d, before) && Good(d, i, k - 1);
    if d.kind == Send {
      TxRun(d, before);
      TxStep(d, k - 1, i);
    } else {
      RxRun(d, before);
      RxStep(d, before, i);
    }
  }

  /** The event comes with the last needed interrupt or the first bad one, and only then. */
  lemma {:induction false} TakenExactly(d: Dev, ins: seq<Intr>, n: nat)
    requires Begun(d, d.kind) && Taken(d, ins, n)
    ensures var g := Leading(d, ins, 0);
      n == if g == Needed(d) || g == |ins| then g else g + 1
  {
    hide RaisedAt, Begun, Good;
    var g := Leading(d, ins, 0);
    var m := if g == Needed(d) then g - 1 else g;
    if 0 < n <= m && n < |ins| {
      GoodPrefix(d, ins, n);
      NotYet(d, ins, n);
    } else if n > m + 1 {
      EventAfter(d, ins, m);
    }
  }

  lemma {:induction false} GoodPrefix(d: Dev, ins: seq<Intr>, k: nat)
    requires k <= Leading(d, ins, 0)
    ensures AllGood(d, ins[..k])
  {
  }

  /** After all the good interrupts, the next one raises the event. */
  lemma {:induction false} EventAfter(d: Dev, ins: seq<Intr>, m: nat)
    requires Begun(d, d.kind) && m < |ins|
    requires var g := Leading(d, ins, 0); m == if g == Needed(d) then g - 1 else g
    ensures RaisedAt(d, ins, m + 1)
  {
    hide Step, TxState, RxState, Begun, Writes, Clocked, Sent, LowByte, DataFrom;
    var i := ins[m];
    TakeOne(ins, m);
    AfterNext(d, ins[..m], i);
    GoodPrefix(d, ins, m);
    if d.kind == Send {
      TxRun(d, ins[..m]);
      if Good(d, i, m) { TxLast(d, i); } else { TxBad(d, m, i); }
    } else {
      RxRun(d, ins[..m]);
      if Good(d, i, m) { RxLast(d, ins[..m], i); } else { RxBad(d, ins[..m], i); }
    }
  }

  lemma {:induction false} SendCompletes(d: Dev, ins: seq<Intr>)
    requires Begun(d, Send) && Leading(d, ins, 0) == Needed(d)
    ensures var t := After(d, ins[..Needed(d)]);
      && t.status == Complete && t.error == NoError && t.bus == (if d.stop then Stopped else WaitRestart)
      && t.log == Sent(d, |d.tx|) + (if d.stop && d.ctrl.msta then [Stop] else [])
  {
    hide Step, Sent, TxState, Leading;
    var m := Needed(d) - 1;
    TakeOne(ins, m);
    AfterNext(d, ins[..m], ins[m]);
    GoodPrefix(d, ins, m);
    TxRun(d, ins[..m]);
    TxLast(d, ins[m]);
  }

  lemma {:induction false} SendFails(d: Dev, ins: seq<Intr>, g: nat)
    requires Begun(d, Send) && g == Leading(d, ins, 0) && g < Needed(d) && g < |ins|
    ensures var t := After(d, ins[..g + 1]);
      && t.status == Failed && t.error == (if ins[g].ial then Arbl else Nack) && !t.ctrl.msta
      && t.log == TxState(d, g).log + (if !ins[g].ial && d.ctrl.msta then [Stop] else [])
  {
    hide Step, Sent, TxState, Leading;
    TakeOne(ins, g);
    AfterNext(d, ins[..g], ins[g]);
    GoodPrefix(d, ins, g);
    TxRun(d, ins[..g]);
    TxBad(d, g, ins[g]);
  }

  lemma {:induction false} ReceiveCompletes(d: Dev, ins: seq<Intr>)
    requires Begun(d, Receive) && Leading(d, ins, 0) == Needed(d)
    ensures var t := After(d, ins[..Needed(d)]);
      && t.status == Complete && t.error == NoError && t.bus == (if d.stop then Stopped else WaitRestart)
      && t.rx == DataFrom(ins[..Needed(d)], Lead(d) + 1)
      && t.log == Clocked(d, |d.rx|) + (if d.stop then [Stop] else [])
  {
    hide Step, Clocked, DataFrom, RxState, Leading;
    var m := Needed(d) - 1;
    TakeOne(ins, m);
    AfterNext(d, ins[..m], ins[m]);
    GoodPrefix(d, ins, m);
    RxRun(d, ins[..m]);
    RxLast(d, ins[..m], ins[m]);
  }

  lemma {:induction false} ReceiveFails(d: Dev, ins: seq<Intr>, g: nat)
    requires Begun(d, Receive) && g == Leading(d, ins, 0) && g < Needed(d) && g < |ins|
    ensures var t := After(d, ins[..g + 1]);
      t.status == Failed && t.error == (if ins[g].ial then Arbl else Nack) && !t.ctrl.msta
  {
    hide Step, Clocked, DataFrom, RxState, Leading;
    TakeOne(ins, g);
    AfterNext(d, ins[..g], ins[g]);
    GoodPrefix(d, ins, g);
    RxRun(d, ins[..g]);
    RxBad(d, ins[..g], ins[g]);
  }

  /** A transaction is announced by a start or a repeated start exactly when the last one
      left the bus stopped or waiting for a restart. */
  lemma {:induction false} StartsFromRest(d: Dev)
    ensures var b := Write(AddressByte(d.addr, d.ten, d.kind));
      SendAddress(d).log == d.log + match d.bus
        case Stopped => [Start, b]
        case WaitRestart => [Restart, b]
        case _ => [b]
    ensures SendAddress(d) == d.(ctrl := SendAddress(d).ctrl, log := SendAddress(d).log, bus := SendAddress(d).bus)
    ensures SendAddress(d).bus == (if d.ten then Addr10Msb else Addr7)
    ensures d.bus == Stopped ==> SendAddress(d).ctrl.msta
    ensures d.bus != Stopped ==> SendAddress(d).ctrl.msta == d.ctrl.msta
  {
    var b := Write(AddressByte(d.addr, d.ten, d.kind));
    assert d.log + [Start] + [b] == d.log + [Start, b];
    assert d.log + [Restart] + [b] == d.log + [Restart, b];
  }

  // ---- the driver ----

  datatype Result = DONE | BUSY | ERROR | ARBL | NACK

  /** The error of a failed transaction, for the caller. */
  function ResultOf(e: Error): Result {
    match e
    case Arbl => ARBL
    case Nack => NACK
    case _ => ERROR
  }

  /** Where the next transaction can start properly. */
  predicate AtRest(bus: BusState) {
    bus == Stopped || bus == WaitRestart
  }

  /** The reset while waiting for an idle bus. */
  function Idled(d: Dev, busy: bool, idle1: bool): Dev {
    if d.bus == Stopped && busy && !idle1 then SetCtrl(d, Ctrl(false, false, false)) else d
  }

  /** The bus stays busy although the controller was reset. */
  predicate Blocked(bus: BusState, busy: bool, idle1: bool, idle2: bool) {
    bus == Stopped && busy && !idle1 && !idle2
  }

  /** The transaction as announced on the bus. */
  function SendBegun(d: Dev, buf: seq<nat>, stop: bool): Dev {
    SendAddress(d.(kind := Send, status := InProgress, error := NoError, tx := buf, txIdx := 0, stop := stop))
  }

  lemma {:induction false} SendBegins(d: Dev, buf: seq<nat>, stop: bool)
    requires buf != []
    ensures Begun(SendBegun(d, buf, stop), Send)
  {
  }

  lemma {:induction false} InProgressStays(d: Dev, n: nat)
    requires Begun(d, Send)
    ensures n < Needed(d) ==> TxState(d, n).status == InProgress
  {
  }

  /** What a send of d comes to: DONE exactly when the address and every byte of data were
      acknowledged without loss of arbitration, by as many interrupts as there are bytes and
      one more; the bus is then released or held as requested. On a timeout the transaction
      stays where it was. */
  ghost predicate SendResult(d: Dev, ins: seq<Intr>, t: Dev, r: Result) {
    var g := Leading(d, ins, 0);
    && d.kind == Send
    && (if g == Needed(d) then
          r == DONE && t.bus == (if d.stop then Stopped else WaitRestart) &&
          t.log == Sent(d, |d.tx|) + (if d.stop && d.ctrl.msta then [Stop] else [])
        else if g == |ins| then
          r == BUSY && t == TxState(d, g)
        else
          r == (if ins[g].ial then ARBL else NACK) && t.bus == Stopped &&
          TxState(d, g).log <= t.log <= TxState(d, g).log + [Stop])
  }

  /** A send that has not ended is not at rest; one that has is. */
  lemma {:induction false} SendRest(d: Dev, ins: seq<Intr>)
    requires Begun(d, Send)
    ensures !AtRest(d.bus)
    ensures forall t, r :: SendResult(d, ins, t, r) ==> (AtRest(t.bus) <==> r != BUSY)
  {
    hide Sent, Leading;
  }

  /** The status says whether a transaction is still on the bus. */
  lemma {:induction false} StatusRest(d: Dev, ins: seq<Intr>)
    requires Begun(d, d.kind)
    ensures var t := After(d, ins);
      (t.status == InProgress ==> !AtRest(t.bus)) && (t.status == Complete ==> AtRest(t.bus))
  {
    if ins != [] {
      var t := After(d, ins[..|ins| - 1]);
      StatusRest(d, ins[..|ins| - 1]);
      StatusStep(t, ins[|ins| - 1]);
    }
  }

  lemma {:induction false} StatusStep(t: Dev, i: Intr)
    requires (t.status == InProgress ==> !AtRest(t.bus)) && (t.status == Complete ==> AtRest(t.bus))
    ensures var u := Step(t, i).0;
      (u.status == InProgress ==> !AtRest(u.bus)) && (u.status == Complete ==> AtRest(u.bus))
  {
    hide StepTx, StepRx, LowAddress;
    StatusTx(t.(bus := TxData));
    if t.bus == RxData {
      StatusRx(t, i.data);
    }
  }

  lemma {:induction false} StatusTx(t: Dev)
    requires t.bus == TxData
    ensures var u := StepTx(t).0;
      if u.status == Complete && t.txIdx >= |t.tx| then AtRest(u.bus) else u.status == t.status && u.bus == TxData
  {
  }

  lemma {:induction false} StatusRx(t: Dev, data: nat)
    requires t.bus == RxData
    ensures var u := StepRx(t, data).0;
      (u.status == Complete && AtRest(u.bus)) || (u.status == t.status && u.bus == RxData)
  {
  }

  lemma {:induction false} NeverBusy(e: Error)
    ensures ResultOf(e) != BUSY
  {
  }

  /** A send cut short after n of its interrupts by an event left over from before: the
      caller takes the status of that moment for the outcome. */
  ghost predicate SendCut(d: Dev, ins: seq<Intr>, n: nat, t: Dev, r: Result) {
    && n <= |ins|
    && var u := After(d, ins[..n]);
       match u.status
       case InProgress => r == BUSY && t == u
       case Failed => r == ResultOf(u.error) && t == ResetDev(u)
       case Complete => r == DONE && t == u
  }

  /** The same for a receive. */
  ghost predicate ReceiveCut(d: Dev, ins: seq<Intr>, n: nat, t: Dev, r: Result) {
    && n <= |ins|
    && var u := After(d, ins[..n]);
       match u.status
       case InProgress => r == ERROR && t == ResetDev(u)
       case Failed => r == ResultOf(u.error) && t == ResetDev(u)
       case Complete => r == DONE && t == u
  }

  /** imx_i2c_reset. */
  function ResetDev(d: Dev): Dev {
    SetCtrl(d, Ctrl(false, false, false)).(bus := Stopped)
  }

  lemma {:induction false} SendEnds(d: Dev, ins: seq<Intr>, n: nat)
    requires Begun(d, Send) && Taken(d, ins, n)
    ensures var t := After(d, ins[..n]);
      match t.status
      case InProgress => SendResult(d, ins, t, BUSY)
      case Failed => SendResult(d, ins, ResetDev(t), ResultOf(t.error))
      case Complete => SendResult(d, ins, t, DONE)
  {
    hide Sent, TxState, Taken, After, Step, Leading;
    var g := Leading(d, ins, 0);
    TakenExactly(d, ins, n);
    if g == Needed(d) {
      SendCompletes(d, ins);
    } else if g < |ins| {
      SendFails(d, ins, g);
    } else {
      GoodPrefix(d, ins, g);
      assert ins[..g] == ins;
      TxRun(d, ins);
      InProgressStays(d, g);
    }
  }

  function ReceiveBegun(d: Dev, rx: seq<nat>, stop: bool): Dev {
    SendAddress(d.(kind := Receive, status := InProgress, error := NoError, rx := rx, rxIdx := 0, stop := stop))
  }

  lemma {:induction false} ReceiveBegins(d: Dev, rx: seq<nat>, stop: bool)
    requires rx != []
    ensures Begun(ReceiveBegun(d, rx, stop), Receive)
  {
  }

  /** What a receive of d comes to: DONE exactly when the address was acknowledged and
      arbitration kept, by as many interrupts as there are bytes and one more; the slave has
      then been clocked for exactly the bytes asked for, only the last one was not
      acknowledged, and they are in the buffer in order. A timeout releases the bus. */
  ghost predicate ReceiveResult(d: Dev, ins: seq<Intr>, t: Dev, r: Result) {
    var g := Leading(d, ins, 0);
    && d.kind == Receive
    && (if g == Needed(d) then
          r == DONE && t.bus == (if d.stop then Stopped else WaitRestart) &&
          t.rx == DataFrom(ins[..g], Lead(d) + 1) &&
          t.log == Clocked(d, |d.rx|) + (if d.stop then [Stop] else [])
        else if g == |ins| then
          r == ERROR && t == ResetDev(RxState(d, ins))
        else
          r == (if ins[g].ial then ARBL else NACK) && t.bus == Stopped)
  }

  lemma {:induction false} ReceivingStays(d: Dev, ins: seq<Intr>)
    requires Begun(d, Receive)
    ensures |ins| < Needed(d) ==> RxState(d, ins).status == InProgress
  {
  }

  lemma {:induction false} ReceiveEnds(d: Dev, ins: seq<Intr>, n: nat)
    requires Begun(d, Receive) && Taken(d, ins, n)
    ensures var t := After(d, ins[..n]);
      match t.status
      case InProgress => ReceiveResult(d, ins, ResetDev(t), ERROR)
      case Failed => ReceiveResult(d, ins, ResetDev(t), ResultOf(t.error))
      case Complete => ReceiveResult(d, ins, t, DONE)
  {
    hide Clocked, DataFrom, RxState, Taken, After, Step, Leading;
    var g := Leading(d, ins, 0);
    TakenExactly(d, ins, n);
    if g == Needed(d) {
      ReceiveCompletes(d, ins);
    } else if g < |ins| {
      ReceiveFails(d, ins, g);
    } else {
      GoodPrefix(d, ins, g);
      assert ins[..g] == ins;
      RxRun(d, ins);
      ReceivingStays(d, ins);
    }
  }

  /** What a receive that is DONE has done: byte j is what the j-th interrupt after the
      address brought; on the bus exactly the bytes asked for were clocked, the last one and
      no other without an acknowledge, then the stop if it was requested. */
  lemma {:induction false} DoneReceive(d: Dev, ins: seq<Intr>, t: Dev)
    requires Begun(d, Receive) && ReceiveResult(d, ins, t, DONE)
    ensures |t.rx| == |d.rx| && |ins| >= Lead(d) + 1 + |d.rx|
    ensures forall j | 0 <= j < |d.rx| :: t.rx[j] == ins[Lead(d) + 1 + j].data
    ensures |t.log| == |d.log| + Lead(d) + |d.rx| + if d.stop then 1 else 0
    ensures forall k | |d.log| + Lead(d) <= k < |d.log| + Lead(d) + |d.rx| ::
      t.log[k] == Clock(k == |d.log| + Lead(d) + |d.rx| - 1)
    ensures d.stop ==> t.log[|t.log| - 1] == Stop
  {
    forall j | 0 <= j < |d.rx|
      ensures t.rx[j] == ins[Lead(d) + 1 + j].data
    {
      DataAt(ins[..Needed(d)], Lead(d) + 1, Lead(d) + 1 + j);
    }
  }

  /** What a send that is DONE has written after the first address byte: the rest of the
      address, then the whole buffer in order. */
  lemma {:induction false} DoneSend(d: Dev, ins: seq<Intr>, t: Dev)
    requires Begun(d, Send) && SendResult(d, ins, t, DONE)
    ensures |t.log| == |d.log| + Lead(d) + |d.tx| + if d.stop && d.ctrl.msta then 1 else 0
    ensures d.ten ==> t.log[|d.log|] == Write(LowAddress(d.addr))
    ensures forall j | 0 <= j < |d.tx| :: t.log[|d.log| + Lead(d) + j] == Write(d.tx[j])
  {
    hide Leading, TxState, Begun;
    SentAll(d);
  }

  lemma {:induction false} SentAll(d: Dev)
    ensures |Sent(d, |d.tx|)| == |d.log| + Lead(d) + |d.tx|
    ensures d.ten ==> Sent(d, |d.tx|)[|d.log|] == Write(LowAddress(d.addr))
    ensures forall j | 0 <= j < |d.tx| :: Sent(d, |d.tx|)[|d.log| + Lead(d) + j] == Write(d.tx[j])
  {
    assert d.tx[..|d.tx|] == d.tx;
  }

  /** A send that timed out leaves a bus state from which the next transaction is announced
      without a start. */
  lemma {:induction false} TimedOutSendLosesStart(d: Dev, n: nat, buf: seq<nat>, stop: bool)
    requires Begun(d, Send) && n < Needed(d)
    ensures var t := TxState(d, n);
      !AtRest(t.bus) && SendBegun(t, buf, stop).log == t.log + [Write(AddressByte(t.addr, t.ten, Send))]
  {
    var t := TxState(d, n);
    StartsFromRest(t.(kind := Send, status := InProgress, error := NoError, tx := buf, txIdx := 0, stop := stop));
  }

  /** The acknowledge of the second address byte is not looked at: a send whose only refusal
      is that one completes. */
  lemma {:induction false} SecondAddressUntested(d: Dev, ins: seq<Intr>)
    requires Begun(d, Send) && d.ten && |ins| == Needed(d) && (forall i | i in ins :: !i.ial)
    requires forall k | 0 <= k < |ins| && k != 1 :: !ins[k].rxak
    ensures Leading(d, ins, 0) == Needed(d)
  {
  }

  /** All interrupts so far are good and there are not enough: no event. */
  lemma {:induction false} QuietSoFar(d: Dev, ins: seq<Intr>)
    requires Begun(d, d.kind) && Leading(d, ins, 0) == |ins| < Needed(d)
    ensures Quiet(d, ins, |ins|) && Events(d, ins) == 0
  {
    hide RaisedAt, Begun, Good;
    forall k | 0 < k <= |ins|
      ensures !RaisedAt(d, ins, k)
    {
      GoodPrefix(d, ins, k);
      NotYet(d, ins, k);
    }
    NoEventsIfQuiet(d, ins);
  }

  /** A send timed out after the interrupts ins. The ones that still come leave an event in
      the channel exactly if they finish or break off the transaction. */
  lemma {:induction false} StaleAfterSend(d: Dev, ins: seq<Intr>, late: seq<Intr>)
    requires Begun(d, Send) && Leading(d, ins, 0) == |ins| < Needed(d)
    ensures Events(TxState(d, |ins|), late) > 0 <==>
      var g := Leading(d, ins + late, 0); g == Needed(d) || g < |ins + late|
  {
    hide RaisedAt, Begun, Good, TxState, Events, Leading, Needed, After, Quiet, AllGood;
    var all := ins + late;
    var g := Leading(d, all, 0);
    GoodPrefix(d, ins, |ins|);
    assert ins[..|ins|] == ins;
    BegunSends(d);
    TxRun(d, ins);
    QuietSoFar(d, ins);
    EventsJoin(d, ins, late);
    if g == Needed(d) || g < |all| {
      var m := if g == Needed(d) then g - 1 else g;
      EventAfter(d, all, m);
      EventsIfRaised(d, all, m + 1);
    } else {
      QuietSoFar(d, all);
    }
  }

  lemma {:induction false} BegunSends(d: Dev)
    requires Begun(d, Send)
    ensures d.kind == Send
  {
  }

  /** Once the bus is at rest, as after a receive that timed out, every interrupt that still
      comes leaves an event in the channel. */
  lemma {:induction false} StaleAtRest(d: Dev, late: seq<Intr>)
    requires AtRest(d.bus)
    ensures Events(d, late) == |late| && After(d, late).bus == d.bus
  {
    if late != [] {
      StaleAtRest(d, late[..|late| - 1]);
    }
  }

  /** A left-over event does not wear off: the send it cuts short goes on, and if all of it
      is acknowledged it leaves one event in its turn. */
  lemma {:induction false} StalePersists(d: Dev, ins: seq<Intr>)
    requires Begun(d, Send) && |ins| == Needed(d) && AllGood(d, ins)
    ensures Events(d, ins) == 1
  {
    hide Begun, Step, Events, RaisedAt;
    var m := Needed(d) - 1;
    assert ins == ins[..m] + [ins[m]];
    BegunSends(d);
    AllLead(d, ins[..m]);
    QuietSoFar(d, ins[..m]);
    EventsNext(d, ins[..m], ins[m]);
    AllLead(d, ins);
    EventAfter(d, ins, m);
    AfterNext(d, ins[..m], ins[m]);
    RaisedLast(d, ins);
  }

  lemma {:induction false} RaisedLast(d: Dev, ins: seq<Intr>)
    requires ins != [] && RaisedAt(d, ins, |ins|)
    ensures Event(d, ins)
  {
    assert ins[..|ins|] == ins;
  }

  lemma {:induction false} AllLead(d: Dev, ins: seq<Intr>)
    requires AllGood(d, ins) && |ins| <= Needed(d)
    ensures Leading(d, ins, 0) == |ins|
  {
  }

  class Device {
    var addr: nat
    var ten: bool
    var kind: Kind
    var status: Status
    var error: Error
    var bus: BusState
    var stop: bool
    var txBuf: seq<nat>
    var txIdx: nat
    var rxBuf: array<nat>
    var rxIdx: nat
    var ctrl: Ctrl
    var pulses: nat        // events sent to the channel and not yet received
    ghost var log: seq<Op>

    ghost function View(): Dev
      reads this, rxBuf
    {
      Dev(addr, ten, kind, status, error, bus, stop, txBuf, txIdx, rxBuf[..], rxIdx, ctrl, log)
    }

    /** The handler never indexes outside the receive buffer. */
    ghost predicate Fits()
      reads this
    {
      bus == RxData || (kind == Receive && (bus == Addr7 || bus == Addr10Msb || bus == Addr10Lsb)) ==>
        rxIdx < rxBuf.Length
    }

    constructor (addr: nat, ten: bool)
      ensures Fits() && bus == Stopped && log == [] && this.addr == addr && this.ten == ten && !ctrl.msta && pulses == 0
      ensures fresh(rxBuf)
    {
      this.addr, this.ten, kind, status, error := addr, ten, Send, Complete, NoError;
      bus, stop, txBuf, txIdx, rxIdx, ctrl, log := Stopped, false, [], 0, 0, Ctrl(false, false, false), [];
      pulses := 0;
      rxBuf := new nat[0];
    }

    method PutCtrl(c: Ctrl)
      modifies this`ctrl, this`log
      ensures ctrl == c && log == if old(ctrl.msta) && !c.msta then old(log) + [Stop] else old(log)
    {
      log := if ctrl.msta && !c.msta then log + [Stop] else log;
      ctrl := c;
    }

    method PutData(b: nat)
      modifies this`log
      ensures log == old(log) + [Write(b)]
    {
      log := log + [Write(b)];
    }

    method GetData()
      modifies this`log
      ensures log == if ctrl.msta && !ctrl.mtx then old(log) + [Clock(ctrl.txak)] else old(log)
    {
      log := if ctrl.msta && !ctrl.mtx then log + [Clock(ctrl.txak)] else log;
    }

    /** imx_i2c_intr; the event unblocks the caller. */
    method Handle(i: Intr) returns (event: bool)
      requires Fits()
      modifies this, rxBuf
      ensures Fits() && rxBuf == old(rxBuf) && pulses == old(pulses) && (View(), event) == Step(old(View()), i)
    {
      hide StepTx, StepRx, SetCtrl, ReadData, WriteData;
      if i.ial {
        status, error, ctrl := Failed, Arbl, Ctrl(false, false, false);
        return true;
      }
      if (bus == Addr7 || bus == Addr10Msb || bus == TxData) && i.rxak {
        FailNack();
        return true;
      }
      if bus == Addr10Msb {
        SecondAddress();
        return false;
      }
      if bus == Addr10Lsb || bus == Addr7 {
        if kind == Send {
          bus := TxData;
        } else {
          StartRx();
          return false;
        }
      }
      if bus == TxData {
        event := HandleTx();
        return;
      }
      if bus == RxData {
        event := HandleRx(i);
        return;
      }
      error := Unexpected;
      event := true;
    }

    /** No acknowledge: fail and send a stop. */
    method FailNack()
      modifies this`status, this`error, this`ctrl, this`log
      ensures View() == SetCtrl(Fail(old(View()), Nack), Ctrl(false, false, false))
    {
      status, error := Failed, Nack;
      PutCtrl(Ctrl(false, false, false));
    }

    /** The low byte of a 10-bit address. */
    method SecondAddress()
      modifies this`bus, this`log
      ensures View() == WriteData(old(View()), LowAddress(addr)).(bus := Addr10Lsb)
    {
      PutData(LowAddress(addr));
      bus := Addr10Lsb;
    }

    /** The dummy read that clocks the first byte; a single byte is not acknowledged. */
    method StartRx()
      modifies this`bus, this`ctrl, this`log
      ensures View() == ReadData(SetCtrl(old(View()).(bus := RxData), Ctrl(true, false, rxBuf.Length == 1)))
      ensures bus == RxData
    {
      bus := RxData;
      PutCtrl(Ctrl(true, false, rxBuf.Length == 1));
      GetData();
    }

    /** The transmit data phase. */
    method HandleTx() returns (event: bool)
      requires bus == TxData
      modifies this`bus, this`status, this`ctrl, this`log, this`txIdx
      ensures (View(), event) == StepTx(old(View())) && bus in {TxData, Stopped, WaitRestart}
    {
      if txIdx < |txBuf| {
        PutData(txBuf[txIdx]);
        txIdx := txIdx + 1;
        return false;
      }
      if stop {
        PutCtrl(Ctrl(false, false, false));
        bus, status := Stopped, Complete;
      } else {
        bus, status := WaitRestart, Complete;
      }
      event := true;
    }

    /** The acknowledge and stop bits for the byte being received. */
    method ControlRx()
      requires bus == RxData && rxIdx < rxBuf.Length
      modifies this`bus, this`status, this`ctrl, this`log
      ensures View() == RxControl(old(View()))
      ensures bus == Stopped || bus == WaitRestart || (bus == RxData && rxIdx < rxBuf.Length - 1)
    {
      if rxIdx == rxBuf.Length - 1 {
        if stop {
          PutCtrl(Ctrl(false, true, true));
          bus, status := Stopped, Complete;
        } else {
          PutCtrl(Ctrl(true, true, true));
          bus, status := WaitRestart, Complete;
        }
      } else if rxIdx == rxBuf.Length - 2 {
        PutCtrl(Ctrl(true, false, true));
      }
    }

    /** The receive data phase. */
    method HandleRx(i: Intr) returns (event: bool)
      requires bus == RxData && rxIdx < rxBuf.Length
      modifies this`bus, this`status, this`ctrl, this`log, this`rxIdx, rxBuf
      ensures Fits() && (View(), event) == StepRx(old(View()), i.data)
    {
      hide RxControl;
      RxControlKeeps(View());
      ControlRx();
      GetData();
      rxBuf[rxIdx] := i.data;
      assert rxBuf[..] == old(rxBuf[..])[rxIdx := i.data];
      rxIdx := rxIdx + 1;
      event := rxIdx == rxBuf.Length;
    }

    /** Put the controller back to idle. */
    method Reset()
      modifies this`ctrl, this`log, this`bus
      ensures View() == ResetDev(old(View()))
      ensures log == if old(ctrl.msta) then old(log) + [Stop] else old(log)
    {
      PutCtrl(Ctrl(false, false, false));
      bus := Stopped;
    }

    /** The wait for an idle bus before a transaction; idle1 and idle2 say whether the bus
        became idle before and after the reset. */
    method WaitIdle(busy: bool, idle1: bool, idle2: bool) returns (ok: bool)
      modifies this`ctrl, this`log, this`bus
      ensures View() == Idled(old(View()), busy, idle1)
      ensures ok == !Blocked(old(bus), busy, idle1, idle2)
    {
      if bus == Stopped && busy && !idle1 {
        Reset();
        if !idle2 {
          return false;
        }
      }
      ok := true;
    }

    /** imx_sendaddr7 and imx_sendaddr10. */
    method PutAddress()
      modifies this`ctrl, this`log, this`bus
      ensures View() == SendAddress(old(View())) && (bus == Addr7 || bus == Addr10Msb)
    {
      hide AddressByte;
      ctrl := ctrl.(mtx := true);
      if bus == Stopped {
        ctrl := ctrl.(msta := true);
        log := log + [Start];
      } else if bus == WaitRestart {
        log := log + [Restart];
      }
      PutData(AddressByte(addr, ten, kind));
      bus := if ten then Addr10Msb else Addr7;
    }

    /** Block until a pulse or the timeout; ins are the interrupts that occur by then, and n
        of them are handled. A pulse left over from before is received at some point before
        the transaction's own, or at once. */
    method Wait(ins: seq<Intr>) returns (ghost n: nat)
      requires Fits() && Begun(View(), kind)
      modifies this, rxBuf
      ensures Fits() && rxBuf == old(rxBuf)
      ensures n <= |ins| && View() == After(old(View()), ins[..n])
      ensures if old(pulses) == 0 then Taken(old(View()), ins, n) && pulses == 0
              else pulses == old(pulses) - 1 + Events(old(View()), ins[..n])
    {
      hide Step, Begun, Taken, Events, After;
      if pulses > 0 {
        var early: int := *;
        if early < 0 || early > |ins| {
          early := |ins|;
        }
        Late(ins[..early]);
        pulses := pulses - 1;
        return early;
      }
      n := WaitFirst(ins);
    }

    /** Block with no pulse left over: the first event ends the wait. */
    method WaitFirst(ins: seq<Intr>) returns (ghost n: nat)
      requires Fits() && Begun(View(), kind) && pulses == 0
      modifies this, rxBuf
      ensures Fits() && rxBuf == old(rxBuf) && pulses == 0
      ensures n <= |ins| && Taken(old(View()), ins, n) && View() == After(old(View()), ins[..n])
    {
      hide Step, Begun;
      ghost var d := View();
      n := 0;
      var k := 0;
      while k < |ins|
        invariant k <= |ins| && Fits() && rxBuf == old(rxBuf) && pulses == 0
        invariant View() == After(d, ins[..k]) && Quiet(d, ins, k)
      {
        TakeOne(ins, k);
        AfterNext(d, ins[..k], ins[k]);
        var event := Handle(ins[k]);
        k := k + 1;
        if event {
          return k;
        }
      }
      n := k;
    }

    /** Interrupts that come while no caller waits: their events stay in the channel. */
    method Late(ins: seq<Intr>)
      requires Fits()
      modifies this, rxBuf
      ensures Fits() && rxBuf == old(rxBuf)
      ensures View() == After(old(View()), ins) && pulses == old(pulses) + Events(old(View()), ins)
    {
      hide Step;
      ghost var d := View();
      EventsNone(d);
      assert ins[..0] == [];
      for k := 0 to |ins|
        invariant Fits() && rxBuf == old(rxBuf)
        invariant View() == After(d, ins[..k]) && pulses == old(pulses) + Events(d, ins[..k])
      {
        TakeOne(ins, k);
        AfterNext(d, ins[..k], ins[k]);
        EventsNext(d, ins[..k], ins[k]);
        var event := Handle(ins[k]);
        if event {
          pulses := pulses + 1;
        }
      }
      assert ins[..|ins|] == ins;
    }

    /** Fill in a send and announce it. */
    method BeginSend(buf: seq<nat>, stopReq: bool)
      requires buf != []
      modifies this`kind, this`status, this`error, this`txBuf, this`txIdx, this`stop, this`ctrl, this`log, this`bus
      ensures View() == SendBegun(old(View()), buf, stopReq) && kind == Send && Fits()
    {
      hide SendAddress;
      kind, status, error, txBuf, txIdx, stop := Send, InProgress, NoError, buf, 0, stopReq;
      PutAddress();
    }

    /** imx_i2c_send. n interrupts are handled while it waits; a pulse left over cuts it short. */
    method SendBuffer(buf: seq<nat>, stopReq: bool, busy: bool, idle1: bool, idle2: bool, ins: seq<Intr>)
        returns (r: Result, ghost n: nat)
      requires Fits()
      modifies this, rxBuf
      ensures Fits() && rxBuf == old(rxBuf)
      ensures if buf == [] then r == DONE && View() == old(View())
              else if Blocked(old(bus), busy, idle1, idle2) then r == BUSY && View() == Idled(old(View()), busy, idle1)
              else if old(pulses) > 0 then
                SendCut(SendBegun(Idled(old(View()), busy, idle1), buf, stopReq), ins, n, View(), r)
              else SendResult(SendBegun(Idled(old(View()), busy, idle1), buf, stopReq), ins, View(), r)
      ensures if buf == [] || Blocked(old(bus), busy, idle1, idle2) then bus == old(bus) else AtRest(bus) <==> r != BUSY
      ensures n <= |ins| && pulses ==
        if buf == [] || Blocked(old(bus), busy, idle1, idle2) || old(pulses) == 0 then old(pulses)
        else old(pulses) - 1 + Events(SendBegun(Idled(old(View()), busy, idle1), buf, stopReq), ins[..n])
    {
      n := 0;
      if buf == [] {
        return DONE, n;
      }
      hide Begun, Idled, Blocked, SendResult, SendCut, After, Events, SendBegun;
      var ok := WaitIdle(busy, idle1, idle2);
      if !ok {
        return BUSY, n;
      }
      SendBegins(View(), buf, stopReq);
      BeginSend(buf, stopReq);
      r, n := FinishSend(ins);
    }

    /** The rest of imx_i2c_send: block, and see what has become of the transaction. */
    method FinishSend(ins: seq<Intr>) returns (r: Result, ghost n: nat)
      requires Fits() && kind == Send && Begun(View(), Send)
      modifies this, rxBuf
      ensures Fits() && rxBuf == old(rxBuf) && n <= |ins|
      ensures if old(pulses) > 0 then SendCut(old(View()), ins, n, View(), r) else SendResult(old(View()), ins, View(), r)
      ensures AtRest(bus) <==> r != BUSY
      ensures pulses == if old(pulses) == 0 then 0 else old(pulses) - 1 + Events(old(View()), ins[..n])
    {
      hide Step, Begun, SendResult, Taken, ResultOf, After, Events;
      ghost var d := View();
      n := Wait(ins);
      if old(pulses) == 0 {
        SendEnds(d, ins, n);
      }
      SendRest(d, ins);
      StatusRest(d, ins[..n]);
      NeverBusy(error);
      if status == InProgress {
        return BUSY, n;
      } else if status == Failed {
        r := ResultOf(error);
        Reset();
        return;
      }
      r := DONE;
    }

    /** Fill in a receive and announce it. */
    method BeginReceive(buf: array<nat>, stopReq: bool)
      requires buf.Length > 0
      modifies this`kind, this`status, this`error, this`rxBuf, this`rxIdx, this`stop, this`ctrl, this`log, this`bus
      ensures rxBuf == buf && View() == ReceiveBegun(old(View()), old(buf[..]), stopReq) && kind == Receive && Fits()
    {
      hide SendAddress;
      kind, status, error, rxBuf, rxIdx, stop := Receive, InProgress, NoError, buf, 0, stopReq;
      PutAddress();
    }

    /** imx_i2c_recv. n interrupts are handled while it waits; a pulse left over cuts it short. */
    method ReceiveBuffer(buf: array<nat>, stopReq: bool, busy: bool, idle1: bool, idle2: bool, ins: seq<Intr>)
        returns (r: Result, ghost n: nat)
      requires Fits()
      modifies this, buf
      ensures Fits()
      ensures if buf.Length == 0 then r == DONE && View() == old(View())
              else if Blocked(old(bus), busy, idle1, idle2) then r == BUSY && View() == Idled(old(View()), busy, idle1)
              else if old(pulses) > 0 then
                ReceiveCut(ReceiveBegun(Idled(old(View()), busy, idle1), old(buf[..]), stopReq), ins, n, View(), r)
              else ReceiveResult(ReceiveBegun(Idled(old(View()), busy, idle1), old(buf[..]), stopReq), ins, View(), r)
      ensures if buf.Length == 0 || Blocked(old(bus), busy, idle1, idle2) then bus == old(bus) else AtRest(bus)
      ensures n <= |ins| && pulses ==
        if buf.Length == 0 || Blocked(old(bus), busy, idle1, idle2) || old(pulses) == 0 then old(pulses)
        else old(pulses) - 1 + Events(ReceiveBegun(Idled(old(View()), busy, idle1), old(buf[..]), stopReq), ins[..n])
      ensures rxBuf == if buf.Length > 0 && !Blocked(old(bus), busy, idle1, idle2) then buf else old(rxBuf)
    {
      n := 0;
      if buf.Length == 0 {
        return DONE, n;
      }
      hide Begun, Idled, Blocked, ReceiveResult, ReceiveCut, After, Events, ReceiveBegun;
      var ok := WaitIdle(busy, idle1, idle2);
      if !ok {
        return BUSY, n;
      }
      ReceiveBegins(View(), buf[..], stopReq);
      BeginReceive(buf, stopReq);
      r, n := FinishReceive(ins);
    }

    /** The rest of imx_i2c_recv. */
    method FinishReceive(ins: seq<Intr>) returns (r: Result, ghost n: nat)
      requires Fits() && kind == Receive && Begun(View(), Receive)
      modifies this, rxBuf
      ensures Fits() && rxBuf == old(rxBuf) && n <= |ins| && AtRest(bus)
      ensures if old(pulses) > 0 then ReceiveCut(old(View()), ins, n, View(), r)
              else ReceiveResult(old(View()), ins, View(), r)
      ensures pulses == if old(pulses) == 0 then 0 else old(pulses) - 1 + Events(old(View()), ins[..n])
    {
      hide Step, Begun, ReceiveResult, Taken, ResultOf, After, Events, ResetDev;
      ghost var d := View();
      n := Wait(ins);
      if old(pulses) == 0 {
        ReceiveEnds(d, ins, n);
      }
      StatusRest(d, ins[..n]);
      r := ConcludeReceive();
    }

    /** A receive that did not complete releases the bus. */
    method ConcludeReceive() returns (r: Result)
      modifies this`ctrl, this`log, this`bus
      ensures status == Complete ==> r == DONE && View() == old(View())
      ensures status != Complete ==>
        r == (if status == Failed then ResultOf(error) else ERROR) && View() == ResetDev(old(View())) && bus == Stopped
    {
      if status == InProgress {
        Reset();
        return ERROR;
      } else if status == Failed {
        r := ResultOf(error);
        Reset();
        return;
      }
      r := DONE;
    }
  }

  // ---- sequences of calls ----

  /** A transaction with the state of the bus and the interrupts that occur, or interrupts
      that come between transactions. */
  datatype Call =
    | DoSend(buf: seq<nat>, stop: bool, busy: bool, idle1: bool, idle2: bool, ins: seq<Intr>)
    | DoReceive(len: nat, stop: bool, busy: bool, idle1: bool, idle2: bool, ins: seq<Intr>)
    | DoLate(ins: seq<Intr>)

  /** Of a call: whether a transaction was announced on the bus, whether it was a send that
      returned BUSY, whether a start or repeated start announced it, and whether the bus is
      at rest afterwards. */
  datatype Record = Record(announced: bool, undone: bool, proper: bool, rest: bool)

  /** The address would come right after a start or a repeated start. */
  predicate Proper(d: Dev) {
    var b := Write(AddressByte(d.addr, d.ten, d.kind));
    SendAddress(d).log == d.log + [Start, b] || SendAddress(d).log == d.log + [Restart, b]
  }

  lemma {:induction false} ProperAtRest(d: Dev)
    ensures Proper(d) <==> AtRest(d.bus)
  {
    StartsFromRest(d);
    var b := Write(AddressByte(d.addr, d.ten, d.kind));
    if !AtRest(d.bus) {
      assert |d.log + [b]| != |d.log + [Start, b]|;
    }
  }

  /** A send returned BUSY after it was announced, and the bus has not been at rest since. */
  ghost predicate Undone(trace: seq<Record>) {
    exists j | 0 <= j < |trace| :: trace[j].undone && NoRestAfter(trace, j)
  }

  ghost predicate NoRestAfter(trace: seq<Record>, j: nat) {
    forall k | j < k < |trace| :: !trace[k].rest
  }

  lemma {:induction false} UndoneNext(trace: seq<Record>, r: Record)
    ensures Undone(trace + [r]) <==> r.undone || (Undone(trace) && !r.rest)
  {
    var t := trace + [r];
    if r.undone {
      assert t[|trace|].undone && NoRestAfter(t, |trace|);
    } else if Undone(trace) && !r.rest {
      var j :| 0 <= j < |trace| && trace[j].undone && NoRestAfter(trace, j);
      assert t[j].undone && NoRestAfter(t, j);
    }
    if Undone(t) && !r.undone {
      var j :| 0 <= j < |t| && t[j].undone && NoRestAfter(t, j);
      assert !t[|trace|].rest;
      assert NoRestAfter(trace, j) by {
        forall k | j < k < |trace|
          ensures !trace[k].rest
        {
          assert t[k] == trace[k];
        }
      }
    }
  }

  /** Each transaction is announced by a start or repeated start exactly if no send before it
      has returned BUSY after its own announcement without the bus coming to rest since. */
  ghost predicate StartsRight(trace: seq<Record>) {
    forall k | 0 <= k < |trace| && trace[k].announced :: trace[k].proper <==> !Undone(trace[..k])
  }

  lemma {:induction false} StartsRightNext(trace: seq<Record>, r: Record)
    requires StartsRight(trace) && (r.announced ==> (r.proper <==> !Undone(trace)))
    ensures StartsRight(trace + [r])
  {
    var t := trace + [r];
    forall k | 0 <= k < |t| && t[k].announced
      ensures t[k].proper <==> !Undone(t[..k])
    {
      assert t[..k] == trace[..k];
      assert trace[..|trace|] == trace;
    }
  }

  /** Any sequence of calls on a device that was at rest. */
  method Serve(dev: Device, calls: seq<Call>) returns (ghost trace: seq<Record>)
    requires dev.Fits() && AtRest(dev.bus)
    modifies dev, dev.rxBuf
    ensures |trace| == |calls| && StartsRight(trace)
    ensures forall k | 0 <= k < |calls| ::
      trace[k].undone ==> trace[k].announced && calls[k].DoSend? && !trace[k].rest
    ensures AtRest(dev.bus) <==> !Undone(trace)
  {
    hide StartsRight, Undone, SendResult, ReceiveResult, Idled, Blocked, After, Events, SendBegun, ReceiveBegun,
      ResetDev;
    trace := [];
    NothingUndone();
    for i := 0 to |calls|
      invariant dev.Fits() && (fresh(dev.rxBuf) || dev.rxBuf == old(dev.rxBuf))
      invariant |trace| == i && StartsRight(trace) && (AtRest(dev.bus) <==> !Undone(trace))
      invariant forall k | 0 <= k < i ::
        trace[k].undone ==> trace[k].announced && calls[k].DoSend? && !trace[k].rest
    {
      ghost var rec := ServeOne(dev, calls[i]);
      UndoneNext(trace, rec);
      StartsRightNext(trace, rec);
      trace := trace + [rec];
    }
  }

  lemma {:induction false} NothingUndone()
    ensures !Undone([]) && StartsRight([])
  {
  }

  method ServeOne(dev: Device, call: Call) returns (ghost rec: Record)
    requires dev.Fits()
    modifies dev, dev.rxBuf
    ensures dev.Fits() && (fresh(dev.rxBuf) || dev.rxBuf == old(dev.rxBuf))
    ensures rec.announced ==> (rec.proper <==> AtRest(old(dev.bus))) && (rec.undone <==> !rec.rest)
    ensures !rec.announced ==> !rec.undone && (AtRest(old(dev.bus)) ==> rec.rest)
    ensures !rec.announced && !call.DoLate? ==> (rec.rest <==> AtRest(old(dev.bus)))
    ensures rec.undone ==> call.DoSend?
    ensures rec.rest == AtRest(dev.bus)
  {
    hide SendResult, ReceiveResult, After, Events, Blocked, Proper, ResetDev, Step;
    ghost var d := dev.View();
    match call
    case DoSend(buf, stop, busy, idle1, idle2, ins) =>
      ProperAtRest(Idled(d, busy, idle1).(kind := Send));
      var r, _ := dev.SendBuffer(buf, stop, busy, idle1, idle2, ins);
      ghost var announced := buf != [] && !Blocked(d.bus, busy, idle1, idle2);
      rec := Record(announced, announced && r == BUSY, Proper(Idled(d, busy, idle1).(kind := Send)), AtRest(dev.bus));
    case DoReceive(len, stop, busy, idle1, idle2, ins) =>
      ProperAtRest(Idled(d, busy, idle1).(kind := Receive));
      var buf := new nat[len](_ => 0);
      var r, _ := dev.ReceiveBuffer(buf, stop, busy, idle1, idle2, ins);
      ghost var announced := len > 0 && !Blocked(d.bus, busy, idle1, idle2);
      rec := Record(announced, false, Proper(Idled(d, busy, idle1).(kind := Receive)), AtRest(dev.bus));
    case DoLate(ins) =>
      if AtRest(d.bus) {
        StaleAtRest(d, ins);
      }
      dev.Late(ins);
      rec := Record(false, false, false, AtRest(dev.bus));
  }
}
