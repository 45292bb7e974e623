# Verified models of the i.MX6 and SD/MMC drivers of a QNX board support package

The drivers below keep their promises only through orderings, indices and flags shared with
hardware or with other threads. Each module models one of them, with the hardware or the other
threads as steps that may come between any two stores, and proves what holds in every run.

| module | subject |
|---|---|
| `Ring` | slots of a descriptor ring; positions count up without bound, slots are residues |
| `TxModel`, `TxDriver` | Ethernet transmit ring: the state, the MAC's steps and the invariant; the driver as a class |
| `RxModel`, `RxDriver`, `RxRun` | Ethernet receive ring and reassembly; the driver as a class; runs of the ring |
| `RxWakeup` | ISR, Rx thread and stack thread as one state machine over runs |
| `PtpTime` | 1588 time from a nanosecond counter, two late interrupts and a half-second flag |
| `PtpComp` | clock setup and the search for a rate correction |
| `IdleSlope` | 802.1Qav shaper values |
| `Stats`, `StatsOverlap` | 16- and 32-bit event counters extended in software; sampling on every ring lap; two samples at once |
| `I2c` | I2C master, one interrupt at a time and as whole transactions |
| `Md5` | MD5 streaming against the one-shot definition of RFC 1321 |
| `MemTests` | boot memory tests over arbitrary address aliasing and stuck data lines |
| `Div64` | 64-by-32-bit division by shift and subtract |
| `CacheLoss` | write protection of the eMMC user area after its cache was lost |
| `Arith`, `Options` | division facts and an option type shared by the others |

Code that updates state in place is a class or a method here, proved against a pure
specification (`TxModel.Inv`, `RxModel.Inv`, `I2c.Step`, `PtpTime.Apply`, `Md5.Digest`); the
lemmas about the specification carry the results over whole runs. Hardware choices, allocation
results, time and the other threads' progress are nondeterministic or parameters.

## What the code does not do

Each of these is stated exactly in the lemma or method named.

- Transmit and receive
  - A receive descriptor dropped in the middle of a frame makes the rest of the frame be passed
    up as a frame of its own whose last fragment also claims the missing bytes. Lengths are
    right if and only if no byte of the frame came before the run (`RxDriver.LengthsRight`,
    `RxDriver.DropMakesLongFragment`).
  - The receive time stamp is read after the descriptor was given back. It is the frame's own
    if and only if the MAC has not come round to the descriptor again (`RxModel.StampRead`), and
    every ring has a run in which it has (`RxRun.StampOfAnother`).
  - After a pass stopped by flow control, a frame left in the ring raises no interrupt when the
    queue is unmasked, for every number of queues and every capacity
    (`RxWakeup.FlowForgetsFrame`). Every frame is noticed in every run if and only if pause
    frames are not in use (`RxWakeup.NoticedExactly`).
- 1588 clock
  - Setting the time leaves the half-second flag alone. Reading back is right if and only if
    the flag suits the new time (`PtpTime.SetReadsBack`, `PtpTime.SetCanMislead`).
  - The ISR reads its interrupt cause before it takes the lock under which the time is set. If
    the time is set on another core in between, the ISR counts a rollover that was dropped, and
    the clock stays a second ahead until the time is set again (`PtpTime.SetRacesIsr`,
    `PtpTime.SecondsExactly`). From the next rollover served on, everything read is right if
    and only if the time was set outside that window and no half-second event was pending
    that the end of the new second could overtake (`PtpTime.RightAgainExactly`).
  - For clocks above 2 Hz a compensation of the clock frequency plus one underflows, one of the
    frequency plus two or more that is not refused for exceeding half the clock divides by
    zero, and at most the frequency is sound (`PtpComp.SoundExactly`, which has the slower
    clocks too; `PtpComp.Timer.SetCompensation`). A request of
    at least the frequency raises the base increment whichever its direction
    (`PtpComp.Timer.SetCompensation`).
- Shapers
  - Bandwidth sums wrap at 2^32 and are right if and only if they do not
    (`IdleSlope.MbpsExactly`, `IdleSlope.OverflowIsAccepted`). Rounding the quotient down first
    can leave a queue with less than it asked for, exactly when the quotient was inexact and
    already legal (`IdleSlope.EnoughExactly`, `IdleSlope.SlopeTooSmall`).
- Statistics
  - The counters are sampled without a lock by three callers. Two samples that overlap can
    count the same events twice (`Stats.DoubleCount`) or take a stale value for a wrap and
    count 2^16 too many (`StatsOverlap.StaleValueWraps`). In every interleaving of two samples
    the count stays true if and only if the first to read the register found nothing to
    count, or had stored its value before the second looked at it
    (`StatsOverlap.TwoSamplesExactly`). The count is true in every run if and only if samples
    are locked or have one caller (`Stats.CountTrueExactly`).
- I2C
  - A send that timed out leaves a bus state from which the next transaction is announced
    without a start (`I2c.TimedOutSendLosesStart`). The acknowledge of the second byte of a
    10-bit address is not looked at (`I2c.SecondAddressUntested`).
  - An interrupt that comes after a timeout can leave an event in the channel, which ends the
    next transaction early; after a send exactly if it finishes or breaks off the
    transaction (`I2c.StaleAfterSend`), after a receive always (`I2c.StaleAtRest`). The event
    does not wear off: each send it cuts short leaves another one (`I2c.StalePersists`).
- MD5
  - The block loop's guard `i + 63 < inputLen` wraps in 32 bits. Updates near 2^32 bytes stay
    inside their input if and only if no visited index wraps (`Md5.GuardExact`,
    `Md5.GuardWraps`, `Md5.Context.Update`); all updates of up to 2^32 - 64 bytes are
    (`Md5.ShortFits`).
- Memory tests
  - The address test misses two addresses that share a cell if and only if that cell is stuck
    at the pattern on every line (`MemTests.AddressTestMeaning`).

## Model

| member | source | states |
|---|---|---|
| Ring.SlotNext | src/hardware/devnp/mx6x/transmit.c:214-218 | stepping an index with the modulo macro follows the absolute position round the ring |
| Ring.SlotDistinct | src/hardware/devnp/mx6x/transmit.c:214-218 | positions less than a lap apart never share a descriptor |
| Ring.SlotDistance | src/hardware/devnp/mx6x/transmit.c:386-426 | the distance of producer and consumer is what their two indices give modulo the ring size |
| TxModel.MacKeepsInv | src/hardware/devnp/mx6x/transmit.c:162-270 | a fetch, a release or a BDU update by the MAC keeps the ring invariant wherever the driver is, and touches no descriptor outside the published window |
| TxModel.FetchStaysBehind | src/hardware/devnp/mx6x/transmit.c:190-200 | the MAC's position finds READY only on a published descriptor, so it stops at the first one of a frame being loaded |
| TxModel.FetchedWasPublished | src/hardware/devnp/mx6x/transmit.c:162-270 | publication safety: all the MAC has ever fetched is a prefix of the descriptors of published frames, each with final buffer, length and LAST |
| TxModel.PublishKeepsInv | src/hardware/devnp/mx6x/transmit.c:258-264 | setting READY on the first descriptor last makes the whole frame part of the published window |
| TxModel.PublishOneKeepsInv | src/hardware/devnp/mx6x/transmit.c:250-253 | the same for a frame of one descriptor |
| TxModel.ReapTest | src/hardware/devnp/mx6x/transmit.c:398-401 | READY clear, and BDU set if LAST, holds of the oldest descriptor exactly when the MAC has given it back |
| TxModel.ReapTestRace | src/hardware/devnp/mx6x/transmit.c:390-401 | with the MAC running between the two reads, passing means given back, and failing means not yet given back at the first read |
| TxModel.ReapKeepsInv | src/hardware/devnp/mx6x/transmit.c:406-416 | the slot of a reaped first descriptor holds that frame's packet and no other slot does; freeing it keeps the invariant |
| TxModel.Accounting | src/hardware/devnp/mx6x/transmit.c:326-351 | the in-use count is the distance of the indices modulo N and at most N - 1, so equal indices mean empty |
| TxModel.IndicesAreResidues | src/hardware/devnp/mx6x/transmit.c:230-239 | the indices are the numbers of descriptors ever queued and reaped, modulo N |
| Ring.SlotIsMod | src/hardware/devnp/mx6x/transmit.c:214-218 | the slot of a position is its residue modulo the ring size |
| TxModel.ReadyInUse | src/hardware/devnp/mx6x/transmit.c:175-192 | READY is set only inside the in-use part of the ring |
| TxModel.LastBdActive | src/hardware/devnp/mx6x/event.c:78-95 | the descriptor before the producer index is READY exactly while the MAC has not given back all that was published |
| TxModel.ReapedInOrder | src/hardware/devnp/mx6x/transmit.c:403-425 | packets are freed in queueing order, each once |
| TxModel.FirstsOfFlat | src/hardware/devnp/mx6x/transmit.c:233-239 | first descriptors name the queued packets, all of them, in order |
| TxModel.FreedAfterFetch | src/hardware/devnp/mx6x/transmit.c:406-416 | with a MAC that releases only frames fetched to their end, no packet is freed before all its descriptors were fetched |
| TxDriver.TxQueue.constructor | src/hardware/devnp/mx6x/detect.c:558-572 | the initialised ring satisfies the invariant and is empty |
| TxDriver.TxQueue.LastBdActive | src/hardware/devnp/mx6x/event.c:78-95 | true exactly while the MAC still owns published descriptors |
| TxDriver.TxQueue.Defrag | src/hardware/devnp/mx6x/transmit.c:38-86 | the original packet is freed in every case; a result has the same bytes in at most 10 fragments |
| TxDriver.TxQueue.LoadDescriptor | src/hardware/devnp/mx6x/transmit.c:172-200 | the hit-end branch cannot be taken; buffer and length are stored before READY, which the first descriptor does not get |
| TxDriver.TxQueue.LoadFrame | src/hardware/devnp/mx6x/transmit.c:162-220 | the non-empty fragments are loaded in order into the free descriptors after the producer index |
| TxDriver.TxQueue.Record | src/hardware/devnp/mx6x/transmit.c:230-239 | count, packet slot and producer index move together; the packet slot was empty |
| TxDriver.TxQueue.Publish | src/hardware/devnp/mx6x/transmit.c:250-270 | the packet and all its descriptors become published at once |
| TxDriver.TxQueue.Transmit | src/hardware/devnp/mx6x/transmit.c:88-308 | with room for 10 descriptors and a non-empty packet: queued behind all others, or freed and ENOMEM |
| TxDriver.TxQueue.ReapOne | src/hardware/devnp/mx6x/transmit.c:406-425 | one descriptor is reset, the packet found in its slot freed, which is that of the frame exactly if it is a first descriptor, and count and index moved |
| TxDriver.TxQueue.TransmitComplete | src/hardware/devnp/mx6x/transmit.c:386-426 | reaps, in order, only descriptors the MAC has given back, and all that it had given back at the call |
| TxDriver.TxQueue.Start | src/hardware/devnp/mx6x/transmit.c:310-356 | packets are taken from the head of the send queue until it is empty or the ring is full; each taken packet is owned by the transmit path, and packets that need no copy are queued in the order taken |
| TxDriver.TxQueue.Output | src/hardware/devnp/mx6x/transmit.c:443-504 | priorities 0 and 1 are left to the stack untouched; otherwise ENOBUFS and freed only when the ring stays full after reaping all that was given back, ENOMEM and freed when no copy can be had, else queued last with its header restored; what is owned and freed in each case |
| TxDriver.Guarantees | src/hardware/devnp/mx6x/transmit.c:88-426 | between any two calls of any run: accounting, publication safety, order of freeing, and every packet taken is pending or freed, once |
| RxModel.MacKeepsInv | src/hardware/devnp/mx6x/receive.c:85-113 | the MAC filling a descriptor keeps the ring invariant and changes no descriptor the driver owns |
| RxModel.MacSees | src/hardware/devnp/mx6x/receive.c:42-55 | the MAC stops exactly when it is a whole lap ahead of the descriptors given back |
| RxModel.DriverSees | src/hardware/devnp/mx6x/receive.c:85-91 | EMPTY at the consumer index exactly when everything stored was worked on; otherwise the descriptor holds the next stored part and rx_pkts the mbuf it is in |
| RxModel.GiveKeepsInv | src/hardware/devnp/mx6x/receive.c:39-55 | storing EMPTY last, with WRAP on the last slot only, returns a descriptor whose buffer is the remembered mbuf's |
| RxModel.StampRead | src/hardware/devnp/mx6x/receive.c:162-180 | the time stamp read after the descriptor was given back is the frame's exactly when the MAC is not a lap ahead |
| RxRun.StampOfAnother | src/hardware/devnp/mx6x/receive.c:162-180 | for every ring size, a run from the initialised ring in which the stamp read is a later frame's |
| RxRun.StepKeepsInv | src/hardware/devnp/mx6x/receive.c:85-163 | every step of MAC and driver keeps the ring invariant |
| RxDriver.ClosedDescribes | src/hardware/devnp/mx6x/receive.c:147-169 | a frame closed by LAST has the mbufs the MAC filled, in order, and fragment lengths that add up to its packet length |
| RxDriver.FrameIsRun | src/hardware/devnp/mx6x/receive.c:137-251 | every completed frame is one unbroken run of kept descriptors that starts after a frame's end or a dropped descriptor |
| RxDriver.EndsAll | src/hardware/devnp/mx6x/receive.c:165-169 | every kept LAST descriptor completes a frame |
| RxDriver.LengthsRight | src/hardware/devnp/mx6x/receive.c:168-169 | fragment lengths are the hardware's in order exactly when no byte of the frame was dropped before |
| RxDriver.DropMakesLongFragment | src/hardware/devnp/mx6x/receive.c:106-111 | a frame after a mid-frame drop, with a last fragment longer than what was stored |
| RxDriver.RxQueue.constructor | src/hardware/devnp/mx6x/detect.c:596-619 | the initialised ring: every descriptor EMPTY with an mbuf of its own |
| RxDriver.RxQueue.AddPkt | src/hardware/devnp/mx6x/receive.c:35-56 | the descriptor is given back to the MAC with the mbuf, which rx_pkts remembers |
| RxDriver.RxQueue.Refuse | src/hardware/devnp/mx6x/receive.c:100-131 | after an error or without a new mbuf the old one goes back and the frame in progress is freed |
| RxDriver.RxQueue.Keep | src/hardware/devnp/mx6x/receive.c:133-163 | the received mbuf joins the chain with the descriptor's length, the new one takes its place |
| RxDriver.RxQueue.ReadStamp | src/hardware/devnp/mx6x/receive.c:178-180 | which frame's time stamp is read |
| RxDriver.RxQueue.Discard | src/hardware/devnp/mx6x/receive.c:105-111 | the frame in progress is freed whole and the next descriptor starts a new one |
| RxDriver.RxQueue.Complete | src/hardware/devnp/mx6x/receive.c:165-247 | an IEEE 1722 frame goes straight up, any other behind the queue or freed if it is full; stalls exactly under flow control with the queue within one of full |
| RxDriver.RxQueue.Accept | src/hardware/devnp/mx6x/receive.c:133-251 | a received part joins the frame in progress, which is passed on if it ends with it |
| RxDriver.SettledOnce | src/hardware/devnp/mx6x/receive.c:195-230 | every completed frame is queued, delivered or freed on overflow, exactly once |
| RxDriver.RxQueue.Work | src/hardware/devnp/mx6x/receive.c:85-251 | each turn works on exactly one descriptor and keeps the ring, mbuf and frame invariants |
| RxDriver.RxQueue.Enqueue | src/hardware/devnp/mx6x/receive.c:215-230 | the frame goes behind the others in rx_queue, the chain is empty again |
| RxDriver.RxQueue.Overflow | src/hardware/devnp/mx6x/receive.c:210-213 | a frame that finds the queue full is freed and counted |
| RxDriver.RxQueue.Receive | src/hardware/devnp/mx6x/receive.c:58-253 | ends with every stored descriptor worked on, or stalled under flow control with the queue within one of full |
| RxDriver.RxQueue.Dequeue | src/hardware/devnp/mx6x/event.c:33-42 | the oldest frame of rx_queue is passed up |
| RxDriver.Guarantees | src/hardware/devnp/mx6x/receive.c:78-252 | in every run: descriptors are kept exactly without an error and with a new mbuf to be had; each completed frame is queued, passed up or freed on overflow, once, and is one run of kept descriptors; queued frames are delivered in the order of completion, overtaken by IEEE 1722 frames only; each mbuf is in exactly one of ring, chain, queue, delivered, freed; every slot is filled and only the last wraps |
| RxWakeup.StepKeepsInv | src/hardware/devnp/mx6x/event.c:101-140 | every step of MAC, ISR, Rx thread and stack thread keeps the protocol invariant |
| RxWakeup.AlwaysAwake | src/hardware/devnp/mx6x/receive.c:209-246 | in every run: with the mutex free a non-empty queue has rx_running; a masked interrupt has a pulse or pass in flight or waits in rx_full with rx_running; rx_running has the stack thread active or due |
| RxWakeup.StackFinishes | src/hardware/devnp/mx6x/event.c:32-76 | the stack thread alone empties the queue, clears rx_full and stops, within a bound given by the queue length |
| RxWakeup.RxReleases | src/hardware/devnp/mx6x/receive.c:209-246 | the Rx thread frees the mutex in at most five of its own steps |
| RxWakeup.StackRestsSoon | src/hardware/devnp/mx6x/event.c:32-76 | however the threads interleave, the stack thread rests after a bounded number of its own steps, three more for every frame queued meanwhile |
| RxWakeup.RestReturnsQueues | src/hardware/devnp/mx6x/event.c:46-76 | in every run, when the stack thread rests every queue is unmasked or being served |
| RxWakeup.StalledQueuesReturn | src/hardware/devnp/mx6x/event.c:46-76 | from every reachable state with rx_running the two threads alone can get there |
| RxWakeup.AlwaysNoticed | src/hardware/devnp/mx6x/detect.c:257-264 | a frame in a ring always has its interrupt raised or a pass to read it, unless flow control stopped the queue's last pass |
| RxWakeup.NoticedExactly | src/hardware/devnp/mx6x/receive.c:232-244 | that holds of every frame in every run exactly if pause frames are not in use |
| RxWakeup.FlowForgetsFrame | src/hardware/devnp/mx6x/receive.c:232-244 | for every number of queues and every capacity, a run in which flow control leaves a frame in the ring with nobody to read it |
| RxWakeup.ZeroCapacityStrands | src/hardware/devnp/mx6x/detect.c:663 | the wake-up guarantee needs the capacity to be positive, as it is |
| PtpTime.ExactTime | src/hardware/devnp/mx6x/ptp.c:483-503 | in every interleaving with both interrupts served within 250 ms, a reading is the true time and a stamp less than 250 ms old gets its true second |
| PtpTime.ReadExactly | src/hardware/devnp/mx6x/ptp.c:491-503 | a reading has the true second exactly outside the two windows in which the flag does not suit the counter |
| PtpTime.StampExactly | src/hardware/devnp/mx6x/ptp.c:277-298 | a value captured less than 250 ms ago gets its true second, across a rollover in either order with its interrupt |
| PtpTime.SecondsExactly | src/hardware/devnp/mx6x/event.c:114-149 | in every run, with the time set at any point, the software seconds are right exactly if no rollover dropped by setting the time was served since, and otherwise one ahead |
| PtpTime.SetKeepsSync | src/hardware/devnp/mx6x/ptp.c:517-531 | setting the time keeps flag and seconds in step exactly when the ISR is not about to serve a rollover, no half-second event is pending and the flag suits the new time |
| PtpTime.SetReadsBack | src/hardware/devnp/mx6x/ptp.c:517-531 | the time just set reads back exactly when the flag suits it |
| PtpTime.SetCanMislead | src/hardware/devnp/mx6x/ptp.c:517-531 | a time that reads back one second early |
| PtpTime.SetRacesIsr | src/hardware/devnp/mx6x/event.c:114-149 | a run in which the time is set between the ISR's read of IEVENT and its critical section, and 21 s reads 22 after the next rollover |
| PtpTime.RightAgainExactly | src/hardware/devnp/mx6x/ptp.c:517-531 | after the next rollover served every reading is right, whatever the interrupts do, exactly if the time was set outside that window and with no half-second event pending that the new second could overtake |
| PtpTime.ExactAfterRollover | src/hardware/devnp/mx6x/event.c:142-149 | after the time was set at such a moment, stamps less than 250 ms old are exact too from the first rollover served |
| PtpTime.RolloverResyncs | src/hardware/devnp/mx6x/event.c:142-149 | serving a pending rollover with no half-second event pending puts flag and seconds in step whatever the flag was |
| PtpTime.Clock.constructor | src/hardware/devnp/mx6x/ptp.c:107-125 | the clock starts in step at time zero |
| PtpTime.Clock.IsrRead | src/hardware/devnp/mx6x/event.c:113-114 | the ISR keeps a copy of the pending rollover |
| PtpTime.Clock.IsrServe | src/hardware/devnp/mx6x/event.c:142-149 | on that copy: one more second, flag clear, event cleared |
| PtpTime.Clock.Isr1588 | src/hardware/devnp/mx6x/event.c:197-216 | the half-second event is served: flag set |
| PtpTime.Clock.GetCnt | src/hardware/devnp/mx6x/ptp.c:456-506 | the true time, in step |
| PtpTime.Clock.FixUp | src/hardware/devnp/mx6x/ptp.c:339-360 | the true second of a capture less than 250 ms old, in step |
| PtpTime.Clock.SetCnt | src/hardware/devnp/mx6x/ptp.c:517-531 | time and seconds are replaced, a pending rollover dropped, the flag kept |
| PtpComp.Timer.Calibrate | src/hardware/devnp/mx6x/ptp.c:81-95 | frequency is the largest with frequency times measured period at most 10^9, or a division by zero for a period that rounds to 0 |
| PtpComp.Timer.SetFrequency | src/hardware/devnp/mx6x/ptp.c:111-113 | the configured frequency and the largest period with their product at most 10^9 |
| PtpComp.Timer.Search | src/hardware/devnp/mx6x/ptp.c:578-597 | the correction with the least error of all candidates, the smallest on a tie, or none if every error underflows; a zero divisor is met exactly when the first step has one |
| PtpComp.Timer.SetCompensation | src/hardware/devnp/mx6x/ptp.c:546-608 | below the frequency the best correction is written; refused requests change nothing; the outcome of every other request |
| PtpComp.SearchSound | src/hardware/devnp/mx6x/ptp.c:578-597 | below the frequency no divisor is zero, no product overflows, the error never underflows and some candidate is chosen |
| PtpComp.SoundExactly | src/hardware/devnp/mx6x/ptp.c:579-587 | the first turn of the search is sound exactly for requests up to the frequency, and below it for clocks of 1 and 2 Hz |
| PtpComp.DefinedExactly | src/hardware/devnp/mx6x/ptp.c:579-584 | exactly which requests make a divisor zero: the frequency plus two or more, for clocks above 2 Hz |
| PtpComp.ErrUnderflows | src/hardware/devnp/mx6x/ptp.c:586-596 | one above the frequency every error underflows to the initial minimum, so nothing is chosen |
| PtpComp.NoOverflow | src/hardware/devnp/mx6x/ptp.c:582-584 | every product of a search without zero divisor fits in 32 bits |
| IdleSlope.ValidIdleSlope | src/hardware/devnp/mx6x/transmit.c:508-532 | the least legal value at or above the argument, and 1 for 0 and where rounding up wraps |
| IdleSlope.MbpsExactly | src/hardware/devnp/mx6x/transmit.c:587-592 | the rounded-up rate covers the sum exactly when the sum does not wrap |
| IdleSlope.SlopeBounded | src/hardware/devnp/mx6x/transmit.c:597-614 | below three quarters of the port the divisor is positive and the quotient at most 1535 |
| IdleSlope.EnoughExactly | src/hardware/devnp/mx6x/transmit.c:607-614 | the slope grants the rate exactly when the division was exact or the quotient not legal by itself |
| IdleSlope.OverflowIsAccepted | src/hardware/devnp/mx6x/transmit.c:587-605 | a wrapped sum passes the check with the smallest slope |
| IdleSlope.SlopeTooSmall | src/hardware/devnp/mx6x/transmit.c:613-614 | a request that is granted less than it asked for |
| IdleSlope.Shapers.SetTxBw | src/hardware/devnp/mx6x/transmit.c:571-625 | link down changes nothing; at three quarters of the port or more both slopes are 1536 and EINVAL; otherwise both are the least legal value for their rate, in 1..1536 |
| Stats.Counter32.Sample | src/hardware/devnp/mx6x/stats.c:25-43 | the total grows by the distance on the 16-bit counter, modulo 2^32 |
| Stats.Counter64.Sample | src/hardware/devnp/mx6x/stats.c:45-63 | the total grows by the distance on the 32-bit counter, modulo 2^64 |
| Stats.Sample32Exactly | src/hardware/devnp/mx6x/stats.c:32-42 | a sample keeps the total true exactly when fewer than 2^16 events came since the last one |
| Stats.Sample64Exactly | src/hardware/devnp/mx6x/stats.c:52-62 | the same with 2^32 |
| Stats.SampleIsSteps | src/hardware/devnp/mx6x/stats.c:30-42 | the steps of a sampler that runs alone, which ends early if the value is the last one, change total and last value as Counter32.Sample does |
| Stats.SentSinceBounded | src/hardware/devnp/mx6x/transmit.c:214-218 | between two reads of the counter each ring sends fewer than two laps |
| Stats.CountIsTrue | src/hardware/devnp/mx6x/transmit.c:214-218 | in every run of up to three rings of at most 2048 descriptors in which samples do not overlap, each sample has the true count of frames sent modulo 2^32 |
| Stats.DoubleCount | src/hardware/devnp/mx6x/stats.c:25-43 | for every such configuration without a lock, a run of two callers that counts one frame twice |
| StatsOverlap.TwoSamplesExactly | src/hardware/devnp/mx6x/stats.c:25-43 | in every interleaving of two samples with each other and with frames sent, the count stays true exactly if the first to read the register finds nothing to count or has stored before the second looks at the last value; and what the total is otherwise |
| StatsOverlap.PairStep | src/hardware/devnp/mx6x/stats.c:30-42 | every step of either sampler keeps the relation between what the two have seen and the total and last value |
| StatsOverlap.StaleValueWraps | src/hardware/devnp/mx6x/stats.c:38-42 | a run in which one frame is sent and 65536 are counted |
| Stats.CountTrueExactly | src/hardware/devnp/mx6x/receive.c:94-97 | the count is true in every run exactly if samples are locked or have a single caller |
| Stats.ClampDescriptors | src/hardware/devnp/mx6x/detect.c:473-487 | a multiple of 4 within the limits, less than 4 below a count already within them |
| I2c.TxRun | src/hardware/i2c/imx/intr.c:88-94 | after any number of good interrupts a send has written the address and exactly that much of the buffer, in order |
| I2c.RxRun | src/hardware/i2c/imx/intr.c:67-140 | after any number of good interrupts a receive has stored the bytes so far in order and clocked one more, refusing an acknowledge only for the last |
| I2c.RxLast | src/hardware/i2c/imx/intr.c:112-139 | the last interrupt stores the last byte, clocks no further one, and completes |
| I2c.TakenExactly | src/hardware/i2c/imx/intr.c:24-146 | the event is raised by the last needed interrupt or the first bad one, and by none before |
| I2c.NotYet | src/hardware/i2c/imx/intr.c:90-94 | good interrupts short of the number needed raise no event |
| I2c.StartsFromRest | src/hardware/i2c/imx/send.c:134-154 | start, repeated start or neither, by the state the bus was left in |
| I2c.Serve | src/hardware/i2c/imx/send.c:25-128 | over every sequence of transactions and late interrupts, each transaction is announced by a start or repeated start exactly if no earlier send returned BUSY after its announcement without the bus coming to rest since |
| I2c.StatusRest | src/hardware/i2c/imx/intr.c:24-146 | after any interrupts a transaction in progress is on the bus and a complete one is not |
| I2c.SecondAddressUntested | src/hardware/i2c/imx/intr.c:46-65 | a send whose only refusal is the second address byte counts as undisturbed |
| I2c.TimedOutSendLosesStart | src/hardware/i2c/imx/send.c:103-110 | the transaction after a timed-out send is announced without a start |
| I2c.DoneReceive | src/hardware/i2c/imx/intr.c:76-139 | a receive that is DONE has in its buffer the bytes the interrupts brought, in order, and on the bus clocked exactly its length, only the last byte without an acknowledge |
| I2c.DoneSend | src/hardware/i2c/imx/intr.c:88-108 | a send that is DONE has written the rest of the address and the whole buffer in order |
| I2c.DataAt | src/hardware/i2c/imx/intr.c:131-133 | the bytes stored are those found at the interrupts, one each |
| I2c.StaleAfterSend | src/hardware/i2c/imx/send.c:97-110 | interrupts that come after a timed-out send leave an event in the channel exactly if they finish or break off the transaction |
| I2c.StaleAtRest | src/hardware/i2c/imx/intr.c:142-145 | with the bus at rest, as after a timed-out receive, every late interrupt leaves one |
| I2c.StalePersists | src/hardware/i2c/imx/send.c:97-110 | a send cut short by a left-over event leaves one itself when its interrupts come |
| I2c.Device.Wait | src/hardware/i2c/imx/send.c:97-101 | the caller gets the first event of its transaction, or one left over at any point before it |
| I2c.Device.Late | src/hardware/i2c/imx/intr.c:24-146 | interrupts without a caller do their steps and leave their events in the channel |
| I2c.Device.Handle | src/hardware/i2c/imx/intr.c:24-146 | one interrupt does one step of the specification and never indexes outside the receive buffer |
| I2c.Device.HandleRx | src/hardware/i2c/imx/intr.c:110-140 | the receive phase of a step |
| I2c.Device.PutAddress | src/hardware/i2c/imx/send.c:130-185 | start and first address byte, 7- or 10-bit |
| I2c.Device.WaitIdle | src/hardware/i2c/imx/send.c:51-72 | a stopped but busy bus is reset once; giving up only if it stays busy |
| I2c.Device.SendBuffer | src/hardware/i2c/imx/send.c:25-128 | DONE exactly when address and data were acknowledged without loss of arbitration by length + 1 interrupts (one more for 10 bits); what was written and how the bus is left in each case; a left-over event makes the status of that moment the outcome |
| I2c.Device.ReceiveBuffer | src/hardware/i2c/imx/recv.c:25-141 | DONE exactly when the address was acknowledged and arbitration kept by length + 1 interrupts; the buffer then holds the bytes clocked, in order; a timeout releases the bus; a left-over event makes the status of that moment the outcome |
| Md5.WordRoundTrip | src/hardware/ipl/lib/md5c.c:92-123 | decoding what was encoded gives the word back |
| Md5.WordBytes | src/hardware/ipl/lib/md5c.c:112-123 | the four decoded bytes are the digits of the word, least first |
| Md5.TwoWords | src/hardware/ipl/lib/md5c.c:244-245 | the two encoded count words are the 64-bit count, least byte first |
| Md5.Encode | src/hardware/ipl/lib/md5c.c:92-106 | fills the output with the words' bytes |
| Md5.CountAdds | src/hardware/ipl/lib/md5c.c:204-208 | carry and high bits make the two words 8 times the length modulo 2^64 |
| Md5.CountIndex | src/hardware/ipl/lib/md5c.c:201-202 | the count gives the number of buffered bytes |
| Md5.PaddingIsLeast | src/hardware/ipl/lib/md5c.c:247-250 | the padding is the least that leaves 8 bytes to a block boundary (section 3.1 of RFC 1321) |
| Md5.FoldOfPrefix | src/hardware/ipl/lib/md5c.c:212-220 | the state after n blocks depends on those blocks only |
| Md5.GuardExact | src/hardware/ipl/lib/md5c.c:219 | the block loop stops where it should exactly when none of its indices wraps |
| Md5.ShortFits | src/hardware/ipl/lib/md5c.c:219 | updates of up to 2^32 - 64 bytes never wrap |
| Md5.GuardWraps | src/hardware/ipl/lib/md5c.c:219 | an update whose index wraps |
| Md5.Context.constructor | src/hardware/ipl/lib/md5c.c:175-186 | the context of the empty message |
| Md5.Context.Update | src/hardware/ipl/lib/md5c.c:193-230 | state, buffer and count become those of the message so far with the input appended; reads past the input exactly if the loop's index wraps |
| Md5.Context.Final | src/hardware/ipl/lib/md5c.c:236-260 | the digest of the message (sections 3.1 to 3.5 of RFC 1321), and the context zeroed |
| Md5.DigestOf | src/hardware/ipl/lib/md5c.c:193-260 | for every way of cutting a message whose updates stay inside their input, the digest of the whole |
| Md5.ShortChunksFit | src/hardware/ipl/lib/md5c.c:219 | pieces of up to 2^32 - 64 bytes are enough for that |
| MemTests.DeviceTest | src/hardware/ipl/lib/mem_tests.c:240-264 | passes exactly when no two addresses of the region share a cell and no cell has a stuck line |
| MemTests.AliasIsCaught | src/hardware/ipl/lib/mem_tests.c:247-262 | two addresses with one cell cannot get through the second and third pass |
| MemTests.PassedIsPerfect | src/hardware/ipl/lib/mem_tests.c:247-262 | a region that got through has neither aliases nor stuck lines |
| MemTests.OnesWalk | src/hardware/ipl/lib/mem_tests.c:74-82 | passes exactly when no data line of the cell is stuck |
| MemTests.WalkFindsStuckLines | src/hardware/ipl/lib/mem_tests.c:74-82 | every stuck line shows in some single-bit word |
| MemTests.MaskLoop | src/hardware/ipl/lib/mem_tests.c:150-152 | the offset loop visits exactly the contiguous low lines of the mask |
| MemTests.Scan | src/hardware/ipl/lib/mem_tests.c:167-171 | all other powers of two still read the pattern |
| MemTests.TestLine | src/hardware/ipl/lib/mem_tests.c:162-172 | one address line is told apart from every other |
| MemTests.AddressTest | src/hardware/ipl/lib/mem_tests.c:145-177 | passes exactly when every probe reads the pattern while any other one is inverted |
| MemTests.AddressTestMeaning | src/hardware/ipl/lib/mem_tests.c:145-177 | that holds exactly when all probes read back and two share a cell only if it is stuck at the pattern |
| MemTests.AddressTestFindsAliases | src/hardware/ipl/lib/mem_tests.c:145-177 | without stuck lines it passes exactly when 0 and the powers of two in the mask have cells of their own |
| MemTests.PowerOfTwoCovers | src/hardware/ipl/lib/mem_tests.c:184-186 | a region of a power of two words has all its address lines tested |
| Div64.Reduce | src/hardware/pwm/pwm/div64.c:28-34 | the high part is divided out without overflow |
| Div64.ScaleUp | src/hardware/pwm/pwm/div64.c:36-39 | doubling stops at or above the remainder, or with the top bit set, and never overflows |
| Div64.DivMod | src/hardware/pwm/pwm/div64.c:21-52 | terminates with quotient and remainder, all intermediate values in 64 bits |
| CacheLoss.Sim.Enumerate | src/hardware/devb/sdmmc/sim_sdmmc.c:170-211 | one target for each hardware partition, selecting it |
| CacheLoss.Sim.Configure | src/hardware/devb/sdmmc/sim_sdmmc.c:216-261 | target 0 is the user area, and the only admitted first partition that is |
| CacheLoss.Sim.SetPartitionAttr | src/hardware/devb/sdmmc/sim_sdmmc.c:1247-1267 | exactly the partitions of the kind on admitted targets and LUNs get the flag |
| CacheLoss.Sim.Reset | src/hardware/devb/sdmmc/sim_sdmmc.c:1269-1286 | with the cache enabled the loss is noted and the whole admitted user area protected, otherwise nothing changes |
| CacheLoss.Sim.Admit | src/hardware/devb/sdmmc/sim_sdmmc.c:2588-2595 | admitted exactly within the target and LUN limits |
| CacheLoss.Sim.UnitReady | src/hardware/devb/sdmmc/sim_sdmmc.c:549-566 | an empty partition is reported even when the card is absent |
| CacheLoss.Sim.CachingRequest | src/hardware/devb/sdmmc/sim_sdmmc.c:602-617 | the cache flag follows the mode page exactly when the device has a cache and takes the command |
| CacheLoss.Sim.Rw | src/hardware/devb/sdmmc/sim_sdmmc.c:1419-1430 | what reaches the card, and the reset after an error |
| CacheLoss.Sim.ReadWriteRequest | src/hardware/devb/sdmmc/sim_sdmmc.c:1533-1616 | which of the checks answers, and when the card is reached |
| CacheLoss.Sim.ServeAll | src/hardware/devb/sdmmc/sim_sdmmc.c:2563-2645 | over every sequence of requests, no write to the user area reaches the card after a lossy reset |

## Left out

- StatsOverlap.TwoSamplesExactly: for two samples and fewer than 2^16 frames meanwhile; `*old` is read once, and adding to the total is one step.
- Stats.CountIsTrue: models the count of frames sent; the other counters, 64-bit ones included, are sampled by the same unlocked code, with no bound on their rate.
- I2C: the buffer of a send is a value. In the code a send that timed out leaves the device pointing at the caller's buffer, and a late interrupt reads it after the call has returned.
- I2C: bus speed and options are register values.
- Md5.Context.Update: what the code computes from memory behind its input is not modelled, only when it would read it.
- TxModel.FreedAfterFetch: needs a MAC that releases only frames it has fetched to their end, because the driver frees the whole chain at the first descriptor.
- TxDriver.TxQueue.Transmit: takes packets with at least one non-empty fragment, as the code follows a null descriptor otherwise.
- MemTests.OnesWalk: words have at least two lines; the code has 8 to 64.
- Transmit and receive: one queue is modelled; with several, each has its own part of the arrays and the same code.
- Transmit and receive: mbuf chains are sequences, so pointer aliasing between chains is not modelled; the receive list and the packet slots hold names of mbufs.
- Transmit: `mx6q_stop`, which clears READY on first descriptors only, is not a step of the ring model; MAC register kicks, BPF taps, cache flushes and time stamp bits have no effect on what is proved.
- Transmit: the restart after `tx_full` is not a liveness claim; the code does not ensure it.
- Receive: length fields are unbounded naturals where the descriptor has 16 bits; frame contents, checksums and the multicast statistics are not modelled.
- Receive: allocation failure and descriptor errors take one path in the model; their separate counters are one. Which allocations fail and which frames are IEEE 1722 frames are parameters; the interface input and the time stamp buffers are not modelled.
- Rx wake-up: the three threads are steps of a state machine on values, as what matters is how they interleave; the methods of the receive path are in `RxDriver`.
- Rx wake-up: the interface stays running, as a stop or an unplug masks everything by other code; Tx and time stamp interrupts of the same ISR are modelled elsewhere or left out.
- 1588 time: the search of the time stamp buffers for a message, and the message parsing, are not modelled; the counter advances in arbitrary steps of less than 250 ms.
- Compensation: the two increments are separate fields, not packed into one register word.
- Shapers: the one-time setup of the class match registers is not modelled.
- MD5: the 64 rounds are the function `Md5.Transform`, computed as the code does but not related to the text of RFC 1321 section 3.4 by a proof.
- Memory tests: offsets are unbounded where the code has 32 bits; the dispatcher that picks a width is four copies of one call.
- Cache loss: erase and trim requests do not look at the write-protect flag and are outside the claim; the retry loop that is compiled out, card removal and the request queue's order are not modelled.
- PHY and MDIO access, media ioctls, attach and destroy paths, option parsing: fixed register writes and resource handling.
- `sqi.c`, `devc/sermx1`, the rest of `sim_sdmmc.c` and `sim_assd.c`, `flash/mtd-flash`, image scanning and XIP loading in `ipl/lib`: other code not needed for these results.
