/** The write protection of an eMMC user area whose cache was lost
    (src/hardware/devb/sdmmc/sim_sdmmc.c): partition setup, the reset, and the read and
    write requests that follow it. */
module CacheLoss {
  /** SDMMC_TARGET_MAX and SDMMC_PARTITION_MAX. */
  const MAX: nat := 8

  const USER: nat := 0
  const RPMB: nat := 3

  /** wp is SDMMC_PFLAG_WP, enh SDMMC_PFLAG_ENH; the low three bits of config select the
      hardware partition. */
  datatype Part = Part(wp: bool, enh: bool, config: nat, nlba: nat)

  function Kind(p: Part): nat { p.config % 8 }

  /** What reaches the card: a reset that lost cached data, or a call of sdmmc_rw. */
  datatype Event = Lost | Rw(target: nat, lun: nat, write: bool, kind: nat)

  datatype Status = REQ_CMP | TID_INVALID | LUN_INVALID | NO_HBA | NOT_READY | LOCKED | READ_ONLY | PROVIDE_FAIL
      | CMD_TIMEOUT | FAILED

  /** How the card answers one call of sdmmc_rw: its status, whether the error path resets
      the card, and the device information read back after an error. */
  datatype Answer = Fine | Bad(reset: bool, cacheCap: bool, locked: bool)

  /** SC_READ10 or SC_WRITE10, with whether sdio_set_partition succeeds and the card's answer;
      or a mode select of the caching page and whether sdio_cache succeeds. */
  datatype Request =
    | ReadWrite(target: nat, lun: nat, write: bool, selected: bool, answer: Answer)
    | Caching(target: nat, lun: nat, enable: bool, accepted: bool)

  /** Once data was lost, no write to the user area reaches the card. */
  ghost predicate Safe(log: seq<Event>) {
    forall i, j | 0 <= i < j < |log| && log[i].Lost? && log[j].Rw? && log[j].write :: log[j].kind != USER
  }

  lemma {:induction false} SafeNext(log: seq<Event>, e: Event)
    requires Safe(log) && (e.Rw? && e.write && e.kind == USER ==> Lost !in log)
    ensures Safe(log + [e])
  {
  }

  /** Nothing changes but that the partition may have become write protected. */
  predicate OnlyWp(p: Part, q: Part) {
    q == p || q == p.(wp := true)
  }

  class Sim {
    var parts: array2<Part>
    var nluns: array<nat>
    var ntargs: nat
    var present: bool
    var locked: bool       // DEV_FLAG_CARD_LOCKED
    var cacheCap: bool     // DEV_CAP_CACHE
    var cacheOn: bool      // SDMMC_EFLAG_CACHE
    ghost var log: seq<Event>

    /** The targets and LUNs that requests are admitted for. */
    predicate Admitted(t: nat, l: nat)
      reads this, nluns
    {
      t <= ntargs && t < nluns.Length && l <= nluns[t]
    }

    ghost predicate Shape()
      reads this, parts, nluns
    {
      && parts.Length0 == MAX && parts.Length1 == MAX && nluns.Length == MAX && ntargs < MAX
      && (forall t | 0 <= t < MAX :: nluns[t] < MAX)
    }

    /** Every user-area partition that requests are admitted for is write protected. */
    ghost predicate Protected()
      requires Shape()
      reads this, parts, nluns
    {
      forall t, l | 0 <= t < MAX && 0 <= l < MAX && Admitted(t, l) && Kind(parts[t, l]) == USER :: parts[t, l].wp
    }

    ghost predicate Valid()
      reads this, parts, nluns
    {
      Shape() && Safe(log) && (Lost in log ==> Protected())
    }

    /** An empty table: one target with one partition. */
    constructor (present: bool, locked: bool, cacheCap: bool, cacheOn: bool)
      ensures Valid() && log == [] && ntargs == 0
      ensures fresh(parts) && fresh(nluns)
      ensures forall t, l | 0 <= t < MAX && 0 <= l < MAX :: parts[t, l] == Part(false, false, 0, 0)
      ensures forall t | 0 <= t < MAX :: nluns[t] == 0
    {
      this.present, this.locked, this.cacheCap, this.cacheOn := present, locked, cacheCap, cacheOn;
      ntargs, log := 0, [];
      parts := new Part[MAX, MAX]((i, j) => Part(false, false, 0, 0));
      nluns := new nat[MAX](i => 0);
    }

    /** Hardware partitions from target lo on: one target each, selecting partition lo, lo + 1, ... */
    method Enumerate(lo: nat, access: nat, sizes: seq<nat>, enh: seq<bool>)
      requires Shape() && 0 < lo == ntargs + 1 && lo + |sizes| <= MAX && |enh| == |sizes| && access % 8 == 0
      modifies this`ntargs, parts
      ensures Shape() && ntargs == old(ntargs) + |sizes|
      ensures forall t, l | 0 <= t < MAX && 0 <= l < MAX ::
        parts[t, l] ==
          if lo <= t < lo + |sizes| && l == 0 then Part(old(parts[t, l]).wp, enh[t - lo], access + t, sizes[t - lo])
          else old(parts[t, l])
    {
      var i := 0;
      while i < |sizes|
        invariant 0 <= i <= |sizes| && Shape() && ntargs == old(ntargs) + i
        invariant forall t, l | 0 <= t < MAX && 0 <= l < MAX ::
          parts[t, l] ==
            if lo <= t < lo + i && l == 0 then Part(old(parts[t, l]).wp, enh[t - lo], access + t, sizes[t - lo])
            else old(parts[t, l])
      {
        var p := parts[lo + i, 0];
        parts[lo + i, 0] := Part(p.wp, enh[i], access + lo + i, sizes[i]);
        ntargs := ntargs + 1;
        i := i + 1;
      }
    }

    /** sdmmc_partition_config and sdmmc_partition_enum: access is the partition configuration
        with the access bits clear (0 for an SD card); an eMMC device may have two boot
        areas, the RPMB area and four general purpose partitions. */
    method Configure(writeProtected: bool, access: nat, sectors: nat, enumerated: bool, boot: nat, rpmb: nat,
        gp: seq<nat>, enh: seq<bool>)
      requires Shape() && ntargs == 0 && access % 8 == 0 && |gp| == 4 && |enh| == 5
      requires log == [] && forall t, l | 0 <= t < MAX && 0 <= l < MAX :: parts[t, l] == Part(false, false, 0, 0)
      modifies this`ntargs, parts
      ensures Valid() && ntargs == if enumerated then 7 else 0
      ensures parts[0, 0] == Part(writeProtected, false, access, sectors)
      ensures forall t | 1 <= t <= ntargs :: Kind(parts[t, 0]) == t && !parts[t, 0].wp
      ensures forall t | 0 <= t <= ntargs :: Kind(parts[t, 0]) == USER <==> t == 0
    {
      parts[0, 0] := Part(writeProtected, false, access, sectors);
      if enumerated {
        Enumerate(1, access, [boot, boot], [enh[4], enh[4]]);
        Enumerate(3, access, [rpmb], [false]);
        Enumerate(4, access, gp, enh[..4]);
      }
    }

    /** sdmmc_set_partition_attr with SDMMC_PFLAG_WP. */
    method SetPartitionAttr(partition: nat)
      requires Shape()
      modifies parts
      ensures Shape()
      ensures forall t, l | 0 <= t < MAX && 0 <= l < MAX ::
        parts[t, l] ==
          if Admitted(t, l) && Kind(old(parts[t, l])) == partition then old(parts[t, l]).(wp := true)
          else old(parts[t, l])
    {
      var t := 0;
      while t <= ntargs
        invariant t <= ntargs + 1
        invariant forall i, l | 0 <= i < MAX && 0 <= l < MAX ::
          parts[i, l] ==
            if i < t && Admitted(i, l) && Kind(old(parts[i, l])) == partition then old(parts[i, l]).(wp := true)
            else old(parts[i, l])
      {
        var p := 0;
        while p <= nluns[t]
          invariant p <= nluns[t] + 1
          invariant forall i, l | 0 <= i < MAX && 0 <= l < MAX ::
            parts[i, l] ==
              if (i < t || (i == t && l < p)) && Admitted(i, l) && Kind(old(parts[i, l])) == partition
              then old(parts[i, l]).(wp := true)
              else old(parts[i, l])
        {
          if Kind(parts[t, p]) == partition {
            parts[t, p] := parts[t, p].(wp := true);
          }
          p := p + 1;
        }
        t := t + 1;
      }
    }

    /** sdmmc_reset: with the cache enabled, its data is lost and the user area becomes read only. */
    method Reset()
      requires Valid()
      modifies this`log, this`cacheOn, parts
      ensures Valid()
      ensures if old(cacheCap && cacheOn) then log == old(log) + [Lost] && !cacheOn
              else log == old(log) && cacheOn == old(cacheOn)
      ensures forall t, l | 0 <= t < MAX && 0 <= l < MAX ::
        parts[t, l] ==
          if old(cacheCap && cacheOn) && Admitted(t, l) && Kind(old(parts[t, l])) == USER
            then old(parts[t, l]).(wp := true)
          else old(parts[t, l])
    {
      if cacheCap && cacheOn {
        SafeNext(log, Lost);
        SetPartitionAttr(USER);
        cacheOn := false;
        log := log + [Lost];
      }
    }

    /** The admission checks of sdmmc_sim_action. */
    method Admit(target: nat, lun: nat) returns (r: Status)
      requires Shape()
      ensures r == REQ_CMP || r == TID_INVALID || r == LUN_INVALID
      ensures r == REQ_CMP <==> Admitted(target, lun)
      ensures r == TID_INVALID <==> target > ntargs
    {
      if target > ntargs {
        return TID_INVALID;
      }
      if lun > nluns[target] {
        return LUN_INVALID;
      }
      r := REQ_CMP;
    }

    /** sdmmc_unit_ready. */
    method UnitReady(target: nat, lun: nat) returns (r: Status)
      requires Shape() && Admitted(target, lun)
      ensures r == if parts[target, lun].nlba == 0 then NOT_READY else if !present then NO_HBA else REQ_CMP
    {
      r := REQ_CMP;
      if !present {
        r := NO_HBA;
      }
      if parts[target, lun].nlba == 0 {
        r := NOT_READY;
      }
    }

    /** sdmmc_rw, the only way to the card's data. */
    method Rw(target: nat, lun: nat, write: bool, answer: Answer) returns (ok: bool)
      requires Valid() && Admitted(target, lun)
      requires write && Kind(parts[target, lun]) == USER ==> !parts[target, lun].wp
      modifies this`log, this`cacheOn, this`cacheCap, this`locked, parts
      ensures Valid() && ok == answer.Fine?
      ensures var e := Event.Rw(target, lun, write, Kind(old(parts[target, lun])));
        log == old(log) + [e] + if answer.Bad? && answer.reset && old(cacheCap && cacheOn) then [Lost] else []
      ensures forall t, l | 0 <= t < MAX && 0 <= l < MAX :: OnlyWp(old(parts[t, l]), parts[t, l])
    {
      var e := Event.Rw(target, lun, write, Kind(parts[target, lun]));
      SafeNext(log, e);
      log := log + [e];
      if answer.Bad? {
        if answer.reset {
          Reset();
        }
        cacheCap, locked := answer.cacheCap, answer.locked;
      }
      ok := answer.Fine?;
    }

    /** sdmmc_read_write. */
    method ReadWriteRequest(target: nat, lun: nat, write: bool, selected: bool, answer: Answer) returns (r: Status)
      requires Valid() && Admitted(target, lun)
      modifies this`log, this`cacheOn, this`cacheCap, this`locked, parts
      ensures Valid()
      ensures var p := old(parts[target, lun]);
        var lossy := old(cacheCap && cacheOn);
        if p.nlba == 0 then r == NOT_READY && log == old(log)
        else if !present then r == NO_HBA && log == old(log)
        else if old(locked) then r == LOCKED && log == old(log)
        else if write && p.wp then r == READ_ONLY && log == old(log)
        else if Kind(p) == RPMB then r == PROVIDE_FAIL && log == old(log)
        else if !selected then r == CMD_TIMEOUT && log == old(log) + if lossy then [Lost] else []
        else
          r == (if answer.Fine? then REQ_CMP else FAILED) &&
          log == old(log) + [Event.Rw(target, lun, write, Kind(p))] +
            if answer.Bad? && answer.reset && lossy then [Lost] else []
      ensures forall t, l | 0 <= t < MAX && 0 <= l < MAX :: OnlyWp(old(parts[t, l]), parts[t, l])
    {
      r := UnitReady(target, lun);
      if r != REQ_CMP {
        return;
      }
      if locked {
        return LOCKED;
      }
      if write && parts[target, lun].wp {
        return READ_ONLY;
      }
      if Kind(parts[target, lun]) == RPMB {
        return PROVIDE_FAIL;
      }
      if !selected {
        Reset();
        return CMD_TIMEOUT;
      }
      var ok := Rw(target, lun, write, answer);
      r := if ok then REQ_CMP else FAILED;
    }

    /** Selecting the caching mode page turns the cache flag on or off. */
    method CachingRequest(enable: bool, accepted: bool) returns (r: Status)
      requires Valid()
      modifies this`cacheOn
      ensures Valid() && r == (if cacheCap && accepted then REQ_CMP else FAILED)
      ensures cacheOn == if cacheCap && accepted then enable else old(cacheOn)
    {
      r := FAILED;
      if cacheCap && accepted {
        cacheOn := enable;
        r := REQ_CMP;
      }
    }

    /** A request as it goes through sdmmc_sim_action. */
    method Serve(q: Request) returns (r: Status)
      requires Valid()
      modifies this`log, this`cacheOn, this`cacheCap, this`locked, parts
      ensures Valid() && old(log) <= log
      ensures r == TID_INVALID || r == LUN_INVALID <==> !Admitted(q.target, q.lun)
      ensures !Admitted(q.target, q.lun) ==> log == old(log) && cacheOn == old(cacheOn)
      ensures forall t, l | 0 <= t < MAX && 0 <= l < MAX :: OnlyWp(old(parts[t, l]), parts[t, l])
    {
      r := Admit(q.target, q.lun);
      if r != REQ_CMP {
        return;
      }
      match q
      case ReadWrite(t, l, write, selected, answer) =>
        r := ReadWriteRequest(t, l, write, selected, answer);
      case Caching(_, _, enable, accepted) =>
        r := CachingRequest(enable, accepted);
    }

    /** Any sequence of requests: once cached data was lost, no write to the user area
        reaches the card again. */
    method ServeAll(reqs: seq<Request>)
      requires Valid()
      modifies this`log, this`cacheOn, this`cacheCap, this`locked, parts
      ensures Valid() && old(log) <= log
      ensures Lost in old(log) ==> forall j | |old(log)| <= j < |log| && log[j].Rw? && log[j].write ::
        log[j].kind != USER
      ensures forall t, l | 0 <= t < MAX && 0 <= l < MAX :: OnlyWp(old(parts[t, l]), parts[t, l])
    {
      for i := 0 to |reqs|
        invariant Valid() && old(log) <= log
        invariant forall t, l | 0 <= t < MAX && 0 <= l < MAX :: OnlyWp(old(parts[t, l]), parts[t, l])
      {
        var _ := Serve(reqs[i]);
      }
    }
  }
}
