/** Credit-based shaper setup (src/hardware/devnp/mx6x/transmit.c): rounding an idle slope
    up to a value the hardware takes, and the bandwidth check before it. */
module IdleSlope {
  import opened Arith

  /** What ENET_DMAnCFG takes: a power of two up to 128, or a multiple of 128. */
  predicate Legal(v: nat) {
    v in {1, 2, 4, 8, 16, 32, 64} || (v > 0 && v % 128 == 0)
  }

  /** r is the least legal value from v on. */
  ghost predicate LeastLegal(v: nat, r: nat) {
    Legal(r) && v <= r && forall s | v <= s < r :: !Legal(s)
  }

  /** value & tmp, for a power of two. */
  predicate BitSet(v: nat, tmp: nat) {
    tmp > 0 && v / tmp % 2 == 1
  }

  /** Below twice the power the bit is the top one. */
  lemma {:induction false} TopBit(v: nat, tmp: nat)
    requires tmp > 0 && v < 2 * tmp
    ensures BitSet(v, tmp) <==> v >= tmp
  {
    if v >= tmp {
      DivisionIsUnique(v, tmp, 1, v - tmp);
    } else {
      DivisionIsUnique(v, tmp, 0, v);
    }
  }

  lemma {:induction false} PowerIsLeast(v: nat, tmp: nat)
    requires tmp in {64, 32, 16, 8, 4, 2, 1} && tmp <= v < 2 * tmp
    ensures LeastLegal(v, if v > tmp then 2 * tmp else tmp)
  {
  }

  lemma {:induction false} MultipleIsLeast(v: nat)
    requires v >= 128
    ensures LeastLegal(v, (v + 127) / 128 * 128)
  {
  }

  /** valid_idleslope: the least legal value from v on, and 1 where rounding up wraps. */
  method ValidIdleSlope(v: nat) returns (value: nat)
    requires v < 0x1_0000_0000
    ensures if v + 127 < 0x1_0000_0000 then LeastLegal(if v == 0 then 1 else v, value) else value == 1
  {
    hide BitSet, LeastLegal;
    value := v;
    if value < 128 {
      // round up to a power of two
      var tmp := 128;
      TopBit(v, tmp);
      while tmp != 0 && !BitSet(value, tmp)
        invariant tmp in {128, 64, 32, 16, 8, 4, 2, 1, 0}
        invariant if tmp > 0 then v < 2 * tmp && (BitSet(v, tmp) <==> v >= tmp) else v == 0
        invariant tmp == 128 ==> v < 128
        decreases tmp
      {
        tmp := tmp / 2;
        if tmp > 0 {
          TopBit(v, tmp);
        }
      }
      if value > 0 {
        PowerIsLeast(v, tmp);
      }
      if value > tmp {
        value := 2 * tmp;
      }
    } else {
      // round up to a multiple of 128
      MultipleIsLeast(v);
      var tmp := Wrap(value + 127) / 128;
      value := tmp * 128;
    }
    if value == 0 {
      OneIsLeast();
      value := 1;
    }
  }

  lemma {:induction false} OneIsLeast()
    ensures LeastLegal(1, 1)
  {
  }

  // ---- the bandwidth check ----

  /** Mbps for a sum of kbps, as computed. */
  function Mbps(sum: nat): nat {
    Wrap(sum + 1023) / 1024
  }

  /** The sum is rounded up to whole Mbps exactly when it does not overflow. */
  lemma {:induction false} MbpsExactly(sum: nat)
    ensures Mbps(sum) * 1024 >= sum <==> sum + 1023 < 0x1_0000_0000
    ensures sum + 1023 < 0x1_0000_0000 ==> Mbps(sum) * 1024 < sum + 1024
  {
  }

  /** floor(512 * q / (port - q)). */
  function Slope(q: nat, port: nat): nat
    requires q < port
  {
    512 * q / (port - q)
  }

  lemma {:induction false} SlopeBounded(q: nat, port: nat)
    requires 4 * q < 3 * port
    ensures q < port && Slope(q, port) <= 1535
  {
    QuotientAtMost(512 * q, port - q, 1535);
  }

  lemma {:induction false} LegalBounded(v: nat, r: nat)
    requires v <= 1536 && LeastLegal(v, r)
    ensures r <= 1536
  {
    assert Legal(1536);
  }

  /** The slope set gives queue q its bandwidth exactly when the division is exact or the
      rounded-down slope was not legal by itself. */
  lemma {:induction false} EnoughExactly(q: nat, port: nat, idle: nat)
    requires q < port && LeastLegal(if Slope(q, port) == 0 then 1 else Slope(q, port), idle)
    ensures idle * (port - q) >= 512 * q <==> 512 * q % (port - q) == 0 || !Legal(Slope(q, port))
  {
    var d := port - q;
    var f := Slope(q, port);
    QuotientBounds(512 * q, d);
    if idle == f {
      assert f * d + 512 * q % d == 512 * q;
    } else {
      MulMonotone(f + 1, idle, d);
    }
  }

  datatype Errno = EOK | EINVAL

  /** The slope written for queue bandwidth q. */
  ghost predicate Right(q: nat, port: nat, idle: nat) {
    && q < port && Legal(idle) && 1 <= idle <= 1536
    && LeastLegal(if Slope(q, port) == 0 then 1 else Slope(q, port), idle)
  }

  lemma {:induction false} LegalIsRight(q: nat, port: nat, idle: nat)
    requires 4 * q < 3 * port && LeastLegal(if Slope(q, port) == 0 then 1 else Slope(q, port), idle)
    ensures Right(q, port, idle)
  {
    SlopeBounded(q, port);
    LegalBounded(if Slope(q, port) == 0 then 1 else Slope(q, port), idle);
  }

  lemma {:induction false} TooMuch(q: nat, port: nat)
    requires port > 0
    ensures 4 * q / port >= 3 <==> 4 * q >= 3 * port
  {
    if 4 * q >= 3 * port {
      QuotientAtLeast(4 * q, port, 3);
    } else {
      QuotientAtMost(4 * q, port, 2);
    }
  }

  /** A request far beyond the port is accepted, with the smallest slope, when its sum
      overflows. */
  lemma {:induction false} OverflowIsAccepted()
    ensures Mbps(0x8000_0000 + 0x8000_0000) == 0
    ensures LeastLegal(1, 1) && Right(0, 100, 1)
  {
    DivisionIsUnique(0, 100, 0, 0);
  }

  /** 2 Mbps of a 1000 Mbps port get a slope that grants less. */
  lemma {:induction false} SlopeTooSmall()
    ensures Right(2, 1000, 1) && 1 * (1000 - 2) < 512 * 2
  {
    DivisionIsUnique(1024, 998, 1, 26);
    assert LeastLegal(1, 1);
  }

  /** The slope fields of DMACFG1 and DMACFG2. */
  class Shapers {
    var idle1: nat
    var idle2: nat

    constructor ()
    {
      idle1, idle2 := 0, 0;
    }

    /** mx6q_set_tx_bw: bw is the bandwidth of each priority in kbps, port the rate of the
        port in Mbps, 0 while the link is down. */
    method SetTxBw(bw: seq<nat>, port: nat) returns (r: Errno)
      requires |bw| == 8
      modifies this
      ensures var q1, q2 := Mbps(bw[4] + bw[5] + bw[6] + bw[7]), Mbps(bw[2] + bw[3]);
        && (port == 0 ==> r == EOK && idle1 == old(idle1) && idle2 == old(idle2))
        && (port > 0 ==> (r == EOK <==> 4 * (q1 + q2) < 3 * port))
        && (r == EINVAL ==> idle1 == 1536 && idle2 == 1536)
        && (port > 0 && r == EOK ==> Right(q1, port, idle1) && Right(q2, port, idle2))
    {
      if port == 0 {
        return EOK;
      }
      hide Wrap, LeastLegal, Slope;
      var q2 := Mbps(bw[2] + bw[3]);
      var q1 := Mbps(bw[4] + bw[5] + bw[6] + bw[7]);
      TooMuch(q1 + q2, port);
      if 4 * (q1 + q2) / port >= 3 {
        idle1, idle2 := 1536, 1536;
        return EINVAL;
      }
      SlopeBounded(q1, port);
      SlopeBounded(q2, port);
      var i1 := ValidIdleSlope(Slope(q1, port));
      var i2 := ValidIdleSlope(Slope(q2, port));
      LegalIsRight(q1, port, i1);
      LegalIsRight(q2, port, i2);
      idle1, idle2 := i1, i2;
      r := EOK;
    }
  }
}
