/** Index arithmetic of a descriptor ring: absolute positions grow without bound and
    the slot of a position is its residue modulo the number of descriptors. */
module Ring {
  import opened Arith

  /** The ring slot of an absolute position. */
  function Slot(i: nat, n: nat): (s: nat)
    requires n > 0
    ensures s < n
  {
    if i < n then i else Slot(i - n, n)
  }

  /** NEXT_TX and NEXT_RX: (x + 1) % num_descriptors. */
  function Next(s: nat, n: nat): (t: nat)
    requires s < n
    ensures t < n
    ensures t == if s + 1 == n then 0 else s + 1
  {
    if s + 1 < n then
      assert (s + 1) % n == s + 1;
      (s + 1) % n
    else
      (s + 1) % n
  }

  lemma {:induction false} SlotIsMod(i: nat, n: nat)
    requires n > 0
    ensures Slot(i, n) == i % n
  {
    if i >= n {
      SlotIsMod(i - n, n);
      assert i == n + (i - n);
      ModAddsDivisor(i - n, n);
    }
  }

  lemma {:induction false} ModAddsDivisor(x: nat, n: nat)
    requires n > 0
    ensures (x + n) % n == x % n
  {
    AddMul(x / n, 1, n);
    DivisionIsUnique(x + n, n, x / n + 1, x % n);
  }

  lemma {:induction false} SlotNext(i: nat, n: nat)
    requires n > 0
    ensures Slot(i + 1, n) == Next(Slot(i, n), n)
    decreases i
  {
    if i >= n {
      SlotNext(i - n, n);
    }
  }

  lemma {:induction false} SlotDistinct(i: nat, j: nat, n: nat)
    requires i < j < i + n
    ensures Slot(i, n) != Slot(j, n)
    decreases j
  {
    if i >= n {
      SlotDistinct(i - n, j - n, n);
    }
  }

  /** Positions less than one lap apart never share a slot. */
  lemma {:induction false} SlotAlone(k: nat, lo: nat, n: nat)
    requires lo <= k < lo + n
    ensures forall i {:trigger Slot(i, n)} | lo <= i < lo + n && i != k :: Slot(i, n) != Slot(k, n)
  {
    forall i {:trigger Slot(i, n)} | lo <= i < lo + n && i != k
      ensures Slot(i, n) != Slot(k, n)
    {
      if i < k { SlotDistinct(i, k, n); } else { SlotDistinct(k, i, n); }
    }
  }

  /** A lap later the slot is the same again. */
  lemma {:induction false} SlotLap(i: nat, n: nat)
    requires n > 0
    ensures Slot(i + n, n) == Slot(i, n)
  {
  }

  /** One lap visits every slot. */
  lemma {:induction false} SlotCovers(lo: nat, n: nat, s: nat) returns (i: nat)
    requires s < n
    ensures lo <= i < lo + n && Slot(i, n) == s
    decreases lo
  {
    if lo < n {
      i := if s >= lo then s else s + n;
    } else {
      var j := SlotCovers(lo - n, n, s);
      i := j + n;
      SlotLap(j, n);
    }
  }

  /** (p - c) mod n, computed from two slots. */
  function Distance(c: nat, p: nat, n: nat): (d: nat)
    requires c < n && p < n
    ensures d < n
  {
    if p >= c then p - c else p + n - c
  }

  /** The distance between two positions of one window is read off their slots. */
  lemma {:induction false} SlotDistance(c: nat, p: nat, n: nat)
    requires c <= p < c + n
    ensures p - c == Distance(Slot(c, n), Slot(p, n), n)
    decreases c
  {
    if c >= n {
      SlotDistance(c - n, p - n, n);
    }
  }
}
