/** Boot-time memory tests (src/hardware/ipl/lib/mem_tests.c) over a memory with an
    arbitrary address-aliasing map and stuck data lines. */
module MemTests {
  import opened Options
  import opened Arith

  /** A data word, lowest line first. */
  type Bits = seq<bool>

  /** A line of a cell: it stores what is written, or reads the same always. */
  datatype Line = Good | Stuck(level: bool)

  // ---- words ----

  function Complement(x: Bits): (y: Bits)
    ensures |y| == |x|
  {
    seq(|x|, i requires 0 <= i < |x| => !x[i])
  }

  /** The w low bits of n. */
  function BitsOf(n: nat, w: nat): (x: Bits)
    ensures |x| == w
  {
    if w == 0 then [] else [n % 2 == 1] + BitsOf(n / 2, w - 1)
  }

  /** What a cell with these lines reads back after x is written. */
  function Through(lines: seq<Line>, x: Bits): (y: Bits)
    requires |lines| == |x|
    ensures |y| == |x|
  {
    seq(|x|, i requires 0 <= i < |x| => if lines[i].Good? then x[i] else lines[i].level)
  }

  predicate Sound(lines: seq<Line>) {
    forall i | 0 <= i < |lines| :: lines[i].Good?
  }

  lemma {:induction false} ComplementDiffers(x: Bits)
    requires |x| > 0
    ensures Complement(x) != x
  {
    assert Complement(x)[0] != x[0];
  }

  lemma {:induction false} ComplementInjective(x: Bits, y: Bits)
    requires Complement(x) == Complement(y)
    ensures x == y
  {
    assert |x| == |y|;
    forall i | 0 <= i < |x|
      ensures x[i] == y[i]
    {
      assert Complement(x)[i] == Complement(y)[i];
    }
  }

  lemma {:induction false} SoundReadsBack(lines: seq<Line>, x: Bits)
    requires |lines| == |x| && Sound(lines)
    ensures Through(lines, x) == x
  {
  }

  /** A word and its complement both read back only from a cell without stuck lines. */
  lemma {:induction false} BothReadBack(lines: seq<Line>, x: Bits)
    requires |lines| == |x| && Through(lines, x) == x && Through(lines, Complement(x)) == Complement(x)
    ensures Sound(lines)
  {
    forall i | 0 <= i < |lines|
      ensures lines[i].Good?
    {
      assert Through(lines, x)[i] == x[i];
      assert Through(lines, Complement(x))[i] == Complement(x)[i];
    }
  }

  // ---- memory ----

  /** Memory under test: an address selects a cell through wire; several addresses may
      select the same one. */
  class Memory {
    const w: nat
    const wire: nat -> nat
    const lines: nat -> seq<Line>   // of each cell
    var cells: map<nat, Bits>       // what was last written to each cell

    ghost predicate Valid()
      reads this
    {
      && w > 0
      && (forall c :: |lines(c)| == w)
      && (forall c | c in cells :: |cells[c]| == w)
    }

    method Write(a: nat, x: Bits)
      requires Valid() && |x| == w
      modifies this
      ensures Valid() && cells == old(cells)[wire(a) := x]
    {
      cells := cells[wire(a) := x];
    }

    /** Reads a word written before. */
    method Read(a: nat) returns (x: Bits)
      requires Valid() && wire(a) in cells
      ensures x == Through(lines(wire(a)), cells[wire(a)])
    {
      x := Through(lines(wire(a)), cells[wire(a)]);
    }
  }

  // ---- DEVICE_TEST ----

  /** The incrementing pattern at an offset, cut to the word width. */
  function Pattern(a: nat, w: nat): (x: Bits)
    ensures |x| == w
  {
    BitsOf(a + 1, w)
  }

  /** No later address below n selects the same cell. */
  predicate IsLast(wire: nat -> nat, a: nat, n: nat) {
    forall b | a < b < n :: wire(b) != wire(a)
  }

  /** No address below k selects the same cell. */
  predicate NoneBefore(wire: nat -> nat, a: nat, k: nat) {
    forall b | 0 <= b < k :: wire(b) != wire(a)
  }

  ghost predicate Injective(wire: nat -> nat, n: nat) {
    forall a, b | 0 <= a < b < n :: wire(a) != wire(b)
  }

  /** No two addresses of the region share a cell and no cell of it has a stuck line. */
  ghost predicate Perfect(mem: Memory, n: nat) {
    && Injective(mem.wire, n)
    && forall a | 0 <= a < n :: Sound(mem.lines(mem.wire(a)))
  }

  /** After the first pass: each cell holds the pattern of its last address. */
  ghost predicate Filled(cells: map<nat, Bits>, wire: nat -> nat, w: nat, n: nat) {
    forall a | 0 <= a < n ::
      wire(a) in cells && (IsLast(wire, a, n) ==> cells[wire(a)] == Pattern(a, w))
  }

  lemma {:induction false} FillStep(cells: map<nat, Bits>, wire: nat -> nat, w: nat, k: nat)
    requires Filled(cells, wire, w, k)
    ensures Filled(cells[wire(k) := Pattern(k, w)], wire, w, k + 1)
  {
    forall a | 0 <= a < k + 1 && IsLast(wire, a, k + 1)
      ensures cells[wire(k) := Pattern(k, w)][wire(a)] == Pattern(a, w)
    {
      if a < k {
        assert IsLast(wire, a, k);
      }
    }
  }

  /** In the second pass, with offsets below k inverted. */
  ghost predicate Inverted(cells: map<nat, Bits>, wire: nat -> nat, w: nat, k: nat, n: nat) {
    && k <= n
    && (forall a | 0 <= a < n :: wire(a) in cells)
    && (forall a | 0 <= a < k && IsLast(wire, a, k) :: cells[wire(a)] == Complement(Pattern(a, w)))
    && (forall a | k <= a < n && NoneBefore(wire, a, k) && IsLast(wire, a, n) :: cells[wire(a)] == Pattern(a, w))
  }

  lemma {:induction false} InvertStep(cells: map<nat, Bits>, wire: nat -> nat, w: nat, k: nat, n: nat)
    requires Inverted(cells, wire, w, k, n) && k < n
    ensures Inverted(cells[wire(k) := Complement(Pattern(k, w))], wire, w, k + 1, n)
  {
    hide Pattern, Complement, IsLast, NoneBefore;
    var cells' := cells[wire(k) := Complement(Pattern(k, w))];
    forall a | 0 <= a < k + 1 && IsLast(wire, a, k + 1)
      ensures cells'[wire(a)] == Complement(Pattern(a, w))
    {
      if a < k { LastBelow(wire, a, k); }
    }
    forall a | k + 1 <= a < n && NoneBefore(wire, a, k + 1) && IsLast(wire, a, n)
      ensures cells'[wire(a)] == Pattern(a, w)
    {
      NoneBelow(wire, a, k);
    }
  }

  lemma {:induction false} LastBelow(wire: nat -> nat, a: nat, k: nat)
    requires a < k && IsLast(wire, a, k + 1)
    ensures IsLast(wire, a, k) && wire(a) != wire(k)
  {
  }

  lemma {:induction false} NoneBelow(wire: nat -> nat, a: nat, k: nat)
    requires NoneBefore(wire, a, k + 1)
    ensures NoneBefore(wire, a, k) && wire(a) != wire(k)
  {
  }

  /** Reading an address whose nearest earlier alias is a, during the second pass. */
  ghost predicate AliasRead(mem: Memory, a: nat, b: nat) {
    |mem.lines(mem.wire(a))| == mem.w &&
    Through(mem.lines(mem.wire(a)), Complement(Pattern(a, mem.w))) == Pattern(b, mem.w)
  }

  /** a is the nearest earlier alias of b. */
  predicate Nearest(wire: nat -> nat, a: nat, b: nat) {
    a < b && wire(a) == wire(b) && IsLast(wire, a, b)
  }

  /** No other address below n selects the cell of a. */
  predicate Alone(wire: nat -> nat, a: nat, n: nat) {
    NoneBefore(wire, a, a) && IsLast(wire, a, n)
  }

  ghost predicate PatternRead(mem: Memory, a: nat) {
    |mem.lines(mem.wire(a))| == mem.w &&
    Through(mem.lines(mem.wire(a)), Pattern(a, mem.w)) == Pattern(a, mem.w)
  }

  /** What the second pass has established for the offsets below k. */
  ghost predicate SecondPassed(mem: Memory, k: nat, n: nat) {
    && (forall a, b | 0 <= a < b < k && Nearest(mem.wire, a, b) :: AliasRead(mem, a, b))
    && (forall a | 0 <= a < k && Alone(mem.wire, a, n) :: PatternRead(mem, a))
  }

  /** What the third pass has established for the offsets below k. */
  ghost predicate ThirdPassed(mem: Memory, k: nat, n: nat) {
    && (forall c :: |mem.lines(c)| == mem.w)
    && (forall a, l | 0 <= a < k && a <= l < n && mem.wire(l) == mem.wire(a) && IsLast(mem.wire, l, n) ::
          Through(mem.lines(mem.wire(a)), Complement(Pattern(l, mem.w))) == Complement(Pattern(a, mem.w)))
  }

  lemma {:induction false} LastAlias(wire: nat -> nat, a: nat, n: nat) returns (l: nat)
    requires a < n
    ensures a <= l < n && wire(l) == wire(a) && IsLast(wire, l, n)
    decreases n - a
  {
    if IsLast(wire, a, n) {
      l := a;
    } else {
      var b :| a < b < n && wire(b) == wire(a);
      l := LastAlias(wire, b, n);
    }
  }

  lemma {:induction false} NextAlias(wire: nat -> nat, a: nat, b: nat) returns (c: nat)
    requires a < b && wire(a) == wire(b)
    ensures a < c <= b && wire(c) == wire(a) && IsLast(wire, a, c)
    decreases b
  {
    if IsLast(wire, a, b) {
      c := b;
    } else {
      var d :| a < d < b && wire(d) == wire(a);
      c := NextAlias(wire, a, d);
    }
  }

  /** Two addresses with one cell cannot get through all the passes. */
  lemma {:induction false} AliasIsCaught(mem: Memory, n: nat, a: nat, b: nat)
    requires mem.w > 0 && SecondPassed(mem, n, n) && ThirdPassed(mem, n, n)
    requires a < b < n
    ensures mem.wire(a) != mem.wire(b)
  {
    if mem.wire(a) == mem.wire(b) {
      var c := NextAlias(mem.wire, a, b);
      var l := LastAlias(mem.wire, c, n);
      var lines := mem.lines(mem.wire(a));
      var p, q, r := Pattern(a, mem.w), Pattern(c, mem.w), Pattern(l, mem.w);
      assert Through(lines, Complement(r)) == Complement(p) == Complement(q) == Complement(r);
      ComplementInjective(p, q);
      ComplementInjective(p, r);
      assert Nearest(mem.wire, a, c) && AliasRead(mem, a, c);
      ComplementDiffers(p);
    }
  }

  lemma {:induction false} PassedIsPerfect(mem: Memory, n: nat)
    requires mem.w > 0 && SecondPassed(mem, n, n) && ThirdPassed(mem, n, n)
    ensures Perfect(mem, n)
  {
    forall a, b | 0 <= a < b < n
      ensures mem.wire(a) != mem.wire(b)
    {
      AliasIsCaught(mem, n, a, b);
    }
    forall a | 0 <= a < n
      ensures Sound(mem.lines(mem.wire(a)))
    {
      assert Alone(mem.wire, a, n) && PatternRead(mem, a);
      BothReadBack(mem.lines(mem.wire(a)), Pattern(a, mem.w));
    }
  }

  /** DEVICE_TEST over num words: it passes exactly when the region is perfect. */
  method DeviceTest(mem: Memory, num: nat) returns (fault: Option<nat>)
    requires mem.Valid()
    modifies mem
    ensures mem.Valid()
    ensures fault.None? <==> Perfect(mem, num)
    ensures fault.Some? ==> fault.value < num
  {
    hide Pattern;
    var offset := 0;
    while offset < num
      invariant mem.Valid() && offset <= num && Filled(mem.cells, mem.wire, mem.w, offset)
    {
      FillStep(mem.cells, mem.wire, mem.w, offset);
      mem.Write(offset, Pattern(offset, mem.w));
      offset := offset + 1;
    }

    offset := 0;
    while offset < num
      invariant mem.Valid() && offset <= num
      invariant Inverted(mem.cells, mem.wire, mem.w, offset, num) && SecondPassed(mem, offset, num)
    {
      var p := Pattern(offset, mem.w);
      SecondRead(mem, offset, num);
      var x := mem.Read(offset);
      if x != p {
        return Some(offset);
      }
      InvertStep(mem.cells, mem.wire, mem.w, offset, num);
      mem.Write(offset, Complement(p));
      offset := offset + 1;
    }

    offset := 0;
    while offset < num
      invariant mem.Valid() && offset <= num
      invariant Inverted(mem.cells, mem.wire, mem.w, num, num) && ThirdPassed(mem, offset, num)
    {
      ThirdRead(mem, offset, num);
      var x := mem.Read(offset);
      if x != Complement(Pattern(offset, mem.w)) {
        return Some(offset);
      }
      offset := offset + 1;
    }
    PassedIsPerfect(mem, num);
    fault := None;
  }

  /** The read of the second pass: right in a perfect region, and a right one extends
      what is established. */
  lemma {:induction false} SecondRead(mem: Memory, k: nat, n: nat)
    requires mem.Valid() && k < n
    requires Inverted(mem.cells, mem.wire, mem.w, k, n) && SecondPassed(mem, k, n)
    ensures var x := Through(mem.lines(mem.wire(k)), mem.cells[mem.wire(k)]);
      && (Perfect(mem, n) ==> x == Pattern(k, mem.w))
      && (x == Pattern(k, mem.w) ==> SecondPassed(mem, k + 1, n))
  {
    hide Pattern, Complement, Through, SecondPassed;
    var x := Through(mem.lines(mem.wire(k)), mem.cells[mem.wire(k)]);
    if Perfect(mem, n) {
      assert NoneBefore(mem.wire, k, k) && IsLast(mem.wire, k, n);
      SoundReadsBack(mem.lines(mem.wire(k)), Pattern(k, mem.w));
    }
    if x == Pattern(k, mem.w) {
      SecondExtends(mem, k, n);
    }
  }

  lemma {:induction false} SecondExtends(mem: Memory, k: nat, n: nat)
    requires mem.Valid() && k < n
    requires Inverted(mem.cells, mem.wire, mem.w, k, n) && SecondPassed(mem, k, n)
    requires Through(mem.lines(mem.wire(k)), mem.cells[mem.wire(k)]) == Pattern(k, mem.w)
    ensures SecondPassed(mem, k + 1, n)
  {
    hide Nearest, Alone, AliasRead, PatternRead, Pattern, Through, Inverted;
    forall a, b | 0 <= a < b < k + 1 && Nearest(mem.wire, a, b)
      ensures AliasRead(mem, a, b)
    {
      if b == k { AliasReadAt(mem, a, k, n); }
    }
    forall a | 0 <= a < k + 1 && Alone(mem.wire, a, n)
      ensures PatternRead(mem, a)
    {
      if a == k { PatternReadAt(mem, k, n); }
    }
  }

  lemma {:induction false} AliasReadAt(mem: Memory, a: nat, k: nat, n: nat)
    requires mem.Valid() && a < k < n && Inverted(mem.cells, mem.wire, mem.w, k, n) && Nearest(mem.wire, a, k)
    requires Through(mem.lines(mem.wire(k)), mem.cells[mem.wire(k)]) == Pattern(k, mem.w)
    ensures AliasRead(mem, a, k)
  {
    hide Pattern, Through;
    assert mem.cells[mem.wire(a)] == Complement(Pattern(a, mem.w));
  }

  lemma {:induction false} PatternReadAt(mem: Memory, k: nat, n: nat)
    requires mem.Valid() && k < n && Inverted(mem.cells, mem.wire, mem.w, k, n) && Alone(mem.wire, k, n)
    requires Through(mem.lines(mem.wire(k)), mem.cells[mem.wire(k)]) == Pattern(k, mem.w)
    ensures PatternRead(mem, k)
  {
    hide Pattern, Through;
  }

  lemma {:induction false} ThirdRead(mem: Memory, k: nat, n: nat)
    requires mem.Valid() && k < n
    requires Inverted(mem.cells, mem.wire, mem.w, n, n) && ThirdPassed(mem, k, n)
    ensures var x := Through(mem.lines(mem.wire(k)), mem.cells[mem.wire(k)]);
      && (Perfect(mem, n) ==> x == Complement(Pattern(k, mem.w)))
      && (x == Complement(Pattern(k, mem.w)) ==> ThirdPassed(mem, k + 1, n))
  {
    hide Pattern, Complement, Through;
    if Perfect(mem, n) {
      assert IsLast(mem.wire, k, n);
      SoundReadsBack(mem.lines(mem.wire(k)), Complement(Pattern(k, mem.w)));
    }
  }

  // ---- _1s_WALK ----

  /** 1 << i. */
  function OneHot(i: nat, w: nat): (x: Bits)
    ensures |x| == w
  {
    seq(w, j => j == i)
  }

  lemma {:induction false} WalkFindsStuckLines(lines: seq<Line>)
    requires |lines| >= 2
    ensures Sound(lines) <==> forall i | 0 <= i < |lines| :: Through(lines, OneHot(i, |lines|)) == OneHot(i, |lines|)
  {
    var w := |lines|;
    if forall i | 0 <= i < w :: Through(lines, OneHot(i, w)) == OneHot(i, w) {
      forall j | 0 <= j < w
        ensures lines[j].Good?
      {
        var i := if j == 0 then 1 else 0;
        assert Through(lines, OneHot(i, w))[j] == OneHot(i, w)[j] == false;
        assert Through(lines, OneHot(j, w))[j] == OneHot(j, w)[j] == true;
      }
    } else {
      var i :| 0 <= i < w && Through(lines, OneHot(i, w)) != OneHot(i, w);
      if Sound(lines) { SoundReadsBack(lines, OneHot(i, w)); }
    }
  }

  /** The walking-ones test at one location: it passes exactly when no data line of the
      cell is stuck. */
  method OnesWalk(mem: Memory, a: nat) returns (ok: bool)
    requires mem.Valid() && mem.w >= 2
    modifies mem
    ensures mem.Valid()
    ensures ok <==> Sound(mem.lines(mem.wire(a)))
  {
    ghost var lines := mem.lines(mem.wire(a));
    WalkFindsStuckLines(lines);
    var i := 0;
    while i < mem.w
      invariant mem.Valid() && i <= mem.w
      invariant forall j | 0 <= j < i :: Through(lines, OneHot(j, mem.w)) == OneHot(j, mem.w)
    {
      var v := OneHot(i, mem.w);
      mem.Write(a, v);
      var x := mem.Read(a);
      if x != v {
        return false;
      }
      i := i + 1;
    }
    ok := true;
  }

  // ---- ADDR_TEST ----

  function Pow2(i: nat): (p: nat)
    ensures p >= 1
  {
    if i == 0 then 1 else 2 * Pow2(i - 1)
  }

  lemma {:induction false} Pow2Grows(i: nat, j: nat)
    requires i < j
    ensures Pow2(i) < Pow2(j)
  {
    if i + 1 < j { Pow2Grows(i, j - 1); }
  }

  /** The contiguous low address lines of the mask. */
  function AddressLines(mask: nat): nat {
    if mask % 2 == 0 then 0 else 1 + AddressLines(mask / 2)
  }

  /** The addresses the test uses: 0, then the powers of two. */
  function Probe(j: nat): nat {
    if j == 0 then 0 else Pow2(j - 1)
  }

  lemma {:induction false} ProbesDiffer(i: nat, j: nat)
    requires i < j
    ensures Probe(i) != Probe(j)
  {
    if i > 0 { Pow2Grows(i - 1, j - 1); }
  }

  /** (offset & mask) != 0, for a power of two. */
  predicate InMask(offset: nat, mask: nat)
    requires offset > 0
  {
    mask / offset % 2 == 1
  }

  /** The loop condition stops exactly at the first address line outside the mask. */
  lemma {:induction false} MaskLoop(mask: nat, i: nat)
    requires i <= AddressLines(mask)
    ensures InMask(Pow2(i), mask) <==> i < AddressLines(mask)
  {
    RestAt(mask, i);
    RestLines(mask, i);
  }

  function Rest(mask: nat, i: nat): nat {
    if i == 0 then mask else Rest(mask / 2, i - 1)
  }

  lemma {:induction false} RestLines(mask: nat, i: nat)
    requires i <= AddressLines(mask)
    ensures AddressLines(Rest(mask, i)) == AddressLines(mask) - i
  {
    if i > 0 { RestLines(mask / 2, i - 1); }
  }

  lemma {:induction false} RestNext(mask: nat, i: nat)
    ensures Rest(mask, i + 1) == Rest(mask, i) / 2
  {
    if i > 0 { RestNext(mask / 2, i - 1); }
  }

  lemma {:induction false} RestAt(mask: nat, i: nat)
    ensures mask / Pow2(i) == Rest(mask, i)
  {
    if i > 0 {
      RestAt(mask, i - 1);
      RestNext(mask, i - 1);
      DivTwice(mask, Pow2(i - 1));
    }
  }

  /** The cell of a probe. */
  function CellOf(mem: Memory, j: nat): nat { mem.wire(Probe(j)) }

  /** Probe i reads the pattern while probe j holds its complement and the rest hold it. */
  ghost predicate Seen(mem: Memory, p: Bits, i: nat, j: nat) {
    |mem.lines(CellOf(mem, i))| == |p| &&
    Through(mem.lines(CellOf(mem, i)), if CellOf(mem, i) == CellOf(mem, j) then Complement(p) else p) == p
  }

  ghost predicate SeenBy(mem: Memory, p: Bits, t: nat, j: nat) {
    forall i | 0 <= i <= t && i != j :: Seen(mem, p, i, j)
  }

  ghost predicate AllSeen(mem: Memory, p: Bits, t: nat, k: nat) {
    forall j | 0 <= j < k :: SeenBy(mem, p, t, j)
  }

  /** Probes lo..t hold the pattern. */
  ghost predicate Written(mem: Memory, p: Bits, lo: nat, t: nat)
    reads mem
  {
    forall i | lo <= i <= t :: CellOf(mem, i) in mem.cells && mem.cells[CellOf(mem, i)] == p
  }

  /** Probe j has been overwritten by the complement. */
  ghost predicate Marked(mem: Memory, p: Bits, t: nat, j: nat)
    reads mem
  {
    forall i | 0 <= i <= t ::
      && CellOf(mem, i) in mem.cells
      && mem.cells[CellOf(mem, i)] == if CellOf(mem, i) == CellOf(mem, j) then Complement(p) else p
  }

  /** The scan over the powers of two while testOffset is inverted. */
  method Scan(mem: Memory, mask: nat, p: Bits, testOffset: nat, ghost j: nat) returns (ok: bool)
    requires mem.Valid() && |p| == mem.w && testOffset == Probe(j) && j <= AddressLines(mask)
    requires Marked(mem, p, AddressLines(mask), j)
    ensures ok <==> forall i | 1 <= i <= AddressLines(mask) && i != j :: Seen(mem, p, i, j)
  {
    hide Pow2, AddressLines, InMask;
    var offset := 1;
    ghost var k := 1;
    Pow2Zero();
    MaskLoop(mask, 0);
    while InMask(offset, mask)
      invariant 1 <= k <= AddressLines(mask) + 1 && offset == Pow2(k - 1)
      invariant InMask(offset, mask) <==> k <= AddressLines(mask)
      invariant forall i | 1 <= i < k && i != j :: Seen(mem, p, i, j)
      decreases AddressLines(mask) + 1 - k
    {
      assert offset == Probe(k) && CellOf(mem, k) in mem.cells;
      var x := mem.Read(offset);
      if k < j { ProbesDiffer(k, j); } else if j < k { ProbesDiffer(j, k); }
      if x != p && offset != testOffset {
        assert !Seen(mem, p, k, j);
        return false;
      }
      offset := 2 * offset;
      Pow2Next(k);
      MaskLoop(mask, k);
      k := k + 1;
    }
    ok := true;
  }

  lemma {:induction false} Pow2Zero()
    ensures Pow2(0) == 1
  {
  }

  lemma {:induction false} Pow2Next(k: nat)
    requires k > 0
    ensures Pow2(k) == 2 * Pow2(k - 1)
  {
  }

  /** The first loop of ADDR_TEST: the pattern at every power of two inside the mask. */
  method WriteProbes(mem: Memory, mask: nat, p: Bits)
    requires mem.Valid() && |p| == mem.w
    modifies mem
    ensures mem.Valid() && Written(mem, p, 1, AddressLines(mask))
  {
    hide Pow2, AddressLines, InMask;
    var offset := 1;
    ghost var k := 1;
    Pow2Zero();
    MaskLoop(mask, 0);
    while InMask(offset, mask)
      invariant mem.Valid() && 1 <= k <= AddressLines(mask) + 1 && offset == Pow2(k - 1)
      invariant InMask(offset, mask) <==> k <= AddressLines(mask)
      invariant Written(mem, p, 1, k - 1)
      decreases AddressLines(mask) + 1 - k
    {
      assert offset == Probe(k);
      mem.Write(offset, p);
      offset := 2 * offset;
      Pow2Next(k);
      MaskLoop(mask, k);
      k := k + 1;
    }
  }

  /** The test of one address line: the line's word is inverted, offset 0 and every other
      power of two must still read the pattern, and the word is put back. */
  method TestLine(mem: Memory, mask: nat, p: Bits, testOffset: nat, ghost j: nat) returns (ok: bool)
    requires mem.Valid() && |p| == mem.w && 1 <= j <= AddressLines(mask) && testOffset == Probe(j)
    requires Written(mem, p, 0, AddressLines(mask))
    modifies mem
    ensures mem.Valid()
    ensures ok <==> SeenBy(mem, p, AddressLines(mask), j)
    ensures ok ==> Written(mem, p, 0, AddressLines(mask))
  {
    hide Pow2, AddressLines, InMask, Seen, Through, Complement;
    mem.Write(testOffset, Complement(p));
    assert Marked(mem, p, AddressLines(mask), j);
    SeenIsRead(mem, p, AddressLines(mask), 0, j);
    var x := mem.Read(0);
    if x != p {
      return false;
    }
    ok := Scan(mem, mask, p, testOffset, j);
    if ok {
      mem.Write(testOffset, p);
    }
  }

  /** ADDR_TEST. */
  method AddressTest(mem: Memory, mask: nat, p: Bits) returns (ok: bool)
    requires mem.Valid() && |p| == mem.w
    modifies mem
    ensures mem.Valid()
    ensures ok <==> AllSeen(mem, p, AddressLines(mask), AddressLines(mask) + 1)
  {
    hide Pow2, AddressLines, InMask, Seen, Through, Complement;
    ghost var t := AddressLines(mask);
    WriteProbes(mem, mask, p);

    // address lines stuck high
    mem.Write(0, Complement(p));
    assert Marked(mem, p, t, 0);
    ok := Scan(mem, mask, p, 0, 0);
    assert ok <==> SeenBy(mem, p, t, 0);
    if !ok {
      return;
    }
    mem.Write(0, p);
    assert Written(mem, p, 0, t);

    // address lines stuck low or shorted
    hide SeenBy, Written, Marked;
    var testOffset := 1;
    ghost var k := 1;
    Pow2Zero();
    MaskLoop(mask, 0);
    while InMask(testOffset, mask)
      invariant mem.Valid() && 1 <= k <= t + 1 && testOffset == Pow2(k - 1)
      invariant InMask(testOffset, mask) <==> k <= t
      invariant Written(mem, p, 0, t) && AllSeen(mem, p, t, k)
      decreases t + 1 - k
    {
      ok := TestLine(mem, mask, p, testOffset, k);
      if !ok {
        return;
      }
      testOffset := 2 * testOffset;
      Pow2Next(k);
      MaskLoop(mask, k);
      k := k + 1;
    }
    ok := true;
  }

  lemma {:induction false} SeenIsRead(mem: Memory, p: Bits, t: nat, i: nat, j: nat)
    requires mem.Valid() && |p| == mem.w && Marked(mem, p, t, j) && i <= t
    ensures CellOf(mem, i) in mem.cells
    ensures Seen(mem, p, i, j) <==> Through(mem.lines(CellOf(mem, i)), mem.cells[CellOf(mem, i)]) == p
  {
  }

  /** Every line of the cell is stuck at the pattern's level. */
  predicate StuckAt(lines: seq<Line>, p: Bits) {
    |lines| == |p| && forall l | 0 <= l < |p| :: lines[l] == Stuck(p[l])
  }

  lemma {:induction false} ComplementReadsPattern(lines: seq<Line>, p: Bits)
    requires |lines| == |p|
    ensures Through(lines, Complement(p)) == p <==> StuckAt(lines, p)
    ensures StuckAt(lines, p) ==> Through(lines, p) == p
  {
    var y := Through(lines, Complement(p));
    if y == p {
      forall l | 0 <= l < |p|
        ensures lines[l] == Stuck(p[l])
      {
        assert y[l] == p[l] && Complement(p)[l] == !p[l];
      }
    }
  }

  /** Which faults ADDR_TEST lets through, with at least one address line under test:
      every probed cell reads the pattern back, and two probes share a cell only if all
      its lines are stuck at the pattern. */
  lemma {:induction false} AddressTestMeaning(mem: Memory, p: Bits, t: nat)
    requires (forall c :: |mem.lines(c)| == |p|) && t > 0
    ensures AllSeen(mem, p, t, t + 1) <==>
      && (forall i | 0 <= i <= t :: Through(mem.lines(CellOf(mem, i)), p) == p)
      && (forall i, j | 0 <= i < j <= t && CellOf(mem, i) == CellOf(mem, j) :: StuckAt(mem.lines(CellOf(mem, i)), p))
  {
    hide Through, Complement;
    forall i | 0 <= i <= t {
      ComplementReadsPattern(mem.lines(CellOf(mem, i)), p);
    }
    if AllSeen(mem, p, t, t + 1) {
      forall i | 0 <= i <= t
        ensures Through(mem.lines(CellOf(mem, i)), p) == p
      {
        var j := if i == 0 then 1 else 0;
        assert SeenBy(mem, p, t, j) && Seen(mem, p, i, j);
      }
      forall i, j | 0 <= i < j <= t && CellOf(mem, i) == CellOf(mem, j)
        ensures StuckAt(mem.lines(CellOf(mem, i)), p)
      {
        assert SeenBy(mem, p, t, j) && Seen(mem, p, i, j);
      }
    }
  }

  lemma {:induction false} SoundIsNotStuck(lines: seq<Line>, p: Bits)
    requires |lines| == |p| > 0 && Sound(lines)
    ensures !StuckAt(lines, p)
  {
    assert lines[0].Good?;
  }

  /** With no address line under test there is nothing to find. */
  lemma {:induction false} OneProbe(mem: Memory, p: Bits)
    ensures AllSeen(mem, p, 0, 1)
  {
  }

  /** Without stuck lines: ADDR_TEST passes exactly when no two probes share a cell. */
  lemma {:induction false} AddressTestFindsAliases(mem: Memory, p: Bits, t: nat)
    requires |p| > 0 && (forall c :: |mem.lines(c)| == |p|)
    requires forall i | 0 <= i <= t :: Sound(mem.lines(CellOf(mem, i)))
    ensures AllSeen(mem, p, t, t + 1) <==> forall i, j | 0 <= i < j <= t :: CellOf(mem, i) != CellOf(mem, j)
  {
    hide Through, AllSeen;
    if t > 0 {
      AddressTestMeaning(mem, p, t);
      forall i | 0 <= i <= t
        ensures Through(mem.lines(CellOf(mem, i)), p) == p && !StuckAt(mem.lines(CellOf(mem, i)), p)
      {
        SoundReadsBack(mem.lines(CellOf(mem, i)), p);
        SoundIsNotStuck(mem.lines(CellOf(mem, i)), p);
      }
    } else {
      OneProbe(mem, p);
    }
  }

  /** A region whose word count is a power of two has all its address lines under test. */
  lemma {:induction false} PowerOfTwoCovers(k: nat)
    ensures AddressLines(Pow2(k) - 1) == k
  {
    if k > 0 {
      PowerOfTwoCovers(k - 1);
      assert (Pow2(k) - 1) / 2 == Pow2(k - 1) - 1;
    }
  }
}
