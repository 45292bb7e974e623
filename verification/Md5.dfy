/** MD5 with a streaming context (src/hardware/ipl/lib/md5c.c), against the one-shot
    definition of sections 3.1 to 3.5 of RFC 1321. */
module Md5 {
  const TWO32: int := 0x1_0000_0000

  type Byte = x: int | 0 <= x < 256
  type Word = x: int | 0 <= x < 0x1_0000_0000

  /** The four chaining words. */
  datatype State = State(a: Word, b: Word, c: Word, d: Word)

  const INIT := State(0x67452301, 0xefcdab89, 0x98badcfe, 0x10325476)

  // ---- words and bytes ----

  /** The k low-order bytes of x, low-order byte first. */
  function LittleEndian(x: nat, k: nat): (s: seq<Byte>)
    ensures |s| == k
  {
    if k == 0 then [] else [x % 256] + LittleEndian(x / 256, k - 1)
  }

  /** Decode, for one word. */
  function WordOf(s: seq<Byte>): Word
    requires |s| == 4
  {
    s[0] as int + 0x100 * s[1] as int + 0x1_0000 * s[2] as int + 0x100_0000 * s[3] as int
  }

  /** The bytes as Encode computes them. */
  lemma {:induction false} WordBytes(w: nat)
    ensures LittleEndian(w, 4) == [w % 256, w / 0x100 % 256, w / 0x1_0000 % 256, w / 0x100_0000 % 256]
  {
    var w1 := w / 256;
    var w2 := w1 / 256;
    var w3 := w2 / 256;
    assert w2 == w / 0x1_0000 && w3 == w / 0x100_0000;
    assert LittleEndian(w, 4) == [w % 256] + LittleEndian(w1, 3);
    assert LittleEndian(w1, 3) == [w1 % 256] + LittleEndian(w2, 2);
    assert LittleEndian(w2, 2) == [w2 % 256] + LittleEndian(w3, 1);
    assert LittleEndian(w3, 1) == [w3 % 256] + LittleEndian(w3 / 256, 0);
  }

  /** Decode undoes Encode. */
  lemma {:induction false} WordRoundTrip(w: Word)
    ensures WordOf(LittleEndian(w, 4)) == w
  {
    hide LittleEndian;
    WordBytes(w);
    var w1 := w / 256;
    var w2 := w1 / 256;
    var w3 := w2 / 256;
    assert w / 0x1_0000 == w2 && w / 0x100_0000 == w3 < 256;
  }

  /** The bytes of a sequence of words. */
  function Encoded(ws: seq<Word>): (s: seq<Byte>)
    ensures |s| == 4 * |ws|
  {
    if ws == [] then [] else Encoded(ws[..|ws| - 1]) + LittleEndian(ws[|ws| - 1], 4)
  }

  /** Encode. */
  method Encode(output: array<Byte>, input: seq<Word>)
    requires output.Length == 4 * |input|
    modifies output
    ensures output[..] == Encoded(input)
  {
    hide LittleEndian;
    var i, j := 0, 0;
    while j < output.Length
      invariant j == 4 * i && i <= |input|
      invariant output[..j] == Encoded(input[..i])
    {
      WordBytes(input[i]);
      output[j], output[j + 1] := input[i] % 256, input[i] / 0x100 % 256;
      output[j + 2], output[j + 3] := input[i] / 0x1_0000 % 256, input[i] / 0x100_0000 % 256;
      assert output[..j + 4] == output[..j] + LittleEndian(input[i], 4);
      assert input[..i + 1][..i] == input[..i];
      i, j := i + 1, j + 4;
    }
    assert input[..i] == input;
  }

  /** Splitting off the k low-order bytes. */
  lemma {:induction false} LittleEndianSplit(x: nat, k: nat, m: nat)
    ensures LittleEndian(x, k + m) == LittleEndian(x, k) + LittleEndian(Shift(x, k), m)
  {
    if k > 0 {
      LittleEndianSplit(x / 256, k - 1, m);
    }
  }

  /** x without its k low-order bytes. */
  function Shift(x: nat, k: nat): nat {
    if k == 0 then x else Shift(x / 256, k - 1)
  }

  /** The low word of a number does not depend on the high one. */
  lemma {:induction false} LowWord(lo: Word, hi: nat)
    ensures LittleEndian(lo + TWO32 * hi, 4) == LittleEndian(lo, 4)
    ensures Shift(lo + TWO32 * hi, 4) == hi
  {
    var x := lo + TWO32 * hi;
    var x1, l1 := x / 256, lo / 256;
    var x2, l2 := x1 / 256, l1 / 256;
    var x3, l3 := x2 / 256, l2 / 256;
    assert x1 == l1 + 0x100_0000 * hi && x2 == l2 + 0x1_0000 * hi && x3 == l3 + 0x100 * hi && x3 / 256 == hi;
    assert Shift(x, 4) == Shift(x1, 3) == Shift(x2, 2) == Shift(x3, 1) == Shift(hi, 0);
    SameLowBytes(x, lo, x1, l1, x2, l2, x3, l3);
  }

  /** Two words written low-order word first are the 64-bit number. */
  lemma {:induction false} TwoWords(lo: Word, hi: nat)
    ensures LittleEndian(lo, 4) + LittleEndian(hi, 4) == LittleEndian(lo + TWO32 * hi, 8)
  {
    hide LittleEndian, Shift;
    LittleEndianSplit(lo + TWO32 * hi, 4, 4);
    LowWord(lo, hi);
  }

  lemma {:induction false} SameLowBytes(x: nat, lo: nat, x1: nat, l1: nat, x2: nat, l2: nat, x3: nat, l3: nat)
    requires x1 == x / 256 && x2 == x1 / 256 && x3 == x2 / 256
    requires l1 == lo / 256 && l2 == l1 / 256 && l3 == l2 / 256
    requires x % 256 == lo % 256 && x1 % 256 == l1 % 256 && x2 % 256 == l2 % 256 && x3 % 256 == l3 % 256
    ensures LittleEndian(x, 4) == LittleEndian(lo, 4)
  {
    assert LittleEndian(x3, 1) == LittleEndian(l3, 1);
    assert LittleEndian(x2, 2) == LittleEndian(l2, 2);
    assert LittleEndian(x1, 3) == LittleEndian(l1, 3);
  }

  // ---- the transform ----

  function F(x: Word, y: Word, z: Word): Word { (((x as bv32) & (y as bv32)) | (!(x as bv32) & (z as bv32))) as int }
  function G(x: Word, y: Word, z: Word): Word { (((x as bv32) & (z as bv32)) | ((y as bv32) & !(z as bv32))) as int }
  function H(x: Word, y: Word, z: Word): Word { ((x as bv32) ^ (y as bv32) ^ (z as bv32)) as int }
  function I(x: Word, y: Word, z: Word): Word { ((y as bv32) ^ ((x as bv32) | !(z as bv32))) as int }

  function RotateLeft(x: Word, n: nat): Word
    requires 0 < n < 32
  {
    (((x as bv32) << (n as bv6)) | ((x as bv32) >> ((32 - n) as bv6))) as int
  }

  const SINES: seq<Word> := [
    0xd76aa478, 0xe8c7b756, 0x242070db, 0xc1bdceee, 0xf57c0faf, 0x4787c62a, 0xa8304613, 0xfd469501,
    0x698098d8, 0x8b44f7af, 0xffff5bb1, 0x895cd7be, 0x6b901122, 0xfd987193, 0xa679438e, 0x49b40821,
    0xf61e2562, 0xc040b340, 0x265e5a51, 0xe9b6c7aa, 0xd62f105d, 0x2441453, 0xd8a1e681, 0xe7d3fbc8,
    0x21e1cde6, 0xc33707d6, 0xf4d50d87, 0x455a14ed, 0xa9e3e905, 0xfcefa3f8, 0x676f02d9, 0x8d2a4c8a,
    0xfffa3942, 0x8771f681, 0x6d9d6122, 0xfde5380c, 0xa4beea44, 0x4bdecfa9, 0xf6bb4b60, 0xbebfbc70,
    0x289b7ec6, 0xeaa127fa, 0xd4ef3085, 0x4881d05, 0xd9d4d039, 0xe6db99e5, 0x1fa27cf8, 0xc4ac5665,
    0xf4292244, 0x432aff97, 0xab9423a7, 0xfc93a039, 0x655b59c3, 0x8f0ccc92, 0xffeff47d, 0x85845dd1,
    0x6fa87e4f, 0xfe2ce6e0, 0xa3014314, 0x4e0811a1, 0xf7537e82, 0xbd3af235, 0x2ad7d2bb, 0xeb86d391
  ]

  type Amount = x: int | 0 < x < 32 witness 1

  const SHIFTS: seq<seq<Amount>> := [[7, 12, 17, 22], [5, 9, 14, 20], [4, 11, 16, 23], [6, 10, 15, 21]]

  /** Step i of the 64: the words change places after each, as in the source's argument order. */
  function Round(i: nat, s: State, x: seq<Word>): State
    requires i < 64 && |x| == 16
  {
    var (f, k) :=
      if i < 16 then (F(s.b, s.c, s.d), i)
      else if i < 32 then (G(s.b, s.c, s.d), (5 * i + 1) % 16)
      else if i < 48 then (H(s.b, s.c, s.d), (3 * i + 5) % 16)
      else (I(s.b, s.c, s.d), (7 * i) % 16);
    var sum := (s.a + f + x[k] + SINES[i]) % TWO32;
    var row := SHIFTS[i / 16];
    State(s.d, (RotateLeft(sum, row[i % 4]) + s.b) % TWO32, s.b, s.c)
  }

  function Rounds(i: nat, s: State, x: seq<Word>): State
    requires i <= 64 && |x| == 16
    decreases 64 - i
  {
    if i == 64 then s else Rounds(i + 1, Round(i, s, x), x)
  }

  /** Decode(x, block, 64). */
  function Words(block: seq<Byte>): (x: seq<Word>)
    requires |block| == 64
    ensures |x| == 16
  {
    seq(16, i requires 0 <= i < 16 => WordOf(block[4 * i..4 * i + 4]))
  }

  /** MD5Transform. */
  function Transform(s: State, block: seq<Byte>): State
    requires |block| == 64
  {
    hide Rounds, Words;
    var t := Rounds(0, s, Words(block));
    State((s.a + t.a) % TWO32, (s.b + t.b) % TWO32, (s.c + t.c) % TWO32, (s.d + t.d) % TWO32)
  }

  // ---- RFC 1321 ----

  /** Section 3.4: the first n blocks of a message, in order. */
  function Fold(bytes: seq<Byte>, n: nat): State
    requires 64 * n <= |bytes|
  {
    if n == 0 then INIT
    else Transform(Fold(bytes, n - 1), bytes[64 * n - 64..64 * n])
  }

  function Zeros(k: nat): (s: seq<Byte>)
    ensures |s| == k
  {
    seq(k, i => 0)
  }

  /** The zero bytes of the padding of a message of len bytes. */
  function ZeroCount(len: nat): nat { (119 - len % 64) % 64 }

  /** Section 3.1: one bit, then the fewest zeros that reach 56 modulo 64. */
  lemma {:induction false} PaddingIsLeast(len: nat, z: nat)
    ensures (len + 1 + ZeroCount(len)) % 64 == 56
    ensures (len + 1 + z) % 64 == 56 ==> z >= ZeroCount(len)
  {
    var q, r := len / 64, len % 64;
    ModMinus(len + 1 + z, q);
    ModMinus(len + 1 + ZeroCount(len), q);
    assert len + 1 + z - 64 * q == r + 1 + z;
    assert r < 56 ==> ZeroCount(len) == 55 - r;
    assert r >= 56 ==> ZeroCount(len) == 119 - r;
  }

  lemma {:induction false} PaddedLength(len: nat)
    ensures (len + 1 + ZeroCount(len) + 8) % 64 == 0
  {
    PaddingIsLeast(len, 0);
    var k := len + 1 + ZeroCount(len);
    assert (k + 8) % 64 == 0;
  }

  /** Sections 3.1 and 3.2: padding, then the bit length modulo 2^64, low-order word first. */
  function Padded(m: seq<Byte>): (p: seq<Byte>)
    ensures |p| % 64 == 0
  {
    PaddedLength(|m|);
    m + [0x80] + Zeros(ZeroCount(|m|)) + LittleEndian(8 * |m|, 8)
  }

  /** Section 3.5: the four words, low-order byte first. */
  function Output(s: State): (d: seq<Byte>)
    ensures |d| == 16
  {
    Encoded([s.a, s.b, s.c, s.d])
  }

  function Digest(m: seq<Byte>): seq<Byte> {
    var p := Padded(m);
    Output(Fold(p, |p| / 64))
  }

  // ---- the streaming context ----

  /** The fold over blocks depends on those blocks only. */
  lemma {:induction false} FoldOfPrefix(bytes: seq<Byte>, more: seq<Byte>, n: nat)
    requires 64 * n <= |bytes| && bytes <= more
    ensures Fold(bytes, n) == Fold(more, n)
  {
    hide Transform;
    if n > 0 {
      FoldOfPrefix(bytes, more, n - 1);
      assert bytes[64 * n - 64..64 * n] == more[64 * n - 64..64 * n];
    }
  }

  /** The two-word bit count of len bytes, modulo 2^64. */
  function CountLow(len: nat): Word { 8 * len % TWO32 }
  function CountHigh(len: nat): Word { 8 * len / TWO32 % TWO32 }

  /** MD5Update's additions with carry. */
  lemma {:induction false} CountAdds(len: nat, n: nat)
    requires n < TWO32
    ensures var add := 8 * n % TWO32;
      var low := (CountLow(len) + add) % TWO32;
      var carry := if low < add then 1 else 0;
      && low == CountLow(len + n)
      && ((CountHigh(len) + carry) % TWO32 + n / 0x2000_0000) % TWO32 == CountHigh(len + n)
  {
    var x, y := 8 * len, 8 * n;
    var qx, rx, qy, ry := x / TWO32, x % TWO32, y / TWO32, y % TWO32;
    var carry := if rx + ry >= TWO32 then 1 else 0;
    assert x + y == (qx + qy + carry) * TWO32 + (rx + ry - carry * TWO32);
    Quotient(x + y, qx + qy + carry, rx + ry - carry * TWO32);
    assert (rx + ry) % TWO32 == rx + ry - carry * TWO32;
    ModSum(qx, carry);
    ModSum(qx + carry, qy);
    assert qy == n / 0x2000_0000;
  }

  lemma {:induction false} Quotient(x: nat, q: nat, r: nat)
    requires x == q * TWO32 + r && r < TWO32
    ensures x / TWO32 == q && x % TWO32 == r
  {
  }

  lemma {:induction false} ModSum(x: nat, y: nat)
    ensures (x % TWO32 + y) % TWO32 == (x + y) % TWO32
  {
    var q, r := x / TWO32, x % TWO32;
    Quotient(x + y, q + (r + y) / TWO32, (r + y) % TWO32);
  }

  /** (count[0] >> 3) & 0x3f. */
  lemma {:induction false} CountIndex(len: nat)
    ensures CountLow(len) / 8 % 64 == len % 64
  {
    var q := 8 * len / TWO32;
    var k := len - 64 * (0x80_0000 * q);
    assert CountLow(len) == 8 * k;
    ModMinus(len, 0x80_0000 * q);
  }

  lemma {:induction false} ModMinus(x: int, k: int)
    ensures (x - 64 * k) % 64 == x % 64
  {
  }

  /** MD5Update's loop guard, i + 63 < inputLen in 32 bits. */
  predicate Guard(i: nat, len: nat) { (i + 63) % TWO32 < len }

  /** The loop counter when the last whole block of the input is done. */
  function LastIndex(idx: nat, len: nat): nat
    requires idx < 64 && 64 - idx <= len
  {
    len - (len - (64 - idx)) % 64
  }

  /** The input is short enough for the guard not to wrap. */
  predicate Fits(idx: nat, len: nat)
    requires idx < 64
  {
    64 - idx <= len ==> LastIndex(idx, len) + 63 < TWO32
  }

  /** Every input shorter than 2^32 - 63 fits, whatever is buffered. */
  lemma {:induction false} ShortFits(idx: nat, len: nat)
    requires idx < 64 && len < TWO32 - 63
    ensures Fits(idx, len)
  {
  }

  predicate Visited(idx: nat, len: nat, i: nat)
    requires idx < 64
  {
    64 - idx <= i <= len && (i - (64 - idx)) % 64 == 0
  }

  /** The guard admits only blocks inside the input exactly when the input fits. */
  lemma {:induction false} GuardExact(idx: nat, len: nat)
    requires idx < 64 && len < TWO32
    ensures Fits(idx, len) <==> forall i: nat {:trigger Guard(i, len)} | Visited(idx, len, i) && Guard(i, len) ::
      i + 64 <= len
  {
    if Fits(idx, len) {
      forall i: nat {:trigger Guard(i, len)} | Visited(idx, len, i) && Guard(i, len)
        ensures i + 64 <= len
      {
        InStep(idx, len, i);
      }
    } else {
      var i := LastIndex(idx, len);
      assert Visited(idx, len, i) && Guard(i, len) && !(i + 64 <= len);
    }
  }

  /** Loop counters run in steps of 64 up to the last one. */
  lemma {:induction false} InStep(idx: nat, len: nat, i: nat)
    requires idx < 64 && Visited(idx, len, i)
    ensures i <= LastIndex(idx, len)
  {
    var r := (len - (64 - idx)) % 64;
    assert (len - i) % 64 == r;
  }

  /** 2^32 - 1 bytes after 63 buffered ones: the guard wraps and admits a block that ends
      past the input. */
  lemma {:induction false} GuardWraps()
    ensures !Fits(63, 0xffff_ffff)
    ensures Visited(63, 0xffff_ffff, 0xffff_ffc1) && Guard(0xffff_ffc1, 0xffff_ffff)
    ensures 0xffff_ffc1 + 64 > 0xffff_ffff
  {
  }

  /** What a context that has taken in the bytes m holds: the fold over its whole blocks,
      the rest in the buffer, and its bit length. */
  ghost predicate Holds(state: State, low: Word, high: Word, buffer: seq<Byte>, m: seq<Byte>) {
    var n := |m| / 64;
    && |buffer| == 64
    && state == Fold(m, n)
    && low == CountLow(|m|) && high == CountHigh(|m|)
    && buffer[..|m| - 64 * n] == m[64 * n..]
  }

  /** Completing the buffered block. */
  lemma {:induction false} FillsBlock(m: seq<Byte>, all: seq<Byte>, buffer: seq<Byte>, n: nat)
    requires |buffer| == 64 && m <= all && 64 * n <= |m| <= 64 * n + 64 <= |all|
    requires buffer[..|m| - 64 * n] == m[64 * n..]
    requires buffer[|m| - 64 * n..] == all[|m|..64 * n + 64]
    ensures Fold(all, n + 1) == Transform(Fold(m, n), buffer)
  {
    hide Transform;
    FoldOfPrefix(m, all, n);
    var r := |m| - 64 * n;
    assert all[64 * n..64 * n + 64] == m[64 * n..] + all[|m|..64 * n + 64];
    assert buffer == buffer[..r] + buffer[r..];
  }

  /** The bytes of all that fill no block end up at the front of the buffer. */
  lemma {:induction false} RestBuffered(m: seq<Byte>, input: seq<Byte>, buffer: seq<Byte>, idx: nat, i: nat, k: nat)
    requires |buffer| == 64 && i <= |input| && idx + |input| - i < 64
    requires (i == 0 && 64 * k + idx == |m| && buffer[..idx] == m[64 * k..]) || (idx == 0 && 64 * k == |m| + i)
    requires buffer[idx..idx + |input[i..]|] == input[i..]
    ensures var all := m + input;
      |all| / 64 == k && buffer[..|all| - 64 * k] == all[64 * k..]
  {
    var all, r := m + input, |input[i..]|;
    assert |all| == 64 * k + idx + r;
    assert buffer[..idx + r] == buffer[..idx] + buffer[idx..idx + r];
    assert all[64 * k..] == buffer[..idx] + input[i..];
  }

  const PADDING: seq<Byte> := [0x80] + Zeros(63)

  /** The bit count as MD5Final writes it. */
  lemma {:induction false} CountBytes(len: nat)
    ensures Encoded([CountLow(len), CountHigh(len)]) == LittleEndian(8 * len, 8)
  {
    var lo, hi := CountLow(len), 8 * len / TWO32;
    assert [lo, CountHigh(len)][..1] == [lo] && [lo][..0] == [];
    hide LittleEndian;
    TwoWords(lo, hi);
    LowWord(hi % TWO32, hi / TWO32);
  }

  /** What MD5Final adds is the padding and the length of sections 3.1 and 3.2. */
  lemma {:induction false} PaddingBytes(m: seq<Byte>, padLen: nat, bits: seq<Byte>)
    requires padLen == if |m| % 64 < 56 then 56 - |m| % 64 else 120 - |m| % 64
    requires bits == Encoded([CountLow(|m|), CountHigh(|m|)])
    ensures m + PADDING[..padLen] + bits == Padded(m)
  {
    hide LittleEndian, Encoded;
    CountBytes(|m|);
    assert padLen == 1 + ZeroCount(|m|);
    assert PADDING[..padLen] == [0x80] + Zeros(padLen - 1);
  }

  function Joined(chunks: seq<seq<Byte>>): seq<Byte> {
    if chunks == [] then [] else Joined(chunks[..|chunks| - 1]) + chunks[|chunks| - 1]
  }

  lemma {:induction false} JoinedNone()
    ensures Joined([]) == []
  {
  }

  lemma {:induction false} JoinedNext(chunks: seq<seq<Byte>>, i: nat)
    requires i < |chunks|
    ensures Joined(chunks[..i + 1]) == Joined(chunks[..i]) + chunks[i]
  {
    assert chunks[..i + 1][..i] == chunks[..i];
  }

  /** No MD5Update of the chunks runs past its input. */
  ghost predicate AllFit(chunks: seq<seq<Byte>>) {
    forall i | 0 <= i < |chunks| :: Fits(|Joined(chunks[..i])| % 64, |chunks[i]|)
  }

  lemma {:induction false} ShortChunksFit(chunks: seq<seq<Byte>>)
    requires forall i | 0 <= i < |chunks| :: |chunks[i]| < TWO32 - 63
    ensures AllFit(chunks)
  {
    hide Fits;
    forall i | 0 <= i < |chunks|
      ensures Fits(|Joined(chunks[..i])| % 64, |chunks[i]|)
    {
      ShortFits(|Joined(chunks[..i])| % 64, |chunks[i]|);
    }
  }

  /** A block that the guard admits past the end of the input. */
  lemma {:induction false} PastTheEnd(part: nat, len: nat, i: nat, j: nat)
    requires 0 < part <= 64 && part <= len < TWO32
    requires i == part + 64 * j && i <= len < i + 64 && Guard(i, len)
    ensures !Fits(64 - part, len)
  {
    hide Fits, Guard;
    assert (i - part) % 64 == 0;
    assert Visited(64 - part, len, i);
    GuardExact(64 - part, len);
  }

  /** The loop ends at the last whole block, and then the input fits. */
  lemma {:induction false} LoopEnds(part: nat, len: nat, i: nat, j: nat)
    requires 0 < part <= 64 && part <= len < TWO32
    requires i == part + 64 * j && i <= len && !Guard(i, len)
    ensures len < i + 64 && Fits(64 - part, len)
  {
    assert (i - part) % 64 == 0;
    InStep(64 - part, len, i);
  }

  class Context {
    var state: State
    var low: Word    // count[0]
    var high: Word   // count[1]
    const buffer: array<Byte>
    ghost var message: seq<Byte>

    ghost predicate Valid()
      reads this, buffer
    {
      Holds(state, low, high, buffer[..], message)
    }

    /** MD5Init. */
    constructor ()
      ensures Valid() && message == [] && fresh(buffer)
    {
      state, low, high := INIT, 0, 0;
      buffer := new Byte[64](i => 0);
      message := [];
    }

    /** memcpy(&buffer[at], from, |from|). */
    method CopyIn(at: nat, from: seq<Byte>)
      requires at + |from| <= buffer.Length
      modifies buffer
      ensures buffer[..at] == old(buffer[..at])
      ensures buffer[at..at + |from|] == from
    {
      forall j | 0 <= j < |from| {
        buffer[at + j] := from[j];
      }
    }

    /** The whole blocks of the input after the one that completes the buffer; inside says
        whether all of them lay inside the input. */
    method Blocks(input: seq<Byte>, part: nat, ghost all: seq<Byte>, ghost n: nat)
        returns (inside: bool, i: nat, ghost k: nat)
      requires |input| < TWO32 && 0 < part <= 64 && part <= |input|
      requires |input| <= |all| && input == all[|all| - |input|..]
      requires 64 * n == |all| - |input| + part && state == Fold(all, n)
      modifies this`state
      ensures inside <==> Fits(64 - part, |input|)
      ensures inside ==> i <= |input| < i + 64 && 64 * k == |all| - |input| + i && state == Fold(all, k)
    {
      hide Transform, Fits, Guard;
      i, k := part, n;
      while Guard(i, |input|)
        invariant part <= i <= |input| && i - part == 64 * (k - n)
        invariant n <= k && 64 * k == |all| - |input| + i && state == Fold(all, k)
        decreases |input| - i
      {
        if i + 64 > |input| {
          PastTheEnd(part, |input|, i, k - n);
          return false, i, k;
        }
        assert input[i..i + 64] == all[64 * k..64 * k + 64];
        state := Transform(state, input[i..i + 64]);
        i, k := i + 64, k + 1;
      }
      LoopEnds(part, |input|, i, k - n);
      inside := true;
    }

    /** MD5Update's bit count: two words with a carry between them. */
    method AddCount(n: nat, ghost len: nat)
      requires n < TWO32 && low == CountLow(len) && high == CountHigh(len)
      modifies this`low, this`high
      ensures low == CountLow(len + n) && high == CountHigh(len + n)
    {
      hide CountLow, CountHigh;
      CountAdds(len, n);
      var add: Word := 8 * n % TWO32;
      low := (low + add) % TWO32;
      if low < add {
        high := (high + 1) % TWO32;
      }
      high := (high + n / 0x2000_0000) % TWO32;
    }

    /** MD5Update's blocks: complete the buffer, then go through the input. */
    method Absorb(input: seq<Byte>, idx: nat, ghost n: nat) returns (inside: bool, i: nat, ghost k: nat)
      requires buffer.Length == 64 && idx < 64 && |message| == 64 * n + idx
      requires state == Fold(message, n) && buffer[..idx] == message[64 * n..]
      requires 64 - idx <= |input| < TWO32
      modifies this`state, buffer
      ensures inside <==> Fits(idx, |input|)
      ensures inside ==> i <= |input| < i + 64 && 64 * k == |message| + i && state == Fold(message + input, k)
    {
      hide Transform, Fold, Fits;
      ghost var all := message + input;
      var part := 64 - idx;
      CopyIn(idx, input[..part]);
      assert buffer[idx..] == input[..part] == all[|message|..64 * n + 64];
      FillsBlock(message, all, buffer[..], n);
      state := Transform(state, buffer[..]);
      inside, i, k := Blocks(input, part, all, n + 1);
    }

    /** MD5Update. inside says whether it read nothing but its input; if not, the code would
        go on with what lies behind the input. */
    method Update(input: seq<Byte>) returns (inside: bool)
      requires Valid() && |input| < TWO32
      modifies this, buffer
      ensures inside <==> Fits(old(|message|) % 64, |input|)
      ensures inside ==> Valid() && message == old(message) + input
    {
      hide Transform, Fold, CountLow, CountHigh, Fits;
      ghost var all, n := message + input, |message| / 64;
      CountIndex(|message|);
      var idx := low / 8 % 64;
      AddCount(|input|, |message|);
      var i := 0;
      ghost var k := n;
      if |input| >= 64 - idx {
        inside, i, k := Absorb(input, idx, n);
        if !inside {
          return;
        }
        idx := 0;
      } else {
        ShortFits(idx, |input|);
        FoldOfPrefix(message, all, n);
      }
      CopyIn(idx, input[i..]);
      RestBuffered(message, input, buffer[..], idx, i, k);
      message := all;
      inside := true;
    }

    /** MD5Final: the digest of everything taken in; the context is cleared. */
    method Final() returns (digest: array<Byte>)
      requires Valid()
      modifies this, buffer
      ensures fresh(digest) && digest[..] == Digest(old(message))
      ensures state == State(0, 0, 0, 0) && low == 0 && high == 0 && buffer[..] == Zeros(64)
    {
      hide Transform, Fold, CountLow, CountHigh, LittleEndian, Encoded, Fits;
      ghost var m := message;
      var bits := new Byte[8];
      Encode(bits, [low, high]);
      CountIndex(|m|);
      var idx := low / 8 % 64;
      var padLen := if idx < 56 then 56 - idx else 120 - idx;
      ShortFits(|m| % 64, padLen);
      var inside := Update(PADDING[..padLen]);
      ShortFits(|message| % 64, 8);
      inside := Update(bits[..]);
      PaddingBytes(m, padLen, bits[..]);
      digest := new Byte[16];
      Encode(digest, [state.a, state.b, state.c, state.d]);
      state, low, high := State(0, 0, 0, 0), 0, 0;
      forall j | 0 <= j < 64 {
        buffer[j] := 0;
      }
    }
  }

  /** MD5Init, an MD5Update for each chunk, MD5Final: however a message is split, the
      result is the digest of the whole, as long as no update runs past its input. */
  method DigestOf(chunks: seq<seq<Byte>>) returns (inside: bool, digest: seq<Byte>)
    requires forall i | 0 <= i < |chunks| :: |chunks[i]| < TWO32
    ensures inside <==> AllFit(chunks)
    ensures inside ==> digest == Digest(Joined(chunks))
  {
    hide Digest, Fits, Holds, Joined;
    JoinedNone();
    var ctx := new Context();
    for i := 0 to |chunks|
      invariant ctx.Valid() && ctx.message == Joined(chunks[..i])
      invariant fresh(ctx) && fresh(ctx.buffer)
      invariant forall j | 0 <= j < i :: Fits(|Joined(chunks[..j])| % 64, |chunks[j]|)
    {
      inside := ctx.Update(chunks[i]);
      if !inside {
        return false, [];
      }
      JoinedNext(chunks, i);
    }
    assert chunks[..|chunks|] == chunks;
    var d := ctx.Final();
    inside, digest := true, d[..];
  }
}
