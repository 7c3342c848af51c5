/**
 * The MD5 compression function of RFC 1321 (section 3.4), written twice:
 * once in the standard's own terms (round listings, shift table, the four
 * auxiliary functions, registers renamed after every operation), and once as
 * the arithmetic md5_transform uses to derive the register role, the message
 * index and the rotation amount from the step number. The lemma
 * Md5ScheduleMatchesRfc ties the two together for all 64 steps.
 */
module Md5 {
  import opened Bits

  /** md5table: the 64 additive constants T[1..64], verbatim. */
  const Md5Table: seq<bv32> := [
    0xd76aa478, 0xe8c7b756, 0x242070db, 0xc1bdceee, 0xf57c0faf, 0x4787c62a,
    0xa8304613, 0xfd469501, 0x698098d8, 0x8b44f7af, 0xffff5bb1, 0x895cd7be,
    0x6b901122, 0xfd987193, 0xa679438e, 0x49b40821, 0xf61e2562, 0xc040b340,
    0x265e5a51, 0xe9b6c7aa, 0xd62f105d, 0x02441453, 0xd8a1e681, 0xe7d3fbc8,
    0x21e1cde6, 0xc33707d6, 0xf4d50d87, 0x455a14ed, 0xa9e3e905, 0xfcefa3f8,
    0x676f02d9, 0x8d2a4c8a, 0xfffa3942, 0x8771f681, 0x6d9d6122, 0xfde5380c,
    0xa4beea44, 0x4bdecfa9, 0xf6bb4b60, 0xbebfbc70, 0x289b7ec6, 0xeaa127fa,
    0xd4ef3085, 0x04881d05, 0xd9d4d039, 0xe6db99e5, 0x1fa27cf8, 0xc4ac5665,
    0xf4292244, 0x432aff97, 0xab9423a7, 0xfc93a039, 0x655b59c3, 0x8f0ccc92,
    0xffeff47d, 0x85845dd1, 0x6fa87e4f, 0xfe2ce6e0, 0xa3014314, 0x4e0811a1,
    0xf7537e82, 0xbd3af235, 0x2ad7d2bb, 0xeb86d391
  ]

  // ---------------------------------------------------------------------------
  // RFC 1321, section 3.4, as published
  // ---------------------------------------------------------------------------

  /** The number of one of the 64 operations. */
  type StepNumber = i: nat | i < 64

  /** How many of the 64 operations have been done. */
  type StepCount = n: nat | n <= 64

  /** The four registers a, b, c, d (or the first four state words). */
  datatype Registers = Registers(a: bv32, b: bv32, c: bv32, d: bv32)

  /** An index into the sixteen message words of a block. */
  type WordIndex = n: nat | n < 16

  /** The shift amounts S11..S14, S21..S24, S31..S34, S41..S44. */
  const RfcShifts: seq<seq<Shift>> := [[7, 12, 17, 22], [5, 9, 14, 20], [4, 11, 16, 23], [6, 10, 15, 21]]

  /** The message word k used by each of the 16 operations of rounds 1 to 4. */
  const Round1Words: seq<WordIndex> := [0, 1, 2, 3, 4, 5, 6, 7, 8, 9, 10, 11, 12, 13, 14, 15]
  const Round2Words: seq<WordIndex> := [1, 6, 11, 0, 5, 10, 15, 4, 9, 14, 3, 8, 13, 2, 7, 12]
  const Round3Words: seq<WordIndex> := [5, 8, 11, 14, 1, 4, 7, 10, 13, 0, 3, 6, 9, 12, 15, 2]
  const Round4Words: seq<WordIndex> := [0, 7, 14, 5, 12, 3, 10, 1, 8, 15, 6, 13, 4, 11, 2, 9]

  function RfcShift(i: StepNumber): Shift
  {
    RfcShifts[i / 16][i % 4]
  }

  function RfcWord(i: StepNumber): WordIndex
  {
    var k := i % 16;
    if i < 16 then Round1Words[k]
    else if i < 32 then Round2Words[k]
    else if i < 48 then Round3Words[k]
    else Round4Words[k]
  }

  function F(x: bv32, y: bv32, z: bv32): bv32 { (x & y) | (!x & z) }
  function G(x: bv32, y: bv32, z: bv32): bv32 { (x & z) | (y & !z) }
  function H(x: bv32, y: bv32, z: bv32): bv32 { x ^ y ^ z }
  function I(x: bv32, y: bv32, z: bv32): bv32 { y ^ (x | !z) }

  /**
   * The auxiliary function of the round that step i belongs to. The mixing
   * expressions of md5_transform's four branches are these four, letter for
   * letter, on the registers b, c and d.
   */
  function Aux(i: StepNumber, x: bv32, y: bv32, z: bv32): bv32
  {
    if i < 16 then F(x, y, z) else if i < 32 then G(x, y, z) else if i < 48 then H(x, y, z) else I(x, y, z)
  }

  /**
   * One operation [abcd k s i] on the registers in their current roles r.
   * The next operation names the registers [d a b c], so the result lists
   * them in that order.
   */
  function Md5Step(r: Registers, x: BlockWords, i: StepNumber): Registers
  {
    Registers(r.d, Operation(r.a, r.b, Aux(i, r.b, r.c, r.d), x[RfcWord(i)], Md5Table[i], RfcShift(i)), r.b, r.c)
  }

  /**
   * The new value of register a, with the additions in the order
   * md5_transform does them: temp starts as the round function f, then
   * gains a, the message word and the table constant, and a becomes b plus
   * temp rotated left by s.
   */
  function Operation(a: bv32, b: bv32, f: bv32, w: bv32, t: bv32, s: Shift): bv32
  {
    b + Rol(f + (a + w + t), s)
  }

  lemma SumOrder(f: bv32, a: bv32, w: bv32, t: bv32)
    ensures f + (a + w + t) == a + f + w + t
  {
  }

  /** The operation is RFC 1321's a = b + ((a + F(b,c,d) + X[k] + T[i]) <<< s). */
  lemma OperationIsRfc(a: bv32, b: bv32, f: bv32, w: bv32, t: bv32, s: Shift)
    ensures Operation(a, b, f, w, t, s) == b + Rol(a + f + w + t, s)
  {
    SumOrder(f, a, w, t);
  }

  /** The first n operations of the 64. */
  function Md5Steps(r: Registers, x: BlockWords, n: StepCount): Registers
  {
    if n == 0 then r else Md5Step(Md5Steps(r, x, n - 1), x, n - 1)
  }

  /** Operation i, applied to the registers a, b, c, d it finds, yields [d v b c]. */
  lemma StepsAdvance(st: Registers, x: BlockWords, i: StepNumber, a: bv32, b: bv32, c: bv32, d: bv32,
                     w: bv32, t: bv32, s: Shift, v: bv32)
    requires Md5Steps(st, x, i) == Registers(a, b, c, d)
    requires w == x[RfcWord(i)] && t == Md5Table[i] && s == RfcShift(i)
    requires v == Operation(a, b, Aux(i, b, c, d), w, t, s)
    ensures Md5Steps(st, x, i + 1) == Registers(d, v, b, c)
  {
  }

  /**
   * Processing one 64-byte block: the 16 little-endian message words go
   * through the 64 operations and each register is added to the state word
   * it started from, mod 2^32.
   */
  function Md5Compress(st: Registers, block: Block): Registers
  {
    var x := Md5Steps(st, LeWords(block), 64);
    Registers(Add(st.a, x.a), Add(st.b, x.b), Add(st.c, x.c), Add(st.d, x.d))
  }

  /** The registers after the 64 operations, added word by word to the starting ones. */
  lemma CompressOf(a: bv32, b: bv32, c: bv32, d: bv32, block: Block, xa: bv32, xb: bv32, xc: bv32, xd: bv32)
    requires Md5Steps(Registers(a, b, c, d), LeWords(block), 64) == Registers(xa, xb, xc, xd)
    ensures Md5Compress(Registers(a, b, c, d), block) == Registers(Add(a, xa), Add(b, xb), Add(c, xc), Add(d, xd))
  {
  }

  // ---------------------------------------------------------------------------
  // The arithmetic md5_transform uses instead of the tables
  // ---------------------------------------------------------------------------

  // The step number is an 8-bit value here: every step number is below 64,
  // and the bit operations below only ever look at its low six bits.

  /** a = (-i)&3: the slot of x[] that plays register a in step i. */
  function Md5Role(i: bv8): bv8
  {
    (-i) & 3
  }

  /** `in`: the message word that step i reads. */
  function Md5MessageIndex(i: bv8): bv8
  {
    if i < 16 then i
    else if i < 32 then (1 + 5 * i) & 15
    else if i < 48 then (5 + 3 * (i & 15)) & 15
    else (7 * (i & 15)) & 15
  }

  /** `rot`: the left rotation of step i. */
  function Md5Rotation(i: bv8): bv8
  {
    if i < 16 then 7 + 5 * (i & 3)
    else if i < 32 then (var t := (i & 3) + 1; if t & 2 != 0 then t * 5 - 1 else t * 5)
    else if i < 48 then (var r := i & 3; 4 + 5 * r + ((r + 1) & 6))
    else (var r := (i & 3) + 1; 5 * r + (((r + 2) & 2) >> 1))
  }

  /** Step n of md5_transform uses the RFC's word, shift and register roles. */
  predicate ScheduleAgrees(n: nat)
  {
    n < 64 &&
    var i := n as bv8;
    Md5MessageIndex(i) as int == RfcWord(n) && Md5Rotation(i) as int == RfcShift(n)
    && Md5Role(i) as int == (4 - n % 4) % 4
  }

  /** p holds for every step in [lo, hi), evaluated one step at a time. */
  predicate AllFrom(p: nat -> bool, lo: nat, hi: nat)
    decreases hi - lo
  {
    lo >= hi || (p(lo) && AllFrom(p, lo + 1, hi))
  }

  /** Checking a range one step at a time covers every step in it. */
  lemma {:induction false} AllFromAll(p: nat -> bool, lo: nat, hi: nat)
    requires AllFrom(p, lo, hi)
    ensures forall i: nat :: lo <= i < hi ==> p(i)
    decreases hi - lo
  {
    if lo < hi {
      AllFromAll(p, lo + 1, hi);
    }
  }

  // The 64 steps are checked four at a time: each lemma below unfolds
  // ScheduleAgrees on four literal step numbers only, which keeps every proof
  // small; a single lemma over all 64 steps is too costly for the solver.

  lemma Steps0To3Agree()
    ensures forall i: nat :: 0 <= i < 4 ==> ScheduleAgrees(i)
  {
    assert AllFrom(ScheduleAgrees, 0, 4);
    AllFromAll(ScheduleAgrees, 0, 4);
  }

  lemma Steps4To7Agree()
    ensures forall i: nat :: 4 <= i < 8 ==> ScheduleAgrees(i)
  {
    assert AllFrom(ScheduleAgrees, 4, 8);
    AllFromAll(ScheduleAgrees, 4, 8);
  }

  lemma Steps8To11Agree()
    ensures forall i: nat :: 8 <= i < 12 ==> ScheduleAgrees(i)
  {
    assert AllFrom(ScheduleAgrees, 8, 12);
    AllFromAll(ScheduleAgrees, 8, 12);
  }

  lemma Steps12To15Agree()
    ensures forall i: nat :: 12 <= i < 16 ==> ScheduleAgrees(i)
  {
    assert AllFrom(ScheduleAgrees, 12, 16);
    AllFromAll(ScheduleAgrees, 12, 16);
  }

  lemma Steps16To19Agree()
    ensures forall i: nat :: 16 <= i < 20 ==> ScheduleAgrees(i)
  {
    assert AllFrom(ScheduleAgrees, 16, 20);
    AllFromAll(ScheduleAgrees, 16, 20);
  }

  lemma Steps20To23Agree()
    ensures forall i: nat :: 20 <= i < 24 ==> ScheduleAgrees(i)
  {
    assert AllFrom(ScheduleAgrees, 20, 24);
    AllFromAll(ScheduleAgrees, 20, 24);
  }

  lemma Steps24To27Agree()
    ensures forall i: nat :: 24 <= i < 28 ==> ScheduleAgrees(i)
  {
    assert AllFrom(ScheduleAgrees, 24, 28);
    AllFromAll(ScheduleAgrees, 24, 28);
  }

  lemma Steps28To31Agree()
    ensures forall i: nat :: 28 <= i < 32 ==> ScheduleAgrees(i)
  {
    assert AllFrom(ScheduleAgrees, 28, 32);
    AllFromAll(ScheduleAgrees, 28, 32);
  }

  lemma Steps32To35Agree()
    ensures forall i: nat :: 32 <= i < 36 ==> ScheduleAgrees(i)
  {
    assert AllFrom(ScheduleAgrees, 32, 36);
    AllFromAll(ScheduleAgrees, 32, 36);
  }

  lemma Steps36To39Agree()
    ensures forall i: nat :: 36 <= i < 40 ==> ScheduleAgrees(i)
  {
    assert AllFrom(ScheduleAgrees, 36, 40);
    AllFromAll(ScheduleAgrees, 36, 40);
  }

  lemma Steps40To43Agree()
    ensures forall i: nat :: 40 <= i < 44 ==> ScheduleAgrees(i)
  {
    assert AllFrom(ScheduleAgrees, 40, 44);
    AllFromAll(ScheduleAgrees, 40, 44);
  }

  lemma Steps44To47Agree()
    ensures forall i: nat :: 44 <= i < 48 ==> ScheduleAgrees(i)
  {
    assert AllFrom(ScheduleAgrees, 44, 48);
    AllFromAll(ScheduleAgrees, 44, 48);
  }

  lemma Steps48To51Agree()
    ensures forall i: nat :: 48 <= i < 52 ==> ScheduleAgrees(i)
  {
    assert AllFrom(ScheduleAgrees, 48, 52);
    AllFromAll(ScheduleAgrees, 48, 52);
  }

  lemma Steps52To55Agree()
    ensures forall i: nat :: 52 <= i < 56 ==> ScheduleAgrees(i)
  {
    assert AllFrom(ScheduleAgrees, 52, 56);
    AllFromAll(ScheduleAgrees, 52, 56);
  }

  lemma Steps56To59Agree()
    ensures forall i: nat :: 56 <= i < 60 ==> ScheduleAgrees(i)
  {
    assert AllFrom(ScheduleAgrees, 56, 60);
    AllFromAll(ScheduleAgrees, 56, 60);
  }

  lemma Steps60To63Agree()
    ensures forall i: nat :: 60 <= i < 64 ==> ScheduleAgrees(i)
  {
    assert AllFrom(ScheduleAgrees, 60, 64);
    AllFromAll(ScheduleAgrees, 60, 64);
  }

  /**
   * For all 64 steps, the index and rotation arithmetic of md5_transform
   * yields exactly the RFC 1321 listings, and the register role (-i)&3
   * walks a, d, c, b and is back at slot 0 after every fourth step.
   */
  lemma Md5ScheduleMatchesRfc()
    ensures forall i: nat :: i < 64 ==> ScheduleAgrees(i)
  {
    Steps0To3Agree();
    Steps4To7Agree();
    Steps8To11Agree();
    Steps12To15Agree();
    Steps16To19Agree();
    Steps20To23Agree();
    Steps24To27Agree();
    Steps28To31Agree();
    Steps32To35Agree();
    Steps36To39Agree();
    Steps40To43Agree();
    Steps44To47Agree();
    Steps48To51Agree();
    Steps52To55Agree();
    Steps56To59Agree();
    Steps60To63Agree();
  }
}
