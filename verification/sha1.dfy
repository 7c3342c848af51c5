/**
 * The SHA-1 compression function of FIPS 180-4 (sections 4.1.1, 4.2.1 and
 * 6.1.2), written in the standard's terms (the functions Ch, Parity and Maj,
 * the constants K, the message schedule W and the register update), next to
 * the two expressions of sha1_transform that differ from the standard's
 * wording: the round function it computes from three registers, and the
 * byte swap that turns a host (little-endian) word into a big-endian one.
 */
module Sha1 {
  import opened Bits

  /** rconsts: the constant K of each group of twenty steps. */
  const Sha1K: seq<bv32> := [0x5A827999, 0x6ED9EBA1, 0x8F1BBCDC, 0xCA62C1D6]

  /** The number of one of the 80 steps. */
  type StepNumber = t: nat | t < 80

  /** How many of the 80 steps have been done. */
  type StepCount = n: nat | n <= 80

  /** The five registers a, b, c, d, e (or the five state words). */
  datatype Registers = Registers(a: bv32, b: bv32, c: bv32, d: bv32, e: bv32)

  function Ch(x: bv32, y: bv32, z: bv32): bv32 { (x & y) ^ (!x & z) }
  function Parity(x: bv32, y: bv32, z: bv32): bv32 { x ^ y ^ z }
  function Maj(x: bv32, y: bv32, z: bv32): bv32 { (x & y) ^ (x & z) ^ (y & z) }

  /** f_t of FIPS 180-4, section 4.1.1. */
  function FipsF(t: StepNumber, x: bv32, y: bv32, z: bv32): bv32
  {
    if t < 20 then Ch(x, y, z)
    else if t < 40 then Parity(x, y, z)
    else if t < 60 then Maj(x, y, z)
    else Parity(x, y, z)
  }

  /**
   * `work` as sha1_transform computes it in round `round` (0 to 3) from the
   * registers b, c and d: a select written with two xors and an and in round
   * 0, a majority written with or and and in round 2, and the xor of the
   * three otherwise.
   */
  function Sha1Mix(round: nat, b: bv32, c: bv32, d: bv32): bv32
  {
    var work := c ^ d;
    if round == 0 then (work & b) ^ d
    else if round == 2 then ((b | c) & d) | (b & c)
    else work ^ b
  }

  /** The round functions of sha1_transform are those of the standard. */
  lemma Sha1MixIsFips(t: StepNumber, b: bv32, c: bv32, d: bv32)
    ensures Sha1Mix(t / 20, b, c, d) == FipsF(t, b, c, d)
  {
    // One lemma per round, so that each goal is a single bit-vector identity.
    if t < 20 {
      assert t / 20 == 0;
      MixIsCh(b, c, d);
    } else if t < 40 {
      assert t / 20 == 1;
      MixIsParity(1, b, c, d);
    } else if t < 60 {
      assert t / 20 == 2;
      MixIsMaj(b, c, d);
    } else {
      assert t / 20 == 3;
      MixIsParity(3, b, c, d);
    }
  }

  lemma MixIsCh(b: bv32, c: bv32, d: bv32)
    ensures Sha1Mix(0, b, c, d) == Ch(b, c, d)
  {
    ChIdentity(b, c, d);
  }

  lemma ChIdentity(b: bv32, c: bv32, d: bv32)
    ensures ((c ^ d) & b) ^ d == (b & c) ^ (!b & d)
  {
  }

  lemma MixIsParity(round: nat, b: bv32, c: bv32, d: bv32)
    requires round == 1 || round == 3
    ensures Sha1Mix(round, b, c, d) == Parity(b, c, d)
  {
  }

  lemma MixIsMaj(b: bv32, c: bv32, d: bv32)
    ensures Sha1Mix(2, b, c, d) == Maj(b, c, d)
  {
    MajIdentity(b, c, d);
  }

  lemma MajIdentity(b: bv32, c: bv32, d: bv32)
    ensures ((b | c) & d) | (b & c) == (b & c) ^ (b & d) ^ (c & d)
  {
  }

  /** A message schedule: the eighty words W_0 .. W_79. */
  type Words80 = w: seq<bv32> | |w| == 80 witness seq(80, _ => 0)

  /** W_t = ROTL^1(W_{t-3} xor W_{t-8} xor W_{t-14} xor W_{t-16}), from those four words. */
  function NextWord(w3: bv32, w8: bv32, w14: bv32, w16: bv32): bv32
  {
    Rol(w3 ^ w8 ^ w14 ^ w16, 1)
  }

  /** W_0 .. W_{n-1}, each word past the sixteenth computed from those before it. */
  function Expand(m: BlockWords, n: nat): (w: seq<bv32>)
    requires 16 <= n <= 80
    ensures |w| == n
  {
    if n == 16 then m
    else
      var w := Expand(m, n - 1);
      w + [NextWord(w[n - 4], w[n - 9], w[n - 15], w[n - 17])]
  }

  /** The message schedule {W_t} of FIPS 180-4, section 6.1.2, step 1, for the sixteen words m. */
  function Schedule(m: BlockWords): Words80
  {
    Expand(m, 80)
  }

  /** Expanding further keeps the words already there. */
  lemma {:induction false} ExpandAgrees(m: BlockWords, n: nat, n': nat, k: nat)
    requires 16 <= n <= n' <= 80 && k < n
    ensures Expand(m, n')[k] == Expand(m, n)[k]
    decreases n'
  {
    if n' > n {
      ExpandAgrees(m, n, n' - 1, k);
    }
  }

  /**
   * W_t = M_t for t < 16 and W_t = ROTL^1(W_{t-3} xor W_{t-8} xor W_{t-14}
   * xor W_{t-16}) for 16 <= t < 80, as FIPS 180-4 defines the schedule.
   */
  lemma ScheduleIsFips(m: BlockWords, t: StepNumber)
    ensures var w := Schedule(m);
            w[t] == if t < 16 then m[t] else NextWord(w[t - 3], w[t - 8], w[t - 14], w[t - 16])
  {
    if t < 16 {
      ExpandAgrees(m, 16, 80, t);
    } else {
      var e := Expand(m, t);
      ExpandAgrees(m, t + 1, 80, t);
      ExpandAgrees(m, t, 80, t - 3);
      ExpandAgrees(m, t, 80, t - 8);
      ExpandAgrees(m, t, 80, t - 14);
      ExpandAgrees(m, t, 80, t - 16);
      assert Expand(m, t + 1)[t] == NextWord(e[t - 3], e[t - 8], e[t - 14], e[t - 16]);
    }
  }

  /**
   * Step t on the registers r: T = ROTL^5(a) + f_t(b, c, d) + e + K_t + W_t;
   * e = d; d = c; c = ROTL^30(b); b = a; a = T.
   */
  function Sha1Step(r: Registers, w: bv32, t: StepNumber): Registers
  {
    Registers(Operation(Rol(r.a, 5), FipsF(t, r.b, r.c, r.d), r.e, Sha1K[t / 20], w), r.a, Rol(r.b, 30), r.c, r.d)
  }

  /**
   * T, with the additions in the order sha1_transform does them: work
   * starts as the round function f, work += W, and the register playing e
   * gets e += work + rol(a, 5) + K.
   */
  function Operation(a5: bv32, f: bv32, e: bv32, k: bv32, w: bv32): bv32
  {
    e + ((f + w) + a5 + k)
  }

  lemma SumOrder(a5: bv32, f: bv32, e: bv32, k: bv32, w: bv32)
    ensures e + ((f + w) + a5 + k) == a5 + f + e + k + w
  {
  }

  /** The operation is T = ROTL^5(a) + f_t(b, c, d) + e + K_t + W_t of FIPS 180-4. */
  lemma OperationIsFips(a5: bv32, f: bv32, e: bv32, k: bv32, w: bv32)
    ensures Operation(a5, f, e, k, w) == a5 + f + e + k + w
  {
    SumOrder(a5, f, e, k, w);
  }

  /** The first n of the 80 steps on message words m. */
  function Sha1Steps(r: Registers, w: Words80, n: StepCount): Registers
  {
    if n == 0 then r else Sha1Step(Sha1Steps(r, w, n - 1), w[n - 1], n - 1)
  }

  /** Step t, applied to the registers a..e it finds, yields [T a rol(b,30) c d]. */
  lemma StepsAdvance(st: Registers, ws: Words80, t: StepNumber, a: bv32, b: bv32, c: bv32, d: bv32, e: bv32)
    requires Sha1Steps(st, ws, t) == Registers(a, b, c, d, e)
    ensures Sha1Steps(st, ws, t + 1)
            == Registers(Operation(Rol(a, 5), FipsF(t, b, c, d), e, Sha1K[t / 20], ws[t]), a, Rol(b, 30), c, d)
  {
  }

  /**
   * Processing one 64-byte block: its sixteen big-endian words go through
   * the 80 steps and each state word becomes the register plus its old
   * value, mod 2^32 (H_i = a + H_i and so on).
   */
  function Sha1Compress(st: Registers, block: Block): Registers
  {
    var x := Sha1Steps(st, Schedule(BeWords(block)), 80);
    Registers(Add(x.a, st.a), Add(x.b, st.b), Add(x.c, st.c), Add(x.d, st.d), Add(x.e, st.e))
  }

  /** The registers after the 80 steps, added word by word to the starting ones. */
  lemma CompressOf(a: bv32, b: bv32, c: bv32, d: bv32, e: bv32, block: Block,
                   xa: bv32, xb: bv32, xc: bv32, xd: bv32, xe: bv32)
    requires Sha1Steps(Registers(a, b, c, d, e), Schedule(BeWords(block)), 80) == Registers(xa, xb, xc, xd, xe)
    ensures Sha1Compress(Registers(a, b, c, d, e), block)
            == Registers(Add(xa, a), Add(xb, b), Add(xc, c), Add(xd, d), Add(xe, e))
  {
  }

  /**
   * How sha1_transform reverses the bytes of each of the first sixteen
   * words in place: two rotations, each masked to the bytes it moves into
   * place, combined.
   */
  function SwapHostWord(w: bv32): bv32
  {
    (Rol(w, 24) & 0xFF00FF00) | (Rol(w, 8) & 0x00FF00FF)
  }

  /**
   * On a little-endian host, the swapped view of four buffer bytes is their
   * big-endian reading, as FIPS 180-4 section 3.1 requires.
   */
  lemma SwapHostWordIsBigEndian(b: Bytes4)
    ensures SwapHostWord(LeWord(b)) == BeWord(b)
  {
    SwapHostWordIsBswap(LeWord(b));
    BswapLeWord(b);
  }

  /** The swap is bswap_32. */
  lemma SwapHostWordIsBswap(w: bv32)
    ensures SwapHostWord(w) == Bswap32(w)
  {
    assert Rol(w, 24) == (w << 24) | (w >> 8);
    assert Rol(w, 8) == (w << 8) | (w >> 24);
  }

  /**
   * The roles of sha1_transform's five pointers after c steps: rot[k] points
   * at the state word that holds register k (a, b, c, d, e).
   */
  function Roles(c: nat): (r: seq<nat>)
    ensures |r| == 5 && forall k :: 0 <= k < 5 ==> r[k] < 5
  {
    match c % 5
    case 0 => [0, 1, 2, 3, 4]
    case 1 => [4, 0, 1, 2, 3]
    case 2 => [3, 4, 0, 1, 2]
    case 3 => [2, 3, 4, 0, 1]
    case _ => [1, 2, 3, 4, 0]
  }

  /** Each step moves the last pointer to the front, as the k loop does. */
  lemma RolesRotate(c: nat)
    ensures Roles(c + 1) == [Roles(c)[4]] + Roles(c)[..4]
  {
    var p := c % 5;
    if p < 4 {
      assert (c + 1) % 5 == p + 1;
    } else {
      assert (c + 1) % 5 == 0;
    }
  }

  /** The roles always name five distinct state words. */
  lemma RolesDistinct(c: nat)
    ensures forall k, l :: 0 <= k < l < 5 ==> Roles(c)[k] != Roles(c)[l]
  {
  }

  /** After the 80 steps the pointers are back where they started. */
  lemma RolesAfterAllSteps()
    ensures Roles(80) == [0, 1, 2, 3, 4]
  {
  }
}
