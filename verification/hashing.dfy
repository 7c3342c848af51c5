/**
 * What md5sum and sha1sum compute, as functions on values: the starting
 * state, the byte stream absorbed a piece at a time through a 64-byte buffer
 * with a 64-bit byte counter, the final padding with its 64-bit length field,
 * and the hexadecimal digest.
 *
 * As in the C code, where hash_update receives the transform routine as a
 * function pointer, the streaming layer takes the transform as a parameter:
 * everything proved about buffering and padding holds for any transform, and
 * TransformOf names the two real ones.
 */
module Hashing {
  import opened Bits
  import Md5
  import Sha1

  /** md5sum or sha1sum (the C code picks one from the command name). */
  datatype Algorithm = MD5 | SHA1

  /** The five chaining words (state[]); MD5 uses the first four. */
  type State = s: seq<bv32> | |s| == 5 witness [0, 0, 0, 0, 0]

  /** A transform routine: the state after mixing in one full buffer. */
  type TransformFn = (State, Block) -> State

  /** The five starting words of do_hash. */
  const InitialState: State := [0x67452301, 0xEFCDAB89, 0x98BADCFE, 0x10325476, 0xC3D2E1F0]

  /** The first four state words: MD5's chaining value. */
  function Md5Part(st: State): Md5.Registers
  {
    Md5.Registers(st[0], st[1], st[2], st[3])
  }

  /** The five state words: SHA-1's chaining value. */
  function Sha1Part(st: State): Sha1.Registers
  {
    Sha1.Registers(st[0], st[1], st[2], st[3], st[4])
  }

  /** What md5_transform and sha1_transform do to the state. */
  function Compress(alg: Algorithm, st: State, block: Block): State
  {
    match alg
    case MD5 =>
      var h := Md5.Md5Compress(Md5Part(st), block);
      [h.a, h.b, h.c, h.d, st[4]]
    case SHA1 =>
      var h := Sha1.Sha1Compress(Sha1Part(st), block);
      [h.a, h.b, h.c, h.d, h.e]
  }

  /**
   * md5_transform adds the registers after the 64 steps to the first four
   * state words and leaves the fifth alone.
   */
  lemma Md5CompressWords(st: State, block: Block, a: bv32, b: bv32, c: bv32, d: bv32)
    requires Md5.Md5Steps(Md5Part(st), LeWords(block), 64) == Md5.Registers(a, b, c, d)
    ensures Compress(MD5, st, block) == [Add(st[0], a), Add(st[1], b), Add(st[2], c), Add(st[3], d), st[4]]
  {
    Md5.CompressOf(st[0], st[1], st[2], st[3], block, a, b, c, d);
  }

  /** sha1_transform adds the registers after the 80 steps to the five state words. */
  lemma Sha1CompressWords(st: State, block: Block, a: bv32, b: bv32, c: bv32, d: bv32, e: bv32)
    requires Sha1.Sha1Steps(Sha1Part(st), Sha1.Schedule(BeWords(block)), 80) == Sha1.Registers(a, b, c, d, e)
    ensures Compress(SHA1, st, block) == [Add(a, st[0]), Add(b, st[1]), Add(c, st[2]), Add(d, st[3]), Add(e, st[4])]
  {
    Sha1.CompressOf(st[0], st[1], st[2], st[3], st[4], block, a, b, c, d, e);
  }

  /** The transform do_hash selects for each command. */
  function TransformOf(alg: Algorithm): TransformFn
  {
    (st: State, block: Block) => Compress(alg, st, block)
  }

  /**
   * The transform routine hash_update is handed does, on every state and
   * block, what the compression function of alg does.
   */
  ghost predicate Implements(alg: Algorithm, transform: TransformFn)
  {
    forall st: State, block: Block {:trigger Compress(alg, st, block)} :: transform(st, block) == Compress(alg, st, block)
  }

  /** The routine do_hash selects is the algorithm's compression function. */
  lemma TransformOfImplements(alg: Algorithm)
    ensures Implements(alg, TransformOf(alg))
  {
  }

  /** Compressing a whole number of blocks, first block first. */
  function Absorb(transform: TransformFn, st: State, data: seq<bv8>): State
    requires |data| % 64 == 0
    decreases |data|
  {
    if |data| == 0 then st else Absorb(transform, transform(st, data[..64]), data[64..])
  }

  /** Absorbing x and then y is absorbing x + y. */
  lemma {:induction false} AbsorbAppend(transform: TransformFn, st: State, x: seq<bv8>, y: seq<bv8>)
    requires |x| % 64 == 0 && |y| % 64 == 0
    ensures Absorb(transform, st, x + y) == Absorb(transform, Absorb(transform, st, x), y)
    decreases |x|
  {
    if |x| != 0 {
      assert (x + y)[..64] == x[..64];
      assert (x + y)[64..] == x[64..] + y;
      AbsorbAppend(transform, transform(st, x[..64]), x[64..], y);
    } else {
      assert x + y == y;
    }
  }

  /** Absorbing one more block is one more call of the transform. */
  lemma AbsorbSnoc(transform: TransformFn, st: State, x: seq<bv8>, block: Block)
    requires |x| % 64 == 0
    ensures Absorb(transform, st, x + block) == transform(Absorb(transform, st, x), block)
  {
    AbsorbAppend(transform, st, x, block);
    var mid := Absorb(transform, st, x);
    assert block[..64] == block && block[64..] == [];
    assert Absorb(transform, mid, block) == Absorb(transform, transform(mid, block), []);
  }

  // ---------------------------------------------------------------------------
  // The accumulator: state words, byte counter, partial block
  // ---------------------------------------------------------------------------

  /**
   * What the hashing context amounts to between calls: the chaining state,
   * the 64-bit count of bytes fed so far, and the bytes of the current,
   * incomplete block.
   */
  datatype Acc = Acc(state: State, count: uint64, tail: seq<bv8>)

  /** The partial block holds exactly count mod 64 bytes. */
  predicate WellFormed(acc: Acc)
  {
    |acc.tail| == acc.count as int % 64
  }

  /** The context after the initialisation in do_hash. */
  function Start(): (acc: Acc)
    ensures WellFormed(acc) && acc.count == 0 && acc.tail == []
  {
    Acc(InitialState, 0, [])
  }

  /** The length of the longest prefix of n bytes made of whole blocks. */
  function Whole(n: nat): (w: nat)
    ensures w % 64 == 0 && w <= n < w + 64
  {
    n / 64 * 64
  }

  /** Advancing the 64-bit byte counter by d: it wraps at 2^64. */
  function AddCount(c: uint64, d: nat): (r: uint64)
    ensures r as int % 64 == (c as int % 64 + d) % 64
    ensures c as int + d < TWO_64 ==> r as int == c as int + d
  {
    CountMod64(c as int + d);
    ModSum64(c as int, d);
    ((c as int + d) % TWO_64) as uint64
  }

  /** Only the low six bits of c matter to the low six bits of c + d. */
  lemma ModSum64(c: nat, d: nat)
    ensures (c % 64 + d) % 64 == (c + d) % 64
  {
    assert c + d == 64 * (c / 64) + (c % 64 + d);
  }

  /** 2^64 is a multiple of 64, so the low six bits survive the wrap-around. */
  lemma CountMod64(x: int)
    requires x >= 0
    ensures (x % TWO_64) % 64 == x % 64
  {
  }

  lemma CountAssoc(c: uint64, x: nat, y: nat)
    ensures AddCount(AddCount(c, x), y) == AddCount(c, x + y)
  {
    var s := c as int + x;
    assert AddCount(c, x) as int == s % TWO_64;
    WrapAgain(s, y);
  }

  /** Wrapping s before adding y wraps to the same value as wrapping s + y. */
  lemma WrapAgain(s: nat, y: nat)
    ensures (s % TWO_64 + y) % TWO_64 == (s + y) % TWO_64
  {
    var q := s / TWO_64;
    assert s + y == q * TWO_64 + (s % TWO_64 + y);
  }

  /**
   * hash_update: the whole blocks of tail + data go through the transform in
   * order, the rest becomes the new partial block, and the counter advances
   * by |data| mod 2^64.
   */
  function Feed(transform: TransformFn, acc: Acc, data: seq<bv8>): (r: Acc)
    requires WellFormed(acc)
    ensures WellFormed(r)
  {
    var buffered := acc.tail + data;
    var w := Whole(|buffered|);
    Acc(Absorb(transform, acc.state, buffered[..w]), AddCount(acc.count, |data|), buffered[w..])
  }

  /**
   * Feeding loses and reorders nothing: the old partial block followed by the
   * data is exactly the bytes handed to the transform, (|tail| + |data|) / 64
   * blocks of them, followed by the new partial block, which is shorter than
   * a block.
   */
  lemma FeedKeepsBytes(transform: TransformFn, acc: Acc, data: seq<bv8>)
    requires WellFormed(acc)
    ensures var r := Feed(transform, acc, data);
            var w := (|acc.tail| + |data|) / 64 * 64;
            |r.tail| < 64
            && r.state == Absorb(transform, acc.state, (acc.tail + data)[..w])
            && (acc.tail + data)[..w] + r.tail == acc.tail + data
  {
    var b := acc.tail + data;
    assert b[..Whole(|b|)] + b[Whole(|b|)..] == b;
  }

  /** Feeding nothing changes nothing. */
  lemma FeedEmpty(transform: TransformFn, acc: Acc)
    requires WellFormed(acc)
    ensures Feed(transform, acc, []) == acc
  {
    assert acc.tail + [] == acc.tail;
    assert Whole(|acc.tail|) == 0;
  }

  /** Streaming: feeding x and then y is feeding x + y. */
  lemma FeedConcat(transform: TransformFn, acc: Acc, x: seq<bv8>, y: seq<bv8>)
    requires WellFormed(acc)
    ensures Feed(transform, Feed(transform, acc, x), y) == Feed(transform, acc, x + y)
  {
    var b1 := acc.tail + x;
    var w1 := Whole(|b1|);
    var b2 := b1[w1..] + y;
    var w2 := Whole(|b2|);
    RegroupWhole(acc.tail, x, y);
    AbsorbAppend(transform, acc.state, b1[..w1], b2[..w2]);
    CountAssoc(acc.count, |x|, |y|);
  }

  /**
   * Cutting t + x + y at its last block boundary is cutting t + x at its own
   * and then the rest, followed by y, at its.
   */
  lemma RegroupWhole(t: seq<bv8>, x: seq<bv8>, y: seq<bv8>)
    ensures var b1 := t + x;
            var w1 := Whole(|b1|);
            var b2 := b1[w1..] + y;
            var w2 := Whole(|b2|);
            var b := t + (x + y);
            var w := Whole(|b|);
            b[..w] == b1[..w1] + b2[..w2] && b[w..] == b2[w2..]
  {
    var b1 := t + x;
    var w1 := Whole(|b1|);
    var b2 := b1[w1..] + y;
    var b := t + (x + y);
    assert b == b1[..w1] + b2;
    WholeShift(w1, |b2|);
    CutAfter(b1[..w1], b2, Whole(|b2|));
  }

  /** Whole blocks in front do not move the last block boundary of what follows. */
  lemma WholeShift(w: nat, n: nat)
    requires w % 64 == 0
    ensures Whole(w + n) == w + Whole(n)
  {
    var q := w / 64;
    assert w + n == 64 * (q + n / 64) + n % 64;
  }

  /** Cutting p + q at |p| + k cuts q at k. */
  lemma CutAfter(p: seq<bv8>, q: seq<bv8>, k: nat)
    requires k <= |q|
    ensures (p + q)[..|p| + k] == p + q[..k] && (p + q)[|p| + k..] == q[k..]
  {
  }

  /** The concatenation of the chunks a stream is read in. */
  function Concat(chunks: seq<seq<bv8>>): seq<bv8>
  {
    if chunks == [] then [] else Concat(chunks[..|chunks| - 1]) + chunks[|chunks| - 1]
  }

  /** Feeding chunk after chunk, first chunk first. */
  function FeedAll(transform: TransformFn, acc: Acc, chunks: seq<seq<bv8>>): (r: Acc)
    requires WellFormed(acc)
    ensures WellFormed(r)
  {
    if chunks == [] then acc
    else Feed(transform, FeedAll(transform, acc, chunks[..|chunks| - 1]), chunks[|chunks| - 1])
  }

  /** However the input is cut into reads, the context ends up the same. */
  lemma {:induction false} FeedAllIsFeedConcat(transform: TransformFn, acc: Acc, chunks: seq<seq<bv8>>)
    requires WellFormed(acc)
    ensures FeedAll(transform, acc, chunks) == Feed(transform, acc, Concat(chunks))
  {
    if chunks == [] {
      FeedEmpty(transform, acc);
    } else {
      var init := chunks[..|chunks| - 1];
      FeedAllIsFeedConcat(transform, acc, init);
      FeedConcat(transform, acc, Concat(init), chunks[|chunks| - 1]);
    }
  }

  // ---------------------------------------------------------------------------
  // Finalisation
  // ---------------------------------------------------------------------------

  /**
   * The number of zero bytes do_hash feeds after 0x80 when n bytes have been
   * fed so far: it brings the count to 56 mod 64.
   */
  function ZeroCount(n: nat): (z: nat)
    ensures z < 64 && (n + 1 + z) % 64 == 56
  {
    (55 - n % 64) % 64
  }

  /** No shorter run of zeros reaches 56 mod 64: the loop stops at the first chance. */
  lemma ZeroCountIsLeast(n: nat, z: nat)
    requires z < ZeroCount(n)
    ensures (n + 1 + z) % 64 != 56
  {
  }

  function Zeros(z: nat): (r: seq<bv8>)
    ensures |r| == z && forall k :: 0 <= k < z ==> r[k] == 0
  {
    seq(z, _ => 0)
  }

  /** The bytes fed by the do-while loop of do_hash: 0x80, then zeros. */
  function Padding(n: nat): (p: seq<bv8>)
    ensures 1 <= |p| <= 64 && (n + |p|) % 64 == 56
    ensures p[0] == 0x80 && forall k :: 1 <= k < |p| ==> p[k] == 0
  {
    [0x80] + Zeros(ZeroCount(n))
  }

  /** The message length in bits, computed on 64 bits and so taken mod 2^64. */
  function BitLength(count: uint64): bv64
  {
    ((count as int * 8) % TWO_64) as bv64
  }

  /**
   * The eight bytes stored at buffer[56..64]: the bit length, least
   * significant byte first for MD5, most significant byte first for SHA-1.
   */
  function LengthField(alg: Algorithm, count: uint64): (f: seq<bv8>)
    ensures |f| == 8
  {
    var bits := BitLength(count);
    match alg
    case MD5 => LeBytes64(bits)
    case SHA1 => BeBytes64(bits)
  }

  /** The length field reads back as the bit length in the algorithm's byte order. */
  lemma LengthFieldValue(alg: Algorithm, count: uint64)
    ensures alg == MD5 ==> LeValue64(LengthField(alg, count)) == BitLength(count)
    ensures alg == SHA1 ==> BeValue64(LengthField(alg, count)) == BitLength(count)
  {
    LeBytes64RoundTrip(BitLength(count));
    BeBytes64RoundTrip(BitLength(count));
  }

  /** Everything that is compressed after the last hash_update of the input. */
  function Trailer(alg: Algorithm, acc: Acc): (t: seq<bv8>)
    requires WellFormed(acc)
    ensures |t| % 64 == 0
  {
    acc.tail + Padding(acc.count as int % 64) + LengthField(alg, acc.count)
  }

  /**
   * Finalisation compresses two blocks when 56 or more bytes are pending
   * (the 0x80 byte and the length field do not both fit), one otherwise.
   */
  lemma TrailerBlocks(alg: Algorithm, acc: Acc)
    requires WellFormed(acc)
    ensures |Trailer(alg, acc)| == if acc.count as int % 64 >= 56 then 128 else 64
  {
  }

  /**
   * The digest bytes in printing order: byte i is byte i % 4 of state word
   * i / 4, least significant byte first for MD5 (each word is byte-swapped
   * before it is printed as eight hex digits) and most significant first
   * for SHA-1 (each byte is shifted out of its word, high byte first).
   */
  function DigestBytes(alg: Algorithm, st: State): (d: seq<bv8>)
    ensures |d| == if alg == MD5 then 16 else 20
  {
    match alg
    case MD5 => seq(16, i requires 0 <= i < 16 => LeBytes(st[i / 4])[i % 4])
    case SHA1 => seq(20, i requires 0 <= i < 20 => BeBytes(st[i / 4])[i % 4])
  }

  /** The digest bytes determine the state words the algorithm reports. */
  lemma DigestBytesWords(alg: Algorithm, st: State)
    ensures alg == MD5 ==> LeWords(DigestBytes(alg, st)) == st[..4]
    ensures alg == SHA1 ==> BeWords(DigestBytes(alg, st)) == st
  {
    var d := DigestBytes(alg, st);
    if alg == MD5 {
      forall k | 0 <= k < 4
        ensures LeWords(d)[k] == st[k]
      {
        Md5DigestWord(st, k);
      }
    } else {
      forall k | 0 <= k < 5
        ensures BeWords(d)[k] == st[k]
      {
        Sha1DigestWord(st, k);
      }
    }
  }

  /** Digest bytes 4k..4k+4 are state word k, least significant byte first. */
  lemma Md5DigestWord(st: State, k: nat)
    requires k < 4
    ensures DigestBytes(MD5, st)[4 * k..4 * k + 4] == LeBytes(st[k])
  {
    Md5DigestByte(st, k, 0);
    Md5DigestByte(st, k, 1);
    Md5DigestByte(st, k, 2);
    Md5DigestByte(st, k, 3);
    FourAt(DigestBytes(MD5, st), 4 * k, LeBytes(st[k]));
  }

  lemma Md5DigestByte(st: State, k: nat, j: nat)
    requires k < 4 && j < 4
    ensures DigestBytes(MD5, st)[4 * k + j] == LeBytes(st[k])[j]
  {
    DigestIndex(k);
  }

  /** Digest bytes 4k..4k+4 are state word k, most significant byte first. */
  lemma Sha1DigestWord(st: State, k: nat)
    requires k < 5
    ensures DigestBytes(SHA1, st)[4 * k..4 * k + 4] == BeBytes(st[k])
  {
    Sha1DigestByte(st, k, 0);
    Sha1DigestByte(st, k, 1);
    Sha1DigestByte(st, k, 2);
    Sha1DigestByte(st, k, 3);
    FourAt(DigestBytes(SHA1, st), 4 * k, BeBytes(st[k]));
  }

  lemma Sha1DigestByte(st: State, k: nat, j: nat)
    requires k < 5 && j < 4
    ensures DigestBytes(SHA1, st)[4 * k + j] == BeBytes(st[k])[j]
  {
    DigestIndex(k);
  }

  /** Four bytes found one by one at i are the slice at i. */
  lemma FourAt(d: seq<bv8>, i: nat, b: Bytes4)
    requires i + 4 <= |d| && d[i] == b[0] && d[i + 1] == b[1] && d[i + 2] == b[2] && d[i + 3] == b[3]
    ensures d[i..i + 4] == b
  {
  }

  /** Byte 4k + j of the digest is byte j of word k. */
  lemma DigestIndex(k: nat)
    ensures (4 * k) / 4 == k && (4 * k + 1) / 4 == k && (4 * k + 2) / 4 == k && (4 * k + 3) / 4 == k
    ensures (4 * k) % 4 == 0 && (4 * k + 1) % 4 == 1 && (4 * k + 2) % 4 == 2 && (4 * k + 3) % 4 == 3
  {
  }

  /** The line printed for the context: padding, length, last transform(s), hex. */
  function Final(alg: Algorithm, transform: TransformFn, acc: Acc): (hex: string)
    requires WellFormed(acc)
    ensures |hex| == if alg == MD5 then 32 else 40
    ensures |hex| % 2 == 0 && forall i :: 0 <= i < |hex| ==> IsLowerHexDigit(hex[i])
  {
    Hex(DigestBytes(alg, Absorb(transform, acc.state, Trailer(alg, acc))))
  }

  /** The message after padding, as RFC 1321 and FIPS 180-4 define it. */
  function Pad(alg: Algorithm, msg: seq<bv8>): (p: seq<bv8>)
    ensures |p| % 64 == 0 && 9 <= |p| - |msg| <= 72
    ensures p[..|msg|] == msg && p[|msg|] == 0x80
  {
    var padding := Padding(|msg| % 64);
    PaddedShape(msg, padding, LengthField(alg, (|msg| % TWO_64) as uint64));
    msg + padding + LengthField(alg, (|msg| % TWO_64) as uint64)
  }

  /** The message, its padding up to 56 mod 64 and the eight-byte length make whole blocks. */
  lemma PaddedShape(msg: seq<bv8>, padding: seq<bv8>, field: seq<bv8>)
    requires 1 <= |padding| <= 64 && (|msg| % 64 + |padding|) % 64 == 56 && |field| == 8
    ensures var p := msg + padding + field;
            |p| % 64 == 0 && p[..|msg|] == msg && p[|msg|] == padding[0]
  {
    PaddedLength(|msg|, |padding|);
    assert (msg + padding + field)[..|msg|] == msg;
  }

  /** m bytes, padded to 56 mod 64, plus eight: whole blocks. */
  lemma PaddedLength(m: nat, z: nat)
    requires (m % 64 + z) % 64 == 56
    ensures (m + z + 8) % 64 == 0
  {
    var q := m / 64;
    var r := (m % 64 + z) / 64;
    assert m % 64 + z == 64 * r + 56;
    assert m + z + 8 == 64 * (q + r + 1);
  }

  /** What do_hash prints for a whole input, fed in one piece. */
  function Digest(alg: Algorithm, msg: seq<bv8>): string
  {
    var transform := TransformOf(alg);
    Final(alg, transform, Feed(transform, Start(), msg))
  }

  /**
   * The streaming computation agrees with the standards' definition: the
   * digest is the hex of the state reached by absorbing the padded message
   * block by block from the initial state.
   */
  lemma StreamIsPadded(alg: Algorithm, transform: TransformFn, msg: seq<bv8>)
    ensures Final(alg, transform, Feed(transform, Start(), msg))
            == Hex(DigestBytes(alg, Absorb(transform, InitialState, Pad(alg, msg))))
  {
    var acc := Feed(transform, Start(), msg);
    var w := Whole(|msg|);
    FeedFromStart(transform, msg);
    PadIsTrailer(alg, msg, acc);
    AbsorbAppend(transform, InitialState, msg[..w], Trailer(alg, acc));
  }

  /** From the start, feeding a message absorbs its whole blocks and keeps the rest. */
  lemma FeedFromStart(transform: TransformFn, msg: seq<bv8>)
    ensures var acc := Feed(transform, Start(), msg);
            acc.state == Absorb(transform, InitialState, msg[..Whole(|msg|)])
            && acc.tail == msg[Whole(|msg|)..] && acc.count as int == |msg| % TWO_64
  {
    assert [] + msg == msg;
  }

  /** The padded message is the whole blocks of the message followed by the trailer of what is left. */
  lemma PadIsTrailer(alg: Algorithm, msg: seq<bv8>, acc: Acc)
    requires acc.tail == msg[Whole(|msg|)..] && acc.count as int == |msg| % TWO_64
    ensures WellFormed(acc) && Pad(alg, msg) == msg[..Whole(|msg|)] + Trailer(alg, acc)
  {
    CountMod64(|msg|);
    var w := Whole(|msg|);
    assert msg == msg[..w] + acc.tail;
    assert acc.count == (|msg| % TWO_64) as uint64;
  }

  lemma DigestIsStandard(alg: Algorithm, msg: seq<bv8>)
    ensures Digest(alg, msg) == Hex(DigestBytes(alg, Absorb(TransformOf(alg), InitialState, Pad(alg, msg))))
  {
    StreamIsPadded(alg, TransformOf(alg), msg);
  }

  /** The printed line parses back to the digest bytes: hex output loses nothing. */
  lemma FinalParses(alg: Algorithm, transform: TransformFn, acc: Acc)
    requires WellFormed(acc)
    ensures ParseHex(Final(alg, transform, acc))
            == DigestBytes(alg, Absorb(transform, acc.state, Trailer(alg, acc)))
  {
    ParseHexInverse(DigestBytes(alg, Absorb(transform, acc.state, Trailer(alg, acc))));
  }
}
