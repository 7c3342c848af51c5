/**
 * Word-level helpers shared by both digests: the 32-bit left rotation `rol`,
 * explicit little- and big-endian conversions between bytes and words (in
 * place of the union that lets the C code view its 64-byte buffer as sixteen
 * host-endian words), byte swaps, and the lowercase hexadecimal rendering
 * that printf("%02x") and printf("%08x") produce.
 */
module Bits {

  /** uint64_t: the byte counter. Arithmetic on it wraps explicitly. */
  const TWO_64: int := 0x1_0000_0000_0000_0000
  newtype uint64 = x: int | 0 <= x < 0x1_0000_0000_0000_0000

  /** A left-rotation amount `rol` accepts. */
  type Shift = n: nat | 0 < n < 32 witness 1

  /** Four bytes: one word of the buffer. */
  type Bytes4 = b: seq<bv8> | |b| == 4 witness [0, 0, 0, 0]

  /** The 64-byte buffer that a transform consumes. */
  type Block = b: seq<bv8> | |b| == 64 witness seq(64, _ => 0)

  /** A block as sixteen 32-bit words. */
  type BlockWords = w: seq<bv32> | |w| == 16 witness seq(16, _ => 0)

  /** Addition of two unsigned ints, mod 2^32. */
  function Add(x: bv32, y: bv32): bv32
  {
    x + y
  }

  /** The `rol` macro: rotate a 32-bit word left by `n` bits. */
  function Rol(x: bv32, n: Shift): bv32
  {
    (x << n) | (x >> (32 - n))
  }

  /** Four bytes read as a little-endian word (the MD5 message word order). */
  function LeWord(b: Bytes4): bv32
  {
    b[0] as bv32 | (b[1] as bv32 << 8) | (b[2] as bv32 << 16) | (b[3] as bv32 << 24)
  }

  /** Four bytes read as a big-endian word (the SHA-1 message word order). */
  function BeWord(b: Bytes4): bv32
  {
    (b[0] as bv32 << 24) | (b[1] as bv32 << 16) | (b[2] as bv32 << 8) | b[3] as bv32
  }

  /** The bytes of a word, least significant first. */
  function LeBytes(w: bv32): (r: Bytes4)
    ensures LeWord(r) == w
  {
    [(w & 0xFF) as bv8, ((w >> 8) & 0xFF) as bv8, ((w >> 16) & 0xFF) as bv8, (w >> 24) as bv8]
  }

  /** The bytes of a word, most significant first. */
  function BeBytes(w: bv32): (r: Bytes4)
    ensures BeWord(r) == w
  {
    [(w >> 24) as bv8, ((w >> 16) & 0xFF) as bv8, ((w >> 8) & 0xFF) as bv8, (w & 0xFF) as bv8]
  }

  lemma LeBytesOfLeWord(b: Bytes4)
    ensures LeBytes(LeWord(b)) == b
  {
  }

  lemma BeBytesOfBeWord(b: Bytes4)
    ensures BeBytes(BeWord(b)) == b
  {
  }

  /** A block of bytes cut into little-endian words. */
  function LeWords(block: seq<bv8>): (ws: seq<bv32>)
    requires |block| % 4 == 0
    ensures |ws| == |block| / 4
    ensures forall k :: 0 <= k < |ws| ==> ws[k] == LeWord(block[4 * k..4 * k + 4])
  {
    seq(|block| / 4, k requires 0 <= k < |block| / 4 => LeWord(block[4 * k..4 * k + 4]))
  }

  /** A block of bytes cut into big-endian words. */
  function BeWords(block: seq<bv8>): (ws: seq<bv32>)
    requires |block| % 4 == 0
    ensures |ws| == |block| / 4
    ensures forall k :: 0 <= k < |ws| ==> ws[k] == BeWord(block[4 * k..4 * k + 4])
  {
    seq(|block| / 4, k requires 0 <= k < |block| / 4 => BeWord(block[4 * k..4 * k + 4]))
  }

  /** Word k of a block read little-endian: the union member buffer.i[k] on a little-endian host. */
  function LeWordAt(block: Block, k: nat): (w: bv32)
    requires k < 16
    ensures w == LeWords(block)[k]
  {
    LeWord(block[4 * k..4 * k + 4])
  }

  /** bswap_32: reverse the byte order of a word. */
  function Bswap32(w: bv32): bv32
  {
    ((w & 0xFF) << 24) | ((w & 0xFF00) << 8) | ((w >> 8) & 0xFF00) | (w >> 24)
  }

  lemma BswapBytes(w: bv32)
    ensures BeBytes(Bswap32(w)) == LeBytes(w)
  {
  }

  /** Reversing the bytes of a little-endian reading gives the big-endian one. */
  lemma BswapLeWord(b: Bytes4)
    ensures Bswap32(LeWord(b)) == BeWord(b)
  {
  }

  /** bswap_64: reverse the byte order of a 64-bit value. */
  function Bswap64(v: bv64): bv64
  {
    (Bswap32((v & 0xFFFF_FFFF) as bv32) as bv64 << 32) | Bswap32((v >> 32) as bv32) as bv64
  }

  /** The eight bytes of a 64-bit value, least significant first. */
  function LeBytes64(v: bv64): (r: seq<bv8>)
    ensures |r| == 8
  {
    [(v & 0xFF) as bv8, ((v >> 8) & 0xFF) as bv8, ((v >> 16) & 0xFF) as bv8, ((v >> 24) & 0xFF) as bv8,
     ((v >> 32) & 0xFF) as bv8, ((v >> 40) & 0xFF) as bv8, ((v >> 48) & 0xFF) as bv8, (v >> 56) as bv8]
  }

  /** The eight bytes of a 64-bit value, most significant first. */
  function BeBytes64(v: bv64): (r: seq<bv8>)
    ensures |r| == 8
  {
    [(v >> 56) as bv8, ((v >> 48) & 0xFF) as bv8, ((v >> 40) & 0xFF) as bv8, ((v >> 32) & 0xFF) as bv8,
     ((v >> 24) & 0xFF) as bv8, ((v >> 16) & 0xFF) as bv8, ((v >> 8) & 0xFF) as bv8, (v & 0xFF) as bv8]
  }

  /** Eight bytes read back as a little-endian 64-bit value. */
  function LeValue64(b: seq<bv8>): bv64
    requires |b| == 8
  {
    b[0] as bv64 | (b[1] as bv64 << 8) | (b[2] as bv64 << 16) | (b[3] as bv64 << 24)
    | (b[4] as bv64 << 32) | (b[5] as bv64 << 40) | (b[6] as bv64 << 48) | (b[7] as bv64 << 56)
  }

  /** Eight bytes read back as a big-endian 64-bit value. */
  function BeValue64(b: seq<bv8>): bv64
    requires |b| == 8
  {
    (b[0] as bv64 << 56) | (b[1] as bv64 << 48) | (b[2] as bv64 << 40) | (b[3] as bv64 << 32)
    | (b[4] as bv64 << 24) | (b[5] as bv64 << 16) | (b[6] as bv64 << 8) | b[7] as bv64
  }

  /** Storing a byte-swapped value little-endian stores the original big-endian. */
  lemma Bswap64Bytes(v: bv64)
    ensures LeBytes64(Bswap64(v)) == BeBytes64(v)
  {
  }

  lemma LeBytes64RoundTrip(v: bv64)
    ensures LeValue64(LeBytes64(v)) == v
  {
  }

  lemma BeBytes64RoundTrip(v: bv64)
    ensures BeValue64(BeBytes64(v)) == v
  {
  }

  /** Byte j of the big-endian encoding is the word shifted right by (3 - j) * 8, truncated. */
  lemma BeByteAt(w: bv32, j: nat)
    requires j < 4
    ensures BeBytes(w)[j] == ((w >> ((3 - j) * 8)) & 0xFF) as bv8
  {
    var b := BeBytes(w);
    if j == 0 {
      assert b[0] == ((w >> 24) & 0xFF) as bv8;
    } else if j == 1 {
      assert b[1] == ((w >> 16) & 0xFF) as bv8;
    } else if j == 2 {
      assert b[2] == ((w >> 8) & 0xFF) as bv8;
    } else {
      assert b[3] == ((w >> 0) & 0xFF) as bv8;
    }
  }

  // ---------------------------------------------------------------------------
  // Lowercase hexadecimal output
  // ---------------------------------------------------------------------------

  predicate IsLowerHexDigit(c: char)
  {
    '0' <= c <= '9' || 'a' <= c <= 'f'
  }

  /** The lowercase hex digit of a nibble. */
  function HexDigit(n: int): (c: char)
    requires 0 <= n < 16
    ensures IsLowerHexDigit(c)
  {
    if n < 10 then ('0' as int + n) as char else ('a' as int + n - 10) as char
  }

  /** The value of a lowercase hex digit; inverse of HexDigit. */
  function DigitValue(c: char): (n: int)
    requires IsLowerHexDigit(c)
    ensures 0 <= n < 16
  {
    if c <= '9' then c as int - '0' as int else c as int - 'a' as int + 10
  }

  /** printf("%02x", b): two digits, high nibble first. */
  function HexByte(b: bv8): (s: string)
    ensures |s| == 2 && IsLowerHexDigit(s[0]) && IsLowerHexDigit(s[1])
  {
    var n := b as int;
    [HexDigit(n / 16), HexDigit(n % 16)]
  }

  /** Hex rendering of a byte string, two digits per byte. */
  function Hex(bs: seq<bv8>): (s: string)
    ensures |s| == 2 * |bs|
    ensures forall i :: 0 <= i < |s| ==> IsLowerHexDigit(s[i])
  {
    if bs == [] then "" else HexByte(bs[0]) + Hex(bs[1..])
  }

  /** printf("%08x", w): eight digits, most significant byte first. */
  function HexWord(w: bv32): (s: string)
    ensures |s| == 8 && forall i :: 0 <= i < 8 ==> IsLowerHexDigit(s[i])
  {
    Hex(BeBytes(w))
  }

  /** The byte with a given numeric value. */
  function ByteOf(n: int): bv8
    requires 0 <= n < 256
  {
    n as bv8
  }

  lemma ByteOfValue(b: bv8)
    ensures ByteOf(b as int) == b
  {
  }

  /** Parses two lowercase hex digits back into a byte. */
  function ParseHexByte(hi: char, lo: char): bv8
    requires IsLowerHexDigit(hi) && IsLowerHexDigit(lo)
  {
    ByteOf(16 * DigitValue(hi) + DigitValue(lo))
  }

  /** Parses a lowercase hex string of even length back into bytes. */
  function ParseHex(s: string): (bs: seq<bv8>)
    requires |s| % 2 == 0
    requires forall i :: 0 <= i < |s| ==> IsLowerHexDigit(s[i])
    ensures |bs| == |s| / 2
  {
    if s == [] then [] else [ParseHexByte(s[0], s[1])] + ParseHex(s[2..])
  }

  lemma DigitValueInverse(n: int)
    requires 0 <= n < 16
    ensures DigitValue(HexDigit(n)) == n
  {
  }

  lemma ParseHexByteInverse(b: bv8)
    ensures ParseHexByte(HexByte(b)[0], HexByte(b)[1]) == b
  {
    var n := b as int;
    var s := HexByte(b);
    DigitValueInverse(n / 16);
    DigitValueInverse(n % 16);
    assert DigitValue(s[0]) == n / 16 && DigitValue(s[1]) == n % 16;
    ByteOfValue(b);
  }

  /** Hex output loses nothing: parsing it gives the bytes back. */
  lemma {:induction false} ParseHexInverse(bs: seq<bv8>)
    ensures ParseHex(Hex(bs)) == bs
  {
    if bs != [] {
      var s := Hex(bs);
      assert s[..2] == HexByte(bs[0]) && s[2..] == Hex(bs[1..]);
      ParseHexByteInverse(bs[0]);
      ParseHexInverse(bs[1..]);
    }
  }

  lemma {:induction false} HexAppend(x: seq<bv8>, y: seq<bv8>)
    ensures Hex(x + y) == Hex(x) + Hex(y)
  {
    if x != [] {
      assert (x + y)[1..] == x[1..] + y;
      HexAppend(x[1..], y);
    } else {
      assert x + y == y;
    }
  }

  lemma HexSnoc(x: seq<bv8>, b: bv8)
    ensures Hex(x + [b]) == Hex(x) + HexByte(b)
  {
    HexAppend(x, [b]);
    assert Hex([b]) == HexByte(b) + Hex([]);
  }
}
