/** The message digest of RFC 1321, sections 3.1 to 3.5, on 32-bit words. */
module Rfc1321 {
  import opened Bits

  datatype Words = Words(a: Word, b: Word, c: Word, d: Word)

  function F(x: Word, y: Word, z: Word): nat { Or(And(x, y), And(Not32(x), z)) }
  function G(x: Word, y: Word, z: Word): nat { Or(And(x, z), And(y, Not32(z))) }
  function H(x: Word, y: Word, z: Word): nat { Xor(Xor(x, y), z) }
  function I(x: Word, y: Word, z: Word): nat { Xor(y, Or(x, Not32(z))) }

  /** The auxiliary function of operation i; each round of 16 operations has its own. */
  function Auxiliary(i: nat, x: Word, y: Word, z: Word): nat {
    if i < 16 then F(x, y, z)
    else if i < 32 then G(x, y, z)
    else if i < 48 then H(x, y, z)
    else I(x, y, z)
  }

  /** Section 3.4, digit by digit: "if X then Y else Z" in the first round, "if Z then X else Y" in
      the second, the parity in the third, and in the fourth Y against "X or not Z". */
  lemma AuxiliaryDigit(i: nat, x: Word, y: Word, z: Word, j: nat)
    requires j < 32
    ensures i < 16 ==> Bit(Auxiliary(i, x, y, z), j) == if Bit(x, j) then Bit(y, j) else Bit(z, j)
    ensures 16 <= i < 32 ==> Bit(Auxiliary(i, x, y, z), j) == if Bit(z, j) then Bit(x, j) else Bit(y, j)
    ensures 32 <= i < 48 ==> (Bit(Auxiliary(i, x, y, z), j) <==> (Bit(x, j) <==> (Bit(y, j) <==> Bit(z, j))))
    ensures 48 <= i ==> Bit(Auxiliary(i, x, y, z), j) == (Bit(y, j) != (Bit(x, j) || !Bit(z, j)))
  {
    Pow2Values();
    NotBit(32, x, j);
    NotBit(32, z, j);
    hide Bit, And, Or, Xor, Pow2;
    AndBit(x, y, j);
    AndBit(Not32(x), z, j);
    OrBit(And(x, y), And(Not32(x), z), j);
    AndBit(x, z, j);
    AndBit(y, Not32(z), j);
    OrBit(And(x, z), And(y, Not32(z)), j);
    XorBit(x, y, j);
    XorBit(Xor(x, y), z, j);
    OrBit(x, Not32(z), j);
    XorBit(y, Or(x, Not32(z)), j);
  }

  /** The index of the message word that operation i uses. */
  function K(i: nat): (k: nat)
    ensures k < 16
  {
    if i < 16 then i
    else if i < 32 then (5 * i + 1) % 16
    else if i < 48 then (3 * i + 5) % 16
    else (7 * i) % 16
  }

  /** The rotation of operation i. */
  function S(i: nat): (s: nat)
    ensures 0 < s < 32
  {
    match (i / 16, i % 4)
    case (0, 0) => 7
    case (0, 1) => 12
    case (0, 2) => 17
    case (0, 3) => 22
    case (1, 0) => 5
    case (1, 1) => 9
    case (1, 2) => 14
    case (1, 3) => 20
    case (2, 0) => 4
    case (2, 1) => 11
    case (2, 2) => 16
    case (2, 3) => 23
    case (3, 0) => 6
    case (3, 1) => 10
    case (3, 2) => 15
    case (3, 3) => 21
    case _ => 1
  }

  /** The sine table of section 3.4, four operations to a row. */
  function T(i: nat): Word {
    var j := i % 4;
    match i / 4
    case 0 => Pick(j, 0xd76aa478, 0xe8c7b756, 0x242070db, 0xc1bdceee)
    case 1 => Pick(j, 0xf57c0faf, 0x4787c62a, 0xa8304613, 0xfd469501)
    case 2 => Pick(j, 0x698098d8, 0x8b44f7af, 0xffff5bb1, 0x895cd7be)
    case 3 => Pick(j, 0x6b901122, 0xfd987193, 0xa679438e, 0x49b40821)
    case 4 => Pick(j, 0xf61e2562, 0xc040b340, 0x265e5a51, 0xe9b6c7aa)
    case 5 => Pick(j, 0xd62f105d, 0x02441453, 0xd8a1e681, 0xe7d3fbc8)
    case 6 => Pick(j, 0x21e1cde6, 0xc33707d6, 0xf4d50d87, 0x455a14ed)
    case 7 => Pick(j, 0xa9e3e905, 0xfcefa3f8, 0x676f02d9, 0x8d2a4c8a)
    case 8 => Pick(j, 0xfffa3942, 0x8771f681, 0x6d9d6122, 0xfde5380c)
    case 9 => Pick(j, 0xa4beea44, 0x4bdecfa9, 0xf6bb4b60, 0xbebfbc70)
    case 10 => Pick(j, 0x289b7ec6, 0xeaa127fa, 0xd4ef3085, 0x04881d05)
    case 11 => Pick(j, 0xd9d4d039, 0xe6db99e5, 0x1fa27cf8, 0xc4ac5665)
    case 12 => Pick(j, 0xf4292244, 0x432aff97, 0xab9423a7, 0xfc93a039)
    case 13 => Pick(j, 0x655b59c3, 0x8f0ccc92, 0xffeff47d, 0x85845dd1)
    case 14 => Pick(j, 0x6fa87e4f, 0xfe2ce6e0, 0xa3014314, 0x4e0811a1)
    case 15 => Pick(j, 0xf7537e82, 0xbd3af235, 0x2ad7d2bb, 0xeb86d391)
    case _ => 0
  }

  function Pick(j: nat, a: Word, b: Word, c: Word, d: Word): Word {
    if j == 0 then a else if j == 1 then b else if j == 2 then c else d
  }

  /** Circular left shift. */
  function Rotate(x: Word, s: nat): nat
    requires 0 < s < 32
  {
    Or(Low(Shl(x, s)), Shr(x, 32 - s))
  }

  /** b + ((a + f + x + t) <<< s), all additions modulo 2^32. */
  function Operate(f: nat, a: Word, b: Word, x: Word, t: Word, s: nat): Word
    requires 0 < s < 32
  {
    Low(b + Rotate(Low(a + f + x + t), s))
  }

  /** Operation i, with the registers renamed so that the next one again updates a. */
  function Operation(i: nat, w: Words, x: seq<Word>): Words
    requires |x| == 16
  {
    Words(w.d, Operate(Auxiliary(i, w.b, w.c, w.d), w.a, w.b, x[K(i)], T(i), S(i)), w.b, w.c)
  }

  function Operations(n: nat, w: Words, x: seq<Word>): Words
    requires |x| == 16
  {
    if n == 0 then w else Operation(n - 1, Operations(n - 1, w, x), x)
  }

  /** Four operations bring every register back to its own name. */
  lemma Quad(n: nat, w: Words, x: seq<Word>)
    requires |x| == 16
    ensures Operations(n + 4, w, x)
         == Operation(n + 3, Operation(n + 2, Operation(n + 1, Operation(n, Operations(n, w, x), x), x), x), x)
  {
    assert Operations(n + 2, w, x) == Operation(n + 1, Operations(n + 1, w, x), x);
  }

  function WordAt(b: seq<Byte>, i: nat): Word
    requires i + 4 <= |b|
  {
    var b0: nat, b1: nat, b2: nat, b3: nat := b[i], b[i + 1], b[i + 2], b[i + 3];
    b0 + 0x100 * b1 + 0x1_0000 * b2 + 0x100_0000 * b3
  }

  function Decode(block: seq<Byte>): (x: seq<Word>)
    requires |block| == 64
    ensures |x| == 16
  {
    seq(16, i requires 0 <= i < 16 => WordAt(block, 4 * i))
  }

  function EncodeWord(w: Word): (b: seq<Byte>)
    ensures |b| == 4
  {
    [w % 0x100, w / 0x100 % 0x100, w / 0x1_0000 % 0x100, w / 0x100_0000]
  }

  function Plus(v: Words, w: Words): Words {
    Words(Low(v.a + w.a), Low(v.b + w.b), Low(v.c + w.c), Low(v.d + w.d))
  }

  function Compress(h: Words, block: seq<Byte>): Words
    requires |block| == 64
  {
    Plus(h, Operations(64, h, Decode(block)))
  }

  const INITIAL: Words := Words(0x67452301, 0xefcdab89, 0x98badcfe, 0x10325476)

  /** The chaining value after all 64-byte blocks of m, for m of a whole number of blocks. */
  function Blocks(m: seq<Byte>): Words {
    if |m| < 64 then INITIAL else Compress(Blocks(m[..|m| - 64]), m[|m| - 64..])
  }

  /** Blocks are taken in from the front, each on top of the ones before it. */
  lemma BlocksInOrder(m: seq<Byte>, block: seq<Byte>)
    requires |block| == 64
    ensures Blocks(m + block) == Compress(Blocks(m), block)
  {
    var b := m + block;
    assert b[..|b| - 64] == m && b[|b| - 64..] == block;
    hide Compress;
  }

  function Zeros(n: nat): (z: seq<Byte>)
    ensures |z| == n
  {
    seq(n, _ => 0)
  }

  /** The number of zero bytes after the mark byte, so that 8 bytes are left in the last block. */
  function PadLength(n: nat): nat {
    if n % 64 < 56 then 55 - n % 64 else 119 - n % 64
  }

  /** The mark byte, the zero bytes and the length in bits, low word first. */
  function Padding(n: nat): seq<Byte> {
    var bits := 8 * n;
    [0x80] + Zeros(PadLength(n)) + EncodeWord(Low(bits)) + EncodeWord(Low(bits / WORD))
  }

  function Pad(m: seq<Byte>): seq<Byte> {
    m + Padding(|m|)
  }

  /** Padding extends the message by 9 to 72 bytes, to a whole number of blocks. */
  lemma PadAligned(m: seq<Byte>)
    ensures m <= Pad(m) && |m| + 9 <= |Pad(m)| <= |m| + 72
    ensures |Pad(m)| % 64 == 0
  {
    var n := |m|;
    DivModUnique(|Pad(m)|, 64, n / 64 + if n % 64 < 56 then 1 else 2, 0);
  }

  /** The number that eight bytes spell, low byte first. */
  function LittleEndian(b: seq<Byte>): nat
    requires |b| == 8
  {
    var low: nat, high: nat := WordAt(b, 0), WordAt(b, 4);
    low + WORD * high
  }

  lemma WordAtEncoded(w: Word)
    ensures WordAt(EncodeWord(w), 0) == w
  {
    assert w / 0x100 / 0x100 == w / 0x1_0000 && w / 0x1_0000 / 0x100 == w / 0x100_0000;
  }

  /** Behind the message come the byte 0x80, zeros, and the length in bits modulo 2^64. */
  lemma PadLayout(m: seq<Byte>)
    ensures Pad(m)[..|m|] == m && Pad(m)[|m|] == 0x80
    ensures forall i | |m| < i < |Pad(m)| - 8 :: Pad(m)[i] == 0
    ensures LittleEndian(Pad(m)[|Pad(m)| - 8..]) == 8 * |m| % LANE
  {
    var n := |m|;
    var bits := 8 * n;
    var low, high := EncodeWord(Low(bits)), EncodeWord(Low(bits / WORD));
    hide EncodeWord;
    var front := m + [0x80] + Zeros(PadLength(n));
    assert Pad(m) == front + (low + high);
    var p := Pad(m);
    assert p[..n] == front[..n] == m && p[n] == front[n];
    forall i | n < i < |p| - 8 ensures p[i] == 0 {
      assert p[i] == front[i];
    }
    var tail := p[|p| - 8..];
    assert tail == low + high;
    WordAtEncoded(Low(bits));
    WordAtEncoded(Low(bits / WORD));
    assert WordAt(tail, 0) == WordAt(low, 0) && WordAt(tail, 4) == WordAt(high, 0);
    LaneOfWords(bits);
  }

  lemma LaneOfWords(n: nat)
    ensures Low(n) + WORD * Low(n / WORD) == n % LANE
  {
    var q := n / WORD;
    DivModUnique(n, LANE, q / WORD, n % WORD + WORD * (q % WORD));
  }

  function Encode(w: Words): (b: seq<Byte>)
    ensures |b| == 16
  {
    EncodeWord(w.a) + EncodeWord(w.b) + EncodeWord(w.c) + EncodeWord(w.d)
  }

  function Digest(m: seq<Byte>): (d: seq<Byte>)
    ensures |d| == 16
  {
    Encode(Blocks(Pad(m)))
  }

  const HEX := "0123456789abcdef"

  function Hex(d: seq<Byte>): (h: string)
    ensures |h| == 2 * |d|
  {
    if d == [] then "" else Hex(d[..|d| - 1]) + [HEX[d[|d| - 1] / 16], HEX[d[|d| - 1] % 16]]
  }
}
