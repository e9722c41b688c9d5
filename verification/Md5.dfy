/** The incremental MD5 of md5.c. Words live in 64-bit lanes ("unsigned long") that are masked
    only before each rotation, so a lane agrees with its RFC 1321 word in its low 32 bits only. */
module Md5 {
  import opened Bits
  import opened Rfc1321

  function Lows(a: nat, b: nat, c: nat, d: nat): Words {
    Words(Low(a), Low(b), Low(c), Low(d))
  }

  /** Dropping the carries above a lane loses nothing of the low word. */
  lemma LowLane(x: nat)
    ensures Low(x % LANE) == Low(x)
  {
    var q, r := x / LANE, x % LANE;
    DivModUnique(x, WORD, WORD * q + r / WORD, r % WORD);
  }

  lemma LowPlus(x: nat, y: nat)
    ensures Low(Low(x) + y) == Low(x + y)
  {
    var s := x % WORD + y;
    DivModUnique(x + y, WORD, x / WORD + s / WORD, s % WORD);
  }

  lemma LowAdd(x: nat, y: nat)
    ensures Low(AddLane(x, y)) == Low(Low(x) + Low(y)) == Low(x + y)
  {
    LowLane(x + y);
    LowPlus(x, y);
    LowPlus(y, Low(x));
  }

  // The four core functions, F1 and F2 in their optimized form.
  function F1(x: Lane, y: Lane, z: Lane): nat { Xor(z, And(x, Xor(y, z))) }
  function F2(x: Lane, y: Lane, z: Lane): nat { F1(z, x, y) }
  function F3(x: Lane, y: Lane, z: Lane): nat { Xor(Xor(x, y), z) }
  function F4(x: Lane, y: Lane, z: Lane): nat { Xor(y, Or(x, Not64(z))) }

  lemma LowDigit(x: nat, i: nat)
    requires i < 32
    ensures Bit(Low(x), i) == Bit(x, i)
  {
    Pow2Values();
    LowBit(32, x, i);
  }

  lemma Not32Digit(x: Word, i: nat)
    requires i < 32
    ensures Bit(Not32(x), i) == !Bit(x, i)
  {
    Pow2Values();
    NotBit(32, x, i);
  }

  lemma Not64Digit(x: Lane, i: nat)
    requires i < 32
    ensures Bit(Not64(x), i) == !Bit(x, i)
  {
    Pow2Values();
    NotBit(64, x, i);
  }

  lemma SelectBounds(x: Word, y: Word, z: Word)
    ensures F(x, y, z) < WORD && G(x, y, z) < WORD
  {
    Pow2Values();
    AndBound(32, x, y); AndBound(32, Not32(x), z);
    OrBound(32, And(x, y), And(Not32(x), z));
    AndBound(32, x, z); AndBound(32, y, Not32(z));
    OrBound(32, And(x, z), And(y, Not32(z)));
  }

  /** The optimized selection of F1 is the RFC's F on the low words. */
  lemma LowF1(x: Lane, y: Lane, z: Lane)
    ensures Low(F1(x, y, z)) == F(Low(x), Low(y), Low(z))
  {
    var l, r := Low(F1(x, y, z)), F(Low(x), Low(y), Low(z));
    forall i: nat | i < 32 ensures Bit(l, i) == Bit(r, i) {
      LowDigit(F1(x, y, z), i); LowDigit(x, i); LowDigit(y, i); LowDigit(z, i);
      XorBit(z, And(x, Xor(y, z)), i); AndBit(x, Xor(y, z), i); XorBit(y, z, i);
      OrBit(And(Low(x), Low(y)), And(Not32(Low(x)), Low(z)), i);
      AndBit(Low(x), Low(y), i); AndBit(Not32(Low(x)), Low(z), i); Not32Digit(Low(x), i);
    }
    SelectBounds(Low(x), Low(y), Low(z));
    Pow2Values();
    Extensional(32, l, r);
  }

  lemma LowF2(x: Lane, y: Lane, z: Lane)
    ensures Low(F2(x, y, z)) == G(Low(x), Low(y), Low(z))
  {
    var l, r := Low(F2(x, y, z)), G(Low(x), Low(y), Low(z));
    forall i: nat | i < 32 ensures Bit(l, i) == Bit(r, i) {
      LowDigit(F2(x, y, z), i); LowDigit(x, i); LowDigit(y, i); LowDigit(z, i);
      XorBit(y, And(z, Xor(x, y)), i); AndBit(z, Xor(x, y), i); XorBit(x, y, i);
      OrBit(And(Low(x), Low(z)), And(Low(y), Not32(Low(z))), i);
      AndBit(Low(x), Low(z), i); AndBit(Low(y), Not32(Low(z)), i); Not32Digit(Low(z), i);
    }
    SelectBounds(Low(x), Low(y), Low(z));
    Pow2Values();
    Extensional(32, l, r);
  }

  lemma LowF3(x: Lane, y: Lane, z: Lane)
    ensures Low(F3(x, y, z)) == H(Low(x), Low(y), Low(z))
  {
    var l, r := Low(F3(x, y, z)), H(Low(x), Low(y), Low(z));
    forall i: nat | i < 32 ensures Bit(l, i) == Bit(r, i) {
      LowDigit(F3(x, y, z), i); LowDigit(x, i); LowDigit(y, i); LowDigit(z, i);
      XorBit(Xor(x, y), z, i); XorBit(x, y, i);
      XorBit(Xor(Low(x), Low(y)), Low(z), i); XorBit(Low(x), Low(y), i);
    }
    Pow2Values();
    XorBound(32, Low(x), Low(y)); XorBound(32, Xor(Low(x), Low(y)), Low(z));
    Extensional(32, l, r);
  }

  lemma LowF4(x: Lane, y: Lane, z: Lane)
    ensures Low(F4(x, y, z)) == I(Low(x), Low(y), Low(z))
  {
    var l, r := Low(F4(x, y, z)), I(Low(x), Low(y), Low(z));
    forall i: nat | i < 32 ensures Bit(l, i) == Bit(r, i) {
      LowDigit(F4(x, y, z), i); LowDigit(x, i); LowDigit(y, i); LowDigit(z, i);
      XorBit(y, Or(x, Not64(z)), i); OrBit(x, Not64(z), i); Not64Digit(z, i);
      XorBit(Low(y), Or(Low(x), Not32(Low(z))), i); OrBit(Low(x), Not32(Low(z)), i); Not32Digit(Low(z), i);
    }
    Pow2Values();
    OrBound(32, Low(x), Not32(Low(z))); XorBound(32, Low(y), Or(Low(x), Not32(Low(z))));
    Extensional(32, l, r);
  }

  /** MD5STEP: add, mask to 32 bits, rotate within the wide lane, add. */
  function Step(f: nat, w: Lane, x: Lane, data: nat, s: nat): Lane
    requires 0 < s < 32
  {
    var masked := And(AddLane(w, AddLane(f, data)), 0xffffffff);
    AddLane(Or(ShlLane(masked, s), Shr(masked, 32 - s)), x)
  }

  /** A wide rotation leaves high digits behind; the low word is the 32-bit rotation. */
  lemma LowRotation(m: Word, s: nat)
    requires 0 < s < 32
    ensures Low(Or(ShlLane(m, s), Shr(m, 32 - s))) == Rotate(m, s)
  {
    var wide := Or(ShlLane(m, s), Shr(m, 32 - s));
    Pow2Values();
    ShlBound(32, m, s); Pow2Sum(32 + s, 32 - s);
    forall i: nat | i < 32 ensures Bit(Low(wide), i) == Bit(Rotate(m, s), i) {
      LowDigit(wide, i);
      OrBit(ShlLane(m, s), Shr(m, 32 - s), i);
      LowBit(64, Shl(m, s), i);
      OrBit(Low(Shl(m, s)), Shr(m, 32 - s), i);
      LowBit(32, Shl(m, s), i);
    }
    ShrBound(32, m, 32 - s);
    OrBound(32, Low(Shl(m, s)), Shr(m, 32 - s));
    Extensional(32, Low(wide), Rotate(m, s));
  }

  /** The rotation really is circular: digit i comes from digit i - s, modulo 32. */
  lemma RotateDigit(m: Word, s: nat, i: nat)
    requires 0 < s < 32 && i < 32
    ensures Bit(Rotate(m, s), i) == Bit(m, (i + 32 - s) % 32)
  {
    hide Or, Shl, Shr, Low, Pow2, Bit;
    OrBit(Low(Shl(m, s)), Shr(m, 32 - s), i);
    LowDigit(Shl(m, s), i);
    ShlBit(m, s, i);
    ShrBit(m, 32 - s, i);
    Pow2Values();
    if i >= s { HighBitsZero(32, m, 32 - s + i); }
  }

  lemma StepDefinition(f: nat, w: Lane, x: Lane, data: nat, s: nat, masked: nat)
    requires 0 < s < 32 && masked == And(AddLane(w, AddLane(f, data)), 0xffffffff)
    ensures Step(f, w, x, data, s) == AddLane(Or(ShlLane(masked, s), Shr(masked, 32 - s)), x)
  {}

  /** One MD5STEP on lanes is one RFC operation on the low words. */
  lemma LowStep(f: nat, w: Lane, x: Lane, data: nat, s: nat, v: Word, t: Word)
    requires 0 < s < 32 && data == v + t
    ensures Low(Step(f, w, x, data, s)) == Operate(Low(f), Low(w), Low(x), v, t, s)
  {
    hide Low, Rotate, Or, Shl, ShlLane, Shr, And, AddLane, Step;
    var masked := And(AddLane(w, AddLane(f, data)), 0xffffffff);
    StepDefinition(f, w, x, data, s, masked);
    And32(AddLane(w, AddLane(f, data)));
    LowSum(f, w, data);
    LowRotation(masked, s);
    LowAdd(Or(ShlLane(masked, s), Shr(masked, 32 - s)), x);
  }

  lemma And32(x: nat)
    ensures And(x, 0xffffffff) == Low(x)
  {
    Pow2Values();
    AndMask(32, x);
  }

  lemma LowSum(f: nat, w: nat, data: nat)
    ensures Low(AddLane(w, AddLane(f, data))) == Low(Low(w) + Low(f) + data)
  {
    hide Low, AddLane;
    LowAdd(w, AddLane(f, data));
    LowAdd(f, data);
    LowPlus(f + data, Low(w));
    LowPlus(f, data + Low(w));
    assert f + data + Low(w) == f + (data + Low(w));
  }

  // MD5STEP with each of the four functions, as operation i on the message words ws.

  method Step1(ghost i: nat, ghost ws: seq<Word>, w: Lane, x: Lane, y: Lane, z: Lane, data: nat, s: nat)
    returns (r: Lane)
    requires i < 16 && |ws| == 16 && data == ws[K(i)] + T(i) && s == S(i)
    ensures Low(r) == Operate(Auxiliary(i, Low(x), Low(y), Low(z)), Low(w), Low(x), ws[K(i)], T(i), S(i))
  {
    r := Step(F1(x, y, z), w, x, data, s);
    LowF1(x, y, z);
    LowStep(F1(x, y, z), w, x, data, s, ws[K(i)], T(i));
  }

  method Step2(ghost i: nat, ghost ws: seq<Word>, w: Lane, x: Lane, y: Lane, z: Lane, data: nat, s: nat)
    returns (r: Lane)
    requires 16 <= i < 32 && |ws| == 16 && data == ws[K(i)] + T(i) && s == S(i)
    ensures Low(r) == Operate(Auxiliary(i, Low(x), Low(y), Low(z)), Low(w), Low(x), ws[K(i)], T(i), S(i))
  {
    r := Step(F2(x, y, z), w, x, data, s);
    LowF2(x, y, z);
    LowStep(F2(x, y, z), w, x, data, s, ws[K(i)], T(i));
  }

  method Step3(ghost i: nat, ghost ws: seq<Word>, w: Lane, x: Lane, y: Lane, z: Lane, data: nat, s: nat)
    returns (r: Lane)
    requires 32 <= i < 48 && |ws| == 16 && data == ws[K(i)] + T(i) && s == S(i)
    ensures Low(r) == Operate(Auxiliary(i, Low(x), Low(y), Low(z)), Low(w), Low(x), ws[K(i)], T(i), S(i))
  {
    r := Step(F3(x, y, z), w, x, data, s);
    LowF3(x, y, z);
    LowStep(F3(x, y, z), w, x, data, s, ws[K(i)], T(i));
  }

  method Step4(ghost i: nat, ghost ws: seq<Word>, w: Lane, x: Lane, y: Lane, z: Lane, data: nat, s: nat)
    returns (r: Lane)
    requires 48 <= i < 64 && |ws| == 16 && data == ws[K(i)] + T(i) && s == S(i)
    ensures Low(r) == Operate(Auxiliary(i, Low(x), Low(y), Low(z)), Low(w), Low(x), ws[K(i)], T(i), S(i))
  {
    r := Step(F4(x, y, z), w, x, data, s);
    LowF4(x, y, z);
    LowStep(F4(x, y, z), w, x, data, s, ws[K(i)], T(i));
  }

  /** Operation i uses message word k, rotation s and table entry t. */
  ghost predicate Uses(i: nat, k: nat, s: nat, t: Word) {
    K(i) == k && S(i) == s && T(i) == t
  }

  lemma Schedule1()
    ensures Uses(0, 0, 7, 0xd76aa478) && Uses(1, 1, 12, 0xe8c7b756) && Uses(2, 2, 17, 0x242070db) && Uses(3, 3, 22, 0xc1bdceee)
    ensures Uses(4, 4, 7, 0xf57c0faf) && Uses(5, 5, 12, 0x4787c62a) && Uses(6, 6, 17, 0xa8304613) && Uses(7, 7, 22, 0xfd469501)
    ensures Uses(8, 8, 7, 0x698098d8) && Uses(9, 9, 12, 0x8b44f7af) && Uses(10, 10, 17, 0xffff5bb1) && Uses(11, 11, 22, 0x895cd7be)
    ensures Uses(12, 12, 7, 0x6b901122) && Uses(13, 13, 12, 0xfd987193) && Uses(14, 14, 17, 0xa679438e) && Uses(15, 15, 22, 0x49b40821)
  {}

  lemma Schedule2()
    ensures Uses(16, 1, 5, 0xf61e2562) && Uses(17, 6, 9, 0xc040b340) && Uses(18, 11, 14, 0x265e5a51) && Uses(19, 0, 20, 0xe9b6c7aa)
    ensures Uses(20, 5, 5, 0xd62f105d) && Uses(21, 10, 9, 0x02441453) && Uses(22, 15, 14, 0xd8a1e681) && Uses(23, 4, 20, 0xe7d3fbc8)
    ensures Uses(24, 9, 5, 0x21e1cde6) && Uses(25, 14, 9, 0xc33707d6) && Uses(26, 3, 14, 0xf4d50d87) && Uses(27, 8, 20, 0x455a14ed)
    ensures Uses(28, 13, 5, 0xa9e3e905) && Uses(29, 2, 9, 0xfcefa3f8) && Uses(30, 7, 14, 0x676f02d9) && Uses(31, 12, 20, 0x8d2a4c8a)
  {}

  lemma Schedule3()
    ensures Uses(32, 5, 4, 0xfffa3942) && Uses(33, 8, 11, 0x8771f681) && Uses(34, 11, 16, 0x6d9d6122) && Uses(35, 14, 23, 0xfde5380c)
    ensures Uses(36, 1, 4, 0xa4beea44) && Uses(37, 4, 11, 0x4bdecfa9) && Uses(38, 7, 16, 0xf6bb4b60) && Uses(39, 10, 23, 0xbebfbc70)
    ensures Uses(40, 13, 4, 0x289b7ec6) && Uses(41, 0, 11, 0xeaa127fa) && Uses(42, 3, 16, 0xd4ef3085) && Uses(43, 6, 23, 0x04881d05)
    ensures Uses(44, 9, 4, 0xd9d4d039) && Uses(45, 12, 11, 0xe6db99e5) && Uses(46, 15, 16, 0x1fa27cf8) && Uses(47, 2, 23, 0xc4ac5665)
  {}

  lemma Schedule4()
    ensures Uses(48, 0, 6, 0xf4292244) && Uses(49, 7, 10, 0x432aff97) && Uses(50, 14, 15, 0xab9423a7) && Uses(51, 5, 21, 0xfc93a039)
    ensures Uses(52, 12, 6, 0x655b59c3) && Uses(53, 3, 10, 0x8f0ccc92) && Uses(54, 10, 15, 0xffeff47d) && Uses(55, 1, 21, 0x85845dd1)
    ensures Uses(56, 8, 6, 0x6fa87e4f) && Uses(57, 15, 10, 0xfe2ce6e0) && Uses(58, 6, 15, 0xa3014314) && Uses(59, 13, 21, 0x4e0811a1)
    ensures Uses(60, 4, 6, 0xf7537e82) && Uses(61, 11, 10, 0xbd3af235) && Uses(62, 2, 15, 0x2ad7d2bb) && Uses(63, 9, 21, 0xeb86d391)
  {}

  /** The effect of four steps in the order a, d, c, b. */
  ghost predicate FourSteps(n: nat, v: Words, w: Words, x: seq<Word>)
    requires |x| == 16
  {
    && w.a == Operate(Auxiliary(n, v.b, v.c, v.d), v.a, v.b, x[K(n)], T(n), S(n))
    && w.d == Operate(Auxiliary(n + 1, w.a, v.b, v.c), v.d, w.a, x[K(n + 1)], T(n + 1), S(n + 1))
    && w.c == Operate(Auxiliary(n + 2, w.d, w.a, v.b), v.c, w.d, x[K(n + 2)], T(n + 2), S(n + 2))
    && w.b == Operate(Auxiliary(n + 3, w.c, w.d, w.a), v.b, w.c, x[K(n + 3)], T(n + 3), S(n + 3))
  }

  lemma QuadStep(n: nat, start: Words, v: Words, w: Words, x: seq<Word>)
    requires |x| == 16 && v == Operations(n, start, x)
    requires FourSteps(n, v, w, x)
    ensures w == Operations(n + 4, start, x)
  {
    hide Operate, Auxiliary, T, S, K, Operations;
    Quad(n, start, x);
  }

  /** getu32: four bytes, least significant first. */
  function GetWord(b: seq<Byte>, i: nat): nat
    requires i + 4 <= |b|
  {
    Or(Shl(Or(Shl(Or(Shl(b[i + 3], 8), b[i + 2]), 8), b[i + 1]), 8), b[i])
  }

  lemma JoinByte(x: nat, b: Byte)
    ensures Or(Shl(x, 8), b) == 0x100 * x + b
  {
    Pow2Values();
    ShlIsProduct(x, 8);
    OrDisjoint(8, x, b);
  }

  lemma GetWordValue(b: seq<Byte>, i: nat)
    requires i + 4 <= |b|
    ensures GetWord(b, i) == WordAt(b, i)
  {
    hide Or, Shl;
    JoinByte(b[i + 3], b[i + 2]);
    var x := Or(Shl(b[i + 3], 8), b[i + 2]);
    JoinByte(x, b[i + 1]);
    JoinByte(Or(Shl(x, 8), b[i + 1]), b[i]);
  }

  method LoadWords(raw: array<Byte>) returns (inn: array<nat>)
    requires raw.Length == 64
    ensures fresh(inn) && inn.Length == 16
    ensures forall k :: 0 <= k < 16 ==> inn[k] == Decode(raw[..])[k]
  {
    inn := new nat[16];
    ghost var ws := Decode(raw[..]);
    for i := 0 to 16
      invariant forall k :: 0 <= k < i ==> inn[k] == ws[k]
    {
      inn[i] := GetWord(raw[..], 4 * i);
      GetWordValue(raw[..], 4 * i);
    }
  }

  method Round1(ghost start: Words, ghost ws: seq<Word>, inn: array<nat>, a0: Lane, b0: Lane, c0: Lane, d0: Lane)
    returns (a: Lane, b: Lane, c: Lane, d: Lane)
    requires |ws| == 16 && inn.Length == 16 && forall k :: 0 <= k < 16 ==> inn[k] == ws[k]
    requires Lows(a0, b0, c0, d0) == Operations(0, start, ws)
    ensures Lows(a, b, c, d) == Operations(16, start, ws)
  {
    Schedule1();
    hide Operate, Auxiliary, Operations, Low, K, S, T;
    a, b, c, d := a0, b0, c0, d0;
    ghost var v := Lows(a, b, c, d);
    a := Step1(0, ws, a, b, c, d, inn[0] + 0xd76aa478, 7);
    d := Step1(1, ws, d, a, b, c, inn[1] + 0xe8c7b756, 12);
    c := Step1(2, ws, c, d, a, b, inn[2] + 0x242070db, 17);
    b := Step1(3, ws, b, c, d, a, inn[3] + 0xc1bdceee, 22);
    QuadStep(0, start, v, Lows(a, b, c, d), ws);
    v := Lows(a, b, c, d);
    a := Step1(4, ws, a, b, c, d, inn[4] + 0xf57c0faf, 7);
    d := Step1(5, ws, d, a, b, c, inn[5] + 0x4787c62a, 12);
    c := Step1(6, ws, c, d, a, b, inn[6] + 0xa8304613, 17);
    b := Step1(7, ws, b, c, d, a, inn[7] + 0xfd469501, 22);
    QuadStep(4, start, v, Lows(a, b, c, d), ws);
    v := Lows(a, b, c, d);
    a := Step1(8, ws, a, b, c, d, inn[8] + 0x698098d8, 7);
    d := Step1(9, ws, d, a, b, c, inn[9] + 0x8b44f7af, 12);
    c := Step1(10, ws, c, d, a, b, inn[10] + 0xffff5bb1, 17);
    b := Step1(11, ws, b, c, d, a, inn[11] + 0x895cd7be, 22);
    QuadStep(8, start, v, Lows(a, b, c, d), ws);
    v := Lows(a, b, c, d);
    a := Step1(12, ws, a, b, c, d, inn[12] + 0x6b901122, 7);
    d := Step1(13, ws, d, a, b, c, inn[13] + 0xfd987193, 12);
    c := Step1(14, ws, c, d, a, b, inn[14] + 0xa679438e, 17);
    b := Step1(15, ws, b, c, d, a, inn[15] + 0x49b40821, 22);
    QuadStep(12, start, v, Lows(a, b, c, d), ws);
    v := Lows(a, b, c, d);
  }

  method Round2(ghost start: Words, ghost ws: seq<Word>, inn: array<nat>, a0: Lane, b0: Lane, c0: Lane, d0: Lane)
    returns (a: Lane, b: Lane, c: Lane, d: Lane)
    requires |ws| == 16 && inn.Length == 16 && forall k :: 0 <= k < 16 ==> inn[k] == ws[k]
    requires Lows(a0, b0, c0, d0) == Operations(16, start, ws)
    ensures Lows(a, b, c, d) == Operations(32, start, ws)
  {
    Schedule2();
    hide Operate, Auxiliary, Operations, Low, K, S, T;
    a, b, c, d := a0, b0, c0, d0;
    ghost var v := Lows(a, b, c, d);
    a := Step2(16, ws, a, b, c, d, inn[1] + 0xf61e2562, 5);
    d := Step2(17, ws, d, a, b, c, inn[6] + 0xc040b340, 9);
    c := Step2(18, ws, c, d, a, b, inn[11] + 0x265e5a51, 14);
    b := Step2(19, ws, b, c, d, a, inn[0] + 0xe9b6c7aa, 20);
    QuadStep(16, start, v, Lows(a, b, c, d), ws);
    v := Lows(a, b, c, d);
    a := Step2(20, ws, a, b, c, d, inn[5] + 0xd62f105d, 5);
    d := Step2(21, ws, d, a, b, c, inn[10] + 0x02441453, 9);
    c := Step2(22, ws, c, d, a, b, inn[15] + 0xd8a1e681, 14);
    b := Step2(23, ws, b, c, d, a, inn[4] + 0xe7d3fbc8, 20);
    QuadStep(20, start, v, Lows(a, b, c, d), ws);
    v := Lows(a, b, c, d);
    a := Step2(24, ws, a, b, c, d, inn[9] + 0x21e1cde6, 5);
    d := Step2(25, ws, d, a, b, c, inn[14] + 0xc33707d6, 9);
    c := Step2(26, ws, c, d, a, b, inn[3] + 0xf4d50d87, 14);
    b := Step2(27, ws, b, c, d, a, inn[8] + 0x455a14ed, 20);
    QuadStep(24, start, v, Lows(a, b, c, d), ws);
    v := Lows(a, b, c, d);
    a := Step2(28, ws, a, b, c, d, inn[13] + 0xa9e3e905, 5);
    d := Step2(29, ws, d, a, b, c, inn[2] + 0xfcefa3f8, 9);
    c := Step2(30, ws, c, d, a, b, inn[7] + 0x676f02d9, 14);
    b := Step2(31, ws, b, c, d, a, inn[12] + 0x8d2a4c8a, 20);
    QuadStep(28, start, v, Lows(a, b, c, d), ws);
    v := Lows(a, b, c, d);
  }

  method Round3(ghost start: Words, ghost ws: seq<Word>, inn: array<nat>, a0: Lane, b0: Lane, c0: Lane, d0: Lane)
    returns (a: Lane, b: Lane, c: Lane, d: Lane)
    requires |ws| == 16 && inn.Length == 16 && forall k :: 0 <= k < 16 ==> inn[k] == ws[k]
    requires Lows(a0, b0, c0, d0) == Operations(32, start, ws)
    ensures Lows(a, b, c, d) == Operations(48, start, ws)
  {
    Schedule3();
    hide Operate, Auxiliary, Operations, Low, K, S, T;
    a, b, c, d := a0, b0, c0, d0;
    ghost var v := Lows(a, b, c, d);
    a := Step3(32, ws, a, b, c, d, inn[5] + 0xfffa3942, 4);
    d := Step3(33, ws, d, a, b, c, inn[8] + 0x8771f681, 11);
    c := Step3(34, ws, c, d, a, b, inn[11] + 0x6d9d6122, 16);
    b := Step3(35, ws, b, c, d, a, inn[14] + 0xfde5380c, 23);
    QuadStep(32, start, v, Lows(a, b, c, d), ws);
    v := Lows(a, b, c, d);
    a := Step3(36, ws, a, b, c, d, inn[1] + 0xa4beea44, 4);
    d := Step3(37, ws, d, a, b, c, inn[4] + 0x4bdecfa9, 11);
    c := Step3(38, ws, c, d, a, b, inn[7] + 0xf6bb4b60, 16);
    b := Step3(39, ws, b, c, d, a, inn[10] + 0xbebfbc70, 23);
    QuadStep(36, start, v, Lows(a, b, c, d), ws);
    v := Lows(a, b, c, d);
    a := Step3(40, ws, a, b, c, d, inn[13] + 0x289b7ec6, 4);
    d := Step3(41, ws, d, a, b, c, inn[0] + 0xeaa127fa, 11);
    c := Step3(42, ws, c, d, a, b, inn[3] + 0xd4ef3085, 16);
    b := Step3(43, ws, b, c, d, a, inn[6] + 0x04881d05, 23);
    QuadStep(40, start, v, Lows(a, b, c, d), ws);
    v := Lows(a, b, c, d);
    a := Step3(44, ws, a, b, c, d, inn[9] + 0xd9d4d039, 4);
    d := Step3(45, ws, d, a, b, c, inn[12] + 0xe6db99e5, 11);
    c := Step3(46, ws, c, d, a, b, inn[15] + 0x1fa27cf8, 16);
    b := Step3(47, ws, b, c, d, a, inn[2] + 0xc4ac5665, 23);
    QuadStep(44, start, v, Lows(a, b, c, d), ws);
    v := Lows(a, b, c, d);
  }

  method Round4(ghost start: Words, ghost ws: seq<Word>, inn: array<nat>, a0: Lane, b0: Lane, c0: Lane, d0: Lane)
    returns (a: Lane, b: Lane, c: Lane, d: Lane)
    requires |ws| == 16 && inn.Length == 16 && forall k :: 0 <= k < 16 ==> inn[k] == ws[k]
    requires Lows(a0, b0, c0, d0) == Operations(48, start, ws)
    ensures Lows(a, b, c, d) == Operations(64, start, ws)
  {
    Schedule4();
    hide Operate, Auxiliary, Operations, Low, K, S, T;
    a, b, c, d := a0, b0, c0, d0;
    ghost var v := Lows(a, b, c, d);
    a := Step4(48, ws, a, b, c, d, inn[0] + 0xf4292244, 6);
    d := Step4(49, ws, d, a, b, c, inn[7] + 0x432aff97, 10);
    c := Step4(50, ws, c, d, a, b, inn[14] + 0xab9423a7, 15);
    b := Step4(51, ws, b, c, d, a, inn[5] + 0xfc93a039, 21);
    QuadStep(48, start, v, Lows(a, b, c, d), ws);
    v := Lows(a, b, c, d);
    a := Step4(52, ws, a, b, c, d, inn[12] + 0x655b59c3, 6);
    d := Step4(53, ws, d, a, b, c, inn[3] + 0x8f0ccc92, 10);
    c := Step4(54, ws, c, d, a, b, inn[10] + 0xffeff47d, 15);
    b := Step4(55, ws, b, c, d, a, inn[1] + 0x85845dd1, 21);
    QuadStep(52, start, v, Lows(a, b, c, d), ws);
    v := Lows(a, b, c, d);
    a := Step4(56, ws, a, b, c, d, inn[8] + 0x6fa87e4f, 6);
    d := Step4(57, ws, d, a, b, c, inn[15] + 0xfe2ce6e0, 10);
    c := Step4(58, ws, c, d, a, b, inn[6] + 0xa3014314, 15);
    b := Step4(59, ws, b, c, d, a, inn[13] + 0x4e0811a1, 21);
    QuadStep(56, start, v, Lows(a, b, c, d), ws);
    v := Lows(a, b, c, d);
    a := Step4(60, ws, a, b, c, d, inn[4] + 0xf7537e82, 6);
    d := Step4(61, ws, d, a, b, c, inn[11] + 0xbd3af235, 10);
    c := Step4(62, ws, c, d, a, b, inn[2] + 0x2ad7d2bb, 15);
    b := Step4(63, ws, b, c, d, a, inn[9] + 0xeb86d391, 21);
    QuadStep(60, start, v, Lows(a, b, c, d), ws);
    v := Lows(a, b, c, d);
  }

  method Transform(buf: array<Lane>, raw: array<Byte>)
    requires buf.Length == 4 && raw.Length == 64
    modifies buf
    ensures Lows(buf[0], buf[1], buf[2], buf[3])
         == Compress(old(Lows(buf[0], buf[1], buf[2], buf[3])), raw[..])
  {
    hide Operations, Decode, Low, AddLane, Plus;
    var inn := LoadWords(raw);
    ghost var ws := Decode(raw[..]);
    var a, b, c, d := buf[0], buf[1], buf[2], buf[3];
    ghost var start := Lows(a, b, c, d);
    NoOperations(start, ws);
    a, b, c, d := Round1(start, ws, inn, a, b, c, d);
    a, b, c, d := Round2(start, ws, inn, a, b, c, d);
    a, b, c, d := Round3(start, ws, inn, a, b, c, d);
    a, b, c, d := Round4(start, ws, inn, a, b, c, d);

    buf[0] := AddLane(buf[0], a);
    buf[1] := AddLane(buf[1], b);
    buf[2] := AddLane(buf[2], c);
    buf[3] := AddLane(buf[3], d);
    LowsPlus(old(buf[0]), old(buf[1]), old(buf[2]), old(buf[3]), a, b, c, d);
  }

  lemma NoOperations(w: Words, x: seq<Word>)
    requires |x| == 16
    ensures Operations(0, w, x) == w
  {}

  lemma LowsPlus(a: Lane, b: Lane, c: Lane, d: Lane, a': Lane, b': Lane, c': Lane, d': Lane)
    ensures Lows(AddLane(a, a'), AddLane(b, b'), AddLane(c, c'), AddLane(d, d'))
         == Plus(Lows(a, b, c, d), Lows(a', b', c', d'))
  {
    hide Low, AddLane;
    LowAdd(a, a'); LowAdd(b, b'); LowAdd(c, c'); LowAdd(d, d');
  }
}
