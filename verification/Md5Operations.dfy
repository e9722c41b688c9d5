/** The 64 operations of RFC 1321, section 3.4, on 32-bit vectors: each does to the vectors what its
    namesake of Rfc1321 does to the numbers they stand for. */
module Md5Operations {
  import opened Bits
  import opened MachineWords
  import opened Rfc1321

  // --- the auxiliary functions and the operation, on vectors ---

  function F32(x: bv32, y: bv32, z: bv32): bv32 { Or32(And32(x, y), And32(Flip32(x), z)) }
  function G32(x: bv32, y: bv32, z: bv32): bv32 { Or32(And32(x, z), And32(y, Flip32(z))) }
  function H32(x: bv32, y: bv32, z: bv32): bv32 { Xor32(Xor32(x, y), z) }
  function I32(x: bv32, y: bv32, z: bv32): bv32 { Xor32(y, Or32(x, Flip32(z))) }

  function Mixed(f: bv32, a: bv32, b: bv32, m: bv32, t: bv32, s: bv32): bv32
    requires 0 < s < 32
  {
    Sum32(b, Turn32(Sum32(Sum32(Sum32(a, f), m), t), s))
  }

  /** A vector that stands for the number n. */
  predicate Spells(x: bv32, n: nat) {
    n == 0x100_0000 * (Byte3(x) as nat) + 0x1_0000 * (Byte2(x) as nat) + 0x100 * (Byte1(x) as nat) + LowByte(x) as nat
  }

  lemma NumSpelled(x: bv32, n: nat)
    requires Spells(x, n)
    ensures Num(x) == n
  {
    hide LowByte, Byte1, Byte2, Byte3, Num;
    NumBytes(x);
  }

  lemma NumF(x: bv32, y: bv32, z: bv32)
    ensures Num(F32(x, y, z)) == F(Num(x), Num(y), Num(z))
  {
    hide Num, And, Or, Xor, Not32, And32, Or32, Xor32, Flip32;
    NumFlip(x);
    NumAnd(x, y);
    NumAnd(Flip32(x), z);
    NumOr(And32(x, y), And32(Flip32(x), z));
  }

  lemma NumG(x: bv32, y: bv32, z: bv32)
    ensures Num(G32(x, y, z)) == G(Num(x), Num(y), Num(z))
  {
    hide Num, And, Or, Xor, Not32, And32, Or32, Xor32, Flip32;
    NumFlip(z);
    NumAnd(x, z);
    NumAnd(y, Flip32(z));
    NumOr(And32(x, z), And32(y, Flip32(z)));
  }

  lemma NumH(x: bv32, y: bv32, z: bv32)
    ensures Num(H32(x, y, z)) == H(Num(x), Num(y), Num(z))
  {
    hide Num, And, Or, Xor, Not32, And32, Or32, Xor32, Flip32;
    NumXor(x, y);
    NumXor(Xor32(x, y), z);
  }

  lemma NumI(x: bv32, y: bv32, z: bv32)
    ensures Num(I32(x, y, z)) == I(Num(x), Num(y), Num(z))
  {
    hide Num, And, Or, Xor, Not32, And32, Or32, Xor32, Flip32;
    NumFlip(z);
    NumOr(x, Flip32(z));
    NumXor(y, Or32(x, Flip32(z)));
  }

  lemma OperateInSteps(f: Word, a: Word, b: Word, x: Word, t: Word, s: nat)
    requires 0 < s < 32
    ensures Operate(f, a, b, x, t, s) == Low(b + Rotate(Low(Low(Low(a + f) + x) + t), s))
  {
    hide Rotate;
    assert Low(Low(Low(a + f) + x) + t) == Low(a + f + x + t);
  }

  lemma NumMixed(f: bv32, a: bv32, b: bv32, m: bv32, t: bv32, s: bv32)
    requires 0 < s < 32 && 0 < Num(s) < 32 && Num(32 - s) == 32 - Num(s)
    ensures Num(Mixed(f, a, b, m, t, s)) == Operate(Num(f), Num(a), Num(b), Num(m), Num(t), Num(s))
  {
    hide *;
    NumSum(a, f);
    NumSum(Sum32(a, f), m);
    NumSum(Sum32(Sum32(a, f), m), t);
    var r := Sum32(Sum32(Sum32(a, f), m), t);
    NumTurn(r, s);
    NumSum(b, Turn32(r, s));
    MixedIs(f, a, b, m, t, s);
    OperateInSteps(Num(f), Num(a), Num(b), Num(m), Num(t), Num(s));
  }

  lemma MixedIs(f: bv32, a: bv32, b: bv32, m: bv32, t: bv32, s: bv32)
    requires 0 < s < 32
    ensures Mixed(f, a, b, m, t, s) == Sum32(b, Turn32(Sum32(Sum32(Sum32(a, f), m), t), s))
  {
    hide Sum32, Turn32;
  }

  /** The message words of a block whose words other than 0 and 14 are zero. */
  ghost predicate Sparse(x: seq<Word>, u: bv32, v: bv32) {
    |x| == 16 && forall k | 0 <= k < 16 :: x[k] == Num(Short(k, u, v))
  }

  function Short(k: nat, u: bv32, v: bv32): bv32 {
    if k == 0 then u else if k == 14 then v else 0
  }

  ghost predicate At(n: nat, h: Words, x: seq<Word>, a: bv32, b: bv32, c: bv32, d: bv32)
    requires |x| == 16
  {
    Operations(n, h, x) == Words(Num(a), Num(b), Num(c), Num(d))
  }

  // --- the table of operations ---

  predicate Entry(i: nat, k: nat, s: nat, t: nat) {
    K(i) == k && S(i) == s && T(i) == t
  }

  ghost predicate Given(i: nat, k: nat, s: bv32, t: bv32) {
    0 < s < 32 && K(i) == k && Spells(s, S(i)) && Spells(32 - s, 32 - S(i)) && Spells(t, T(i))
  }

  /** Message word, rotation and sine word of each operation of the round of F. */
  lemma TableF()
    ensures Entry(0, 0, 7, 0xd76aa478) && Entry(1, 1, 12, 0xe8c7b756)
    ensures Entry(2, 2, 17, 0x242070db) && Entry(3, 3, 22, 0xc1bdceee)
    ensures Entry(4, 4, 7, 0xf57c0faf) && Entry(5, 5, 12, 0x4787c62a)
    ensures Entry(6, 6, 17, 0xa8304613) && Entry(7, 7, 22, 0xfd469501)
    ensures Entry(8, 8, 7, 0x698098d8) && Entry(9, 9, 12, 0x8b44f7af)
    ensures Entry(10, 10, 17, 0xffff5bb1) && Entry(11, 11, 22, 0x895cd7be)
    ensures Entry(12, 12, 7, 0x6b901122) && Entry(13, 13, 12, 0xfd987193)
    ensures Entry(14, 14, 17, 0xa679438e) && Entry(15, 15, 22, 0x49b40821)
  {}

  lemma LeftsF()
    ensures Spells(7, 7) && Spells(12, 12) && Spells(17, 17) && Spells(22, 22)
  {}

  lemma RightsF()
    ensures Spells(25, 25) && Spells(20, 20) && Spells(15, 15) && Spells(10, 10)
  {}

  /** Message word, rotation and sine word of each operation of the round of G. */
  lemma TableG()
    ensures Entry(16, 1, 5, 0xf61e2562) && Entry(17, 6, 9, 0xc040b340)
    ensures Entry(18, 11, 14, 0x265e5a51) && Entry(19, 0, 20, 0xe9b6c7aa)
    ensures Entry(20, 5, 5, 0xd62f105d) && Entry(21, 10, 9, 0x02441453)
    ensures Entry(22, 15, 14, 0xd8a1e681) && Entry(23, 4, 20, 0xe7d3fbc8)
    ensures Entry(24, 9, 5, 0x21e1cde6) && Entry(25, 14, 9, 0xc33707d6)
    ensures Entry(26, 3, 14, 0xf4d50d87) && Entry(27, 8, 20, 0x455a14ed)
    ensures Entry(28, 13, 5, 0xa9e3e905) && Entry(29, 2, 9, 0xfcefa3f8)
    ensures Entry(30, 7, 14, 0x676f02d9) && Entry(31, 12, 20, 0x8d2a4c8a)
  {}

  lemma LeftsG()
    ensures Spells(5, 5) && Spells(9, 9) && Spells(14, 14) && Spells(20, 20)
  {}

  lemma RightsG()
    ensures Spells(27, 27) && Spells(23, 23) && Spells(18, 18) && Spells(12, 12)
  {}

  /** Message word, rotation and sine word of each operation of the round of H. */
  lemma TableH()
    ensures Entry(32, 5, 4, 0xfffa3942) && Entry(33, 8, 11, 0x8771f681)
    ensures Entry(34, 11, 16, 0x6d9d6122) && Entry(35, 14, 23, 0xfde5380c)
    ensures Entry(36, 1, 4, 0xa4beea44) && Entry(37, 4, 11, 0x4bdecfa9)
    ensures Entry(38, 7, 16, 0xf6bb4b60) && Entry(39, 10, 23, 0xbebfbc70)
    ensures Entry(40, 13, 4, 0x289b7ec6) && Entry(41, 0, 11, 0xeaa127fa)
    ensures Entry(42, 3, 16, 0xd4ef3085) && Entry(43, 6, 23, 0x04881d05)
    ensures Entry(44, 9, 4, 0xd9d4d039) && Entry(45, 12, 11, 0xe6db99e5)
    ensures Entry(46, 15, 16, 0x1fa27cf8) && Entry(47, 2, 23, 0xc4ac5665)
  {}

  lemma LeftsH()
    ensures Spells(4, 4) && Spells(11, 11) && Spells(16, 16) && Spells(23, 23)
  {}

  lemma RightsH()
    ensures Spells(28, 28) && Spells(21, 21) && Spells(16, 16) && Spells(9, 9)
  {}

  /** Message word, rotation and sine word of each operation of the round of I. */
  lemma TableI()
    ensures Entry(48, 0, 6, 0xf4292244) && Entry(49, 7, 10, 0x432aff97)
    ensures Entry(50, 14, 15, 0xab9423a7) && Entry(51, 5, 21, 0xfc93a039)
    ensures Entry(52, 12, 6, 0x655b59c3) && Entry(53, 3, 10, 0x8f0ccc92)
    ensures Entry(54, 10, 15, 0xffeff47d) && Entry(55, 1, 21, 0x85845dd1)
    ensures Entry(56, 8, 6, 0x6fa87e4f) && Entry(57, 15, 10, 0xfe2ce6e0)
    ensures Entry(58, 6, 15, 0xa3014314) && Entry(59, 13, 21, 0x4e0811a1)
    ensures Entry(60, 4, 6, 0xf7537e82) && Entry(61, 11, 10, 0xbd3af235)
    ensures Entry(62, 2, 15, 0x2ad7d2bb) && Entry(63, 9, 21, 0xeb86d391)
  {}

  lemma LeftsI()
    ensures Spells(6, 6) && Spells(10, 10) && Spells(15, 15) && Spells(21, 21)
  {}

  lemma RightsI()
    ensures Spells(26, 26) && Spells(22, 22) && Spells(17, 17) && Spells(11, 11)
  {}

  lemma Row0()
    ensures Given(0, 0, 7, 0xd76aa478)
    ensures Given(1, 1, 12, 0xe8c7b756)
    ensures Given(2, 2, 17, 0x242070db)
    ensures Given(3, 3, 22, 0xc1bdceee)
  {
    hide K, S, T;
    TableF();
    LeftsF();
    RightsF();
  }

  lemma Row1()
    ensures Given(4, 4, 7, 0xf57c0faf)
    ensures Given(5, 5, 12, 0x4787c62a)
    ensures Given(6, 6, 17, 0xa8304613)
    ensures Given(7, 7, 22, 0xfd469501)
  {
    hide K, S, T;
    TableF();
    LeftsF();
    RightsF();
  }

  lemma Row2()
    ensures Given(8, 8, 7, 0x698098d8)
    ensures Given(9, 9, 12, 0x8b44f7af)
    ensures Given(10, 10, 17, 0xffff5bb1)
    ensures Given(11, 11, 22, 0x895cd7be)
  {
    hide K, S, T;
    TableF();
    LeftsF();
    RightsF();
  }

  lemma Row3()
    ensures Given(12, 12, 7, 0x6b901122)
    ensures Given(13, 13, 12, 0xfd987193)
    ensures Given(14, 14, 17, 0xa679438e)
    ensures Given(15, 15, 22, 0x49b40821)
  {
    hide K, S, T;
    TableF();
    LeftsF();
    RightsF();
  }

  lemma Row4()
    ensures Given(16, 1, 5, 0xf61e2562)
    ensures Given(17, 6, 9, 0xc040b340)
    ensures Given(18, 11, 14, 0x265e5a51)
    ensures Given(19, 0, 20, 0xe9b6c7aa)
  {
    hide K, S, T;
    TableG();
    LeftsG();
    RightsG();
  }

  lemma Row5()
    ensures Given(20, 5, 5, 0xd62f105d)
    ensures Given(21, 10, 9, 0x02441453)
    ensures Given(22, 15, 14, 0xd8a1e681)
    ensures Given(23, 4, 20, 0xe7d3fbc8)
  {
    hide K, S, T;
    TableG();
    LeftsG();
    RightsG();
  }

  lemma Row6()
    ensures Given(24, 9, 5, 0x21e1cde6)
    ensures Given(25, 14, 9, 0xc33707d6)
    ensures Given(26, 3, 14, 0xf4d50d87)
    ensures Given(27, 8, 20, 0x455a14ed)
  {
    hide K, S, T;
    TableG();
    LeftsG();
    RightsG();
  }

  lemma Row7()
    ensures Given(28, 13, 5, 0xa9e3e905)
    ensures Given(29, 2, 9, 0xfcefa3f8)
    ensures Given(30, 7, 14, 0x676f02d9)
    ensures Given(31, 12, 20, 0x8d2a4c8a)
  {
    hide K, S, T;
    TableG();
    LeftsG();
    RightsG();
  }

  lemma Row8()
    ensures Given(32, 5, 4, 0xfffa3942)
    ensures Given(33, 8, 11, 0x8771f681)
    ensures Given(34, 11, 16, 0x6d9d6122)
    ensures Given(35, 14, 23, 0xfde5380c)
  {
    hide K, S, T;
    TableH();
    LeftsH();
    RightsH();
  }

  lemma Row9()
    ensures Given(36, 1, 4, 0xa4beea44)
    ensures Given(37, 4, 11, 0x4bdecfa9)
    ensures Given(38, 7, 16, 0xf6bb4b60)
    ensures Given(39, 10, 23, 0xbebfbc70)
  {
    hide K, S, T;
    TableH();
    LeftsH();
    RightsH();
  }

  lemma Row10()
    ensures Given(40, 13, 4, 0x289b7ec6)
    ensures Given(41, 0, 11, 0xeaa127fa)
    ensures Given(42, 3, 16, 0xd4ef3085)
    ensures Given(43, 6, 23, 0x04881d05)
  {
    hide K, S, T;
    TableH();
    LeftsH();
    RightsH();
  }

  lemma Row11()
    ensures Given(44, 9, 4, 0xd9d4d039)
    ensures Given(45, 12, 11, 0xe6db99e5)
    ensures Given(46, 15, 16, 0x1fa27cf8)
    ensures Given(47, 2, 23, 0xc4ac5665)
  {
    hide K, S, T;
    TableH();
    LeftsH();
    RightsH();
  }

  lemma Row12()
    ensures Given(48, 0, 6, 0xf4292244)
    ensures Given(49, 7, 10, 0x432aff97)
    ensures Given(50, 14, 15, 0xab9423a7)
    ensures Given(51, 5, 21, 0xfc93a039)
  {
    hide K, S, T;
    TableI();
    LeftsI();
    RightsI();
  }

  lemma Row13()
    ensures Given(52, 12, 6, 0x655b59c3)
    ensures Given(53, 3, 10, 0x8f0ccc92)
    ensures Given(54, 10, 15, 0xffeff47d)
    ensures Given(55, 1, 21, 0x85845dd1)
  {
    hide K, S, T;
    TableI();
    LeftsI();
    RightsI();
  }

  lemma Row14()
    ensures Given(56, 8, 6, 0x6fa87e4f)
    ensures Given(57, 15, 10, 0xfe2ce6e0)
    ensures Given(58, 6, 15, 0xa3014314)
    ensures Given(59, 13, 21, 0x4e0811a1)
  {
    hide K, S, T;
    TableI();
    LeftsI();
    RightsI();
  }

  lemma Row15()
    ensures Given(60, 4, 6, 0xf7537e82)
    ensures Given(61, 11, 10, 0xbd3af235)
    ensures Given(62, 2, 15, 0x2ad7d2bb)
    ensures Given(63, 9, 21, 0xeb86d391)
  {
    hide K, S, T;
    TableI();
    LeftsI();
    RightsI();
  }

  // --- operations ---

  /** One operation on vectors is one on numbers, whatever its auxiliary function. */
  lemma Link(i: nat, k: nat, s: bv32, t: bv32, h: Words, x: seq<Word>, u: bv32, v: bv32,
             m: bv32, a: bv32, b: bv32, c: bv32, d: bv32, f: bv32)
    requires m == Short(k, u, v) && 0 < s < 32 && Given(i, k, s, t) && Sparse(x, u, v) && At(i, h, x, a, b, c, d)
    requires Num(f) == Auxiliary(i, Num(b), Num(c), Num(d))
    ensures At(i + 1, h, x, d, Mixed(f, a, b, m, t, s), b, c)
  {
    hide Num, Spells, Mixed, Operate, T, S, K, Auxiliary, Short;
    NumSpelled(s, S(i));
    NumSpelled(32 - s, 32 - S(i));
    NumSpelled(t, T(i));
    NumMixed(f, a, b, m, t, s);
  }

  lemma LinkF(i: nat, k: nat, s: bv32, t: bv32, h: Words, x: seq<Word>, u: bv32, v: bv32,
              m: bv32, a: bv32, b: bv32, c: bv32, d: bv32)
    returns (e: bv32)
    requires 0 <= i < 16 && 0 < s < 32 && Given(i, k, s, t) && Sparse(x, u, v) && At(i, h, x, a, b, c, d)
    requires m == if k == 0 then u else if k == 14 then v else 0
    ensures e == Mixed(F32(b, c, d), a, b, m, t, s) && At(i + 1, h, x, d, e, b, c)
  {
    hide F32, F, Sparse, At, Given, Mixed, Num;
    NumF(b, c, d);
    Link(i, k, s, t, h, x, u, v, m, a, b, c, d, F32(b, c, d));
    e := Mixed(F32(b, c, d), a, b, m, t, s);
  }

  lemma LinkG(i: nat, k: nat, s: bv32, t: bv32, h: Words, x: seq<Word>, u: bv32, v: bv32,
              m: bv32, a: bv32, b: bv32, c: bv32, d: bv32)
    returns (e: bv32)
    requires 16 <= i < 32 && 0 < s < 32 && Given(i, k, s, t) && Sparse(x, u, v) && At(i, h, x, a, b, c, d)
    requires m == if k == 0 then u else if k == 14 then v else 0
    ensures e == Mixed(G32(b, c, d), a, b, m, t, s) && At(i + 1, h, x, d, e, b, c)
  {
    hide G32, G, Sparse, At, Given, Mixed, Num;
    NumG(b, c, d);
    Link(i, k, s, t, h, x, u, v, m, a, b, c, d, G32(b, c, d));
    e := Mixed(G32(b, c, d), a, b, m, t, s);
  }

  lemma LinkH(i: nat, k: nat, s: bv32, t: bv32, h: Words, x: seq<Word>, u: bv32, v: bv32,
              m: bv32, a: bv32, b: bv32, c: bv32, d: bv32)
    returns (e: bv32)
    requires 32 <= i < 48 && 0 < s < 32 && Given(i, k, s, t) && Sparse(x, u, v) && At(i, h, x, a, b, c, d)
    requires m == if k == 0 then u else if k == 14 then v else 0
    ensures e == Mixed(H32(b, c, d), a, b, m, t, s) && At(i + 1, h, x, d, e, b, c)
  {
    hide H32, H, Sparse, At, Given, Mixed, Num;
    NumH(b, c, d);
    Link(i, k, s, t, h, x, u, v, m, a, b, c, d, H32(b, c, d));
    e := Mixed(H32(b, c, d), a, b, m, t, s);
  }

  lemma LinkI(i: nat, k: nat, s: bv32, t: bv32, h: Words, x: seq<Word>, u: bv32, v: bv32,
              m: bv32, a: bv32, b: bv32, c: bv32, d: bv32)
    returns (e: bv32)
    requires 48 <= i < 64 && 0 < s < 32 && Given(i, k, s, t) && Sparse(x, u, v) && At(i, h, x, a, b, c, d)
    requires m == if k == 0 then u else if k == 14 then v else 0
    ensures e == Mixed(I32(b, c, d), a, b, m, t, s) && At(i + 1, h, x, d, e, b, c)
  {
    hide I32, I, Sparse, At, Given, Mixed, Num;
    NumI(b, c, d);
    Link(i, k, s, t, h, x, u, v, m, a, b, c, d, I32(b, c, d));
    e := Mixed(I32(b, c, d), a, b, m, t, s);
  }
}
