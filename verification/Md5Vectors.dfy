/** The first digests of the test suite of RFC 1321, section A.5. The operations on the one block of
    each message are worked out on 32-bit vectors, a round to a lemma. */
module Md5Vectors {
  import opened Bits
  import opened MachineWords
  import opened Md5Operations
  import opened Rfc1321

  lemma EmptyF(h: Words, x: seq<Word>)
    requires Sparse(x, 0x80, 0) && At(0, h, x, 0x67452301, 0xefcdab89, 0x98badcfe, 0x10325476)
    ensures At(16, h, x, 0xf56c7cf1, 0xd6819c6a, 0x5aa53f75, 0x374943a7)
  {
    hide Sparse, At, Given;
    var u: bv32, v: bv32 := 0x80, 0;
    var a: bv32, b: bv32, c: bv32, d: bv32 := 0x67452301, 0xefcdab89, 0x98badcfe, 0x10325476;
    Row0(); Row1(); Row2(); Row3();
    a := LinkF(0, 0, 7, 0xd76aa478, h, x, u, v, 0x80, a, b, c, d);
    d := LinkF(1, 1, 12, 0xe8c7b756, h, x, u, v, 0x0, d, a, b, c);
    c := LinkF(2, 2, 17, 0x242070db, h, x, u, v, 0x0, c, d, a, b);
    b := LinkF(3, 3, 22, 0xc1bdceee, h, x, u, v, 0x0, b, c, d, a);
    a := LinkF(4, 4, 7, 0xf57c0faf, h, x, u, v, 0x0, a, b, c, d);
    d := LinkF(5, 5, 12, 0x4787c62a, h, x, u, v, 0x0, d, a, b, c);
    c := LinkF(6, 6, 17, 0xa8304613, h, x, u, v, 0x0, c, d, a, b);
    b := LinkF(7, 7, 22, 0xfd469501, h, x, u, v, 0x0, b, c, d, a);
    a := LinkF(8, 8, 7, 0x698098d8, h, x, u, v, 0x0, a, b, c, d);
    d := LinkF(9, 9, 12, 0x8b44f7af, h, x, u, v, 0x0, d, a, b, c);
    c := LinkF(10, 10, 17, 0xffff5bb1, h, x, u, v, 0x0, c, d, a, b);
    b := LinkF(11, 11, 22, 0x895cd7be, h, x, u, v, 0x0, b, c, d, a);
    a := LinkF(12, 12, 7, 0x6b901122, h, x, u, v, 0x0, a, b, c, d);
    d := LinkF(13, 13, 12, 0xfd987193, h, x, u, v, 0x0, d, a, b, c);
    c := LinkF(14, 14, 17, 0xa679438e, h, x, u, v, 0x0, c, d, a, b);
    b := LinkF(15, 15, 22, 0x49b40821, h, x, u, v, 0x0, b, c, d, a);
  }

  lemma EmptyG(h: Words, x: seq<Word>)
    requires Sparse(x, 0x80, 0) && At(16, h, x, 0xf56c7cf1, 0xd6819c6a, 0x5aa53f75, 0x374943a7)
    ensures At(32, h, x, 0x13707036, 0xa2205f1f, 0x1c31c384, 0xae7813db)
  {
    hide Sparse, At, Given;
    var u: bv32, v: bv32 := 0x80, 0;
    var a: bv32, b: bv32, c: bv32, d: bv32 := 0xf56c7cf1, 0xd6819c6a, 0x5aa53f75, 0x374943a7;
    Row4(); Row5(); Row6(); Row7();
    a := LinkG(16, 1, 5, 0xf61e2562, h, x, u, v, 0x0, a, b, c, d);
    d := LinkG(17, 6, 9, 0xc040b340, h, x, u, v, 0x0, d, a, b, c);
    c := LinkG(18, 11, 14, 0x265e5a51, h, x, u, v, 0x0, c, d, a, b);
    b := LinkG(19, 0, 20, 0xe9b6c7aa, h, x, u, v, 0x80, b, c, d, a);
    a := LinkG(20, 5, 5, 0xd62f105d, h, x, u, v, 0x0, a, b, c, d);
    d := LinkG(21, 10, 9, 0x02441453, h, x, u, v, 0x0, d, a, b, c);
    c := LinkG(22, 15, 14, 0xd8a1e681, h, x, u, v, 0x0, c, d, a, b);
    b := LinkG(23, 4, 20, 0xe7d3fbc8, h, x, u, v, 0x0, b, c, d, a);
    a := LinkG(24, 9, 5, 0x21e1cde6, h, x, u, v, 0x0, a, b, c, d);
    d := LinkG(25, 14, 9, 0xc33707d6, h, x, u, v, 0x0, d, a, b, c);
    c := LinkG(26, 3, 14, 0xf4d50d87, h, x, u, v, 0x0, c, d, a, b);
    b := LinkG(27, 8, 20, 0x455a14ed, h, x, u, v, 0x0, b, c, d, a);
    a := LinkG(28, 13, 5, 0xa9e3e905, h, x, u, v, 0x0, a, b, c, d);
    d := LinkG(29, 2, 9, 0xfcefa3f8, h, x, u, v, 0x0, d, a, b, c);
    c := LinkG(30, 7, 14, 0x676f02d9, h, x, u, v, 0x0, c, d, a, b);
    b := LinkG(31, 12, 20, 0x8d2a4c8a, h, x, u, v, 0x0, b, c, d, a);
  }

  lemma EmptyH(h: Words, x: seq<Word>)
    requires Sparse(x, 0x80, 0) && At(32, h, x, 0x13707036, 0xa2205f1f, 0x1c31c384, 0xae7813db)
    ensures At(48, h, x, 0x3f55edfd, 0xca7d2dbd, 0x68d84ea2, 0x22a31f54)
  {
    hide Sparse, At, Given;
    var u: bv32, v: bv32 := 0x80, 0;
    var a: bv32, b: bv32, c: bv32, d: bv32 := 0x13707036, 0xa2205f1f, 0x1c31c384, 0xae7813db;
    Row8(); Row9(); Row10(); Row11();
    a := LinkH(32, 5, 4, 0xfffa3942, h, x, u, v, 0x0, a, b, c, d);
    d := LinkH(33, 8, 11, 0x8771f681, h, x, u, v, 0x0, d, a, b, c);
    c := LinkH(34, 11, 16, 0x6d9d6122, h, x, u, v, 0x0, c, d, a, b);
    b := LinkH(35, 14, 23, 0xfde5380c, h, x, u, v, 0x0, b, c, d, a);
    a := LinkH(36, 1, 4, 0xa4beea44, h, x, u, v, 0x0, a, b, c, d);
    d := LinkH(37, 4, 11, 0x4bdecfa9, h, x, u, v, 0x0, d, a, b, c);
    c := LinkH(38, 7, 16, 0xf6bb4b60, h, x, u, v, 0x0, c, d, a, b);
    b := LinkH(39, 10, 23, 0xbebfbc70, h, x, u, v, 0x0, b, c, d, a);
    a := LinkH(40, 13, 4, 0x289b7ec6, h, x, u, v, 0x0, a, b, c, d);
    d := LinkH(41, 0, 11, 0xeaa127fa, h, x, u, v, 0x80, d, a, b, c);
    c := LinkH(42, 3, 16, 0xd4ef3085, h, x, u, v, 0x0, c, d, a, b);
    b := LinkH(43, 6, 23, 0x04881d05, h, x, u, v, 0x0, b, c, d, a);
    a := LinkH(44, 9, 4, 0xd9d4d039, h, x, u, v, 0x0, a, b, c, d);
    d := LinkH(45, 12, 11, 0xe6db99e5, h, x, u, v, 0x0, d, a, b, c);
    c := LinkH(46, 15, 16, 0x1fa27cf8, h, x, u, v, 0x0, c, d, a, b);
    b := LinkH(47, 2, 23, 0xc4ac5665, h, x, u, v, 0x0, b, c, d, a);
  }

  lemma EmptyI(h: Words, x: seq<Word>)
    requires Sparse(x, 0x80, 0) && At(48, h, x, 0x3f55edfd, 0xca7d2dbd, 0x68d84ea2, 0x22a31f54)
    ensures At(64, h, x, 0x7246fad3, 0x14e45506, 0xff4ea3eb, 0x6e10a476)
  {
    hide Sparse, At, Given;
    var u: bv32, v: bv32 := 0x80, 0;
    var a: bv32, b: bv32, c: bv32, d: bv32 := 0x3f55edfd, 0xca7d2dbd, 0x68d84ea2, 0x22a31f54;
    Row12(); Row13(); Row14(); Row15();
    a := LinkI(48, 0, 6, 0xf4292244, h, x, u, v, 0x80, a, b, c, d);
    d := LinkI(49, 7, 10, 0x432aff97, h, x, u, v, 0x0, d, a, b, c);
    c := LinkI(50, 14, 15, 0xab9423a7, h, x, u, v, 0x0, c, d, a, b);
    b := LinkI(51, 5, 21, 0xfc93a039, h, x, u, v, 0x0, b, c, d, a);
    a := LinkI(52, 12, 6, 0x655b59c3, h, x, u, v, 0x0, a, b, c, d);
    d := LinkI(53, 3, 10, 0x8f0ccc92, h, x, u, v, 0x0, d, a, b, c);
    c := LinkI(54, 10, 15, 0xffeff47d, h, x, u, v, 0x0, c, d, a, b);
    b := LinkI(55, 1, 21, 0x85845dd1, h, x, u, v, 0x0, b, c, d, a);
    a := LinkI(56, 8, 6, 0x6fa87e4f, h, x, u, v, 0x0, a, b, c, d);
    d := LinkI(57, 15, 10, 0xfe2ce6e0, h, x, u, v, 0x0, d, a, b, c);
    c := LinkI(58, 6, 15, 0xa3014314, h, x, u, v, 0x0, c, d, a, b);
    b := LinkI(59, 13, 21, 0x4e0811a1, h, x, u, v, 0x0, b, c, d, a);
    a := LinkI(60, 4, 6, 0xf7537e82, h, x, u, v, 0x0, a, b, c, d);
    d := LinkI(61, 11, 10, 0xbd3af235, h, x, u, v, 0x0, d, a, b, c);
    c := LinkI(62, 2, 15, 0x2ad7d2bb, h, x, u, v, 0x0, c, d, a, b);
    b := LinkI(63, 9, 21, 0xeb86d391, h, x, u, v, 0x0, b, c, d, a);
  }

  lemma AbcF(h: Words, x: seq<Word>)
    requires Sparse(x, 0x80636261, 24) && At(0, h, x, 0x67452301, 0xefcdab89, 0x98badcfe, 0x10325476)
    ensures At(16, h, x, 0xdda9b9a6, 0x72aff2e0, 0xe396856b, 0xa1051895)
  {
    hide Sparse, At, Given;
    var u: bv32, v: bv32 := 0x80636261, 24;
    var a: bv32, b: bv32, c: bv32, d: bv32 := 0x67452301, 0xefcdab89, 0x98badcfe, 0x10325476;
    Row0(); Row1(); Row2(); Row3();
    a := LinkF(0, 0, 7, 0xd76aa478, h, x, u, v, 0x80636261, a, b, c, d);
    d := LinkF(1, 1, 12, 0xe8c7b756, h, x, u, v, 0x0, d, a, b, c);
    c := LinkF(2, 2, 17, 0x242070db, h, x, u, v, 0x0, c, d, a, b);
    b := LinkF(3, 3, 22, 0xc1bdceee, h, x, u, v, 0x0, b, c, d, a);
    a := LinkF(4, 4, 7, 0xf57c0faf, h, x, u, v, 0x0, a, b, c, d);
    d := LinkF(5, 5, 12, 0x4787c62a, h, x, u, v, 0x0, d, a, b, c);
    c := LinkF(6, 6, 17, 0xa8304613, h, x, u, v, 0x0, c, d, a, b);
    b := LinkF(7, 7, 22, 0xfd469501, h, x, u, v, 0x0, b, c, d, a);
    a := LinkF(8, 8, 7, 0x698098d8, h, x, u, v, 0x0, a, b, c, d);
    d := LinkF(9, 9, 12, 0x8b44f7af, h, x, u, v, 0x0, d, a, b, c);
    c := LinkF(10, 10, 17, 0xffff5bb1, h, x, u, v, 0x0, c, d, a, b);
    b := LinkF(11, 11, 22, 0x895cd7be, h, x, u, v, 0x0, b, c, d, a);
    a := LinkF(12, 12, 7, 0x6b901122, h, x, u, v, 0x0, a, b, c, d);
    d := LinkF(13, 13, 12, 0xfd987193, h, x, u, v, 0x0, d, a, b, c);
    c := LinkF(14, 14, 17, 0xa679438e, h, x, u, v, 0x18, c, d, a, b);
    b := LinkF(15, 15, 22, 0x49b40821, h, x, u, v, 0x0, b, c, d, a);
  }

  lemma AbcG(h: Words, x: seq<Word>)
    requires Sparse(x, 0x80636261, 24) && At(16, h, x, 0xdda9b9a6, 0x72aff2e0, 0xe396856b, 0xa1051895)
    ensures At(32, h, x, 0x790a77fb, 0x726342d3, 0xa62884aa, 0x9f47e4f8)
  {
    hide Sparse, At, Given;
    var u: bv32, v: bv32 := 0x80636261, 24;
    var a: bv32, b: bv32, c: bv32, d: bv32 := 0xdda9b9a6, 0x72aff2e0, 0xe396856b, 0xa1051895;
    Row4(); Row5(); Row6(); Row7();
    a := LinkG(16, 1, 5, 0xf61e2562, h, x, u, v, 0x0, a, b, c, d);
    d := LinkG(17, 6, 9, 0xc040b340, h, x, u, v, 0x0, d, a, b, c);
    c := LinkG(18, 11, 14, 0x265e5a51, h, x, u, v, 0x0, c, d, a, b);
    b := LinkG(19, 0, 20, 0xe9b6c7aa, h, x, u, v, 0x80636261, b, c, d, a);
    a := LinkG(20, 5, 5, 0xd62f105d, h, x, u, v, 0x0, a, b, c, d);
    d := LinkG(21, 10, 9, 0x02441453, h, x, u, v, 0x0, d, a, b, c);
    c := LinkG(22, 15, 14, 0xd8a1e681, h, x, u, v, 0x0, c, d, a, b);
    b := LinkG(23, 4, 20, 0xe7d3fbc8, h, x, u, v, 0x0, b, c, d, a);
    a := LinkG(24, 9, 5, 0x21e1cde6, h, x, u, v, 0x0, a, b, c, d);
    d := LinkG(25, 14, 9, 0xc33707d6, h, x, u, v, 0x18, d, a, b, c);
    c := LinkG(26, 3, 14, 0xf4d50d87, h, x, u, v, 0x0, c, d, a, b);
    b := LinkG(27, 8, 20, 0x455a14ed, h, x, u, v, 0x0, b, c, d, a);
    a := LinkG(28, 13, 5, 0xa9e3e905, h, x, u, v, 0x0, a, b, c, d);
    d := LinkG(29, 2, 9, 0xfcefa3f8, h, x, u, v, 0x0, d, a, b, c);
    c := LinkG(30, 7, 14, 0x676f02d9, h, x, u, v, 0x0, c, d, a, b);
    b := LinkG(31, 12, 20, 0x8d2a4c8a, h, x, u, v, 0x0, b, c, d, a);
  }

  lemma AbcH(h: Words, x: seq<Word>)
    requires Sparse(x, 0x80636261, 24) && At(32, h, x, 0x790a77fb, 0x726342d3, 0xa62884aa, 0x9f47e4f8)
    ensures At(48, h, x, 0x7f2e507b, 0x7beb9700, 0x8fae6399, 0x99d9679d)
  {
    hide Sparse, At, Given;
    var u: bv32, v: bv32 := 0x80636261, 24;
    var a: bv32, b: bv32, c: bv32, d: bv32 := 0x790a77fb, 0x726342d3, 0xa62884aa, 0x9f47e4f8;
    Row8(); Row9(); Row10(); Row11();
    a := LinkH(32, 5, 4, 0xfffa3942, h, x, u, v, 0x0, a, b, c, d);
    d := LinkH(33, 8, 11, 0x8771f681, h, x, u, v, 0x0, d, a, b, c);
    c := LinkH(34, 11, 16, 0x6d9d6122, h, x, u, v, 0x0, c, d, a, b);
    b := LinkH(35, 14, 23, 0xfde5380c, h, x, u, v, 0x18, b, c, d, a);
    a := LinkH(36, 1, 4, 0xa4beea44, h, x, u, v, 0x0, a, b, c, d);
    d := LinkH(37, 4, 11, 0x4bdecfa9, h, x, u, v, 0x0, d, a, b, c);
    c := LinkH(38, 7, 16, 0xf6bb4b60, h, x, u, v, 0x0, c, d, a, b);
    b := LinkH(39, 10, 23, 0xbebfbc70, h, x, u, v, 0x0, b, c, d, a);
    a := LinkH(40, 13, 4, 0x289b7ec6, h, x, u, v, 0x0, a, b, c, d);
    d := LinkH(41, 0, 11, 0xeaa127fa, h, x, u, v, 0x80636261, d, a, b, c);
    c := LinkH(42, 3, 16, 0xd4ef3085, h, x, u, v, 0x0, c, d, a, b);
    b := LinkH(43, 6, 23, 0x04881d05, h, x, u, v, 0x0, b, c, d, a);
    a := LinkH(44, 9, 4, 0xd9d4d039, h, x, u, v, 0x0, a, b, c, d);
    d := LinkH(45, 12, 11, 0xe6db99e5, h, x, u, v, 0x0, d, a, b, c);
    c := LinkH(46, 15, 16, 0x1fa27cf8, h, x, u, v, 0x0, c, d, a, b);
    b := LinkH(47, 2, 23, 0xc4ac5665, h, x, u, v, 0x0, b, c, d, a);
  }

  lemma AbcI(h: Words, x: seq<Word>)
    requires Sparse(x, 0x80636261, 24) && At(48, h, x, 0x7f2e507b, 0x7beb9700, 0x8fae6399, 0x99d9679d)
    ensures At(64, h, x, 0x310ade8f, 0xc08226b3, 0xe484b9d8, 0x624d8cb2)
  {
    hide Sparse, At, Given;
    var u: bv32, v: bv32 := 0x80636261, 24;
    var a: bv32, b: bv32, c: bv32, d: bv32 := 0x7f2e507b, 0x7beb9700, 0x8fae6399, 0x99d9679d;
    Row12(); Row13(); Row14(); Row15();
    a := LinkI(48, 0, 6, 0xf4292244, h, x, u, v, 0x80636261, a, b, c, d);
    d := LinkI(49, 7, 10, 0x432aff97, h, x, u, v, 0x0, d, a, b, c);
    c := LinkI(50, 14, 15, 0xab9423a7, h, x, u, v, 0x18, c, d, a, b);
    b := LinkI(51, 5, 21, 0xfc93a039, h, x, u, v, 0x0, b, c, d, a);
    a := LinkI(52, 12, 6, 0x655b59c3, h, x, u, v, 0x0, a, b, c, d);
    d := LinkI(53, 3, 10, 0x8f0ccc92, h, x, u, v, 0x0, d, a, b, c);
    c := LinkI(54, 10, 15, 0xffeff47d, h, x, u, v, 0x0, c, d, a, b);
    b := LinkI(55, 1, 21, 0x85845dd1, h, x, u, v, 0x0, b, c, d, a);
    a := LinkI(56, 8, 6, 0x6fa87e4f, h, x, u, v, 0x0, a, b, c, d);
    d := LinkI(57, 15, 10, 0xfe2ce6e0, h, x, u, v, 0x0, d, a, b, c);
    c := LinkI(58, 6, 15, 0xa3014314, h, x, u, v, 0x0, c, d, a, b);
    b := LinkI(59, 13, 21, 0x4e0811a1, h, x, u, v, 0x0, b, c, d, a);
    a := LinkI(60, 4, 6, 0xf7537e82, h, x, u, v, 0x0, a, b, c, d);
    d := LinkI(61, 11, 10, 0xbd3af235, h, x, u, v, 0x0, d, a, b, c);
    c := LinkI(62, 2, 15, 0x2ad7d2bb, h, x, u, v, 0x0, c, d, a, b);
    b := LinkI(63, 9, 21, 0xeb86d391, h, x, u, v, 0x0, b, c, d, a);
  }

  // --- from the trace to the digest ---

  lemma Numbers(a: bv32, b: bv32, c: bv32, d: bv32, w: Words)
    requires Spells(a, w.a) && Spells(b, w.b) && Spells(c, w.c) && Spells(d, w.d)
    ensures Words(Num(a), Num(b), Num(c), Num(d)) == w
  {
    hide Num, Spells;
    NumSpelled(a, w.a);
    NumSpelled(b, w.b);
    NumSpelled(c, w.c);
    NumSpelled(d, w.d);
  }

  lemma Start(x: seq<Word>)
    requires |x| == 16
    ensures At(0, INITIAL, x, 0x67452301, 0xefcdab89, 0x98badcfe, 0x10325476)
  {
    hide Num;
    Numbers(0x67452301, 0xefcdab89, 0x98badcfe, 0x10325476, INITIAL);
  }

  lemma ToSparse(x: seq<Word>, n: nat, k: nat, u: bv32, v: bv32)
    requires |x| == 16 && x[0] == n && x[14] == k
    requires forall i | 0 < i < 16 && i != 14 :: x[i] == 0
    requires Spells(u, n) && Spells(v, k)
    ensures Sparse(x, u, v)
  {
    assert Spells(0, 0);
    hide Num, Spells;
    NumSpelled(0, 0);
    NumSpelled(u, n);
    NumSpelled(v, k);
  }

  /** The words of a block that holds four bytes, the byte k at 56 and zeros. */
  lemma BlockWords(p: seq<Byte>, n: nat, k: Byte)
    requires |p| == 64 && WordAt(p, 0) == n && p[56] == k
    requires forall i | 4 <= i < 64 && i != 56 :: p[i] == 0
    ensures Decode(p)[0] == n && Decode(p)[14] == k
    ensures forall i | 0 < i < 16 && i != 14 :: Decode(p)[i] == 0
  {
    assert WordAt(p, 56) == k;
    forall i | 0 < i < 16 && i != 14 ensures WordAt(p, 4 * i) == 0 {
      assert p[4 * i] == p[4 * i + 1] == p[4 * i + 2] == p[4 * i + 3] == 0;
    }
  }

  lemma CompressTo(h: Words, block: seq<Byte>, w: Words, r: Words)
    requires |block| == 64 && Operations(64, h, Decode(block)) == w && Plus(h, w) == r
    ensures Compress(h, block) == r
  {
    hide Operations, Decode, Plus;
  }

  lemma PadBytes(m: seq<Byte>)
    requires |m| <= 3
    ensures |Pad(m)| == 64 && Pad(m)[..|m|] == m && Pad(m)[|m|] == 0x80
    ensures forall i | |m| < i < 56 :: Pad(m)[i] == 0
    ensures Pad(m)[56..60] == EncodeWord(8 * |m|) && Pad(m)[60..] == EncodeWord(0)
  {
    hide EncodeWord;
    var n := |m|;
    var front := m + [0x80] + Zeros(PadLength(n));
    assert Low(8 * n) == 8 * n && Low(8 * n / WORD) == 0;
    assert Pad(m) == front + EncodeWord(8 * n) + EncodeWord(0);
    assert |front| == 56;
  }

  lemma OneBlock(m: seq<Byte>)
    requires |Pad(m)| == 64
    ensures Blocks(Pad(m)) == Compress(INITIAL, Pad(m))
  {
    var p := Pad(m);
    assert p[..|p| - 64] == [] && p[|p| - 64..] == p;
    hide Pad, Compress;
    assert Blocks([]) == INITIAL;
  }

  lemma {:induction false} HexConcat(a: seq<Byte>, b: seq<Byte>)
    ensures Hex(a + b) == Hex(a) + Hex(b)
    decreases |b|
  {
    if b == [] {
      assert a + b == a;
    } else {
      assert (a + b)[..|a + b| - 1] == a + b[..|b| - 1];
      HexConcat(a, b[..|b| - 1]);
    }
  }

  function HexByte(b: Byte): string { [HEX[b / 16], HEX[b % 16]] }

  lemma HexOne(b: Byte)
    ensures Hex([b]) == HexByte(b)
  {
    assert [b][..0] == [];
    assert Hex([b][..0]) == "";
  }

  lemma HexOfWord(b0: Byte, b1: Byte, b2: Byte, b3: Byte)
    ensures Hex([b0, b1, b2, b3]) == HexByte(b0) + HexByte(b1) + HexByte(b2) + HexByte(b3)
  {
    hide Hex, HexByte;
    assert [b0, b1, b2, b3] == [b0] + [b1] + [b2] + [b3];
    HexConcat([b0] + [b1] + [b2], [b3]);
    HexConcat([b0] + [b1], [b2]);
    HexConcat([b0], [b1]);
    HexOne(b0);
    HexOne(b1);
    HexOne(b2);
    HexOne(b3);
  }

  /** The digits of four words, byte by byte. */
  lemma HexOfEncode(w: Words)
    ensures Hex(Encode(w)) == Hex(EncodeWord(w.a)) + Hex(EncodeWord(w.b)) + Hex(EncodeWord(w.c)) + Hex(EncodeWord(w.d))
  {
    hide Hex, EncodeWord;
    HexConcat(EncodeWord(w.a) + EncodeWord(w.b) + EncodeWord(w.c), EncodeWord(w.d));
    HexConcat(EncodeWord(w.a) + EncodeWord(w.b), EncodeWord(w.c));
    HexConcat(EncodeWord(w.a), EncodeWord(w.b));
  }

  lemma EmptyOperations(x: seq<Word>)
    requires Sparse(x, 0x80, 0)
    ensures Operations(64, INITIAL, x) == Words(0x7246fad3, 0x14e45506, 0xff4ea3eb, 0x6e10a476)
  {
    Numbers(0x7246fad3, 0x14e45506, 0xff4ea3eb, 0x6e10a476, Words(0x7246fad3, 0x14e45506, 0xff4ea3eb, 0x6e10a476));
    hide Num, Sparse, Spells;
    Start(x);
    EmptyF(INITIAL, x);
    EmptyG(INITIAL, x);
    EmptyH(INITIAL, x);
    EmptyI(INITIAL, x);
  }

  lemma EmptyBlock()
    ensures |Pad([])| == 64 && Sparse(Decode(Pad([])), 0x80, 0)
  {
    var p := Pad([]);
    PadBytes([]);
    EmptyBytes(p);
    BlockWords(p, 0x80, 0);
    assert Spells(0x80, 0x80) && Spells(0, 0);
    hide *;
    ToSparse(Decode(p), 0x80, 0, 0x80, 0);
  }

  lemma EmptyBytes(p: seq<Byte>)
    requires |p| == 64 && p[..0] == [] && p[0] == 0x80
    requires forall i | 0 < i < 56 :: p[i] == 0
    requires p[56..60] == EncodeWord(0) && p[60..] == EncodeWord(0)
    ensures WordAt(p, 0) == 0x80
    ensures p[56] == 0 && forall i | 4 <= i < 64 && i != 56 :: p[i] == 0
  {
    assert EncodeWord(0) == [0, 0, 0, 0] && EncodeWord(0) == [0, 0, 0, 0];
    hide EncodeWord;
    forall i | 56 < i < 60 ensures p[i] == 0 { assert p[56..60][i - 56] == p[i]; }
    forall i | 60 <= i < 64 ensures p[i] == 0 { assert p[60..][i - 60] == p[i]; }
    assert p[56..60][0] == p[56];
  }

  lemma EmptyChain()
    ensures Blocks(Pad([])) == Words(0xd98c1dd4, 0x04b2008f, 0x980980e9, 0x7e42f8ec)
  {
    assert Plus(INITIAL, Words(0x7246fad3, 0x14e45506, 0xff4ea3eb, 0x6e10a476)) == Words(0xd98c1dd4, 0x04b2008f, 0x980980e9, 0x7e42f8ec);
    hide *;
    EmptyBlock();
    OneBlock([]);
    EmptyOperations(Decode(Pad([])));
    CompressTo(INITIAL, Pad([]), Words(0x7246fad3, 0x14e45506, 0xff4ea3eb, 0x6e10a476), Words(0xd98c1dd4, 0x04b2008f, 0x980980e9, 0x7e42f8ec));
  }

  lemma EmptyHex()
    ensures Hex(EncodeWord(0xd98c1dd4)) == "d41d8cd9"
    ensures Hex(EncodeWord(0x04b2008f)) == "8f00b204"
    ensures Hex(EncodeWord(0x980980e9)) == "e9800998"
    ensures Hex(EncodeWord(0x7e42f8ec)) == "ecf8427e"
  {
    hide Hex;
    assert EncodeWord(0xd98c1dd4) == [0xd4, 0x1d, 0x8c, 0xd9];
    HexOfWord(0xd4, 0x1d, 0x8c, 0xd9);
    assert EncodeWord(0x04b2008f) == [0x8f, 0x0, 0xb2, 0x4];
    HexOfWord(0x8f, 0x0, 0xb2, 0x4);
    assert EncodeWord(0x980980e9) == [0xe9, 0x80, 0x9, 0x98];
    HexOfWord(0xe9, 0x80, 0x9, 0x98);
    assert EncodeWord(0x7e42f8ec) == [0xec, 0xf8, 0x42, 0x7e];
    HexOfWord(0xec, 0xf8, 0x42, 0x7e);
  }

  /** RFC 1321, section A.5. */
  lemma EmptyDigest()
    ensures Hex(Digest([])) == "d41d8cd98f00b204e9800998ecf8427e"
  {
    hide Pad, Blocks, Hex, Encode;
    EmptyChain();
    HexOfEncode(Words(0xd98c1dd4, 0x04b2008f, 0x980980e9, 0x7e42f8ec));
    EmptyHex();
  }

  lemma AbcOperations(x: seq<Word>)
    requires Sparse(x, 0x80636261, 24)
    ensures Operations(64, INITIAL, x) == Words(0x310ade8f, 0xc08226b3, 0xe484b9d8, 0x624d8cb2)
  {
    Numbers(0x310ade8f, 0xc08226b3, 0xe484b9d8, 0x624d8cb2, Words(0x310ade8f, 0xc08226b3, 0xe484b9d8, 0x624d8cb2));
    hide Num, Sparse, Spells;
    Start(x);
    AbcF(INITIAL, x);
    AbcG(INITIAL, x);
    AbcH(INITIAL, x);
    AbcI(INITIAL, x);
  }

  lemma AbcBlock()
    ensures |Pad([0x61, 0x62, 0x63])| == 64 && Sparse(Decode(Pad([0x61, 0x62, 0x63])), 0x80636261, 24)
  {
    var p := Pad([0x61, 0x62, 0x63]);
    PadBytes([0x61, 0x62, 0x63]);
    AbcBytes(p);
    BlockWords(p, 0x80636261, 24);
    assert Spells(0x80636261, 0x80636261) && Spells(24, 24);
    hide *;
    ToSparse(Decode(p), 0x80636261, 24, 0x80636261, 24);
  }

  lemma AbcBytes(p: seq<Byte>)
    requires |p| == 64 && p[..3] == [0x61, 0x62, 0x63] && p[3] == 0x80
    requires forall i | 3 < i < 56 :: p[i] == 0
    requires p[56..60] == EncodeWord(24) && p[60..] == EncodeWord(0)
    ensures WordAt(p, 0) == 0x80636261
    ensures p[56] == 24 && forall i | 4 <= i < 64 && i != 56 :: p[i] == 0
  {
    assert EncodeWord(24) == [24, 0, 0, 0] && EncodeWord(0) == [0, 0, 0, 0];
    hide EncodeWord;
    assert p[..3][0] == p[0] && p[..3][1] == p[1] && p[..3][2] == p[2];
    forall i | 56 < i < 60 ensures p[i] == 0 { assert p[56..60][i - 56] == p[i]; }
    forall i | 60 <= i < 64 ensures p[i] == 0 { assert p[60..][i - 60] == p[i]; }
    assert p[56..60][0] == p[56];
  }

  lemma AbcChain()
    ensures Blocks(Pad([0x61, 0x62, 0x63])) == Words(0x98500190, 0xb04fd23c, 0x7d3f96d6, 0x727fe128)
  {
    assert Plus(INITIAL, Words(0x310ade8f, 0xc08226b3, 0xe484b9d8, 0x624d8cb2)) == Words(0x98500190, 0xb04fd23c, 0x7d3f96d6, 0x727fe128);
    hide *;
    AbcBlock();
    OneBlock([0x61, 0x62, 0x63]);
    AbcOperations(Decode(Pad([0x61, 0x62, 0x63])));
    CompressTo(INITIAL, Pad([0x61, 0x62, 0x63]), Words(0x310ade8f, 0xc08226b3, 0xe484b9d8, 0x624d8cb2), Words(0x98500190, 0xb04fd23c, 0x7d3f96d6, 0x727fe128));
  }

  lemma AbcHex()
    ensures Hex(EncodeWord(0x98500190)) == "90015098"
    ensures Hex(EncodeWord(0xb04fd23c)) == "3cd24fb0"
    ensures Hex(EncodeWord(0x7d3f96d6)) == "d6963f7d"
    ensures Hex(EncodeWord(0x727fe128)) == "28e17f72"
  {
    hide Hex;
    assert EncodeWord(0x98500190) == [0x90, 0x1, 0x50, 0x98];
    HexOfWord(0x90, 0x1, 0x50, 0x98);
    assert EncodeWord(0xb04fd23c) == [0x3c, 0xd2, 0x4f, 0xb0];
    HexOfWord(0x3c, 0xd2, 0x4f, 0xb0);
    assert EncodeWord(0x7d3f96d6) == [0xd6, 0x96, 0x3f, 0x7d];
    HexOfWord(0xd6, 0x96, 0x3f, 0x7d);
    assert EncodeWord(0x727fe128) == [0x28, 0xe1, 0x7f, 0x72];
    HexOfWord(0x28, 0xe1, 0x7f, 0x72);
  }

  /** RFC 1321, section A.5. */
  lemma AbcDigest()
    ensures Hex(Digest([0x61, 0x62, 0x63])) == "900150983cd24fb0d6963f7d28e17f72"
  {
    hide Pad, Blocks, Hex, Encode;
    AbcChain();
    HexOfEncode(Words(0x98500190, 0xb04fd23c, 0x7d3f96d6, 0x727fe128));
    AbcHex();
  }

}
