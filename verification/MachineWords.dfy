/** The operators of Bits against those of 32-bit vectors: a vector stands for the number that its
    digits spell, and each operator on vectors has its namesake on numbers. */
module MachineWords {
  import opened Bits
  import opened Rfc1321

  function Half(x: bv32): bv32 { x >> 1 }

  predicate Odd(x: bv32) { x & 1 == 1 }

  /** The value of the low n digits of x. */
  function Value(x: bv32, n: nat): (v: nat)
    ensures v < Pow2(n)
  {
    if n == 0 then 0 else 2 * Value(Half(x), n - 1) + Digit(Odd(x))
  }

  function Num(x: bv32): Word
  {
    Pow2Values();
    Value(x, 32)
  }

  lemma AndDigits(x: bv32, y: bv32)
    ensures Half(x & y) == Half(x) & Half(y) && (Odd(x & y) <==> Odd(x) && Odd(y))
  {}

  lemma OrDigits(x: bv32, y: bv32)
    ensures Half(x | y) == Half(x) | Half(y) && (Odd(x | y) <==> Odd(x) || Odd(y))
  {}

  lemma XorDigits(x: bv32, y: bv32)
    ensures Half(x ^ y) == Half(x) ^ Half(y) && (Odd(x ^ y) <==> Odd(x) != Odd(y))
  {}

  lemma AndJoin(u: nat, v: nat, p: bool, q: bool)
    ensures And(2 * u + Digit(p), 2 * v + Digit(q)) == 2 * And(u, v) + Digit(p && q)
  {
    assert (2 * u + Digit(p)) / 2 == u && (2 * v + Digit(q)) / 2 == v;
  }

  lemma AndStep(x: bv32, y: bv32, z: bv32, n: nat)
    requires n > 0 && (Odd(z) <==> Odd(x) && Odd(y))
    requires Value(Half(z), n - 1) == And(Value(Half(x), n - 1), Value(Half(y), n - 1))
    ensures Value(z, n) == And(Value(x, n), Value(y, n))
  {
    hide Half, Odd, Pow2, Digit, And;
    AndJoin(Value(Half(x), n - 1), Value(Half(y), n - 1), Odd(x), Odd(y));
  }

  lemma {:induction false} ValueAnd(x: bv32, y: bv32, n: nat)
    ensures Value(x & y, n) == And(Value(x, n), Value(y, n))
    decreases n
  {
    if n > 0 {
      hide *;
      AndDigits(x, y);
      ValueAnd(Half(x), Half(y), n - 1);
      AndStep(x, y, x & y, n);
    }
  }

  lemma OrJoin(u: nat, v: nat, p: bool, q: bool)
    ensures Or(2 * u + Digit(p), 2 * v + Digit(q)) == 2 * Or(u, v) + Digit(p || q)
  {
    assert (2 * u + Digit(p)) / 2 == u && (2 * v + Digit(q)) / 2 == v;
  }

  lemma OrStep(x: bv32, y: bv32, z: bv32, n: nat)
    requires n > 0 && (Odd(z) <==> Odd(x) || Odd(y))
    requires Value(Half(z), n - 1) == Or(Value(Half(x), n - 1), Value(Half(y), n - 1))
    ensures Value(z, n) == Or(Value(x, n), Value(y, n))
  {
    hide Half, Odd, Pow2, Digit, Or;
    OrJoin(Value(Half(x), n - 1), Value(Half(y), n - 1), Odd(x), Odd(y));
  }

  lemma {:induction false} ValueOr(x: bv32, y: bv32, n: nat)
    ensures Value(x | y, n) == Or(Value(x, n), Value(y, n))
    decreases n
  {
    if n > 0 {
      hide *;
      OrDigits(x, y);
      ValueOr(Half(x), Half(y), n - 1);
      OrStep(x, y, x | y, n);
    }
  }

  lemma XorJoin(u: nat, v: nat, p: bool, q: bool)
    ensures Xor(2 * u + Digit(p), 2 * v + Digit(q)) == 2 * Xor(u, v) + Digit(p != q)
  {
    assert (2 * u + Digit(p)) / 2 == u && (2 * v + Digit(q)) / 2 == v;
  }

  lemma XorStep(x: bv32, y: bv32, z: bv32, n: nat)
    requires n > 0 && (Odd(z) <==> Odd(x) != Odd(y))
    requires Value(Half(z), n - 1) == Xor(Value(Half(x), n - 1), Value(Half(y), n - 1))
    ensures Value(z, n) == Xor(Value(x, n), Value(y, n))
  {
    hide Half, Odd, Pow2, Digit, Xor;
    XorJoin(Value(Half(x), n - 1), Value(Half(y), n - 1), Odd(x), Odd(y));
  }

  lemma {:induction false} ValueXor(x: bv32, y: bv32, n: nat)
    ensures Value(x ^ y, n) == Xor(Value(x, n), Value(y, n))
    decreases n
  {
    if n > 0 {
      hide *;
      XorDigits(x, y);
      ValueXor(Half(x), Half(y), n - 1);
      XorStep(x, y, x ^ y, n);
    }
  }

  lemma {:induction false} XorOnes(n: nat, w: nat)
    requires w < Pow2(n)
    ensures Xor(w, Pow2(n) - 1) == Pow2(n) - 1 - w
  {
    if n > 0 {
      XorOnes(n - 1, w / 2);
      assert (Pow2(n) - 1) / 2 == Pow2(n - 1) - 1;
    }
  }

  lemma CarryDigits(x: bv32)
    requires x & 1 == 1 && x != 0xffff_ffff
    ensures (x + 1) >> 1 == (x >> 1) + 1
    ensures (x + 1) & 1 != 1
    ensures x >> 1 != 0xffff_ffff
  {}

  lemma StopDigits(x: bv32)
    requires x & 1 != 1
    ensures (x + 1) >> 1 == x >> 1
    ensures (x + 1) & 1 == 1
  {}

  lemma NextDigits(x: bv32)
    requires x != 0xffff_ffff
    ensures Odd(x) ==> Half(x + 1) == Half(x) + 1 && !Odd(x + 1) && Half(x) != 0xffff_ffff
    ensures !Odd(x) ==> Half(x + 1) == Half(x) && Odd(x + 1)
  {
    if x & 1 == 1 { CarryDigits(x); } else { StopDigits(x); }
  }

  lemma {:induction false} ValueNext(x: bv32, n: nat)
    requires x != 0xffff_ffff
    ensures Value(x + 1, n) == if Value(x, n) + 1 == Pow2(n) then 0 else Value(x, n) + 1
    decreases n
  {
    hide Half, Odd;
    if n > 0 {
      NextDigits(x);
      if Odd(x) { ValueNext(Half(x), n - 1); }
    }
  }

  lemma {:induction false} ValueZero(n: nat)
    ensures Value(0, n) == 0
  {
    if n > 0 { ValueZero(n - 1); }
  }

  ghost predicate Mask(m: bv32, n: nat) {
    if n == 0 then m == 0 else Odd(m) && Mask(Half(m), n - 1)
  }

  lemma {:induction false} ValueMask(m: bv32, n: nat)
    requires Mask(m, n)
    ensures Value(m, n) == Pow2(n) - 1
    decreases n
  {
    hide Half, Odd;
    if n > 0 { ValueMask(Half(m), n - 1); }
  }

  lemma HalfAtMost(y: bv32, m: bv32)
    requires y <= m
    ensures Half(y) <= Half(m)
  {}

  lemma {:induction false} Within(y: bv32, m: bv32, n: nat)
    requires y <= m && Mask(m, n)
    ensures Value(y, n + 1) == Value(y, n)
    decreases n
  {
    hide Half, Odd, Pow2, Digit;
    if n > 0 {
      HalfAtMost(y, m);
      Within(Half(y), Half(m), n - 1);
    } else {
      ValueZero(1);
    }
  }

  lemma Masks()
    ensures Mask(0x7fff_ffff, 31) && Mask(0xffff_ffff, 32)
  {
    assert Mask(0x1, 1) && Mask(0x3, 2);
    assert Mask(0x7, 3) && Mask(0xf, 4);
    assert Mask(0x1f, 5) && Mask(0x3f, 6);
    assert Mask(0x7f, 7) && Mask(0xff, 8);
    assert Mask(0x1ff, 9) && Mask(0x3ff, 10);
    assert Mask(0x7ff, 11) && Mask(0xfff, 12);
    assert Mask(0x1fff, 13) && Mask(0x3fff, 14);
    assert Mask(0x7fff, 15) && Mask(0xffff, 16);
    assert Mask(0x1ffff, 17) && Mask(0x3ffff, 18);
    assert Mask(0x7ffff, 19) && Mask(0xfffff, 20);
    assert Mask(0x1fffff, 21) && Mask(0x3fffff, 22);
    assert Mask(0x7fffff, 23) && Mask(0xffffff, 24);
    assert Mask(0x1ffffff, 25) && Mask(0x3ffffff, 26);
    assert Mask(0x7ffffff, 27) && Mask(0xfffffff, 28);
    assert Mask(0x1fffffff, 29) && Mask(0x3fffffff, 30);
    assert Mask(0x7fffffff, 31) && Mask(0xffffffff, 32);
  }

  lemma SameDigits(x: bv32, y: bv32)
    requires Half(x) == Half(y) && Odd(x) == Odd(y)
    ensures x == y
  {}

  lemma {:induction false} FullIsMask(x: bv32, m: bv32, n: nat)
    requires x <= m && Mask(m, n) && Value(x, n) == Pow2(n) - 1
    ensures x == m
    decreases n
  {
    hide Half, Odd;
    if n > 0 {
      HalfAtMost(x, m);
      FullIsMask(Half(x), Half(m), n - 1);
      SameDigits(x, m);
    }
  }

  // --- addition ---

  lemma NumNext(x: bv32)
    requires x != 0xffff_ffff
    ensures Num(x + 1) == Num(x) + 1
  {
    hide Value, Mask, Pow2;
    Masks();
    ValueNext(x, 32);
    if Num(x) + 1 == Pow2(32) { FullIsMask(x, 0xffff_ffff, 32); }
  }

  lemma NumWraps(x: bv32)
    ensures Num(x + 1) == Low(Num(x) + 1)
  {
    hide Value, Mask, Pow2;
    if x == 0xffff_ffff {
      Pow2Values();
      Masks();
      ValueMask(x, 32);
      ValueZero(32);
    } else {
      NumNext(x);
    }
  }

  lemma Chain(x: nat, p: nat, y: nat, q: nat, s: nat)
    requires y == p + 1 && q == Low(x + p) && s == Low(q + 1)
    ensures s == Low(x + y)
  {}

  lemma NumZero(x: bv32)
    ensures Num(x + 0) == Low(Num(x) + Num(0))
  {
    hide Value;
    ValueZero(32);
  }

  lemma NumPlusZero(x: bv32, y: bv32)
    requires y == 0
    ensures Num(x + y) == Low(Num(x) + Num(y))
  {
    hide *;
    NumZero(x);
    assert x + y == x + 0;
  }

  lemma NumPrevious(y: bv32)
    requires y != 0
    ensures Num(y) == Num(y - 1) + 1
  {
    hide *;
    assert y - 1 != 0xffff_ffff;
    NumNext(y - 1);
  }

  lemma NumPlusNext(x: bv32, y: bv32)
    ensures Num(x + y) == Low(Num(x + (y - 1)) + 1)
  {
    hide *;
    NumWraps(x + (y - 1));
  }

  lemma NumPlusStep(x: bv32, y: bv32)
    requires y != 0
    requires Num(x + (y - 1)) == Low(Num(x) + Num(y - 1))
    ensures Num(x + y) == Low(Num(x) + Num(y))
  {
    hide *;
    NumPrevious(y);
    NumPlusNext(x, y);
    Chain(Num(x), Num(y - 1), Num(y), Num(x + (y - 1)), Num(x + y));
  }

  lemma {:induction false} NumPlus(x: bv32, y: bv32)
    ensures Num(x + y) == Low(Num(x) + Num(y))
    decreases Num(y)
  {
    hide *;
    if y == 0 {
      NumPlusZero(x, y);
    } else {
      NumPrevious(y);
      forall p: bv32 | Num(p) < Num(y) ensures Num(x + p) == Low(Num(x) + Num(p)) {
        NumPlus(x, p);
      }
      NumPlusStep(x, y);
    }
  }

  // --- shifts ---

  lemma LowTwice(a: nat)
    ensures Low(2 * Low(a)) == Low(2 * a)
  {}

  lemma HalfShort(x: bv32)
    ensures Half(x) <= 0x7fff_ffff
  {}

  lemma NumIs(x: bv32)
    ensures Num(x) == Value(x, 32)
  {
    hide Value;
  }

  lemma FirstDigit(x: bv32)
    ensures Num(x) / 2 == Value(Half(x), 31)
  {
    hide Half, Pow2, Odd;
  }

  lemma NumHalf(x: bv32)
    ensures Num(Half(x)) == Num(x) / 2
  {
    hide *;
    Masks();
    HalfShort(x);
    Within(Half(x), 0x7fff_ffff, 31);
    FirstDigit(x);
    NumIs(Half(x));
  }

  lemma ShlTwice(x: bv32, t: bv32)
    requires 0 < t < 32
    ensures x << t == (x << (t - 1)) + (x << (t - 1))
  {}

  lemma ShrHalf(x: bv32, t: bv32)
    requires 0 < t < 32
    ensures x >> t == (x >> 1) >> (t - 1)
  {}

  lemma NumShlZero(x: bv32)
    ensures Num(0) == 0 && Num(x << 0) == Low(Shl(Num(x), 0)) && Num(x >> 0) == Shr(Num(x), 0)
  {
    hide Value;
    ValueZero(32);
    assert x << 0 == x && x >> 0 == x;
    LowOfWord(Num(x));
  }

  lemma NumShlTwice(x: bv32, t: bv32)
    requires 0 < t < 32
    ensures Num(x << t) == Low(2 * Num(x << (t - 1)))
  {
    hide *;
    ShlTwice(x, t);
    NumPlus(x << (t - 1), x << (t - 1));
  }

  lemma ShlNext(m: nat, k: nat, n: nat)
    requires n == k + 1
    ensures Low(2 * Low(Shl(m, k))) == Low(Shl(m, n))
  {
    LowTwice(Shl(m, k));
  }

  lemma NumShlStep(x: bv32, t: bv32)
    requires 0 < t < 32
    requires Num(x << (t - 1)) == Low(Shl(Num(x), Num(t - 1)))
    ensures Num(x << t) == Low(Shl(Num(x), Num(t)))
  {
    hide *;
    NumPrevious(t);
    NumShlTwice(x, t);
    ShlNext(Num(x), Num(t - 1), Num(t));
  }

  lemma {:induction false} NumShl(x: bv32, t: bv32)
    requires t < 32
    ensures Num(x << t) == Low(Shl(Num(x), Num(t)))
    decreases Num(t)
  {
    hide *;
    if t == 0 {
      NumShlZero(x);
    } else {
      NumPrevious(t);
      forall p: bv32 | p < 32 && Num(p) < Num(t) ensures Num(x << p) == Low(Shl(Num(x), Num(p))) {
        NumShl(x, p);
      }
      NumShlStep(x, t);
    }
  }

  lemma NumShrStep(x: bv32, t: bv32)
    requires 0 < t < 32
    requires Num((x >> 1) >> (t - 1)) == Shr(Num(x >> 1), Num(t - 1))
    ensures Num(x >> t) == Shr(Num(x), Num(t))
  {
    ShrHalf(x, t);
    NumHalf(x);
    hide Num;
    NumPrevious(t);
  }

  lemma {:induction false} NumShr(x: bv32, t: bv32)
    requires t < 32
    ensures Num(x >> t) == Shr(Num(x), Num(t))
    decreases Num(t)
  {
    hide *;
    if t == 0 {
      NumShlZero(x);
    } else {
      NumPrevious(t);
      var h := x >> 1;
      forall p: bv32 | p < 32 && Num(p) < Num(t) ensures Num(h >> p) == Shr(Num(h), Num(p)) {
        NumShr(h, p);
      }
      NumShrStep(x, t);
    }
  }

  // --- the operators as functions ---

  function And32(x: bv32, y: bv32): bv32 { x & y }
  function Or32(x: bv32, y: bv32): bv32 { x | y }
  function Xor32(x: bv32, y: bv32): bv32 { x ^ y }
  function Flip32(x: bv32): bv32 { !x }
  function Sum32(x: bv32, y: bv32): bv32 { x + y }

  function Left32(x: bv32, t: bv32): bv32
    requires t < 32
  {
    x << t
  }

  function Right32(x: bv32, t: bv32): bv32
    requires t < 32
  {
    x >> t
  }

  /** Circular left shift. */
  function Turn32(x: bv32, t: bv32): bv32
    requires 0 < t < 32
  {
    Or32(Left32(x, t), Right32(x, 32 - t))
  }

  lemma NumAnd(x: bv32, y: bv32)
    ensures Num(And32(x, y)) == And(Num(x), Num(y))
  {
    ValueAnd(x, y, 32);
  }

  lemma NumOr(x: bv32, y: bv32)
    ensures Num(Or32(x, y)) == Or(Num(x), Num(y))
  {
    ValueOr(x, y, 32);
  }

  lemma NumXor(x: bv32, y: bv32)
    ensures Num(Xor32(x, y)) == Xor(Num(x), Num(y))
  {
    ValueXor(x, y, 32);
  }

  lemma NumFlip(x: bv32)
    ensures Num(Flip32(x)) == Not32(Num(x))
  {
    hide Value, Mask;
    Pow2Values();
    Masks();
    assert !x == x ^ 0xffff_ffff;
    ValueXor(x, 0xffff_ffff, 32);
    ValueMask(0xffff_ffff, 32);
    XorOnes(32, Num(x));
  }

  lemma NumSum(x: bv32, y: bv32)
    ensures Num(Sum32(x, y)) == Low(Num(x) + Num(y))
  {
    hide Num, Low;
    NumPlus(x, y);
  }

  lemma NumLeft(x: bv32, t: bv32)
    requires t < 32
    ensures Num(Left32(x, t)) == Low(Shl(Num(x), Num(t)))
  {
    hide Num, Low, Shl;
    NumShl(x, t);
  }

  lemma NumRight(x: bv32, t: bv32)
    requires t < 32
    ensures Num(Right32(x, t)) == Shr(Num(x), Num(t))
  {
    hide Num, Shr;
    NumShr(x, t);
  }

  lemma NumTurn(x: bv32, t: bv32)
    requires 0 < t < 32 && 0 < Num(t) < 32 && Num(32 - t) == 32 - Num(t)
    ensures Num(Turn32(x, t)) == Rotate(Num(x), Num(t))
  {
    hide Num, Left32, Right32, Or32, Low, Shl, Shr, Or;
    NumOr(Left32(x, t), Right32(x, 32 - t));
    NumLeft(x, t);
    NumRight(x, 32 - t);
  }

  // --- a vector and its bytes ---

  lemma ByteDigit(u: bv8)
    ensures u as nat == 2 * ((u >> 1) as nat) + (if u & 1 == 1 then 1 else 0)
  {}

  lemma ByteHalf(u: bv8)
    ensures Half(u as bv32) == (u >> 1) as bv32
    ensures Odd(u as bv32) <==> u & 1 == 1
  {}

  lemma {:induction false} ByteValue(u: bv8, n: nat)
    requires u as nat < Pow2(n)
    ensures Value(u as bv32, n) == u as nat
    decreases n
  {
    hide Half, Odd;
    if n > 0 {
      ByteDigit(u);
      ByteHalf(u);
      ByteValue(u >> 1, n - 1);
    }
  }

  lemma NumByte(u: bv8)
    ensures Num(u as bv32) == u as nat
  {
    hide Half, Odd, Pow2;
    Pow2Values();
    ByteValue(u, 32);
  }

  function LowByte(x: bv32): bv8 { And32(x, 0xff) as bv8 }

  lemma NumLowByte(x: bv32)
    ensures Num(x) % 256 == LowByte(x) as nat
  {
    NumByte(0xff);
    hide Value, Num;
    NumByte(LowByte(x));
    NumAnd(x, 0xff);
    Pow2Values();
    AndMask(8, Num(x));
  }

  function High(x: bv32): bv32 { x >> 8 }

  lemma NumHigh(x: bv32)
    ensures Num(High(x)) == Num(x) / 256
  {
    NumByte(8);
    hide Num;
    NumShr(x, 8);
    Pow2Values();
    ShrIsQuotient(Num(x), 8);
  }

  lemma NumCut(x: bv32)
    ensures Num(x) == 256 * Num(High(x)) + LowByte(x) as nat
  {
    hide *;
    NumLowByte(x);
    NumHigh(x);
  }

  lemma HighGone(x: bv32)
    ensures High(High(High(High(x)))) == 0
  {}

  function Byte3(x: bv32): bv8 { LowByte(High(High(High(x)))) }
  function Byte2(x: bv32): bv8 { LowByte(High(High(x))) }
  function Byte1(x: bv32): bv8 { LowByte(High(x)) }

  lemma NumBytes(x: bv32)
    ensures Num(x) == 0x100_0000 * (Byte3(x) as nat) + 0x1_0000 * (Byte2(x) as nat)
                   + 0x100 * (Byte1(x) as nat) + LowByte(x) as nat
  {
    hide Num, High, LowByte;
    NumCut(x);
    NumCut(High(x));
    NumCut(High(High(x)));
    NumCut(High(High(High(x))));
    HighGone(x);
    NumByte(0);
  }
}
