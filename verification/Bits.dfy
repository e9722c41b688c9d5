/** Machine words as bounded naturals, with the C bitwise operators defined bit by bit.
    A 32-bit word is a natural below WORD, an "unsigned long" a natural below LANE. */
module Bits {
  const WORD: nat := 0x1_0000_0000
  const LANE: nat := 0x1_0000_0000_0000_0000

  type Byte = b: nat | b < 256
  type Word = w: nat | w < 0x1_0000_0000
  type Lane = w: nat | w < 0x1_0000_0000_0000_0000

  /** The low word: the value modulo 2^32. */
  function Low(w: nat): Word { w % WORD }

  lemma LowOfWord(w: Word)
    ensures Low(w) == w
  {}

  function AddLane(x: nat, y: nat): Lane { (x + y) % LANE }

  function Pow2(n: nat): (p: nat)
    ensures p > 0
  {
    if n == 0 then 1 else 2 * Pow2(n - 1)
  }

  /** The i-th binary digit of x. */
  predicate Bit(x: nat, i: nat) {
    if i == 0 then x % 2 == 1 else Bit(x / 2, i - 1)
  }

  function Digit(b: bool): nat {
    if b then 1 else 0
  }

  function And(x: nat, y: nat): nat {
    if x == 0 then 0 else 2 * And(x / 2, y / 2) + Digit(x % 2 == 1 && y % 2 == 1)
  }

  function Or(x: nat, y: nat): nat
    decreases x + y
  {
    if x == 0 && y == 0 then 0 else 2 * Or(x / 2, y / 2) + Digit(x % 2 == 1 || y % 2 == 1)
  }

  function Xor(x: nat, y: nat): nat
    decreases x + y
  {
    if x == 0 && y == 0 then 0 else 2 * Xor(x / 2, y / 2) + Digit((x % 2 == 1) != (y % 2 == 1))
  }

  /** Complement within n bits. */
  function Not(n: nat, x: nat): nat
    requires x < Pow2(n)
  {
    Pow2(n) - 1 - x
  }

  function Not32(x: Word): Word { 0xFFFF_FFFF - x }
  function Not64(x: Lane): Lane { 0xFFFF_FFFF_FFFF_FFFF - x }

  lemma Pow2Values()
    ensures Pow2(3) == 8 && Pow2(6) == 64 && Pow2(8) == 256 && Pow2(29) == 0x2000_0000
    ensures Pow2(32) == WORD && Pow2(64) == LANE
  {
    assert Pow2(3) == 8;
    Pow2Sum(3, 3);
    assert Pow2(4) == 16;
    Pow2Sum(4, 4);
    Pow2Sum(8, 8);
    Pow2Sum(16, 16);
    Pow2Sum(29, 3);
    Pow2Sum(32, 32);
  }

  lemma {:induction false} Pow2Sum(m: nat, n: nat)
    ensures Pow2(m + n) == Pow2(m) * Pow2(n)
  {
    if m > 0 { Pow2Sum(m - 1, n); }
  }

  function Shl(x: nat, s: nat): nat {
    if s == 0 then x else 2 * Shl(x, s - 1)
  }

  /** A left shift that drops what leaves the lane. */
  function ShlLane(x: nat, s: nat): Lane { Shl(x, s) % LANE }

  function Shr(x: nat, s: nat): nat {
    if s == 0 then x else Shr(x / 2, s - 1)
  }

  // --- every operator acts on each digit separately ---

  lemma {:induction false} ZeroBits(i: nat)
    ensures !Bit(0, i)
  {
    if i > 0 { ZeroBits(i - 1); }
  }

  lemma {:induction false} AndBit(x: nat, y: nat, i: nat)
    ensures Bit(And(x, y), i) == (Bit(x, i) && Bit(y, i))
  {
    if x == 0 {
      ZeroBits(i);
    } else if i > 0 {
      AndBit(x / 2, y / 2, i - 1);
    }
  }

  lemma {:induction false} OrBit(x: nat, y: nat, i: nat)
    ensures Bit(Or(x, y), i) == (Bit(x, i) || Bit(y, i))
  {
    if x == 0 && y == 0 {
      ZeroBits(i);
    } else if i > 0 {
      OrBit(x / 2, y / 2, i - 1);
    }
  }

  lemma {:induction false} XorBit(x: nat, y: nat, i: nat)
    ensures Bit(Xor(x, y), i) == (Bit(x, i) != Bit(y, i))
  {
    if x == 0 && y == 0 {
      ZeroBits(i);
    } else if i > 0 {
      XorBit(x / 2, y / 2, i - 1);
    }
  }

  lemma {:induction false} NotBit(n: nat, x: nat, i: nat)
    requires x < Pow2(n) && i < n
    ensures Bit(Not(n, x), i) == !Bit(x, i)
  {
    if i > 0 {
      NotBit(n - 1, x / 2, i - 1);
      assert Not(n, x) / 2 == Not(n - 1, x / 2);
    }
  }

  lemma {:induction false} ShlBit(x: nat, s: nat, i: nat)
    ensures Bit(Shl(x, s), i) == (i >= s && Bit(x, i - s))
  {
    if s > 0 {
      assert Shl(x, s) / 2 == Shl(x, s - 1);
      if i > 0 { ShlBit(x, s - 1, i - 1); }
    }
  }

  lemma {:induction false} ShrBit(x: nat, s: nat, i: nat)
    ensures Bit(Shr(x, s), i) == Bit(x, s + i)
  {
    if s > 0 { ShrBit(x / 2, s - 1, i); }
  }

  // --- bounds ---

  lemma {:induction false} ShlBound(n: nat, x: nat, s: nat)
    requires x < Pow2(n)
    ensures Shl(x, s) < Pow2(n + s)
  {
    if s > 0 { ShlBound(n, x, s - 1); }
  }

  lemma {:induction false} ShrBound(n: nat, x: nat, s: nat)
    requires x < Pow2(n)
    ensures Shr(x, s) < Pow2(n)
  {
    if s > 0 { ShrBound(n, x / 2, s - 1); }
  }

  lemma {:induction false} HighBitsZero(n: nat, x: nat, i: nat)
    requires x < Pow2(n) && n <= i
    ensures !Bit(x, i)
  {
    if n == 0 { ZeroBits(i); } else { HighBitsZero(n - 1, x / 2, i - 1); }
  }

  lemma {:induction false} AndBound(n: nat, x: nat, y: nat)
    requires x < Pow2(n) && y < Pow2(n)
    ensures And(x, y) < Pow2(n)
  {
    if x != 0 { AndBound(n - 1, x / 2, y / 2); }
  }

  lemma {:induction false} OrBound(n: nat, x: nat, y: nat)
    requires x < Pow2(n) && y < Pow2(n)
    ensures Or(x, y) < Pow2(n)
    decreases x + y
  {
    if x != 0 || y != 0 { OrBound(n - 1, x / 2, y / 2); }
  }

  lemma {:induction false} XorBound(n: nat, x: nat, y: nat)
    requires x < Pow2(n) && y < Pow2(n)
    ensures Xor(x, y) < Pow2(n)
    decreases x + y
  {
    if x != 0 || y != 0 { XorBound(n - 1, x / 2, y / 2); }
  }

  // --- a word is determined by its digits ---

  ghost predicate SameBits(n: nat, x: nat, y: nat) {
    forall i: nat :: i < n ==> Bit(x, i) == Bit(y, i)
  }

  lemma {:induction false} Extensional(n: nat, x: nat, y: nat)
    requires x < Pow2(n) && y < Pow2(n) && SameBits(n, x, y)
    ensures x == y
  {
    if n > 0 {
      assert Bit(x, 0) == Bit(y, 0);
      forall i: nat | i < n - 1 ensures Bit(x / 2, i) == Bit(y / 2, i) {
        assert Bit(x, i + 1) == Bit(y, i + 1);
      }
      Extensional(n - 1, x / 2, y / 2);
    }
  }

  lemma Spread(p: nat, a: int, b: int)
    requires a < b
    ensures p * a + p <= p * b
  {
    assert p * (b - a - 1) >= 0;
    assert p * (b - a - 1) == p * b - p * a - p;
  }

  lemma DivModUnique(x: nat, p: nat, q: nat, r: nat)
    requires p > 0 && r < p && x == p * q + r
    ensures x % p == r && x / p == q
  {
    var d := x / p;
    assert x == p * d + x % p;
    if d < q {
      Spread(p, d, q);
      assert false;
    }
    if q < d {
      Spread(p, q, d);
      assert false;
    }
  }

  lemma Double(p: nat, q: nat)
    ensures (2 * p) * q == 2 * (p * q)
  {}

  lemma ModHalf(x: nat, p: nat)
    requires p > 0
    ensures (x % (2 * p)) / 2 == (x / 2) % p && (x % (2 * p)) % 2 == x % 2
    ensures x / (2 * p) == x / 2 / p
  {
    var h, b := x / 2, x % 2;
    var q, r := h / p, h % p;
    Double(p, q);
    DivModUnique(x, 2 * p, q, 2 * r + b);
  }

  lemma {:induction false} LowBit(n: nat, x: nat, i: nat)
    requires i < n
    ensures Bit(x % Pow2(n), i) == Bit(x, i)
  {
    ModHalf(x, Pow2(n - 1));
    if i > 0 { LowBit(n - 1, x / 2, i - 1); }
  }

  /** Joining disjoint halves with | is the same as adding them. */
  lemma {:induction false} OrDisjoint(n: nat, u: nat, v: nat)
    requires v < Pow2(n)
    ensures Or(u * Pow2(n), v) == u * Pow2(n) + v
  {
    if n == 0 {
      assert v == 0;
      OrZero(u);
    } else {
      var p := Pow2(n - 1);
      assert u * Pow2(n) == 2 * (u * p);
      OrDisjoint(n - 1, u, v / 2);
    }
  }

  lemma {:induction false} OrZero(u: nat)
    ensures Or(u, 0) == u
  {
    if u > 0 { OrZero(u / 2); }
  }

  lemma {:induction false} XorSelfInverse(x: nat, y: nat)
    ensures Xor(Xor(x, y), y) == x
    decreases x + y
  {
    if x != 0 || y != 0 {
      XorSelfInverse(x / 2, y / 2);
    }
  }

  /** x & (2^n - 1) keeps the low n digits. */
  lemma {:induction false} AndMask(n: nat, x: nat)
    ensures And(x, Pow2(n) - 1) == x % Pow2(n)
  {
    if n == 0 {
      AndZero(x);
    } else if x != 0 {
      AndMask(n - 1, x / 2);
      ModHalf(x, Pow2(n - 1));
    }
  }

  lemma {:induction false} AndZero(x: nat)
    ensures And(x, 0) == 0
  {
    if x > 0 { AndZero(x / 2); }
  }

  lemma {:induction false} ShlIsProduct(x: nat, s: nat)
    ensures Shl(x, s) == x * Pow2(s)
  {
    if s > 0 { ShlIsProduct(x, s - 1); }
  }

  lemma {:induction false} ShrIsQuotient(x: nat, s: nat)
    ensures Shr(x, s) == x / Pow2(s)
  {
    if s > 0 {
      ShrIsQuotient(x / 2, s - 1);
      ModHalf(x, Pow2(s - 1));
    }
  }
}
