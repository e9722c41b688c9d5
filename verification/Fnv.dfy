/** The 32-bit FNV-1a hash (fnv32a.c), whose multiplication is done by shifts and additions. */
module Fnv {
  import opened Bits
  import opened MachineWords

  const PRIME: nat := 0x01000193

  // --- the hash by multiplication ---

  function Step(h: Word, b: Byte): Word {
    Low(Xor(h, b) * PRIME)
  }

  function Hash(bytes: seq<Byte>, h: Word): Word {
    if bytes == [] then h else Step(Hash(bytes[..|bytes| - 1], h), bytes[|bytes| - 1])
  }

  // --- the hash by shifts ---

  function Add32(x: Word, y: Word): Word { Low(x + y) }

  function Shl32(x: Word, s: nat): Word { Low(Shl(x, s)) }

  lemma LowCongruent(x: nat, y: nat, q: nat)
    requires x == WORD * q + y
    ensures Low(x) == Low(y)
  {
    var d := y / WORD;
    assert x == WORD * (q + d) + Low(y);
    DivModUnique(x, WORD, q + d, Low(y));
  }

  lemma LowSum(x: nat, y: nat)
    ensures Low(Low(x) + Low(y)) == Low(x + y)
  {
    LowCongruent(x + y, Low(x) + Low(y), x / WORD + y / WORD);
  }

  /** The shifts and additions multiply by the prime. */
  lemma ShiftAdd(h: Word)
    ensures Add32(h, Add32(Add32(Add32(Add32(Shl32(h, 1), Shl32(h, 4)), Shl32(h, 7)), Shl32(h, 8)), Shl32(h, 24)))
         == Low(h * PRIME)
  {
    ShiftValues(h);
    hide Low, Shl;
    LowSum(2 * h, 16 * h);
    LowSum(18 * h, 128 * h);
    LowSum(146 * h, 256 * h);
    LowSum(402 * h, 0x100_0000 * h);
    LowOfWord(h);
    LowSum(h, 402 * h + 0x100_0000 * h);
  }

  lemma ShiftValues(h: Word)
    ensures Shl(h, 1) == 2 * h && Shl(h, 4) == 16 * h && Shl(h, 7) == 128 * h
    ensures Shl(h, 8) == 256 * h && Shl(h, 24) == 0x100_0000 * h
  {
    hide Shl;
    Pow2Values();
    assert Pow2(1) == 2 && Pow2(4) == 16;
    Pow2Sum(4, 3);
    Pow2Sum(8, 8);
    Pow2Sum(16, 8);
    hide Pow2;
    ShlIsProduct(h, 1);
    ShlIsProduct(h, 4);
    ShlIsProduct(h, 7);
    ShlIsProduct(h, 8);
    ShlIsProduct(h, 24);
  }

  /** One octet, as the loops of the source take it in. */
  method TakeIn(h: Word, b: Byte) returns (hval: Word)
    ensures hval == Step(h, b)
  {
    hide Xor, Low, Add32, Shl32;
    XorOctet(h, b);
    hval := Xor(h, b);
    ShiftAdd(hval);
    hval := Add32(hval, Add32(Add32(Add32(Add32(Shl32(hval, 1), Shl32(hval, 4)), Shl32(hval, 7)), Shl32(hval, 8)), Shl32(hval, 24)));
  }

  lemma XorOctet(h: Word, b: Byte)
    ensures Xor(h, b) < WORD
  {
    Pow2Values();
    XorBound(32, h, b);
  }

  /** fnv_32a_buf */
  method HashBuf(buf: array<Byte>, len: nat, h: Word) returns (hval: Word)
    requires len <= buf.Length
    ensures hval == Hash(buf[..len], h)
  {
    hide Step;
    hval := h;
    var bp := 0;
    while bp < len
      invariant bp <= len && hval == Hash(buf[..bp], h)
    {
      assert buf[..bp + 1][..bp] == buf[..bp];
      hval := TakeIn(hval, buf[bp]);
      bp := bp + 1;
    }
  }

  /** From the state zero one octet gives its multiple of the prime: the octet is taken in first. */
  lemma HashOfOctet(b: Byte)
    ensures Hash([b], 0) == b * 0x01000193
  {
    assert [b][..0] == [];
    assert Hash([b][..0], 0) == 0;
    hide Xor;
    OctetAlone(b);
  }

  lemma OctetAlone(b: Byte)
    ensures Xor(0, b) == b
  {
    XorCommutes(0, b);
    XorZero(b);
  }

  lemma {:induction false} XorZero(x: nat)
    ensures Xor(x, 0) == x
  {
    if x > 0 { XorZero(x / 2); }
  }

  /** The hash of "a" from the usual initial state. */
  lemma KnownHash()
    ensures Hash([0x61], 0x811c9dc5) == 0xe40c292c
  {
    assert [0x61][..0] == [];
    assert Hash([0x61][..0], 0x811c9dc5) == 0x811c9dc5;
    hide Xor;
    XorOfOctet();
  }

  lemma XorOfOctet()
    ensures Xor(0x811c9dc5, 0x61) == 0x811c9da4
  {
    hide Num, Xor;
    NumBytes(0x811c9dc5);
    NumBytes(0x61);
    NumBytes(0x811c9da4);
    NumXor(0x811c9dc5, 0x61);
    assert Xor32(0x811c9dc5, 0x61) == 0x811c9da4;
  }

  /** What precedes the first zero byte. */
  function BeforeZero(s: seq<Byte>): seq<Byte> {
    if s == [] || s[0] == 0 then [] else [s[0]] + BeforeZero(s[1..])
  }

  lemma {:induction false} BeforeZeroAt(s: seq<Byte>, n: nat)
    requires n < |s| && s[n] == 0 && forall i :: 0 <= i < n ==> s[i] != 0
    ensures BeforeZero(s) == s[..n]
  {
    if n > 0 {
      BeforeZeroAt(s[1..], n - 1);
      assert s[..n] == [s[0]] + s[1..][..n - 1];
    }
  }

  /** fnv_32a_str */
  method HashStr(str: array<Byte>, h: Word) returns (hval: Word)
    requires exists i :: 0 <= i < str.Length && str[i] == 0
    ensures hval == Hash(BeforeZero(str[..]), h)
  {
    hide Step, BeforeZero;
    hval := h;
    var s := 0;
    while str[s] != 0
      invariant s < str.Length && hval == Hash(str[..s], h)
      invariant forall i :: 0 <= i < s ==> str[i] != 0
      decreases str.Length - s
    {
      assert str[..s + 1][..s] == str[..s];
      hval := TakeIn(hval, str[s]);
      s := s + 1;
    }
    BeforeZeroAt(str[..], s);
  }

  // --- properties ---

  /** Hashing a concatenation is hashing the parts in sequence. */
  lemma {:induction false} HashConcat(a: seq<Byte>, b: seq<Byte>, h: Word)
    ensures Hash(a + b, h) == Hash(b, Hash(a, h))
  {
    if b == [] {
      assert a + b == a;
    } else {
      assert (a + b)[..|a + b| - 1] == a + b[..|b| - 1];
      HashConcat(a, b[..|b| - 1], h);
    }
    hide Step;
  }

  /** On text without zero bytes the string form and the buffer form agree. */
  lemma StrIsBuf(text: seq<Byte>, more: seq<Byte>, h: Word)
    requires 0 !in text
    ensures Hash(BeforeZero(text + [0] + more), h) == Hash(text, h)
  {
    var s := text + [0] + more;
    BeforeZeroAt(s, |text|);
    assert s[..|text|] == text;
  }

  const INVERSE: nat := 0x359c449b

  lemma Undo(x: Word, a: nat, b: nat, k: nat)
    requires a * b == WORD * k + 1
    ensures Low(Low(x * a) * b) == x
  {
    var q, r := x * a / WORD, Low(x * a);
    assert x * a == WORD * q + r;
    Regroup(x, a, b, k, q, r);
    var d := k * x - q * b;
    assert r * b == WORD * d + x;
    assert r * b >= 0;
    assert d >= 0;
    DivModUnique(r * b, WORD, d, x);
  }

  lemma Regroup(x: nat, a: nat, b: nat, k: nat, q: nat, r: nat)
    requires a * b == WORD * k + 1 && x * a == WORD * q + r
    ensures r * b == WORD * (k * x - q * b) + x
  {
    assert x * a * b == x * (a * b);
    assert x * (WORD * k + 1) == WORD * (k * x) + x;
    assert (WORD * q + r) * b == WORD * (q * b) + r * b;
  }

  lemma {:induction false} XorCommutes(x: nat, y: nat)
    ensures Xor(x, y) == Xor(y, x)
    decreases x + y
  {
    if x != 0 || y != 0 { XorCommutes(x / 2, y / 2); }
  }

  /** The state before an octet was taken in. */
  function Unstep(h: Word, b: Byte): (g: Word)
  {
    XorOctet(Low(h * INVERSE), b);
    Xor(Low(h * INVERSE), b)
  }

  /** Taking in an octet is a permutation of the 32-bit states. */
  lemma StepPermutes(h: Word, b: Byte)
    ensures Unstep(Step(h, b), b) == h && Step(Unstep(h, b), b) == h
  {
    hide Low, Xor;
    XorOctet(h, b);
    Undo(Xor(h, b), PRIME, INVERSE, 0x359c99);
    XorSelfInverse(h, b);
    Undo(h, INVERSE, PRIME, 0x359c99);
    XorSelfInverse(Low(h * INVERSE), b);
  }

  /** Different octets lead to different states. */
  lemma OctetsSeparate(h: Word, b: Byte, c: Byte)
    requires Step(h, b) == Step(h, c)
    ensures b == c
  {
    hide Low, Xor;
    XorOctet(h, b);
    XorOctet(h, c);
    Undo(Xor(h, b), PRIME, INVERSE, 0x359c99);
    Undo(Xor(h, c), PRIME, INVERSE, 0x359c99);
    XorCommutes(h, b);
    XorCommutes(h, c);
    XorSelfInverse(b, h);
    XorSelfInverse(c, h);
  }

  lemma {:induction false} StatesStayApart(bytes: seq<Byte>, g: Word, h: Word)
    ensures Hash(bytes, g) == Hash(bytes, h) ==> g == h
  {
    hide Step, Unstep;
    if bytes != [] {
      var init, b := bytes[..|bytes| - 1], bytes[|bytes| - 1];
      StepPermutes(Hash(init, g), b);
      StepPermutes(Hash(init, h), b);
      StatesStayApart(init, g, h);
    }
  }

  /** Two texts of the same length that differ in exactly one byte never share a hash. */
  lemma OneByteChangesHash(s: seq<Byte>, t: seq<Byte>, i: nat, h: Word)
    requires |s| == |t| && i < |s| && s[i] != t[i]
    requires forall k :: 0 <= k < |s| && k != i ==> s[k] == t[k]
    ensures Hash(s, h) != Hash(t, h)
  {
    hide Step;
    var a, c := s[..i], s[i + 1..];
    assert s == a + [s[i]] + c && t == a + [t[i]] + c;
    HashConcat(a + [s[i]], c, h);
    HashConcat(a + [t[i]], c, h);
    assert (a + [s[i]])[..i] == a && (a + [t[i]])[..i] == a;
    if Hash(s, h) == Hash(t, h) {
      StatesStayApart(c, Hash(a + [s[i]], h), Hash(a + [t[i]], h));
      OctetsSeparate(Hash(a, h), s[i], t[i]);
    }
  }
}
