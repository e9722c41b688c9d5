/** The streaming interface of md5.c: a context that absorbs byte buffers of any length. */
module Md5Context {
  import opened Bits
  import opened Rfc1321
  import opened Md5
  import opened Sequences

  /** putu32 of a lane: only its low 32 bits are written. */
  method PutWord(data: Lane, a: array<Byte>, at: nat)
    requires at + 4 <= a.Length
    modifies a
    ensures a[..] == old(a[..at]) + EncodeWord(Low(data)) + old(a[at + 4..])
  {
    PutWordValue(data);
    a[at] := data % 256;
    a[at + 1] := Shr(data, 8) % 256;
    a[at + 2] := Shr(data, 16) % 256;
    a[at + 3] := Shr(data, 24) % 256;
  }

  lemma PutWordValue(data: Lane)
    ensures [data % 256, Shr(data, 8) % 256, Shr(data, 16) % 256, Shr(data, 24) % 256] == EncodeWord(Low(data))
  {
    var d1, d2, d3 := Shr(data, 8), Shr(data, 16), Shr(data, 24);
    ShrSum(data, 8, 8); ShrSum(data, 16, 8);
    ShrByte(data); ShrByte(d1); ShrByte(d2);
    hide Shr;
    LowBytes(data, data % 256, d1 % 256, d2 % 256, d3 % 256, d3 / 256);
  }

  lemma LowBytes(data: Lane, b0: Byte, b1: Byte, b2: Byte, b3: Byte, q: nat)
    requires data == b0 + 0x100 * b1 + 0x1_0000 * b2 + 0x100_0000 * b3 + WORD * q
    ensures EncodeWord(Low(data)) == [b0, b1, b2, b3]
  {
    var w := b0 + 0x100 * b1 + 0x1_0000 * b2 + 0x100_0000 * b3;
    DivModUnique(data, WORD, q, w);
    DivModUnique(w, 0x100, b1 + 0x100 * b2 + 0x1_0000 * b3, b0);
    DivModUnique(b1 + 0x100 * b2 + 0x1_0000 * b3, 0x100, b2 + 0x100 * b3, b1);
    DivModUnique(w, 0x1_0000, b2 + 0x100 * b3, b0 + 0x100 * b1);
    DivModUnique(b2 + 0x100 * b3, 0x100, b3, b2);
    DivModUnique(w, 0x100_0000, b3, b0 + 0x100 * b1 + 0x1_0000 * b2);
  }

  lemma ShrByte(x: nat)
    ensures Shr(x, 8) == x / 256
  {
    Pow2Values();
    ShrIsQuotient(x, 8);
  }

  lemma {:induction false} ShrSum(x: nat, m: nat, n: nat)
    ensures Shr(Shr(x, m), n) == Shr(x, m + n)
  {
    if m > 0 { ShrSum(x / 2, m - 1, n); }
  }

  // --- the message as whole blocks and a tail ---

  function Whole(m: seq<Byte>): (w: seq<Byte>)
    ensures |w| % 64 == 0
  {
    m[..|m| - |m| % 64]
  }

  function Tail(m: seq<Byte>): (t: seq<Byte>)
    ensures |t| == |m| % 64 && m == Whole(m) + t
  {
    m[|m| - |m| % 64..]
  }

  /** Whether n bytes end at a block boundary. */
  ghost predicate Aligned(n: nat) {
    n % 64 == 0
  }

  lemma NextBoundary(n: nat)
    requires Aligned(n)
    ensures Aligned(n + 64)
  {}

  lemma LastBoundary(m: seq<Byte>) returns (n: nat)
    ensures Aligned(n) && n <= |m| < n + 64
    ensures Whole(m) == m[..n] && Tail(m) == m[n..] && |m| % 64 == |m| - n
  {
    n := |m| - |m| % 64;
    Boundary(m, n);
  }

  lemma Boundary(m: seq<Byte>, n: nat)
    requires Aligned(n) && n <= |m| < n + 64
    ensures Whole(m) == m[..n] && Tail(m) == m[n..] && |m| % 64 == |m| - n
  {
    DivModUnique(|m|, 64, n / 64, |m| - n);
  }

  /** The bytes of m + data up to a boundary inside data, and the next n of them. */
  lemma Slices(m: seq<Byte>, data: seq<Byte>, pos: nat, n: nat)
    requires pos + n <= |data|
    ensures (m + data)[..|m| + pos] + data[pos..pos + n] == (m + data)[..|m| + pos + n]
    ensures (m + data)[|m| + pos..] == data[pos..]
  {}

  lemma NoTail(m: seq<Byte>, data: seq<Byte>)
    requires |m| % 64 == 0
    ensures Aligned(|m|) && Whole(m) == (m + data)[..|m|]
  {}

  lemma AppendBlock(x: seq<Byte>, block: seq<Byte>)
    requires |block| == 64
    ensures Blocks(x + block) == Compress(Blocks(x), block)
  {
    var m := x + block;
    assert m[..|m| - 64] == x && m[|m| - 64..] == block;
  }

  /** The two words of the bit count of n bytes, modulo 2^64. */
  function BitsLow(n: nat): Word { Low(8 * n) }
  function BitsHigh(n: nat): Word { Low(8 * n / WORD) }

  lemma BitsModulo(n: nat)
    ensures BitsLow(n) + WORD * BitsHigh(n) == 8 * n % LANE
  {
    var q := 8 * n / WORD;
    DivModUnique(8 * n, LANE, q / WORD, BitsLow(n) + WORD * (q % WORD));
  }

  /** Adding len bytes to the two-word bit counter, with a carry detected by unsigned wrap. */
  lemma BitCount(total: nat, len: nat, low: nat, high: nat)
    requires len < WORD && low == BitsLow(total) && Low(high) == BitsHigh(total)
    ensures var low' := Low(low + 8 * len);
            var high' := if low' < low then AddLane(high, 1) else high;
            low' == BitsLow(total + len) && Low(AddLane(high', len / 0x2000_0000)) == BitsHigh(total + len)
  {
    var low' := Low(low + 8 * len);
    var carry := if low' < low then 1 else 0;
    var k, q := 8 * total / WORD, len / 0x2000_0000;
    assert 8 * total == WORD * k + low;
    CarryTest(low, len);
    hide Low, AddLane;
    assert 8 * (total + len) == WORD * (k + q + carry) + low';
    SplitWords(8 * (total + len), k + q + carry, low');
    CarrySum(high, k, carry, q);
  }

  lemma SplitWords(x: nat, high: nat, low: Word)
    requires x == WORD * high + low
    ensures Low(x) == low && x / WORD == high
  {
    DivModUnique(x, WORD, high, low);
  }

  /** An unsigned sum that wrapped is smaller than its first operand. */
  lemma CarryTest(low: Word, len: nat)
    ensures var low' := Low(low + 8 * len);
            low + 8 * len == WORD * (len / 0x2000_0000 + if low' < low then 1 else 0) + low'
  {
    var q, r := len / 0x2000_0000, len % 0x2000_0000;
    var carry := if low + 8 * r >= WORD then 1 else 0;
    SplitWords(low + 8 * len, q + carry, low + 8 * r - WORD * carry);
  }

  lemma CarrySum(high: nat, k: nat, carry: nat, q: nat)
    requires Low(high) == Low(k)
    ensures Low(AddLane(AddLane(high, carry), q)) == Low(k + q + carry)
    ensures Low(AddLane(high, q)) == Low(k + q)
  {
    hide Low, AddLane;
    LowAdd(AddLane(high, carry), q);
    LowAdd(high, carry);
    LowPlus(high + carry, q); LowPlus(q, Low(high + carry)); LowPlus(q, high + carry);
    LowPlus(high, carry + q); LowPlus(k, carry + q);
    LowAdd(high, q); LowAdd(k, q);
    assert high + carry + q == high + (carry + q) && k + q + carry == k + (carry + q);
  }

  /** The counter's bits 3 to 8 are the length of the tail. */
  lemma TailLength(total: nat)
    ensures And(Shr(BitsLow(total), 3), 0x3f) == total % 64
  {
    Pow2Values();
    ShrIsQuotient(BitsLow(total), 3);
    LowBytesOfCount(total);
    AndMask(6, total % 0x2000_0000);
    DivModUnique(total, 64, 0x80_0000 * (total / 0x2000_0000) + total % 0x2000_0000 / 64,
                 total % 0x2000_0000 % 64);
  }

  lemma LowBytesOfCount(total: nat)
    ensures BitsLow(total) / 8 == total % 0x2000_0000
  {
    DivModUnique(8 * total, WORD, total / 0x2000_0000, 8 * (total % 0x2000_0000));
  }

  lemma LengthShifts(len: nat)
    ensures Shl(len, 3) == 8 * len && Shr(len, 29) == len / 0x2000_0000
  {
    Pow2Values();
    ShlIsProduct(len, 3);
    ShrIsQuotient(len, 29);
  }

  function LengthBytes(n: nat): seq<Byte> {
    EncodeWord(BitsLow(n)) + EncodeWord(BitsHigh(n))
  }

  /** The padded message when the length still fits behind the mark byte. */
  lemma PadOneBlock(m: seq<Byte>)
    requires |m| % 64 < 56
    ensures Pad(m) == Whole(m) + (Tail(m) + [0x80] + Zeros(55 - |m| % 64) + LengthBytes(|m|))
  {}

  /** The padded message when the length needs a block of its own. */
  lemma PadTwoBlocks(m: seq<Byte>)
    requires |m| % 64 >= 56
    ensures Pad(m) == Whole(m) + (Tail(m) + [0x80] + Zeros(63 - |m| % 64)) + (Zeros(56) + LengthBytes(|m|))
  {
    assert Zeros(PadLength(|m|)) == Zeros(63 - |m| % 64) + Zeros(56);
  }

  /** memcpy. */
  method Copy(dst: array<Byte>, at: nat, src: seq<Byte>)
    requires at + |src| <= dst.Length
    modifies dst
    ensures dst[..] == old(dst[..at]) + src + old(dst[at + |src|..])
  {
    forall i | 0 <= i < |src| { dst[at + i] := src[i]; }
  }

  class Context {
    const buf: array<Lane>
    const inn: array<Byte>
    const digest: array<Byte>
    var low: nat
    var high: nat
    var hexdigest: string

    ghost predicate Shape() {
      buf.Length == 4 && inn.Length == 64 && digest.Length == 16 && inn != digest
    }

    /** The context stands for the bytes m: buf folds the whole blocks, inn starts with the tail. */
    ghost predicate Absorbed(m: seq<Byte>)
      reads this, buf, inn
    {
      && Shape()
      && Lows(buf[0], buf[1], buf[2], buf[3]) == Blocks(Whole(m))
      && Tail(m) <= inn[..]
      && low == BitsLow(|m|)
      && high < LANE && Low(high) == BitsHigh(|m|)
    }

    constructor ()
      ensures Absorbed([])
      ensures fresh(buf) && fresh(inn) && fresh(digest)
    {
      buf := new Lane[4] [0x67452301, 0xefcdab89, 0x98badcfe, 0x10325476];
      inn := new Byte[64](_ => 0);
      digest := new Byte[16](_ => 0);
      low, high, hexdigest := 0, 0, "";
    }

    /** Update the bit count; the result is the number of bytes already in the buffer. */
    method Count(ghost total: nat, len: nat) returns (t: nat)
      requires len < WORD && low == BitsLow(total) && Low(high) == BitsHigh(total)
      modifies this`low, this`high
      ensures low == BitsLow(total + len)
      ensures high < LANE && Low(high) == BitsHigh(total + len)
      ensures t == total % 64
    {
      BitCount(total, len, low, high);
      TailLength(total);
      LengthShifts(len);
      And32(low + Shl(len, 3));
      hide And, Shl, Shr, Pow2, BitsLow, BitsHigh, Low, AddLane;
      t := low;
      low := And(t + Shl(len, 3), 0xffffffff);
      if low < t {
        high := AddLane(high, 1);
      }
      high := AddLane(high, Shr(len, 29));
      t := And(Shr(t, 3), 0x3f);
    }

    /** Compress the 64 bytes collected in inn, the next block after the bytes x. */
    method Absorb(ghost x: seq<Byte>)
      requires Shape() && Lows(buf[0], buf[1], buf[2], buf[3]) == Blocks(x)
      modifies buf
      ensures Lows(buf[0], buf[1], buf[2], buf[3]) == Blocks(x + inn[..])
    {
      AppendBlock(x, inn[..]);
      hide Compress, Blocks, Lows;
      Transform(buf, inn);
    }

    /** The data from pos on that fills whole 64-byte chunks; m + data[..pos] ends at a boundary. */
    method Chunks(ghost m: seq<Byte>, data: seq<Byte>, pos0: nat, len0: nat) returns (pos: nat, len: nat)
      requires Shape() && pos0 + len0 == |data| && Aligned(|m| + pos0)
      requires Lows(buf[0], buf[1], buf[2], buf[3]) == Blocks((m + data)[..|m| + pos0])
      modifies buf, inn
      ensures pos + len == |data| && len < 64 && Aligned(|m| + pos)
      ensures Lows(buf[0], buf[1], buf[2], buf[3]) == Blocks((m + data)[..|m| + pos])
    {
      hide Blocks, Lows, Aligned;
      pos, len := pos0, len0;
      while len >= 64
        invariant pos + len == |data| && Aligned(|m| + pos)
        invariant Lows(buf[0], buf[1], buf[2], buf[3]) == Blocks((m + data)[..|m| + pos])
      {
        Copy(inn, 0, data[pos..pos + 64]);
        assert inn[..] == data[pos..pos + 64];
        Absorb((m + data)[..|m| + pos]);
        Slices(m, data, pos, 64);
        NextBoundary(|m| + pos);
        pos, len := pos + 64, len - 64;
      }
    }

    method Rest(ghost m: seq<Byte>, data: seq<Byte>, pos: nat)
      requires Shape() && pos <= |data| < pos + 64 && Aligned(|m| + pos)
      requires Lows(buf[0], buf[1], buf[2], buf[3]) == Blocks((m + data)[..|m| + pos])
      requires low == BitsLow(|m| + |data|)
      requires high < LANE && Low(high) == BitsHigh(|m| + |data|)
      modifies inn
      ensures Absorbed(m + data)
    {
      hide Blocks, Lows, Low, Aligned, BitsLow, BitsHigh, Whole, Tail;
      Copy(inn, 0, data[pos..]);
      Slices(m, data, pos, 0);
      Boundary(m + data, |m| + pos);
    }

    /** Complete the block that the tail of m has begun. */
    method FillBlock(ghost m: seq<Byte>, data: seq<Byte>, t: nat)
      requires Shape() && Lows(buf[0], buf[1], buf[2], buf[3]) == Blocks(Whole(m)) && Tail(m) <= inn[..]
      requires t == |m| % 64 && t + |data| == 64
      modifies buf, inn
      ensures Aligned(|m| + |data|) && Lows(buf[0], buf[1], buf[2], buf[3]) == Blocks(m + data)
    {
      hide Blocks, Lows, Low, Aligned, BitsLow, BitsHigh, Whole, Tail;
      ghost var base := LastBoundary(m);
      Copy(inn, t, data);
      assert inn[..] == m[base..] + data;
      Absorb(m[..base]);
      assert m[..base] + (m[base..] + data) == m + data;
      NextBoundary(base);
    }

    /** A buffer that does not complete the block only lengthens the tail. */
    method ExtendTail(ghost m: seq<Byte>, data: seq<Byte>, t: nat)
      requires Shape() && Lows(buf[0], buf[1], buf[2], buf[3]) == Blocks(Whole(m)) && Tail(m) <= inn[..]
      requires t == |m| % 64 && t + |data| < 64
      requires low == BitsLow(|m| + |data|) && high < LANE && Low(high) == BitsHigh(|m| + |data|)
      modifies inn
      ensures Absorbed(m + data)
    {
      hide Blocks, Lows, Low, Aligned, BitsLow, BitsHigh, Whole, Tail;
      ghost var base := LastBoundary(m);
      Boundary(m + data, base);
      Copy(inn, t, data);
      assert (m + data)[base..] == m[base..] + data && (m + data)[..base] == m[..base];
    }

    method Update(ghost m: seq<Byte>, data: seq<Byte>)
      requires Absorbed(m) && |data| < WORD
      modifies this, buf, inn
      ensures Absorbed(m + data)
    {
      var pos, len := 0, |data|;
      var t := Count(|m|, len);
      if t != 0 {
        var room := 64 - t;
        if len < room {
          ExtendTail(m, data, t);
          return;
        }
        FillBlock(m, data[..room], t);
        assert m + data[..room] == (m + data)[..|m| + room];
        pos, len := room, len - room;
      } else {
        NoTail(m, data);
      }
      // whole 64-byte chunks, then the remaining bytes
      hide Blocks, Lows, Low, Aligned, BitsLow, BitsHigh, Whole, Tail;
      pos, len := Chunks(m, data, pos, len);
      Rest(m, data, pos);
    }

    /** Pad the tail with the mark byte and zeros up to the length field; the result is the bytes
        compressed so far. */
    method PadTail(ghost m: seq<Byte>) returns (ghost x: seq<Byte>)
      requires Absorbed(m)
      modifies buf, inn
      ensures Lows(buf[0], buf[1], buf[2], buf[3]) == Blocks(x)
      ensures x + (inn[..56] + LengthBytes(|m|)) == Pad(m)
    {
      TailLength(|m|);
      hide BitsLow, BitsHigh, Blocks, Lows, Low, Pad, LengthBytes;
      var count := And(Shr(low, 3), 0x3f);
      x := Whole(m);

      // the mark byte always fits
      inn[count] := 0x80;
      assert inn[..count + 1] == Tail(m) + [0x80];
      var p := count + 1;
      count := 64 - 1 - count;

      // pad out to 56 mod 64
      if count < 8 {
        Copy(inn, p, Zeros(count));
        assert inn[..] == Tail(m) + [0x80] + Zeros(count);
        Absorb(x);
        PadTwoBlocks(m);
        x := x + inn[..];
        Copy(inn, 0, Zeros(56));
        assert inn[..56] == Zeros(56);
      } else {
        Copy(inn, p, Zeros(count - 8));
        assert inn[..56] == Tail(m) + [0x80] + Zeros(count - 8);
        PadOneBlock(m);
      }
    }

    method Final(ghost m: seq<Byte>)
      requires Absorbed(m)
      modifies this, buf, inn, digest
      ensures digest[..] == Digest(m)
      ensures hexdigest == Hex(Digest(m))
    {
      hide Blocks, BitsLow, BitsHigh, Pad, Low, Lows, LengthBytes, Encode;
      ghost var x := PadTail(m);
      PutLength(|m|);
      Absorb(x);
      WriteDigest(Blocks(Pad(m)));
      hexdigest := HexString(digest);
    }

    /** Append the length in bits. */
    method PutLength(ghost n: nat)
      requires Shape() && low == BitsLow(n) && high < LANE && Low(high) == BitsHigh(n)
      modifies inn
      ensures inn[..] == old(inn[..56]) + LengthBytes(n)
    {
      LowOfWord(BitsLow(n));
      hide BitsLow, BitsHigh, Low, EncodeWord;
      PutWord(low, inn, 56);
      PutWord(high, inn, 60);
    }

    method WriteDigest(ghost w: Words)
      requires Shape() && Lows(buf[0], buf[1], buf[2], buf[3]) == w
      modifies digest
      ensures digest[..] == Encode(w)
    {
      hide EncodeWord, Low;
      PutWord(buf[0], digest, 0);
      PutWord(buf[1], digest, 4);
      PutWord(buf[2], digest, 8);
      PutWord(buf[3], digest, 12);
    }
  }

  method HexString(digest: array<Byte>) returns (hex: string)
    ensures hex == Hex(digest[..])
  {
    hex := "";
    for i := 0 to digest.Length
      invariant hex == Hex(digest[..i])
    {
      assert digest[..i + 1][..i] == digest[..i];
      hex := hex + [HEX[digest[i] / 16], HEX[digest[i] % 16]];
    }
    assert digest[..digest.Length] == digest[..];
  }

  /** Init, one Update per chunk, Final: the digest depends on the concatenation only. */
  method HashChunks(chunks: seq<seq<Byte>>) returns (digest: seq<Byte>, hex: string)
    requires forall c :: c in chunks ==> |c| < WORD
    ensures digest == Digest(Concat(chunks))
    ensures hex == Hex(Digest(Concat(chunks)))
  {
    var ctx := new Context();
    for i := 0 to |chunks|
      invariant fresh(ctx) && fresh(ctx.buf) && fresh(ctx.inn) && fresh(ctx.digest)
      invariant ctx.Absorbed(Concat(chunks[..i]))
    {
      assert chunks[..i + 1][..i] == chunks[..i];
      ctx.Update(Concat(chunks[..i]), chunks[i]);
    }
    assert chunks[..|chunks|] == chunks;
    ctx.Final(Concat(chunks));
    digest, hex := ctx.digest[..], ctx.hexdigest;
  }
}
