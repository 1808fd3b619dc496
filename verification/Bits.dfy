/** Numbers as words of bits, and bit streams as DEFLATE and GIF read them: the least
    significant bit of each byte comes first, and every bit past the end of the data reads
    as zero. */
module Bits {

  type byte = x: int | 0 <= x < 256
  type uint16 = x: int | 0 <= x < 0x1_0000

  function Pow2(n: nat): (r: nat)
    ensures r > 0
  {
    if n == 0 then 1 else 2 * Pow2(n - 1)
  }

  /** x << n */
  function Shl(x: nat, n: nat): nat {
    if n == 0 then x else 2 * Shl(x, n - 1)
  }

  /** x >> n */
  function Shr(x: nat, n: nat): nat {
    if n == 0 then x else Shr(x / 2, n - 1)
  }

  /** x & ((1 << n) - 1) */
  function Low(x: nat, n: nat): (r: nat)
    ensures r < Pow2(n)
  {
    if n == 0 then 0 else x % 2 + 2 * Low(x / 2, n - 1)
  }

  /** The low n bits of x in reverse order. */
  function Rev(x: nat, n: nat): (r: nat)
    ensures r < Pow2(n)
  {
    if n == 0 then 0 else (if x % 2 == 1 then Pow2(n - 1) else 0) + Rev(x / 2, n - 1)
  }

  /** Bit p of the stream. */
  function Bit(data: seq<byte>, p: nat): (r: nat)
    ensures r < 2
  {
    if p / 8 < |data| then Shr(data[p / 8], p % 8) % 2 else 0
  }

  /** Byte f of the stream. */
  function ByteAt(data: seq<byte>, f: nat): byte {
    if f < |data| then data[f] else 0
  }

  /** The n bits from p on as a number, the first bit having weight 1. */
  function Lsb(data: seq<byte>, p: nat, n: nat): (r: nat)
    ensures r < Pow2(n)
    decreases data, n
  {
    if n == 0 then 0 else Bit(data, p) + 2 * Lsb(data, p + 1, n - 1)
  }

  /** The n bits from p on as a number, the last bit having weight 1. */
  function Msb(data: seq<byte>, p: nat, n: nat): (r: nat)
    ensures r < Pow2(n)
  {
    if n == 0 then 0 else 2 * Msb(data, p, n - 1) + Bit(data, p + n - 1)
  }

  // ----- Shifts and masks -----

  lemma Pow2Values()
    ensures Pow2(1) == 2 && Pow2(2) == 4 && Pow2(3) == 8 && Pow2(4) == 16 && Pow2(5) == 32
    ensures Pow2(7) == 128 && Pow2(8) == 256 && Pow2(9) == 512 && Pow2(12) == 0x1000
    ensures Pow2(13) == 0x2000 && Pow2(15) == 0x8000 && Pow2(16) == 0x1_0000
  {
  }

  lemma Halves(b: nat, y: nat)
    requires b < 2
    ensures (b + 2 * y) % 2 == b && (b + 2 * y) / 2 == y
  {
  }

  lemma {:induction false} Pow2Mono(a: nat, b: nat)
    requires a <= b
    ensures Pow2(a) <= Pow2(b)
  {
    if a < b {
      Pow2Mono(a, b - 1);
    }
  }

  lemma {:induction false} ShlDouble(x: nat, n: nat)
    ensures Shl(2 * x, n) == Shl(x, n + 1)
  {
    if n > 0 {
      ShlDouble(x, n - 1);
    }
  }

  lemma {:induction false} ShlMono(x: nat, y: nat, n: nat)
    ensures x <= y ==> Shl(x, n) <= Shl(y, n)
    ensures x < y ==> Shl(x, n) < Shl(y, n)
  {
    if n > 0 {
      ShlMono(x, y, n - 1);
    }
  }

  lemma {:induction false} ShlAdd(x: nat, y: nat, n: nat)
    ensures Shl(x + y, n) == Shl(x, n) + Shl(y, n)
  {
    if n > 0 {
      ShlAdd(x, y, n - 1);
    }
  }

  lemma {:induction false} ShlPow2(a: nat, n: nat)
    ensures Shl(Pow2(a), n) == Pow2(a + n)
  {
    if n > 0 {
      ShlPow2(a, n - 1);
    }
  }

  lemma {:induction false} ShlTimes(q: nat, n: nat)
    ensures Shl(q, n) == q * Pow2(n)
    decreases n
  {
    if n > 0 {
      ShlTimes(q, n - 1);
      DoubleTimes(q, Pow2(n - 1));
    }
  }

  lemma DoubleTimes(q: nat, b: nat)
    ensures 2 * (q * b) == q * (2 * b)
  {
  }

  lemma {:induction false} ShrSnoc(x: nat, n: nat)
    ensures Shr(x, n + 1) == Shr(x, n) / 2
  {
    if n > 0 {
      ShrSnoc(x / 2, n - 1);
    }
  }

  /** A right shift is the quotient by a power of two. */
  lemma {:induction false} ShrBounds(x: nat, n: nat)
    ensures Shl(Shr(x, n), n) <= x < Shl(Shr(x, n) + 1, n)
  {
    if n > 0 {
      ShrBounds(x / 2, n - 1);
    }
  }

  lemma {:induction false} ShrZero(x: nat, n: nat)
    requires x < Pow2(n)
    ensures Shr(x, n) == 0
  {
    if n > 0 {
      ShrZero(x / 2, n - 1);
    }
  }

  lemma {:induction false} LowSmall(x: nat, n: nat)
    requires x < Pow2(n)
    ensures Low(x, n) == x
  {
    if n > 0 {
      LowSmall(x / 2, n - 1);
    }
  }

  lemma {:induction false} LowPeriod(x: nat, n: nat)
    ensures Low(x + Pow2(n), n) == Low(x, n)
  {
    if n > 0 {
      assert (x + Pow2(n)) / 2 == x / 2 + Pow2(n - 1) && (x + Pow2(n)) % 2 == x % 2;
      LowPeriod(x / 2, n - 1);
    }
  }

  lemma {:induction false} LowDistinct(x: nat, y: nat, n: nat)
    requires x < y < x + Pow2(n)
    ensures Low(x, n) != Low(y, n)
  {
    if n > 0 && x % 2 == y % 2 {
      LowDistinct(x / 2, y / 2, n - 1);
    }
  }

  // ----- Reversal -----

  /** Rev by its last bit instead of its first. */
  lemma {:induction false} RevSnoc(x: nat, n: nat)
    ensures Rev(x, n + 1) == 2 * Rev(x, n) + Shr(x, n) % 2
  {
    if n > 0 {
      RevSnoc(x / 2, n - 1);
    }
  }

  /** The first bits of a reversed word are the reversal of the low bits. */
  lemma {:induction false} RevTop(x: nat, a: nat, b: nat)
    ensures Shr(Rev(x, a + b), b) == Rev(x, a)
    decreases b
  {
    if b > 0 {
      RevSnoc(x, a + b - 1);
      RevTop(x, a, b - 1);
    }
  }

  lemma {:induction false} RevRev(x: nat, n: nat)
    requires x < Pow2(n)
    ensures Rev(Rev(x, n), n) == x
  {
    if n > 0 {
      var lo := Rev(x / 2, n - 1);
      RevRev(x / 2, n - 1);
      RevHigh(lo, n - 1, x % 2 == 1);
      RevSnoc(Rev(x, n), n - 1);
      assert Rev(Rev(x, n), n) == 2 * (x / 2) + x % 2;
    }
  }

  lemma {:induction false} RevHigh(lo: nat, n: nat, hi: bool)
    requires lo < Pow2(n)
    ensures Rev((if hi then Pow2(n) else 0) + lo, n) == Rev(lo, n)
    ensures Shr((if hi then Pow2(n) else 0) + lo, n) == if hi then 1 else 0
  {
    if n > 0 {
      RevHigh(lo / 2, n - 1, hi);
      var x := (if hi then Pow2(n) else 0) + lo;
      assert x % 2 == lo % 2 && x / 2 == (if hi then Pow2(n - 1) else 0) + lo / 2;
    }
  }

  lemma {:induction false} RevLow(x: nat, n: nat)
    ensures Rev(Low(x, n), n) == Rev(x, n)
  {
    if n > 0 {
      RevLow(x / 2, n - 1);
      assert Low(x, n) / 2 == Low(x / 2, n - 1) && Low(x, n) % 2 == x % 2;
    }
  }

  /** The words whose first s bits spell c are those whose low s bits are c reversed. */
  lemma RevIffLow(x: nat, c: nat, s: nat)
    requires c < Pow2(s)
    ensures Rev(x, s) == c <==> Low(x, s) == Rev(c, s)
  {
    RevLow(x, s);
    RevRev(c, s);
    RevRev(Low(x, s), s);
  }

  // ----- Reading the stream -----

  lemma {:induction false} LsbSplit(data: seq<byte>, p: nat, a: nat, b: nat)
    ensures Lsb(data, p, a + b) == Lsb(data, p, a) + Shl(Lsb(data, p + a, b), a)
    decreases a
  {
    hide Bit;
    if a > 0 {
      LsbSplit(data, p + 1, a - 1, b);
    }
  }

  /** What masking and shifting do to a number read from the stream. */
  lemma {:induction false} LsbParts(data: seq<byte>, p: nat, a: nat, b: nat)
    ensures Low(Lsb(data, p, a + b), a) == Lsb(data, p, a)
    ensures Shr(Lsb(data, p, a + b), a) == Lsb(data, p + a, b)
    decreases a
  {
    hide Bit;
    if a > 0 {
      LsbParts(data, p + 1, a - 1, b);
    }
  }

  lemma {:induction false} MsbPrefix(data: seq<byte>, p: nat, a: nat, b: nat)
    ensures Shr(Msb(data, p, a + b), b) == Msb(data, p, a)
    decreases b
  {
    hide Bit;
    if b > 0 {
      MsbPrefix(data, p, a, b - 1);
      assert Msb(data, p, a + b) / 2 == Msb(data, p, a + b - 1);
    }
  }

  lemma {:induction false} MsbCons(data: seq<byte>, p: nat, n: nat)
    ensures Msb(data, p, n + 1) == (if Bit(data, p) == 1 then Pow2(n) else 0) + Msb(data, p + 1, n)
  {
    hide Bit;
    if n > 0 {
      MsbCons(data, p, n - 1);
      assert p + 1 + (n - 1) == p + (n + 1) - 1;
    } else {
      assert Msb(data, p, 0) == 0;
    }
  }

  /** Reversing the first-bit-lowest reading gives the first-bit-highest one. */
  lemma {:induction false} RevLsb(data: seq<byte>, p: nat, n: nat)
    ensures Rev(Lsb(data, p, n), n) == Msb(data, p, n)
    decreases n
  {
    hide Bit;
    if n > 0 {
      RevLsb(data, p + 1, n - 1);
      Halves(Bit(data, p), Lsb(data, p + 1, n - 1));
      MsbCons(data, p, n - 1);
    }
  }

  lemma {:induction false} LsbByteTail(data: seq<byte>, f: nat, k: nat)
    requires k <= 8
    ensures Lsb(data, 8 * f + k, 8 - k) == Shr(ByteAt(data, f), k)
    decreases 8 - k
  {
    if k == 8 {
      Pow2Values();
      ShrZero(ByteAt(data, f), 8);
    } else {
      LsbByteTail(data, f, k + 1);
      ShrSnoc(ByteAt(data, f), k);
      assert (8 * f + k) / 8 == f && (8 * f + k) % 8 == k;
      if f >= |data| {
        ShrZero(0, k);
      }
    }
  }

  /** Eight bits from a byte boundary are that byte. */
  lemma LsbByte(data: seq<byte>, f: nat)
    ensures Lsb(data, 8 * f, 8) == ByteAt(data, f)
  {
    LsbByteTail(data, f, 0);
  }

  // ----- Numbers as sequences of bits -----

  function LsbBits(v: nat, n: nat): (r: seq<nat>)
    ensures |r| == n
  {
    if n == 0 then [] else [v % 2] + LsbBits(v / 2, n - 1)
  }

  function MsbBits(v: nat, n: nat): (r: seq<nat>)
    ensures |r| == n
  {
    if n == 0 then [] else MsbBits(v / 2, n - 1) + [v % 2]
  }

  function BitsFrom(data: seq<byte>, p: nat, n: nat): (r: seq<nat>)
    ensures |r| == n
  {
    seq<nat>(n, k requires 0 <= k < n => Bit(data, p + k))
  }

  /** The stream holds these bits from p on. */
  predicate Spells(data: seq<byte>, p: nat, bits: seq<nat>) {
    BitsFrom(data, p, |bits|) == bits
  }

  lemma SpellsConcat(data: seq<byte>, p: nat, a: seq<nat>, b: seq<nat>)
    ensures Spells(data, p, a + b) <==> Spells(data, p, a) && Spells(data, p + |a|, b)
  {
    var x, y := BitsFrom(data, p, |a|), BitsFrom(data, p + |a|, |b|);
    assert BitsFrom(data, p, |a + b|) == x + y;
    assert x == (x + y)[..|a|] && y == (x + y)[|a|..];
    assert a == (a + b)[..|a|] && b == (a + b)[|a|..];
  }

  lemma SpellsOne(data: seq<byte>, p: nat, b: nat)
    ensures Spells(data, p, [b]) <==> Bit(data, p) == b
  {
    assert BitsFrom(data, p, 1) == [Bit(data, p)];
    assert [Bit(data, p)] == [b] <==> [Bit(data, p)][0] == [b][0];
  }

  lemma {:induction false} SpellsLsb(data: seq<byte>, p: nat, v: nat, n: nat)
    requires v < Pow2(n)
    ensures Spells(data, p, LsbBits(v, n)) <==> Lsb(data, p, n) == v
    decreases n
  {
    if n > 0 {
      SpellsLsb(data, p + 1, v / 2, n - 1);
      SpellsConcat(data, p, [v % 2], LsbBits(v / 2, n - 1));
      SpellsOne(data, p, v % 2);
    }
  }

  lemma {:induction false} SpellsMsb(data: seq<byte>, p: nat, v: nat, n: nat)
    requires v < Pow2(n)
    ensures Spells(data, p, MsbBits(v, n)) <==> Msb(data, p, n) == v
  {
    if n > 0 {
      SpellsMsb(data, p, v / 2, n - 1);
      SpellsConcat(data, p, MsbBits(v / 2, n - 1), [v % 2]);
      SpellsOne(data, p + n - 1, v % 2);
    }
  }
}
