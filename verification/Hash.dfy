/** A hash of bytes that mixes them one at a time into 32 bits. */
module Hash {
  import opened Bits
  import opened Words

  const SIZE: int := 0x1_0000_0000

  type uint32 = x: int | 0 <= x < 0x1_0000_0000

  // ----- Arithmetic on 32 bits -----

  function Add(a: uint32, b: uint32): uint32 {
    (a + b) % SIZE
  }

  lemma Size()
    ensures Pow2(32) == SIZE
  {
    Pow2Values();
    assert Pow2(18) == 0x4_0000;
    assert Pow2(20) == 0x10_0000;
    assert Pow2(22) == 0x40_0000;
    assert Pow2(24) == 0x100_0000;
    assert Pow2(26) == 0x400_0000;
    assert Pow2(28) == 0x1000_0000;
    assert Pow2(30) == 0x4000_0000;
  }

  /** a << n */
  function Left(a: uint32, n: nat): uint32 {
    Size();
    Low(Shl(a, n), 32)
  }

  /** a ^ (a >> n) */
  function XorRight(a: uint32, n: nat): uint32 {
    Size();
    Differ(a, Shr(a, n), 32)
  }

  lemma TestXorRight(a: uint32, n: nat, k: nat)
    requires k < 32
    ensures Test(XorRight(a, n), k) <==> Test(a, k) != Test(a, k + n)
  {
    TestDiffer(a, Shr(a, n), 32, k);
    TestShr(a, n, k);
  }

  lemma {:induction false} NoBitAbove(a: nat, n: nat, k: nat)
    requires a < Pow2(n) && k >= n
    ensures !Test(a, k)
  {
    LowSmall(a, n);
    TestLow(a, n, k);
  }

  /** From the highest bit down, the bits of a are those of a ^ (a >> n). */
  lemma {:induction false} BitsBack(a: uint32, b: uint32, n: nat, k: nat)
    requires n > 0 && XorRight(a, n) == XorRight(b, n)
    ensures Test(a, k) == Test(b, k)
    decreases 32 - k
  {
    hide XorRight, Test;
    Size();
    if k >= 32 {
      NoBitAbove(a, 32, k);
      NoBitAbove(b, 32, k);
    } else {
      TestXorRight(a, n, k);
      TestXorRight(b, n, k);
      BitsBack(a, b, n, k + n);
    }
  }

  lemma XorRightInjective(a: uint32, b: uint32, n: nat)
    requires n > 0 && XorRight(a, n) == XorRight(b, n)
    ensures a == b
  {
    hide XorRight, Test;
    Size();
    forall k | 0 <= k < 32 ensures Test(a, k) == Test(b, k) {
      BitsBack(a, b, n, k);
    }
    SameBits(a, b, 32);
  }

  lemma {:induction false} LowRest(x: nat, n: nat)
    ensures x == Low(x, n) + Shl(Shr(x, n), n)
    decreases n
  {
    if n > 0 {
      LowRest(x / 2, n - 1);
    }
  }

  /** Adding a to a << n multiplies it by 2^n + 1. */
  lemma Scaled(a: uint32, n: nat) returns (q: int)
    ensures a + a * Pow2(n) == Add(a, Left(a, n)) + SIZE * q
  {
    hide Low, Shl, Shr, Pow2;
    Size();
    ShlTimes(a, n);
    LowRest(a * Pow2(n), 32);
    ShlTimes(Shr(a * Pow2(n), 32), 32);
    q := Shr(a * Pow2(n), 32) + (a + Left(a, n)) / SIZE;
  }

  lemma Shifts()
    ensures Pow2(3) == 8 && Pow2(10) == 1024 && Pow2(15) == 32768
  {
    Pow2Values();
  }

  /** The factors are odd, so that different numbers stay different. */
  lemma Odd1025(k: int, j: int)
    requires -SIZE < k < SIZE && 1025 * k == SIZE * j
    ensures k == 0
  {
    assert k == SIZE * (3222273025 * j - 769 * k);
  }

  lemma Odd9(k: int, j: int)
    requires -SIZE < k < SIZE && 9 * k == SIZE * j
    ensures k == 0
  {
    assert k == SIZE * (954437177 * j - 2 * k);
  }

  lemma Odd32769(k: int, j: int)
    requires -SIZE < k < SIZE && 32769 * k == SIZE * j
    ensures k == 0
  {
    assert k == SIZE * (1073709057 * j - 8192 * k);
  }

  lemma AddLeftInjective(a: uint32, b: uint32, n: nat)
    requires n == 3 || n == 10 || n == 15
    requires Add(a, Left(a, n)) == Add(b, Left(b, n))
    ensures a == b
  {
    hide Add, Left, Pow2;
    Shifts();
    var q := Scaled(a, n);
    var r := Scaled(b, n);
    if n == 3 {
      Odd9(a - b, q - r);
    } else if n == 10 {
      Odd1025(a - b, q - r);
    } else {
      Odd32769(a - b, q - r);
    }
  }

  // ----- The hash -----

  /** Mix one byte into the state. */
  function Mix(h: uint32, b: byte): uint32 {
    var sum := Add(h, b);
    XorRight(Add(sum, Left(sum, 10)), 6)
  }

  /** What is done after all bytes. */
  function Finish(h: uint32): uint32 {
    var x := XorRight(Add(h, Left(h, 3)), 11);
    Add(x, Left(x, 15))
  }

  function Fold(h: uint32, bytes: seq<byte>): uint32
    decreases |bytes|
  {
    if bytes == [] then h else Fold(Mix(h, bytes[0]), bytes[1..])
  }

  /** The bytes in the order in which they are mixed: the one to three after the last whole group
      of four come in reverse. */
  function Order(key: seq<byte>): (r: seq<byte>) {
    if |key| >= 4 then key[..4] + Order(key[4..])
    else if |key| == 3 then [key[2], key[1], key[0]]
    else if |key| == 2 then [key[1], key[0]]
    else key
  }

  function HashOf(key: seq<byte>): uint32 {
    Finish(Fold(0, Order(key)))
  }

  // ----- Different keys -----

  lemma AddByteInjective(h: uint32, b: byte, c: byte)
    requires Add(h, b) == Add(h, c)
    ensures b == c
  {
  }

  lemma AddStateInjective(h: uint32, g: uint32, b: byte)
    requires Add(h, b) == Add(g, b)
    ensures h == g
  {
  }

  /** Different states or different bytes give different states. */
  lemma MixInjective(h: uint32, g: uint32, b: byte, c: byte)
    requires Mix(h, b) == Mix(g, c)
    ensures (h == g ==> b == c) && (b == c ==> h == g)
  {
    hide Add, Left, XorRight;
    var x, y := Add(h, b), Add(g, c);
    XorRightInjective(Add(x, Left(x, 10)), Add(y, Left(y, 10)), 6);
    AddLeftInjective(x, y, 10);
    if h == g {
      AddByteInjective(h, b, c);
    }
    if b == c {
      AddStateInjective(h, g, b);
    }
  }

  lemma FinishInjective(h: uint32, g: uint32)
    requires Finish(h) == Finish(g)
    ensures h == g
  {
    hide Add, Left, XorRight;
    var x, y := XorRight(Add(h, Left(h, 3)), 11), XorRight(Add(g, Left(g, 3)), 11);
    AddLeftInjective(x, y, 15);
    XorRightInjective(Add(h, Left(h, 3)), Add(g, Left(g, 3)), 11);
    AddLeftInjective(h, g, 3);
  }

  lemma {:induction false} FoldInjective(h: uint32, g: uint32, bytes: seq<byte>)
    requires Fold(h, bytes) == Fold(g, bytes)
    ensures h == g
    decreases |bytes|
  {
    hide Mix;
    if bytes != [] {
      FoldInjective(Mix(h, bytes[0]), Mix(g, bytes[0]), bytes[1..]);
      MixInjective(h, g, bytes[0], bytes[0]);
    }
  }

  /** s and t differ at i and nowhere else. */
  ghost predicate OnlyAt(s: seq<byte>, t: seq<byte>, i: nat) {
    |s| == |t| && i < |s| && s[i] != t[i] && forall k :: 0 <= k < |s| && k != i ==> s[k] == t[k]
  }

  lemma {:induction false} FoldDiffers(h: uint32, s: seq<byte>, t: seq<byte>, i: nat)
    requires OnlyAt(s, t, i)
    ensures Fold(h, s) != Fold(h, t)
    decreases |s|
  {
    hide Mix;
    if i == 0 {
      assert s[1..] == t[1..];
      if Fold(h, s) == Fold(h, t) {
        FoldInjective(Mix(h, s[0]), Mix(h, t[0]), s[1..]);
        MixInjective(h, h, s[0], t[0]);
      }
    } else {
      assert s[0] == t[0];
      FoldDiffers(Mix(h, s[0]), s[1..], t[1..], i - 1);
    }
  }

  /** Where byte i comes. */
  function Turn(n: nat, i: nat): nat
    requires i < n
  {
    if n >= 4 then if i < 4 then i else 4 + Turn(n - 4, i - 4) else n - 1 - i
  }

  lemma {:induction false} OrderDiffers(s: seq<byte>, t: seq<byte>, i: nat)
    requires OnlyAt(s, t, i)
    ensures OnlyAt(Order(s), Order(t), Turn(|s|, i))
    decreases |s|
  {
    if |s| >= 4 {
      var a, b := s[4..], t[4..];
      if i < 4 {
        assert a == b;
      } else {
        assert s[..4] == t[..4];
        OrderDiffers(a, b, i - 4);
      }
    }
  }

  /** Keys of the same length that differ in one byte have different hashes. */
  lemma OneByteMatters(s: seq<byte>, t: seq<byte>, i: nat)
    requires OnlyAt(s, t, i)
    ensures HashOf(s) != HashOf(t)
  {
    hide Fold, Order, Finish;
    OrderDiffers(s, t, i);
    FoldDiffers(0, Order(s), Order(t), Turn(|s|, i));
    if HashOf(s) == HashOf(t) {
      FinishInjective(Fold(0, Order(s)), Fold(0, Order(t)));
    }
  }

  /** Whole groups of four come in their order, and the bytes after them in reverse. */
  lemma {:induction false} OrderIs(key: seq<byte>, q: nat, r: nat, i: nat)
    requires |key| == 4 * q + r && r < 4 && i < |key|
    ensures |Order(key)| == |key|
    ensures Order(key)[i] == if i < 4 * q then key[i] else key[4 * q + (|key| - 1 - i)]
    decreases q
  {
    if q > 0 && |key| > 4 {
      OrderIs(key[4..], q - 1, r, if i >= 4 then i - 4 else 0);
    }
  }

  // ----- The functions -----

  /** One step, as the code writes it. */
  method Step(h: uint32, b: byte) returns (r: uint32)
    ensures r == Mix(h, b)
  {
    r := Add(h, b);
    r := Add(r, Left(r, 10));
    r := XorRight(r, 6);
  }

  method Last(h: uint32) returns (r: uint32)
    ensures r == Finish(h)
  {
    r := Add(h, Left(h, 3));
    r := XorRight(r, 11);
    r := Add(r, Left(r, 15));
  }

  /** The hash of a key of any length: four bytes at a time, and then the rest from its end. */
  method HashBytes(key: seq<byte>) returns (h: uint32)
    ensures h == HashOf(key)
  {
    hide Mix, Finish;
    h := 0;
    var ptr, keyLen := 0, |key|;
    while keyLen >= 4
      invariant 0 <= ptr <= |key| && keyLen == |key| - ptr
      invariant Fold(0, Order(key)) == Fold(h, Order(key[ptr..]))
    {
      FourBytes(h, key[ptr..]);
      h := Step(h, key[ptr]);
      h := Step(h, key[ptr + 1]);
      h := Step(h, key[ptr + 2]);
      h := Step(h, key[ptr + 3]);
      assert key[ptr..][4..] == key[ptr + 4..];
      keyLen, ptr := keyLen - 4, ptr + 4;
    }
    FewBytes(h, key[ptr..]);
    if keyLen == 3 {
      h := Step(h, key[ptr + 2]);
    }
    if keyLen >= 2 {
      h := Step(h, key[ptr + 1]);
    }
    if keyLen >= 1 {
      h := Step(h, key[ptr]);
    }
    h := Last(h);
  }

  lemma FoldNext(h: uint32, b: byte, rest: seq<byte>)
    ensures Fold(h, [b] + rest) == Fold(Mix(h, b), rest)
  {
    hide Mix;
    assert ([b] + rest)[1..] == rest;
  }

  lemma FoldFour(h: uint32, a: byte, b: byte, c: byte, d: byte, rest: seq<byte>)
    ensures Fold(h, [a, b, c, d] + rest) == Fold(Mix(Mix(Mix(Mix(h, a), b), c), d), rest)
  {
    hide Mix, Fold;
    FoldNext(h, a, [b, c, d] + rest);
    FoldNext(Mix(h, a), b, [c, d] + rest);
    FoldNext(Mix(Mix(h, a), b), c, [d] + rest);
    FoldNext(Mix(Mix(Mix(h, a), b), c), d, rest);
    assert [a, b, c, d] + rest == [a] + ([b, c, d] + rest);
    assert [b, c, d] + rest == [b] + ([c, d] + rest);
    assert [c, d] + rest == [c] + ([d] + rest);
  }

  lemma FourBytes(h: uint32, s: seq<byte>)
    requires |s| >= 4
    ensures Fold(h, Order(s)) == Fold(Mix(Mix(Mix(Mix(h, s[0]), s[1]), s[2]), s[3]), Order(s[4..]))
  {
    hide Mix, Fold;
    assert s[..4] == [s[0], s[1], s[2], s[3]];
    FoldFour(h, s[0], s[1], s[2], s[3], Order(s[4..]));
  }

  lemma FewBytes(h: uint32, s: seq<byte>)
    requires |s| < 4
    ensures Fold(h, Order(s)) ==
      if |s| == 0 then h
      else if |s| == 1 then Mix(h, s[0])
      else if |s| == 2 then Mix(Mix(h, s[1]), s[0])
      else Mix(Mix(Mix(h, s[2]), s[1]), s[0])
  {
    hide Mix;
    if |s| == 2 {
      FoldNext(h, s[1], [s[0]]);
      assert [s[1]] + [s[0]] == [s[1], s[0]];
    } else if |s| == 3 {
      FoldNext(h, s[2], [s[1], s[0]]);
      FoldNext(Mix(h, s[2]), s[1], [s[0]]);
      assert [s[2]] + [s[1], s[0]] == [s[2], s[1], s[0]];
      assert [s[1]] + [s[0]] == [s[1], s[0]];
    }
  }

  /** The n bytes of a number, least significant first. */
  function LittleEndian(x: nat, n: nat): (r: seq<byte>)
    ensures |r| == n
  {
    if n == 0 then [] else [x % 256] + LittleEndian(x / 256, n - 1)
  }

  function FourOf(r: seq<byte>, i: nat): nat
    requires i + 4 <= |r|
  {
    r[i] as int + 0x100 * r[i + 1] as int + 0x1_0000 * r[i + 2] as int + 0x100_0000 * r[i + 3] as int
  }

  /** The number of four bytes, and of eight. */
  lemma LittleEndianValue(x: nat)
    ensures x < 0x1_0000_0000 ==> FourOf(LittleEndian(x, 4), 0) == x
    ensures x < 0x1_0000_0000_0000_0000 ==>
      FourOf(LittleEndian(x, 8), 0) + 0x1_0000_0000 * FourOf(LittleEndian(x, 8), 4) == x
  {
    FourParts(x, 0);
    FourParts(x, 4);
    FourParts(x / 0x1_0000_0000, 0);
  }

  lemma FourParts(x: nat, n: nat)
    ensures var r := LittleEndian(x, n + 4);
      FourOf(r, 0) == x % 0x1_0000_0000 && r[4..] == LittleEndian(x / 0x1_0000_0000, n)
  {
    var a := x / 256;
    var b := a / 256;
    var c := b / 256;
    var d := c / 256;
    var low: nat := x % 256 + 0x100 * (a % 256) + 0x1_0000 * (b % 256) + 0x100_0000 * (c % 256);
    assert x == low + 0x1_0000_0000 * d;
    assert d == x / 0x1_0000_0000 && low == x % 0x1_0000_0000;
    assert LittleEndian(a, n + 3) == [a % 256] + LittleEndian(b, n + 2);
    assert LittleEndian(b, n + 2) == [b % 256] + LittleEndian(c, n + 1);
    assert LittleEndian(c, n + 1) == [c % 256] + LittleEndian(d, n);
  }

  /** The hash of a number of 32 bits is that of its four bytes. */
  method Hash32(key: nat) returns (h: uint32)
    requires key < 0x1_0000_0000
    ensures h == HashOf(LittleEndian(key, 4))
  {
    hide Mix, Finish;
    var ptr := LittleEndian(key, 4);
    FourBytes(0, ptr);
    FewBytes(Mix(Mix(Mix(Mix(0, ptr[0]), ptr[1]), ptr[2]), ptr[3]), ptr[4..]);
    h := 0;
    h := Step(h, ptr[0]);
    h := Step(h, ptr[1]);
    h := Step(h, ptr[2]);
    h := Step(h, ptr[3]);
    h := Last(h);
  }

  /** The hash of a number of 64 bits is that of its eight bytes. */
  method Hash64(key: nat) returns (h: uint32)
    requires key < 0x1_0000_0000_0000_0000
    ensures h == HashOf(LittleEndian(key, 8))
  {
    hide Mix, Finish;
    var ptr := LittleEndian(key, 8);
    var half := ptr[4..];
    FourBytes(0, ptr);
    h := 0;
    h := Step(h, ptr[0]);
    h := Step(h, ptr[1]);
    h := Step(h, ptr[2]);
    h := Step(h, ptr[3]);
    FourBytes(h, half);
    h := Step(h, ptr[4]);
    h := Step(h, ptr[5]);
    h := Step(h, ptr[6]);
    h := Step(h, ptr[7]);
    FewBytes(h, half[4..]);
    h := Last(h);
  }

  /** The hash of a number of 16 bits is that of its two bytes in the other order, as a key of two
      bytes is mixed from its end; it is that of the two bytes only if they are equal. */
  method Hash16(key: nat) returns (h: uint32)
    requires key < 0x1_0000
    ensures var bytes := LittleEndian(key, 2);
      h == HashOf([bytes[1], bytes[0]]) && (h == HashOf(bytes) <==> key / 256 == key % 256)
  {
    hide Mix, Finish;
    var ptr := LittleEndian(key, 2);
    FewBytes(0, [ptr[1], ptr[0]]);
    OrderMatters(ptr[0], ptr[1]);
    assert LittleEndian(key / 256, 1)[0] == key / 256;
    assert ptr == [ptr[0], ptr[1]];
    h := 0;
    h := Step(h, ptr[0]);
    h := Step(h, ptr[1]);
    h := Last(h);
  }

  // ----- Two bytes the other way round -----

  /** c ^ d, for two digits to the base of four. */
  function Xor2(c: nat, d: nat): (r: nat)
    requires c < 4 && d < 4
    ensures r < 4 && (r == 0 <==> c == d) && (d == 0 ==> r == c) && (c == 0 ==> r == d)
  {
    (if c % 2 != d % 2 then 1 else 0) + if c / 2 != d / 2 then 2 else 0
  }

  lemma Xor2Injective(c: nat, d: nat, e: nat)
    requires c < 4 && d < 4 && e < 4 && Xor2(c, e) == Xor2(d, e)
    ensures c == d
  {
  }

  /** Two bits at a time. */
  lemma DifferDigit(a: nat, b: nat, c: nat, d: nat, n: nat)
    requires c < 4 && d < 4
    ensures Differ(4 * a + c, 4 * b + d, n + 2) == 4 * Differ(a, b, n) + Xor2(c, d)
  {
    var x, y := 4 * a + c, 4 * b + d;
    assert x / 2 == 2 * a + c / 2 && y / 2 == 2 * b + d / 2;
    assert x % 2 == c % 2 && y % 2 == d % 2;
    assert x / 2 / 2 == a && y / 2 / 2 == b;
    assert Differ(x / 2, y / 2, n + 1) == Join(c / 2 != d / 2, Differ(a, b, n));
  }

  lemma {:induction false} DifferNone(n: nat)
    ensures Differ(0, 0, n) == 0
    decreases n
  {
    if n > 0 {
      DifferNone(n - 1);
    }
  }

  lemma SixRight(y: nat)
    ensures Shr(y, 6) == y / 64
  {
    assert Shr(y, 6) == Shr(y / 2, 5) == Shr(y / 4, 4) == Shr(y / 8, 3);
    assert Shr(y / 8, 3) == Shr(y / 16, 2) == Shr(y / 32, 1) == Shr(y / 64, 0);
  }

  lemma Times1025(x: byte)
    ensures Add(x, Left(x, 10)) == 1025 * x
  {
    Shifts();
    Size();
    ShlTimes(x, 10);
    LowSmall(1024 * x, 32);
  }

  /** The low ten bits of 1025 x ^ (1025 x >> 6), by the digits of x. */
  function LowDigits(s: nat, r: nat, p: nat, q: nat): (d: nat)
    requires s < 4 && r < 4 && p < 4 && q < 4
    ensures d < 1024
  {
    256 * p + 64 * Xor2(q, r) + 16 * Xor2(p, s) + 4 * r + Xor2(s, q)
  }

  /** The bits above them. */
  function HighDigits(s: nat, r: nat, p: nat, q: nat): (d: nat)
    requires s < 4 && r < 4 && p < 4 && q < 4
    ensures d < 256
  {
    64 * q + 16 * p + 4 * r + Xor2(s, q)
  }

  lemma HighPart(s: nat, r: nat, p: nat, q: nat)
    requires s < 4 && r < 4 && p < 4 && q < 4
    ensures Differ(64 * q + 16 * p + 4 * r + s, q, 22) == HighDigits(s, r, p, q)
  {
    hide Differ, Xor2;
    DifferNone(14);
    DifferDigit(0, 0, q, 0, 14);
    DifferDigit(q, 0, p, 0, 16);
    DifferDigit(4 * q + p, 0, r, 0, 18);
    DifferDigit(16 * q + 4 * p + r, 0, s, q, 20);
  }

  lemma LowPart(x: nat, s: nat, r: nat, p: nat, q: nat)
    requires s < 4 && r < 4 && p < 4 && q < 4
    ensures Differ(1024 * x + 64 * q + 16 * p + 4 * r + s, 256 * p + 64 * r + 16 * s + q + 1024 * q, 32)
         == 1024 * Differ(x, q, 22) + LowDigits(s, r, p, q)
  {
    hide Differ, Xor2;
    var z := 4 * q + p;
    var w := 4 * z + r;
    DifferDigit(x, q, 0, p, 22);
    DifferDigit(4 * x, z, q, r, 24);
    DifferDigit(16 * x + q, w, p, s, 26);
    DifferDigit(64 * x + z, 4 * w + s, r, 0, 28);
    DifferDigit(256 * x + w, 16 * w + 4 * s, s, q, 30);
  }

  /** What mixing a single byte gives. */
  lemma MixByte(s: nat, r: nat, p: nat, q: nat)
    requires s < 4 && r < 4 && p < 4 && q < 4
    ensures Mix(0, 64 * q + 16 * p + 4 * r + s) == 1024 * HighDigits(s, r, p, q) + LowDigits(s, r, p, q) < 0x4_0000
  {
    hide Differ, Xor2, Shr, HighDigits, LowDigits, Left;
    var x := 64 * q + 16 * p + 4 * r + s;
    var y := 1025 * x;
    Times1025(x);
    SixRight(y);
    assert y / 64 == 16 * x + q;
    HighPart(s, r, p, q);
    LowPart(x, s, r, p, q);
  }

  /** What mixing a byte adds to it tells which byte it is. */
  lemma MixAddsInjective(s: nat, r: nat, p: nat, q: nat, s': nat, r': nat, p': nat, q': nat)
    requires s < 4 && r < 4 && p < 4 && q < 4 && s' < 4 && r' < 4 && p' < 4 && q' < 4
    requires 1024 * HighDigits(s, r, p, q) + LowDigits(s, r, p, q) - (64 * q + 16 * p + 4 * r + s)
          == 1024 * HighDigits(s', r', p', q') + LowDigits(s', r', p', q') - (64 * q' + 16 * p' + 4 * r' + s')
    ensures s == s' && r == r' && p == p' && q == q'
  {
    if q < q' {
      CannotCarry(s, r, p, q, s', r', p', q');
    } else if q' < q {
      CannotCarry(s', r', p', q', s, r, p, q);
    } else {
      hide Xor2;
      SameDigits(s, r, p, Xor2(s, q), Xor2(p, s), Xor2(q, r), s', r', p', Xor2(s', q), Xor2(p', s'), Xor2(q, r'));
      SameSmall(s, Xor2(s, q), Xor2(p, s), s', Xor2(s', q), Xor2(p, s'));
      Xor2Injective(s, s', q);
    }
  }

  lemma SameDigits(s: nat, r: nat, p: nat, x: nat, y: nat, z: nat, s': nat, r': nat, p': nat, x': nat, y': nat, z': nat)
    requires s < 4 && r < 4 && p < 4 && x < 4 && y < 4 && z < 4
    requires s' < 4 && r' < 4 && p' < 4 && x' < 4 && y' < 4 && z' < 4
    requires 16624 * p + 4096 * r + 1025 * x + 16 * y + 64 * z - s
          == 16624 * p' + 4096 * r' + 1025 * x' + 16 * y' + 64 * z' - s'
    ensures p == p' && r == r'
  {
  }

  lemma SameSmall(s: nat, x: nat, y: nat, s': nat, x': nat, y': nat)
    requires s < 4 && x < 4 && y < 4 && s' < 4 && x' < 4 && y' < 4
    requires 1025 * x + 16 * y - s == 1025 * x' + 16 * y' - s'
    ensures x == x'
  {
  }

  /** A greater highest digit cannot be made up for by the others. */
  lemma CannotCarry(s: nat, r: nat, p: nat, q: nat, s': nat, r': nat, p': nat, q': nat)
    requires s < 4 && r < 4 && p < 4 && q < q' < 4 && s' < 4 && r' < 4 && p' < 4
    ensures 1024 * HighDigits(s, r, p, q) + LowDigits(s, r, p, q) - (64 * q + 16 * p + 4 * r + s)
          < 1024 * HighDigits(s', r', p', q') + LowDigits(s', r', p', q') - (64 * q' + 16 * p' + 4 * r' + s')
  {
    if p < 3 || r < 3 || Xor2(s, q) < 3 {
      hide Xor2;
    } else {
      assert s == 3 - q;
    }
  }

  lemma Digits(x: byte) returns (s: nat, r: nat, p: nat, q: nat)
    ensures s < 4 && r < 4 && p < 4 && q < 4 && x == 64 * q + 16 * p + 4 * r + s
  {
    var y := x / 4;
    var z := y / 4;
    s, r, p, q := x % 4, y % 4, z % 4, z / 4;
  }

  /** Two bytes have the hash of the same bytes the other way round only if they are equal. */
  lemma OrderMatters(a: byte, b: byte)
    ensures HashOf([a, b]) == HashOf([b, a]) <==> a == b
  {
    hide Mix, Finish;
    FewBytes(0, [a, b]);
    FewBytes(0, [b, a]);
    if HashOf([a, b]) == HashOf([b, a]) {
      FinishInjective(Mix(Mix(0, b), a), Mix(Mix(0, a), b));
      SameSums(a, b);
      SumsTell(a, b);
    }
  }

  lemma NoCarry(x: uint32, b: byte)
    requires x < 0x4_0000
    ensures Add(x, b) == x + b
  {
  }

  lemma SumsTell(a: byte, b: byte)
    requires Add(Mix(0, a), b) == Add(Mix(0, b), a)
    ensures a == b
  {
    hide Mix, Xor2, HighDigits, LowDigits;
    var s, r, p, q := Digits(a);
    var s', r', p', q' := Digits(b);
    MixByte(s, r, p, q);
    MixByte(s', r', p', q');
    NoCarry(Mix(0, a), b);
    NoCarry(Mix(0, b), a);
    MixAddsInjective(s, r, p, q, s', r', p', q');
  }

  lemma SameSums(a: byte, b: byte)
    requires Mix(Mix(0, a), b) == Mix(Mix(0, b), a)
    ensures Add(Mix(0, a), b) == Add(Mix(0, b), a)
  {
    hide Add, Left, XorRight;
    var x, y := Add(Mix(0, a), b), Add(Mix(0, b), a);
    XorRightInjective(Add(x, Left(x, 10)), Add(y, Left(y, 10)), 6);
    AddLeftInjective(x, y, 10);
  }

  // ----- The two mixers by bits -----

  /** Mixing a byte: add it, multiply by 1025 modulo 2^32, and flip each bit for which the one six places
      above is set. */
  lemma MixIs(h: uint32, b: byte)
    ensures var t := 1025 * ((h + b) % 0x1_0000_0000) % 0x1_0000_0000;
      forall k :: 0 <= k < 32 ==> (Test(Mix(h, b), k) <==> Test(t, k) != Test(t, k + 6))
  {
    hide Test, XorRight;
    var sum := Add(h, b);
    LeftIs(sum, 10);
    Shifts();
    var t := Add(sum, Left(sum, 10));
    forall k | 0 <= k < 32 ensures Test(Mix(h, b), k) <==> Test(t, k) != Test(t, k + 6) {
      TestXorRight(t, 6, k);
    }
  }

  /** At the end: multiply by 9, flip each bit for which the one eleven places above is set, and multiply
      by 32769. */
  lemma FinishIs(h: uint32) returns (y: uint32)
    ensures var x := 9 * h % 0x1_0000_0000;
      forall k :: 0 <= k < 32 ==> (Test(y, k) <==> Test(x, k) != Test(x, k + 11))
    ensures Finish(h) == 32769 * y % 0x1_0000_0000
  {
    hide Test, XorRight;
    Shifts();
    LeftIs(h, 3);
    var x := Add(h, Left(h, 3));
    y := XorRight(x, 11);
    forall k | 0 <= k < 32 ensures Test(y, k) <==> Test(x, k) != Test(x, k + 11) {
      TestXorRight(x, 11, k);
    }
    LeftIs(y, 15);
  }

  /** Adding a to a << n multiplies it by 2^n + 1 modulo 2^32. */
  lemma LeftIs(a: uint32, n: nat)
    ensures Add(a, Left(a, n)) == (Pow2(n) + 1) * a % 0x1_0000_0000
  {
    var q := Scaled(a, n);
    var r := Add(a, Left(a, n));
    assert (Pow2(n) + 1) * a == a + a * Pow2(n) == r + SIZE * q;
    ModuloIs(r, q);
  }

  lemma ModuloIs(r: uint32, q: int)
    ensures (r + SIZE * q) % SIZE == r
  {
  }

  /** A hash by its number: that of a single byte of value 1. */
  lemma KnownHash()
    ensures HashOf([1]) == 307143837
  {
    hide Mix, Finish;
    FewBytes(0, [1]);
    MixByte(1, 0, 0, 0);
    KnownFinish();
  }

  lemma KnownFinish()
    ensures Finish(1041) == 307143837
  {
    hide Left, XorRight;
    Shifts();
    LeftIs(1041, 3);
    ElevenApart();
    LeftIs(9373, 15);
  }

  lemma ElevenApart()
    ensures XorRight(9369, 11) == 9373
  {
    hide Differ, Shr;
    ElevenRight();
    DifferDigit(2342, 1, 1, 0, 30);
    DifferDigit(585, 0, 2, 1, 28);
    DifferZero(585, 28);
  }

  lemma ElevenRight()
    ensures Shr(9369, 11) == 4
  {
    SixRight(9369);
    assert Shr(9369, 11) == Shr(4684, 10) == Shr(2342, 9) == Shr(1171, 8) == Shr(585, 7);
    assert Shr(585, 7) == Shr(292, 6);
    SixRight(292);
  }

  lemma {:induction false} DifferZero(a: nat, n: nat)
    requires a < Pow2(n)
    ensures Differ(a, 0, n) == a
    decreases n
  {
    if n > 0 {
      DifferZero(a / 2, n - 1);
    }
  }
}
