/** A stream that never ends: 1025 stored bytes, and a block whose codes have only the reserved
    length symbol 286 and a distance symbol, both coded by zeros. Past its header there are only
    zeros, so that copies of no bytes follow each other without end: each takes 24 bits, before
    and after which 23 are buffered. */
module EndlessBlock {
  import opened Bits
  import opened CanonicalCode
  import opened Courses
  import opened Deflate
  import opened DeflateHeader
  import opened DeflateLengths
  import opened Endless
  import opened Options
  import opened Refills

  const HEAD: seq<byte> := [0xF5, 0x54, 0x80, 0x60, 0xF3, 0xE7, 0x07, 0x88, 0x44, 0x01, 0x00]

  function Data(bytes: seq<byte>): seq<byte> {
    [0x00, 0x01, 0x04, 0xFE, 0xFB] + bytes + HEAD
  }

  // ----- The bits -----

  lemma HeadBit(bytes: seq<byte>, k: nat)
    requires |bytes| == 1025
    ensures Bit(Data(bytes), 8240 + k) == Bit(HEAD, k)
  {
    assert (8240 + k) / 8 == 1030 + k / 8 && (8240 + k) % 8 == k % 8;
    if k / 8 < 11 {
      assert Data(bytes)[1030 + k / 8] == HEAD[k / 8];
    }
  }

  lemma {:induction false} HeadLsb(bytes: seq<byte>, k: nat, n: nat)
    requires |bytes| == 1025
    ensures Lsb(Data(bytes), 8240 + k, n) == Lsb(HEAD, k, n)
    decreases n
  {
    hide Bit;
    if n > 0 {
      HeadBit(bytes, k);
      HeadLsb(bytes, k + 1, n - 1);
    }
  }

  lemma {:induction false} HeadMsb(bytes: seq<byte>, k: nat, n: nat)
    requires |bytes| == 1025
    ensures Msb(Data(bytes), 8240 + k, n) == Msb(HEAD, k, n)
    decreases n
  {
    hide Bit;
    if n > 0 {
      HeadBit(bytes, k + n - 1);
      HeadMsb(bytes, k, n - 1);
    }
  }

  /** Bit i of a byte. */
  function BitOf(b: byte, i: nat): nat {
    if i == 0 then b % 2 else if i == 1 then b / 2 % 2 else if i == 2 then b / 4 % 2 else if i == 3 then b / 8 % 2
    else if i == 4 then b / 16 % 2 else if i == 5 then b / 32 % 2 else if i == 6 then b / 64 % 2 else b / 128 % 2
  }

  lemma Halved(x: nat, i: int)
    ensures i == 0 ==> Shr(x, i) == x
    ensures i > 0 ==> Shr(x, i) == Shr(x / 2, i - 1)
  {
  }

  lemma Shifts(b: byte, i: nat)
    requires i < 8
    ensures Shr(b, i) % 2 == BitOf(b, i)
  {
    Halved(b, i);
    Halved(b / 2, i - 1);
    Halved(b / 4, i - 2);
    Halved(b / 8, i - 3);
    Halved(b / 16, i - 4);
    Halved(b / 32, i - 5);
    Halved(b / 64, i - 6);
    Halved(b / 128, i - 7);
    assert b / 2 / 2 == b / 4 && b / 4 / 2 == b / 8 && b / 8 / 2 == b / 16 && b / 16 / 2 == b / 32;
    assert b / 32 / 2 == b / 64 && b / 64 / 2 == b / 128;
  }

  lemma BitIs(j: nat, i: nat)
    requires j < 11 && i < 8
    ensures Bit(HEAD, 8 * j + i) == BitOf(HEAD[j], i)
  {
    assert (8 * j + i) / 8 == j && (8 * j + i) % 8 == i;
    Shifts(HEAD[j], i);
  }

  /** All bits of byte j. */
  lemma ByteIs(j: nat, b: byte)
    requires j < 11 && HEAD[j] == b
    ensures Bit(HEAD, 8 * j) == b % 2 && Bit(HEAD, 8 * j + 1) == b / 2 % 2 && Bit(HEAD, 8 * j + 2) == b / 4 % 2
    ensures Bit(HEAD, 8 * j + 3) == b / 8 % 2 && Bit(HEAD, 8 * j + 4) == b / 16 % 2
    ensures Bit(HEAD, 8 * j + 5) == b / 32 % 2
    ensures Bit(HEAD, 8 * j + 6) == b / 64 % 2 && Bit(HEAD, 8 * j + 7) == b / 128 % 2
  {
    hide Bit;
    BitIs(j, 0);
    BitIs(j, 1);
    BitIs(j, 2);
    BitIs(j, 3);
    BitIs(j, 4);
    BitIs(j, 5);
    BitIs(j, 6);
    BitIs(j, 7);
  }

  lemma ThreeBits(data: seq<byte>, p: nat)
    ensures Lsb(data, p, 1) == Bit(data, p) && Lsb(data, p, 2) == Bit(data, p) + 2 * Bit(data, p + 1)
    ensures Lsb(data, p, 3) == Bit(data, p) + 2 * Bit(data, p + 1) + 4 * Bit(data, p + 2)
  {
    hide Bit;
    assert Lsb(data, p + 3, 0) == 0 && Lsb(data, p + 2, 0) == 0 && Lsb(data, p + 1, 0) == 0;
    assert Lsb(data, p + 1, 1) == Bit(data, p + 1) && Lsb(data, p + 2, 1) == Bit(data, p + 2);
    assert Lsb(data, p + 1, 2) == Bit(data, p + 1) + 2 * Bit(data, p + 2);
  }

  lemma SevenBits(data: seq<byte>, p: nat)
    ensures Lsb(data, p, 4) == Lsb(data, p, 1) + 2 * Lsb(data, p + 1, 3)
    ensures Lsb(data, p, 5) == Lsb(data, p, 2) + 4 * Lsb(data, p + 2, 3)
    ensures Lsb(data, p, 7) == Lsb(data, p, 3) + 8 * Lsb(data, p + 3, 1) + 16 * Lsb(data, p + 4, 3)
  {
    hide Bit;
    ThreeBits(data, p);
    ThreeBits(data, p + 1);
    ThreeBits(data, p + 2);
    ThreeBits(data, p + 3);
    ThreeBits(data, p + 4);
    assert Lsb(data, p + 1, 4) == Bit(data, p + 1) + 2 * Lsb(data, p + 2, 3);
    assert Lsb(data, p + 3, 4) == Bit(data, p + 3) + 2 * Lsb(data, p + 4, 3);
    assert Lsb(data, p + 2, 5) == Bit(data, p + 2) + 2 * Lsb(data, p + 3, 4);
    assert Lsb(data, p + 1, 6) == Bit(data, p + 1) + 2 * Lsb(data, p + 2, 5);
  }

  /** The last block, with its own codes. */
  lemma LastBlock()
    ensures Bit(HEAD, 0) == 1 && Lsb(HEAD, 1, 2) == 2
  {
    hide Bit, Lsb;
    ByteIs(0, 0xF5);
    ThreeBits(HEAD, 1);
  }

  lemma FiveAt(p: nat)
    ensures Lsb(HEAD, p, 5) == Bit(HEAD, p) + 2 * Bit(HEAD, p + 1) + 4 * Bit(HEAD, p + 2) + 8 * Bit(HEAD, p + 3)
      + 16 * Bit(HEAD, p + 4)
    ensures Lsb(HEAD, p, 4) == Bit(HEAD, p) + 2 * Bit(HEAD, p + 1) + 4 * Bit(HEAD, p + 2) + 8 * Bit(HEAD, p + 3)
  {
    hide Bit, Lsb;
    SevenBits(HEAD, p);
    ThreeBits(HEAD, p);
    ThreeBits(HEAD, p + 1);
    ThreeBits(HEAD, p + 2);
  }

  /** How many lengths there are. */
  lemma Counts()
    ensures Lsb(HEAD, 3, 5) == 30 && Lsb(HEAD, 8, 5) == 20 && Lsb(HEAD, 13, 4) == 2
  {
    hide Bit, Lsb;
    ByteIs(0, 0xF5);
    ByteIs(1, 0x54);
    ByteIs(2, 0x80);
    FiveAt(3);
    FiveAt(8);
    FiveAt(13);
  }

  /** The lengths of the code for code lengths. */
  lemma Threes()
    ensures Lsb(HEAD, 17, 3) == 0 && Lsb(HEAD, 20, 3) == 0 && Lsb(HEAD, 23, 3) == 1
    ensures Lsb(HEAD, 26, 3) == 0 && Lsb(HEAD, 29, 3) == 3 && Lsb(HEAD, 32, 3) == 3
  {
    hide Bit, Lsb;
    ByteIs(2, 0x80);
    ByteIs(3, 0x60);
    ByteIs(4, 0xF3);
    ThreeBits(HEAD, 17);
    ThreeBits(HEAD, 20);
    ThreeBits(HEAD, 23);
    ThreeBits(HEAD, 26);
    ThreeBits(HEAD, 29);
    ThreeBits(HEAD, 32);
  }

  /** How many zeros there are. */
  lemma Zeros()
    ensures Lsb(HEAD, 36, 7) == 127 && Lsb(HEAD, 44, 7) == 126 && Lsb(HEAD, 52, 7) == 0 && Lsb(HEAD, 63, 7) == 9
  {
    hide Bit, Lsb;
    FirstZeros();
    ByteIs(6, 0x07);
    ByteIs(7, 0x88);
    ByteIs(8, 0x44);
    SevenAt(52);
    SevenAt(63);
  }

  lemma FirstZeros()
    ensures Lsb(HEAD, 36, 7) == 127 && Lsb(HEAD, 44, 7) == 126
  {
    hide Bit, Lsb;
    ByteIs(4, 0xF3);
    ByteIs(5, 0xE7);
    ByteIs(6, 0x07);
    SevenAt(36);
    SevenAt(44);
  }

  lemma SevenAt(p: nat)
    ensures Lsb(HEAD, p, 7) == Bit(HEAD, p) + 2 * Bit(HEAD, p + 1) + 4 * Bit(HEAD, p + 2) + 8 * Bit(HEAD, p + 3)
      + 16 * Bit(HEAD, p + 4) + 32 * Bit(HEAD, p + 5) + 64 * Bit(HEAD, p + 6)
  {
    hide Bit, Lsb;
    SevenBits(HEAD, p);
    ThreeBits(HEAD, p);
    ThreeBits(HEAD, p + 3);
    ThreeBits(HEAD, p + 4);
  }

  lemma TopBits(data: seq<byte>, p: nat)
    ensures Msb(data, p, 1) == Bit(data, p)
    ensures Msb(data, p, 3) == 4 * Bit(data, p) + 2 * Bit(data, p + 1) + Bit(data, p + 2)
  {
    hide Bit;
    assert Msb(data, p, 0) == 0;
    assert Msb(data, p, 2) == 2 * Msb(data, p, 1) + Bit(data, p + 1);
  }

  /** The code words of the operations: 0 for zeros, 100 for length 7 and 101 for length 8. */
  lemma Words()
    ensures Msb(HEAD, 35, 1) == Msb(HEAD, 43, 1) == Msb(HEAD, 51, 1) == Msb(HEAD, 62, 1) == 0
    ensures Msb(HEAD, 59, 3) == 4 && Msb(HEAD, 70, 3) == 5
  {
    hide Bit, Msb;
    FirstWords();
    ByteIs(7, 0x88);
    ByteIs(8, 0x44);
    ByteIs(9, 0x01);
    TopBits(HEAD, 62);
    TopBits(HEAD, 59);
    TopBits(HEAD, 70);
  }

  lemma FirstWords()
    ensures Msb(HEAD, 35, 1) == Msb(HEAD, 43, 1) == Msb(HEAD, 51, 1) == 0
  {
    hide Bit, Msb;
    ByteIs(4, 0xF3);
    ByteIs(5, 0xE7);
    ByteIs(6, 0x07);
    TopBits(HEAD, 35);
    TopBits(HEAD, 43);
    TopBits(HEAD, 51);
  }

  /** Only zeros come after the header. */
  lemma ZerosAfter(k: nat)
    requires k >= 73
    ensures Bit(HEAD, k) == 0
  {
    if k < 80 {
      ByteIs(9, 0x01);
    } else if k < 88 {
      ByteIs(10, 0x00);
    }
  }

  // ----- Codes of a single symbol -----

  /** Only symbol i has a code, of v bits. */
  predicate Only(l: seq<nat>, i: nat, v: nat) {
    i < |l| && 1 <= v <= MAX_LENGTH && forall j :: 0 <= j < |l| ==> l[j] == if j == i then v else 0
  }

  lemma {:induction false} OnlyCount(l: seq<nat>, i: nat, v: nat, s: nat, n: nat)
    requires Only(l, i, v) && s >= 1 && n <= |l|
    ensures CanonicalCode.Count(l, s, n) == if s == v && n > i then 1 else 0
    decreases n
  {
    if n > 0 {
      OnlyCount(l, i, v, s, n - 1);
    }
  }

  lemma {:induction false} OnlyFirst(l: seq<nat>, i: nat, v: nat, s: nat)
    requires Only(l, i, v) && 1 <= s <= v
    ensures First(l, s) == 0
    decreases s
  {
    hide Only, CanonicalCode.Count;
    if s > 1 {
      OnlyFirst(l, i, v, s - 1);
      OnlyCount(l, i, v, s - 1, |l|);
    }
  }

  lemma {:induction false} OnlyKraft(l: seq<nat>, i: nat, v: nat, n: nat)
    requires Only(l, i, v) && n <= |l|
    ensures IsLengths(l) && Kraft(l, n) == if n > i then Pow2(MAX_LENGTH - v) else 0
    decreases n
  {
    hide Pow2;
    if n > 0 {
      OnlyKraft(l, i, v, n - 1);
    }
  }

  lemma OnlyIsCode(l: seq<nat>, i: nat, v: nat)
    requires Only(l, i, v)
    ensures IsCode(l)
  {
    OnlyKraft(l, i, v, |l|);
    hide Only, Kraft;
    Pow2Mono(MAX_LENGTH - v, MAX_LENGTH);
  }

  /** It is coded by zeros. */
  lemma OnlySymbol(l: seq<nat>, i: nat, v: nat, data: seq<byte>, q: nat)
    requires Only(l, i, v) && Msb(data, q, v) == 0
    ensures SymbolAndEnd(l, data, q) == Some((i, q + v))
  {
    OnlyFirst(l, i, v, v);
    OnlyCount(l, i, v, v, i);
    SymbolIs(l, i, data, q);
  }

  // ----- Round and round -----

  lemma {:induction false} ZeroMsb(bytes: seq<byte>, q: nat, n: nat)
    requires |bytes| == 1025 && q >= 8313
    ensures Msb(Data(bytes), q, n) == 0
    decreases n
  {
    hide Bit;
    if n > 0 {
      ZeroMsb(bytes, q, n - 1);
      HeadBit(bytes, q - 8240 + n - 1);
      ZerosAfter(q - 8240 + n - 1);
    }
  }

  lemma {:induction false} ZeroLsb(bytes: seq<byte>, q: nat, n: nat)
    requires |bytes| == 1025 && q >= 8313
    ensures Lsb(Data(bytes), q, n) == 0
    decreases n
  {
    hide Bit;
    if n > 0 {
      ZeroLsb(bytes, q + 1, n - 1);
      HeadBit(bytes, q - 8240);
      ZerosAfter(q - 8240);
    }
  }

  lemma Sizes()
    ensures LengthExtra(29) == LengthBase(29) == 0 && DistExtra(20) == 9 && DistBase(20) == 1025
  {
    assert Pow2(9) == 512 by {
      Pow2Values();
    }
    ShlTimes(2, 9);
  }

  /** The item after the header, and wherever zeros follow. */
  lemma NextItem(bytes: seq<byte>, l: seq<nat>, d: seq<nat>, q: nat)
    requires |bytes| == 1025 && Only(l, 286, 7) && Only(d, 20, 8) && q >= 8313
    ensures var data := Data(bytes);
      ItemAt(ReaderOf(l, data), ReaderOf(d, data), data, q) == Tok(Copy(286, 0, 20, 0), q + 24)
  {
    hide SymbolAndEnd, Lsb, Only, Data;
    Sizes();
    ZeroMsb(bytes, q, 7);
    ZeroMsb(bytes, q + 7, 8);
    ZeroLsb(bytes, q + 7, 0);
    ZeroLsb(bytes, q + 15, 9);
    OnlySymbol(l, 286, 7, Data(bytes), q);
    OnlySymbol(d, 20, 8, Data(bytes), q + 7);
  }

  /** It leaves as many bits in the buffer as there were. */
  lemma NextFetched(bytes: seq<byte>, l: seq<nat>, d: seq<nat>, q: nat, f: nat)
    requires |bytes| == 1025 && Only(l, 286, 7) && Only(d, 20, 8) && q >= 8313 && 8 * f == q + 23
    ensures var data := Data(bytes);
      ItemFetched(ReaderOf(l, data), ReaderOf(d, data), data, q, f) == Some(f + 3)
  {
    hide SymbolAndEnd, Only, Data, LengthExtra, DistExtra;
    Sizes();
    ZeroMsb(bytes, q, 7);
    ZeroMsb(bytes, q + 7, 8);
    OnlySymbol(l, 286, 7, Data(bytes), q);
    OnlySymbol(d, 20, 8, Data(bytes), q + 7);
  }

  lemma NextTurn(bytes: seq<byte>, l: seq<nat>, d: seq<nat>, room: nat, s: State)
    requires |bytes| == 1025 <= s.len <= room && Only(l, 286, 7) && Only(d, 20, 8) && s.p >= 8313 && 8 * s.f == s.p + 23
    ensures var data := Data(bytes);
      Turn(ReaderOf(l, data), ReaderOf(d, data), data, room, s) == Some(State(s.p + 24, s.f + 3, s.len))
  {
    hide ItemAt, ItemFetched, ReaderOf, Only;
    NextItem(bytes, l, d, s.p);
    NextFetched(bytes, l, d, s.p, s.f);
    Sizes();
  }

  lemma {:induction false} GoesOn(bytes: seq<byte>, l: seq<nat>, d: seq<nat>, room: nat, s: State, turns: nat)
    requires |bytes| == 1025 <= s.len <= room && Only(l, 286, 7) && Only(d, 20, 8) && s.p >= 8313 && 8 * s.f == s.p + 23
    ensures var data := Data(bytes);
      BodyCourse(ReaderOf(l, data), ReaderOf(d, data), data, room, s, turns).Running?
    decreases turns
  {
    hide ItemAt, ItemFetched, Turn, ReaderOf, Only;
    if turns > 0 {
      NextItem(bytes, l, d, s.p);
      NextTurn(bytes, l, d, room, s);
      GoesOn(bytes, l, d, room, State(s.p + 24, s.f + 3, s.len), turns - 1);
    }
  }

  // ----- The header -----

  /** The code for code lengths. */
  const CL: seq<nat> := [0, 0, 0, 0, 0, 0, 0, 3, 3, 0, 0, 0, 0, 0, 0, 0, 0, 0, 1]

  lemma ThreesRead(bytes: seq<byte>)
    requires |bytes| == 1025
    ensures ThreesAt(Data(bytes), 8257, 6) == [0, 0, 1, 0, 3, 3]
  {
    hide Lsb, Data;
    Threes();
    HeadLsb(bytes, 17, 3);
    HeadLsb(bytes, 20, 3);
    HeadLsb(bytes, 23, 3);
    HeadLsb(bytes, 26, 3);
    HeadLsb(bytes, 29, 3);
    HeadLsb(bytes, 32, 3);
    var data := Data(bytes);
    assert ThreesAt(data, 8275, 0) == [];
    assert ThreesAt(data, 8272, 1) == [3];
    assert ThreesAt(data, 8269, 2) == [3, 3];
    assert ThreesAt(data, 8266, 3) == [0, 3, 3];
    assert ThreesAt(data, 8263, 4) == [1, 0, 3, 3];
    assert ThreesAt(data, 8260, 5) == [0, 1, 0, 3, 3];
  }

  lemma CodeLengths()
    ensures ClLengths([0, 0, 1, 0, 3, 3]) == CL
  {
    var clens := [0, 0, 1, 0, 3, 3];
    forall k | 0 <= k < 19 ensures ClLengths(clens)[k] == CL[k] {
    }
  }

  lemma {:induction false} ClCount(s: nat, n: nat)
    requires 1 <= s <= 3 && n <= 19
    ensures CanonicalCode.Count(CL, s, n) ==
      if s == 1 then (if n > 18 then 1 else 0) else if s == 2 || n <= 7 then 0 else if n == 8 then 1 else 2
    decreases n
  {
    if n > 0 {
      ClCount(s, n - 1);
    }
  }

  lemma {:induction false} ClKraft(n: nat)
    requires n <= 19
    ensures IsLengths(CL)
    ensures Kraft(CL, n) == if n <= 7 then 0 else if n == 8 then 4096 else if n <= 18 then 8192 else 24576
    decreases n
  {
    if n > 0 {
      ClKraft(n - 1);
      assert Pow2(12) == 4096 && Pow2(14) == 16384 by {
        Pow2Values();
      }
    }
  }

  lemma ClIsCode()
    ensures IsCode(CL)
  {
    ClKraft(19);
    Pow2Values();
  }

  lemma ClFirsts()
    ensures First(CL, 1) == 0 && First(CL, 3) == 4
  {
    ClCount(1, 19);
    ClCount(2, 19);
    assert First(CL, 2) == 2;
  }

  /** The three symbols of this code. */
  lemma ClSymbol(data: seq<byte>, q: nat, z: nat)
    requires (z == 18 && Msb(data, q, 1) == 0) || (z == 7 && Msb(data, q, 3) == 4) || (z == 8 && Msb(data, q, 3) == 5)
    ensures SymbolAndEnd(CL, data, q) == Some((z, q + if z == 18 then 1 else 3))
  {
    hide Msb, First, CanonicalCode.Count;
    ClFirsts();
    ClCount(1, 18);
    ClCount(3, 7);
    ClCount(3, 8);
    SymbolIs(CL, z, data, q);
  }

  /** An operation that repeats zeros. */
  lemma ZerosOp(bytes: seq<byte>, k: nat, n: nat, f: nat, g: nat)
    requires |bytes| == 1025 && Msb(HEAD, k, 1) == 0 && n == 11 + Lsb(HEAD, k + 1, 7)
    requires f < 1041 && g == Refilled(8240 + k, f, 16) && 8 * g >= 8240 + k + 8
    ensures var data := Data(bytes);
      && LenOpAt(ReaderOf(CL, data), data, 8240 + k) == Some((ManyZeros(n), 8240 + k + 8))
      && LenOpFetched(ReaderOf(CL, data), data, 8240 + k, f) == Some(g)
  {
    hide SymbolAndEnd, Lsb, Msb;
    DataSize(bytes);
    hide Data;
    HeadMsb(bytes, k, 1);
    HeadLsb(bytes, k + 1, 7);
    ClSymbol(Data(bytes), 8240 + k, 18);
  }

  /** An operation that is a length. */
  lemma LengthOp(bytes: seq<byte>, k: nat, v: nat, f: nat, g: nat)
    requires |bytes| == 1025 && ((v == 7 && Msb(HEAD, k, 3) == 4) || (v == 8 && Msb(HEAD, k, 3) == 5))
    requires f < 1041 && g == Refilled(8240 + k, f, 16) && 8 * g >= 8240 + k + 3
    ensures var data := Data(bytes);
      && LenOpAt(ReaderOf(CL, data), data, 8240 + k) == Some((Len(v), 8240 + k + 3))
      && LenOpFetched(ReaderOf(CL, data), data, 8240 + k, f) == Some(g)
  {
    hide SymbolAndEnd, Lsb, Msb;
    DataSize(bytes);
    hide Data;
    HeadMsb(bytes, k, 3);
    ClSymbol(Data(bytes), 8240 + k, v);
  }

  lemma DataSize(bytes: seq<byte>)
    requires |bytes| == 1025
    ensures |Data(bytes)| == 1041
  {
  }

  /** The lengths are read on after one operation. */
  lemma AfterOp(data: seq<byte>, p: nat, f: nat, total: nat, acc: seq<nat>, op: LenOp, end: nat, g: nat)
    requires |acc| < total && LenOpAt(ReaderOf(CL, data), data, p) == Some((op, end))
    requires LenOpFetched(ReaderOf(CL, data), data, p, f) == Some(g)
    requires Extend(acc, op).Some? && |Extend(acc, op).value| <= total
    ensures var next := Extend(acc, op).value;
      && LengthsAt(ReaderOf(CL, data), data, p, total, acc) == LengthsAt(ReaderOf(CL, data), data, end, total, next)
      && LengthsFetched(ReaderOf(CL, data), data, p, f, total, acc) ==
           LengthsFetched(ReaderOf(CL, data), data, end, g, total, next)
  {
    hide ReaderOf, LenOpAt, LenOpFetched, Extend;
  }

  /** All lengths: 286 zeros, a seven, 20 zeros and an eight. */
  function All(): seq<nat> {
    Fill(0, 286) + [7] + Fill(0, 20) + [8]
  }

  lemma LengthsRead(bytes: seq<byte>)
    requires |bytes| == 1025
    ensures var data := Data(bytes);
      && LengthsAt(ReaderOf(CL, data), data, 8275, 308, []) == Some((All(), 8313))
      && LengthsFetched(ReaderOf(CL, data), data, 8275, 1038, 308, []) == Some(1042)
  {
    var data := Data(bytes);
    hide LenOpAt, LenOpFetched, ReaderOf, Data, Lsb, Msb;
    Zeros();
    Words();
    ZerosOp(bytes, 35, 138, 1038, 1038);
    AfterOp(data, 8275, 1038, 308, [], ManyZeros(138), 8283, 1038);
    assert [] + Fill(0, 138) == Fill(0, 138);
    ZerosOp(bytes, 43, 137, 1038, 1038);
    AfterOp(data, 8283, 1038, 308, Fill(0, 138), ManyZeros(137), 8291, 1038);
    assert Fill(0, 138) + Fill(0, 137) == Fill(0, 275);
    ZerosOp(bytes, 51, 11, 1038, 1040);
    AfterOp(data, 8291, 1038, 308, Fill(0, 275), ManyZeros(11), 8299, 1040);
    assert Fill(0, 275) + Fill(0, 11) == Fill(0, 286);
    LengthOp(bytes, 59, 7, 1040, 1040);
    AfterOp(data, 8299, 1040, 308, Fill(0, 286), Len(7), 8302, 1040);
    ZerosOp(bytes, 62, 20, 1040, 1040);
    AfterOp(data, 8302, 1040, 308, Fill(0, 286) + [7], ManyZeros(20), 8310, 1040);
    LengthOp(bytes, 70, 8, 1040, 1042);
    AfterOp(data, 8310, 1040, 308, Fill(0, 286) + [7] + Fill(0, 20), Len(8), 8313, 1042);
  }

  lemma Parts()
    ensures |All()| == 308 && Only(All()[..287], 286, 7) && Only(All()[287..], 20, 8)
  {
  }

  lemma HeaderRead(bytes: seq<byte>)
    requires |bytes| == 1025
    ensures HeaderAt(Data(bytes), 8243) == Tables(All()[..287], All()[287..], 8313)
    ensures HeaderFetched(Data(bytes), 8243, 1034) == Some(1042)
  {
    hide LengthsAt, LengthsFetched, ReaderOf, Data, Lsb, ThreesAt, ClLengths, IsCode, All, Only;
    Counts();
    HeadLsb(bytes, 3, 5);
    HeadLsb(bytes, 8, 5);
    HeadLsb(bytes, 13, 4);
    ThreesRead(bytes);
    CodeLengths();
    ClIsCode();
    LengthsRead(bytes);
    Parts();
    OnlyIsCode(All()[..287], 286, 7);
    OnlyIsCode(All()[287..], 20, 8);
    ThreesFetch();
  }

  lemma ThreesFetch()
    ensures ThreesFetched(8257, 1034, 6) == 1038
    ensures Refilled(8253, Refilled(8248, Refilled(8243, 1034, 5), 5), 4) == 1034
  {
    assert ThreesFetched(8257, 1034, 0) == 1034;
    assert ThreesFetched(8257, 1034, 1) == 1034;
    assert ThreesFetched(8257, 1034, 2) == 1034;
    assert ThreesFetched(8257, 1034, 3) == 1034;
    assert ThreesFetched(8257, 1034, 4) == 1034;
    assert ThreesFetched(8257, 1034, 5) == 1034;
  }

  // ----- The stream -----

  /** The stored bytes come first. */
  lemma StoredFirst(bytes: seq<byte>, room: nat, turns: nat)
    requires |bytes| == 1025
    ensures Bit(Data(bytes), 0) == 0 && Lsb(Data(bytes), 1, 2) == 0
    ensures BlockCourse(Data(bytes), 0, room, Headed(State(0, 0, 0)), turns) ==
      if room < 1025 then Broken else Through(State(8240, 1030, 1025))
  {
    var data := Data(bytes);
    assert data[0] == 0 && data[1] == 0x01 && data[2] == 0x04 && data[3] == 0xFE && data[4] == 0xFB && |data| == 1041;
    assert Bit(data, 0) == 0 && Bit(data, 1) == 0 && Bit(data, 2) == 0 by {
      ShrZero(0, 0);
      ShrZero(0, 1);
      ShrZero(0, 2);
    }
    ThreeBits(data, 1);
  }

  lemma LastRuns(bytes: seq<byte>, room: nat, turns: nat)
    requires |bytes| == 1025 <= room
    ensures Lsb(Data(bytes), 8241, 2) == 2
    ensures BlockCourse(Data(bytes), 2, room, Headed(State(8240, 1030, 1025)), turns).Running?
  {
    hide Data, Lsb, Bit, HeaderAt, HeaderFetched, BodyCourse, ReaderOf, All, Only;
    LastBlock();
    HeadLsb(bytes, 1, 2);
    HeaderRead(bytes);
    Parts();
    GoesOn(bytes, All()[..287], All()[287..], room, State(8313, 1042, 1025), turns);
  }

  /** With room for the stored bytes there is no end, whatever they are. */
  lemma GoesOnForEver(bytes: seq<byte>, room: nat)
    requires |bytes| == 1025
    ensures NeverEnds(Data(bytes), room, State(0, 0, 0)) <==> room >= 1025
  {
    hide BlockCourse, Headed, Bit, Lsb;
    var data := Data(bytes);
    DataSize(bytes);
    hide Data;
    forall turns: nat ensures StreamCourse(data, room, State(0, 0, 0), turns).Running? <==> room >= 1025 {
      StoredFirst(bytes, room, turns);
      if room >= 1025 {
        LastRuns(bytes, room, turns);
        assert StreamCourse(data, room, State(8240, 1030, 1025), turns).Running?;
      }
    }
    assert StreamCourse(data, room, State(0, 0, 0), 0).Running? <==> room >= 1025;
  }
}
