/** The inflater: a bit buffer over the input, Huffman decoding by table, and an output buffer
    that grows. */
module Inflate {
  import opened Bits
  import opened BitReverse
  import opened CanonicalCode
  import opened Courses
  import opened Deflate
  import opened DeflateHeader
  import opened DeflateLengths
  import opened DeflateProgress
  import opened DeflateStream
  import opened Endless
  import opened Huffman
  import opened Options
  import opened Refills

  const UINT_MAX: nat := 0xFFFF_FFFF

  /** How large a buffer of this size can become by doubling. */
  function MaxCapacity(c: nat): (r: nat)
    requires 0 < c <= UINT_MAX
    ensures c <= r <= UINT_MAX && r > UINT_MAX / 2
    decreases UINT_MAX - c
  {
    if c > UINT_MAX / 2 then c else MaxCapacity(2 * c)
  }

  /** The capacity is a doubling of the size, and cannot be doubled once more in 32 bits. */
  lemma {:induction false} CapacityDoubles(c: nat) returns (k: nat)
    requires 0 < c <= UINT_MAX
    ensures MaxCapacity(c) == Shl(c, k) && Shl(c, k) <= 0xFFFF_FFFF < 2 * Shl(c, k)
    decreases UINT_MAX - c
  {
    if c > UINT_MAX / 2 {
      k := 0;
    } else {
      k := CapacityDoubles(2 * c);
      ShlDouble(c, k);
      k := k + 1;
    }
  }

  /** Doubling a buffer of no bytes makes no room, however often: an empty buffer that may grow
      would be doubled without end as soon as a byte is wanted, and no other is. */
  lemma DoublingReaches(c: nat, want: nat) returns (k: nat)
    requires want > c
    ensures (exists j :: Shl(c, j) >= want) <==> c > 0
    ensures c > 0 ==> Shl(c, k) >= want
  {
    k := want;
    if c > 0 {
      ShlGrows(c, want);
    } else {
      forall j: nat ensures Shl(0, j) == 0 {
        ShlNothing(j);
      }
    }
  }

  lemma {:induction false} ShlGrows(c: nat, k: nat)
    requires c > 0
    ensures Shl(c, k) > k
  {
    if k > 0 {
      ShlGrows(c, k - 1);
    }
  }

  lemma {:induction false} ShlNothing(k: nat)
    ensures Shl(0, k) == 0
  {
    if k > 0 {
      ShlNothing(k - 1);
    }
  }

  const LENGTH_BASE: seq<nat> := [
    3, 4, 5, 6, 7, 8, 9, 10, 11, 13, 15, 17, 19, 23, 27, 31, 35, 43, 51, 59,
    67, 83, 99, 115, 131, 163, 195, 227, 258, 0, 0]
  const LENGTH_EXTRA: seq<nat> := [
    0, 0, 0, 0, 0, 0, 0, 0, 1, 1, 1, 1, 2, 2, 2, 2, 3, 3, 3, 3, 4, 4, 4, 4, 5, 5, 5, 5, 0, 0, 0]
  const DIST_BASE: seq<nat> := [
    1, 2, 3, 4, 5, 7, 9, 13, 17, 25, 33, 49, 65, 97, 129, 193, 257, 385, 513, 769,
    1025, 1537, 2049, 3073, 4097, 6145, 8193, 12289, 16385, 24577, 0, 0]
  const DIST_EXTRA: seq<nat> := [
    0, 0, 0, 0, 1, 1, 2, 2, 3, 3, 4, 4, 5, 5, 6, 6, 7, 7, 8, 8, 9, 9, 10, 10, 11, 11, 12, 12, 13, 13, 0, 0]
  const DEZIGZAG: seq<nat> := [16, 17, 18, 0, 8, 7, 9, 6, 10, 5, 11, 4, 12, 3, 13, 2, 14, 1, 15]

  lemma LengthBases(z: nat)
    requires z < 31
    ensures LENGTH_BASE[z] == LengthBase(z)
  {
    if 8 <= z < 28 {
      LongBases(z);
    }
  }

  /** Four bases with k extra bits each. */
  lemma FourBases(z: nat, k: nat, b: nat)
    requires 1 <= k <= 5 && z / 4 == k + 1 && b == Pow2(k)
    ensures LengthBase(z) == 3 + (4 + z % 4) * b
  {
    hide Shl;
    assert (z - 4) / 4 == k;
    ShlTimes(4 + z % 4, k);
  }

  lemma LongBases(z: nat)
    requires 8 <= z < 28
    ensures LENGTH_BASE[z] == LengthBase(z)
  {
    hide LengthBase, Pow2;
    Pow2Values();
    FourBases(z, z / 4 - 1,
              if z < 12 then 2 else if z < 16 then 4 else if z < 20 then 8 else if z < 24 then 16 else 32);
  }

  lemma LengthExtras(z: nat)
    requires z < 31
    ensures LENGTH_EXTRA[z] == LengthExtra(z) <= 5
  {
  }

  lemma DistBases(z: nat)
    requires z < 32
    ensures DIST_BASE[z] == DistBase(z)
  {
    if 4 <= z < 12 {
      NearBases(z);
    } else if 12 <= z < 20 {
      FarBases(z);
    } else if 20 <= z < 30 {
      FarthestBases(z);
    }
  }

  /** Two bases with k extra bits each. */
  lemma TwoBases(z: nat, k: nat, b: nat)
    requires 1 <= k <= 13 && z / 2 == k + 1 && b == Pow2(k)
    ensures DistBase(z) == 1 + (2 + z % 2) * b
  {
    hide Shl;
    assert (z - 2) / 2 == k;
    ShlTimes(2 + z % 2, k);
  }

  lemma NearBases(z: nat)
    requires 4 <= z < 12
    ensures DIST_BASE[z] == DistBase(z)
  {
    hide DistBase, Pow2;
    Pow2Values();
    TwoBases(z, z / 2 - 1, if z < 6 then 2 else if z < 8 then 4 else if z < 10 then 8 else 16);
  }

  lemma FarBases(z: nat)
    requires 12 <= z < 20
    ensures DIST_BASE[z] == DistBase(z)
  {
    hide DistBase, Pow2;
    MorePow2Values();
    TwoBases(z, z / 2 - 1, if z < 14 then 32 else if z < 16 then 64 else if z < 18 then 128 else 256);
  }

  lemma FarthestBases(z: nat)
    requires 20 <= z < 30
    ensures DIST_BASE[z] == DistBase(z)
  {
    hide DistBase, Pow2;
    MorePow2Values();
    TwoBases(z, z / 2 - 1,
             if z < 22 then 512 else if z < 24 then 1024 else if z < 26 then 2048 else if z < 28 then 4096 else 8192);
  }

  lemma MorePow2Values()
    ensures Pow2(5) == 32 && Pow2(6) == 64 && Pow2(7) == 128 && Pow2(8) == 256 && Pow2(9) == 512
    ensures Pow2(10) == 1024 && Pow2(11) == 2048 && Pow2(12) == 4096 && Pow2(13) == 8192
  {
    Pow2Values();
  }

  lemma DistExtras(z: nat)
    requires z < 32
    ensures DIST_EXTRA[z] == DistExtra(z) <= 13
  {
    if z < 8 {
    } else if z < 16 {
    } else if z < 24 {
    } else {
    }
  }

  lemma StorePlaces(i: nat)
    requires i < 19
    ensures DEZIGZAG[i] < 19 && StorePlace(DEZIGZAG[i]) == i
    ensures DEZIGZAG[i] ==
      if i < 3 then 16 + i else if i == 3 then 0 else if i % 2 == 0 then 8 + (i - 4) / 2 else 8 - (i - 3) / 2
    ensures forall k :: 0 <= k < 19 && StorePlace(k) == i ==> k == DEZIGZAG[i]
  {
  }

  // ----- Symbols by table -----

  /** Testing against the shifted end of a length is comparing the bits of that length. */
  lemma BelowMaxCode(l: seq<nat>, data: seq<byte>, p: nat, s: nat)
    requires 1 <= s <= 16
    ensures Msb(data, p, 16) < MaxCode(l, s) <==> Msb(data, p, s) < End(l, s)
  {
    hide First, Total, Shl, Shr, Msb, End;
    var k, v, e := Msb(data, p, 16), Msb(data, p, s), End(l, s);
    MsbPrefix(data, p, s, 16 - s);
    ShrBounds(k, 16 - s);
    if v < e {
      ShlMono(v + 1, e, 16 - s);
    } else {
      ShlMono(e, v, 16 - s);
    }
  }

  /** A value in the range of the codes of length s is the code of some symbol. */
  lemma RangeHasSymbol(l: seq<nat>, data: seq<byte>, p: nat, s: nat) returns (i: nat)
    requires 1 <= s && First(l, s) <= Msb(data, p, s) < End(l, s)
    ensures Matches(l, i, data, p) && l[i] == s
    ensures Slot(l, i) == Msb(data, p, s) - First(l, s) + FirstSymbol(l, s)
  {
    i := Nth(l, s, Msb(data, p, s) - First(l, s), |l|);
  }

  /** Where no code of at most s bits is found, the bits lie past all of those codes. */
  lemma {:induction false} PastShortCodes(l: seq<nat>, data: seq<byte>, p: nat, s: nat)
    requires 1 <= s <= 15
    requires forall i :: 0 <= i < |l| && Matches(l, i, data, p) ==> l[i] > s
    ensures Msb(data, p, 16) >= MaxCode(l, s)
  {
    if s > 1 {
      PastShortCodes(l, data, p, s - 1);
      NextRange(l, data, p, s);
    }
    BelowMaxCode(l, data, p, s);
    if Msb(data, p, s) < End(l, s) {
      var i := RangeHasSymbol(l, data, p, s);
    }
  }

  lemma MaxCodeNext(l: seq<nat>, s: nat)
    requires 2 <= s <= 16
    ensures MaxCode(l, s - 1) == Shl(First(l, s), 16 - s)
  {
    hide Shl, Total;
    assert First(l, s) == 2 * End(l, s - 1);
    ShlDouble(End(l, s - 1), 16 - s);
  }

  /** Past the codes of length s - 1 means not before the first code of length s. */
  lemma NextRange(l: seq<nat>, data: seq<byte>, p: nat, s: nat)
    requires 2 <= s <= 16 && Msb(data, p, 16) >= MaxCode(l, s - 1)
    ensures Msb(data, p, s) >= First(l, s)
  {
    hide First, MaxCode, Shl, Shr, Msb;
    var k, v := Msb(data, p, 16), Msb(data, p, s);
    MsbPrefix(data, p, s, 16 - s);
    ShrBounds(k, 16 - s);
    MaxCodeNext(l, s);
    if v < First(l, s) {
      ShlMono(v + 1, First(l, s), 16 - s);
    }
  }

  /** A symbol that is found has its bits below the end of its length. */
  lemma FoundBelow(l: seq<nat>, i: nat, data: seq<byte>, p: nat)
    requires IsCode(l) && Matches(l, i, data, p)
    ensures Msb(data, p, 16) < MaxCode(l, l[i])
  {
    CountBelowTotal(l, i);
    BelowMaxCode(l, data, p, l[i]);
  }

  /** The table on nine bits looks for the same codes as the stream does. */
  lemma FastIsMatch(l: seq<nat>, i: nat, data: seq<byte>, p: nat)
    requires i < |l| && 1 <= l[i] <= FAST_BITS
    ensures FastMatch(l, i, Lsb(data, p, FAST_BITS)) <==> Matches(l, i, data, p)
  {
    var n := l[i];
    RevLow(Lsb(data, p, FAST_BITS), n);
    LsbParts(data, p, n, FAST_BITS - n);
    RevLsb(data, p, n);
  }

  lemma ReversedWindow(data: seq<byte>, p: nat, n: nat)
    requires n >= 16
    ensures ReverseBits(Lsb(data, p, n), 16) == Msb(data, p, 16)
  {
    ReverseBitsIsRev(Lsb(data, p, n), 16);
    RevLow(Lsb(data, p, n), 16);
    LsbParts(data, p, 16, n - 16);
    RevLsb(data, p, 16);
  }

  datatype Status = More | Done | Failed

  /** The two bytes that must come before the blocks (section 2.2 of RFC 1950), with no preset
      dictionary, and at least one byte after them. */
  predicate HasZlibHeader(data: seq<byte>) {
    |data| > 2 && (data[0] as int * 256 + data[1]) % 31 == 0 && data[1] / 32 % 2 == 0 && data[0] % 16 == 8
  }

  /** The headers of usual streams: the four compression levels, none of them with a dictionary, which
      is refused. */
  lemma UsualHeaders(rest: seq<byte>)
    requires rest != []
    ensures HasZlibHeader([0x78, 0x01] + rest) && HasZlibHeader([0x78, 0x5E] + rest)
    ensures HasZlibHeader([0x78, 0x9C] + rest) && HasZlibHeader([0x78, 0xDA] + rest)
    ensures !HasZlibHeader([0x78, 0xBB] + rest) && !HasZlibHeader([0x78, 0x9D] + rest)
    ensures !HasZlibHeader([0x79, 0x9B] + rest) && !HasZlibHeader([0x78, 0x9C])
  {
  }

  /** What the blocks of a stream, which may have a header before them, decode to. */
  ghost function ZlibAt(data: seq<byte>, parseHeader: bool, fuel: nat): Outcome {
    StreamAt(data, Start(parseHeader), [], fuel)
  }

  /** How many bytes will have been fetched then, unless a symbol is refused. */
  ghost function ZlibFetched(data: seq<byte>, parseHeader: bool, turns: nat): Option<nat> {
    StreamFetched(data, Start(parseHeader), Start(parseHeader) / 8, [], turns)
  }

  /** The decoder before the first block. */
  function Begun(parseHeader: bool): State {
    State(Start(parseHeader), Start(parseHeader) / 8, 0)
  }

  ghost function ZlibCourse(data: seq<byte>, parseHeader: bool, room: nat, turns: nat): Course {
    StreamCourse(data, room, Begun(parseHeader), turns)
  }

  class ZBuf {
    const data: seq<byte>
    var pos: nat
    var numBits: nat
    var codeBuffer: nat
    ghost var fetched: nat

    var zout: array<byte>
    var len: nat
    const expandable: bool

    const zLength: ZHuffman
    const zDistance: ZHuffman

    /** Start at the beginning of the input with an output buffer of this size. */
    constructor (buffer: seq<byte>, olen: nat, exp: bool)
      ensures data == buffer && pos == 0 && fetched == 0 && numBits == 0 && codeBuffer == 0
      ensures zout.Length == olen && len == 0 && expandable == exp
      ensures fresh(zout) && fresh(zLength) && fresh(zLength.Repr()) && fresh(zDistance) && fresh(zDistance.Repr())
      ensures zLength.Valid() && zDistance.Valid() && zLength.Repr() !! zDistance.Repr()
      ensures zout !in zLength.Repr() && zout !in zDistance.Repr()
    {
      data, expandable := buffer, exp;
      pos, fetched, numBits, codeBuffer, len := 0, 0, 0, 0, 0;
      zout := new byte[olen];
      zLength := new ZHuffman();
      zDistance := new ZHuffman();
    }

    // ----- The bit reader -----

    /** The place in the stream of the next bit that has not been consumed. */
    ghost function Place(): int
      reads `fetched, `numBits
    {
      8 * fetched - numBits
    }

    /** The buffer holds the next bits of the stream; after the last byte, zero bytes have been
        fetched. */
    ghost predicate Reading()
      reads `pos, `numBits, `codeBuffer, `fetched
    {
      && numBits <= 32 && Place() >= 0
      && pos == (if fetched < |data| then fetched else |data|)
      && codeBuffer == Lsb(data, Place(), numBits)
    }

    predicate Eof()
      reads `pos
    {
      pos >= |data|
    }

    method Get8() returns (b: byte)
      modifies `pos, `fetched
      ensures b == ByteAt(data, old(pos))
      ensures old(pos == if fetched < |data| then fetched else |data|) ==> b == ByteAt(data, old(fetched))
      ensures pos == (if old(pos) < |data| then old(pos) + 1 else old(pos)) && fetched == old(fetched) + 1
    {
      if Eof() {
        b := 0;
      } else {
        b := data[pos];
        pos := pos + 1;
      }
      fetched := fetched + 1;
    }

    /** Fetch bytes until more than 24 bits are buffered. A buffer with stray bits above
        numBits, which no run of the decoder reaches, is taken as the end of the data. */
    method FillBits()
      requires numBits <= 24 && pos <= |data|
      modifies `pos, `numBits, `codeBuffer, `fetched
      ensures old(Reading()) ==> Reading() && Place() == old(Place()) && 25 <= numBits <= 32
      ensures old(codeBuffer >= Pow2(numBits)) ==>
        pos == |data| && numBits == old(numBits) && codeBuffer == old(codeBuffer)
    {
      while true
        invariant numBits <= 24 && pos <= |data|
        invariant old(Reading()) ==> Reading() && Place() == old(Place())
        invariant old(codeBuffer >= Pow2(numBits)) ==> numBits == old(numBits) && codeBuffer == old(codeBuffer)
        decreases 24 - numBits
      {
        if codeBuffer >= Pow2(numBits) {
          pos := |data|;
          return;
        }
        FetchByte();
        if numBits > 24 {
          return;
        }
      }
    }

    /** Put one more byte above the buffered bits; as none of them reaches numBits, adding and
        or-ing are the same. */
    method FetchByte()
      requires numBits <= 24 && pos <= |data| && codeBuffer < Pow2(numBits)
      modifies `pos, `numBits, `codeBuffer, `fetched
      ensures numBits == old(numBits) + 8 && pos <= |data|
      ensures old(Reading()) ==> Reading() && Place() == old(Place())
    {
      ghost var f, p, n := fetched, Place(), numBits;
      var b := Get8();
      codeBuffer := codeBuffer + Shl(b, numBits);
      numBits := numBits + 8;
      hide Lsb, Shl, Pow2, ByteAt;
      if old(Reading()) {
        LsbByte(data, f);
        LsbSplit(data, p, n, 8);
      }
    }

    method Receive(n: nat) returns (k: nat)
      requires Reading() && n <= 25
      modifies `pos, `numBits, `codeBuffer, `fetched
      ensures Reading() && Place() == old(Place()) + n
      ensures k == Lsb(data, old(Place()), n)
      ensures fetched == Refilled(old(Place()), old(fetched), n)
    {
      hide Lsb, Low, Shr, Pow2;
      if numBits < n {
        FillBits();
      }
      LsbParts(data, Place(), n, numBits - n);
      k := Low(codeBuffer, n);
      codeBuffer := Shr(codeBuffer, n);
      numBits := numBits - n;
    }

    // ----- Decoding a symbol -----

    method DecodeSlowPath(h: ZHuffman, ghost l: seq<nat>) returns (r: int)
      requires Reading() && numBits >= 16 && h.Built(l)
      requires forall i :: 0 <= i < |l| && Matches(l, i, data, Place()) ==> l[i] > FAST_BITS
      modifies `numBits, `codeBuffer
      ensures Reading()
      ensures match SymbolAndEnd(l, data, old(Place()))
        case None => r == -1 && Place() == old(Place())
        case Some((z, end)) => r == z && Place() == end
    {
      hide SymbolAt, Matches, First, FirstSymbol, Count, MaxCode, Lsb, Msb, IsCode, Rev, FastMatch;
      ghost var p := Place();
      ReversedWindow(data, p, numBits);
      var k := ReverseBits(codeBuffer, 16);
      Pow2Values();
      PastShortCodes(l, data, p, FAST_BITS);
      var s := FAST_BITS + 1;
      while k >= h.maxcode[s]
        invariant FAST_BITS < s <= 16
        invariant forall t :: FAST_BITS <= t < s ==> k >= MaxCode(l, t)
        decreases 16 - s
      {
        s := s + 1;
      }
      if s >= 16 {
        NoCode(l, data, p);
        return -1;
      }
      NextRange(l, data, p, s);
      BelowMaxCode(l, data, p, s);
      ghost var i := RangeHasSymbol(l, data, p, s);
      MsbPrefix(data, p, s, 16 - s);
      var b := Shr(k, 16 - s) - h.firstcode[s] + h.firstsymbol[s];
      assert b == Slot(l, i);
      if b >= NSYMS {
        assert false;
        return -1;
      }
      if h.size[b] != s {
        assert false;
        return -1;
      }
      Consume(s);
      SymbolIs(l, i, data, p);
      return h.value[b];
    }

    method Consume(s: nat)
      requires Reading() && s <= numBits
      modifies `numBits, `codeBuffer
      ensures Reading() && Place() == old(Place()) + s && numBits == old(numBits) - s
    {
      hide Lsb, Low, Shr, Pow2;
      LsbParts(data, Place(), s, numBits - s);
      codeBuffer := Shr(codeBuffer, s);
      numBits := numBits - s;
    }

    /** Decode one symbol: -1 where it is refused or no code word is found. */
    method HuffmanDecode(h: ZHuffman, ghost l: seq<nat>) returns (r: int)
      requires Reading() && h.Built(l)
      modifies `pos, `numBits, `codeBuffer, `fetched
      ensures Reading() && Place() >= old(Place())
      ensures var s, z := old(SymbolFetched(data, Place(), fetched)), SymbolAndEnd(l, data, old(Place()));
        if s.Some? && z.Some? then r < |l| && (r, Place()) == z.value && fetched == s.value
        else r == -1 && Place() == old(Place())
    {
      hide Lsb, SymbolAndEnd, ZHuffman.FirstsBuilt, ZHuffman.EndsBuilt, ZHuffman.SymbolsBuilt, ZHuffman.FastBuilt;
      SymbolEnd(l, data, Place());
      if numBits < 16 {
        if Eof() {
          return -1;
        }
        FillBits();
      }
      r := DecodeBuffered(h, l);
    }

    /** The same when there are enough bits in the buffer. */
    method DecodeBuffered(h: ZHuffman, ghost l: seq<nat>) returns (r: int)
      requires Reading() && h.Built(l) && numBits >= 16
      modifies `numBits, `codeBuffer
      ensures Reading()
      ensures match SymbolAndEnd(l, data, old(Place()))
        case None => r == -1 && Place() == old(Place())
        case Some((z, end)) => r == z < |l| && Place() == end
    {
      hide Lsb, Low, Matches, ZHuffman.FirstsBuilt, ZHuffman.EndsBuilt, ZHuffman.SymbolsBuilt;
      ghost var p := Place();
      LsbParts(data, p, FAST_BITS, numBits - FAST_BITS);
      var j := Low(codeBuffer, FAST_BITS);
      Pow2Values();
      var b := h.fast[j];
      SymbolEnd(l, data, p);
      if b != 0 {
        FastIsMatch(l, b % 512, data, p);
        SymbolIs(l, b % 512, data, p);
        Consume(b / 512);
        return b % 512;
      }
      NoFastMatch(h, l, p, j);
      r := DecodeSlowPath(h, l);
    }

    lemma NoFastMatch(h: ZHuffman, l: seq<nat>, p: nat, j: nat)
      requires h.Built(l) && j < 512 && j == Lsb(data, p, FAST_BITS) && h.fast[j] == 0
      ensures forall i :: 0 <= i < |l| && Matches(l, i, data, p) ==> l[i] > FAST_BITS
    {
      forall i | 0 <= i < |l| && Matches(l, i, data, p) ensures l[i] > FAST_BITS {
        if l[i] <= FAST_BITS {
          FastIsMatch(l, i, data, p);
          assert false;
        }
      }
    }

    lemma NoCode(l: seq<nat>, data: seq<byte>, p: nat)
      requires IsCode(l)
      requires forall i :: 0 <= i < |l| && Matches(l, i, data, p) ==> l[i] > FAST_BITS
      requires forall t :: FAST_BITS <= t < 16 ==> Msb(data, p, 16) >= MaxCode(l, t)
      ensures SymbolAt(l, data, p) == None
    {
      forall i | 0 <= i < |l| ensures !Matches(l, i, data, p) {
        if Matches(l, i, data, p) {
          FoundBelow(l, i, data, p);
        }
      }
      NoSymbol(l, data, p);
    }

    // ----- The output buffer -----

    function Out(): seq<byte>
      requires len <= zout.Length
      reads `zout, `len, zout
    {
      zout[..len]
    }

    /** How many bytes of output there can ever be room for. */
    ghost function Room(): nat
      requires zout.Length <= UINT_MAX && (expandable ==> zout.Length > 0)
      reads `zout
    {
      if expandable then MaxCapacity(zout.Length) else zout.Length
    }

    ghost predicate Writing()
      reads `zout, `len
    {
      && len <= zout.Length <= UINT_MAX && (expandable ==> zout.Length > 0)
      && zout !in zLength.Repr() && zout !in zDistance.Repr()
    }

    /** Make room for n more bytes by doubling the buffer, if the limits allow it. */
    method Expand(n: nat) returns (ok: bool)
      requires Writing() && len + n > zout.Length
      modifies `zout
      ensures Writing() && Out() == old(Out()) && Room() == old(Room())
      ensures ok <==> len + n <= Room()
      ensures ok ==> fresh(zout) && len + n <= zout.Length
      ensures !ok ==> zout == old(zout)
    {
      if !expandable {
        return false;
      }
      if UINT_MAX - len < n {
        return false;
      }
      var limit := zout.Length;
      while len + n > limit
        invariant zout.Length <= limit <= UINT_MAX && MaxCapacity(limit) == Room()
        decreases UINT_MAX - limit
      {
        if limit > UINT_MAX / 2 {
          return false;
        }
        limit := 2 * limit;
      }
      var q := new byte[limit];
      forall i | 0 <= i < zout.Length {
        q[i] := zout[i];
      }
      assert q[..len] == zout[..len];
      zout := q;
      return true;
    }

    method Reserve(n: nat) returns (ok: bool)
      requires Writing()
      modifies `zout
      ensures Writing() && Out() == old(Out()) && Room() == old(Room())
      ensures ok <==> len + n <= Room()
      ensures ok ==> len + n <= zout.Length
      ensures zout == old(zout) || fresh(zout)
    {
      ok := true;
      if len + n > zout.Length {
        ok := Expand(n);
      } else {
        RoomCovers();
      }
    }

    lemma RoomCovers()
      requires Writing()
      ensures zout.Length <= Room()
    {
    }

    method PutByte(b: byte)
      requires Writing() && len < zout.Length
      modifies `len, zout
      ensures Writing() && Out() == old(Out()) + [b] && len == old(len) + 1
    {
      zout[len] := b;
      len := len + 1;
    }

    /** Append n times the last byte. */
    method CopyRun(n: nat)
      requires Writing() && len + n <= zout.Length && len >= 1
      modifies `len, zout
      ensures Writing() && Out() == CopyBack(old(Out()), n, 1) && old(Out()) <= Out()
    {
      ghost var out := Out();
      var v := zout[len - 1];
      var k := 0;
      while k < n
        invariant k <= n && len == |out| + k && Writing() && out <= Out()
        invariant Out() == CopyBack(out, k, 1) && Out()[len - 1] == v
      {
        PutByte(v);
        k := k + 1;
      }
    }

    /** Append n bytes, each read dist places back from where it is written. With distance 0,
        which only symbols without meaning give, the bytes past the end are taken as they are. */
    method CopyBytes(n: nat, dist: nat)
      requires Writing() && len + n <= zout.Length && dist <= len
      modifies `len, zout
      ensures Writing() && len == old(len) + n && old(Out()) <= Out()
      ensures dist >= 1 ==> Out() == CopyBack(old(Out()), n, dist)
    {
      ghost var out := Out();
      var k := 0;
      while k < n
        invariant k <= n && len == |out| + k && Writing() && out <= Out()
        invariant dist >= 1 ==> Out() == CopyBack(out, k, dist)
      {
        assert dist >= 1 ==> zout[len - dist] == Out()[len - dist];
        PutByte(zout[len - dist]);
        k := k + 1;
      }
    }

    // ----- Compressed blocks -----

    ghost predicate Valid()
      reads this
    {
      Reading() && Writing()
    }

    /** The two tables are those of these codes. */
    ghost predicate Ready(l: seq<nat>, d: seq<nat>)
      reads zLength.Repr(), zDistance.Repr()
    {
      zLength.Built(l) && zDistance.Built(d) && |d| <= DIST_SYMS
    }

    ghost function ItemHere(l: seq<nat>, d: seq<nat>): Item
      requires Reading()
      reads `pos, `numBits, `codeBuffer, `fetched
    {
      ItemAt(ReaderOf(l, data), ReaderOf(d, data), data, Place())
    }

    /** How many bytes will have been fetched after the item here, unless a symbol is refused. */
    ghost function ItemFetchedHere(l: seq<nat>, d: seq<nat>): Option<nat>
      requires Reading()
      reads `pos, `numBits, `codeBuffer, `fetched
    {
      ItemFetched(ReaderOf(l, data), ReaderOf(d, data), data, Place(), fetched)
    }

    /** Where the decoder is in its course. */
    ghost function Here(): State
      requires Reading()
      reads `pos, `numBits, `codeBuffer, `fetched, `len
    {
      State(Place(), fetched, len)
    }

    ghost function TurnHere(l: seq<nat>, d: seq<nat>): Option<State>
      requires Valid()
      reads this
    {
      Turn(ReaderOf(l, data), ReaderOf(d, data), data, Room(), Here())
    }

    /** Decode one literal, copy or end of block. It fails where there is none, where a symbol is
        refused, or where a copy reaches back too far or needs more room than there can be. What
        it writes is what the item means, if it has a meaning. */
    method ParseItem(ghost l: seq<nat>, ghost d: seq<nat>) returns (st: Status)
      requires Valid() && Ready(l, d)
      modifies `pos, `numBits, `codeBuffer, `fetched, `zout, `len, zout
      ensures Valid() && Ready(l, d) && Room() == old(Room()) && (zout == old(zout) || fresh(zout))
      ensures Place() >= old(Place())
      ensures var it, s, t := old(ItemHere(l, d)), old(ItemFetchedHere(l, d)), old(TurnHere(l, d));
        match st
        case Done => it == EndOfBlock(Place()) && s == Some(fetched) && Out() == old(Out())
        case More =>
          && it.Tok? && t == Some(Here()) && old(Out()) <= Out()
          && (Arbitrary(it.tok) || Emit(old(Out()), it.tok) == Some(Out()))
        case Failed => t == None && (it.EndOfBlock? ==> s.None?)
    {
      hide ItemAt, ItemFetched, Turn, CopyAt, CopyFetched, ReaderOf, Emit, Length, Distance, Lsb, SymbolAndEnd,
        SymbolFetched, CopyBack, MaxCapacity, ZHuffman.Built;
      zLength.BuiltSize(l);
      EmitLiteral(Out());
      ItemAdvances(l, d, data, Place());
      ItemCases(l, d, data, Place(), fetched);
      TurnCases(l, d, data, Room(), Here());
      var z := HuffmanDecode(zLength, l);
      if z < 256 {
        if z < 0 {
          return Failed;
        }
        st := PutLiteral(z);
        return;
      }
      if z == END_OF_BLOCK {
        return Done;
      }
      st := ParseCopy(z, d);
    }

    method PutLiteral(b: byte) returns (st: Status)
      requires Writing()
      modifies `zout, `len, zout
      ensures Writing() && Room() == old(Room()) && (zout == old(zout) || fresh(zout))
      ensures match st
        case Done => false
        case More => Out() == old(Out()) + [b] && len == old(len) + 1 <= Room()
        case Failed => old(len) + 1 > Room()
    {
      var ok := Reserve(1);
      if !ok {
        return Failed;
      }
      PutByte(b);
      return More;
    }

    /** Decode and perform the copy whose length symbol has just been decoded. */
    method ParseCopy(sym: nat, ghost d: seq<nat>) returns (st: Status)
      requires Valid() && zDistance.Built(d) && |d| <= DIST_SYMS && 257 <= sym < 288
      modifies `pos, `numBits, `codeBuffer, `fetched, `zout, `len, zout
      ensures Valid() && Room() == old(Room()) && (zout == old(zout) || fresh(zout)) && Place() >= old(Place())
      ensures var it := old(CopyAt(ReaderOf(d, data), data, sym, Place()));
        var s := old(CopyFetched(ReaderOf(d, data), data, sym, Place(), fetched));
        match st
        case Done => false
        case More =>
          && it.Tok? && it.end == Place() && s == Some(fetched)
          && Distance(it.tok) <= old(len) && len == old(len) + Length(it.tok) <= Room()
          && (Arbitrary(it.tok) || Emit(old(Out()), it.tok) == Some(Out())) && old(Out()) <= Out()
        case Failed =>
          && !it.EndOfBlock?
          && (it.Tok? ==> s.None? || Distance(it.tok) > old(len) || old(len) + Length(it.tok) > Room())
    {
      hide CopyAt, CopyFetched, Emit, CopyBack, Lsb, SymbolAndEnd, LengthExtra, DistExtra, LengthBase, DistBase, Length,
        Distance, MaxCapacity, ReaderOf, ZHuffman.Built;
      CopyMeaning(d, data, sym, Place(), Out());
      var n, dist := ReceiveCopy(sym, d);
      if dist < 0 {
        return Failed;
      }
      st := CopyMatch(n, dist);
    }

    /** The length of a copy, and its distance or -1. */
    method ReceiveCopy(sym: nat, ghost d: seq<nat>) returns (n: nat, dist: int)
      requires Reading() && zDistance.Built(d) && |d| <= DIST_SYMS && 257 <= sym < 288
      modifies `pos, `numBits, `codeBuffer, `fetched
      ensures Reading() && Place() >= old(Place())
      ensures n == LengthBase(sym - 257) + Lsb(data, old(Place()), LengthExtra(sym - 257))
      ensures var s := CopyFetched(ReaderOf(d, data), data, sym, old(Place()), old(fetched));
        match SymbolAndEnd(d, data, old(Place()) + LengthExtra(sym - 257))
        case None => dist == -1
        case Some((z, end)) =>
          if s.None? then dist == -1
          else dist == DistBase(z) + Lsb(data, end, DistExtra(z)) && Place() == end + DistExtra(z) && s == Some(fetched)
    {
      hide DistanceFetched, Refilled, Lsb, SymbolAndEnd, LengthExtra, DistExtra, LengthBase, DistBase;
      hide ZHuffman.FirstsBuilt, ZHuffman.EndsBuilt, ZHuffman.SymbolsBuilt, ZHuffman.FastBuilt;
      n := ReceiveLength(sym - 257);
      SymbolEnd(d, data, Place());
      dist := DecodeDistance(d);
    }

    method ReceiveLength(z: nat) returns (n: nat)
      requires Reading() && z < 31
      modifies `pos, `numBits, `codeBuffer, `fetched
      ensures Reading() && Place() == old(Place()) + LengthExtra(z)
      ensures n == LengthBase(z) + Lsb(data, old(Place()), LengthExtra(z))
      ensures fetched == Refilled(old(Place()), old(fetched), LengthExtra(z))
    {
      LengthBases(z);
      LengthExtras(z);
      n := LENGTH_BASE[z];
      if LENGTH_EXTRA[z] != 0 {
        var extra := Receive(LENGTH_EXTRA[z]);
        n := n + extra;
      }
    }

    /** Decode a distance; -1 if its symbol is refused or there is none. */
    method DecodeDistance(ghost d: seq<nat>) returns (dist: int)
      requires Reading() && zDistance.Built(d) && |d| <= DIST_SYMS
      modifies `pos, `numBits, `codeBuffer, `fetched
      ensures Reading() && Place() >= old(Place())
      ensures var s := old(DistanceFetched(ReaderOf(d, data), data, Place(), fetched));
        match SymbolAndEnd(d, data, old(Place()))
        case None => dist == -1
        case Some((z, end)) =>
          if s.None? then dist == -1
          else dist == DistBase(z) + Lsb(data, end, DistExtra(z)) && Place() == end + DistExtra(z) && s == Some(fetched)
    {
      var z := HuffmanDecode(zDistance, d);
      if z < 0 {
        return -1;
      }
      DistBases(z);
      DistExtras(z);
      dist := DIST_BASE[z];
      if DIST_EXTRA[z] != 0 {
        var extra := Receive(DIST_EXTRA[z]);
        dist := dist + extra;
      }
    }

    /** Append n bytes from dist places back; a run of one byte has its own loop. */
    method CopyMatch(n: nat, dist: nat) returns (st: Status)
      requires Writing()
      modifies `zout, `len, zout
      ensures Writing() && Room() == old(Room()) && (zout == old(zout) || fresh(zout))
      ensures match st
        case Done => false
        case More =>
          && dist <= old(len) && len == old(len) + n <= Room()
          && (dist >= 1 ==> Out() == CopyBack(old(Out()), n, dist)) && (n == 0 ==> Out() == old(Out()))
          && old(Out()) <= Out()
        case Failed => dist > old(len) || old(len) + n > Room()
    {
      if len < dist {
        return Failed;
      }
      var ok := Reserve(n);
      if !ok {
        return Failed;
      }
      if dist == 1 {
        CopyRun(n);
      } else {
        CopyBytes(n, dist);
      }
      return More;
    }

    /** What decoding the body of a block from here on amounts to. */
    ghost function BodyHere(l: seq<nat>, d: seq<nat>, fuel: nat): Outcome
      requires Valid()
      reads this, zout
    {
      Body(ReaderOf(l, data), ReaderOf(d, data), data, Place(), Out(), fuel)
    }

    ghost function CourseHere(l: seq<nat>, d: seq<nat>, turns: nat): Course
      requires Valid()
      reads this
    {
      BodyCourse(ReaderOf(l, data), ReaderOf(d, data), data, Room(), Here(), turns)
    }

    /** This outcome is what has been done, if what has been decoded has a meaning. */
    ghost predicate Achieved(r: Outcome)
      requires Valid()
      reads this, zout
    {
      r == Output(Out(), Place()) || r.Undefined?
    }

    /** The course has come through to where the decoder is, or it has failed. */
    ghost predicate Followed(c: Course, ok: bool)
      requires Reading()
      reads `pos, `numBits, `codeBuffer, `fetched, `len
    {
      if c.Through? then ok && c.s == Here() else !ok
    }

    /** Decode the items of a compressed block, at most so many of them. */
    method ParseHuffmanBlock(turns: nat, ghost l: seq<nat>, ghost d: seq<nat>, ghost r: Outcome, ghost c: Course)
        returns (ok: bool)
      requires Valid() && Ready(l, d) && r == BodyHere(l, d, turns) && c == CourseHere(l, d, turns)
      modifies `pos, `numBits, `codeBuffer, `fetched, `zout, `len, zout
      ensures Valid() && Ready(l, d) && Room() == old(Room()) && (zout == old(zout) || fresh(zout))
      ensures Place() >= old(Place())
      ensures Followed(c, ok) && (ok ==> Achieved(r) && old(Out()) <= Out())
    {
      hide ItemAt, ItemFetched, Turn, Body, BodyFetched, BodyCourse, Emit, Lsb, MaxCapacity, ReaderOf, Room,
        ZHuffman.Built;
      var left := turns;
      while left > 0
        invariant Valid() && Ready(l, d) && Room() == old(Room()) && (zout == old(zout) || fresh(zout))
        invariant 0 <= left <= turns && Place() >= old(Place()) && old(Out()) <= Out()
        invariant r.Undefined? || r == BodyHere(l, d, left)
        invariant c == CourseHere(l, d, left)
        decreases left
      {
        ghost var lit, dist := ReaderOf(l, data), ReaderOf(d, data);
        BodyUnfolds(lit, dist, data, Place(), fetched, Out(), left);
        CourseUnfolds(lit, dist, data, Room(), Here(), left);
        var st := ParseItem(l, d);
        match st
        case Failed => return false;
        case Done => return true;
        case More =>
        left := left - 1;
      }
      CourseStops(l, d);
      return false;
    }

    lemma CourseStops(l: seq<nat>, d: seq<nat>)
      requires Valid()
      ensures CourseHere(l, d, 0).Running?
    {
    }

    // ----- Dynamic headers -----

    /** These tables have been built, and the reader is at their end with so many bytes fetched. */
    ghost predicate TablesBuilt(t: Tables, s: Option<nat>)
      requires Reading()
      reads `pos, `numBits, `codeBuffer, `fetched, zLength.Repr(), zDistance.Repr()
    {
      t.Tables? && Ready(t.lit, t.dist) && Place() == t.end && s == Some(fetched)
    }

    /** Read the header at this place, which defines these tables, and build them. */
    method ComputeHuffmanCodes(ghost t: Tables, ghost s: Option<nat>) returns (ok: bool)
      requires Reading() && zLength.Valid() && zDistance.Valid() && zLength.Repr() !! zDistance.Repr()
      requires t == HeaderAt(data, Place()) && s == HeaderFetched(data, Place(), fetched)
      modifies `pos, `numBits, `codeBuffer, `fetched, zLength.Repr(), zDistance.Repr()
      ensures Reading()
      ensures if t.Tables? && s.Some? then ok && TablesBuilt(t, s) else !ok
    {
      hide TablesAt, HeaderAt, Lsb, ClLengths, ThreesAt, LengthsFetched, ThreesFetched, Refilled, ReaderOf;
      ghost var p := Place();
      var hlit := Receive(5);
      var hdist := Receive(5);
      var hclen := Receive(4);
      Pow2Values();
      var sizes := ReceiveClLengths(hclen + 4);
      HeaderReads(hlit, hdist, ThreesAt(data, p + 14, hclen + 4), data, p);
      ok := BuildTables(hlit + 257, hdist + 1, sizes[..], t, s);
    }

    /** Read the operations of a header and build the tables from the lengths they give. */
    method BuildTables(hlit: nat, hdist: nat, cl: seq<nat>, ghost t: Tables, ghost s: Option<nat>) returns (ok: bool)
      requires Reading() && zLength.Valid() && zDistance.Valid() && zLength.Repr() !! zDistance.Repr()
      requires hlit <= 288 && hdist <= 32 && |cl| == 19 && forall i :: 0 <= i < 19 ==> cl[i] < 8
      requires t == TablesAt(data, Place(), hlit, hdist, cl)
      requires s == LengthsFetched(ReaderOf(cl, data), data, Place(), fetched, hlit + hdist, [])
      modifies `pos, `numBits, `codeBuffer, `fetched, zLength.Repr(), zDistance.Repr()
      ensures Reading()
      ensures if t.Tables? && s.Some? then ok && TablesBuilt(t, s) else !ok
    {
      hide TablesAt, LengthsAt, LengthsFetched, ReaderOf, IsCode, Lsb, Ready, ZHuffman.Built, IsLengths;
      TablesFrom(data, Place(), hlit, hdist, cl);
      var all;
      ok, all := ReadLengths(cl, hlit + hdist);
      if !ok {
        return;
      }
      PartsAreLengths(all, hlit);
      ok := BuildBoth(all[..hlit], all[hlit..]);
    }

    /** Read so many lengths by the code for them, if it is a code. */
    method ReadLengths(cl: seq<nat>, total: nat) returns (ok: bool, all: seq<nat>)
      requires Reading() && total <= 320 && |cl| == 19 && forall i :: 0 <= i < 19 ==> cl[i] < 8
      modifies `pos, `numBits, `codeBuffer, `fetched
      ensures Reading()
      ensures var ref := LengthsAt(ReaderOf(cl, data), data, old(Place()), total, []);
        var s := LengthsFetched(ReaderOf(cl, data), data, old(Place()), old(fetched), total, []);
        && (ok <==> IsCode(cl) && ref.Some? && s.Some?)
        && (ok ==> ref == Some((all, Place())) && s == Some(fetched))
    {
      hide LengthsAt, LengthsFetched, ReaderOf, IsCode, Lsb, ZHuffman.Built, IsLengths;
      SmallLengths(cl);
      all := [];
      var zCodelength := new ZHuffman();
      ok := zCodelength.Build(cl);
      if !ok {
        return;
      }
      var lencodes;
      ok, lencodes := ParseLengths(zCodelength, cl, total);
      all := lencodes[..total];
    }

    method BuildBoth(l: seq<nat>, d: seq<nat>) returns (ok: bool)
      requires zLength.Valid() && zDistance.Valid() && zLength.Repr() !! zDistance.Repr()
      requires IsLengths(l) && |l| <= LIT_SYMS && IsLengths(d) && |d| <= DIST_SYMS
      modifies zLength.Repr(), zDistance.Repr()
      ensures ok <==> IsCode(l) && IsCode(d)
      ensures ok ==> Ready(l, d)
    {
      hide IsCode, ZHuffman.FirstsBuilt, ZHuffman.EndsBuilt, ZHuffman.SymbolsBuilt, ZHuffman.FastBuilt;
      ok := zLength.Build(l);
      if !ok {
        return;
      }
      ok := zDistance.Build(d);
    }

    method ReceiveClLengths(hclen: nat) returns (sizes: array<nat>)
      requires Reading() && hclen <= 19
      modifies `pos, `numBits, `codeBuffer, `fetched
      ensures Reading() && Place() == old(Place()) + 3 * hclen
      ensures fetched == ThreesFetched(old(Place()), old(fetched), hclen)
      ensures fresh(sizes) && sizes[..] == ClLengths(ThreesAt(data, old(Place()), hclen))
      ensures forall k :: 0 <= k < 19 ==> sizes[k] < 8
    {
      hide Lsb, ThreesAt, Refilled, ClLengths, StorePlace;
      ghost var p, f := Place(), fetched;
      ghost var clens := ThreesAt(data, p, hclen);
      sizes := new nat[19](_ => 0);
      for i := 0 to hclen
        invariant Reading() && Place() == p + 3 * i && fetched == ThreesFetched(p, f, i)
        invariant forall k :: 0 <= k < 19 ==> sizes[k] == if StorePlace(k) < i then clens[StorePlace(k)] else 0
      {
        StorePlaces(i);
        ThreesIndex(data, p, hclen, i);
        var s := Receive(3);
        sizes[DEZIGZAG[i]] := s;
      }
      ClLengthsAre(sizes[..], clens);
    }

    static lemma ClLengthsAre(sizes: seq<nat>, clens: seq<nat>)
      requires |sizes| == 19
      requires forall k :: 0 <= k < 19 ==> sizes[k] == if StorePlace(k) < |clens| then clens[StorePlace(k)] else 0
      ensures sizes == ClLengths(clens)
    {
    }

    /** Read code lengths up to ntot of them; the array has room for one operation too many. */
    method ParseLengths(h: ZHuffman, ghost cl: seq<nat>, ntot: nat) returns (ok: bool, lencodes: array<nat>)
      requires Reading() && h.Built(cl) && |cl| == 19 && ntot <= 320
      modifies `pos, `numBits, `codeBuffer, `fetched
      ensures Reading() && fresh(lencodes) && lencodes.Length >= ntot
      ensures var ref := LengthsAt(ReaderOf(cl, data), data, old(Place()), ntot, []);
        var s := LengthsFetched(ReaderOf(cl, data), data, old(Place()), old(fetched), ntot, []);
        && (ok <==> ref.Some? && s.Some?)
        && (ok ==> ref == Some((lencodes[..ntot], Place())) && s == Some(fetched))
    {
      ghost var ref := LengthsAt(ReaderOf(cl, data), data, Place(), ntot, []);
      ghost var s := LengthsFetched(ReaderOf(cl, data), data, Place(), fetched, ntot, []);
      lencodes := new nat[286 + 32 + 137];
      var n := 0;
      assert lencodes[..0] == [];
      while n < ntot
        invariant Reading() && n <= ntot
        invariant ref == LengthsAt(ReaderOf(cl, data), data, Place(), ntot, lencodes[..n])
        invariant s == LengthsFetched(ReaderOf(cl, data), data, Place(), fetched, ntot, lencodes[..n])
        decreases ntot - n
      {
        var m := ParseLenOp(h, cl, lencodes, n, ntot);
        if m < 0 {
          return false, lencodes;
        }
        n := m;
      }
      return true, lencodes;
    }

    method ParseLenOp(h: ZHuffman, ghost cl: seq<nat>, lencodes: array<nat>, n: nat, ntot: nat) returns (m: int)
      requires Reading() && h.Built(cl) && |cl| == 19 && n < ntot <= 320
      requires lencodes.Length == 455 && lencodes !in h.Repr()
      modifies `pos, `numBits, `codeBuffer, `fetched, lencodes
      ensures Reading() && -1 <= m
      ensures var s := old(LenOpFetched(ReaderOf(cl, data), data, Place(), fetched));
        match LenOpAt(ReaderOf(cl, data), data, old(Place()))
        case None => m == -1
        case Some((op, end)) =>
          match Extend(old(lencodes[..n]), op)
          case None => m == -1
          case Some(next) =>
            if |next| > ntot || s.None? then m == -1
            else n < m == |next| && lencodes[..m] == next && Place() == end && s == Some(fetched)
    {
      hide SymbolAndEnd, SymbolFetched, OpOf, LenOpAt, Extend, Lsb;
      LenOpMeaning(cl, data, Place());
      SymbolEnd(cl, data, Place());
      var c := HuffmanDecode(h, cl);
      if c < 0 || c >= 19 {
        return -1;
      }
      m := ApplyLenOp(c, lencodes, n, ntot);
    }

    /** Add to the lengths what a code length symbol says. */
    method ApplyLenOp(c: nat, lencodes: array<nat>, n: nat, ntot: nat) returns (m: int)
      requires Reading() && c < 19 && n < ntot <= 320 && lencodes.Length == 455
      modifies `pos, `numBits, `codeBuffer, `fetched, lencodes
      ensures Reading() && -1 <= m && OpOf(c, data, old(Place())).Some?
      ensures var (op, end) := OpOf(c, data, old(Place())).value;
        match Extend(old(lencodes[..n]), op)
        case None => m == -1
        case Some(next) =>
          if |next| > ntot then m == -1 else n < m == |next| && lencodes[..m] == next && Place() == end
      ensures m >= 0 ==> fetched == Refilled(old(Place()), old(fetched), RepeatBits(c))
    {
      hide Lsb;
      ghost var acc := lencodes[..n];
      if c < 16 {
        lencodes[n] := c;
        assert lencodes[..n + 1] == acc + [c];
        return n + 1;
      }
      var count, fill := ReceiveRepeat(c, lencodes, n);
      if count < 0 || ntot - n < count {
        return -1;
      }
      forall i | n <= i < n + count {
        lencodes[i] := fill;
      }
      assert lencodes[..n + count] == acc + Fill(fill, count);
      return n + count;
    }

    /** How often to repeat, and what; -1 if there is nothing to repeat. */
    method ReceiveRepeat(sym: nat, lencodes: array<nat>, n: nat) returns (c: int, fill: nat)
      requires Reading() && 16 <= sym < 19 && n < lencodes.Length
      modifies `pos, `numBits, `codeBuffer, `fetched
      ensures Reading() && -1 <= c && fetched == Refilled(old(Place()), old(fetched), RepeatBits(sym))
      ensures sym == 16 ==> Place() == old(Place()) + 2 && c == if n == 0 then -1 else 3 + Lsb(data, old(Place()), 2)
      ensures sym == 16 && n > 0 ==> fill == lencodes[n - 1]
      ensures sym == 17 ==> Place() == old(Place()) + 3 && c == 3 + Lsb(data, old(Place()), 3) && fill == 0
      ensures sym == 18 ==> Place() == old(Place()) + 7 && c == 11 + Lsb(data, old(Place()), 7) && fill == 0
    {
      hide Lsb;
      fill := 0;
      if sym == 16 {
        c := Receive(2);
        c := c + 3;
        if n == 0 {
          return -1, 0;
        }
        fill := lencodes[n - 1];
      } else if sym == 17 {
        c := Receive(3);
        c := c + 3;
      } else {
        c := Receive(7);
        c := c + 11;
      }
    }

    // ----- Stored blocks -----

    /** Copy a stored block. After the three header bits fewer than four whole bytes are
        buffered, so the header has room for all of them. */
    method ParseUncompressedBlock(ghost r: Outcome, ghost c: Course) returns (ok: bool)
      requires Valid() && numBits < 32
      requires r == StoredAt(data, (Place() + 7) / 8, Out()) && c == StoredCourse(data, Room(), Here())
      modifies `pos, `numBits, `codeBuffer, `fetched, `zout, `len, zout
      ensures Valid() && Room() == old(Room()) && (zout == old(zout) || fresh(zout))
      ensures Place() >= old(Place())
      ensures Followed(c, ok) && (ok ==> Achieved(r))
    {
      hide StoredAt, StoredCourse, BytesFrom, Lsb, MaxCapacity;
      var header := ReadStoredHeader();
      StoredCases(data, old(Here()), old(Out()), Room(), header[..]);
      var n := header[1] as int * 256 + header[0] as int;
      var nlen := header[3] as int * 256 + header[2] as int;
      if nlen != 0xFFFF - n {
        return false;
      }
      if pos + n > |data| {
        return false;
      }
      ok := PutInput(n);
    }

    /** Append the next n bytes of the input, if there can be room for them. */
    method PutInput(n: nat) returns (ok: bool)
      requires Valid() && numBits == 0 && pos + n <= |data|
      modifies `pos, `fetched, `zout, `len, zout
      ensures Writing() && Room() == old(Room()) && (zout == old(zout) || fresh(zout))
      ensures ok <==> old(len) + n <= Room()
      ensures ok ==> Out() == old(Out()) + data[old(pos)..old(pos) + n]
      ensures var k := if ok then n else 0;
        len == old(len) + k && pos == old(pos) + k && fetched == old(fetched) + k
    {
      hide MaxCapacity;
      ok := Reserve(n);
      if ok {
        CopyInput(n);
      }
    }

    /** What the header of a stored block leads to. A header that is not all in the data has a
        zero for its last byte, and so does not announce an empty block. */
    static lemma StoredCases(data: seq<byte>, s: State, out: seq<byte>, room: nat, header: seq<byte>)
      requires header == BytesFrom(data, (s.p + 7) / 8, 4)
      ensures var n, nlen := header[1] as int * 256 + header[0] as int, header[3] as int * 256 + header[2] as int;
        var end := (s.p + 7) / 8 + 4 + n;
        var bad := nlen != 0xFFFF - n || end > |data|;
        && (nlen == 0xFFFF - n && end - n > |data| ==> n > 0)
        && StoredAt(data, (s.p + 7) / 8, out) == (if bad then Bad else Output(out + data[end - n..end], 8 * end))
        && StoredCourse(data, room, s) ==
             if bad || s.len + n > room then Broken else Through(State(8 * end, end, s.len + n))
    {
    }

    /** Drop bits up to the next byte boundary, then take four bytes, first those that are
        buffered. */
    method ReadStoredHeader() returns (header: array<byte>)
      requires Reading() && numBits < 32
      modifies `pos, `numBits, `codeBuffer, `fetched
      ensures Reading() && numBits == 0 && fetched == (old(Place()) + 7) / 8 + 4
      ensures fresh(header) && header[..] == BytesFrom(data, (old(Place()) + 7) / 8, 4)
    {
      hide ByteAt, Lsb, BytesFrom;
      ghost var f := (Place() + 7) / 8;
      DropToByte();
      header := new byte[4];
      var k := DrainBuffer(header, f);
      while k < 4
        invariant Reading() && numBits == 0 && k <= 4 && fetched == f + k && HasBytes(header, f, k)
      {
        header[k] := Get8();
        k := k + 1;
      }
      AreBytes(data, header[..], f);
    }

    /** The first k bytes of the header are those from byte f on. */
    ghost predicate HasBytes(header: array<byte>, f: nat, k: nat)
      reads header
    {
      forall i :: 0 <= i < k && i < header.Length ==> header[i] == ByteAt(data, f + i)
    }

    static lemma AreBytes(data: seq<byte>, header: seq<byte>, f: nat)
      requires |header| == 4 && forall i :: 0 <= i < 4 ==> header[i] == ByteAt(data, f + i)
      ensures header == BytesFrom(data, f, 4)
    {
    }

    /** Take all bytes that are buffered, from byte f on. */
    method DrainBuffer(header: array<byte>, ghost f: nat) returns (k: nat)
      requires Reading() && f <= fetched && numBits == 8 * (fetched - f) <= 24 && header.Length == 4
      modifies `numBits, `codeBuffer, header
      ensures Reading() && numBits == 0 && k == fetched - f && HasBytes(header, f, k)
    {
      hide ByteAt, Lsb;
      k := 0;
      while numBits > 0
        invariant Reading() && 0 <= k <= fetched - f <= 3
        invariant numBits == 8 * (fetched - f - k) && HasBytes(header, f, k)
        decreases numBits
      {
        header[k] := DrainByte(f + k);
        k := k + 1;
      }
    }

    /** Take byte i, which is the next in the bit buffer. */
    method DrainByte(ghost i: nat) returns (b: byte)
      requires Reading() && numBits >= 8 && Place() == 8 * i
      modifies `numBits, `codeBuffer
      ensures Reading() && numBits == old(numBits) - 8 && b == ByteAt(data, i)
    {
      LsbByte(data, i);
      LsbParts(data, Place(), 8, numBits - 8);
      b := Low(codeBuffer, 8);
      Consume(8);
    }

    static lemma WholeBytes(f: nat, n: nat)
      requires n < 32 && 8 * f >= n
      ensures (8 * f - n + 7) / 8 == f - n / 8 && n - n % 8 == 8 * (n / 8) <= 24
    {
      var q := n / 8;
      var r := n - 8 * q;
      assert (8 * f - n + 7) / 8 == f - q;
      assert n % 8 == r;
    }

    method DropToByte()
      requires Reading() && numBits < 32
      modifies `pos, `numBits, `codeBuffer, `fetched
      ensures Reading() && fetched == old(fetched)
      ensures var f := (old(Place()) + 7) / 8; numBits == 8 * (fetched - f) <= 24
    {
      hide Lsb;
      WholeBytes(fetched, numBits);
      if numBits % 8 != 0 {
        var dropped := Receive(numBits % 8);
      }
    }

    method CopyInput(n: nat)
      requires Valid() && numBits == 0 && pos + n <= |data| && len + n <= zout.Length
      modifies `pos, `fetched, `len, zout
      ensures Writing() && Out() == old(Out()) + data[old(pos)..old(pos) + n]
      ensures pos == old(pos) + n && fetched == old(fetched) + n
    {
      forall i | 0 <= i < n {
        zout[len + i] := data[pos + i];
      }
      assert zout[..len + n] == old(Out()) + data[pos..pos + n];
      pos := pos + n;
      fetched := fetched + n;
      len := len + n;
    }

    // ----- The zlib stream -----

    /** Check the two bytes before the blocks. */
    method ParseZlibHeader() returns (ok: bool)
      requires pos == 0 && fetched == 0
      modifies `pos, `fetched
      ensures ok <==> HasZlibHeader(data)
      ensures ok ==> pos == 2 < |data| && fetched == 2
    {
      var cmf := Get8();
      var cm := cmf % 16;
      var flg := Get8();
      if Eof() {
        return false;
      }
      if (cmf as int * 256 + flg) % 31 != 0 {
        return false;
      }
      if flg / 32 % 2 != 0 {
        return false;
      }
      return cm == 8;
    }

    /** Decode one block, which amounts to r, from its three header bits on. */
    method ParseBlock(turns: nat, ghost r: Outcome, ghost c: Course) returns (ok: bool, final: nat)
      requires Valid() && zLength.Valid() && zDistance.Valid() && zLength.Repr() !! zDistance.Repr()
      requires r == BlockAt(data, Place() + 3, Lsb(data, Place() + 1, 2), Out(), turns)
      requires c == BlockCourse(data, Lsb(data, Place() + 1, 2), Room(), Headed(Here()), turns)
      modifies `pos, `numBits, `codeBuffer, `fetched, `zout, `len, zout, zLength.Repr(), zDistance.Repr()
      ensures Valid() && Room() == old(Room()) && (zout == old(zout) || fresh(zout))
      ensures final == Bit(data, old(Place()))
      ensures ok ==> Place() >= old(Place()) + 3
      ensures Followed(c, ok) && (ok ==> Achieved(r))
    {
      hide Body, BodyCourse, StoredAt, StoredCourse, DynamicAt, DynamicCourse, FixedLit, FixedDist, ReaderOf,
        MaxCapacity, Bit;
      OneBit(data, Place());
      final := Receive(1);
      var kind := Receive(2);
      if kind == 0 {
        ok := ParseUncompressedBlock(r, c);
      } else if kind == 3 {
        ok := false;
      } else if kind == 1 {
        ok := ParseFixedBlock(turns, r, c);
      } else {
        Pow2Values();
        ok := ParseDynamicBlock(turns, r, c);
      }
    }

    method ParseFixedBlock(turns: nat, ghost r: Outcome, ghost c: Course) returns (ok: bool)
      requires Valid() && zLength.Valid() && zDistance.Valid() && zLength.Repr() !! zDistance.Repr()
      requires r == BodyHere(FixedLit(), FixedDist(), turns) && c == CourseHere(FixedLit(), FixedDist(), turns)
      modifies `pos, `numBits, `codeBuffer, `fetched, `zout, `len, zout, zLength.Repr(), zDistance.Repr()
      ensures Valid() && Room() == old(Room()) && (zout == old(zout) || fresh(zout))
      ensures Place() >= old(Place()) && Followed(c, ok) && (ok ==> Achieved(r))
    {
      hide Body, BodyCourse, FixedLit, FixedDist, ReaderOf, MaxCapacity, Bit, Lsb, Kraft, Ready;
      FixedAreCodes();
      ok := BuildBoth(FixedLit(), FixedDist());
      ok := ParseHuffmanBlock(turns, FixedLit(), FixedDist(), r, c);
    }

    method ParseDynamicBlock(turns: nat, ghost r: Outcome, ghost c: Course) returns (ok: bool)
      requires Valid() && zLength.Valid() && zDistance.Valid() && zLength.Repr() !! zDistance.Repr()
      requires r == DynamicAt(data, Place(), Out(), turns) && c == DynamicCourse(data, Room(), Here(), turns)
      modifies `pos, `numBits, `codeBuffer, `fetched, `zout, `len, zout, zLength.Repr(), zDistance.Repr()
      ensures Valid() && Room() == old(Room()) && (zout == old(zout) || fresh(zout))
      ensures (ok ==> Place() >= old(Place()) && Achieved(r)) && Followed(c, ok)
    {
      hide Body, BodyCourse, DynamicAt, HeaderAt, HeaderFetched, ReaderOf, MaxCapacity, Bit, Lsb, Ready;
      ghost var p, out := Place(), Out();
      ghost var t, f := HeaderAt(data, p), HeaderFetched(data, p, fetched);
      DynamicCases(data, p, out, turns);
      HeaderAdvances(data, p);
      ok := ComputeHuffmanCodes(t, f);
      if !ok {
        return;
      }
      ok := ParseHuffmanBlock(turns, t.lit, t.dist, r, c);
    }

    /** Decode blocks up to the last. */
    method ParseZlib(parseHeader: bool, turns: nat, ghost r: Outcome, ghost c: Course) returns (ok: bool)
      requires Valid() && pos == 0 && fetched == 0 && numBits == 0 && len == 0
      requires zLength.Valid() && zDistance.Valid() && zLength.Repr() !! zDistance.Repr()
      requires r == ZlibAt(data, parseHeader, turns) && c == ZlibCourse(data, parseHeader, Room(), turns)
      modifies this, zout, zLength.Repr(), zDistance.Repr()
      ensures Writing() && Room() == old(Room())
      ensures if parseHeader && !HasZlibHeader(data) then !ok else Valid() && Followed(c, ok)
      ensures ok ==> Valid() && Achieved(r)
    {
      hide StreamAt, StreamCourse, BlockAt, BlockCourse, Headed, MaxCapacity, Bit, Lsb, HasZlibHeader, ZHuffman.Valid,
        ZHuffman.Repr;
      if parseHeader {
        ok := ParseZlibHeader();
        if !ok {
          return;
        }
      }
      numBits := 0;
      codeBuffer := 0;
      NoBits(data, Place());
      assert Out() == [];
      while true
        invariant Valid() && Room() == old(Room()) && (zout == old(zout) || fresh(zout))
        invariant r.Undefined? || r == StreamAt(data, Place(), Out(), turns)
        invariant c == StreamCourse(data, Room(), Here(), turns)
        decreases 8 * |data| - Place()
      {
        ghost var kind := Lsb(data, Place() + 1, 2);
        ghost var block := BlockAt(data, Place() + 3, kind, Out(), turns);
        ghost var course := BlockCourse(data, kind, Room(), Headed(Here()), turns);
        StreamUnfolds(data, Place(), Out(), turns, block);
        CourseContinues(data, Room(), Here(), turns, course);
        StreamGrows(data, Place(), Out(), turns, block);
        var final;
        ok, final := ParseBlock(turns, block, course);
        if !ok {
          return;
        }
        if final != 0 {
          return;
        }
      }
    }
  }

  // ----- Decoding a whole buffer -----

  /** The place of the first block. */
  function Start(parseHeader: bool): nat {
    if parseHeader then 16 else 0
  }

  /** The largest output of a decoder that starts with this buffer size. */
  function Limit(olen: nat, exp: bool): nat
    requires olen <= UINT_MAX && (exp ==> olen > 0)
  {
    if exp then MaxCapacity(olen) else olen
  }

  /** The data hold the encoding of these blocks, after the header if there is one. */
  ghost predicate IsStreamOf(data: seq<byte>, parseHeader: bool, blocks: seq<Block>) {
    && (parseHeader ==> HasZlibHeader(data))
    && AreBlocks(blocks, Start(parseHeader))
    && Spells(data, Start(parseHeader), EncodeBlocks(blocks, Start(parseHeader)))
    && StreamEnd(blocks, parseHeader) <= 8 * |data|
  }

  function StreamEnd(blocks: seq<Block>, parseHeader: bool): nat
    requires AreBlocks(blocks, Start(parseHeader))
  {
    Start(parseHeader) + |EncodeBlocks(blocks, Start(parseHeader))|
  }

  /** No symbol of the stream is refused. */
  ghost predicate Served(data: seq<byte>, parseHeader: bool, turns: nat) {
    ZlibFetched(data, parseHeader, turns).Some?
  }

  lemma StreamOutcome(data: seq<byte>, parseHeader: bool, blocks: seq<Block>, turns: nat)
    requires IsStreamOf(data, parseHeader, blocks) && turns >= 8 * |data|
    ensures match EmitBlocks([], blocks)
      case None => ZlibAt(data, parseHeader, turns) == Bad
      case Some(o) => ZlibAt(data, parseHeader, turns) == Output(o, StreamEnd(blocks, parseHeader))
  {
    hide AreBlocks, EncodeBlocks, StreamAt, EmitBlocks, Fits, Spells;
    BlocksFit(blocks, Start(parseHeader), turns);
    StreamDecodes(data, Start(parseHeader), blocks, [], turns);
  }

  /** Two bytes from the start of the last symbol on are enough, if the stream has a meaning. */
  lemma LastSymbolServes(data: seq<byte>, parseHeader: bool, turns: nat)
    requires ZlibAt(data, parseHeader, turns).Output?
    requires LastStart(data, Start(parseHeader), [], turns) + 16 <= 8 * |data|
    ensures Served(data, parseHeader, turns)
  {
    hide StreamAt, StreamFetched, LastStart;
    StreamServed(data, Start(parseHeader), Start(parseHeader) / 8, [], turns);
  }

  /** So are two bytes after the stream, as the checksum of a zlib stream has more of. */
  lemma TwoBytesServe(data: seq<byte>, parseHeader: bool, blocks: seq<Block>, turns: nat)
    requires IsStreamOf(data, parseHeader, blocks) && turns >= 8 * |data| && EmitBlocks([], blocks).Some?
    requires StreamEnd(blocks, parseHeader) + 16 <= 8 * |data|
    ensures Served(data, parseHeader, turns)
  {
    hide AreBlocks, EncodeBlocks, StreamAt, StreamFetched, LastStart, EmitBlocks, Spells;
    StreamOutcome(data, parseHeader, blocks, turns);
    LastInside(data, Start(parseHeader), [], turns);
    LastSymbolServes(data, parseHeader, turns);
  }

  /** A stream of blocks comes through exactly if it has a meaning that fits and no symbol is
      refused. */
  lemma BlocksCourse(data: seq<byte>, parseHeader: bool, blocks: seq<Block>, room: nat, turns: nat)
    requires IsStreamOf(data, parseHeader, blocks) && turns >= 8 * |data|
    ensures var e := EmitBlocks([], blocks);
      ZlibCourse(data, parseHeader, room, turns).Through? <==>
        e.Some? && |e.value| <= room && Served(data, parseHeader, turns)
  {
    hide AreBlocks, EncodeBlocks, StreamAt, StreamFetched, StreamCourse, EmitBlocks, Spells;
    StreamOutcome(data, parseHeader, blocks, turns);
    StreamFollows(data, room, Begun(parseHeader), [], turns);
  }

  /** Inflate a buffer: the output, or None for an error. There is an output exactly if the course
      comes through, which a stream of blocks does if its meaning is defined and fits and no symbol
      is refused. The output is then that meaning, and any output without arbitrary bytes is what
      some blocks mean. The model gives up where the loop of the source never ends. */
  method Decode(buffer: seq<byte>, olen: nat, exp: bool, parseHeader: bool) returns (r: Option<seq<byte>>)
    requires olen <= UINT_MAX && (exp ==> olen > 0)
    ensures var c := ZlibCourse(buffer, parseHeader, Limit(olen, exp), Patience(buffer, Limit(olen, exp)));
      && (r.Some? <==> (parseHeader ==> HasZlibHeader(buffer)) && c.Through?)
      && (r.Some? ==> |r.value| == c.s.len <= Limit(olen, exp))
    ensures forall blocks :: IsStreamOf(buffer, parseHeader, blocks) ==>
      var e := EmitBlocks([], blocks);
      var served := Served(buffer, parseHeader, Patience(buffer, Limit(olen, exp)));
      r == if e.Some? && |e.value| <= Limit(olen, exp) && served then e else None
    ensures r.Some? && !ZlibAt(buffer, parseHeader, Patience(buffer, Limit(olen, exp))).Undefined? ==>
      exists blocks :: AreBlocks(blocks, Start(parseHeader)) && EmitBlocks([], blocks) == r
        && Spells(buffer, Start(parseHeader), EncodeBlocks(blocks, Start(parseHeader)))
    ensures NeverEnds(buffer, Limit(olen, exp), Begun(parseHeader)) ==> r == None
  {
    hide AreBlocks, EncodeBlocks, StreamAt, StreamFetched, StreamCourse, EmitBlocks, Spells, MaxCapacity, IsStreamOf,
      HasZlibHeader, Patience;
    var z := new ZBuf(buffer, olen, exp);
    NoBits(buffer, 0);
    var limit := Limit(olen, exp);
    var turns := Patience(buffer, limit);
    IsPatient(buffer, limit);
    ghost var outcome, course := ZlibAt(buffer, parseHeader, turns), ZlibCourse(buffer, parseHeader, limit, turns);
    var ok := z.ParseZlib(parseHeader, turns, outcome, course);
    z.RoomCovers();
    if ok {
      r := Some(z.Out());
      if outcome.Output? {
        ghost var blocks := StreamIsEncoding(buffer, Start(parseHeader), [], turns);
      }
    } else {
      r := None;
    }
    forall blocks | IsStreamOf(buffer, parseHeader, blocks)
      ensures var e := EmitBlocks([], blocks);
        r == if e.Some? && |e.value| <= limit && Served(buffer, parseHeader, turns) then e else None
    {
      StreamOutcome(buffer, parseHeader, blocks, turns);
      StreamHeader(buffer, parseHeader, blocks);
      BlocksCourse(buffer, parseHeader, blocks, limit, turns);
    }
  }

  lemma IsPatient(data: seq<byte>, room: nat)
    ensures Patience(data, room) >= 8 * |data|
  {
  }

  /** The model gives up exactly where no number of turns is enough. */
  lemma GivesUp(data: seq<byte>, parseHeader: bool, room: nat)
    ensures ZlibCourse(data, parseHeader, room, Patience(data, room)).Running? <==>
      NeverEnds(data, room, Begun(parseHeader))
  {
    EndsOrNever(data, room, Begun(parseHeader), Patience(data, room));
  }

  lemma StreamHeader(data: seq<byte>, parseHeader: bool, blocks: seq<Block>)
    requires IsStreamOf(data, parseHeader, blocks)
    ensures parseHeader ==> HasZlibHeader(data)
  {
  }
}
