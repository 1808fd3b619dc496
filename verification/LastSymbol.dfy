/** A stream whose last symbol is refused for want of one more byte: two zero bytes in a block
    with the fixed codes, which take 26 bits. */
module LastSymbol {
  import opened Bits
  import opened CanonicalCode
  import opened Deflate
  import opened DeflateStream
  import opened Inflate
  import opened Options
  import opened Refills

  function Data(more: seq<byte>): seq<byte> {
    [0x63, 0x60, 0x00, 0x00] + more
  }

  lemma ByteBits(more: seq<byte>)
    ensures Bit(Data(more), 0) == 1 && Bit(Data(more), 1) == 1 && Bit(Data(more), 2) == 0
    ensures forall k :: 3 <= k < 26 ==> Bit(Data(more), k) == if k == 5 || k == 6 || k == 13 || k == 14 then 1 else 0
  {
    var data := Data(more);
    assert data[0] == 0x63 && data[1] == 0x60 && data[2] == 0 && data[3] == 0;
    forall k | 3 <= k < 26
      ensures Bit(data, k) == if k == 5 || k == 6 || k == 13 || k == 14 then 1 else 0
    {
      assert Shr(0x63, 3) == 12 && Shr(0x63, 4) == 6 && Shr(0x63, 5) == 3 && Shr(0x63, 6) == 1 && Shr(0x63, 7) == 0;
      assert Shr(0x60, 0) == 0x60 && Shr(0x60, 1) == 48 && Shr(0x60, 2) == 24 && Shr(0x60, 3) == 12;
      assert Shr(0x60, 4) == 6 && Shr(0x60, 5) == 3 && Shr(0x60, 6) == 1 && Shr(0x60, 7) == 0;
      ShrZero(0, k % 8);
    }
  }

  lemma Words(more: seq<byte>)
    ensures Msb(Data(more), 3, 8) == 48 && Msb(Data(more), 11, 8) == 48 && Msb(Data(more), 19, 7) == 0
    ensures Bit(Data(more), 0) == 1 && Lsb(Data(more), 1, 2) == 1
  {
    var data := Data(more);
    ByteBits(more);
    hide Bit;
    assert Msb(data, 3, 1) == 0 && Msb(data, 3, 2) == 0 && Msb(data, 3, 3) == 1 && Msb(data, 3, 4) == 3;
    assert Msb(data, 3, 5) == 6 && Msb(data, 3, 6) == 12 && Msb(data, 3, 7) == 24;
    assert Msb(data, 11, 1) == 0 && Msb(data, 11, 2) == 0 && Msb(data, 11, 3) == 1 && Msb(data, 11, 4) == 3;
    assert Msb(data, 11, 5) == 6 && Msb(data, 11, 6) == 12 && Msb(data, 11, 7) == 24;
    assert Msb(data, 19, 1) == 0 && Msb(data, 19, 2) == 0 && Msb(data, 19, 3) == 0 && Msb(data, 19, 4) == 0;
    assert Msb(data, 19, 5) == 0 && Msb(data, 19, 6) == 0;
    assert Lsb(data, 3, 0) == 0 && Lsb(data, 2, 1) == 0;
  }

  /** The places where the three symbols start. */
  lemma Symbols(more: seq<byte>)
    ensures var lit := ReaderOf(FixedLit(), Data(more));
      lit(3) == Some((0, 11)) && lit(11) == Some((0, 19)) && lit(19) == Some((END_OF_BLOCK, 26))
  {
    hide FixedLit, Code, Msb;
    FixedWords(0);
    FixedWords(END_OF_BLOCK);
    Words(more);
    SymbolIs(FixedLit(), 0, Data(more), 3);
    SymbolIs(FixedLit(), 0, Data(more), 11);
    SymbolIs(FixedLit(), END_OF_BLOCK, Data(more), 19);
  }

  /** The block means two zero bytes. */
  lemma MeansZeros(more: seq<byte>, fuel: nat)
    requires fuel >= 3
    ensures BlockAt(Data(more), 3, 1, [], fuel) == Output([0, 0], 26)
  {
    hide ReaderOf, FixedLit, FixedDist;
    Symbols(more);
    var data, lit, dist := Data(more), ReaderOf(FixedLit(), Data(more)), ReaderOf(FixedDist(), Data(more));
    assert Body(lit, dist, data, 19, [0, 0], fuel - 2) == Output([0, 0], 26);
    assert [0] + [0] == [0, 0];
    assert Body(lit, dist, data, 11, [0], fuel - 1) == Output([0, 0], 26);
    assert [] + [0] == [0];
  }

  /** Four bytes are fetched for the header, and no more are wanted until the last symbol. */
  lemma Fetches(more: seq<byte>, fuel: nat)
    requires fuel >= 3
    ensures BlockFetched(Data(more), 3, HeadFetched(0, 0), 1, fuel).Some? <==> more != []
  {
    hide ReaderOf, FixedLit, FixedDist;
    Symbols(more);
    var data, lit, dist := Data(more), ReaderOf(FixedLit(), Data(more)), ReaderOf(FixedDist(), Data(more));
    assert HeadFetched(0, 0) == 4;
    assert ItemFetched(lit, dist, data, 3, 4) == Some(4) == ItemFetched(lit, dist, data, 11, 4);
    assert BodyFetched(lit, dist, data, 3, 4, fuel) == BodyFetched(lit, dist, data, 19, 4, fuel - 2);
    assert ItemFetched(lit, dist, data, 19, 4).Some? <==> more != [];
  }

  /** Without another byte the stream is well-formed, and refused; with any it is not refused. */
  lemma OneByteMissing(more: seq<byte>, fuel: nat) returns (blocks: seq<Block>)
    requires fuel >= 8 * |Data(more)|
    ensures IsStreamOf(Data(more), false, blocks) && EmitBlocks([], blocks) == Some([0, 0])
    ensures Served(Data(more), false, fuel) <==> more != []
  {
    hide BlockAt, BlockFetched, HeadFetched, Bit, Lsb;
    var data := Data(more);
    Words(more);
    MeansZeros(more, fuel);
    Fetches(more, fuel);
    assert StreamAt(data, 0, [], fuel) == Output([0, 0], 26);
    blocks := StreamIsEncoding(data, 0, [], fuel);
  }
}
