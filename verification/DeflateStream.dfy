/** Whole DEFLATE streams: the three kinds of block and sequences of blocks (section 3.2.3 of
    RFC 1951), as an encoder and a decoder that are proved inverse to each other. */
module DeflateStream {
  import opened Bits
  import opened CanonicalCode
  import opened Deflate
  import opened DeflateHeader
  import opened DeflateLengths
  import opened Options

  // ----- The fixed codes -----

  function FixedLit(): (r: seq<nat>)
    ensures |r| == 288
  {
    seq<nat>(288, i requires 0 <= i < 288 =>
      if i < 144 then 8 else if i < 256 then 9 else if i < 280 then 7 else 8)
  }

  function FixedDist(): (r: seq<nat>)
    ensures |r| == 32
  {
    Fill(5, 32)
  }

  lemma {:induction false} FixedLitKraft(n: nat)
    requires n <= 288
    ensures Kraft(FixedLit(), n) ==
      if n <= 144 then 128 * n
      else if n <= 256 then 18432 + 64 * (n - 144)
      else if n <= 280 then 25600 + 256 * (n - 256)
      else 31744 + 128 * (n - 280)
  {
    if n > 0 {
      FixedLitKraft(n - 1);
      assert Pow2(7) == 128 && Pow2(6) == 64 && Pow2(8) == 256;
    }
  }

  lemma {:induction false} FixedDistKraft(n: nat)
    requires n <= 32
    ensures Kraft(FixedDist(), n) == 1024 * n
  {
    if n > 0 {
      FixedDistKraft(n - 1);
      assert Pow2(10) == 1024;
    }
  }

  /** The fixed lengths use up their code space exactly. */
  lemma FixedAreCodes()
    ensures IsCode(FixedLit()) && IsCode(FixedDist())
    ensures Kraft(FixedLit(), 288) == Pow2(MAX_LENGTH) && Kraft(FixedDist(), 32) == Pow2(MAX_LENGTH)
  {
    FixedLitKraft(288);
    FixedDistKraft(32);
    Pow2Values();
  }

  // ----- Stored blocks -----

  function EncodeBytes(bytes: seq<byte>): (r: seq<nat>)
    ensures |r| == 8 * |bytes|
  {
    if bytes == [] then [] else LsbBits(bytes[0], 8) + EncodeBytes(bytes[1..])
  }

  function StoredHeader(len: nat): seq<byte>
    requires len < 0x1_0000
  {
    [len % 256, len / 256, 255 - len % 256, 255 - len / 256]
  }

  function BytesFrom(data: seq<byte>, f: nat, n: nat): (r: seq<byte>)
    ensures |r| == n
  {
    seq<byte>(n, k requires 0 <= k < n => ByteAt(data, f + k))
  }

  /** The stored bytes whose header starts at byte f. */
  function StoredAt(data: seq<byte>, f: nat, out: seq<byte>): Outcome {
    var len := ByteAt(data, f) + 256 * ByteAt(data, f + 1);
    var nlen := ByteAt(data, f + 2) + 256 * ByteAt(data, f + 3);
    if nlen != 0xFFFF - len || f + 4 + len > |data| then Bad
    else Output(out + data[f + 4..f + 4 + len], 8 * (f + 4 + len))
  }

  lemma SpellsNothing(data: seq<byte>, p: nat)
    ensures Spells(data, p, [])
  {
  }

  lemma {:induction false} BytesDecode(data: seq<byte>, f: nat, bytes: seq<byte>)
    ensures Spells(data, 8 * f, EncodeBytes(bytes)) <==> BytesFrom(data, f, |bytes|) == bytes
    decreases |bytes|
  {
    hide Spells, LsbBits, Lsb, ByteAt, Pow2;
    if bytes != [] {
      Pow2Values();
      BytesDecode(data, f + 1, bytes[1..]);
      SpellsConcat(data, 8 * f, LsbBits(bytes[0], 8), EncodeBytes(bytes[1..]));
      SpellsLsb(data, 8 * f, bytes[0], 8);
      LsbByte(data, f);
      var r := BytesFrom(data, f, |bytes|);
      assert r == [ByteAt(data, f)] + BytesFrom(data, f + 1, |bytes| - 1);
      assert bytes == [bytes[0]] + bytes[1..];
      assert r[1..] == BytesFrom(data, f + 1, |bytes| - 1);
    } else {
      SpellsNothing(data, 8 * f);
    }
  }

  lemma BytesAreSlice(data: seq<byte>, f: nat, n: nat)
    requires f + n <= |data|
    ensures BytesFrom(data, f, n) == data[f..f + n]
  {
    var r, s := BytesFrom(data, f, n), data[f..f + n];
    forall k | 0 <= k < n ensures r[k] == s[k] {
      assert s[k] == data[f + k] && r[k] == ByteAt(data, f + k);
    }
  }

  lemma StoredHeaderReads(data: seq<byte>, f: nat, len: nat)
    requires len < 0x1_0000
    ensures BytesFrom(data, f, 4) == StoredHeader(len) <==>
      && len == ByteAt(data, f) + 256 * ByteAt(data, f + 1)
      && 0xFFFF - len == ByteAt(data, f + 2) + 256 * ByteAt(data, f + 3)
  {
    var r, h := BytesFrom(data, f, 4), StoredHeader(len);
    assert r == [ByteAt(data, f), ByteAt(data, f + 1), ByteAt(data, f + 2), ByteAt(data, f + 3)];
    assert r == h <==> r[0] == h[0] && r[1] == h[1] && r[2] == h[2] && r[3] == h[3];
    assert len == len % 256 + 256 * (len / 256);
  }

  lemma StoredSpelled(data: seq<byte>, f: nat, bytes: seq<byte>)
    requires |bytes| < 0x1_0000 && f + 4 + |bytes| <= |data|
    ensures Spells(data, 8 * f, EncodeBytes(StoredHeader(|bytes|)) + EncodeBytes(bytes)) <==>
      BytesFrom(data, f, 4) == StoredHeader(|bytes|) && data[f + 4..f + 4 + |bytes|] == bytes
  {
    hide Spells, EncodeBytes;
    SpellsConcat(data, 8 * f, EncodeBytes(StoredHeader(|bytes|)), EncodeBytes(bytes));
    BytesDecode(data, f, StoredHeader(|bytes|));
    BytesDecode(data, f + 4, bytes);
    BytesAreSlice(data, f + 4, |bytes|);
    assert 8 * f + 32 == 8 * (f + 4);
  }

  lemma StoredOutput(data: seq<byte>, f: nat, bytes: seq<byte>, out: seq<byte>)
    requires |bytes| < 0x1_0000 && f + 4 + |bytes| <= |data|
    requires BytesFrom(data, f, 4) == StoredHeader(|bytes|) && data[f + 4..f + 4 + |bytes|] == bytes
    ensures StoredAt(data, f, out) == Output(out + bytes, 8 * (f + 4 + |bytes|))
  {
    StoredHeaderReads(data, f, |bytes|);
  }

  lemma StoredDecodes(data: seq<byte>, f: nat, bytes: seq<byte>, out: seq<byte>)
    requires |bytes| < 0x1_0000 && f + 4 + |bytes| <= |data|
    requires Spells(data, 8 * f, EncodeBytes(StoredHeader(|bytes|)) + EncodeBytes(bytes))
    ensures StoredAt(data, f, out) == Output(out + bytes, 8 * (f + 4 + |bytes|))
  {
    StoredSpelled(data, f, bytes);
    StoredOutput(data, f, bytes, out);
  }

  lemma StoredIsEncoding(data: seq<byte>, f: nat, out: seq<byte>) returns (bytes: seq<byte>)
    requires StoredAt(data, f, out).Output?
    ensures |bytes| < 0x1_0000 && f + 4 + |bytes| <= |data|
    ensures Spells(data, 8 * f, EncodeBytes(StoredHeader(|bytes|)) + EncodeBytes(bytes))
    ensures StoredAt(data, f, out) == Output(out + bytes, 8 * (f + 4 + |bytes|))
  {
    var len := ByteAt(data, f) + 256 * ByteAt(data, f + 1);
    bytes := data[f + 4..f + 4 + len];
    StoredSpelled(data, f, bytes);
    StoredHeaderReads(data, f, len);
  }

  // ----- Blocks -----

  datatype Block =
    | Stored(pad: seq<nat>, bytes: seq<byte>)
    | Fixed(toks: seq<Token>)
    | Dynamic(header: Header, toks: seq<Token>)

  function FixedLitCodes(): Codes {
    CodesOf(FixedLit())
  }

  function FixedDistCodes(): Codes {
    CodesOf(FixedDist())
  }

  /** The block can be written when p is the place after its three header bits. */
  predicate IsBlock(b: Block, p: nat) {
    match b
    case Stored(pad, bytes) => p + |pad| == 8 * ((p + 7) / 8) && |bytes| < 0x1_0000
    case Fixed(toks) => AreTokens(FixedLitCodes(), FixedDistCodes(), toks) && FixedLitCodes()(END_OF_BLOCK).Some?
    case Dynamic(h, toks) =>
      h.Valid() && AreTokens(CodesOf(h.Lit()), CodesOf(h.Dist()), toks) && CodesOf(h.Lit())(END_OF_BLOCK).Some?
  }

  function Kind(b: Block): nat {
    match b
    case Stored(_, _) => 0
    case Fixed(_) => 1
    case Dynamic(_, _) => 2
  }

  function EncodeBody(b: Block, p: nat): seq<nat>
    requires IsBlock(b, p)
  {
    match b
    case Stored(pad, bytes) => pad + (EncodeBytes(StoredHeader(|bytes|)) + EncodeBytes(bytes))
    case Fixed(toks) => EncodeTokens(FixedLitCodes(), FixedDistCodes(), toks)
    case Dynamic(h, toks) => h.Encode() + EncodeTokens(CodesOf(h.Lit()), CodesOf(h.Dist()), toks)
  }

  /** The output after one more block. */
  function EmitBlock(out: seq<byte>, b: Block): Option<seq<byte>> {
    match b
    case Stored(_, bytes) => Some(out + bytes)
    case Fixed(toks) => EmitAll(out, toks)
    case Dynamic(_, toks) => EmitAll(out, toks)
  }

  /** Decode the block of this kind whose body is at p. */
  function BlockAt(data: seq<byte>, p: nat, kind: nat, out: seq<byte>, fuel: nat): Outcome {
    if kind == 0 then StoredAt(data, (p + 7) / 8, out)
    else if kind == 1 then Body(ReaderOf(FixedLit(), data), ReaderOf(FixedDist(), data), data, p, out, fuel)
    else if kind == 2 then DynamicAt(data, p, out, fuel)
    else Bad
  }

  function DynamicAt(data: seq<byte>, p: nat, out: seq<byte>, fuel: nat): Outcome {
    match HeaderAt(data, p)
    case NoTables => Bad
    case Tables(l, d, end) => Body(ReaderOf(l, data), ReaderOf(d, data), data, end, out, fuel)
  }

  lemma DynamicAtBody(data: seq<byte>, p: nat, l: seq<nat>, d: seq<nat>, end: nat, out: seq<byte>, fuel: nat)
    requires HeaderAt(data, p) == Tables(l, d, end)
    ensures DynamicAt(data, p, out, fuel) == Body(ReaderOf(l, data), ReaderOf(d, data), data, end, out, fuel)
  {
  }

  lemma {:induction false} CodeBody(l: seq<nat>, d: seq<nat>, data: seq<byte>, p: nat, out: seq<byte>,
                                    toks: seq<Token>, fuel: nat)
    requires IsCode(l) && IsCode(d) && AreTokens(CodesOf(l), CodesOf(d), toks) && CodesOf(l)(END_OF_BLOCK).Some?
    requires Spells(data, p, EncodeTokens(CodesOf(l), CodesOf(d), toks)) && fuel > |toks|
    ensures Body(ReaderOf(l, data), ReaderOf(d, data), data, p, out, fuel) ==
      match EmitAll(out, toks)
      case None => Bad
      case Some(o) => Output(o, p + |EncodeTokens(CodesOf(l), CodesOf(d), toks)|)
  {
    CodeReadsBack(l, data);
    CodeReadsBack(d, data);
    BodyDecodes(CodesOf(l), CodesOf(d), ReaderOf(l, data), ReaderOf(d, data), data, p, out, toks, fuel);
  }

  lemma CodeBodyIsEncoding(l: seq<nat>, d: seq<nat>, data: seq<byte>, p: nat, out: seq<byte>, fuel: nat)
      returns (toks: seq<Token>)
    requires IsCode(l) && IsCode(d) && Body(ReaderOf(l, data), ReaderOf(d, data), data, p, out, fuel).Output?
    ensures AreTokens(CodesOf(l), CodesOf(d), toks) && CodesOf(l)(END_OF_BLOCK).Some?
    ensures Spells(data, p, EncodeTokens(CodesOf(l), CodesOf(d), toks))
    ensures EmitAll(out, toks).Some?
    ensures Body(ReaderOf(l, data), ReaderOf(d, data), data, p, out, fuel)
            == Output(EmitAll(out, toks).value, p + |EncodeTokens(CodesOf(l), CodesOf(d), toks)|)
  {
    CodeReadsBack(l, data);
    CodeReadsBack(d, data);
    toks := BodyIsEncoding(CodesOf(l), CodesOf(d), ReaderOf(l, data), ReaderOf(d, data), data, p, out, fuel);
  }

  lemma StoredBlock(data: seq<byte>, p: nat, pad: seq<nat>, bytes: seq<byte>, out: seq<byte>)
    requires IsBlock(Stored(pad, bytes), p) && Spells(data, p, EncodeBody(Stored(pad, bytes), p))
    requires p + |EncodeBody(Stored(pad, bytes), p)| <= 8 * |data|
    ensures StoredAt(data, (p + 7) / 8, out) == Output(out + bytes, p + |EncodeBody(Stored(pad, bytes), p)|)
  {
    SpellsConcat(data, p, pad, EncodeBytes(StoredHeader(|bytes|)) + EncodeBytes(bytes));
    StoredDecodes(data, (p + 7) / 8, bytes, out);
  }

  lemma HeadThenBody(l: seq<nat>, d: seq<nat>, head: seq<nat>, data: seq<byte>, p: nat, out: seq<byte>,
                     toks: seq<Token>, fuel: nat)
    requires IsCode(l) && IsCode(d) && AreTokens(CodesOf(l), CodesOf(d), toks) && CodesOf(l)(END_OF_BLOCK).Some?
    requires Spells(data, p, head + EncodeTokens(CodesOf(l), CodesOf(d), toks)) && fuel > |toks|
    ensures Spells(data, p, head)
    ensures Body(ReaderOf(l, data), ReaderOf(d, data), data, p + |head|, out, fuel) ==
      match EmitAll(out, toks)
      case None => Bad
      case Some(o) => Output(o, p + |head + EncodeTokens(CodesOf(l), CodesOf(d), toks)|)
  {
    SpellsConcat(data, p, head, EncodeTokens(CodesOf(l), CodesOf(d), toks));
    CodeBody(l, d, data, p + |head|, out, toks, fuel);
  }

  lemma DynamicBlock(data: seq<byte>, p: nat, h: Header, toks: seq<Token>, out: seq<byte>, fuel: nat)
    requires IsBlock(Dynamic(h, toks), p) && Spells(data, p, EncodeBody(Dynamic(h, toks), p)) && fuel > |toks|
    ensures DynamicAt(data, p, out, fuel) ==
      match EmitAll(out, toks)
      case None => Bad
      case Some(o) => Output(o, p + |EncodeBody(Dynamic(h, toks), p)|)
  {
    hide HeaderAt, Body, EncodeTokens, CodesOf, Spells, EmitAll, ExtendAll, IsCode;
    var l, d, head := h.Lit(), h.Dist(), h.Encode();
    HeadThenBody(l, d, head, data, p, out, toks, fuel);
    HeaderDecodes(h, data, p);
    DynamicAtBody(data, p, l, d, p + |head|, out, fuel);
  }

  /** Decoding inverts encoding for one block that lies within the data. */
  lemma BlockDecodes(data: seq<byte>, p: nat, b: Block, out: seq<byte>, fuel: nat)
    requires IsBlock(b, p) && Spells(data, p, EncodeBody(b, p))
    requires p + |EncodeBody(b, p)| <= 8 * |data|
    requires !b.Stored? ==> fuel > |b.toks|
    ensures BlockAt(data, p, Kind(b), out, fuel) ==
      match EmitBlock(out, b)
      case None => Bad
      case Some(o) => Output(o, p + |EncodeBody(b, p)|)
  {
    hide StoredAt, DynamicAt, Body, EncodeTokens, CodesOf, Spells, EmitAll, FixedLit, FixedDist, IsCode, Kraft, Pow2;
    match b
    case Stored(pad, bytes) => StoredBlock(data, p, pad, bytes, out);
    case Fixed(toks) =>
      assert IsCode(FixedLit()) && IsCode(FixedDist()) by {
        FixedAreCodes();
      }
      CodeBody(FixedLit(), FixedDist(), data, p, out, toks, fuel);
    case Dynamic(h, toks) => DynamicBlock(data, p, h, toks, out, fuel);
  }

  lemma StoredBlockIsEncoding(data: seq<byte>, p: nat, out: seq<byte>) returns (b: Block)
    requires StoredAt(data, (p + 7) / 8, out).Output?
    ensures b.Stored? && IsBlock(b, p) && Spells(data, p, EncodeBody(b, p))
    ensures StoredAt(data, (p + 7) / 8, out) == Output(out + b.bytes, p + |EncodeBody(b, p)|)
  {
    hide StoredAt, EncodeBytes, ByteAt;
    var f := (p + 7) / 8;
    var bytes := StoredIsEncoding(data, f, out);
    var pad := BitsFrom(data, p, 8 * f - p);
    b := Stored(pad, bytes);
    SpellsConcat(data, p, pad, EncodeBytes(StoredHeader(|bytes|)) + EncodeBytes(bytes));
  }

  lemma HeadThenBodyIsEncoding(l: seq<nat>, d: seq<nat>, head: seq<nat>, data: seq<byte>, p: nat, out: seq<byte>,
                               fuel: nat) returns (toks: seq<Token>)
    requires IsCode(l) && IsCode(d) && Spells(data, p, head)
    requires Body(ReaderOf(l, data), ReaderOf(d, data), data, p + |head|, out, fuel).Output?
    ensures AreTokens(CodesOf(l), CodesOf(d), toks) && CodesOf(l)(END_OF_BLOCK).Some?
    ensures Spells(data, p, head + EncodeTokens(CodesOf(l), CodesOf(d), toks))
    ensures EmitAll(out, toks).Some?
    ensures Body(ReaderOf(l, data), ReaderOf(d, data), data, p + |head|, out, fuel)
            == Output(EmitAll(out, toks).value, p + |head + EncodeTokens(CodesOf(l), CodesOf(d), toks)|)
  {
    toks := CodeBodyIsEncoding(l, d, data, p + |head|, out, fuel);
    SpellsConcat(data, p, head, EncodeTokens(CodesOf(l), CodesOf(d), toks));
  }

  lemma DynamicBlockIsEncoding(data: seq<byte>, p: nat, out: seq<byte>, fuel: nat) returns (b: Block)
    requires DynamicAt(data, p, out, fuel).Output?
    ensures b.Dynamic? && IsBlock(b, p) && Spells(data, p, EncodeBody(b, p))
    ensures EmitAll(out, b.toks).Some?
    ensures DynamicAt(data, p, out, fuel) == Output(EmitAll(out, b.toks).value, p + |EncodeBody(b, p)|)
  {
    hide HeaderAt, Body, EncodeTokens, CodesOf, Spells, EmitAll, ExtendAll, IsCode;
    var h := HeaderIsEncoding(data, p);
    var toks := HeadThenBodyIsEncoding(h.Lit(), h.Dist(), h.Encode(), data, p, out, fuel);
    b := Dynamic(h, toks);
  }

  lemma FixedBlockIsEncoding(data: seq<byte>, p: nat, out: seq<byte>, fuel: nat) returns (toks: seq<Token>)
    requires Body(ReaderOf(FixedLit(), data), ReaderOf(FixedDist(), data), data, p, out, fuel).Output?
    ensures IsBlock(Fixed(toks), p) && Spells(data, p, EncodeBody(Fixed(toks), p))
    ensures EmitAll(out, toks).Some?
    ensures Body(ReaderOf(FixedLit(), data), ReaderOf(FixedDist(), data), data, p, out, fuel)
            == Output(EmitAll(out, toks).value, p + |EncodeBody(Fixed(toks), p)|)
  {
    hide Body, EncodeTokens, CodesOf, ReaderOf, Spells, EmitAll, IsCode, FixedLit, FixedDist, AreTokens, Kraft, Pow2;
    assert IsCode(FixedLit()) && IsCode(FixedDist()) by {
      FixedAreCodes();
    }
    toks := CodeBodyIsEncoding(FixedLit(), FixedDist(), data, p, out, fuel);
  }

  lemma BlockIsEncoding(data: seq<byte>, p: nat, kind: nat, out: seq<byte>, fuel: nat) returns (b: Block)
    requires BlockAt(data, p, kind, out, fuel).Output?
    ensures kind == Kind(b) && IsBlock(b, p) && Spells(data, p, EncodeBody(b, p))
    ensures EmitBlock(out, b).Some?
    ensures BlockAt(data, p, kind, out, fuel) == Output(EmitBlock(out, b).value, p + |EncodeBody(b, p)|)
  {
    hide StoredAt, DynamicAt, Body, EncodeTokens, CodesOf, ReaderOf, Spells, EmitAll, FixedLit, FixedDist;
    if kind == 0 {
      b := StoredBlockIsEncoding(data, p, out);
    } else if kind == 1 {
      var toks := FixedBlockIsEncoding(data, p, out, fuel);
      b := Fixed(toks);
    } else {
      b := DynamicBlockIsEncoding(data, p, out, fuel);
    }
  }

  // ----- Sequences of blocks -----

  /** One block with its header bits: whether it is the last, and its kind. */
  function EncodeBlock(b: Block, p: nat, last: bool): (r: seq<nat>)
    requires IsBlock(b, p + 3)
    ensures |r| == 3 + |EncodeBody(b, p + 3)|
  {
    [if last then 1 else 0] + (LsbBits(Kind(b), 2) + EncodeBody(b, p + 3))
  }

  /** The blocks can be written one after the other from p on. */
  predicate AreBlocks(blocks: seq<Block>, p: nat)
    decreases |blocks|
  {
    && blocks != [] && IsBlock(blocks[0], p + 3)
    && (|blocks| > 1 ==> AreBlocks(blocks[1..], p + 3 + |EncodeBody(blocks[0], p + 3)|))
  }

  function EncodeBlocks(blocks: seq<Block>, p: nat): seq<nat>
    requires AreBlocks(blocks, p)
    decreases |blocks|
  {
    hide IsBlock, EncodeBody, EncodeBlock;
    if |blocks| == 1 then EncodeBlock(blocks[0], p, true)
    else EncodeBlock(blocks[0], p, false) + EncodeBlocks(blocks[1..], p + 3 + |EncodeBody(blocks[0], p + 3)|)
  }

  function EmitBlocks(out: seq<byte>, blocks: seq<Block>): Option<seq<byte>>
    decreases |blocks|
  {
    if blocks == [] then Some(out)
    else
      match EmitBlock(out, blocks[0])
      case None => None
      case Some(next) => EmitBlocks(next, blocks[1..])
  }

  /** The blocks have fewer than fuel tokens each. */
  predicate Fits(blocks: seq<Block>, fuel: nat) {
    forall b :: b in blocks && !b.Stored? ==> |b.toks| < fuel
  }

  /** Decode blocks from p on up to the one marked as the last, each of fewer than fuel
      tokens. Past the end of the data there are only zeros, which are no block. */
  function StreamAt(data: seq<byte>, p: nat, out: seq<byte>, fuel: nat): Outcome
    decreases 8 * |data| - p
  {
    if p >= 8 * |data| then Bad
    else
      var block := BlockAt(data, p + 3, Lsb(data, p + 1, 2), out, fuel);
      match block
      case Output(next, end) =>
        BlockAdvances(data, p + 3, Lsb(data, p + 1, 2), out, fuel);
        if Bit(data, p) == 1 then block else StreamAt(data, end, next, fuel)
      case _ => block
  }

  lemma BlockAdvances(data: seq<byte>, p: nat, kind: nat, out: seq<byte>, fuel: nat)
    requires BlockAt(data, p, kind, out, fuel).Output?
    ensures BlockAt(data, p, kind, out, fuel).end >= p
  {
    var b := BlockIsEncoding(data, p, kind, out, fuel);
  }

  lemma BlockSpelled(data: seq<byte>, p: nat, b: Block, last: bool)
    requires IsBlock(b, p + 3)
    ensures Spells(data, p, EncodeBlock(b, p, last)) <==>
      && Bit(data, p) == (if last then 1 else 0) && Lsb(data, p + 1, 2) == Kind(b)
      && Spells(data, p + 3, EncodeBody(b, p + 3))
  {
    hide IsBlock, EncodeBody, Spells, Bit, Lsb;
    var flag := if last then 1 else 0;
    SpellsConcat(data, p, [flag], LsbBits(Kind(b), 2) + EncodeBody(b, p + 3));
    SpellsOne(data, p, flag);
    SpellsConcat(data, p + 1, LsbBits(Kind(b), 2), EncodeBody(b, p + 3));
    Pow2Values();
    SpellsLsb(data, p + 1, Kind(b), 2);
  }

  lemma StreamStep(data: seq<byte>, p: nat, out: seq<byte>, fuel: nat, b: Block, last: bool)
    requires IsBlock(b, p + 3) && Spells(data, p, EncodeBlock(b, p, last)) && (!b.Stored? ==> |b.toks| < fuel)
    requires p + |EncodeBlock(b, p, last)| <= 8 * |data|
    ensures StreamAt(data, p, out, fuel) ==
      match EmitBlock(out, b)
      case None => Bad
      case Some(next) =>
        var end := p + |EncodeBlock(b, p, last)|;
        if last then Output(next, end) else StreamAt(data, end, next, fuel)
  {
    hide BlockAt, IsBlock, EncodeBody, EmitBlock;
    BlockSpelled(data, p, b, last);
    BlockDecodes(data, p + 3, b, out, fuel);
  }

  /** Decoding inverts encoding: a stream of blocks within the data decodes to what the
      blocks mean. */
  lemma {:induction false} StreamDecodes(data: seq<byte>, p: nat, blocks: seq<Block>, out: seq<byte>, fuel: nat)
    requires AreBlocks(blocks, p) && Fits(blocks, fuel)
    requires Spells(data, p, EncodeBlocks(blocks, p)) && p + |EncodeBlocks(blocks, p)| <= 8 * |data|
    ensures StreamAt(data, p, out, fuel) ==
      match EmitBlocks(out, blocks)
      case None => Bad
      case Some(o) => Output(o, p + |EncodeBlocks(blocks, p)|)
    decreases |blocks|
  {
    hide BlockAt, IsBlock, EncodeBody, EmitBlock, EncodeBlock, StreamAt;
    var b, last := blocks[0], |blocks| == 1;
    var first := EncodeBlock(b, p, last);
    if !last {
      SpellsConcat(data, p, first, EncodeBlocks(blocks[1..], p + |first|));
    }
    StreamStep(data, p, out, fuel, b, last);
    if !last && EmitBlock(out, b).Some? {
      StreamDecodes(data, p + |first|, blocks[1..], EmitBlock(out, b).value, fuel);
    }
  }

  /** And the other way: whatever decodes is the encoding of some blocks. */
  lemma {:induction false} StreamIsEncoding(data: seq<byte>, p: nat, out: seq<byte>, fuel: nat)
      returns (blocks: seq<Block>)
    requires StreamAt(data, p, out, fuel).Output?
    ensures AreBlocks(blocks, p) && Spells(data, p, EncodeBlocks(blocks, p))
    ensures EmitBlocks(out, blocks) == Some(StreamAt(data, p, out, fuel).out)
    ensures StreamAt(data, p, out, fuel).end == p + |EncodeBlocks(blocks, p)|
    decreases 8 * |data| - p
  {
    hide BlockAt, IsBlock, EncodeBody, EmitBlock;
    var b := BlockIsEncoding(data, p + 3, Lsb(data, p + 1, 2), out, fuel);
    var last := Bit(data, p) == 1;
    BlockSpelled(data, p, b, last);
    blocks := [b];
    if !last {
      var next := EmitBlock(out, b).value;
      var end := p + |EncodeBlock(b, p, last)|;
      var rest := StreamIsEncoding(data, end, next, fuel);
      blocks := [b] + rest;
      assert blocks[1..] == rest;
      SpellsConcat(data, p, EncodeBlock(b, p, last), EncodeBlocks(rest, end));
    }
  }

  // ----- A bound on the number of tokens -----

  lemma {:induction false} TokensShort(l: seq<nat>, d: seq<nat>, toks: seq<Token>)
    requires AreTokens(CodesOf(l), CodesOf(d), toks) && CodesOf(l)(END_OF_BLOCK).Some?
    ensures |toks| < |EncodeTokens(CodesOf(l), CodesOf(d), toks)|
    decreases |toks|
  {
    if toks != [] {
      assert |EncodeToken(CodesOf(l), CodesOf(d), toks[0])| >= 1;
      TokensShort(l, d, toks[1..]);
    }
  }

  lemma BlockShort(b: Block, p: nat)
    requires IsBlock(b, p) && !b.Stored?
    ensures |b.toks| < |EncodeBody(b, p)|
  {
    match b
    case Fixed(toks) => TokensShort(FixedLit(), FixedDist(), toks);
    case Dynamic(h, toks) => TokensShort(h.Lit(), h.Dist(), toks);
  }

  /** Every token takes at least one bit, so the length of the stream bounds their number. */
  lemma {:induction false} BlocksFit(blocks: seq<Block>, p: nat, fuel: nat)
    requires AreBlocks(blocks, p) && |EncodeBlocks(blocks, p)| <= fuel
    ensures Fits(blocks, fuel)
    decreases |blocks|
  {
    hide IsBlock, EncodeBody;
    var b := blocks[0];
    if !b.Stored? {
      BlockShort(b, p + 3);
    }
    if |blocks| > 1 {
      BlocksFit(blocks[1..], p + 3 + |EncodeBody(b, p + 3)|, fuel);
      assert forall c :: c in blocks ==> c == b || c in blocks[1..];
    } else {
      assert forall c :: c in blocks ==> c == b;
    }
  }

  /** A stream of one stored block, byte by byte. */
  lemma StoredFormat(bytes: seq<byte>, out: seq<byte>, fuel: nat)
    requires |bytes| < 0x1_0000
    ensures var n := |bytes|;
      var data: seq<byte> := [1, n % 256, n / 256, 255 - n % 256, 255 - n / 256] + bytes;
      StreamAt(data, 0, out, fuel) == Output(out + bytes, 8 * (n + 5))
  {
    var n := |bytes|;
    var data: seq<byte> := [1, n % 256, n / 256, 255 - n % 256, 255 - n / 256] + bytes;
    assert data[0] == 1 && data[5..] == bytes;
    assert Shr(1, 0) == 1 && Shr(1, 1) == 0 && Shr(1, 2) == Shr(0, 1) == 0;
    assert Bit(data, 0) == 1 && Bit(data, 1) == 0 && Bit(data, 2) == 0;
    assert Lsb(data, 3, 0) == 0 && Lsb(data, 2, 1) == 0 && Lsb(data, 1, 2) == 0;
    assert StoredAt(data, 1, out) == Output(out + bytes, 8 * (n + 5));
  }

  // ----- The fixed code words -----

  lemma {:induction false} FixedCount(s: nat, n: nat)
    requires n <= 288
    ensures Count(FixedLit(), s, n) ==
      if s == 8 then (if n <= 144 then n else if n <= 280 then 144 else n - 136)
      else if s == 9 then (if n <= 144 then 0 else if n <= 256 then n - 144 else 112)
      else if s == 7 then (if n <= 256 then 0 else if n <= 280 then n - 256 else 24)
      else 0
  {
    if n > 0 {
      FixedCount(s, n - 1);
    }
  }

  lemma {:induction false} FixedFirsts(s: nat)
    requires 1 <= s <= 9
    ensures First(FixedLit(), s) == if s < 8 then 0 else if s == 8 then 48 else 400
  {
    hide FixedLit, Count;
    if s > 1 {
      FixedFirsts(s - 1);
      FixedCount(s - 1, 288);
    }
  }

  /** The code words of section 3.2.6 of RFC 1951: 00110000 to 10111111 for 0 to 143, 110010000 to
      111111111 for 144 to 255, 0000000 to 0010111 for 256 to 279, 11000000 to 11000111 for the
      rest, and five bits for a distance. */
  lemma FixedWords(i: nat)
    requires i < 288
    ensures i < 144 ==> FixedLit()[i] == 8 && Code(FixedLit(), i) == 48 + i
    ensures 144 <= i < 256 ==> FixedLit()[i] == 9 && Code(FixedLit(), i) == 400 + (i - 144)
    ensures 256 <= i < 280 ==> FixedLit()[i] == 7 && Code(FixedLit(), i) == i - 256
    ensures 280 <= i ==> FixedLit()[i] == 8 && Code(FixedLit(), i) == 192 + (i - 280)
    ensures i < 32 ==> FixedDist()[i] == 5 && Code(FixedDist(), i) == i
  {
    hide First, Count;
    FixedFirsts(7);
    FixedFirsts(8);
    FixedFirsts(9);
    FixedCount(7, i);
    FixedCount(8, i);
    FixedCount(9, i);
    if i < 32 {
      FixedDistances(5);
      FixedDistCount(5, i);
    }
  }

  lemma {:induction false} FixedDistCount(s: nat, n: nat)
    requires n <= 32
    ensures Count(FixedDist(), s, n) == if s == 5 then n else 0
  {
    if n > 0 {
      FixedDistCount(s, n - 1);
    }
  }

  lemma {:induction false} FixedDistances(s: nat)
    requires 1 <= s <= 5
    ensures First(FixedDist(), s) == 0
  {
    hide FixedDist, Count;
    if s > 1 {
      FixedDistances(s - 1);
      FixedDistCount(s - 1, 32);
    }
  }
}
