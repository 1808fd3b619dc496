/** The DEFLATE format of RFC 1951 twice over: as an encoder from blocks of tokens to bits,
    and as a decoder that reads numbers and symbols at bit positions. The two are proved to
    be inverse to each other. */
module Deflate {
  import opened Bits
  import opened CanonicalCode
  import opened Options

  const END_OF_BLOCK: nat := 256
  const LIT_SYMS: nat := 288
  const DIST_SYMS: nat := 32

  /** Extra bits and least length of length symbol 257 + z (section 3.2.5 of RFC 1951). The
      two symbols past the defined ones have none and zero. */
  function LengthExtra(z: nat): nat {
    if 8 <= z < 28 then (z - 4) / 4 else 0
  }

  function LengthBase(z: nat): nat {
    if z < 8 then 3 + z
    else if z < 28 then 3 + Shl(4 + z % 4, (z - 4) / 4)
    else if z == 28 then 258
    else 0
  }

  /** Extra bits and least distance of distance symbol z, likewise. */
  function DistExtra(z: nat): nat {
    if 4 <= z < 30 then (z - 2) / 2 else 0
  }

  function DistBase(z: nat): nat {
    if z < 4 then 1 + z
    else if z < 30 then 1 + Shl(2 + z % 2, (z - 2) / 2)
    else 0
  }

  /** A literal byte, or a copy given by the symbols and extra bits that encode it. */
  datatype Token =
    | Literal(sym: nat)
    | Copy(lsym: nat, lextra: nat, dsym: nat, dextra: nat)

  /** How many bytes a token adds, and how far back it copies them from. */
  function Length(tok: Token): nat {
    match tok
    case Literal(_) => 1
    case Copy(lsym, lextra, _, _) => if lsym >= 257 then LengthBase(lsym - 257) + lextra else 0
  }

  function Distance(tok: Token): nat {
    match tok
    case Literal(_) => 0
    case Copy(_, _, dsym, dextra) => DistBase(dsym) + dextra
  }

  /** The format has no symbols above 285 and 29. To the decoder, a length symbol above 285 is a
      copy of no bytes, and a distance symbol above 29 a copy from distance zero, of whatever is
      in the memory there. Such a copy has no meaning if it has any bytes. */
  predicate Standard(tok: Token) {
    tok.Copy? ==> 257 <= tok.lsym <= 285 && tok.dsym <= 29
  }

  predicate Arbitrary(tok: Token) {
    tok.Copy? && tok.lsym <= 285 && tok.dsym > 29
  }

  /** The token can be written with these two codes, and has a meaning. */
  predicate IsToken(lit: Codes, dist: Codes, tok: Token) {
    match tok
    case Literal(sym) => sym < 256 && lit(sym).Some?
    case Copy(lsym, lextra, dsym, dextra) =>
      && lsym >= 257 && lit(lsym).Some? && lextra < Pow2(LengthExtra(lsym - 257))
      && dist(dsym).Some? && dextra < Pow2(DistExtra(dsym)) && !Arbitrary(tok)
  }

  predicate AreTokens(lit: Codes, dist: Codes, toks: seq<Token>) {
    toks == [] || (IsToken(lit, dist, toks[0]) && AreTokens(lit, dist, toks[1..]))
  }

  // ----- What tokens mean -----

  /** Append len bytes, each equal to the one dist places back. */
  function CopyBack(out: seq<byte>, len: nat, dist: nat): (r: seq<byte>)
    requires 1 <= dist <= |out|
    ensures |r| == |out| + len
  {
    if len == 0 then out
    else
      var r := CopyBack(out, len - 1, dist);
      r + [r[|r| - dist]]
  }

  /** Every copied byte equals the one dist places before it, also where the copy overlaps
      what it reads. */
  lemma {:induction false} CopyBackRepeats(out: seq<byte>, len: nat, dist: nat)
    requires 1 <= dist <= |out|
    ensures CopyBack(out, len, dist)[..|out|] == out
    ensures forall i :: |out| <= i < |out| + len ==>
      CopyBack(out, len, dist)[i] == CopyBack(out, len, dist)[i - dist]
  {
    if len > 0 {
      CopyBackRepeats(out, len - 1, dist);
    }
  }

  /** The output after one more token, unless it copies from before the start. */
  function Emit(out: seq<byte>, tok: Token): Option<seq<byte>> {
    match tok
    case Literal(sym) => if sym < 256 then Some(out + [sym]) else None
    case Copy(_, _, _, _) =>
      var n, dist := Length(tok), Distance(tok);
      if dist > |out| then None else if n == 0 then Some(out)
      else if dist >= 1 then Some(CopyBack(out, n, dist)) else None
  }

  function EmitAll(out: seq<byte>, toks: seq<Token>): Option<seq<byte>>
    decreases |toks|
  {
    if toks == [] then Some(out)
    else
      match Emit(out, toks[0])
      case None => None
      case Some(next) => EmitAll(next, toks[1..])
  }

  // ----- Encoding tokens as bits -----

  function EncodeToken(lit: Codes, dist: Codes, tok: Token): seq<nat>
    requires IsToken(lit, dist, tok)
  {
    match tok
    case Literal(sym) => lit(sym).value
    case Copy(lsym, lextra, dsym, dextra) =>
      (lit(lsym).value + LsbBits(lextra, LengthExtra(lsym - 257)))
      + (dist(dsym).value + LsbBits(dextra, DistExtra(dsym)))
  }

  function EncodeTokens(lit: Codes, dist: Codes, toks: seq<Token>): seq<nat>
    requires AreTokens(lit, dist, toks) && lit(END_OF_BLOCK).Some?
    decreases |toks|
  {
    if toks == [] then lit(END_OF_BLOCK).value
    else EncodeToken(lit, dist, toks[0]) + EncodeTokens(lit, dist, toks[1..])
  }

  // ----- Decoding the body of a compressed block -----

  datatype Item = Tok(tok: Token, end: nat) | EndOfBlock(end: nat) | NoItem

  /** What there is at p: a token or the end of the block, with the place after it. */
  function ItemAt(lit: Reader, dist: Reader, data: seq<byte>, p: nat): Item {
    match lit(p)
    case None => NoItem
    case Some((z, p1)) =>
      if z < 256 then Tok(Literal(z), p1)
      else if z == END_OF_BLOCK then EndOfBlock(p1)
      else CopyAt(dist, data, z, p1)
  }

  /** The copy whose length symbol z ends at p. */
  function CopyAt(dist: Reader, data: seq<byte>, z: nat, p: nat): Item
    requires z >= 257
  {
    var le := LengthExtra(z - 257);
    match dist(p + le)
    case None => NoItem
    case Some((ds, p2)) => Tok(Copy(z, Lsb(data, p, le), ds, Lsb(data, p2, DistExtra(ds))), p2 + DistExtra(ds))
  }

  /** What decoding leads to: an output and the place where it ends, a mistake, or a token
      without a meaning. */
  datatype Outcome = Output(out: seq<byte>, end: nat) | Bad | Undefined

  /** Decode at most fuel items from p on. */
  function Body(lit: Reader, dist: Reader, data: seq<byte>, p: nat, out: seq<byte>, fuel: nat): Outcome
    decreases fuel
  {
    if fuel == 0 then Bad
    else
      match ItemAt(lit, dist, data, p)
      case NoItem => Bad
      case EndOfBlock(end) => Output(out, end)
      case Tok(tok, end) =>
        if Arbitrary(tok) then Undefined
        else
          match Emit(out, tok)
          case None => Bad
          case Some(next) => Body(lit, dist, data, end, next, fuel - 1)
  }

  lemma ExtraDecodes(codes: Codes, read: Reader, i: nat, extra: nat, n: nat, data: seq<byte>, p: nat)
    requires ReadsBack(codes, read, data) && codes(i).Some? && extra < Pow2(n)
    ensures Spells(data, p, codes(i).value + LsbBits(extra, n)) <==>
      read(p) == Some((i, p + |codes(i).value|)) && Lsb(data, p + |codes(i).value|, n) == extra
  {
    assert ReadsSymbol(codes, read, data, i, p);
    SpellsConcat(data, p, codes(i).value, LsbBits(extra, n));
    SpellsLsb(data, p + |codes(i).value|, extra, n);
  }

  /** The two halves of a copy token, one after the other. */
  lemma CopySpelled(lit: Codes, dist: Codes, readLit: Reader, readDist: Reader, data: seq<byte>, p: nat, tok: Token)
    requires ReadsBack(lit, readLit, data) && ReadsBack(dist, readDist, data)
    requires tok.Copy? && IsToken(lit, dist, tok)
    ensures var p1 := p + |lit(tok.lsym).value|;
      var p2 := p1 + LengthExtra(tok.lsym - 257);
      var p3 := p2 + |dist(tok.dsym).value|;
      Spells(data, p, EncodeToken(lit, dist, tok)) <==>
        && readLit(p) == Some((tok.lsym, p1)) && Lsb(data, p1, LengthExtra(tok.lsym - 257)) == tok.lextra
        && readDist(p2) == Some((tok.dsym, p3)) && Lsb(data, p3, DistExtra(tok.dsym)) == tok.dextra
  {
    var le, de := LengthExtra(tok.lsym - 257), DistExtra(tok.dsym);
    var first := lit(tok.lsym).value + LsbBits(tok.lextra, le);
    ExtraDecodes(lit, readLit, tok.lsym, tok.lextra, le, data, p);
    ExtraDecodes(dist, readDist, tok.dsym, tok.dextra, de, data, p + |first|);
    SpellsConcat(data, p, first, dist(tok.dsym).value + LsbBits(tok.dextra, de));
  }

  lemma CopyDecodes(lit: Codes, dist: Codes, readLit: Reader, readDist: Reader, data: seq<byte>, p: nat, tok: Token)
    requires ReadsBack(lit, readLit, data) && ReadsBack(dist, readDist, data) && tok.Copy? && IsToken(lit, dist, tok)
    ensures Spells(data, p, EncodeToken(lit, dist, tok)) <==>
      ItemAt(readLit, readDist, data, p) == Tok(tok, p + |EncodeToken(lit, dist, tok)|)
  {
    CopySpelled(lit, dist, readLit, readDist, data, p, tok);
    hide Spells, Lsb, LengthExtra, DistExtra, LsbBits;
    assert ReadsOnlySymbols(lit, readLit, p);
    assert ReadsOnlySymbols(dist, readDist, p + |lit(tok.lsym).value| + LengthExtra(tok.lsym - 257));
    hide ReadsBack, Pow2;
  }

  lemma TokenDecodes(lit: Codes, dist: Codes, readLit: Reader, readDist: Reader, data: seq<byte>, p: nat, tok: Token)
    requires ReadsBack(lit, readLit, data) && ReadsBack(dist, readDist, data) && IsToken(lit, dist, tok)
    ensures Spells(data, p, EncodeToken(lit, dist, tok)) <==>
      ItemAt(readLit, readDist, data, p) == Tok(tok, p + |EncodeToken(lit, dist, tok)|)
  {
    hide Spells, Lsb;
    if tok.Literal? {
      assert ReadsSymbol(lit, readLit, data, tok.sym, p);
    } else {
      CopyDecodes(lit, dist, readLit, readDist, data, p, tok);
    }
  }

  lemma ItemIsToken(lit: Codes, dist: Codes, readLit: Reader, readDist: Reader, data: seq<byte>, p: nat)
    requires ReadsBack(lit, readLit, data) && ReadsBack(dist, readDist, data)
    requires ItemAt(readLit, readDist, data, p).Tok? && !Arbitrary(ItemAt(readLit, readDist, data, p).tok)
    ensures var item := ItemAt(readLit, readDist, data, p);
      IsToken(lit, dist, item.tok) && item.end == p + |EncodeToken(lit, dist, item.tok)|
  {
    assert ReadsOnlySymbols(lit, readLit, p);
    var (z, p1) := readLit(p).value;
    if z >= 256 {
      assert ReadsOnlySymbols(dist, readDist, p1 + LengthExtra(z - 257));
    }
  }

  lemma FirstToken(lit: Codes, dist: Codes, readLit: Reader, readDist: Reader, data: seq<byte>,
                   p: nat, toks: seq<Token>)
    requires ReadsBack(lit, readLit, data) && ReadsBack(dist, readDist, data)
    requires AreTokens(lit, dist, toks) && lit(END_OF_BLOCK).Some? && toks != []
    requires Spells(data, p, EncodeTokens(lit, dist, toks))
    ensures var bits := EncodeToken(lit, dist, toks[0]);
      && ItemAt(readLit, readDist, data, p) == Tok(toks[0], p + |bits|)
      && Spells(data, p + |bits|, EncodeTokens(lit, dist, toks[1..]))
  {
    hide EncodeToken, Spells, ItemAt, IsToken, ReadsBack;
    var bits, rest := EncodeToken(lit, dist, toks[0]), EncodeTokens(lit, dist, toks[1..]);
    SpellsConcat(data, p, bits, rest);
    TokenDecodes(lit, dist, readLit, readDist, data, p, toks[0]);
  }

  /** Decoding inverts encoding: the bits of a list of tokens decode to what the tokens mean. */
  lemma {:induction false} BodyDecodes(lit: Codes, dist: Codes, readLit: Reader, readDist: Reader, data: seq<byte>,
                                       p: nat, out: seq<byte>, toks: seq<Token>, fuel: nat)
    requires ReadsBack(lit, readLit, data) && ReadsBack(dist, readDist, data)
    requires AreTokens(lit, dist, toks) && lit(END_OF_BLOCK).Some?
    requires Spells(data, p, EncodeTokens(lit, dist, toks)) && fuel > |toks|
    ensures Body(readLit, readDist, data, p, out, fuel) ==
      match EmitAll(out, toks)
      case None => Bad
      case Some(o) => Output(o, p + |EncodeTokens(lit, dist, toks)|)
    decreases |toks|
  {
    if toks == [] {
      assert ReadsSymbol(lit, readLit, data, END_OF_BLOCK, p);
    } else {
      FirstToken(lit, dist, readLit, readDist, data, p, toks);
      var end := ItemAt(readLit, readDist, data, p).end;
      match Emit(out, toks[0])
      case None =>
      case Some(next) => BodyDecodes(lit, dist, readLit, readDist, data, end, next, toks[1..], fuel - 1);
    }
  }

  /** And the other way: whatever decodes is the encoding of some tokens. */
  lemma {:induction false} BodyIsEncoding(lit: Codes, dist: Codes, readLit: Reader, readDist: Reader, data: seq<byte>,
                                          p: nat, out: seq<byte>, fuel: nat)
      returns (toks: seq<Token>)
    requires ReadsBack(lit, readLit, data) && ReadsBack(dist, readDist, data)
    requires Body(readLit, readDist, data, p, out, fuel).Output?
    ensures AreTokens(lit, dist, toks) && |toks| < fuel && lit(END_OF_BLOCK).Some?
    ensures Spells(data, p, EncodeTokens(lit, dist, toks))
    ensures Some(Body(readLit, readDist, data, p, out, fuel).out) == EmitAll(out, toks)
    ensures Body(readLit, readDist, data, p, out, fuel).end == p + |EncodeTokens(lit, dist, toks)|
    decreases fuel
  {
    match ItemAt(readLit, readDist, data, p)
    case EndOfBlock(end) =>
      toks := [];
      assert ReadsSymbol(lit, readLit, data, END_OF_BLOCK, p) && ReadsOnlySymbols(lit, readLit, p);
    case Tok(tok, end) =>
      var rest := BodyIsEncoding(lit, dist, readLit, readDist, data, end, Emit(out, tok).value, fuel - 1);
      toks := [tok] + rest;
      assert toks[1..] == rest;
      ItemIsToken(lit, dist, readLit, readDist, data, p);
      TokenDecodes(lit, dist, readLit, readDist, data, p, tok);
      SpellsConcat(data, p, EncodeToken(lit, dist, tok), EncodeTokens(lit, dist, rest));
  }

  // ----- Lengths and distances -----

  /** Extra bits: none for the first eight length symbols and the last, then one more for every
      four symbols; none for the first four distance symbols, then one more for every two. */
  lemma ExtraBits(z: nat)
    ensures z < 8 || z == 28 ==> LengthExtra(z) == 0
    ensures 8 <= z < 12 ==> LengthExtra(z) == 1
    ensures 8 <= z < 24 ==> LengthExtra(z + 4) == LengthExtra(z) + 1
    ensures z < 4 ==> DistExtra(z) == 0
    ensures 4 <= z < 6 ==> DistExtra(z) == 1
    ensures 4 <= z < 28 ==> DistExtra(z + 2) == DistExtra(z) + 1
  {
  }

  lemma LengthParts(z: nat)
    ensures z < 8 ==> LengthBase(z) == 3 + z && LengthExtra(z) == 0
    ensures 8 <= z < 28 ==> LengthBase(z) == 3 + (4 + z % 4) * Pow2(LengthExtra(z)) && LengthExtra(z) == z / 4 - 1
  {
    if 8 <= z < 28 {
      ShlTimes(4 + z % 4, LengthExtra(z));
    }
  }

  lemma DistanceParts(z: nat)
    ensures z < 4 ==> DistBase(z) == 1 + z && DistExtra(z) == 0
    ensures 4 <= z < 30 ==> DistBase(z) == 1 + (2 + z % 2) * Pow2(DistExtra(z)) && DistExtra(z) == z / 2 - 1
  {
    if 4 <= z < 30 {
      ShlTimes(2 + z % 2, DistExtra(z));
    }
  }

  lemma Doubles(e: nat, m: nat, k: nat)
    ensures (m + k) * Pow2(e) + Pow2(e) == (m + k + 1) * Pow2(e)
    ensures (2 * m) * Pow2(e) == m * Pow2(e + 1)
  {
    assert (2 * m) * Pow2(e) == m * (2 * Pow2(e));
  }

  /** The lengths of a symbol come right after those of the one before it. */
  lemma LengthsFollow(z: nat)
    ensures z < 27 ==> LengthBase(z + 1) == LengthBase(z) + Pow2(LengthExtra(z))
  {
    hide LengthBase, LengthExtra, Pow2;
    LengthParts(z);
    LengthParts(z + 1);
    PowZero();
    if 8 <= z < 27 {
      Doubles(z / 4 - 1, 4, z % 4);
      if z % 4 == 3 {
        assert (z + 1) / 4 == z / 4 + 1 && (z + 1) % 4 == 0;
      } else {
        assert (z + 1) / 4 == z / 4 && (z + 1) % 4 == z % 4 + 1;
      }
    } else if z == 7 {
      assert LengthBase(8) == 11 by {
        Pow2Values();
        assert LengthExtra(8) == 1 && 8 % 4 == 0;
      }
    }
  }

  lemma PowZero()
    ensures Pow2(0) == 1
  {
  }

  /** They start with 3 and end with 258, which also has a symbol of its own. */
  lemma LengthEnds()
    ensures LengthBase(0) == 3 && LengthBase(28) == 258 && LengthBase(27) + Pow2(LengthExtra(27)) == 259
  {
    hide Pow2;
    Pow2Values();
    LengthParts(27);
  }

  /** The same of distances. */
  lemma DistancesFollow(z: nat)
    ensures z < 29 ==> DistBase(z + 1) == DistBase(z) + Pow2(DistExtra(z))
  {
    hide DistBase, DistExtra, Pow2;
    DistanceParts(z);
    DistanceParts(z + 1);
    PowZero();
    if 4 <= z < 29 {
      Doubles(z / 2 - 1, 2, z % 2);
      if z % 2 == 1 {
        assert (z + 1) / 2 == z / 2 + 1 && (z + 1) % 2 == 0;
      } else {
        assert (z + 1) / 2 == z / 2 && (z + 1) % 2 == 1;
      }
    } else if z == 3 {
      Pow2Values();
    }
  }

  lemma DistanceEnds()
    ensures DistBase(0) == 1 && DistBase(29) + Pow2(DistExtra(29)) == 32769
  {
    hide Pow2;
    DistanceParts(29);
    assert Pow2(13) == 0x2000 by {
      Pow2Values();
    }
  }

  /** Every length from 3 to 258 is that of some symbol and extra bits. */
  lemma EveryLength(n: nat) returns (z: nat, extra: nat)
    requires 3 <= n <= 258
    ensures z <= 28 && extra < Pow2(LengthExtra(z)) && LengthBase(z) + extra == n
  {
    LengthEnds();
    z, extra := LengthFrom(n, 0);
  }

  lemma {:induction false} LengthFrom(n: nat, from: nat) returns (z: nat, extra: nat)
    requires from <= 27 && LengthBase(from) <= n < LengthBase(27) + Pow2(LengthExtra(27))
    ensures z <= 27 && extra < Pow2(LengthExtra(z)) && LengthBase(z) + extra == n
    decreases 27 - from
  {
    hide LengthBase, LengthExtra, Pow2;
    if n < LengthBase(from) + Pow2(LengthExtra(from)) {
      z, extra := from, n - LengthBase(from);
    } else {
      LengthsFollow(from);
      z, extra := LengthFrom(n, from + 1);
    }
  }

  /** No symbol up to 285 has any other length. */
  lemma {:induction false} LengthAtMost(z: nat)
    requires z <= 28
    ensures LengthBase(z) >= 3 && LengthBase(z) + Pow2(LengthExtra(z)) <= 259
    decreases 28 - z
  {
    LengthEnds();
    LengthParts(z);
    hide LengthBase, Pow2;
    PowZero();
    if z < 27 {
      LengthsFollow(z);
      LengthAtMost(z + 1);
    }
  }

  /** And every distance from 1 to 32768. */
  lemma EveryDistance(n: nat) returns (z: nat, extra: nat)
    requires 1 <= n <= 32768
    ensures z <= 29 && extra < Pow2(DistExtra(z)) && DistBase(z) + extra == n
  {
    DistanceEnds();
    z, extra := DistanceFrom(n, 0);
  }

  lemma {:induction false} DistanceFrom(n: nat, from: nat) returns (z: nat, extra: nat)
    requires from <= 29 && DistBase(from) <= n < DistBase(29) + Pow2(DistExtra(29))
    ensures z <= 29 && extra < Pow2(DistExtra(z)) && DistBase(z) + extra == n
    decreases 29 - from
  {
    hide DistBase, DistExtra, Pow2;
    if n < DistBase(from) + Pow2(DistExtra(from)) {
      z, extra := from, n - DistBase(from);
    } else {
      DistancesFollow(from);
      z, extra := DistanceFrom(n, from + 1);
    }
  }

  lemma {:induction false} DistanceAtMost(z: nat)
    requires z <= 29
    ensures DistBase(z) >= 1 && DistBase(z) + Pow2(DistExtra(z)) <= 32769
    decreases 29 - z
  {
    DistanceEnds();
    DistanceParts(z);
    hide DistBase, Pow2;
    if z < 29 {
      DistancesFollow(z);
      DistanceAtMost(z + 1);
    }
  }

  /** What a copy of the format means: as many bytes as its length, each equal to the one its distance
      before it, and an error exactly if that is before the start. */
  lemma CopyMeans(out: seq<byte>, lsym: nat, lextra: nat, dsym: nat, dextra: nat)
    requires 257 <= lsym <= 285 && dsym <= 29
    ensures var len, dist := LengthBase(lsym - 257) + lextra, DistBase(dsym) + dextra;
      match Emit(out, Copy(lsym, lextra, dsym, dextra))
      case None => dist > |out|
      case Some(r) =>
        && 1 <= dist <= |out| && |r| == |out| + len && r[..|out|] == out
        && forall i :: |out| <= i < |r| ==> r[i] == r[i - dist]
  {
    hide LengthBase, DistBase, CopyBack;
    LengthAtMost(lsym - 257);
    DistanceAtMost(dsym);
    var len, dist := LengthBase(lsym - 257) + lextra, DistBase(dsym) + dextra;
    if dist <= |out| {
      CopyBackRepeats(out, len, dist);
    }
  }
}
