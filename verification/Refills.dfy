/** When the bit buffer of the inflater is filled, and where it runs dry: bits are fetched a byte
    at a time when too few are buffered, and a symbol is refused if there are fewer than sixteen
    and no byte is left. What is refused follows from the sizes of what has been read. */
module Refills {
  import opened Bits
  import opened CanonicalCode
  import opened Deflate
  import opened DeflateHeader
  import opened DeflateLengths
  import opened DeflateProgress
  import opened DeflateStream
  import opened Options

  /** How many bytes have been fetched once n bits are wanted at p, if it was f before: the
      buffer is filled up to more than 24 bits, but only if it has fewer than n. */
  function Refilled(p: nat, f: nat, n: nat): nat {
    if 8 * f < p + n then (p + 32) / 8 else f
  }

  /** The same for a symbol, unless it is refused. */
  function SymbolFetched(data: seq<byte>, p: nat, f: nat): Option<nat> {
    if 8 * f < p + 16 && f >= |data| then None else Some(Refilled(p, f, 16))
  }

  /** The same for an item of a compressed block. */
  function ItemFetched(lit: Reader, dist: Reader, data: seq<byte>, p: nat, f: nat): Option<nat> {
    match SymbolFetched(data, p, f)
    case None => None
    case Some(f1) =>
      match lit(p)
      case None => None
      case Some((z, p1)) => if z <= END_OF_BLOCK then Some(f1) else CopyFetched(dist, data, z, p1, f1)
  }

  function CopyFetched(dist: Reader, data: seq<byte>, z: nat, p: nat, f: nat): Option<nat>
    requires z >= 257
  {
    var le := LengthExtra(z - 257);
    DistanceFetched(dist, data, p + le, Refilled(p, f, le))
  }

  function DistanceFetched(dist: Reader, data: seq<byte>, p: nat, f: nat): Option<nat> {
    match SymbolFetched(data, p, f)
    case None => None
    case Some(f1) =>
      match dist(p)
      case None => None
      case Some((z, p1)) => Some(Refilled(p1, f1, DistExtra(z)))
  }

  /** The same for the body of a block of at most fuel items. */
  function BodyFetched(lit: Reader, dist: Reader, data: seq<byte>, p: nat, f: nat, fuel: nat): Option<nat>
    decreases fuel
  {
    if fuel == 0 then None
    else
      match ItemFetched(lit, dist, data, p, f)
      case None => None
      case Some(f1) =>
        match ItemAt(lit, dist, data, p)
        case EndOfBlock(_) => Some(f1)
        case Tok(_, end) => BodyFetched(lit, dist, data, end, f1, fuel - 1)
        case _ => None
  }

  /** The extra bits of a code length symbol. */
  function RepeatBits(c: nat): nat {
    if c < 16 then 0 else if c == 16 then 2 else if c == 17 then 3 else 7
  }

  function LenOpFetched(cl: Reader, data: seq<byte>, p: nat, f: nat): Option<nat> {
    match SymbolFetched(data, p, f)
    case None => None
    case Some(f1) =>
      match cl(p)
      case None => None
      case Some((c, p1)) => Some(Refilled(p1, f1, RepeatBits(c)))
  }

  function LengthsFetched(cl: Reader, data: seq<byte>, p: nat, f: nat, total: nat, acc: seq<nat>): Option<nat>
    requires |acc| <= total
    decreases total - |acc|
  {
    if |acc| == total then Some(f)
    else
      match LenOpFetched(cl, data, p, f)
      case None => None
      case Some(f1) =>
        match LenOpAt(cl, data, p)
        case None => None
        case Some((op, end)) =>
          match Extend(acc, op)
          case None => None
          case Some(next) => if |next| > total then None else LengthsFetched(cl, data, end, f1, total, next)
  }

  function ThreesFetched(p: nat, f: nat, n: nat): nat
    decreases n
  {
    if n == 0 then f else Refilled(p + 3 * (n - 1), ThreesFetched(p, f, n - 1), 3)
  }

  /** The same for the header of a dynamic block. */
  function HeaderFetched(data: seq<byte>, p: nat, f: nat): Option<nat> {
    var hclen := Lsb(data, p + 10, 4) + 4;
    Pow2Values();
    var cl := ClLengths(ThreesAt(data, p + 14, hclen));
    var counts := Refilled(p + 10, Refilled(p + 5, Refilled(p, f, 5), 5), 4);
    LengthsFetched(ReaderOf(cl, data), data, p + 14 + 3 * hclen, ThreesFetched(p + 14, counts, hclen),
                   Lsb(data, p, 5) + 257 + (Lsb(data, p + 5, 5) + 1), [])
  }

  /** The same for a block whose three header bits have been read; a stored block is read a byte
      at a time and leaves nothing in the buffer. */
  function BlockFetched(data: seq<byte>, p: nat, f: nat, kind: nat, fuel: nat): Option<nat> {
    if kind == 0 then
      match StoredAt(data, (p + 7) / 8, [])
      case Output(_, end) => Some(end / 8)
      case _ => None
    else if kind == 1 then BodyFetched(ReaderOf(FixedLit(), data), ReaderOf(FixedDist(), data), data, p, f, fuel)
    else if kind == 2 then DynamicFetched(data, p, f, fuel)
    else None
  }

  function DynamicFetched(data: seq<byte>, p: nat, f: nat, fuel: nat): Option<nat> {
    match HeaderFetched(data, p, f)
    case None => None
    case Some(f1) =>
      match HeaderAt(data, p)
      case NoTables => None
      case Tables(l, d, end) => BodyFetched(ReaderOf(l, data), ReaderOf(d, data), data, end, f1, fuel)
  }

  /** The bytes fetched after the three header bits of a block at p. */
  function HeadFetched(p: nat, f: nat): nat {
    Refilled(p + 1, Refilled(p, f, 1), 2)
  }

  /** The same for a stream: None if some symbol on the way is refused. */
  function StreamFetched(data: seq<byte>, p: nat, f: nat, out: seq<byte>, fuel: nat): Option<nat>
    decreases 8 * |data| - p
  {
    if p >= 8 * |data| then None
    else
      var kind := Lsb(data, p + 1, 2);
      match BlockFetched(data, p + 3, HeadFetched(p, f), kind, fuel)
      case None => None
      case Some(f1) =>
        match BlockAt(data, p + 3, kind, out, fuel)
        case Output(next, end) =>
          BlockAdvances(data, p + 3, kind, out, fuel);
          if Bit(data, p) == 1 then Some(f1) else StreamFetched(data, end, f1, next, fuel)
        case _ => None
  }

  /** Which item there is, by its first symbol. */
  lemma ItemCases(l: seq<nat>, d: seq<nat>, data: seq<byte>, p: nat, f: nat)
    ensures var it := ItemAt(ReaderOf(l, data), ReaderOf(d, data), data, p);
      var s := ItemFetched(ReaderOf(l, data), ReaderOf(d, data), data, p, f);
      var f1 := SymbolFetched(data, p, f);
      match SymbolAndEnd(l, data, p)
      case None => it == NoItem
      case Some((z, p1)) =>
        if z < 256 then it == Tok(Literal(z), p1) && s == f1
        else if z == END_OF_BLOCK then it == EndOfBlock(p1) && s == f1
        else
          && it == CopyAt(ReaderOf(d, data), data, z, p1)
          && s == if f1.None? then None else CopyFetched(ReaderOf(d, data), data, z, p1, f1.value)
  {
    hide CopyAt, CopyFetched, SymbolAndEnd, SymbolFetched;
  }

  /** What the first item of a body leads to. */
  lemma BodyUnfolds(lit: Reader, dist: Reader, data: seq<byte>, p: nat, f: nat, out: seq<byte>, fuel: nat)
    requires fuel > 0
    ensures var it, s := ItemAt(lit, dist, data, p), ItemFetched(lit, dist, data, p, f);
      var r, t := Body(lit, dist, data, p, out, fuel), BodyFetched(lit, dist, data, p, f, fuel);
      match it
      case NoItem => r == Bad
      case EndOfBlock(end) => r == Output(out, end) && t == s
      case Tok(tok, end) =>
        && (Arbitrary(tok) ==> r == Undefined)
        && (!Arbitrary(tok) && Emit(out, tok) == None ==> r == Bad)
        && (!Arbitrary(tok) && Emit(out, tok).Some? ==> r == Body(lit, dist, data, end, Emit(out, tok).value, fuel - 1))
        && t == if s.None? then None else BodyFetched(lit, dist, data, end, s.value, fuel - 1)
  {
    hide ItemAt, ItemFetched, Emit;
  }

  lemma FetchedUnfolds(data: seq<byte>, p: nat, f: nat, out: seq<byte>, fuel: nat, r: Outcome, s: Option<nat>)
    requires r == BlockAt(data, p + 3, Lsb(data, p + 1, 2), out, fuel)
    requires s == BlockFetched(data, p + 3, HeadFetched(p, f), Lsb(data, p + 1, 2), fuel)
    ensures p < 8 * |data| ==>
      StreamFetched(data, p, f, out, fuel) ==
        if s.None? || !r.Output? then None
        else if Bit(data, p) == 1 then s else StreamFetched(data, r.end, s.value, r.out, fuel)
  {
    hide BlockAt, BlockFetched, Bit, Lsb;
  }

  // ----- Sixteen bits from the last symbol on are enough -----

  lemma SymbolServed(data: seq<byte>, p: nat, f: nat)
    requires p + 16 <= 8 * |data|
    ensures SymbolFetched(data, p, f).Some?
  {
  }

  lemma ItemServed(l: seq<nat>, d: seq<nat>, data: seq<byte>, p: nat, f: nat)
    ensures var it := ItemAt(ReaderOf(l, data), ReaderOf(d, data), data, p);
      (it.Tok? && it.end + 16 <= 8 * |data|) || (it.EndOfBlock? && p + 16 <= 8 * |data|) ==>
        ItemFetched(ReaderOf(l, data), ReaderOf(d, data), data, p, f).Some?
  {
    hide SymbolAndEnd, Lsb, SymbolFetched;
    var it := ItemAt(ReaderOf(l, data), ReaderOf(d, data), data, p);
    SymbolEnd(l, data, p);
    ItemAdvances(l, d, data, p);
    if (it.Tok? && it.end + 16 <= 8 * |data|) || (it.EndOfBlock? && p + 16 <= 8 * |data|) {
      var (z, p1) := SymbolAndEnd(l, data, p).value;
      SymbolServed(data, p, f);
      if z > END_OF_BLOCK {
        var q := p1 + LengthExtra(z - 257);
        SymbolEnd(d, data, q);
        SymbolServed(data, q, Refilled(p1, SymbolFetched(data, p, f).value, LengthExtra(z - 257)));
      }
    }
  }

  /** The bits of the symbol that ends a block. */
  function EndBits(l: seq<nat>): nat {
    if |l| > END_OF_BLOCK then l[END_OF_BLOCK] else 0
  }

  lemma EndIsSymbol(l: seq<nat>, d: seq<nat>, data: seq<byte>, p: nat)
    ensures var it := ItemAt(ReaderOf(l, data), ReaderOf(d, data), data, p);
      it.EndOfBlock? ==> it.end == p + EndBits(l)
  {
    hide SymbolAndEnd, Lsb;
    SymbolEnd(l, data, p);
  }

  lemma {:induction false} BodyEnd(l: seq<nat>, d: seq<nat>, data: seq<byte>, p: nat, out: seq<byte>, fuel: nat)
    ensures var r := Body(ReaderOf(l, data), ReaderOf(d, data), data, p, out, fuel);
      r.Output? ==> r.end >= p + EndBits(l)
    decreases fuel
  {
    hide ReaderOf, ItemAt, Emit, EndBits;
    if fuel > 0 {
      EndIsSymbol(l, d, data, p);
      ItemAdvances(l, d, data, p);
      var it := ItemAt(ReaderOf(l, data), ReaderOf(d, data), data, p);
      if it.Tok? && Emit(out, it.tok).Some? {
        BodyEnd(l, d, data, it.end, Emit(out, it.tok).value, fuel - 1);
      }
    }
  }

  lemma {:induction false} BodyServed(l: seq<nat>, d: seq<nat>, data: seq<byte>, p: nat, f: nat, out: seq<byte>,
                                      fuel: nat)
    ensures var r := Body(ReaderOf(l, data), ReaderOf(d, data), data, p, out, fuel);
      r.Output? && r.end - EndBits(l) + 16 <= 8 * |data| ==>
        BodyFetched(ReaderOf(l, data), ReaderOf(d, data), data, p, f, fuel).Some?
    decreases fuel
  {
    hide ReaderOf, ItemAt, ItemFetched, Emit, EndBits;
    var lit, dist := ReaderOf(l, data), ReaderOf(d, data);
    var r := Body(lit, dist, data, p, out, fuel);
    if r.Output? && r.end - EndBits(l) + 16 <= 8 * |data| {
      EndIsSymbol(l, d, data, p);
      ItemServed(l, d, data, p, f);
      match ItemAt(lit, dist, data, p)
      case Tok(tok, end) =>
        BodyEnd(l, d, data, end, Emit(out, tok).value, fuel - 1);
        BodyServed(l, d, data, end, ItemFetched(lit, dist, data, p, f).value, Emit(out, tok).value, fuel - 1);
      case _ =>
    }
  }

  lemma {:induction false} LengthsServed(cl: seq<nat>, data: seq<byte>, p: nat, f: nat, total: nat, acc: seq<nat>)
    requires |acc| <= total
    ensures var r := LengthsAt(ReaderOf(cl, data), data, p, total, acc);
      r.Some? && r.value.1 + 16 <= 8 * |data| ==>
        LengthsFetched(ReaderOf(cl, data), data, p, f, total, acc).Some?
    decreases total - |acc|
  {
    hide SymbolAndEnd, Lsb, SymbolFetched;
    var r := LengthsAt(ReaderOf(cl, data), data, p, total, acc);
    if |acc| < total && r.Some? && r.value.1 + 16 <= 8 * |data| {
      LenOpAdvances(cl, data, p);
      var (op, end) := LenOpAt(ReaderOf(cl, data), data, p).value;
      LengthsAdvance(cl, data, end, total, Extend(acc, op).value);
      SymbolServed(data, p, f);
      LengthsServed(cl, data, end, LenOpFetched(ReaderOf(cl, data), data, p, f).value, total, Extend(acc, op).value);
    }
  }

  lemma HeaderServed(data: seq<byte>, p: nat, f: nat)
    ensures var t := HeaderAt(data, p);
      t.Tables? && t.end + 16 <= 8 * |data| ==> HeaderFetched(data, p, f).Some?
  {
    hide TablesAt, LengthsAt, LengthsFetched, Lsb, IsCode;
    Pow2Values();
    var hclen := Lsb(data, p + 10, 4) + 4;
    var hlit, hdist := Lsb(data, p, 5) + 257, Lsb(data, p + 5, 5) + 1;
    var cl := ClLengths(ThreesAt(data, p + 14, hclen));
    TablesFrom(data, p + 14 + 3 * hclen, hlit, hdist, cl);
    var counts := Refilled(p + 10, Refilled(p + 5, Refilled(p, f, 5), 5), 4);
    LengthsServed(cl, data, p + 14 + 3 * hclen, ThreesFetched(p + 14, counts, hclen), hlit + hdist, []);
  }

  /** The bits of the last symbol of a block; a stored block ends with bytes, not with a symbol. */
  function LastBits(data: seq<byte>, p: nat, kind: nat): nat {
    if kind == 1 then EndBits(FixedLit())
    else if kind == 2 && HeaderAt(data, p).Tables? then EndBits(HeaderAt(data, p).lit)
    else 0
  }

  lemma BlockServed(data: seq<byte>, p: nat, f: nat, kind: nat, out: seq<byte>, fuel: nat)
    ensures var r := BlockAt(data, p, kind, out, fuel);
      r.Output? ==>
        && r.end >= p + LastBits(data, p, kind)
        && (kind == 0 || r.end - LastBits(data, p, kind) + 16 <= 8 * |data| ==>
              BlockFetched(data, p, f, kind, fuel).Some?)
  {
    hide HeaderAt, HeaderFetched, Body, BodyFetched, ReaderOf, FixedLit, FixedDist, ByteAt, EndBits;
    BodyServed(FixedLit(), FixedDist(), data, p, f, out, fuel);
    BodyEnd(FixedLit(), FixedDist(), data, p, out, fuel);
    DynamicCases(data, p, out, fuel);
    HeaderServed(data, p, f);
    HeaderAdvances(data, p);
    var t := HeaderAt(data, p);
    if t.Tables? {
      BodyEnd(t.lit, t.dist, data, t.end, out, fuel);
      if HeaderFetched(data, p, f).Some? {
        BodyServed(t.lit, t.dist, data, t.end, HeaderFetched(data, p, f).value, out, fuel);
      }
    }
  }

  /** Where the last symbol of a stream starts, or its last block if that is stored. */
  function LastStart(data: seq<byte>, p: nat, out: seq<byte>, fuel: nat): nat
    decreases 8 * |data| - p
  {
    if p >= 8 * |data| then p
    else
      var kind := Lsb(data, p + 1, 2);
      match BlockAt(data, p + 3, kind, out, fuel)
      case Output(next, end) =>
        BlockAdvances(data, p + 3, kind, out, fuel);
        if Bit(data, p) != 1 then LastStart(data, end, next, fuel)
        else if kind == 0 || end < LastBits(data, p + 3, kind) then p
        else end - LastBits(data, p + 3, kind)
      case _ => p
  }

  /** The last symbol comes before the end, and not before the start. */
  lemma {:induction false} LastInside(data: seq<byte>, p: nat, out: seq<byte>, fuel: nat)
    ensures LastStart(data, p, out, fuel) >= p
    ensures StreamAt(data, p, out, fuel).Output? ==> LastStart(data, p, out, fuel) <= StreamAt(data, p, out, fuel).end
    decreases 8 * |data| - p
  {
    hide BlockAt, BlockFetched, Bit, Lsb, LastBits;
    var kind := Lsb(data, p + 1, 2);
    var block := BlockAt(data, p + 3, kind, out, fuel);
    BlockServed(data, p + 3, 0, kind, out, fuel);
    if p < 8 * |data| && block.Output? && Bit(data, p) != 1 {
      BlockAdvances(data, p + 3, kind, out, fuel);
      LastInside(data, block.end, block.out, fuel);
    }
  }

  /** Where the last symbol of a stream starts at least sixteen bits before the end of the data,
      nothing is refused. */
  lemma {:induction false} StreamServed(data: seq<byte>, p: nat, f: nat, out: seq<byte>, fuel: nat)
    ensures StreamAt(data, p, out, fuel).Output? && LastStart(data, p, out, fuel) + 16 <= 8 * |data| ==>
      StreamFetched(data, p, f, out, fuel).Some?
    decreases 8 * |data| - p
  {
    hide BlockAt, BlockFetched, Bit, Lsb, LastBits;
    var kind := Lsb(data, p + 1, 2);
    var block := BlockAt(data, p + 3, kind, out, fuel);
    var r := StreamAt(data, p, out, fuel);
    if r.Output? && LastStart(data, p, out, fuel) + 16 <= 8 * |data| {
      BlockServed(data, p + 3, HeadFetched(p, f), kind, out, fuel);
      if Bit(data, p) != 1 {
        BlockAdvances(data, p + 3, kind, out, fuel);
        LastInside(data, block.end, block.out, fuel);
        StreamServed(data, block.end, BlockFetched(data, p + 3, HeadFetched(p, f), kind, fuel).value, block.out, fuel);
      }
    }
  }
}
