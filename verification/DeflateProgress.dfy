/** How far decoding a DEFLATE stream moves, and that it only adds to the output. */
module DeflateProgress {
  import opened Bits
  import opened CanonicalCode
  import opened Deflate
  import opened DeflateHeader
  import opened DeflateLengths
  import opened DeflateStream
  import opened Options

  lemma ItemAdvances(l: seq<nat>, d: seq<nat>, data: seq<byte>, p: nat)
    ensures var it := ItemAt(ReaderOf(l, data), ReaderOf(d, data), data, p);
      (it.Tok? || it.EndOfBlock? ==> it.end > p) && (it.Tok? && it.tok.Copy? ==> it.tok.lsym >= 257)
  {
    hide SymbolAndEnd;
    SymbolEnd(l, data, p);
    if SymbolAndEnd(l, data, p).Some? {
      var (z, p1) := SymbolAndEnd(l, data, p).value;
      if z >= 257 {
        SymbolEnd(d, data, p1 + LengthExtra(z - 257));
      }
    }
  }

  /** An item of the format makes the output longer. */
  lemma ItemLengthens(l: seq<nat>, d: seq<nat>, data: seq<byte>, p: nat, out: seq<byte>)
    ensures var it := ItemAt(ReaderOf(l, data), ReaderOf(d, data), data, p);
      it.Tok? && Standard(it.tok) && Emit(out, it.tok).Some? ==> |Emit(out, it.tok).value| > |out|
  {
    hide ItemAt, CopyBack;
    ItemAdvances(l, d, data, p);
  }

  /** Decoding a body only moves forward and only appends. */
  lemma {:induction false} BodyGrows(l: seq<nat>, d: seq<nat>, data: seq<byte>, p: nat, out: seq<byte>, fuel: nat)
    ensures var r := Body(ReaderOf(l, data), ReaderOf(d, data), data, p, out, fuel);
      r.Output? ==> r.end >= p && |r.out| >= |out|
    decreases fuel
  {
    hide ReaderOf;
    if fuel > 0 {
      ItemAdvances(l, d, data, p);
      var it := ItemAt(ReaderOf(l, data), ReaderOf(d, data), data, p);
      if it.Tok? && Emit(out, it.tok).Some? {
        EmitGrows(out, it.tok);
        BodyGrows(l, d, data, it.end, Emit(out, it.tok).value, fuel - 1);
      }
    }
  }

  /** What the copy with length symbol sym at p reads from the stream and does to the output. */
  lemma CopyMeaning(d: seq<nat>, data: seq<byte>, sym: nat, p: nat, out: seq<byte>)
    requires sym >= 257
    ensures var it := CopyAt(ReaderOf(d, data), data, sym, p);
      var n := LengthBase(sym - 257) + Lsb(data, p, LengthExtra(sym - 257));
      match SymbolAndEnd(d, data, p + LengthExtra(sym - 257))
      case None => it.NoItem?
      case Some((z, p2)) =>
        var dist := DistBase(z) + Lsb(data, p2, DistExtra(z));
        && it.Tok? && it.end == p2 + DistExtra(z) && Length(it.tok) == n && Distance(it.tok) == dist
        && (!Arbitrary(it.tok) ==>
              Emit(out, it.tok) == if dist > |out| then None else if n == 0 then Some(out)
                                   else if dist >= 1 then Some(CopyBack(out, n, dist)) else None)
        && (!Arbitrary(it.tok) ==> n == 0 || dist >= 1)
  {
    hide SymbolAndEnd, Lsb, CopyBack;
  }

  lemma LenOpMeaning(cl: seq<nat>, data: seq<byte>, p: nat)
    ensures SymbolAndEnd(cl, data, p).None? ==> LenOpAt(ReaderOf(cl, data), data, p) == None
    ensures SymbolAndEnd(cl, data, p).Some? ==>
      var (c, p1) := SymbolAndEnd(cl, data, p).value;
      var it := LenOpAt(ReaderOf(cl, data), data, p);
      it == OpOf(c, data, p1) && (it.Some? ==> it.value.1 >= p1)
  {
    hide SymbolAndEnd, Lsb;
  }

  lemma {:induction false} ThreesIndex(data: seq<byte>, p: nat, n: nat, i: nat)
    requires i < n
    ensures ThreesAt(data, p, n)[i] == Lsb(data, p + 3 * i, 3)
    decreases n
  {
    if i > 0 {
      ThreesIndex(data, p + 3, n - 1, i - 1);
    }
  }

  lemma {:induction false} LengthsAdvance(cl: seq<nat>, data: seq<byte>, p: nat, total: nat, acc: seq<nat>)
    requires |acc| <= total
    ensures var r := LengthsAt(ReaderOf(cl, data), data, p, total, acc);
      r.Some? ==> r.value.1 >= p
    decreases total - |acc|
  {
    if |acc| < total {
      LenOpAdvances(cl, data, p);
      var r := LenOpAt(ReaderOf(cl, data), data, p);
      if r.Some? && Extend(acc, r.value.0).Some? && |Extend(acc, r.value.0).value| <= total {
        LengthsAdvance(cl, data, r.value.1, total, Extend(acc, r.value.0).value);
      }
    }
  }

  lemma LenOpAdvances(cl: seq<nat>, data: seq<byte>, p: nat)
    ensures var r := LenOpAt(ReaderOf(cl, data), data, p);
      r.Some? ==> r.value.1 >= p
  {
    SymbolEnd(cl, data, p);
  }

  lemma TablesFrom(data: seq<byte>, p: nat, hlit: nat, hdist: nat, cl: seq<nat>)
    ensures var t := TablesAt(data, p, hlit, hdist, cl);
      var r := LengthsAt(ReaderOf(cl, data), data, p, hlit + hdist, []);
      if IsCode(cl) && r.Some? then
        var (all, end) := r.value;
        && |all| == hlit + hdist && IsLengths(all)
        && t == if IsCode(all[..hlit]) && IsCode(all[hlit..]) then Tables(all[..hlit], all[hlit..], end) else NoTables
      else t.NoTables?
  {
    hide LengthsAt, ReaderOf, IsCode, Lsb;
    if IsCode(cl) && LengthsAt(ReaderOf(cl, data), data, p, hlit + hdist, []).Some? {
      LengthsShape(cl, data, p, hlit + hdist);
    }
  }

  lemma SmallLengths(l: seq<nat>)
    requires forall i :: 0 <= i < |l| ==> l[i] < 8
    ensures IsLengths(l)
  {
  }

  lemma PartsAreLengths(l: seq<nat>, n: nat)
    requires IsLengths(l) && n <= |l|
    ensures IsLengths(l[..n]) && IsLengths(l[n..])
  {
  }

  lemma PastEnd(data: seq<byte>, p: nat)
    requires p >= 8 * |data|
    ensures Bit(data, p) == 0
  {
  }

  /** Past the end of the data there are only zeros, and zeros are no block. */
  lemma NoBlockPastEnd(data: seq<byte>, p: nat, out: seq<byte>, fuel: nat)
    requires p >= 8 * |data|
    ensures BlockAt(data, p + 3, Lsb(data, p + 1, 2), out, fuel) == Bad
  {
    hide Bit;
    PastEnd(data, p + 1);
    PastEnd(data, p + 2);
    assert Lsb(data, p + 3, 0) == 0 && Lsb(data, p + 2, 1) == 0;
    assert Lsb(data, p + 1, 2) == 0;
    assert (p + 10) / 8 >= |data|;
  }

  lemma StreamUnfolds(data: seq<byte>, p: nat, out: seq<byte>, fuel: nat, r: Outcome)
    requires r == BlockAt(data, p + 3, Lsb(data, p + 1, 2), out, fuel)
    ensures p < 8 * |data| ==>
      StreamAt(data, p, out, fuel) ==
        if r.Output? && Bit(data, p) != 1 then StreamAt(data, r.end, r.out, fuel) else r
    ensures p >= 8 * |data| ==> StreamAt(data, p, out, fuel) == Bad && r == Bad
  {
    hide BlockAt, Bit, Lsb;
    if p >= 8 * |data| {
      NoBlockPastEnd(data, p, out, fuel);
    }
  }

  lemma BlockGrows(data: seq<byte>, p: nat, kind: nat, out: seq<byte>, fuel: nat)
    ensures var r := BlockAt(data, p, kind, out, fuel);
      r.Output? ==> r.end >= p && |r.out| >= |out|
  {
    hide StoredAt, DynamicAt, Body;
    BodyGrows(FixedLit(), FixedDist(), data, p, out, fuel);
    DynamicCases(data, p, out, fuel);
    HeaderAdvances(data, p);
    var t := HeaderAt(data, p);
    if t.Tables? {
      BodyGrows(t.lit, t.dist, data, t.end, out, fuel);
    }
    StoredGrows(data, p, out);
  }

  lemma StoredGrows(data: seq<byte>, p: nat, out: seq<byte>)
    ensures var r := StoredAt(data, (p + 7) / 8, out);
      r.Output? ==> r.end >= p && |r.out| >= |out|
  {
  }

  /** A stream ends no earlier than its first block, and with no less output. */
  lemma {:induction false} StreamGrows(data: seq<byte>, p: nat, out: seq<byte>, fuel: nat, r: Outcome)
    requires r == BlockAt(data, p + 3, Lsb(data, p + 1, 2), out, fuel)
    ensures var s := StreamAt(data, p, out, fuel);
      s.Output? ==> r.Output? && s.end >= r.end >= p + 3 && |s.out| >= |r.out| >= |out|
    decreases 8 * |data| - p
  {
    hide BlockAt, Bit, Lsb;
    BlockGrows(data, p + 3, Lsb(data, p + 1, 2), out, fuel);
    StreamUnfolds(data, p, out, fuel, r);
    if p < 8 * |data| && r.Output? && Bit(data, p) != 1 {
      StreamGrows(data, r.end, r.out, fuel, BlockAt(data, r.end + 3, Lsb(data, r.end + 1, 2), r.out, fuel));
    }
  }

  lemma OneBit(data: seq<byte>, p: nat)
    ensures Lsb(data, p, 1) == Bit(data, p)
  {
    NoBits(data, p + 1);
  }

  lemma NoBits(data: seq<byte>, p: nat)
    ensures Lsb(data, p, 0) == 0
  {
  }

  lemma DynamicCases(data: seq<byte>, p: nat, out: seq<byte>, fuel: nat)
    ensures var t := HeaderAt(data, p);
      DynamicAt(data, p, out, fuel) ==
        if t.Tables? then Body(ReaderOf(t.lit, data), ReaderOf(t.dist, data), data, t.end, out, fuel) else Bad
    ensures var t := HeaderAt(data, p);
      DynamicAt(data, p, out, fuel).Output? ==> DynamicAt(data, p, out, fuel).end >= t.end
  {
    hide HeaderAt, Body, ReaderOf;
    var t := HeaderAt(data, p);
    if t.Tables? {
      BodyGrows(t.lit, t.dist, data, t.end, out, fuel);
    }
  }

  lemma HeaderAdvances(data: seq<byte>, p: nat)
    ensures HeaderAt(data, p).Tables? ==> HeaderAt(data, p).end >= p
  {
    hide TablesAt, LengthsAt, Lsb;
    var hclen := Lsb(data, p + 10, 4) + 4;
    Pow2Values();
    var cl := ClLengths(ThreesAt(data, p + 14, hclen));
    TablesFrom(data, p + 14 + 3 * hclen, Lsb(data, p, 5) + 257, Lsb(data, p + 5, 5) + 1, cl);
    LengthsAdvance(cl, data, p + 14 + 3 * hclen, Lsb(data, p, 5) + 257 + (Lsb(data, p + 5, 5) + 1), []);
  }

  lemma EmitLiteral(out: seq<byte>)
    ensures forall b: byte :: Emit(out, Literal(b)) == Some(out + [b])
  {
  }

  lemma EmitGrows(out: seq<byte>, tok: Token)
    ensures Emit(out, tok).Some? ==> |Emit(out, tok).value| >= |out|
  {
  }
}
