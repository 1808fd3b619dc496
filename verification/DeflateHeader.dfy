/** The headers of dynamic blocks (section 3.2.7 of RFC 1951), as an encoder and a decoder that
    are proved inverse to each other. */
module DeflateHeader {
  import opened Bits
  import opened CanonicalCode
  import opened DeflateLengths

  /** The place at which the length of code-length symbol k is stored: the three that repeat
      come first, then 0, then outwards from 8. */
  function StorePlace(k: nat): nat {
    if k >= 16 then k - 16 else if k == 0 then 3 else if k >= 8 then 2 * k - 12 else 19 - 2 * k
  }

  /** The code lengths of the code-length alphabet, from those that are stored. */
  function ClLengths(clens: seq<nat>): (r: seq<nat>)
    ensures |r| == 19
  {
    seq<nat>(19, k requires 0 <= k < 19 => if StorePlace(k) < |clens| then clens[StorePlace(k)] else 0)
  }

  /** What a dynamic header says: how many literal and distance lengths there are, the lengths
      of the code-length alphabet as stored, and the operations that give all other lengths. */
  datatype Header = Header(hlit: nat, hdist: nat, clens: seq<nat>, ops: seq<LenOp>) {
    predicate Shape() {
      257 <= hlit <= 288 && 1 <= hdist <= 32 && 4 <= |clens| <= 19 && forall i :: 0 <= i < |clens| ==> clens[i] < 8
    }

    function Cl(): seq<nat>
      requires Shape()
    {
      ClLengths(clens)
    }

    /** The header defines two codes. */
    predicate Valid() {
      && Shape() && IsCode(Cl()) && AreLenOps(CodesOf(Cl()), ops)
      && ExtendAll([], ops).Some? && |ExtendAll([], ops).value| == hlit + hdist
      && IsCode(Lit()) && IsCode(Dist())
    }

    function Lit(): seq<nat>
      requires ExtendAll([], ops).Some? && |ExtendAll([], ops).value| == hlit + hdist
    {
      ExtendAll([], ops).value[..hlit]
    }

    function Dist(): seq<nat>
      requires ExtendAll([], ops).Some? && |ExtendAll([], ops).value| == hlit + hdist
    {
      ExtendAll([], ops).value[hlit..]
    }

    function Encode(): seq<nat>
      requires Valid()
    {
      EncodeHeader(hlit - 257, hdist - 1, clens, EncodeLenOps(CodesOf(Cl()), ops))
    }
  }

  function EncodeHeader(hlit: nat, hdist: nat, clens: seq<nat>, ops: seq<nat>): (r: seq<nat>)
    requires |clens| >= 4
    ensures |r| == 14 + 3 * |clens| + |ops|
  {
    EncodeCounts(hlit, hdist, |clens| - 4) + (EncodeThrees(clens) + ops)
  }

  function EncodeCounts(hlit: nat, hdist: nat, hclen: nat): (r: seq<nat>)
    ensures |r| == 14
  {
    LsbBits(hlit, 5) + (LsbBits(hdist, 5) + LsbBits(hclen, 4))
  }

  function EncodeThrees(v: seq<nat>): (r: seq<nat>)
    ensures |r| == 3 * |v|
  {
    if v == [] then [] else LsbBits(v[0], 3) + EncodeThrees(v[1..])
  }

  function ThreesAt(data: seq<byte>, p: nat, n: nat): (r: seq<nat>)
    ensures |r| == n && forall i :: 0 <= i < n ==> r[i] < 8
    decreases data, n
  {
    Pow2Values();
    if n == 0 then [] else [Lsb(data, p, 3)] + ThreesAt(data, p + 3, n - 1)
  }

  /** The code lengths of the two codes that a header defines, and where it ends. */
  datatype Tables = NoTables | Tables(lit: seq<nat>, dist: seq<nat>, end: nat)

  /** The literal and distance code lengths that the header at p defines. */
  function HeaderAt(data: seq<byte>, p: nat): Tables {
    var hlit, hdist, hclen := Lsb(data, p, 5) + 257, Lsb(data, p + 5, 5) + 1, Lsb(data, p + 10, 4) + 4;
    Pow2Values();
    var cl := ClLengths(ThreesAt(data, p + 14, hclen));
    TablesAt(data, p + 14 + 3 * hclen, hlit, hdist, cl)
  }

  /** The same from the place where the operations start. */
  function TablesAt(data: seq<byte>, p: nat, hlit: nat, hdist: nat, cl: seq<nat>): Tables {
    if !IsCode(cl) then NoTables
    else
      match LengthsAt(ReaderOf(cl, data), data, p, hlit + hdist, [])
      case None => NoTables
      case Some((all, end)) =>
        LengthsShape(cl, data, p, hlit + hdist);
        if IsCode(all[..hlit]) && IsCode(all[hlit..]) then Tables(all[..hlit], all[hlit..], end) else NoTables
  }

  lemma LengthsShape(cl: seq<nat>, data: seq<byte>, p: nat, total: nat)
    requires IsCode(cl) && LengthsAt(ReaderOf(cl, data), data, p, total, []).Some?
    ensures |LengthsAt(ReaderOf(cl, data), data, p, total, []).value.0| == total
    ensures IsLengths(LengthsAt(ReaderOf(cl, data), data, p, total, []).value.0)
  {
    CodeReadsBack(cl, data);
    var ops := LengthsAreEncoding(CodesOf(cl), ReaderOf(cl, data), data, p, total, []);
    LengthsBounded(CodesOf(cl), [], ops);
  }

  lemma {:induction false} ThreesDecode(data: seq<byte>, p: nat, v: seq<nat>)
    requires forall i :: 0 <= i < |v| ==> v[i] < 8
    ensures Spells(data, p, EncodeThrees(v)) <==> ThreesAt(data, p, |v|) == v
    decreases |v|
  {
    if v != [] {
      Pow2Values();
      ThreesDecode(data, p + 3, v[1..]);
      SpellsConcat(data, p, LsbBits(v[0], 3), EncodeThrees(v[1..]));
      SpellsLsb(data, p, v[0], 3);
      assert v == [v[0]] + v[1..];
    }
  }

  lemma CountsDecode(hlit: nat, hdist: nat, hclen: nat, data: seq<byte>, p: nat)
    requires hlit < 32 && hdist < 32 && hclen < 16
    ensures Spells(data, p, EncodeCounts(hlit, hdist, hclen)) <==>
      Lsb(data, p, 5) == hlit && Lsb(data, p + 5, 5) == hdist && Lsb(data, p + 10, 4) == hclen
  {
    Pow2Values();
    SpellsConcat(data, p, LsbBits(hlit, 5), LsbBits(hdist, 5) + LsbBits(hclen, 4));
    SpellsConcat(data, p + 5, LsbBits(hdist, 5), LsbBits(hclen, 4));
    SpellsLsb(data, p, hlit, 5);
    SpellsLsb(data, p + 5, hdist, 5);
    SpellsLsb(data, p + 10, hclen, 4);
  }

  /** What the bits of a header say, part by part. */
  lemma HeaderSpelled(hlit: nat, hdist: nat, clens: seq<nat>, rest: seq<nat>, data: seq<byte>, p: nat)
    requires hlit < 32 && hdist < 32 && 4 <= |clens| < 20 && forall i :: 0 <= i < |clens| ==> clens[i] < 8
    ensures Spells(data, p, EncodeHeader(hlit, hdist, clens, rest)) <==>
      && Lsb(data, p, 5) == hlit && Lsb(data, p + 5, 5) == hdist && Lsb(data, p + 10, 4) == |clens| - 4
      && ThreesAt(data, p + 14, |clens|) == clens
      && Spells(data, p + 14 + 3 * |clens|, rest)
  {
    SpellsConcat(data, p, EncodeCounts(hlit, hdist, |clens| - 4), EncodeThrees(clens) + rest);
    CountsDecode(hlit, hdist, |clens| - 4, data, p);
    SpellsConcat(data, p + 14, EncodeThrees(clens), rest);
    ThreesDecode(data, p + 14, clens);
  }

  lemma TablesDecode(h: Header, data: seq<byte>, p: nat)
    requires h.Valid() && Spells(data, p, EncodeLenOps(CodesOf(h.Cl()), h.ops))
    ensures TablesAt(data, p, h.hlit, h.hdist, h.Cl()) ==
      Tables(h.Lit(), h.Dist(), p + |EncodeLenOps(CodesOf(h.Cl()), h.ops)|)
  {
    CodeReadsBack(h.Cl(), data);
    LengthsDecode(CodesOf(h.Cl()), ReaderOf(h.Cl(), data), data, p, [], h.ops, ExtendAll([], h.ops).value);
  }

  lemma HeaderReads(hlit: nat, hdist: nat, clens: seq<nat>, data: seq<byte>, p: nat)
    requires 4 <= |clens| < 20 && ThreesAt(data, p + 14, |clens|) == clens
    requires Lsb(data, p, 5) == hlit && Lsb(data, p + 5, 5) == hdist && Lsb(data, p + 10, 4) == |clens| - 4
    ensures HeaderAt(data, p) == TablesAt(data, p + 14 + 3 * |clens|, hlit + 257, hdist + 1, ClLengths(clens))
  {
    hide TablesAt, ClLengths, ThreesAt, Lsb;
  }

  lemma HeaderParts(hlit: nat, hdist: nat, clens: seq<nat>, ops: seq<nat>, data: seq<byte>, p: nat)
    requires hlit < 32 && hdist < 32 && 4 <= |clens| < 20 && forall i :: 0 <= i < |clens| ==> clens[i] < 8
    requires Spells(data, p, EncodeHeader(hlit, hdist, clens, ops))
    ensures Spells(data, p + 14 + 3 * |clens|, ops)
  {
    HeaderSpelled(hlit, hdist, clens, ops, data, p);
  }

  lemma HeaderCounts(hlit: nat, hdist: nat, clens: seq<nat>, ops: seq<nat>, data: seq<byte>, p: nat,
                     r: Tables)
    requires hlit < 32 && hdist < 32 && 4 <= |clens| < 20 && forall i :: 0 <= i < |clens| ==> clens[i] < 8
    requires Spells(data, p, EncodeHeader(hlit, hdist, clens, ops))
    requires TablesAt(data, p + 14 + 3 * |clens|, hlit + 257, hdist + 1, ClLengths(clens)) == r
    ensures HeaderAt(data, p) == r
  {
    HeaderSpelled(hlit, hdist, clens, ops, data, p);
    HeaderReads(hlit, hdist, clens, data, p);
  }

  /** Decoding inverts encoding for headers. */
  lemma HeaderDecodes(h: Header, data: seq<byte>, p: nat)
    requires h.Valid() && Spells(data, p, h.Encode())
    ensures HeaderAt(data, p) == Tables(h.Lit(), h.Dist(), p + |h.Encode()|)
  {
    hide HeaderAt, TablesAt, CodesOf, Spells, ExtendAll, IsCode, EncodeLenOps;
    var ops := EncodeLenOps(CodesOf(h.Cl()), h.ops);
    HeaderParts(h.hlit - 257, h.hdist - 1, h.clens, ops, data, p);
    var start := p + 14 + 3 * |h.clens|;
    TablesDecode(h, data, start);
    HeaderCounts(h.hlit - 257, h.hdist - 1, h.clens, ops, data, p, Tables(h.Lit(), h.Dist(), start + |ops|));
  }

  lemma TablesAreEncoding(data: seq<byte>, p: nat, hlit: nat, hdist: nat, cl: seq<nat>) returns (ops: seq<LenOp>)
    requires TablesAt(data, p, hlit, hdist, cl).Tables?
    ensures IsCode(cl) && AreLenOps(CodesOf(cl), ops) && Spells(data, p, EncodeLenOps(CodesOf(cl), ops))
    ensures ExtendAll([], ops).Some? && |ExtendAll([], ops).value| == hlit + hdist
    ensures var all := ExtendAll([], ops).value;
      && TablesAt(data, p, hlit, hdist, cl)
         == Tables(all[..hlit], all[hlit..], p + |EncodeLenOps(CodesOf(cl), ops)|)
      && IsCode(all[..hlit]) && IsCode(all[hlit..])
  {
    CodeReadsBack(cl, data);
    ops := LengthsAreEncoding(CodesOf(cl), ReaderOf(cl, data), data, p, hlit + hdist, []);
  }

  lemma CountsAt(data: seq<byte>, p: nat) returns (hlit: nat, hdist: nat, clens: seq<nat>)
    ensures hlit < 32 && hdist < 32 && 4 <= |clens| < 20 && forall i :: 0 <= i < |clens| ==> clens[i] < 8
    ensures HeaderAt(data, p) == TablesAt(data, p + 14 + 3 * |clens|, hlit + 257, hdist + 1, ClLengths(clens))
    ensures forall ops :: Spells(data, p + 14 + 3 * |clens|, ops) ==>
      Spells(data, p, EncodeHeader(hlit, hdist, clens, ops))
  {
    Pow2Values();
    hlit, hdist := Lsb(data, p, 5), Lsb(data, p + 5, 5);
    clens := ThreesAt(data, p + 14, Lsb(data, p + 10, 4) + 4);
    HeaderReads(hlit, hdist, clens, data, p);
    forall ops | Spells(data, p + 14 + 3 * |clens|, ops)
      ensures Spells(data, p, EncodeHeader(hlit, hdist, clens, ops))
    {
      HeaderSpelled(hlit, hdist, clens, ops, data, p);
    }
  }

  lemma HeaderIsEncoding(data: seq<byte>, p: nat) returns (h: Header)
    requires HeaderAt(data, p).Tables?
    ensures h.Valid() && Spells(data, p, h.Encode())
    ensures HeaderAt(data, p) == Tables(h.Lit(), h.Dist(), p + |h.Encode()|)
  {
    hide HeaderAt, TablesAt, CodesOf, Spells, ExtendAll, IsCode, EncodeLenOps;
    var hlit, hdist, clens := CountsAt(data, p);
    var ops := TablesAreEncoding(data, p + 14 + 3 * |clens|, hlit + 257, hdist + 1, ClLengths(clens));
    h := Header(hlit + 257, hdist + 1, clens, ops);
    assert h.Cl() == ClLengths(clens);
  }

  // ----- The stored order -----

  /** The lengths are stored for the symbols 16, 17, 18, 0, 8, 7, 9, 6, 10, 5, 11, 4, 12, 3, 13, 2,
      14, 1, 15 in this order; those that are not stored are zero. */
  lemma StoredOrder(clens: seq<nat>, i: nat)
    requires i < |clens| <= 19
    ensures var k :=
        if i < 3 then 16 + i else if i == 3 then 0 else if i % 2 == 0 then 8 + (i - 4) / 2 else 8 - (i - 3) / 2;
      ClLengths(clens)[k] == clens[i]
  {
  }

  lemma NotStored(clens: seq<nat>, i: nat)
    requires |clens| <= i < 19
    ensures ClLengths(clens)[
      if i < 3 then 16 + i else if i == 3 then 0 else if i % 2 == 0 then 8 + (i - 4) / 2 else 8 - (i - 3) / 2] == 0
  {
  }
}
