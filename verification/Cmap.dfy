/** Finding the segment of a character in a cmap subtable of format 4 (the OpenType 'cmap'
    chapter, Format 4). */
module Cmap {
  import opened Bits

  /** A big-endian number of 16 bits. */
  function UShort(data: seq<byte>, at: nat): (r: nat)
    ensures r < 0x1_0000
  {
    256 * ByteAt(data, at) + ByteAt(data, at + 1)
  }

  function SegCount(data: seq<byte>, table: nat): nat {
    UShort(data, table + 6) / 2
  }

  /** The end codes come after the header of 14 bytes, the start codes after them and two more bytes,
      and then the differences and the offsets into the array of glyphs. */
  function EndCodeAt(data: seq<byte>, table: nat, item: nat): nat {
    table + 14 + 2 * item
  }

  function StartCodeAt(data: seq<byte>, table: nat, item: nat): nat {
    table + 14 + 2 * SegCount(data, table) + 2 + 2 * item
  }

  function DeltaAt(data: seq<byte>, table: nat, item: nat): nat {
    table + 14 + 4 * SegCount(data, table) + 2 + 2 * item
  }

  function EndCode(data: seq<byte>, table: nat, item: nat): nat {
    UShort(data, EndCodeAt(data, table, item))
  }

  function StartCode(data: seq<byte>, table: nat, item: nat): nat {
    UShort(data, StartCodeAt(data, table, item))
  }

  /** The header describes a search among the segments: the largest power of two that is not more
      than their number, its logarithm, and the rest. */
  ghost predicate SearchFields(data: seq<byte>, table: nat) {
    var n, k := SegCount(data, table), UShort(data, table + 10);
    && Pow2(k) <= n < 2 * Pow2(k)
    && UShort(data, table + 8) == 2 * Pow2(k) && UShort(data, table + 12) == 2 * (n - Pow2(k))
  }

  /** The end codes increase, and the last one is that of the last character. */
  ghost predicate EndsIncrease(data: seq<byte>, table: nat) {
    var n := SegCount(data, table);
    && n > 0 && EndCode(data, table, n - 1) == 0xFFFF
    && forall i, j :: 0 <= i < j < n ==> EndCode(data, table, i) < EndCode(data, table, j)
  }

  /** The first segment from i on that does not end before c, found by looking at each. */
  function Scan(data: seq<byte>, table: nat, c: nat, i: nat): (r: nat)
    requires i <= SegCount(data, table)
    ensures i <= r <= SegCount(data, table)
    ensures forall j :: i <= j < r ==> EndCode(data, table, j) < c
    ensures r < SegCount(data, table) ==> c <= EndCode(data, table, r)
    decreases SegCount(data, table) - i
  {
    if i == SegCount(data, table) || c <= EndCode(data, table, i) then i else Scan(data, table, c, i + 1)
  }

  lemma Halved(k: nat)
    requires k > 0
    ensures Pow2(k) / 2 == Pow2(k - 1) && Pow2(k) == 2 * Pow2(k - 1)
  {
  }

  /** What comparing c with an end code says about where the scan stops. */
  lemma ScanSide(data: seq<byte>, table: nat, c: nat, item: nat)
    requires EndsIncrease(data, table) && c <= 0xFFFF && item < SegCount(data, table)
    ensures c > EndCode(data, table, item) <==> item < Scan(data, table, c, 0)
    ensures Scan(data, table, c, 0) < SegCount(data, table)
  {
    hide EndCode, UShort, SegCount;
    var n, r := SegCount(data, table), Scan(data, table, c, 0);
    var last: nat := n - 1;
    assert r == n ==> EndCode(data, table, last) < c;
  }

  /** The search in steps of halved size finds the segment that the scan finds. */
  method FindSegment(data: seq<byte>, table: nat, c: nat) returns (item: nat)
    requires SearchFields(data, table) && EndsIncrease(data, table) && c <= 0xFFFF
    ensures item == Scan(data, table, c, 0) && item < SegCount(data, table)
  {
    hide UShort, EndsIncrease, Scan, Pow2, SegCount;
    ghost var n, target := SegCount(data, table), Scan(data, table, c, 0);
    var searchRange := UShort(data, table + 8) / 2;
    var entrySelector := UShort(data, table + 10);
    var rangeShift := UShort(data, table + 12) / 2;
    var endCount := table + 14;
    var search := endCount;
    ScanSide(data, table, c, rangeShift);
    if c >= UShort(data, search + rangeShift * 2) {
      search := search + rangeShift * 2;
      if rangeShift > 0 {
        ScanSide(data, table, c, rangeShift - 1);
        EndBefore(data, table, rangeShift);
      }
    }
    search := search - 2;
    ghost var pos: int := if search + 2 == endCount then -1 else rangeShift - 1;
    while entrySelector > 0
      invariant searchRange == Pow2(entrySelector) && search == endCount + 2 * pos
      invariant -1 <= pos < target <= pos + searchRange < n
    {
      Halved(entrySelector);
      searchRange := searchRange / 2;
      ScanSide(data, table, c, pos + searchRange);
      var end := UShort(data, search + searchRange * 2);
      if c > end {
        search := search + searchRange * 2;
        pos := pos + searchRange;
      }
      entrySelector := entrySelector - 1;
    }
    NoBits();
    search := search + 2;
    item := (search - endCount) / 2;
  }

  lemma NoBits()
    ensures Pow2(0) == 1
  {
  }

  lemma EndBefore(data: seq<byte>, table: nat, item: nat)
    requires EndsIncrease(data, table) && 0 < item < SegCount(data, table)
    ensures EndCode(data, table, item - 1) < EndCode(data, table, item)
  {
  }

  // ----- Characters -----

  function Delta(data: seq<byte>, table: nat, item: nat): nat {
    UShort(data, DeltaAt(data, table, item))
  }

  /** Where the offset of a segment into the array of glyphs is. */
  function RangeOffsetAt(data: seq<byte>, table: nat, item: nat): nat {
    table + 14 + 6 * SegCount(data, table) + 2 + 2 * item
  }

  function RangeOffset(data: seq<byte>, table: nat, item: nat): nat {
    UShort(data, RangeOffsetAt(data, table, item))
  }

  ghost predicate Contains(data: seq<byte>, table: nat, item: nat, c: nat) {
    item < SegCount(data, table) && StartCode(data, table, item) <= c <= EndCode(data, table, item)
  }

  /** Segments do not overlap. */
  ghost predicate SegmentsApart(data: seq<byte>, table: nat) {
    forall i, j :: 0 <= i < j < SegCount(data, table) ==> EndCode(data, table, i) < StartCode(data, table, j)
  }

  /** What the array of glyphs holds for a character; the offset counts from its own place. */
  function InArray(data: seq<byte>, table: nat, item: nat, c: nat): nat
    requires StartCode(data, table, item) <= c
  {
    UShort(data, RangeOffsetAt(data, table, item) + RangeOffset(data, table, item)
                 + 2 * (c - StartCode(data, table, item)))
  }

  /** The glyph of a character, by looking at each segment; 0 if it has none. */
  ghost function GlyphOf(data: seq<byte>, table: nat, c: nat): nat
    requires SegCount(data, table) > 0
  {
    var item := Scan(data, table, c, 0);
    if !Contains(data, table, item, c) then 0
    else if RangeOffset(data, table, item) != 0 then InArray(data, table, item, c)
    else (c + Delta(data, table, item)) % 0x1_0000
  }

  /** The glyph of a character. */
  method FindGlyphIndex(data: seq<byte>, table: nat, c: nat) returns (glyph: nat)
    requires SearchFields(data, table) && EndsIncrease(data, table)
    ensures glyph == if c > 0xFFFF then 0 else GlyphOf(data, table, c)
  {
    hide UShort, SearchFields, EndsIncrease, Scan;
    if c > 0xFFFF {
      return 0;
    }
    var segcount := SegCount(data, table);
    var item := FindSegment(data, table, c);
    var start := UShort(data, table + 14 + segcount * 2 + 2 + 2 * item);
    var last := UShort(data, table + 14 + 2 * item);
    if c < start || c > last {
      return 0;
    }
    var offset := UShort(data, table + 14 + segcount * 6 + 2 + 2 * item);
    if offset == 0 {
      return (c + UShort(data, table + 14 + segcount * 4 + 2 + 2 * item)) % 0x1_0000;
    }
    return UShort(data, offset + (c - start) * 2 + table + 14 + segcount * 6 + 2 + 2 * item);
  }

  /** In the standard the difference is added to a glyph from the array too, unless it is 0. */
  ghost function StandardGlyph(data: seq<byte>, table: nat, c: nat): nat
    requires SegCount(data, table) > 0
  {
    var item := Scan(data, table, c, 0);
    if !Contains(data, table, item, c) then 0
    else if RangeOffset(data, table, item) == 0 then (c + Delta(data, table, item)) % 0x1_0000
    else if InArray(data, table, item, c) == 0 then 0
    else (InArray(data, table, item, c) + Delta(data, table, item)) % 0x1_0000
  }

  /** So the glyph is the standard's exactly if there is no difference to add. */
  lemma DeltaForgotten(data: seq<byte>, table: nat, c: nat)
    requires SegCount(data, table) > 0
    ensures var item := Scan(data, table, c, 0);
      GlyphOf(data, table, c) == StandardGlyph(data, table, c) <==>
        !Contains(data, table, item, c) || RangeOffset(data, table, item) == 0
        || InArray(data, table, item, c) == 0 || Delta(data, table, item) == 0
  {
    hide Scan, RangeOffsetAt, SegCount, StartCode, EndCode;
    var item := Scan(data, table, c, 0);
    if Contains(data, table, item, c) {
      var d := Delta(data, table, item);
      var g := InArray(data, table, item, c);
      assert (g + d) % 0x1_0000 == if g + d < 0x1_0000 then g + d else g + d - 0x1_0000;
    }
  }

  /** Each array begins where the one before it ends, and its entries have two bytes. */
  lemma ArraysFollow(data: seq<byte>, table: nat, item: nat)
    ensures var n := SegCount(data, table);
      && EndCodeAt(data, table, 0) == table + 14
      && StartCodeAt(data, table, 0) == EndCodeAt(data, table, n) + 2
      && DeltaAt(data, table, 0) == StartCodeAt(data, table, n)
      && RangeOffsetAt(data, table, 0) == DeltaAt(data, table, n)
    ensures EndCodeAt(data, table, item) == EndCodeAt(data, table, 0) + 2 * item
    ensures StartCodeAt(data, table, item) == StartCodeAt(data, table, 0) + 2 * item
    ensures DeltaAt(data, table, item) == DeltaAt(data, table, 0) + 2 * item
    ensures RangeOffsetAt(data, table, item) == RangeOffsetAt(data, table, 0) + 2 * item
    ensures UShort(data, item) / 0x100 == ByteAt(data, item) && UShort(data, item) % 0x100 == ByteAt(data, item + 1)
  {
  }

  /** A glyph is 0, or differs from the character by the difference of the segment modulo 2^16, or is the
      number so many places on in the array as the character is after the first of its segment. */
  lemma GlyphIs(data: seq<byte>, table: nat, c: nat)
    requires SegCount(data, table) > 0
    ensures var item, g := Scan(data, table, c, 0), GlyphOf(data, table, c);
      && (!Contains(data, table, item, c) ==> g == 0)
      && (Contains(data, table, item, c) && RangeOffset(data, table, item) == 0 ==>
            g < 0x1_0000 && (g - c - Delta(data, table, item)) % 0x1_0000 == 0)
      && (Contains(data, table, item, c) && RangeOffset(data, table, item) != 0 ==>
            var place := RangeOffsetAt(data, table, item) + RangeOffset(data, table, item);
            g == UShort(data, place + 2 * (c - StartCode(data, table, item))))
  {
    hide Scan, UShort, StartCode, EndCode, SegCount;
  }

  /** A table of one segment whose glyphs are in the array, with a difference of one. */
  const ONE_SEGMENT: seq<byte> := [
    0, 4, 0, 26, 0, 0, 0, 2, 0, 2, 0, 0, 0, 0, 0xFF, 0xFF, 0, 0, 0, 0, 0, 1, 0, 2, 0, 5]

  /** The numbers in such a table. */
  ghost predicate IsOneSegment(data: seq<byte>) {
    && UShort(data, 6) == 2 && UShort(data, 8) == 2 && UShort(data, 10) == 0 && UShort(data, 12) == 0
    && UShort(data, 14) == 0xFFFF && UShort(data, 18) == 0 && UShort(data, 20) == 1 && UShort(data, 22) == 2
    && UShort(data, 24) == 5
  }

  lemma OneSegment()
    ensures IsOneSegment(ONE_SEGMENT)
  {
    var s := ONE_SEGMENT;
    assert s[6] == 0 && s[7] == 2 && s[8] == 0 && s[9] == 2 && s[10] == 0 && s[11] == 0 && s[12] == 0 && s[13] == 0;
    assert s[14] == 0xFF && s[15] == 0xFF && s[18] == 0 && s[19] == 0 && s[20] == 0 && s[21] == 1;
    assert s[22] == 0 && s[23] == 2 && s[24] == 0 && s[25] == 5;
  }

  /** Its header is as it should be, and its first character has glyph 5 here and 6 in the standard. */
  lemma OneGlyphOff(data: seq<byte>)
    requires IsOneSegment(data)
    ensures SearchFields(data, 0) && EndsIncrease(data, 0)
    ensures GlyphOf(data, 0, 0) == 5 && StandardGlyph(data, 0, 0) == 6
  {
    hide UShort;
    NoBits();
    assert Scan(data, 0, 0, 0) == 0;
  }

  /** If a segment has the character it is the one that is found. */
  lemma OnlySegment(data: seq<byte>, table: nat, c: nat, item: nat)
    requires EndsIncrease(data, table) && SegmentsApart(data, table) && c <= 0xFFFF
    ensures Contains(data, table, item, c) <==>
      item == Scan(data, table, c, 0) && Contains(data, table, Scan(data, table, c, 0), c)
  {
    hide EndCode, StartCode, SegCount;
    if Contains(data, table, item, c) {
      var r := Scan(data, table, c, 0);
      ScanSide(data, table, c, item);
      var end, start := EndCode(data, table, r), StartCode(data, table, item);
      assert r < item ==> end < start;
    }
  }
}
