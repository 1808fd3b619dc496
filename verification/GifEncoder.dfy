/** What an encoder of Appendix F of the GIF89a specification writes: a clear code, codes of
    strings, and an end code. Each string that has been written, with the first pixel of the next
    one, is a new entry of its dictionary, which the decoder can know only one code later. */
module GifEncoder {
  import opened Bits
  import opened Gif
  import opened GifLzw
  import opened Options

  /** Entry k of the encoder's dictionary when the strings ws have been cut off the image. */
  function EntryOf(ws: seq<Pixels>, k: nat): Pixels
    requires k + 1 < |ws|
  {
    ws[k] + [ws[k + 1][0]]
  }

  /** The code can be written for string i: it stands for that single pixel, or for an entry, which may
      be the one that ends with the first pixel of this string. */
  predicate IsCodeFor(cs: nat, ws: seq<Pixels>, i: nat, code: nat)
    requires i < |ws|
  {
    || (code < Pow2(cs) && ws[i] == [code % 256])
    || (FirstFree(cs) <= code < FirstFree(cs) + i && ws[i] == EntryOf(ws, code - FirstFree(cs)))
  }

  /** The least number of bits from w on, but at most 12, for a number. */
  function Least(n: nat, w: Width): (r: Width)
    ensures r >= w && (r > w ==> r <= 12 && n >= Pow2(r - 1)) && (r < 12 ==> n < Pow2(r))
    decreases 12 - w
  {
    if w >= 12 || n < Pow2(w) then w else Least(n, w + 1)
  }

  /** The width of the i-th code after a clear code: there is a place for the entry before last. */
  function WidthAt(cs: nat, i: nat): Width {
    if i == 0 then cs + 1 else Least(FirstFree(cs) + i - 1, cs + 1)
  }

  /** The data hold the codes from the i-th on at p. */
  predicate Written(cs: nat, data: seq<byte>, p: nat, codes: seq<nat>, i: nat)
    requires i <= |codes|
    decreases |codes| - i
  {
    i == |codes| ||
    (p + WidthAt(cs, i) <= 8 * |data| && Lsb(data, p, WidthAt(cs, i)) == codes[i]
     && Written(cs, data, p + WidthAt(cs, i), codes, i + 1))
  }

  /** Where they end. */
  function WrittenEnd(cs: nat, p: nat, codes: seq<nat>, i: nat): nat
    requires i <= |codes|
    decreases |codes| - i
  {
    if i == |codes| then p else WrittenEnd(cs, p + WidthAt(cs, i), codes, i + 1)
  }

  function Concat(ws: seq<Pixels>): seq<byte> {
    if ws == [] then [] else Concat(ws[..|ws| - 1]) + ws[|ws| - 1]
  }

  /** The entries that a decoder has after i codes. */
  function Entries(ws: seq<Pixels>, i: nat): (r: seq<Pixels>)
    requires i <= |ws|
    ensures |r| == if i == 0 then 0 else i - 1
  {
    if i == 0 then [] else seq(i - 1, k requires 0 <= k < i - 1 => EntryOf(ws, k))
  }

  /** A decoder after i of the strings, if there was this before them. */
  predicate Follows(cs: nat, ws: seq<Pixels>, i: nat, st: State, base: seq<byte>)
    requires i <= |ws|
  {
    && st.cleared && st.table == Entries(ws, i) && st.width == WidthAt(cs, i)
    && st.prev == (if i == 0 then None else Some(ws[i - 1])) && st.out == base + Concat(ws[..i])
  }

  /** The decoder finds the string of a code, also of the one that it is only about to add. */
  lemma FindsString(cs: nat, ws: seq<Pixels>, i: nat, code: nat)
    requires i < |ws| && IsCodeFor(cs, ws, i, code)
    ensures NextString(cs, Entries(ws, i), if i == 0 then None else Some(ws[i - 1]), code) == Some(ws[i])
  {
  }

  /** One more number needs one more bit just when it is a power of two. */
  lemma {:induction false} LeastNext(n: nat, v: Width)
    requires n >= 1 && v <= 12
    ensures var w := Least(n - 1, v);
      w <= 12 && Least(n, v) == (if w < 12 && n == Pow2(w) then w + 1 else w) && (w < 12 ==> n <= Pow2(w))
    decreases 12 - v
  {
    Pow2Next(v);
    if v < 12 && n > Pow2(v) {
      LeastNext(n, v + 1);
    }
  }

  lemma WidthGrows(cs: nat, i: nat)
    requires 1 <= cs <= 11
    ensures var n, w := FirstFree(cs) + i, WidthAt(cs, i);
      w <= 12 && WidthAt(cs, i + 1) == (if w < 12 && n == Pow2(w) then w + 1 else w) && (w < 12 ==> n <= Pow2(w))
  {
    if i == 0 {
      Pow2Next(cs);
      Pow2Mono(1, cs);
      LeastNext(FirstFree(cs), cs + 1);
      assert Pow2(1) == 2;
      FirstWidth(cs);
    } else {
      LeastNext(FirstFree(cs) + i, cs + 1);
    }
  }

  lemma FirstWidth(cs: nat)
    requires 1 <= cs <= 11
    ensures Least(FirstFree(cs) - 1, cs + 1) == cs + 1
  {
    Pow2Next(cs);
    Pow2Mono(1, cs);
    assert Pow2(1) == 2;
  }

  lemma NextWidthAt(cs: nat, i: nat)
    requires 1 <= cs <= 11
    ensures NextWidth(WidthAt(cs, i), FirstFree(cs) + i) == WidthAt(cs, i + 1)
  {
    hide WidthAt, Pow2, Low;
    WidthGrows(cs, i);
    SameWidth(WidthAt(cs, i), FirstFree(cs) + i);
    assert Pow2(12) == 4096 by {
      Pow2Values();
    }
  }

  /** Reading the code of a string goes one string further. */
  lemma StepFollows(cs: nat, ws: seq<Pixels>, i: nat, code: nat, st: State, base: seq<byte>)
    requires 1 <= cs <= 11 && i < |ws| <= MostCodes(cs) && IsCodeFor(cs, ws, i, code) && Follows(cs, ws, i, st, base)
    ensures Step(cs, st, code).Go? && Follows(cs, ws, i + 1, Step(cs, st, code).state, base)
  {
    hide NextString, NextWidth, WidthAt, Pow2;
    Pow2Values();
    Pow2Mono(cs, 11);
    FindsString(cs, ws, i, code);
    NextWidthAt(cs, i);
    EntriesNext(ws, i);
    ConcatNext(ws, i, base);
  }

  lemma EntriesNext(ws: seq<Pixels>, i: nat)
    requires i < |ws|
    ensures Entries(ws, i + 1) == if i == 0 then [] else Entries(ws, i) + [ws[i - 1] + [ws[i][0]]]
  {
  }

  lemma ConcatNext(ws: seq<Pixels>, i: nat, base: seq<byte>)
    requires i < |ws|
    ensures base + Concat(ws[..i + 1]) == base + Concat(ws[..i]) + ws[i]
  {
    assert ws[..i + 1][..i] == ws[..i];
  }

  /** Reading all codes that are written comes to their end, with all strings. */
  lemma {:induction false} RunFollows(cs: nat, data: seq<byte>, p: nat, ws: seq<Pixels>, codes: seq<nat>, i: nat,
                                      st: State, base: seq<byte>) returns (end: State)
    requires 1 <= cs <= 11 && i <= |ws| == |codes| <= MostCodes(cs)
    requires forall k :: i <= k < |ws| ==> IsCodeFor(cs, ws, k, codes[k])
    requires Written(cs, data, p, codes, i) && Follows(cs, ws, i, st, base)
    ensures Follows(cs, ws, |ws|, end, base)
    ensures Run(cs, data, p, st) == Run(cs, data, WrittenEnd(cs, p, codes, i), end)
    decreases |ws| - i
  {
    hide IsCodeFor, Step, WidthAt, Lsb;
    if i == |ws| {
      end := st;
    } else {
      StepFollows(cs, ws, i, codes[i], st, base);
      WidthIs(cs, ws, i, st, base);
      end := RunFollows(cs, data, p + WidthAt(cs, i), ws, codes, i + 1, Step(cs, st, codes[i]).state, base);
    }
  }

  lemma WidthIs(cs: nat, ws: seq<Pixels>, i: nat, st: State, base: seq<byte>)
    requires i <= |ws| && Follows(cs, ws, i, st, base)
    ensures st.width == WidthAt(cs, i)
  {
  }

  // ----- Images -----

  /** The strings between two clear codes, and their codes. */
  datatype Segment = Segment(strings: seq<Pixels>, codes: seq<nat>) {
    predicate Valid(cs: nat) {
      && |strings| == |codes| <= MostCodes(cs)
      && forall k :: 0 <= k < |strings| ==> IsCodeFor(cs, strings, k, codes[k])
    }
  }

  /** Each segment follows a clear code, which has the width that the codes before it have grown to,
      and an end code follows the last. */
  predicate Encoded(cs: nat, data: seq<byte>, p: nat, w: Width, segments: seq<Segment>)
    decreases |segments|
  {
    && p + w <= 8 * |data|
    && if segments == [] then Lsb(data, p, w) == Pow2(cs) + 1
       else
         var codes := segments[0].codes;
         && segments[0].Valid(cs) && Lsb(data, p, w) == Pow2(cs) && Written(cs, data, p + w, codes, 0)
         && Encoded(cs, data, WrittenEnd(cs, p + w, codes, 0), WidthAt(cs, |codes|), segments[1..])
  }

  function AllPixels(segments: seq<Segment>): seq<byte>
    decreases |segments|
  {
    if segments == [] then [] else Concat(segments[0].strings) + AllPixels(segments[1..])
  }

  /** Decoding inverts encoding, whatever strings the encoder has cut the image into and wherever it has
      put clear codes, as long as there are not too many codes between them. */
  lemma {:induction false} EncodedDecodes(cs: nat, data: seq<byte>, p: nat, st: State, segments: seq<Segment>)
    requires 1 <= cs <= 11 && Encoded(cs, data, p, st.width, segments)
    ensures Run(cs, data, p, st) == Some(st.out + AllPixels(segments))
    decreases |segments|
  {
    hide Segment.Valid, Written, Lsb, Pow2, Step, Run, WrittenEnd, WidthAt, Concat, MostCodes;
    if segments == [] {
      LastCode(cs, data, p, st);
      assert st.out + [] == st.out;
    } else {
      var s := segments[0];
      SegmentCodes(cs, s);
      var end := SegmentDecodes(cs, data, p, st, s);
      EncodedDecodes(cs, data, WrittenEnd(cs, p + st.width, s.codes, 0), end, segments[1..]);
      assert st.out + Concat(s.strings) + AllPixels(segments[1..]) == st.out + AllPixels(segments);
    }
  }

  lemma LastCode(cs: nat, data: seq<byte>, p: nat, st: State)
    requires p + st.width <= 8 * |data| && Lsb(data, p, st.width) == Pow2(cs) + 1
    ensures Run(cs, data, p, st) == Some(st.out)
  {
  }

  /** A clear code and the codes of a segment come to their end with its pixels. */
  lemma SegmentDecodes(cs: nat, data: seq<byte>, p: nat, st: State, s: Segment) returns (end: State)
    requires 1 <= cs <= 11 && s.Valid(cs) && |s.strings| == |s.codes|
    requires p + st.width <= 8 * |data| && Lsb(data, p, st.width) == Pow2(cs)
    requires Written(cs, data, p + st.width, s.codes, 0)
    ensures end.width == WidthAt(cs, |s.codes|) && end.out == st.out + Concat(s.strings)
    ensures Run(cs, data, p, st) == Run(cs, data, WrittenEnd(cs, p + st.width, s.codes, 0), end)
  {
    hide *;
    var next := AfterClear(cs, data, p, st, s.strings);
    SegmentCodes(cs, s);
    end := RunFollows(cs, data, p + st.width, s.strings, s.codes, 0, next, st.out);
    SegmentEnd(cs, s.strings, end, st.out);
  }

  lemma AfterClear(cs: nat, data: seq<byte>, p: nat, st: State, ws: seq<Pixels>) returns (next: State)
    requires p + st.width <= 8 * |data| && Lsb(data, p, st.width) == Pow2(cs)
    ensures Run(cs, data, p, st) == Run(cs, data, p + st.width, next) && Follows(cs, ws, 0, next, st.out)
  {
    next := st.(table := [], prev := None, width := cs + 1, cleared := true);
    assert Step(cs, st, Pow2(cs)) == Go(next);
    Cleared(cs, ws, next, st.out);
  }

  lemma SegmentCodes(cs: nat, s: Segment)
    requires s.Valid(cs)
    ensures |s.strings| == |s.codes| <= MostCodes(cs)
    ensures forall k :: 0 <= k < |s.strings| ==> IsCodeFor(cs, s.strings, k, s.codes[k])
  {
  }

  lemma Cleared(cs: nat, ws: seq<Pixels>, st: State, base: seq<byte>)
    requires st.cleared && st.table == [] && st.prev == None && st.width == cs + 1 && st.out == base
    ensures Follows(cs, ws, 0, st, base)
  {
    assert ws[..0] == [];
  }

  lemma SegmentEnd(cs: nat, ws: seq<Pixels>, st: State, base: seq<byte>)
    requires Follows(cs, ws, |ws|, st, base)
    ensures st.width == WidthAt(cs, |ws|) && st.out == base + Concat(ws)
  {
    assert ws[..|ws|] == ws;
  }

  /** Any image can be cut into single pixels, each with its own code. */
  lemma SinglePixels(cs: nat, pixels: seq<byte>)
    requires |pixels| <= MostCodes(cs) && forall k :: 0 <= k < |pixels| ==> pixels[k] < Pow2(cs)
    ensures var ws := seq(|pixels|, k requires 0 <= k < |pixels| => One(pixels[k]));
      var codes := seq(|pixels|, k requires 0 <= k < |pixels| => pixels[k] as nat);
      Segment(ws, codes).Valid(cs)
  {
  }

  function One(b: byte): Pixels {
    [b]
  }

  // ----- Files -----

  type Block = b: seq<byte> | 0 < |b| < 256 witness [0]

  /** Data in blocks that each have their length before them, and an empty block. */
  function Packed(blocks: seq<Block>): seq<byte> {
    if blocks == [] then [0] else [|blocks[0]|] + blocks[0] + Packed(blocks[1..])
  }

  function Unpacked(blocks: seq<Block>): seq<byte> {
    if blocks == [] then [] else blocks[0] + Unpacked(blocks[1..])
  }

  /** The file has these bytes at pos. */
  predicate FileHas(file: seq<byte>, pos: nat, s: seq<byte>) {
    pos + |s| <= |file| && file[pos..pos + |s|] == s
  }

  lemma HasParts(file: seq<byte>, pos: nat, s: seq<byte>, t: seq<byte>)
    requires FileHas(file, pos, s + t)
    ensures FileHas(file, pos, s) && FileHas(file, pos + |s|, t)
  {
    assert s == (s + t)[..|s|] && t == (s + t)[|s|..];
    assert file[pos..pos + |s| + |t|][..|s|] == file[pos..pos + |s|];
    assert file[pos..pos + |s| + |t|][|s|..] == file[pos + |s|..pos + |s| + |t|];
  }

  lemma {:induction false} PendingIs(file: seq<byte>, pos: nat, s: seq<byte>)
    requires FileHas(file, pos, s)
    ensures Pending(file, pos, |s|) == s + SubBlocks(file, pos + |s|)
    decreases |s|
  {
    hide SubBlocks;
    if s == [] {
      assert s + SubBlocks(file, pos) == SubBlocks(file, pos);
    } else {
      assert [s[0]] + s[1..] == s;
      HasParts(file, pos, [s[0]], s[1..]);
      PendingIs(file, pos + 1, s[1..]);
      assert file[pos] == file[pos..pos + |s|][0] == s[0];
      assert [s[0]] + (s[1..] + SubBlocks(file, pos + |s|)) == s + SubBlocks(file, pos + |s|);
    }
  }

  lemma FirstBlock(file: seq<byte>, pos: nat, b: Block, rest: seq<byte>)
    requires FileHas(file, pos, [|b| as byte] + b + rest)
    ensures var next := pos + 1 + |b|;
      && FileHas(file, next, rest)
      && SubBlocks(file, pos) == b + SubBlocks(file, next) && BlocksEnd(file, pos) == BlocksEnd(file, next)
  {
    HasParts(file, pos, [|b|] + b, rest);
    HasParts(file, pos, [|b|], b);
    assert file[pos] == file[pos..pos + 1][0] == |b|;
    PendingIs(file, pos + 1, b);
  }

  /** Reading the blocks gives the data, however they have been cut, and ends where they end. */
  lemma {:induction false} BlocksRead(file: seq<byte>, pos: nat, blocks: seq<Block>)
    requires FileHas(file, pos, Packed(blocks))
    ensures SubBlocks(file, pos) == Unpacked(blocks)
    ensures BlocksEnd(file, pos) == pos + |Packed(blocks)|
    decreases |blocks|
  {
    if blocks == [] {
      assert file[pos] == file[pos..pos + 1][0] == 0;
    } else {
      hide SubBlocks, BlocksEnd;
      FirstBlock(file, pos, blocks[0], Packed(blocks[1..]));
      BlocksRead(file, pos + 1 + |blocks[0]|, blocks[1..]);
    }
  }

  /** The raster of a file to which an encoder has written an image gives back the image. */
  lemma RasterRead(file: seq<byte>, pos: nat, cs: byte, blocks: seq<Block>, segments: seq<Segment>)
    requires 1 <= cs <= 11 && Encoded(cs, Unpacked(blocks), 0, cs + 1, segments)
    requires FileHas(file, pos, [cs] + Packed(blocks))
    ensures Raster(file, pos) == Some(AllPixels(segments))
  {
    hide SubBlocks, BlocksEnd, Run, Encoded, AllPixels, Packed, Unpacked;
    HasParts(file, pos, [cs], Packed(blocks));
    assert file[pos] == file[pos..pos + 1][0] == cs;
    PackedSome(blocks);
    BlocksRead(file, pos + 1, blocks);
    EncodedDecodes(cs, Unpacked(blocks), 0, Initial(cs), segments);
    assert [] + AllPixels(segments) == AllPixels(segments);
  }

  lemma PackedSome(blocks: seq<Block>)
    ensures |Packed(blocks)| > 0
  {
  }
}
