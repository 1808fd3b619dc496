/** Decoding the pixels of one GIF frame: codes from sub-blocks, strings from a dictionary of
    prefixes, and drawing in the order of the rows. */
module Gif {
  import opened Bits
  import opened GifLzw
  import opened GifRaster
  import opened Grid
  import opened Options

  // ----- Sub-blocks -----

  /** The bytes of the sub-blocks from pos on, up to one that is empty; bytes past the end of
      the file are zero. */
  function SubBlocks(file: seq<byte>, pos: nat): seq<byte>
    decreases |file| - pos, 0
  {
    var n := ByteAt(file, pos);
    if n == 0 then [] else Pending(file, pos + 1, n)
  }

  /** The rest of a sub-block of which n bytes are left, and those after it. */
  function Pending(file: seq<byte>, pos: nat, n: nat): seq<byte>
    decreases |file| - pos, n + 1
  {
    if n == 0 then SubBlocks(file, pos)
    else [ByteAt(file, pos)] + Pending(file, if pos < |file| then pos + 1 else pos, n - 1)
  }

  /** Where reading stops when the file ends. */
  function Clip(file: seq<byte>, pos: nat): nat {
    if pos < |file| then pos else |file|
  }

  /** Just after the empty sub-block that ends those from pos on. */
  function BlocksEnd(file: seq<byte>, pos: nat): nat
    decreases |file| - pos
  {
    var n := ByteAt(file, pos);
    if n == 0 then Clip(file, pos + 1) else BlocksEnd(file, Clip(file, pos + 1 + n))
  }

  lemma NextBlock(file: seq<byte>, pos: nat)
    ensures Pending(file, pos, 0) == if ByteAt(file, pos) == 0 then [] else Pending(file, pos + 1, ByteAt(file, pos))
    ensures BlocksEnd(file, pos) ==
      if ByteAt(file, pos) == 0 then Clip(file, pos + 1) else BlocksEnd(file, Clip(file, pos + 1 + ByteAt(file, pos)))
  {
  }

  lemma NextPending(file: seq<byte>, pos: nat, n: nat)
    requires pos <= |file|
    ensures Pending(file, pos, n + 1) == [ByteAt(file, pos)] + Pending(file, Clip(file, pos + 1), n)
    ensures Clip(file, pos + 1 + n) == Clip(file, Clip(file, pos + 1) + n)
  {
  }

  /** An input that yields zeros when it is exhausted. */
  class Context {
    const file: seq<byte>
    var pos: nat

    constructor (bytes: seq<byte>)
      ensures file == bytes && pos == 0
    {
      file, pos := bytes, 0;
    }

    method Get8() returns (b: byte)
      modifies this
      ensures b == ByteAt(file, old(pos))
      ensures pos == if old(pos) < |file| then old(pos) + 1 else old(pos)
    {
      if pos < |file| {
        b := file[pos];
        pos := pos + 1;
      } else {
        b := 0;
      }
    }

    method Skip(n: nat)
      modifies this
      ensures pos == old(pos) + n
    {
      pos := pos + n;
    }

    /** The next byte of the sub-blocks, when len bytes of the current one are left. */
    method NextInBlocks(len: nat) returns (more: bool, len': nat, b: byte)
      requires pos <= |file|
      modifies this
      ensures pos <= |file|
      ensures more <==> Pending(file, old(pos), len) != []
      ensures more ==> Pending(file, old(pos), len) == [b] + Pending(file, pos, len')
      ensures BlocksEnd(file, Clip(file, old(pos) + len)) ==
        if more then BlocksEnd(file, Clip(file, pos + len')) else pos
    {
      hide Pending, SubBlocks, BlocksEnd;
      len' := len;
      if len' == 0 {
        NextBlock(file, pos);
        var n := Get8();
        len' := n;
        if len' == 0 {
          return false, 0, 0;
        }
      }
      len' := len' - 1;
      NextPending(file, pos, len');
      b := Get8();
      more := true;
    }

    /** Pass over the rest of the sub-blocks. */
    method EndBlocks(len: nat)
      requires pos <= |file|
      modifies this
      ensures Clip(file, pos) == BlocksEnd(file, Clip(file, old(pos) + len))
    {
      Skip(len);
      var n := Get8();
      while n > 0
        invariant n > 0 ==> pos <= |file|
        invariant BlocksEnd(file, Clip(file, old(pos) + len)) ==
          if n > 0 then BlocksEnd(file, Clip(file, pos + n)) else Clip(file, pos)
        decreases |file| - pos
      {
        Skip(n);
        n := Get8();
      }
    }
  }

  /** The pixels of a frame whose code size is at pos, according to the decoder of GifLzw. */
  function Raster(file: seq<byte>, pos: nat): Option<seq<byte>> {
    var cs := ByteAt(file, pos);
    if cs > 12 then None else Run(cs, SubBlocks(file, Clip(file, pos + 1)), 0, Initial(cs))
  }

  lemma LsbNothing(data: seq<byte>)
    ensures Lsb(data, 0, 0) == 0
  {
  }

  /** Eight more bits above those that are buffered. */
  lemma Refill(data: seq<byte>, f: nat, n: nat)
    requires f < |data| && n <= 8 * f
    ensures Lsb(data, 8 * (f + 1) - (n + 8), n + 8) == Lsb(data, 8 * f - n, n) + Shl(data[f], n)
  {
    hide Lsb, Shl;
    LsbSplit(data, 8 * f - n, n, 8);
    LsbByte(data, f);
  }

  // ----- The picture -----

  datatype Color = Color(c0: byte, c1: byte, c2: byte, c3: byte)

  /** Where a frame lies in the image, and how its rows are ordered. */
  datatype Frame = Frame(x: nat, y: nat, w: nat, h: nat, gw: nat, gh: nat, interlaced: bool) {
    predicate Valid() {
      x + w <= gw && y + h <= gh
    }

    predicate Has(r: nat, c: nat) {
      r < h && c < w
    }

    /** The pixel of the image at row r and column c of the frame. */
    function Index(r: nat, c: nat): nat {
      (y + r) * gw + (x + c)
    }

    /** When that pixel arrives. */
    function Time(r: nat, c: nat): nat {
      Rank(h, interlaced, r) * w + c
    }
  }

  /** A pixel after a colour of the table is drawn on it; transparent ones leave it alone. */
  function Paint(old_: Color, c: Color): Color {
    if c.c3 > 128 then Color(c.c2, c.c1, c.c0, c.c3) else old_
  }

  /** The picture after these pixels have arrived, and which of its pixels are marked as drawn.
      Pixels beyond the size of the frame are ignored. */
  ghost predicate Shows(f: Frame, pic: seq<Color>, marks: seq<byte>, before: seq<Color>, colors: seq<Color>,
                        pixels: seq<byte>)
    requires f.Valid() && |colors| == 256 && |pic| == |marks| == |before| == f.gw * f.gh
  {
    && (forall r, c :: f.Has(r, c) ==> ShowsAt(f, pic, marks, before, colors, pixels, r, c))
    && (forall i :: 0 <= i < |pic| && Outside(f, i) ==> pic[i] == before[i] && marks[i] == 0)
  }

  ghost predicate ShowsAt(f: Frame, pic: seq<Color>, marks: seq<byte>, before: seq<Color>, colors: seq<Color>,
                          pixels: seq<byte>, r: nat, c: nat)
    requires |colors| == 256 && |pic| == |marks| == |before|
  {
    var i, t := f.Index(r, c), f.Time(r, c);
    && i < |pic|
    && pic[i] == (if t < |pixels| then Paint(before[i], colors[pixels[t]]) else before[i])
    && marks[i] == if t < |pixels| then 1 else 0
  }

  ghost predicate Outside(f: Frame, i: nat) {
    forall r, c :: f.Has(r, c) ==> f.Index(r, c) != i
  }

  lemma IndexInImage(f: Frame, r: nat, c: nat)
    requires f.Valid() && f.Has(r, c)
    ensures f.Index(r, c) < f.gw * f.gh
  {
    Inside(f.y + r, f.x + c, f.gw, f.gh);
  }

  lemma SamePlace(f: Frame, r: nat, c: nat, s: nat, d: nat)
    requires f.Valid() && f.Has(r, c) && f.Has(s, d)
    ensures f.Index(r, c) == f.Index(s, d) ==> r == s && c == d
    ensures f.Time(r, c) == f.Time(s, d) ==> r == s && c == d
  {
    hide Rank;
    Places(f.y + r, f.x + c, f.y + s, f.x + d, f.gw);
    Places(Rank(f.h, f.interlaced, r), c, Rank(f.h, f.interlaced, s), d, f.w);
    if Rank(f.h, f.interlaced, r) == Rank(f.h, f.interlaced, s) {
      RankInjective(f.h, f.interlaced, r, s);
    }
  }

  /** Every pixel of the frame comes once, at a time below their number. */
  lemma TimeBelow(f: Frame, r: nat, c: nat)
    requires f.Valid() && f.Has(r, c)
    ensures f.Time(r, c) < f.h * f.w
  {
    hide Rank, RowAt;
    RankInverse(f.h, f.interlaced, r);
    Places(Rank(f.h, f.interlaced, r), c, f.h, 0, f.w);
  }

  lemma ShowsNothing(f: Frame, pic: seq<Color>, marks: seq<byte>, colors: seq<Color>)
    requires f.Valid() && |colors| == 256 && |pic| == |marks| == f.gw * f.gh
    requires forall i :: 0 <= i < |marks| ==> marks[i] == 0
    ensures Shows(f, pic, marks, pic, colors, [])
  {
    hide Frame.Index, Frame.Time;
    forall r, c | f.Has(r, c) ensures ShowsAt(f, pic, marks, pic, colors, [], r, c) {
      IndexInImage(f, r, c);
    }
  }

  /** Drawing the pixel that comes next keeps the picture up to date. */
  lemma ShowsNext(f: Frame, pic: seq<Color>, marks: seq<byte>, before: seq<Color>, colors: seq<Color>,
                  pixels: seq<byte>, r: nat, c: nat, b: byte)
    requires f.Valid() && |colors| == 256 && |pic| == |marks| == |before| == f.gw * f.gh
    requires Shows(f, pic, marks, before, colors, pixels) && f.Has(r, c) && f.Time(r, c) == |pixels|
    ensures f.Index(r, c) < |pic|
    ensures Shows(f, pic[f.Index(r, c) := Paint(pic[f.Index(r, c)], colors[b])], marks[f.Index(r, c) := 1], before,
                  colors, pixels + [b])
  {
    hide Frame.Index, Frame.Time;
    IndexInImage(f, r, c);
    var i := f.Index(r, c);
    var pic', marks', pixels' := pic[i := Paint(pic[i], colors[b])], marks[i := 1], pixels + [b];
    forall s, d | f.Has(s, d) ensures ShowsAt(f, pic', marks', before, colors, pixels', s, d) {
      assert ShowsAt(f, pic, marks, before, colors, pixels, s, d);
      assert ShowsAt(f, pic, marks, before, colors, pixels, r, c);
      SamePlace(f, r, c, s, d);
    }
  }

  /** Pixels that come after the frame is full are not drawn. */
  lemma ShowsFull(f: Frame, pic: seq<Color>, marks: seq<byte>, before: seq<Color>, colors: seq<Color>,
                  pixels: seq<byte>, b: byte)
    requires f.Valid() && |colors| == 256 && |pic| == |marks| == |before| == f.gw * f.gh
    requires Shows(f, pic, marks, before, colors, pixels) && (|pixels| >= f.h * f.w || f.h == 0 || f.w == 0)
    ensures Shows(f, pic, marks, before, colors, pixels + [b])
  {
    hide Frame.Index, Frame.Time;
    forall s, d | f.Has(s, d) ensures ShowsAt(f, pic, marks, before, colors, pixels + [b], s, d) {
      assert ShowsAt(f, pic, marks, before, colors, pixels, s, d);
      TimeBelow(f, s, d);
    }
  }

  // ----- The dictionary -----

  /** One code: the code of all pixels but the last, or -1, its first pixel and its last. */
  datatype Entry = Entry(prefix: int, first: byte, suffix: byte)

  /** The entries below the first free code hold the strings of this table. Every prefix is a
      code with a smaller number than the one it belongs to. */
  ghost predicate Holds(codes: seq<Entry>, cs: nat, table: seq<Pixels>) {
    && FirstFree(cs) + |table| <= |codes|
    && (forall i :: 0 <= i < Pow2(cs) ==> codes[i] == Entry(-1, i % 256, i % 256))
    && (forall j :: 0 <= j < |table| ==> EntryHolds(codes, cs, table, j))
  }

  ghost predicate EntryHolds(codes: seq<Entry>, cs: nat, table: seq<Pixels>, j: nat)
    requires j < |table| && FirstFree(cs) + |table| <= |codes|
  {
    var e := codes[FirstFree(cs) + j];
    && 0 <= e.prefix < FirstFree(cs) + j
    && var s := StringOf(cs, table, e.prefix);
      s.Some? && table[j] == s.value + [e.suffix] && e.first == table[j][0]
  }

  lemma Added(codes: seq<Entry>, cs: nat, table: seq<Pixels>, prefix: nat, first: byte, suffix: byte)
    requires Holds(codes, cs, table) && FirstFree(cs) + |table| < |codes|
    requires StringOf(cs, table, prefix).Some? && first == StringOf(cs, table, prefix).value[0]
    ensures Holds(codes[FirstFree(cs) + |table| := Entry(prefix, first, suffix)], cs,
                  table + [StringOf(cs, table, prefix).value + [suffix]])
  {
    hide Pow2;
    var s: Pixels := StringOf(cs, table, prefix).value + [suffix];
    var codes' := codes[FirstFree(cs) + |table| := Entry(prefix, first, suffix)];
    forall j | 0 <= j < |table| + 1 ensures EntryHolds(codes', cs, table + [s], j) {
      if j < |table| {
        assert EntryHolds(codes, cs, table, j);
      }
    }
  }

  /** What an entry says about the string of its code. */
  lemma EntryString(codes: seq<Entry>, cs: nat, table: seq<Pixels>, code: nat)
    requires Holds(codes, cs, table) && StringOf(cs, table, code).Some?
    ensures code < |codes| && codes[code].first == StringOf(cs, table, code).value[0]
    ensures codes[code].prefix < 0 ==> StringOf(cs, table, code).value == [codes[code].suffix]
    ensures codes[code].prefix >= 0 ==>
      codes[code].prefix < code && StringOf(cs, table, codes[code].prefix).Some?
      && StringOf(cs, table, code).value == StringOf(cs, table, codes[code].prefix).value + [codes[code].suffix]
  {
    hide Pow2;
    if code >= FirstFree(cs) {
      assert EntryHolds(codes, cs, table, code - FirstFree(cs));
    }
  }

  // ----- The cursor -----

  /** The byte offsets that the decoder keeps, as rows and columns. */
  lemma Offsets(f: Frame, r: nat, c: nat)
    requires f.Valid() && f.w > 0
    ensures f.y * (4 * f.gw) + r * (4 * f.gw) >= f.y * (4 * f.gw) + f.h * (4 * f.gw) <==> r >= f.h
    ensures (4 * f.x + 4 * c + (f.y * (4 * f.gw) + r * (4 * f.gw))) / 4 == f.Index(r, c)
  {
    var g := 4 * f.gw;
    if r >= f.h {
      assert r * g >= f.h * g;
    } else {
      assert f.h * g >= (r + 1) * g == r * g + g;
    }
    assert f.y * g + r * g == (f.y + r) * g == 4 * ((f.y + r) * f.gw);
  }

  /** The step of the next pass is its spacing, and half of that is its first row. */
  lemma NextPass(parse: nat, line: nat)
    requires 1 <= parse <= 3
    ensures Shl(1, parse) * line == Spacing(parse - 1) * line
    ensures Shl(1, parse) * line / 2 == FirstRow(parse - 1) * line
  {
    assert Shl(1, 1) == 2 && Shl(1, 2) == 4 && Shl(1, 3) == 8;
  }

  lemma AddLine(a: nat, b: nat, line: nat)
    ensures a * line + b * line == (a + b) * line
  {
  }

  // ----- The decoder -----

  class Gif {
    const codes: array<Entry>
    const out: array<Color>
    const history: array<byte>
    const colorTable: array<Color>

    var parse: nat
    var step: nat
    const startX: nat
    const startY: nat
    const maxX: nat
    const maxY: nat
    var curX: nat
    var curY: nat
    const lineSize: nat

    ghost const frame: Frame
    ghost const before: seq<Color>
    ghost var row: nat
    ghost var col: nat
    ghost var pixels: seq<byte>

    /** Prepare to draw a frame on a picture, as the image descriptor says. */
    constructor (f: Frame, picture: array<Color>, colors: array<Color>)
      requires f.Valid() && picture.Length == f.gw * f.gh && colors.Length == 256 && picture != colors
      ensures out == picture && colorTable == colors && frame == f && before == picture[..] && pixels == []
      ensures fresh(this) && fresh(codes) && fresh(history)
      ensures Drawing()
    {
      var line := 4 * f.gw;
      frame, before, row, col, pixels := f, picture[..], 0, 0, [];
      out, colorTable := picture, colors;
      history := new byte[f.gw * f.gh](_ => 0);
      codes := new Entry[MAX_CODES];
      lineSize := line;
      startX := 4 * f.x;
      startY := f.y * line;
      maxX := 4 * f.x + 4 * f.w;
      maxY := f.y * line + f.h * line;
      curX := 4 * f.x;
      curY := if f.w == 0 then f.y * line + f.h * line else f.y * line;
      if f.interlaced {
        step, parse := 8 * line, 3;
      } else {
        step, parse := line, 0;
      }
      new;
      ShowsNothing(f, out[..], history[..], colorTable[..]);
      Start();
    }

    /** The fixed fields describe the frame. */
    ghost predicate Fits() {
      && frame.Valid() && out.Length == history.Length == |before| == frame.gw * frame.gh
      && colorTable.Length == 256 && out != colorTable && codes.Length == MAX_CODES
      && lineSize == 4 * frame.gw && startX == 4 * frame.x && maxX == 4 * frame.x + 4 * frame.w
      && startY == frame.y * lineSize && maxY == frame.y * lineSize + frame.h * lineSize
    }

    ghost predicate Empty() {
      frame.w == 0 || frame.h == 0
    }

    /** The cursor is in this row, in the pass it belongs to. */
    ghost predicate InRow()
      reads `parse, `step, `curX, `curY, `row, `col
    {
      && OnPass(frame.interlaced, row, parse) && row < frame.h + StepRows(frame.interlaced, parse)
      && curX == startX + 4 * col && curY == frame.y * lineSize + row * lineSize
      && step == StepRows(frame.interlaced, parse) * lineSize
    }

    /** The cursor is at the next pixel of the frame, or below it when all have come. */
    ghost predicate AtNext()
      reads `parse, `step, `curX, `curY, `row, `col, `pixels
    {
      if Empty() then curY >= maxY
      else InRow() && if row < frame.h then col < frame.w && |pixels| == frame.Time(row, col)
                      else |pixels| >= frame.h * frame.w
    }

    ghost predicate Drawing()
      reads this, out, history, colorTable
    {
      Fits() && AtNext() && Shows(frame, out[..], history[..], before, colorTable[..], pixels)
    }

    lemma Start()
      requires Fits() && row == col == 0 && pixels == [] && curX == startX
      requires curY == if frame.w == 0 then maxY else startY
      requires if frame.interlaced then step == 8 * lineSize && parse == 3 else step == lineSize && parse == 0
      ensures AtNext()
    {
    }

    /** Move on to where the pixel after the one just drawn belongs. */
    method Advance()
      requires Fits() && !Empty() && InRow() && row < frame.h && col < frame.w && |pixels| == frame.Time(row, col) + 1
      modifies `curX, `curY, `step, `parse, `row, `col
      ensures AtNext()
    {
      hide Rank, Pass, Spacing, FirstRow, Passed, Complete, OnPass, StepRows;
      RowIsNext(frame.h, frame.interlaced, row, parse);
      curX := curX + 4;
      col := col + 1;
      if curX >= maxX {
        NextRow();
      }
    }

    method StartPass()
      requires Fits() && !Empty() && InRow() && row >= frame.h && col == 0 && parse > 0
      modifies `curY, `step, `parse, `row
      ensures parse == old(parse) - 1 && InRow() && (curY >= maxY <==> row >= frame.h)
      ensures Complete(frame.h, frame.interlaced, row, parse) == old(Complete(frame.h, frame.interlaced, row, parse))
    {
      hide Rank, Pass, Spacing, FirstRow, Passed, Complete, OnPass, StepRows;
      NotInterlaced(frame.interlaced, row, parse);
      PassStep(frame.h, row, parse);
      NextPass(parse, lineSize);
      step := Shl(1, parse) * lineSize;
      curY := startY + step / 2;
      row := FirstRow(parse - 1);
      parse := parse - 1;
      Offsets(frame, row, 0);
    }

    method NextRow()
      requires Fits() && !Empty() && InRow() && row < frame.h && col == frame.w
      requires |pixels| == Complete(frame.h, frame.interlaced, row, parse) * frame.w + frame.w
      modifies `curX, `curY, `step, `parse, `row, `col
      ensures AtNext()
    {
      hide Rank, Pass, Spacing, FirstRow, Passed, Complete, OnPass, StepRows;
      RowStep(frame.h, frame.interlaced, row, parse);
      AddLine(row, StepRows(frame.interlaced, parse), lineSize);
      AddLine(Complete(frame.h, frame.interlaced, row, parse), 1, frame.w);
      curX := startX;
      curY := curY + step;
      row, col := row + StepRows(frame.interlaced, parse), 0;
      Offsets(frame, row, col);
      while curY >= maxY && parse > 0
        invariant InRow() && col == 0 && curX == startX && (curY >= maxY <==> row >= frame.h)
        invariant |pixels| == Complete(frame.h, frame.interlaced, row, parse) * frame.w
        decreases parse
      {
        StartPass();
      }
      if row < frame.h {
        RowIsNext(frame.h, frame.interlaced, row, parse);
      } else {
        AllComplete(frame.h, frame.interlaced, row);
      }
    }

    /** Draw the last pixel of a code's string. */
    method Plot(code: nat)
      requires Drawing() && code < codes.Length
      modifies `curX, `curY, `step, `parse, `row, `col, `pixels, out, history
      ensures Drawing() && pixels == old(pixels) + [codes[code].suffix]
    {
      hide Frame.Time, Frame.Index, Shows, Rank, Pass, Spacing, FirstRow, Passed, Complete, OnPass, StepRows;
      ghost var b := codes[code].suffix;
      BelowEnd();
      if curY >= maxY {
        ShowsFull(frame, out[..], history[..], before, colorTable[..], pixels, b);
        pixels := pixels + [b];
        return;
      }
      ShowsNext(frame, out[..], history[..], before, colorTable[..], pixels, row, col, b);
      Offsets(frame, row, col);
      var idx := curX + curY;
      var c := colorTable[codes[code].suffix];
      history[idx / 4] := 1;
      if c.c3 > 128 {
        out[idx / 4] := Color(c.c2, c.c1, c.c0, c.c3);
      }
      ghost var i := frame.Index(row, col);
      assert history[..] == old(history[..])[i := 1];
      assert out[..] == old(out[..])[i := Paint(old(out[..])[i], c)];
      pixels := pixels + [b];
      Advance();
    }

    lemma BelowEnd()
      requires Fits() && AtNext()
      ensures curY >= maxY <==> Empty() || row >= frame.h
    {
      hide Frame.Time, Frame.Index, Shows, Rank, Pass, Spacing, FirstRow, Passed, Complete, OnPass, StepRows;
      if frame.w > 0 {
        Offsets(frame, row, 0);
      }
    }

    /** Draw the string of a code: first the string of its prefix, then its last pixel. */
    method OutGifCode(code: nat, ghost cs: nat, ghost table: seq<Pixels>)
      requires Drawing() && Holds(codes[..], cs, table) && StringOf(cs, table, code).Some?
      modifies `curX, `curY, `step, `parse, `row, `col, `pixels, out, history
      ensures Drawing() && pixels == old(pixels) + StringOf(cs, table, code).value
      decreases code
    {
      hide Fits, AtNext, Shows, StringOf, Holds;
      EntryString(codes[..], cs, table, code);
      if codes[code].prefix >= 0 {
        OutGifCode(codes[code].prefix, cs, table);
      }
      Plot(code);
    }

    // ----- The codes -----

    /** The variables of the decoding loop agree with a state of the reference decoder. */
    ghost predicate InState(cs: nat, st: State, codesize: nat, avail: nat, oldcode: int, first: bool)
      reads codes
    {
      && codes.Length == MAX_CODES && Holds(codes[..], cs, st.table)
      && codesize == st.width && avail == FirstFree(cs) + |st.table| && first == !st.cleared
      && (oldcode < 0 <==> st.prev.None?) && (oldcode >= 0 ==> StringOf(cs, st.table, oldcode) == st.prev)
    }

    /** Put the string of a new code into the dictionary: the last string and the first pixel of
        the one that this code stands for. */
    method Define(code: nat, avail: nat, oldcode: nat, ghost cs: nat, ghost table: seq<Pixels>, ghost s: Pixels)
      requires codes.Length == MAX_CODES && Holds(codes[..], cs, table) && avail == FirstFree(cs) + |table| < MAX_CODES
      requires StringOf(cs, table, oldcode).Some?
      requires NextString(cs, table, StringOf(cs, table, oldcode), code) == Some(s)
      modifies codes
      ensures Holds(codes[..], cs, table + [StringOf(cs, table, oldcode).value + [s[0]]])
    {
      hide Pow2, Holds;
      EntryString(codes[..], cs, table, oldcode);
      if code < avail {
        EntryString(codes[..], cs, table, code);
      }
      Added(codes[..], cs, table, oldcode, codes[oldcode].first, s[0]);
      ghost var was := codes[..];
      codes[avail] := codes[avail].(prefix := oldcode);
      codes[avail] := codes[avail].(first := codes[oldcode].first);
      // avail has moved on by one before this comparison, so it never holds.
      var from: int := if code == avail + 1 then avail else code;
      codes[avail] := codes[avail].(suffix := codes[from].first);
      assert codes[..] == was[avail := Entry(oldcode, was[oldcode].first, s[0])];
    }

    /** A code that stands for pixels. */
    method StringCode(code: nat, codesize: Width, avail: nat, oldcode: int, ghost cs: nat, ghost st: State)
      returns (ok: bool, codesize': Width, avail': nat)
      requires Drawing() && InState(cs, st, codesize, avail, oldcode, false)
      requires code != Pow2(cs) && code != Pow2(cs) + 1 && code <= avail
      modifies `curX, `curY, `step, `parse, `row, `col, `pixels, out, history, codes
      ensures Drawing()
      ensures ok <==> Step(cs, st, code).Go?
      ensures ok ==> InState(cs, Step(cs, st, code).state, codesize', avail', code, false)
      ensures ok ==> pixels == old(pixels) + NextString(cs, st.table, st.prev, code).value
      ensures !ok ==> pixels == old(pixels)
    {
      codesize', avail' := codesize, avail;
      ghost var table := st.table;
      if oldcode >= 0 {
        avail' := avail + 1;
        if avail' > MAX_CODES {
          return false, codesize', avail';
        }
        ghost var s := NextString(cs, st.table, st.prev, code).value;
        Define(code, avail, oldcode, cs, table, s);
        table := table + [st.prev.value + [s[0]]];
      } else if code == avail {
        return false, codesize', avail';
      }
      OutGifCode(code, cs, table);
      if Low(avail', codesize) == 0 && avail' <= 0x0FFF {
        codesize' := codesize + 1;
      }
      ok := true;
    }

    /** Any code but the one that ends the picture. */
    method TakeCode(code: nat, codesize: Width, avail: nat, oldcode: int, first: bool, cs: nat, ghost st: State,
                    ghost base: seq<byte>)
      returns (more: bool, codesize': Width, avail': nat, oldcode': int, first': bool)
      requires Drawing() && InState(cs, st, codesize, avail, oldcode, first) && code != Pow2(cs) + 1
      requires pixels == base + st.out
      modifies `curX, `curY, `step, `parse, `row, `col, `pixels, out, history, codes
      ensures Drawing()
      ensures more <==> Step(cs, st, code).Go?
      ensures more ==> InState(cs, Step(cs, st, code).state, codesize', avail', oldcode', first')
      ensures more ==> pixels == base + Step(cs, st, code).state.out
    {
      hide Fits, AtNext, Shows, Pow2;
      more, codesize', avail', oldcode', first' := true, codesize, avail, oldcode, first;
      if code == Pow2(cs) {
        codesize', avail', oldcode', first' := cs + 1, Pow2(cs) + 2, -1, false;
      } else if code <= avail {
        if first {
          return false, codesize', avail', oldcode', first';
        }
        more, codesize', avail' := StringCode(code, codesize, avail, oldcode, cs, st);
        oldcode' := code;
      } else {
        more := false;
      }
    }

    /** The strings of the single pixels. */
    method InitCodes(cs: nat)
      requires cs <= 12 && codes.Length == MAX_CODES
      modifies codes
      ensures Holds(codes[..], cs, [])
    {
      Pow2Mono(cs, 12);
      Pow2Values();
      var clear := Pow2(cs);
      for initCode := 0 to clear
        invariant forall i :: 0 <= i < initCode ==> codes[i] == Entry(-1, i % 256, i % 256)
      {
        codes[initCode] := Entry(-1, initCode % 256, initCode % 256);
      }
    }

    /** Draw the frame whose code size and sub-blocks come next in the input: exactly the pixels
        that the decoder defined by Run gives for the bytes of the sub-blocks are drawn, and the
        input ends up after the last of them. */
    method ProcessRaster(s: Context) returns (ok: bool)
      requires Drawing() && s.pos <= |s.file|
      modifies s, `curX, `curY, `step, `parse, `row, `col, `pixels, out, history, codes
      ensures Drawing()
      ensures ok <==> Raster(s.file, old(s.pos)).Some?
      ensures ok ==> pixels == old(pixels) + Raster(s.file, old(s.pos)).value
      ensures ok ==> Clip(s.file, s.pos) == BlocksEnd(s.file, Clip(s.file, old(s.pos) + 1))
    {
      hide AtNext, Shows, Pow2, Low, Lsb, Shl, Shr, Step, SubBlocks, BlocksEnd, Holds;
      ghost var base := pixels;
      var cs := s.Get8();
      if cs > 12 {
        return false;
      }
      InitCodes(cs);
      ok := Decode(s, cs, SubBlocks(s.file, s.pos));
    }

    /** The codes of the sub-blocks. */
    method Decode(s: Context, cs: nat, ghost data: seq<byte>) returns (ok: bool)
      requires Drawing() && s.pos <= |s.file| && codes.Length == MAX_CODES && Holds(codes[..], cs, [])
      requires data == SubBlocks(s.file, s.pos)
      modifies s, `curX, `curY, `step, `parse, `row, `col, `pixels, out, history, codes
      ensures Drawing()
      ensures ok <==> Run(cs, data, 0, Initial(cs)).Some?
      ensures ok ==> pixels == old(pixels) + Run(cs, data, 0, Initial(cs)).value
      ensures ok ==> Clip(s.file, s.pos) == BlocksEnd(s.file, old(s.pos))
    {
      hide Fits, AtNext, Shows, Pow2, Low, Lsb, Shl, Shr, NextString, BlocksEnd, Holds;
      ghost var f: nat, st, base := 0, Initial(cs), pixels;
      var codesize: Width, avail: nat, oldcode: int, first := cs + 1, Pow2(cs) + 2, -1, true;
      var bits: nat, validBits: nat, len: nat := 0, 0, 0;
      LsbNothing(data);
      ghost var end := BlocksEnd(s.file, s.pos);
      while true
        invariant Drawing() && InState(cs, st, codesize, avail, oldcode, first) && pixels == base + st.out
        invariant f <= |data| && validBits <= 8 * f
        invariant Run(cs, data, 0, Initial(cs)) == Run(cs, data, 8 * f - validBits, st)
        invariant s.pos <= |s.file| && data[f..] == Pending(s.file, s.pos, len)
        invariant BlocksEnd(s.file, Clip(s.file, s.pos + len)) == end
        invariant bits == Lsb(data, 8 * f - validBits, validBits)
        decreases |data| - f, validBits
      {
        if validBits < codesize {
          var more, b;
          more, len, b := s.NextInBlocks(len);
          if !more {
            return true;
          }
          Refill(data, f, validBits);
          bits := bits + Shl(b, validBits);
          validBits, f := validBits + 8, f + 1;
        } else {
          LsbParts(data, 8 * f - validBits, codesize, validBits - codesize);
          var code := Low(bits, codesize);
          bits, validBits := Shr(bits, codesize), validBits - codesize;
          if code == Pow2(cs) + 1 {
            s.EndBlocks(len);
            return true;
          }
          var more;
          more, codesize, avail, oldcode, first := TakeCode(code, codesize, avail, oldcode, first, cs, st, base);
          if !more {
            return false;
          }
          st := Step(cs, st, code).state;
        }
      }
    }
  }
}
