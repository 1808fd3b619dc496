/** One frame of a GIF file: its descriptor, its colour table and its pixels, drawn on a picture. */
module GifFrame {
  import opened Bits
  import opened Gif
  import opened GifRaster
  import opened Grid

  /** A little-endian number of 16 bits. */
  function Word(file: seq<byte>, pos: nat): nat {
    ByteAt(file, pos) + 256 * ByteAt(file, pos + 1)
  }

  /** The frame that the nine bytes of a descriptor describe. */
  function Descriptor(file: seq<byte>, pos: nat, gw: nat, gh: nat): Frame {
    Frame(Word(file, pos), Word(file, pos + 2), Word(file, pos + 4), Word(file, pos + 6), gw, gh,
          ByteAt(file, pos + 8) / 64 % 2 == 1)
  }

  /** The first n colours of the table are the triples of red, green and blue from pos on; one of them
      may be transparent. */
  ghost predicate IsTable(table: seq<Color>, file: seq<byte>, pos: nat, n: nat, transparent: int) {
    && n <= |table|
    && forall i :: 0 <= i < n ==> table[i] == Entry4(file, pos + 3 * i, i == transparent)
  }

  /** How a colour is kept: blue first, with an opacity. */
  function Entry4(file: seq<byte>, pos: nat, transparent: bool): Color {
    Color(ByteAt(file, pos + 2), ByteAt(file, pos + 1), ByteAt(file, pos), if transparent then 0 else 255)
  }

  /** What drawing such a colour shows: red, green and blue as they are in the file, or nothing. */
  lemma PaintsTriple(was: Color, file: seq<byte>, pos: nat)
    ensures Paint(was, Entry4(file, pos, false)) ==
      Color(ByteAt(file, pos), ByteAt(file, pos + 1), ByteAt(file, pos + 2), 255)
    ensures Paint(was, Entry4(file, pos, true)) == was
  {
  }

  /** The picture after a frame: each pixel that has come shows its colour of the table, and all else is
      as it was. */
  ghost predicate Drawn(f: Frame, pic: seq<Color>, was: seq<Color>, table: seq<Color>, pixels: seq<byte>)
    requires |table| == 256
  {
    && |pic| == |was|
    && (forall r, c :: f.Has(r, c) ==> DrawnAt(f, pic, was, table, pixels, r, c))
    && (forall i :: 0 <= i < |pic| && Outside(f, i) ==> pic[i] == was[i])
  }

  ghost predicate DrawnAt(f: Frame, pic: seq<Color>, was: seq<Color>, table: seq<Color>, pixels: seq<byte>,
                          r: nat, c: nat)
    requires |table| == 256 && |pic| == |was|
  {
    var i, t := f.Index(r, c), f.Time(r, c);
    i < |pic| && pic[i] == if t < |pixels| then Paint(was[i], table[pixels[t]]) else was[i]
  }

  /** The colour of a pixel by the bytes of the file. */
  lemma PixelShows(f: Frame, pic: seq<Color>, was: seq<Color>, table: seq<Color>, pixels: seq<byte>, file: seq<byte>,
                   pos: nat, n: nat, transparent: int, r: nat, c: nat)
    requires |table| == 256 && Drawn(f, pic, was, table, pixels) && IsTable(table, file, pos, n, transparent)
    requires f.Has(r, c) && f.Time(r, c) < |pixels| && pixels[f.Time(r, c)] < n
    ensures var i, k: int := f.Index(r, c), pixels[f.Time(r, c)];
      i < |pic| &&
      pic[i] == if k == transparent then was[i]
                else Color(ByteAt(file, pos + 3 * k), ByteAt(file, pos + 3 * k + 1), ByteAt(file, pos + 3 * k + 2), 255)
  {
    hide Frame.Index, Frame.Time, Paint, Entry4, ByteAt;
    assert DrawnAt(f, pic, was, table, pixels, r, c);
    var k: int := pixels[f.Time(r, c)];
    PaintsTriple(was[f.Index(r, c)], file, pos + 3 * k);
  }

  /** The place of a pixel in the picture: its row and column there are those of the frame, moved by the
      corner of the frame. */
  lemma PlaceIs(f: Frame, r: nat, c: nat)
    requires f.Valid() && f.Has(r, c)
    ensures f.Index(r, c) / f.gw == f.y + r && f.Index(r, c) % f.gw == f.x + c
  {
    Cell(f.y + r, f.x + c, f.gw);
  }

  /** What is outside a frame: the rows above and below it, and the columns to its left and right. */
  lemma OutsideIs(f: Frame, i: nat)
    requires f.Valid() && i < f.gw * f.gh
    ensures var r, c := i / f.gw, i % f.gw;
      Outside(f, i) <==> r < f.y || r >= f.y + f.h || c < f.x || c >= f.x + f.w
  {
    hide Frame.Index;
    var r, c := i / f.gw, i % f.gw;
    if f.y <= r < f.y + f.h && f.x <= c < f.x + f.w {
      assert f.Has(r - f.y, c - f.x) && f.Index(r - f.y, c - f.x) == i by {
        IndexIs(f, i);
      }
    } else {
      forall s, d | f.Has(s, d) ensures f.Index(s, d) != i {
        PlaceIs(f, s, d);
      }
    }
  }

  lemma IndexIs(f: Frame, i: nat)
    requires f.gw > 0 && i / f.gw >= f.y && i % f.gw >= f.x
    ensures f.Index(i / f.gw - f.y, i % f.gw - f.x) == i
  {
  }

  /** The pixels of a row come from left to right, before those of rows that come later. */
  lemma TimeIs(f: Frame, r: nat, c: nat, s: nat, d: nat)
    requires f.Has(r, c) && f.Has(s, d)
    ensures f.Time(r, c) < f.Time(s, d) <==>
      Rank(f.h, f.interlaced, r) < Rank(f.h, f.interlaced, s) || (r == s && c < d)
  {
    hide Rank;
    var a, b := Rank(f.h, f.interlaced, r), Rank(f.h, f.interlaced, s);
    Places(a, c, b, d, f.w);
    Places(b, d, a, c, f.w);
    if a == b {
      RankInjective(f.h, f.interlaced, r, s);
    }
  }

  /** Read n triples. */
  method ParseColorTable(s: Context, pal: array<Color>, n: nat, transparent: int)
    requires s.pos <= |s.file| && n <= pal.Length
    modifies s, pal
    ensures s.pos == Clip(s.file, old(s.pos) + 3 * n) <= |s.file|
    ensures IsTable(pal[..], s.file, old(s.pos), n, transparent)
    ensures forall i :: n <= i < pal.Length ==> pal[i] == old(pal[i])
  {
    ghost var pos := s.pos;
    for i := 0 to n
      invariant s.pos == Clip(s.file, pos + 3 * i)
      invariant IsTable(pal[..], s.file, pos, i, transparent)
      invariant forall j :: i <= j < pal.Length ==> pal[j] == old(pal[j])
    {
      var red := s.Get8();
      var green := s.Get8();
      var blue := s.Get8();
      pal[i] := Color(blue, green, red, if transparent == i then 0 else 255);
    }
  }

  method Get16le(s: Context) returns (w: nat)
    requires s.pos <= |s.file|
    modifies s
    ensures w == Word(s.file, old(s.pos)) && s.pos == Clip(s.file, old(s.pos) + 2) <= |s.file|
  {
    var low := s.Get8();
    var high := s.Get8();
    w := low + 256 * high as int;
  }

  /** The number of colours in a table, and whether the frame has one of its own. */
  function TableSize(flags: byte): nat {
    Shl(2, flags % 8)
  }

  predicate HasTable(flags: byte) {
    flags / 128 == 1
  }

  lemma SmallTable(flags: byte)
    ensures 2 <= TableSize(flags) <= 256
  {
    ShlTimes(2, flags % 8);
    Pow2Mono(flags % 8, 7);
    Pow2Values();
  }

  /** Where the raster of the frame begins whose descriptor is at pos. */
  function RasterAt(file: seq<byte>, pos: nat): nat {
    var flags := ByteAt(file, pos + 8);
    Clip(file, pos + 9 + if HasTable(flags) then 3 * TableSize(flags) else 0)
  }

  /** Reading that has come to the end of the file goes on with zeros. */
  lemma ClipWord(file: seq<byte>, pos: nat, n: nat)
    ensures ByteAt(file, Clip(file, pos)) == ByteAt(file, pos) && Word(file, Clip(file, pos)) == Word(file, pos)
    ensures Clip(file, Clip(file, pos) + n) == Clip(file, pos + n) && Clip(file, pos) <= |file|
    ensures Clip(file, pos) < |file| ==> Clip(file, pos + 1) == Clip(file, pos) + 1
    ensures Clip(file, pos) >= |file| ==> Clip(file, pos + 1) == Clip(file, pos)
  {
  }

  lemma ClipTable(file: seq<byte>, pos: nat, n: nat, table: seq<Color>, transparent: int)
    requires IsTable(table, file, Clip(file, pos), n, transparent)
    ensures IsTable(table, file, pos, n, transparent)
    ensures Clip(file, Clip(file, pos) + 3 * n) == Clip(file, pos + 3 * n)
  {
  }

  lemma ShownIsDrawn(f: Frame, pic: seq<Color>, marks: seq<byte>, was: seq<Color>, table: seq<Color>, pixels: seq<byte>)
    requires f.Valid() && |table| == 256 && |pic| == |marks| == |was| == f.gw * f.gh
    requires Shows(f, pic, marks, was, table, pixels)
    ensures Drawn(f, pic, was, table, pixels)
  {
    hide Frame.Index, Frame.Time, Paint;
    forall r, c | f.Has(r, c) ensures DrawnAt(f, pic, was, table, pixels, r, c) {
      assert ShowsAt(f, pic, marks, was, table, pixels, r, c);
    }
  }

  /** Draw the frame that comes next on a picture of gw by gh pixels. It fails exactly if it does not fit
      in the picture, if there is no colour table or if its raster is wrong; otherwise the pixels of the
      raster are drawn with the table of the frame, or with that of the file if it has none. */
  method ReadImage(s: Context, pic: array<Color>, gw: nat, gh: nat, global: array<Color>, hasGlobal: bool,
                   transparent: int)
      returns (ok: bool, ghost table: seq<Color>)
    requires s.pos <= |s.file| && pic.Length == gw * gh && global.Length == 256 && pic != global
    modifies s, pic
    ensures var f, flags := Descriptor(s.file, old(s.pos), gw, gh), ByteAt(s.file, old(s.pos) + 8);
      var raster := Raster(s.file, RasterAt(s.file, old(s.pos)));
      && (ok <==> f.Valid() && (HasTable(flags) || hasGlobal) && raster.Some?)
      && (ok ==> |table| == 256 && Drawn(f, pic[..], old(pic[..]), table, raster.value))
      && (ok && HasTable(flags) ==> IsTable(table, s.file, old(s.pos) + 9, TableSize(flags), transparent))
      && (ok && !HasTable(flags) ==> table == global[..])
  {
    hide Raster, IsTable, Drawn, ByteAt, TableSize, HasTable, Clip, Descriptor, Frame.Valid;
    ghost var pos, file := s.pos, s.file;
    table := [];
    var f, flags := ReadDescriptor(s, gw, gh);
    ClipWord(file, pos + 9, 0);
    if !f.Valid() {
      return false, table;
    }
    var colors := global;
    if HasTable(flags) {
      SmallTable(flags);
      colors := new Color[256];
      ParseColorTable(s, colors, TableSize(flags), transparent);
      ClipTable(file, pos + 9, TableSize(flags), colors[..], transparent);
    } else if !hasGlobal {
      return false, table;
    }
    table := colors[..];
    ok := Draw(s, f, pic, colors);
  }

  /** The nine bytes of a descriptor: the frame and its flags. */
  method ReadDescriptor(s: Context, gw: nat, gh: nat) returns (f: Frame, flags: byte)
    requires s.pos <= |s.file|
    modifies s
    ensures f == Descriptor(s.file, old(s.pos), gw, gh) && flags == ByteAt(s.file, old(s.pos) + 8)
    ensures s.pos == Clip(s.file, old(s.pos) + 9) <= |s.file| && f.gw == gw && f.gh == gh
  {
    hide Clip, ByteAt, Word;
    ghost var pos, file := s.pos, s.file;
    ClipWord(file, pos + 2, 2);
    ClipWord(file, pos + 4, 2);
    ClipWord(file, pos + 6, 2);
    ClipWord(file, pos + 8, 1);
    ClipWord(file, pos + 9, 0);
    var x := Get16le(s);
    var y := Get16le(s);
    var w := Get16le(s);
    var h := Get16le(s);
    flags := s.Get8();
    f := Frame(x, y, w, h, gw, gh, flags / 64 % 2 == 1);
  }

  /** Draw the raster that comes next. */
  method Draw(s: Context, f: Frame, pic: array<Color>, colors: array<Color>) returns (ok: bool)
    requires s.pos <= |s.file| && f.Valid() && pic.Length == f.gw * f.gh && colors.Length == 256 && pic != colors
    modifies s, pic
    ensures ok <==> Raster(s.file, old(s.pos)).Some?
    ensures ok ==> Drawn(f, pic[..], old(pic[..]), colors[..], Raster(s.file, old(s.pos)).value)
  {
    hide Raster, Shows, Drawn;
    var g := new Gif(f, pic, colors);
    ok := g.ProcessRaster(s);
    if ok {
      assert g.pixels == Raster(s.file, old(s.pos)).value;
      ShownIsDrawn(f, pic[..], g.history[..], g.before, colors[..], g.pixels);
    }
  }
}
