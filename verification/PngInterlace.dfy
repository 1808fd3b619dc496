/** Putting the passes of an interlaced PNG image together. */
module PngInterlace {
  import opened Adam7
  import opened Bits
  import opened Options
  import opened Png
  import opened PngFilters
  import opened Seqs

  type Rows = seq<seq<byte>>

  // ----- Where pixels are stored -----

  /** The first byte of a pixel in an image that is width pixels wide. */
  function At(width: nat, outN: nat, x: nat, y: nat): nat {
    Times(Times(y, width) + x, outN)
  }

  lemma {:induction false} TimesMono(a: nat, b: nat, n: nat)
    requires a < b
    ensures Times(a, n) + n <= Times(b, n)
    decreases b
  {
    if a + 1 < b {
      TimesMono(a, b - 1, n);
    }
  }

  lemma InImage(width: nat, height: nat, outN: nat, x: nat, y: nat)
    requires x < width && y < height
    ensures At(width, outN, x, y) + outN <= Times(Times(height, width), outN)
  {
    hide Times;
    TimesMono(y, height, width);
    TimesMono(Times(y, width) + x, Times(height, width), outN);
  }

  /** Different pixels do not overlap. */
  lemma Apart(width: nat, outN: nat, x: nat, y: nat, x': nat, y': nat)
    requires x < width && x' < width && (x != x' || y != y')
    ensures At(width, outN, x, y) + outN <= At(width, outN, x', y')
      || At(width, outN, x', y') + outN <= At(width, outN, x, y)
  {
    hide Times;
    if y < y' {
      TimesMono(y, y', width);
    } else if y' < y {
      TimesMono(y', y, width);
    }
    var a, b := Times(y, width) + x, Times(y', width) + x';
    if a < b {
      TimesMono(a, b, outN);
    } else {
      TimesMono(b, a, outN);
    }
  }

  lemma Distributes(a: nat, b: nat, c: nat, n: nat)
    ensures (a * b + c) * n == a * (b * n) + c * n
  {
    assert (a * b) * n == a * (b * n);
  }

  /** The same place counted in rows. */
  lemma AtInRows(width: nat, outN: nat, x: nat, y: nat)
    ensures At(width, outN, x, y) == Times(y, Times(width, outN)) + Times(x, outN)
  {
    hide Times;
    TimesIs(y, width);
    TimesIs(Times(y, width) + x, outN);
    TimesIs(width, outN);
    TimesIs(y, Times(width, outN));
    TimesIs(x, outN);
    Distributes(y, width, x, outN);
  }

  function PixelAt(s: seq<byte>, width: nat, outN: nat, x: nat, y: nat): seq<byte> {
    if At(width, outN, x, y) + outN <= |s| then s[At(width, outN, x, y)..At(width, outN, x, y) + outN] else []
  }

  /** Copy one pixel to its place. */
  method PutPixel(final: array<byte>, width: nat, ghost height: nat, outN: nat, x: nat, y: nat, from: array<byte>,
                  at: nat)
    requires x < width && y < height && final.Length == Times(Times(height, width), outN)
    requires from != final && at + outN <= from.Length
    modifies final
    ensures PixelAt(final[..], width, outN, x, y) == from[at..at + outN]
    ensures forall x', y' :: 0 <= x' < width && 0 <= y' < height && (x' != x || y' != y) ==>
      PixelAt(final[..], width, outN, x', y') == old(PixelAt(final[..], width, outN, x', y'))
  {
    hide Times;
    InImage(width, height, outN, x, y);
    ghost var was := final[..];
    var to := At(width, outN, x, y);
    var k := 0;
    while k < outN
      invariant 0 <= k <= outN
      invariant final[to..to + k] == from[at..at + k]
      invariant final[..to] == was[..to] && final[to + outN..] == was[to + outN..]
    {
      final[to + k] := from[at + k];
      k := k + 1;
    }
    forall x', y' | 0 <= x' < width && 0 <= y' < height && (x' != x || y' != y)
      ensures PixelAt(final[..], width, outN, x', y') == PixelAt(was, width, outN, x', y')
    {
      Apart(width, outN, x, y, x', y');
      InImage(width, height, outN, x', y');
      Untouched(final[..], was, to, outN, At(width, outN, x', y'), outN);
    }
  }

  lemma Untouched(s: seq<byte>, was: seq<byte>, to: nat, n: nat, at: nat, m: nat)
    requires |s| == |was| && to + n <= |s| && at + m <= |s| && (at + m <= to || to + n <= at)
    requires s[..to] == was[..to] && s[to + n..] == was[to + n..]
    ensures s[at..at + m] == was[at..at + m]
  {
    if at + m <= to {
      assert s[at..at + m] == s[..to][at..at + m] && was[at..at + m] == was[..to][at..at + m];
    } else {
      Nested(s, to + n, |s|, at - to - n, at - to - n + m);
      Nested(was, to + n, |s|, at - to - n, at - to - n + m);
      assert s[to + n..] == s[to + n..|s|] && was[to + n..] == was[to + n..|s|];
    }
  }

  // ----- What the image shows -----

  /** A pixel of a row, with alpha if there is one to add. */
  function PixelOf(row: seq<byte>, n: nat, outN: nat, i: nat): seq<byte> {
    if Times(i, n) + n <= |row| then row[Times(i, n)..Times(i, n) + n] + (if outN == n then [] else [255]) else []
  }

  /** The pixel shown at x and y is its pixel in its pass. */
  ghost predicate Shown(s: seq<byte>, width: nat, n: nat, outN: nat, images: seq<Rows>, x: nat, y: nat) {
    var p := PassOf(x, y);
    && p < |images| && RowIn(p, y) < |images[p]|
    && PixelAt(s, width, outN, x, y) == PixelOf(images[p][RowIn(p, y)], n, outN, ColumnIn(p, x))
  }

  /** The pixels that come before pixel i of row j of pass p. */
  predicate Earlier(p: nat, j: nat, i: nat, x: nat, y: nat) {
    var q := PassOf(x, y);
    q < p || (q == p && (RowIn(q, y) < j || (RowIn(q, y) == j && ColumnIn(q, x) < i)))
  }

  ghost predicate ShownUpTo(s: seq<byte>, width: nat, height: nat, n: nat, outN: nat, images: seq<Rows>,
                            p: nat, j: nat, i: nat) {
    forall x: nat, y: nat :: x < width && y < height && Earlier(p, j, i, x, y) ==>
      Shown(s, width, n, outN, images, x, y)
  }

  /** One more pixel, and all others as before. */
  lemma PixelPut(s: seq<byte>, was: seq<byte>, width: nat, height: nat, n: nat, outN: nat, images: seq<Rows>,
                 p: Pass, j: nat, i: nat)
    requires ShownUpTo(was, width, height, n, outN, images, p, j, i)
    requires Column(p, i) < width && Row(p, j) < height && p < |images| && j < |images[p]|
    requires PixelAt(s, width, outN, Column(p, i), Row(p, j)) == PixelOf(images[p][j], n, outN, i)
    requires forall x', y' :: 0 <= x' < width && 0 <= y' < height && (x' != Column(p, i) || y' != Row(p, j)) ==>
      PixelAt(s, width, outN, x', y') == PixelAt(was, width, outN, x', y')
    ensures ShownUpTo(s, width, height, n, outN, images, p, j, i + 1)
  {
    hide PassOf, Column, Row, ColumnIn, RowIn, PixelAt, PixelOf;
    PlaceIs(p, i, j);
    forall x: nat, y: nat | x < width && y < height && Earlier(p, j, i + 1, x, y)
      ensures Shown(s, width, n, outN, images, x, y)
    {
      PassHas(x, y);
      if x != Column(p, i) || y != Row(p, j) {
        assert Earlier(p, j, i, x, y);
        assert Shown(was, width, n, outN, images, x, y);
      }
    }
  }

  lemma RowDone(s: seq<byte>, width: nat, height: nat, n: nat, outN: nat, images: seq<Rows>, p: Pass, j: nat)
    requires ShownUpTo(s, width, height, n, outN, images, p, j, Across(p, width))
    ensures ShownUpTo(s, width, height, n, outN, images, p, j + 1, 0)
  {
    hide PassOf, Column, Row, ColumnIn, RowIn, Shown, Across, Down;
    forall x: nat, y: nat | x < width && y < height && Earlier(p, j + 1, 0, x, y)
      ensures Shown(s, width, n, outN, images, x, y)
    {
      OnePlace(width, height, x, y);
      assert Earlier(p, j, Across(p, width), x, y);
    }
  }

  lemma PassDone(s: seq<byte>, width: nat, height: nat, n: nat, outN: nat, images: seq<Rows>, p: Pass, j: nat)
    requires ShownUpTo(s, width, height, n, outN, images, p, j, 0)
    requires j >= Down(p, height) || Across(p, width) == 0
    ensures ShownUpTo(s, width, height, n, outN, images, p + 1, 0, 0)
  {
    hide PassOf, Column, Row, ColumnIn, RowIn, Shown, Across, Down;
    forall x: nat, y: nat | x < width && y < height && Earlier(p + 1, 0, 0, x, y)
      ensures Shown(s, width, n, outN, images, x, y)
    {
      OnePlace(width, height, x, y);
      assert Earlier(p, j, 0, x, y);
    }
  }

  lemma MoreImages(s: seq<byte>, width: nat, height: nat, n: nat, outN: nat, images: seq<Rows>, rows: Rows)
    requires ShownUpTo(s, width, height, n, outN, images, |images|, 0, 0)
    ensures ShownUpTo(s, width, height, n, outN, images + [rows], |images|, 0, 0)
  {
    hide PassOf, RowIn, ColumnIn, PixelAt, PixelOf;
    forall x: nat, y: nat | x < width && y < height && Earlier(|images|, 0, 0, x, y)
      ensures Shown(s, width, n, outN, images + [rows], x, y)
    {
      assert Shown(s, width, n, outN, images, x, y);
    }
  }

  // ----- The passes -----

  ghost predicate IsPass(rows: Rows, n: nat, w: nat, h: nat) {
    |rows| == h && forall r :: 0 <= r < h ==> |rows[r]| == Times(w, n)
  }

  lemma StoredPixel(s: seq<byte>, rows: Rows, n: nat, outN: nat, w: nat, h: nat, i: nat, j: nat)
    requires n > 0 && (outN == n || outN == n + 1) && IsPass(rows, n, w, h) && i < w && j < h
    requires s == Stored(rows, n, outN)
    ensures At(w, outN, i, j) + outN <= |s| && Times(i, n) + n <= |rows[j]|
    ensures s[At(w, outN, i, j)..At(w, outN, i, j) + outN] == PixelOf(rows[j], n, outN, i)
  {
    hide Times, Stored, At;
    AtInRows(w, outN, i, j);
    var at := At(w, outN, i, j);
    ImagePixel(rows, n, outN, w, j, i, outN - 1);
    var pixel := PixelOf(rows[j], n, outN, i);
    forall k | 0 <= k < outN ensures s[at..at + outN][k] == pixel[k] {
      ImagePixel(rows, n, outN, w, j, i, k);
    }
  }

  /** Copy the pixels of one pass to their places. */
  method CopyPass(final: array<byte>, width: nat, height: nat, n: nat, outN: nat, p: Pass, from: array<byte>,
                  ghost images: seq<Rows>)
    requires n > 0 && (outN == n || outN == n + 1) && from != final && |images| == p + 1
    requires final.Length == Times(Times(height, width), outN)
    requires IsPass(images[p], n, Across(p, width), Down(p, height)) && from[..] == Stored(images[p], n, outN)
    requires ShownUpTo(final[..], width, height, n, outN, images, p, 0, 0)
    modifies final
    ensures ShownUpTo(final[..], width, height, n, outN, images, p + 1, 0, 0)
  {
    hide Times, PassOf, Column, Adam7.Row, Across, Down, ShownUpTo, At, Stored, PixelAt, PixelOf;
    var x, y := Across(p, width), Down(p, height);
    ghost var stored := from[..];
    var j := 0;
    while j < y
      invariant 0 <= j <= y && ShownUpTo(final[..], width, height, n, outN, images, p, j, 0)
      invariant from[..] == stored
    {
      var i := 0;
      while i < x
        invariant 0 <= i <= x && ShownUpTo(final[..], width, height, n, outN, images, p, j, i)
        invariant from[..] == stored
      {
        SizeIs(p, width, height, i, j);
        StoredPixel(stored, images[p], n, outN, x, y, i, j);
        ghost var was := final[..];
        PutPixel(final, width, height, outN, Column(p, i), Adam7.Row(p, j), from, At(x, outN, i, j));
        PixelPut(final[..], was, width, height, n, outN, images, p, j, i);
        i := i + 1;
      }
      RowDone(final[..], width, height, n, outN, images, p, j);
      j := j + 1;
    }
    PassDone(final[..], width, height, n, outN, images, p, j);
  }

  /** The rows of the passes from p on; a pass without pixels takes no bytes. */
  function Passes(raw: seq<byte>, width: nat, height: nat, n: nat, p: nat): Option<seq<Rows>>
    requires n > 0
    decreases 7 - p
  {
    if p >= 7 then Some([])
    else
      var w, h := Across(p, width), Down(p, height);
      if w == 0 || h == 0 then Prepend([], Passes(raw, width, height, n, p + 1))
      else
        match Image(raw, Zeros(Times(w, n)), n, h)
        case None => None
        case Some(rows) => Prepend(rows, Passes(PassEnd(raw, w, h, n), width, height, n, p + 1))
  }

  function Prepend(rows: Rows, rest: Option<seq<Rows>>): Option<seq<Rows>> {
    match rest
    case None => None
    case Some(more) => Some([rows] + more)
  }

  /** What comes after the bytes of a pass. */
  function PassEnd(raw: seq<byte>, w: nat, h: nat, n: nat): seq<byte> {
    var used := Times(h, Times(w, n) + 1);
    if used <= |raw| then raw[used..] else []
  }

  function Joins(images: seq<Rows>, rest: Option<seq<Rows>>): Option<seq<Rows>> {
    match rest
    case None => None
    case Some(more) => Some(images + more)
  }

  lemma Nothing(s: seq<byte>, width: nat, height: nat, n: nat, outN: nat)
    ensures ShownUpTo(s, width, height, n, outN, [], 0, 0, 0)
  {
  }

  lemma NoPasses(passes: Option<seq<Rows>>)
    ensures Joins([], passes) == passes
  {
    if passes.Some? {
      assert [] + passes.value == passes.value;
    }
  }

  lemma NoneLeft(raw: seq<byte>, width: nat, height: nat, n: nat)
    requires n > 0
    ensures Passes(raw, width, height, n, 7) == Some([])
  {
  }

  lemma NextPass(raw: seq<byte>, width: nat, height: nat, n: nat, p: Pass, images: seq<Rows>)
    requires n > 0
    ensures var w, h := Across(p, width), Down(p, height);
      if w == 0 || h == 0 then
        Joins(images, Passes(raw, width, height, n, p)) == Joins(images + [[]], Passes(raw, width, height, n, p + 1))
      else
        match Image(raw, Zeros(Times(w, n)), n, h)
        case None => Joins(images, Passes(raw, width, height, n, p)).None?
        case Some(rows) =>
          (Joins(images, Passes(raw, width, height, n, p)) ==
           Joins(images + [rows], Passes(PassEnd(raw, w, h, n), width, height, n, p + 1)))
  {
    hide Times, PassEnd, Image, Zeros, Across, Down;
    var w, h := Across(p, width), Down(p, height);
    if w == 0 || h == 0 {
      Rejoin(images, [], Passes(raw, width, height, n, p + 1));
    } else {
      var image := Image(raw, Zeros(Times(w, n)), n, h);
      if image.Some? {
        Rejoin(images, image.value, Passes(PassEnd(raw, w, h, n), width, height, n, p + 1));
      }
    }
  }

  lemma Rejoin(images: seq<Rows>, rows: Rows, rest: Option<seq<Rows>>)
    ensures Joins(images, Prepend(rows, rest)) == Joins(images + [rows], rest)
  {
    if rest.Some? {
      assert images + ([rows] + rest.value) == images + [rows] + rest.value;
    }
  }

  /** The rows of a pass have its size, and its bytes are there. */
  lemma PassRows(raw: seq<byte>, n: nat, w: nat, h: nat)
    requires n > 0 && Image(raw, Zeros(Times(w, n)), n, h).Some?
    ensures IsPass(Image(raw, Zeros(Times(w, n)), n, h).value, n, w, h)
    ensures Times(h, Times(w, n) + 1) <= |raw|
  {
    hide Times, Image;
    ImageSize(raw, Zeros(Times(w, n)), n, h);
    ImageWidth(raw, Zeros(Times(w, n)), n, h);
  }

  lemma {:induction false} ImageWidth(raw: seq<byte>, prior: seq<byte>, n: nat, h: nat)
    requires n > 0 && Image(raw, prior, n, h).Some?
    ensures var rows := Image(raw, prior, n, h).value;
      |rows| == h && forall r :: 0 <= r < h ==> |rows[r]| == |prior|
    decreases h
  {
    hide Recon;
    if h > 0 {
      var w := |prior|;
      ImageWidth(raw[w + 1..], Recon(raw[0], raw[1..w + 1], prior, n, w), n, h - 1);
    }
  }

  lemma AllShown(s: seq<byte>, width: nat, height: nat, n: nat, outN: nat, images: seq<Rows>, all: Option<seq<Rows>>)
    requires ShownUpTo(s, width, height, n, outN, images, 7, 0, 0) && all == Joins(images, Some([]))
    ensures all == Some(images)
    ensures forall x: nat, y: nat :: x < width && y < height ==> Shown(s, width, n, outN, images, x, y)
  {
    hide PassOf, Shown;
    assert images + [] == images;
    forall x: nat, y: nat | x < width && y < height ensures Shown(s, width, n, outN, images, x, y) {
      assert Earlier(7, 0, 0, x, y);
    }
  }

  /** Reconstruct an image, interlaced or not. */
  method CreateImage(raw: seq<byte>, width: nat, height: nat, n: nat, outN: nat, interlaced: bool)
    returns (ok: bool, final: array<byte>)
    requires n > 0 && width > 0 && height > 0 && (outN == n || outN == n + 1)
    ensures !interlaced ==> (ok <==> Image(raw, Zeros(Times(width, n)), n, height).Some?)
    ensures !interlaced && ok ==> final[..] == Stored(Image(raw, Zeros(Times(width, n)), n, height).value, n, outN)
    ensures interlaced ==> (ok <==> Passes(raw, width, height, n, 0).Some?)
    ensures interlaced && ok ==> forall x: nat, y: nat :: x < width && y < height ==>
      Shown(final[..], width, n, outN, Passes(raw, width, height, n, 0).value, x, y)
  {
    hide Times, PassOf, Across, Down, ShownUpTo, Stored, Image, Zeros, Passes, Shown;
    if !interlaced {
      ok, final := CreateImageRaw(raw, width, height, n, outN);
      return;
    }
    final := new byte[Times(Times(height, width), outN)];
    var imageData := raw;
    ghost var images: seq<Rows> := [];
    var p := 0;
    Nothing(final[..], width, height, n, outN);
    NoPasses(Passes(raw, width, height, n, 0));
    while p < 7
      invariant 0 <= p <= 7 && |images| == p && fresh(final) && final.Length == Times(Times(height, width), outN)
      invariant ShownUpTo(final[..], width, height, n, outN, images, p, 0, 0)
      invariant Passes(raw, width, height, n, 0) == Joins(images, Passes(imageData, width, height, n, p))
    {
      var x, y := Across(p, width), Down(p, height);
      NextPass(imageData, width, height, n, p, images);
      if x > 0 && y > 0 {
        var out;
        ok, out := CreateImageRaw(imageData, x, y, n, outN);
        if !ok {
          return;
        }
        ghost var rows := Image(imageData, Zeros(Times(x, n)), n, y).value;
        PassRows(imageData, n, x, y);
        MoreImages(final[..], width, height, n, outN, images, rows);
        images := images + [rows];
        CopyPass(final, width, height, n, outN, p, out, images);
        imageData := imageData[Times(y, Times(x, n) + 1)..];
      } else {
        MoreImages(final[..], width, height, n, outN, images, []);
        images := images + [[]];
        PassDone(final[..], width, height, n, outN, images, p, 0);
      }
      p := p + 1;
    }
    ok := true;
    NoneLeft(imageData, width, height, n);
    AllShown(final[..], width, height, n, outN, images, Passes(raw, width, height, n, 0));
  }

  // ----- Interlacing -----

  /** The pixels of the passes are those of a picture. */
  ghost predicate Samples(images: seq<Rows>, picture: (nat, nat) -> seq<byte>, width: nat, height: nat, n: nat) {
    |images| == 7 && forall p: Pass, j: nat, i: nat :: j < Down(p, height) && i < Across(p, width) ==>
      j < |images[p]| && PixelOf(images[p][j], n, n, i) == picture(Column(p, i), Adam7.Row(p, j))
  }

  /** Then every pixel of that picture is shown, at its own place. */
  lemma SamplesShown(s: seq<byte>, images: seq<Rows>, picture: (nat, nat) -> seq<byte>, width: nat, height: nat,
                     n: nat, outN: nat, x: nat, y: nat)
    requires n > 0 && (outN == n || outN == n + 1) && x < width && y < height
    requires Samples(images, picture, width, height, n) && Shown(s, width, n, outN, images, x, y)
    requires |picture(x, y)| == n
    ensures PixelAt(s, width, outN, x, y) == picture(x, y) + if outN == n then [] else [255]
  {
    hide PassOf, Column, Adam7.Row, ColumnIn, RowIn, Across, Down, PixelAt, Times;
    OnePlace(width, height, x, y);
    var p := PassOf(x, y);
    var row := images[p][RowIn(p, y)];
    assert PixelOf(row, n, n, ColumnIn(p, x)) == picture(x, y);
  }

  /** Where that is byte by byte: the bytes of a pixel lie together, pixel by pixel and row by row. */
  lemma SampleAt(s: seq<byte>, width: nat, outN: nat, x: nat, y: nat, k: nat)
    requires k < |PixelAt(s, width, outN, x, y)|
    ensures 0 <= (y * width + x) * outN + k < |s|
    ensures PixelAt(s, width, outN, x, y)[k] == s[(y * width + x) * outN + k]
  {
    var at, pixel := At(width, outN, x, y), PixelAt(s, width, outN, x, y);
    hide Times;
    TimesIs(y, width);
    TimesIs(y * width + x, outN);
    assert s[at + k] == pixel[k];
  }

  /** What can be encoded as the passes from p on: those without pixels have no rows. */
  predicate Encodable(passes: seq<seq<Line>>, width: nat, height: nat, n: nat, p: nat)
    requires |passes| + p == 7
    decreases |passes|
  {
    passes == [] ||
    var w, h := Across(p, width), Down(p, height);
    && (if w == 0 || h == 0 then passes[0] == [] else |passes[0]| == h && Wide(passes[0], Times(w, n)))
    && Encodable(passes[1..], width, height, n, p + 1)
  }

  function PassesEncoded(passes: seq<seq<Line>>, width: nat, height: nat, n: nat, p: nat): seq<byte>
    requires |passes| + p == 7 && Encodable(passes, width, height, n, p)
    decreases |passes|
  {
    if passes == [] then []
    else Encoded(passes[0], Zeros(Times(Across(p, width), n)), n) + PassesEncoded(passes[1..], width, height, n, p + 1)
  }

  function AllRowsOf(passes: seq<seq<Line>>): seq<Rows> {
    seq(|passes|, q requires 0 <= q < |passes| => PngFilters.Rows(passes[q]))
  }

  lemma {:induction false} EncodedSize(lines: seq<Line>, prior: seq<byte>, n: nat)
    requires Wide(lines, |prior|)
    ensures |Encoded(lines, prior, n)| == Times(|lines|, |prior| + 1)
    decreases |lines|
  {
    hide Times, Filtered;
    if lines == [] {
      TimesNone(|prior| + 1);
    } else {
      EncodedSize(lines[1..], lines[0].bytes, n);
      TimesNext(|lines| - 1, |prior| + 1);
    }
  }

  lemma ZerosSize(w: nat)
    ensures |Zeros(w)| == w
  {
  }

  lemma PrefixGone(a: seq<byte>, b: seq<byte>)
    ensures (a + b)[|a|..] == b
  {
  }

  /** The passes of an interlaced image are those that were encoded. */
  lemma {:induction false} PassesDecoded(passes: seq<seq<Line>>, width: nat, height: nat, n: nat, p: nat)
    requires |passes| + p == 7 && n > 0 && Encodable(passes, width, height, n, p)
    ensures Passes(PassesEncoded(passes, width, height, n, p), width, height, n, p) == Some(AllRowsOf(passes))
    decreases |passes|
  {
    hide Times, Image, Encoded, Across, Down, Wide;
    if passes == [] {
      assert AllRowsOf(passes) == [];
    } else {
      var w, h := Across(p, width), Down(p, height);
      var rest := PassesEncoded(passes[1..], width, height, n, p + 1);
      var raw := PassesEncoded(passes, width, height, n, p);
      PassesDecoded(passes[1..], width, height, n, p + 1);
      assert AllRowsOf(passes) == [PngFilters.Rows(passes[0])] + AllRowsOf(passes[1..]);
      if w == 0 || h == 0 {
        NoLines(passes[0], w, n);
        assert raw == rest;
      } else {
        ZerosSize(Times(w, n));
        hide Zeros;
        var zeros := Zeros(Times(w, n));
        ImageEncoded(passes[0], zeros, n, rest);
        EncodedSize(passes[0], zeros, n);
        PrefixGone(Encoded(passes[0], zeros, n), rest);
      }
    }
  }

  lemma NoLines(lines: seq<Line>, w: nat, n: nat)
    requires lines == []
    ensures Encoded(lines, Zeros(Times(w, n)), n) == [] && PngFilters.Rows(lines) == []
  {
  }
}
