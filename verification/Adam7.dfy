/** The seven passes of an interlaced PNG image (section 2.6 of RFC 2083). */
module Adam7 {

  type Pass = p: nat | p < 7

  function XOrig(p: Pass): nat {
    if p == 1 then 4 else if p == 3 then 2 else if p == 5 then 1 else 0
  }

  function YOrig(p: Pass): nat {
    if p == 2 then 4 else if p == 4 then 2 else if p == 6 then 1 else 0
  }

  function XSpc(p: Pass): nat {
    if p <= 1 then 8 else if p <= 3 then 4 else if p <= 5 then 2 else 1
  }

  function YSpc(p: Pass): nat {
    if p <= 2 then 8 else if p <= 4 then 4 else 2
  }

  function Over(m: nat, spc: nat): nat {
    if spc == 8 then m / 8 else if spc == 4 then m / 4 else if spc == 2 then m / 2 else m
  }

  function By(i: nat, spc: nat): nat {
    if spc == 8 then 8 * i else if spc == 4 then 4 * i else if spc == 2 then 2 * i else i
  }

  /** The size of a pass. */
  function Across(p: Pass, width: nat): nat {
    Over(width - XOrig(p) + XSpc(p) - 1, XSpc(p))
  }

  function Down(p: Pass, height: nat): nat {
    Over(height - YOrig(p) + YSpc(p) - 1, YSpc(p))
  }

  /** Where a pixel of a pass is in the image. */
  function Column(p: Pass, i: nat): nat {
    By(i, XSpc(p)) + XOrig(p)
  }

  function Row(p: Pass, j: nat): nat {
    By(j, YSpc(p)) + YOrig(p)
  }

  /** Which pixel of a pass it can be. */
  function ColumnIn(p: Pass, x: nat): nat {
    Over(x, XSpc(p))
  }

  function RowIn(p: Pass, y: nat): nat {
    Over(y, YSpc(p))
  }

  predicate Has(p: Pass, x: nat, y: nat) {
    Column(p, ColumnIn(p, x)) == x && Row(p, RowIn(p, y)) == y
  }

  /** The first pass that has a pixel. */
  function PassOf(x: nat, y: nat): Pass {
    if Has(0, x, y) then 0 else if Has(1, x, y) then 1 else if Has(2, x, y) then 2 else if Has(3, x, y) then 3
    else if Has(4, x, y) then 4 else if Has(5, x, y) then 5 else 6
  }

  lemma CountIs(n: nat, orig: nat, spc: nat, i: nat)
    requires spc == 8 || spc == 4 || spc == 2 || spc == 1
    requires orig < spc
    ensures i < Over(n - orig + spc - 1, spc) <==> By(i, spc) + orig < n
  {
  }

  /** A pixel of a pass is inside the image just when it is inside the size of the pass. */
  lemma SizeIs(p: Pass, width: nat, height: nat, i: nat, j: nat)
    ensures i < Across(p, width) <==> Column(p, i) < width
    ensures j < Down(p, height) <==> Row(p, j) < height
  {
    hide Over, By;
    CountIs(width, XOrig(p), XSpc(p), i);
    CountIs(height, YOrig(p), YSpc(p), j);
  }

  lemma Eighths(x: nat)
    ensures x / 4 == 2 * (x / 8) + if x - 8 * (x / 8) >= 4 then 1 else 0
    ensures x / 2 == 2 * (x / 4) + if x - 4 * (x / 4) >= 2 then 1 else 0
  {
  }

  /** Every pixel is in its pass. */
  lemma PassHas(x: nat, y: nat)
    ensures Has(PassOf(x, y), x, y)
  {
    Eighths(x);
    Eighths(y);
  }

  lemma BackAgain(p: Pass, i: nat, j: nat)
    ensures ColumnIn(p, Column(p, i)) == i && RowIn(p, Row(p, j)) == j
  {
  }

  /** And it is in no other: a pixel of a pass is in that pass, at that place. */
  lemma PlaceIs(p: Pass, i: nat, j: nat)
    ensures ColumnIn(p, Column(p, i)) == i && RowIn(p, Row(p, j)) == j
    ensures PassOf(Column(p, i), Row(p, j)) == p
  {
    BackAgain(p, i, j);
    if p > 0 {
      NoEarlierPass(p, i, j);
    }
  }

  lemma NoEarlierPass(p: Pass, i: nat, j: nat)
    ensures forall q: Pass :: q < p ==> !Has(q, Column(p, i), Row(p, j))
  {
    hide Column, Row, ColumnIn, RowIn;
    forall q: Pass | q < p ensures !Has(q, Column(p, i), Row(p, j)) {
      if p % 2 == 1 {
        ColumnsApart(q, p, ColumnIn(q, Column(p, i)), i);
      } else {
        RowsApart(q, p, RowIn(q, Row(p, j)), j);
      }
    }
  }

  /** The first, third and fifth pass have columns that no pass before them has, */
  lemma ColumnsApart(q: Pass, p: Pass, k: nat, i: nat)
    requires q < p && p % 2 == 1
    ensures Column(q, k) != Column(p, i)
  {
  }

  /** and the others have such rows. */
  lemma RowsApart(q: Pass, p: Pass, k: nat, j: nat)
    requires q < p && p % 2 == 0
    ensures Row(q, k) != Row(p, j)
  {
  }

  /** Every pixel of the image is one pixel of one pass. */
  lemma OnePlace(width: nat, height: nat, x: nat, y: nat)
    requires x < width && y < height
    ensures var p := PassOf(x, y);
      var i, j := ColumnIn(p, x), RowIn(p, y);
      i < Across(p, width) && j < Down(p, height) && Column(p, i) == x && Row(p, j) == y
    ensures forall p: Pass, i: nat, j: nat :: Column(p, i) == x && Row(p, j) == y ==>
      p == PassOf(x, y) && i == ColumnIn(p, x) && j == RowIn(p, y)
  {
    hide PassOf, Column, Row, ColumnIn, RowIn, Across, Down;
    PassHas(x, y);
    var p := PassOf(x, y);
    SizeIs(p, width, height, ColumnIn(p, x), RowIn(p, y));
    forall p: Pass, i: nat, j: nat | Column(p, i) == x && Row(p, j) == y
      ensures p == PassOf(x, y) && i == ColumnIn(p, x) && j == RowIn(p, y)
    {
      PlaceIs(p, i, j);
    }
  }

  lemma Sides(n: nat)
    ensures (n + 7) / 8 + (n + 3) / 8 == (n + 3) / 4
    ensures (n + 3) / 4 + (n + 1) / 4 == (n + 1) / 2
    ensures (n + 1) / 2 + n / 2 == n
  {
    Eighths(n + 3);
    Eighths(n + 1);
  }

  function Rect(a: nat, b: nat): nat {
    a * b
  }

  lemma RectsJoin(a: nat, b: nat, c: nat)
    ensures Rect(a, c) + Rect(b, c) == Rect(a + b, c) && Rect(c, a) + Rect(c, b) == Rect(c, a + b)
  {
  }

  /** Halving the sides in turn, with what is cut off each time. */
  lemma SevenRects(w8: nat, w4: nat, w2: nat, w: nat, h8: nat, h4: nat, h2: nat, h: nat)
    requires w8 <= w4 <= w2 <= w && h8 <= h4 <= h2 <= h
    ensures Rect(w8, h8) + Rect(w4 - w8, h8) + Rect(w4, h4 - h8) + Rect(w2 - w4, h4) + Rect(w2, h2 - h4)
      + Rect(w - w2, h2) + Rect(w, h - h2) == Rect(w, h)
  {
    hide Rect;
    RectsJoin(w8, w4 - w8, h8);
    RectsJoin(h8, h4 - h8, w4);
    RectsJoin(w4, w2 - w4, h4);
    RectsJoin(h4, h2 - h4, w2);
    RectsJoin(w2, w - w2, h2);
    RectsJoin(h2, h - h2, w);
  }

  function Area(p: Pass, width: nat, height: nat): nat {
    Rect(Across(p, width), Down(p, height))
  }

  lemma Widths(n: nat)
    ensures Across(0, n) == (n + 7) / 8 && Across(1, n) == (n + 3) / 8 && Across(2, n) == (n + 3) / 4
    ensures Across(3, n) == (n + 1) / 4 && Across(4, n) == (n + 1) / 2 && Across(5, n) == n / 2 && Across(6, n) == n
  {
  }

  lemma Heights(n: nat)
    ensures Down(0, n) == (n + 7) / 8 && Down(1, n) == (n + 7) / 8 && Down(2, n) == (n + 3) / 8
    ensures Down(3, n) == (n + 3) / 4 && Down(4, n) == (n + 1) / 4 && Down(5, n) == (n + 1) / 2 && Down(6, n) == n / 2
  {
  }

  /** The areas of the passes add up to that of the image. */
  lemma AreasAddUp(width: nat, height: nat)
    ensures Area(0, width, height) + Area(1, width, height) + Area(2, width, height) + Area(3, width, height)
      + Area(4, width, height) + Area(5, width, height) + Area(6, width, height) == Rect(width, height)
  {
    hide Rect, Across, Down;
    Sides(width);
    Sides(height);
    Widths(width);
    Heights(height);
    SevenRects((width + 7) / 8, (width + 3) / 4, (width + 1) / 2, width,
               (height + 7) / 8, (height + 3) / 4, (height + 1) / 2, height);
  }

  /** Row j of the square of 8 by 8 pixels that the specification draws, with the pass of each. */
  function PatternRow(j: nat): (r: seq<nat>)
    ensures |r| == 8
  {
    if j == 0 then [1, 6, 4, 6, 2, 6, 4, 6]
    else if j == 4 then [3, 6, 4, 6, 3, 6, 4, 6]
    else if j == 2 || j == 6 then [5, 6, 5, 6, 5, 6, 5, 6]
    else [7, 7, 7, 7, 7, 7, 7, 7]
  }

  /** Which columns and rows a pass has. */
  lemma HasIff(p: Pass, x: nat, y: nat)
    ensures Has(p, x, y) <==>
      if p == 0 then x % 8 == 0 && y % 8 == 0
      else if p == 1 then x % 8 == 4 && y % 8 == 0
      else if p == 2 then x % 4 == 0 && y % 8 == 4
      else if p == 3 then x % 4 == 2 && y % 4 == 0
      else if p == 4 then x % 2 == 0 && y % 4 == 2
      else if p == 5 then x % 2 == 1 && y % 2 == 0
      else y % 2 == 1
  {
    HasCoordinate(x);
    HasCoordinate(y);
  }

  lemma HasCoordinate(x: nat)
    ensures 8 * (x / 8) == x <==> x % 8 == 0
    ensures (8 * (x / 8)) + 4 == x <==> x % 8 == 4
    ensures 4 * (x / 4) == x <==> x % 4 == 0
    ensures (4 * (x / 4)) + 2 == x <==> x % 4 == 2
    ensures 2 * (x / 2) == x <==> x % 2 == 0
    ensures (2 * (x / 2)) + 1 == x <==> x % 2 == 1
  {
  }

  /** The square repeats over the whole picture. */
  lemma PassIsDrawn(x: nat, y: nat)
    ensures PassOf(x, y) + 1 == PatternRow(y % 8)[x % 8]
  {
    hide Has;
    HasIff(0, x, y);
    HasIff(1, x, y);
    HasIff(2, x, y);
    HasIff(3, x, y);
    HasIff(4, x, y);
    HasIff(5, x, y);
    HasIff(6, x, y);
    Residues(x);
    Residues(y);
  }

  lemma Residues(x: nat)
    ensures x % 4 == if x % 8 < 4 then x % 8 else x % 8 - 4
    ensures x % 2 == if x % 4 < 2 then x % 4 else x % 4 - 2
  {
    HalfRest(x / 4, x % 4, x / 8, x % 8, 4);
    HalfRest(x / 2, x % 2, x / 4, x % 4, 2);
  }

  /** The rests of one number by m and by twice m. */
  lemma HalfRest(a: nat, r: nat, b: nat, s: nat, m: nat)
    requires r < m && s < 2 * m && m * a + r == 2 * m * b + s
    ensures r == if s < m then s else s - m
  {
    var d: int := a - 2 * b;
    assert m * d == s - r;
    assert d >= 2 ==> m * d >= m * 2;
    assert d <= -1 ==> m * d + m <= 0;
    assert d == 0 || d == 1;
  }
}
