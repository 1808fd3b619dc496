/** The order in which the pixels of a GIF frame arrive (Appendix E of the GIF89a
    specification): row by row, or every eighth row from 0, every eighth from 4, every fourth
    from 2 and every second from 1. */
module GifRaster {
  /** The place of row r among the rows of a frame of height h. */
  function Rank(h: nat, interlaced: bool, r: nat): nat {
    if !interlaced then r else Passed(h, Pass(r)) + Turn(Pass(r), r)
  }

  /** The pass of row r, counted down from 3 to 0 as the decoder does: the first that has it. */
  function Pass(r: nat): nat {
    if RowOf(3, Turn(3, r)) == r then 3 else if RowOf(2, Turn(2, r)) == r then 2
    else if RowOf(1, Turn(1, r)) == r then 1 else 0
  }

  function Spacing(pass: nat): nat {
    if pass >= 2 then 8 else if pass == 1 then 4 else 2
  }

  /** The first row of a pass. */
  function FirstRow(pass: nat): nat {
    if pass >= 3 then 0 else if pass == 2 then 4 else if pass == 1 then 2 else 1
  }

  /** The row of a pass that comes after q others of it. */
  function RowOf(pass: nat, q: nat): nat {
    if pass >= 3 then 8 * q else if pass == 2 then 4 + 8 * q else if pass == 1 then 2 + 4 * q else 1 + 2 * q
  }

  /** How many rows of a pass are above this one of its rows. */
  function Turn(pass: nat, r: nat): nat {
    if pass >= 2 then r / 8 else if pass == 1 then r / 4 else r / 2
  }

  /** How many rows come before the rows of a pass. */
  function Passed(h: nat, pass: nat): nat {
    if pass >= 3 then 0
    else if pass == 2 then (h + 7) / 8
    else if pass == 1 then (h + 7) / 8 + (h + 3) / 8
    else (h + 7) / 8 + (h + 3) / 8 + (h + 1) / 4
  }

  /** The row that comes at a given time. */
  function RowAt(h: nat, interlaced: bool, k: nat): nat {
    if !interlaced then k
    else if k < Passed(h, 2) then RowOf(3, k)
    else if k < Passed(h, 1) then RowOf(2, k - Passed(h, 2))
    else if k < Passed(h, 0) then RowOf(1, k - Passed(h, 1))
    else RowOf(0, k - Passed(h, 0))
  }

  lemma Quarters(r: nat)
    ensures r / 4 == 2 * (r / 8) + if r - 8 * (r / 8) >= 4 then 1 else 0
  {
  }

  lemma Pairs(r: nat)
    ensures r / 2 == 2 * (r / 4) + if r - 4 * (r / 4) >= 2 then 1 else 0
  {
  }

  /** Row q of a pass belongs to that pass. */
  lemma PassOfRow(pass: nat, q: nat)
    requires pass <= 3
    ensures Pass(RowOf(pass, q)) == pass && Turn(pass, RowOf(pass, q)) == q
  {
    var r := RowOf(pass, q);
    Quarters(r);
    Pairs(r);
  }

  /** It is in the frame just when its time is before those of the next pass. */
  lemma PassSize(h: nat, pass: nat, q: nat)
    requires pass <= 3
    ensures RowOf(pass, q) < h <==> Passed(h, pass) + q < if pass == 0 then h else Passed(h, pass - 1)
  {
    if pass == 0 {
      AllPasses(h);
    }
  }

  lemma AllPasses(h: nat)
    ensures (h + 7) / 8 + (h + 3) / 8 + (h + 1) / 4 + h / 2 == h
  {
    var q := h / 8;
    var k := h - 8 * q;
    Quarters(h);
    Pairs(h);
    assert (h + 7) / 8 == q + if k >= 1 then 1 else 0;
    assert (h + 3) / 8 == q + if k >= 5 then 1 else 0;
    assert (h + 1) / 4 == 2 * q + if k >= 7 then 2 else if k >= 3 then 1 else 0;
  }

  lemma RowInPass(r: nat)
    ensures Pass(r) <= 3 && r == RowOf(Pass(r), Turn(Pass(r), r))
  {
    Quarters(r);
    Pairs(r);
  }

  /** Every row of the frame comes once: its time is below the height, and the row that comes
      at that time is the row itself. */
  lemma RankInverse(h: nat, interlaced: bool, r: nat)
    requires r < h
    ensures Rank(h, interlaced, r) < h && RowAt(h, interlaced, Rank(h, interlaced, r)) == r
  {
    hide Pass, RowOf, Turn;
    RowInPass(r);
    PassSize(h, Pass(r), Turn(Pass(r), r));
  }

  /** And every time below the height is the time of some row. */
  lemma RankOnto(h: nat, interlaced: bool, k: nat)
    requires k < h
    ensures RowAt(h, interlaced, k) < h && Rank(h, interlaced, RowAt(h, interlaced, k)) == k
  {
    hide Pass, RowOf, Turn;
    var pass := if k < Passed(h, 2) then 3 else if k < Passed(h, 1) then 2 else if k < Passed(h, 0) then 1 else 0;
    PassOfRow(pass, k - Passed(h, pass));
    PassSize(h, pass, k - Passed(h, pass));
  }

  lemma RankInjective(h: nat, interlaced: bool, r: nat, s: nat)
    requires r < h && s < h && Rank(h, interlaced, r) == Rank(h, interlaced, s)
    ensures r == s
  {
    hide Rank, RowAt;
    RankInverse(h, interlaced, r);
    RankInverse(h, interlaced, s);
  }

  /** How many rows are complete when the decoder is about to draw in this row of this pass. */
  function Complete(h: nat, interlaced: bool, row: nat, pass: nat): nat {
    if !interlaced then row else Passed(h, pass) + Turn(pass, row)
  }

  predicate OnPass(interlaced: bool, row: nat, pass: nat) {
    if interlaced then pass <= 3 && RowOf(pass, Turn(pass, row)) == row else pass == 0
  }

  lemma RowIsNext(h: nat, interlaced: bool, row: nat, pass: nat)
    requires OnPass(interlaced, row, pass) && row < h
    ensures Rank(h, interlaced, row) == Complete(h, interlaced, row, pass)
  {
  }

  function StepRows(interlaced: bool, pass: nat): nat {
    if interlaced then Spacing(pass) else 1
  }

  /** Only interlaced frames have more than one pass. */
  lemma NotInterlaced(interlaced: bool, row: nat, pass: nat)
    requires OnPass(interlaced, row, pass) && pass > 0
    ensures interlaced && StepRows(interlaced, pass) == Spacing(pass)
  {
  }

  lemma RowStep(h: nat, interlaced: bool, row: nat, pass: nat)
    requires OnPass(interlaced, row, pass)
    ensures OnPass(interlaced, row + StepRows(interlaced, pass), pass)
    ensures Complete(h, interlaced, row + StepRows(interlaced, pass), pass) == Complete(h, interlaced, row, pass) + 1
  {
  }

  /** Just past the last row of a pass, the first row of the next pass is next. */
  lemma PassStep(h: nat, row: nat, pass: nat)
    requires OnPass(true, row, pass) && pass > 0 && h <= row < h + Spacing(pass)
    ensures pass <= 3 && OnPass(true, FirstRow(pass - 1), pass - 1)
    ensures FirstRow(pass - 1) < Spacing(pass - 1) == StepRows(true, pass - 1)
    ensures Complete(h, true, FirstRow(pass - 1), pass - 1) == Complete(h, true, row, pass)
  {
  }

  lemma AllComplete(h: nat, interlaced: bool, row: nat)
    requires OnPass(interlaced, row, 0) && h <= row < h + StepRows(interlaced, 0)
    ensures Complete(h, interlaced, row, 0) == h
  {
    if interlaced {
      PassSize(h, 0, row / 2);
      if row >= 2 {
        PassSize(h, 0, row / 2 - 1);
      }
    }
  }

  // ----- The order of the standard -----

  /** Rows come in four groups: every eighth from 0, every eighth from 4, every fourth from 2, and all
      others; and within a group from the top down. */
  lemma OrderIsStandard(h: nat, r: nat, s: nat)
    requires r < h && s < h
    ensures var (a, b) := (
        if r % 8 == 0 then 1 else if r % 8 == 4 then 2 else if r % 4 == 2 then 3 else 4,
        if s % 8 == 0 then 1 else if s % 8 == 4 then 2 else if s % 4 == 2 then 3 else 4);
      Rank(h, true, r) < Rank(h, true, s) <==> a < b || (a == b && r < s)
    ensures Rank(h, false, r) < Rank(h, false, s) <==> r < s
  {
    GroupOf(r);
    GroupOf(s);
    hide Pass;
    InGroup(h, r);
    InGroup(h, s);
  }

  lemma GroupOf(r: nat)
    ensures Pass(r) == 4 - if r % 8 == 0 then 1 else if r % 8 == 4 then 2 else if r % 4 == 2 then 3 else 4
    ensures r == RowOf(Pass(r), Turn(Pass(r), r))
  {
    Quarters(r);
    Pairs(r);
  }

  /** The ranks of a group lie between those of the groups around it. */
  lemma InGroup(h: nat, r: nat)
    requires r < h
    ensures Passed(h, Pass(r)) <= Rank(h, true, r)
    ensures Pass(r) > 0 ==> Rank(h, true, r) < Passed(h, Pass(r) - 1)
    ensures Pass(r) <= 3 && Passed(h, 3) <= Passed(h, 2) <= Passed(h, 1) <= Passed(h, 0)
  {
    GroupOf(r);
  }
}
