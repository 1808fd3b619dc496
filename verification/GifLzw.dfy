/** Variable-width LZW as GIF uses it (Appendix F of the GIF89a specification): the standard
    decoder, with at most 4096 codes, and the decoder with the limits of this library. */
module GifLzw {
  import opened Bits
  import opened Options

  /** How many codes there can be before decoding fails. */
  const MAX_CODES: nat := 8192

  type Pixels = s: seq<byte> | s != [] witness [0]
  type Width = w: nat | w >= 1 witness 1

  /** What follows from a code. */
  datatype Next = Go(state: State) | Finished | Wrong

  /** The strings of codes FirstFree(cs) and above, the string of the last code, the width of
      the next one, whether there has been a clear code, and the pixels so far. */
  datatype State = State(table: seq<Pixels>, prev: Option<Pixels>, width: Width, cleared: bool, out: seq<byte>)

  /** The first code that can stand for a string of two or more pixels. */
  function FirstFree(cs: nat): nat {
    Pow2(cs) + 2
  }

  function Initial(cs: nat): State {
    State([], None, cs + 1, false, [])
  }

  /** The pixels that a code stands for. */
  function StringOf(cs: nat, table: seq<Pixels>, code: nat): Option<Pixels> {
    if code < Pow2(cs) then Some([code % 256])
    else if FirstFree(cs) <= code < FirstFree(cs) + |table| then Some(table[code - FirstFree(cs)])
    else None
  }

  /** The same where a code may also stand for the string that is about to be added. */
  function NextString(cs: nat, table: seq<Pixels>, prev: Option<Pixels>, code: nat): Option<Pixels> {
    if prev.Some? && code == FirstFree(cs) + |table| then Some(prev.value + [prev.value[0]])
    else StringOf(cs, table, code)
  }

  // ----- This library's decoder -----

  /** The width after a code: one more when the next free code is a multiple of 2^width. */
  function NextWidth(width: Width, avail: nat): Width {
    if Low(avail, width) == 0 && avail <= 0x0FFF then width + 1 else width
  }

  function Step(cs: nat, st: State, code: nat): Next {
    if code == Pow2(cs) then Go(st.(table := [], prev := None, width := cs + 1, cleared := true))
    else if code == Pow2(cs) + 1 then Finished
    else
      match NextString(cs, st.table, st.prev, code)
      case None => Wrong
      case Some(s) =>
        var avail := FirstFree(cs) + |st.table|;
        if !st.cleared then Wrong
        else if st.prev.None? then
          Go(st.(prev := Some(s), width := NextWidth(st.width, avail), out := st.out + s))
        else if avail >= MAX_CODES then Wrong
        else
          Go(st.(table := st.table + [st.prev.value + [s[0]]], prev := Some(s),
                 width := NextWidth(st.width, avail + 1), out := st.out + s))
  }

  /** Decode codes from bit p of the data on; None if one of them is wrong. Running out of data
      is an end like any other. */
  function Run(cs: nat, data: seq<byte>, p: nat, st: State): Option<seq<byte>>
    decreases 8 * |data| - p
  {
    if p + st.width > 8 * |data| then Some(st.out)
    else
      match Step(cs, st, Lsb(data, p, st.width))
      case Wrong => None
      case Finished => Some(st.out)
      case Go(next) => Run(cs, data, p + st.width, next)
  }

  /** How many codes there can be between two clear codes. */
  function MostCodes(cs: nat): nat {
    if Pow2(cs) < MAX_CODES then MAX_CODES - 1 - Pow2(cs) else 0
  }

  // ----- The standard decoder -----

  /** In the standard a code has at most twelve bits, the width grows when the next free code
      does not fit, a full table stays as it is, and a decoder starts as after a clear code. */
  function StandardWidth(width: Width, avail: nat): Width {
    if avail == Pow2(width) && width < 12 then width + 1 else width
  }

  function StandardStep(cs: nat, st: State, code: nat): Next {
    if code == Pow2(cs) then Go(st.(table := [], prev := None, width := cs + 1, cleared := true))
    else if code == Pow2(cs) + 1 then Finished
    else
      match NextString(cs, st.table, st.prev, code)
      case None => Wrong
      case Some(s) =>
        var table :=
          if st.prev.None? || FirstFree(cs) + |st.table| >= 4096 then st.table
          else st.table + [st.prev.value + [s[0]]];
        Go(st.(table := table, prev := Some(s), width := StandardWidth(st.width, FirstFree(cs) + |table|),
               out := st.out + s))
  }

  function StandardRun(cs: nat, data: seq<byte>, p: nat, st: State): Option<seq<byte>>
    decreases 8 * |data| - p
  {
    if p + st.width > 8 * |data| then Some(st.out)
    else
      match StandardStep(cs, st, Lsb(data, p, st.width))
      case Wrong => None
      case Finished => Some(st.out)
      case Go(next) => StandardRun(cs, data, p + st.width, next)
  }

  /** No more than `most` codes follow each other without a clear code; `run` have so far. */
  predicate ShortRuns(cs: nat, data: seq<byte>, p: nat, st: State, run: nat, most: nat)
    decreases 8 * |data| - p
  {
    if p + st.width > 8 * |data| then true
    else
      var code := Lsb(data, p, st.width);
      match StandardStep(cs, st, code)
      case Go(next) =>
        var run' := if code == Pow2(cs) then 0 else run + 1;
        run' <= most && ShortRuns(cs, data, p + st.width, next, run', most)
      case _ => true
  }

  // ----- Where the two agree -----

  /** After a clear code, the tables agree below 4096 codes, and all else agrees. */
  ghost predicate InStep(cs: nat, st: State, std: State, run: nat) {
    && st.cleared && st.prev == std.prev && st.width == std.width && st.out == std.out
    && (run == 0 <==> st.prev.None?) && |st.table| == (if run == 0 then 0 else run - 1)
    && |std.table| <= |st.table| && std.table == st.table[..|std.table|]
    && (|std.table| == |st.table| <==> FirstFree(cs) + |st.table| <= 4096)
    && (FirstFree(cs) + |st.table| > 4096 ==> FirstFree(cs) + |std.table| == 4096)
    && st.width <= 12
    && (st.width < 12 ==> FirstFree(cs) + |st.table| < Pow2(st.width) + (if run == 0 then 1 else 0))
  }

  lemma {:induction false} LowZero(x: nat, n: nat)
    requires 0 < x <= Pow2(n)
    ensures Low(x, n) == 0 <==> x == Pow2(n)
  {
    if x == Pow2(n) {
      LowPeriod(0, n);
      LowSmall(0, n);
    } else {
      LowSmall(x, n);
    }
  }

  /** The rule for the width is the standard's. */
  lemma SameWidth(width: Width, avail: nat)
    requires width <= 12 && avail > 0 && (width < 12 ==> avail <= Pow2(width))
    ensures NextWidth(width, avail) == StandardWidth(width, if avail > 4096 then 4096 else avail)
    ensures NextWidth(width, avail) <= 12
    ensures NextWidth(width, avail) < 12 ==> avail < Pow2(NextWidth(width, avail))
  {
    Pow2Values();
    if avail <= Pow2(width) {
      LowZero(avail, width);
      if width < 12 {
        Pow2Mono(width, 11);
      }
    }
  }

  lemma SameString(cs: nat, st: State, std: State, run: nat, code: nat)
    requires InStep(cs, st, std, run) && code < 4096
    ensures NextString(cs, st.table, st.prev, code) == NextString(cs, std.table, std.prev, code)
  {
  }

  lemma Pow2Next(n: nat)
    ensures Pow2(n + 1) == 2 * Pow2(n)
  {
  }

  lemma ClearInStep(cs: nat, st: State, std: State, run: nat)
    requires 1 <= cs <= 11 && InStep(cs, st, std, run)
    ensures InStep(cs, Step(cs, st, Pow2(cs)).state, StandardStep(cs, std, Pow2(cs)).state, 0)
  {
    hide NextString, Pow2;
    Pow2Values();
    Pow2Mono(1, cs);
    Pow2Mono(cs, 11);
    Pow2Next(cs);
  }

  /** The first string after a clear code changes no table. */
  lemma FirstInStep(cs: nat, st: State, std: State, code: nat)
    requires 1 <= cs <= 11 && InStep(cs, st, std, 0) && code != Pow2(cs) && code != Pow2(cs) + 1
    requires NextString(cs, st.table, st.prev, code) == NextString(cs, std.table, std.prev, code) != None
    ensures Step(cs, st, code).Go? && StandardStep(cs, std, code).Go?
    ensures InStep(cs, Step(cs, st, code).state, StandardStep(cs, std, code).state, 1)
  {
    hide Low, NextWidth, StandardWidth, NextString, Pow2;
    Pow2Values();
    Pow2Mono(cs, 11);
    SameWidth(st.width, FirstFree(cs) + |st.table|);
  }

  /** A later string makes the table longer, the standard's only if it is not full. */
  lemma LaterInStep(cs: nat, st: State, std: State, run: nat, code: nat)
    requires 1 <= cs <= 11 && InStep(cs, st, std, run) && run > 0 && code != Pow2(cs) && code != Pow2(cs) + 1
    requires NextString(cs, st.table, st.prev, code) == NextString(cs, std.table, std.prev, code) != None
    ensures StandardStep(cs, std, code).Go?
    ensures if run + 1 <= MostCodes(cs) then
        Step(cs, st, code).Go? && InStep(cs, Step(cs, st, code).state, StandardStep(cs, std, code).state, run + 1)
      else Step(cs, st, code).Wrong?
  {
    hide Low, NextWidth, StandardWidth, NextString, Pow2;
    Pow2Values();
    Pow2Mono(cs, 11);
    SameWidth(st.width, FirstFree(cs) + |st.table| + 1);
  }

  /** A code keeps the decoders in step, unless too many have come without a clear code. */
  lemma StaysInStep(cs: nat, st: State, std: State, run: nat, code: nat)
    requires 1 <= cs <= 11 && InStep(cs, st, std, run) && code < Pow2(st.width)
    ensures match StandardStep(cs, std, code)
      case Go(next) =>
        var run' := if code == Pow2(cs) then 0 else run + 1;
        if run' <= MostCodes(cs) then Step(cs, st, code).Go? && InStep(cs, Step(cs, st, code).state, next, run')
        else Step(cs, st, code).Wrong?
      case Finished => Step(cs, st, code).Finished?
      case Wrong => Step(cs, st, code).Wrong?
  {
    hide Low, NextWidth, StandardWidth, NextString, Pow2;
    Pow2Values();
    Pow2Mono(st.width, 12);
    SameString(cs, st, std, run, code);
    if code == Pow2(cs) {
      ClearInStep(cs, st, std, run);
    } else if code != Pow2(cs) + 1 && NextString(cs, std.table, std.prev, code) != None {
      if run == 0 {
        FirstInStep(cs, st, std, code);
      } else {
        LaterInStep(cs, st, std, run, code);
      }
    }
  }

  lemma WidthsAgree(cs: nat, st: State, std: State, run: nat)
    requires InStep(cs, st, std, run)
    ensures st.width == std.width && st.out == std.out
  {
  }

  /** For the code sizes of the format, decoding gives what the standard gives if no run of
      codes without a clear code is too long, and fails otherwise. */
  lemma {:induction false} RunIsStandard(cs: nat, data: seq<byte>, p: nat, st: State, std: State, run: nat)
    requires 1 <= cs <= 11 && InStep(cs, st, std, run)
    ensures Run(cs, data, p, st) ==
      if ShortRuns(cs, data, p, std, run, MostCodes(cs)) then StandardRun(cs, data, p, std) else None
    decreases 8 * |data| - p
  {
    hide Low, Lsb, Step, StandardStep, InStep;
    if p + st.width <= 8 * |data| {
      var code := Lsb(data, p, st.width);
      WidthsAgree(cs, st, std, run);
      StaysInStep(cs, st, std, run, code);
      match StandardStep(cs, std, code)
      case Go(next) =>
        var run' := if code == Pow2(cs) then 0 else run + 1;
        if run' <= MostCodes(cs) {
          RunIsStandard(cs, data, p + st.width, Step(cs, st, code).state, next, run');
        }
      case _ =>
    } else {
      WidthsAgree(cs, st, std, run);
    }
  }

  /** The first code is no string: it is a clear code, the end, or a code without meaning. */
  predicate Opens(cs: nat, data: seq<byte>) {
    cs + 1 > 8 * |data| || Lsb(data, 0, cs + 1) >= Pow2(cs)
  }

  /** The same from the start of an image, where a clear code is not to be missing. */
  lemma DecodesAsStandard(cs: nat, data: seq<byte>)
    requires 1 <= cs <= 11
    ensures Run(cs, data, 0, Initial(cs)) ==
      if Opens(cs, data) && ShortRuns(cs, data, 0, Initial(cs), 0, MostCodes(cs))
      then StandardRun(cs, data, 0, Initial(cs))
      else None
  {
    hide Low, Lsb, NextWidth, StandardWidth;
    Pow2Values();
    Pow2Mono(1, cs);
    Pow2Mono(cs, 11);
    var st := Initial(cs);
    if cs + 1 <= 8 * |data| {
      var code := Lsb(data, 0, cs + 1);
      if code == Pow2(cs) {
        var next := st.(cleared := true);
        assert Step(cs, st, code) == Go(next) && StandardStep(cs, st, code) == Go(next);
        RunIsStandard(cs, data, cs + 1, next, next, 0);
      }
    }
  }

  /** The two decoders agree if and only if an image opens without a string and its runs of
      codes are short, or no decoder can make sense of it. */
  lemma AgreesWithStandard(cs: nat, data: seq<byte>)
    requires 1 <= cs <= 11
    ensures Run(cs, data, 0, Initial(cs)) == StandardRun(cs, data, 0, Initial(cs)) <==>
      (Opens(cs, data) && ShortRuns(cs, data, 0, Initial(cs), 0, MostCodes(cs)))
      || StandardRun(cs, data, 0, Initial(cs)).None?
  {
    hide Run, StandardRun, ShortRuns, Opens, Initial, MostCodes;
    DecodesAsStandard(cs, data);
  }

  /** An image that the standard understands and this decoder does not: one pixel and the end. */
  lemma MissingClear()
    ensures Run(2, [0x28], 0, Initial(2)) == None && StandardRun(2, [0x28], 0, Initial(2)) == Some([0])
    ensures !Opens(2, [0x28])
  {
    var data: seq<byte> := [0x28];
    assert Pow2(2) == 4 && Pow2(3) == 8;
    assert Bit(data, 0) == 0 && Bit(data, 1) == 0 && Bit(data, 2) == 0;
    assert Lsb(data, 3, 0) == 0 && Lsb(data, 2, 1) == 0 && Lsb(data, 1, 2) == 0 && Lsb(data, 0, 3) == 0;
    assert Bit(data, 3) == 1 && Bit(data, 4) == 0 && Bit(data, 5) == 1;
    assert Lsb(data, 6, 0) == 0 && Lsb(data, 5, 1) == 1 && Lsb(data, 4, 2) == 2 && Lsb(data, 3, 3) == 5;
    var next := StandardStep(2, Initial(2), 0);
    assert next == Go(Initial(2).(prev := Some([0]), out := [0]));
    assert StandardRun(2, data, 3, next.state) == Some([0]);
  }

  // ----- A full table -----

  /** A clear code of twelve bits and n bytes of zeros: the code size is 11, and all other codes
      are the same single pixel. */
  function Plain(n: nat): seq<byte> {
    [0x00, 0x08] + seq<byte>(n, _ => 0)
  }

  lemma PlainBit(n: nat, p: nat)
    ensures Bit(Plain(n), p) == if p == 11 then 1 else 0
  {
    if p / 8 == 1 {
      assert Shr(8, 0) == 8 && Shr(8, 1) == 4 && Shr(8, 2) == 2 && Shr(8, 3) == 1;
      assert Shr(8, 4) == Shr(4, 3) == Shr(2, 2) == 0 && Shr(8, 5) == Shr(2, 3) == 0;
      assert Shr(8, 6) == Shr(2, 4) == Shr(1, 3) == 0 && Shr(8, 7) == Shr(2, 5) == Shr(1, 4) == 0;
    } else {
      ShrZero(0, p % 8);
    }
  }

  lemma {:induction false} PlainCode(n: nat, p: nat, k: nat)
    requires p >= 12
    ensures Lsb(Plain(n), p, k) == 0
    decreases k
  {
    hide Bit;
    if k > 0 {
      PlainBit(n, p);
      PlainCode(n, p + 1, k - 1);
    }
  }

  lemma {:induction false} ClearFirst(n: nat, p: nat)
    requires p <= 11
    ensures Lsb(Plain(n), p, 12 - p) == Pow2(11 - p)
    decreases 11 - p
  {
    hide Bit;
    PlainBit(n, p);
    if p == 11 {
      PlainCode(n, 12, 0);
    } else {
      ClearFirst(n, p + 1);
    }
  }

  /** After k codes without a clear code. */
  predicate PlainState(st: State) {
    st.width == 12 && FirstFree(11) + |st.table| <= 4096
  }

  lemma PlainStep(st: State)
    requires PlainState(st)
    ensures StandardStep(11, st, 0).Go? && PlainState(StandardStep(11, st, 0).state)
  {
    assert Pow2(11) == 2048 by {
      Pow2Values();
    }
  }

  /** The standard decodes any number of them. */
  lemma {:induction false} PlainStandard(n: nat, p: nat, st: State)
    requires p >= 12 && PlainState(st)
    ensures StandardRun(11, Plain(n), p, st).Some?
    decreases 8 * |Plain(n)| - p
  {
    hide PlainState, StandardStep, Lsb, Plain;
    PlainWidth(st);
    if p + st.width <= 8 * |Plain(n)| {
      PlainCode(n, p, 12);
      PlainStep(st);
      PlainStandard(n, p + 12, StandardStep(11, st, 0).state);
    }
  }

  lemma PlainWidth(st: State)
    requires PlainState(st)
    ensures st.width == 12
  {
  }

  /** Their run is as long as there are bits for it. */
  lemma {:induction false} PlainRuns(n: nat, p: nat, st: State, run: nat, most: nat)
    requires 12 <= p <= 8 * |Plain(n)| && PlainState(st) && run <= most
    ensures ShortRuns(11, Plain(n), p, st, run, most) <==> 8 * |Plain(n)| - p < 12 * (most - run + 1)
    decreases 8 * |Plain(n)| - p
  {
    hide PlainState, StandardStep, Lsb, Plain, Pow2;
    PlainWidth(st);
    if p + st.width <= 8 * |Plain(n)| {
      assert Pow2(11) != 0;
      PlainCode(n, p, 12);
      PlainStep(st);
      if run < most {
        PlainRuns(n, p + 12, StandardStep(11, st, 0).state, run + 1, most);
      }
    }
  }

  /** The standard decodes such an image for every n, and this decoder only up to 6143 codes. */
  lemma TableFull(n: nat)
    ensures StandardRun(11, Plain(n), 0, Initial(11)).Some?
    ensures Run(11, Plain(n), 0, Initial(11)) == None <==> n >= 9216
  {
    hide Lsb, Bit;
    var data, st := Plain(n), Initial(11);
    assert |data| == n + 2;
    hide Plain;
    DecodesAsStandard(11, data);
    ClearFirst(n, 0);
    var next := st.(cleared := true);
    assert Pow2(11) == 2048 by {
      Pow2Values();
    }
    assert StandardStep(11, st, 2048) == Go(next);
    PlainStandard(n, 12, next);
    PlainRuns(n, 12, next, 0, MostCodes(11));
  }
}
