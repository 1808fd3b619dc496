/** Which decoding never ends. Past the end of the data every item is the same, and what it does
    to the bit buffer depends only on how many bits are in it; so a loop that is still running
    after enough turns without a longer output goes around in a circle. */
module Endless {
  import opened Bits
  import opened CanonicalCode
  import opened Courses
  import opened Deflate
  import opened DeflateHeader
  import opened DeflateLengths
  import opened DeflateProgress
  import opened DeflateStream
  import opened Options
  import opened Refills

  // ----- Past the end of the data -----

  lemma {:induction false} MsbPastEnd(data: seq<byte>, p: nat, n: nat)
    requires p >= 8 * |data|
    ensures Msb(data, p, n) == 0
    decreases n
  {
    if n > 0 {
      MsbPastEnd(data, p, n - 1);
      PastEnd(data, p + n - 1);
    }
  }

  lemma {:induction false} LsbPastEnd(data: seq<byte>, p: nat, n: nat)
    requires p >= 8 * |data|
    ensures Lsb(data, p, n) == 0
    decreases n
  {
    if n > 0 {
      LsbPastEnd(data, p + 1, n - 1);
      PastEnd(data, p);
    }
  }

  /** The same symbol is found at all places. */
  lemma SameSymbol(l: seq<nat>, data: seq<byte>, p: nat, q: nat)
    requires p >= 8 * |data| && q >= 8 * |data|
    ensures match SymbolAndEnd(l, data, p)
      case None => SymbolAndEnd(l, data, q) == None
      case Some((z, end)) => end >= p && SymbolAndEnd(l, data, q) == Some((z, end - p + q))
  {
    forall i | 0 <= i < |l| ensures Matches(l, i, data, p) <==> Matches(l, i, data, q) {
      MsbPastEnd(data, p, l[i]);
      MsbPastEnd(data, q, l[i]);
    }
    hide Matches;
    SymbolBelowFound(l, data, p, |l|);
    SymbolBelowFound(l, data, q, |l|);
    if SymbolAt(l, data, p).Some? {
      SymbolIs(l, SymbolAt(l, data, p).value, data, q);
    }
  }

  function Moved(it: Item, p: nat, q: nat): Item
    requires (it.Tok? || it.EndOfBlock?) ==> it.end >= p
  {
    match it
    case Tok(tok, end) => Tok(tok, end - p + q)
    case EndOfBlock(end) => EndOfBlock(end - p + q)
    case NoItem => NoItem
  }

  lemma SameCopy(d: seq<nat>, data: seq<byte>, z: nat, p: nat, q: nat)
    requires p >= 8 * |data| && q >= 8 * |data| && z >= 257
    ensures var it := CopyAt(ReaderOf(d, data), data, z, p);
      if it.Tok? then it.end >= p && CopyAt(ReaderOf(d, data), data, z, q) == Tok(it.tok, it.end - p + q)
      else it == CopyAt(ReaderOf(d, data), data, z, q) == NoItem
  {
    hide SymbolAndEnd, Lsb, LengthExtra, DistExtra;
    var le := LengthExtra(z - 257);
    SameSymbol(d, data, p + le, q + le);
    LsbPastEnd(data, p, le);
    LsbPastEnd(data, q, le);
    if SymbolAndEnd(d, data, p + le).Some? {
      var (ds, p2) := SymbolAndEnd(d, data, p + le).value;
      LsbPastEnd(data, p2, DistExtra(ds));
      LsbPastEnd(data, p2 - p + q, DistExtra(ds));
    }
  }

  /** So is the same item. */
  lemma SameItem(l: seq<nat>, d: seq<nat>, data: seq<byte>, p: nat, q: nat)
    requires p >= 8 * |data| && q >= 8 * |data|
    ensures var it := ItemAt(ReaderOf(l, data), ReaderOf(d, data), data, p);
      && (it.Tok? || it.EndOfBlock? ==> it.end >= p)
      && ItemAt(ReaderOf(l, data), ReaderOf(d, data), data, q) == Moved(it, p, q)
  {
    hide SymbolAndEnd, CopyAt;
    SameSymbol(l, data, p, q);
    if SymbolAndEnd(l, data, p).Some? {
      var (z, p1) := SymbolAndEnd(l, data, p).value;
      if z > END_OF_BLOCK {
        SameCopy(d, data, z, p1, p1 - p + q);
      }
    }
  }

  lemma ShiftedRefill(p: nat, f: nat, n: nat, k: nat)
    ensures Refilled(p + 8 * k, f + k, n) == Refilled(p, f, n) + k
  {
  }

  lemma ShiftedSymbol(data: seq<byte>, p: nat, f: nat, k: nat)
    requires f >= |data|
    ensures match SymbolFetched(data, p, f)
      case None => SymbolFetched(data, p + 8 * k, f + k) == None
      case Some(g) => g >= f && SymbolFetched(data, p + 8 * k, f + k) == Some(g + k)
  {
    ShiftedRefill(p, f, 16, k);
  }

  lemma ShiftedCopy(d: seq<nat>, data: seq<byte>, z: nat, p: nat, f: nat, k: nat)
    requires p >= 8 * |data| && f >= |data| && z >= 257
    ensures match CopyFetched(ReaderOf(d, data), data, z, p, f)
      case None => CopyFetched(ReaderOf(d, data), data, z, p + 8 * k, f + k) == None
      case Some(g) => CopyFetched(ReaderOf(d, data), data, z, p + 8 * k, f + k) == Some(g + k)
  {
    hide SymbolAndEnd, SymbolFetched, LengthExtra, DistExtra;
    var le := LengthExtra(z - 257);
    ShiftedRefill(p, f, le, k);
    var f1 := Refilled(p, f, le);
    hide Refilled;
    ShiftedSymbol(data, p + le, f1, k);
    SameSymbol(d, data, p + le, p + le + 8 * k);
    if SymbolFetched(data, p + le, f1).Some? && SymbolAndEnd(d, data, p + le).Some? {
      var (ds, p2) := SymbolAndEnd(d, data, p + le).value;
      ShiftedRefill(p2, SymbolFetched(data, p + le, f1).value, DistExtra(ds), k);
    }
  }

  /** What an item fetches depends on how far the reader is ahead, and not on where. */
  lemma ShiftedItem(l: seq<nat>, d: seq<nat>, data: seq<byte>, p: nat, f: nat, k: nat)
    requires p >= 8 * |data| && f >= |data|
    ensures var lit, dist := ReaderOf(l, data), ReaderOf(d, data);
      match ItemFetched(lit, dist, data, p, f)
      case None => ItemFetched(lit, dist, data, p + 8 * k, f + k) == None
      case Some(g) => ItemFetched(lit, dist, data, p + 8 * k, f + k) == Some(g + k)
  {
    hide SymbolAndEnd, SymbolFetched, CopyFetched;
    ShiftedSymbol(data, p, f, k);
    SameSymbol(l, data, p, p + 8 * k);
    if SymbolFetched(data, p, f).Some? && SymbolAndEnd(l, data, p).Some? {
      var (z, p1) := SymbolAndEnd(l, data, p).value;
      if z > END_OF_BLOCK {
        ShiftedCopy(d, data, z, p1, SymbolFetched(data, p, f).value, k);
      }
    }
  }

  // ----- Turns past the end -----

  /** The reader is ahead of its place by no more than the buffer holds. */
  predicate Buffered(s: State) {
    s.p <= 8 * s.f <= s.p + 32
  }

  function Next(l: seq<nat>, d: seq<nat>, data: seq<byte>, room: nat, s: State): Option<State> {
    Turn(ReaderOf(l, data), ReaderOf(d, data), data, room, s)
  }

  function Run(l: seq<nat>, d: seq<nat>, data: seq<byte>, room: nat, s: State, k: nat): Option<State> {
    Turns(ReaderOf(l, data), ReaderOf(d, data), data, room, s, k)
  }

  lemma RunUnfolds(l: seq<nat>, d: seq<nat>, data: seq<byte>, room: nat, s: State, k: nat)
    ensures Run(l, d, data, room, s, 0) == Some(s)
    ensures k > 0 ==>
      var t := Next(l, d, data, room, s);
      Run(l, d, data, room, s, k) == if t.None? then None else Run(l, d, data, room, t.value, k - 1)
  {
  }

  lemma RefillBuffered(p: nat, f: nat, n: nat, m: nat)
    requires p <= 8 * f <= p + 32 && m <= n <= 25
    ensures p + m <= 8 * Refilled(p, f, n) <= p + m + 32
  {
  }

  lemma CopyBuffered(d: seq<nat>, data: seq<byte>, z: nat, p: nat, f: nat)
    requires IsLengths(d) && z >= 257 && p <= 8 * f <= p + 32
    ensures var g := CopyFetched(ReaderOf(d, data), data, z, p, f);
      var it := CopyAt(ReaderOf(d, data), data, z, p);
      g.Some? && it.Tok? ==> it.end >= p && it.end <= 8 * g.value <= it.end + 32
  {
    hide SymbolAndEnd, Lsb, LengthExtra, DistExtra, Refilled;
    FewLengthBits(z - 257);
    var le := LengthExtra(z - 257);
    var q, f1 := p + le, Refilled(p, f, le);
    RefillBuffered(p, f, le, le);
    SymbolEnd(d, data, q);
    if SymbolAndEnd(d, data, q).Some? && SymbolFetched(data, q, f1).Some? {
      var (ds, p2) := SymbolAndEnd(d, data, q).value;
      FewDistanceBits(ds);
      RefillBuffered(q, f1, 16, d[ds]);
      RefillBuffered(p2, Refilled(q, f1, 16), DistExtra(ds), DistExtra(ds));
    }
  }

  lemma FewLengthBits(z: nat)
    ensures LengthExtra(z) <= 5
  {
  }

  lemma FewDistanceBits(z: nat)
    ensures DistExtra(z) <= 13
  {
  }

  /** A turn goes on in the stream, and never back in the output. */
  lemma NextKeeps(l: seq<nat>, d: seq<nat>, data: seq<byte>, room: nat, s: State)
    requires IsLengths(l) && IsLengths(d) && Buffered(s)
    ensures var t := Next(l, d, data, room, s);
      t.Some? ==> Buffered(t.value) && t.value.p > s.p && s.len <= t.value.len <= room
  {
    hide SymbolAndEnd, CopyAt, CopyFetched;
    SymbolEnd(l, data, s.p);
    ItemAdvances(l, d, data, s.p);
    if SymbolAndEnd(l, data, s.p).Some? && SymbolFetched(data, s.p, s.f).Some? {
      var (z, p1) := SymbolAndEnd(l, data, s.p).value;
      if z > END_OF_BLOCK {
        CopyBuffered(d, data, z, p1, SymbolFetched(data, s.p, s.f).value);
      }
    }
  }

  lemma {:induction false} RunKeeps(l: seq<nat>, d: seq<nat>, data: seq<byte>, room: nat, s: State, k: nat)
    requires IsLengths(l) && IsLengths(d) && Buffered(s)
    ensures var t := Run(l, d, data, room, s, k);
      t.Some? ==> Buffered(t.value) && t.value.p >= s.p + k && t.value.len >= s.len && (k > 0 ==> t.value.len <= room)
    decreases k
  {
    hide Next, Run, Buffered, IsLengths;
    RunUnfolds(l, d, data, room, s, k);
    NextKeeps(l, d, data, room, s);
    if k > 0 && Next(l, d, data, room, s).Some? {
      var t := Next(l, d, data, room, s).value;
      RunUnfolds(l, d, data, room, t, 0);
      RunKeeps(l, d, data, room, t, k - 1);
    }
  }

  function Shifted(s: State, k: nat): State {
    State(s.p + 8 * k, s.f + k, s.len)
  }

  function ShiftedOption(s: Option<State>, k: nat): Option<State> {
    match s
    case None => None
    case Some(t) => Some(Shifted(t, k))
  }

  lemma NextShifted(l: seq<nat>, d: seq<nat>, data: seq<byte>, room: nat, s: State, k: nat)
    requires s.p >= 8 * |data| && s.f >= |data|
    ensures Next(l, d, data, room, Shifted(s, k)) == ShiftedOption(Next(l, d, data, room, s), k)
  {
    hide ItemAt, ItemFetched, ReaderOf, Distance, Length;
    SameItem(l, d, data, s.p, s.p + 8 * k);
    ShiftedItem(l, d, data, s.p, s.f, k);
  }

  lemma {:induction false} RunShifted(l: seq<nat>, d: seq<nat>, data: seq<byte>, room: nat, s: State, k: nat, n: nat)
    requires IsLengths(l) && IsLengths(d) && Buffered(s) && s.p >= 8 * |data|
    ensures Run(l, d, data, room, Shifted(s, k), n) == ShiftedOption(Run(l, d, data, room, s, n), k)
    decreases n
  {
    hide Next, Run, IsLengths;
    RunUnfolds(l, d, data, room, s, n);
    RunUnfolds(l, d, data, room, Shifted(s, k), n);
    NextShifted(l, d, data, room, s, k);
    NextKeeps(l, d, data, room, s);
    if n > 0 && Next(l, d, data, room, s).Some? {
      RunShifted(l, d, data, room, Next(l, d, data, room, s).value, k, n - 1);
    }
  }

  lemma RunAdd(l: seq<nat>, d: seq<nat>, data: seq<byte>, room: nat, s: State, j: nat, k: nat)
    ensures Run(l, d, data, room, s, j + k) ==
      match Run(l, d, data, room, s, j)
      case None => None
      case Some(t) => Run(l, d, data, room, t, k)
  {
    hide Turns;
    TurnsAdd(ReaderOf(l, data), ReaderOf(d, data), data, room, s, j, k);
  }

  /** A loop that comes back to where it was, but for whole bytes, goes around for ever. */
  lemma {:induction false} Around(l: seq<nat>, d: seq<nat>, data: seq<byte>, room: nat, s: State, m: nat, k: nat,
                                  n: nat)
    requires IsLengths(l) && IsLengths(d) && Buffered(s) && s.p >= 8 * |data|
    requires m > 0 && Run(l, d, data, room, s, m) == Some(Shifted(s, k))
    ensures Run(l, d, data, room, s, n).Some?
    decreases n
  {
    hide Run, IsLengths, Shifted;
    if n <= m {
      RunAdd(l, d, data, room, s, n, m - n);
    } else {
      RunAdd(l, d, data, room, s, m, n - m);
      RunShifted(l, d, data, room, s, k, n - m);
      Around(l, d, data, room, s, m, k, n - m);
    }
  }

  // ----- Patience -----

  lemma {:induction false} Pigeonhole(s: seq<nat>, n: nat) returns (i: nat, j: nat)
    requires |s| > n && forall k :: 0 <= k < |s| ==> s[k] < n
    ensures i < j < |s| && s[i] == s[j]
    decreases n
  {
    if k :| 0 <= k < |s| - 1 && s[k] == s[|s| - 1] {
      i, j := k, |s| - 1;
    } else {
      // Without the last number, let the greatest one take its place.
      var last := s[|s| - 1];
      var t := seq(|s| - 1, k requires 0 <= k < |s| - 1 => if s[k] == n - 1 then last else s[k]);
      i, j := Pigeonhole(t, n - 1);
    }
  }

  /** The bits in the buffer after i turns. */
  function BitsAfter(l: seq<nat>, d: seq<nat>, data: seq<byte>, room: nat, s: State, i: nat): nat {
    var t := Run(l, d, data, room, s, i);
    if t.Some? && t.value.p <= 8 * t.value.f then 8 * t.value.f - t.value.p else 0
  }

  lemma Prefix(l: seq<nat>, d: seq<nat>, data: seq<byte>, room: nat, s: State, i: nat, k: nat)
    requires i <= k && Run(l, d, data, room, s, k).Some?
    ensures Run(l, d, data, room, s, i).Some?
  {
    hide Run;
    RunAdd(l, d, data, room, s, i, k - i);
  }

  /** Some count comes twice in 33 turns. */
  lemma SomeCountTwice(l: seq<nat>, d: seq<nat>, data: seq<byte>, room: nat, s: State) returns (i: nat, j: nat)
    requires IsLengths(l) && IsLengths(d) && Buffered(s) && Run(l, d, data, room, s, 33).Some?
    ensures i < j <= 33 && BitsAfter(l, d, data, room, s, i) == BitsAfter(l, d, data, room, s, j)
  {
    hide Run, IsLengths;
    var counts := seq(34, k requires 0 <= k < 34 => BitsAfter(l, d, data, room, s, k));
    forall k | 0 <= k < 34 ensures counts[k] < 33 {
      Prefix(l, d, data, room, s, k, 33);
      RunKeeps(l, d, data, room, s, k);
    }
    i, j := Pigeonhole(counts, 33);
  }

  /** Where items add nothing, 33 turns past the end of the data mean that there is no end. */
  lemma Circle(l: seq<nat>, d: seq<nat>, data: seq<byte>, room: nat, s: State, n: nat)
    requires IsLengths(l) && IsLengths(d) && Buffered(s) && s.p >= 8 * |data|
    requires Run(l, d, data, room, s, 33).Some? && Run(l, d, data, room, s, 33).value.len == s.len
    ensures Run(l, d, data, room, s, n).Some?
  {
    hide Run, IsLengths;
    var i, j := SomeCountTwice(l, d, data, room, s);
    Prefix(l, d, data, room, s, i, 33);
    Prefix(l, d, data, room, s, j, 33);
    var t, u := Run(l, d, data, room, s, i).value, Run(l, d, data, room, s, j).value;
    RunKeeps(l, d, data, room, s, i);
    RunAdd(l, d, data, room, s, i, j - i);
    RunAdd(l, d, data, room, s, j, 33 - j);
    RunKeeps(l, d, data, room, t, j - i);
    RunKeeps(l, d, data, room, u, 33 - j);
    var k := u.f - t.f;
    assert u == Shifted(t, k);
    if n >= i {
      Around(l, d, data, room, t, j - i, k, n - i);
      RunAdd(l, d, data, room, s, i, n - i);
    } else {
      Prefix(l, d, data, room, s, n, 33);
    }
  }

  /** How much an item past the end of the data adds to the output. */
  function Added(l: seq<nat>, d: seq<nat>, data: seq<byte>): nat {
    var it := ItemAt(ReaderOf(l, data), ReaderOf(d, data), data, 8 * |data|);
    if it.Tok? then Length(it.tok) else 0
  }

  lemma NextAdds(l: seq<nat>, d: seq<nat>, data: seq<byte>, room: nat, s: State)
    requires s.p >= 8 * |data|
    ensures var t := Next(l, d, data, room, s);
      t.Some? ==> t.value.len == s.len + Added(l, d, data)
  {
    hide ItemAt, ItemFetched, ReaderOf, Distance, Length;
    SameItem(l, d, data, 8 * |data|, s.p);
  }

  lemma {:induction false} RunAdds(l: seq<nat>, d: seq<nat>, data: seq<byte>, room: nat, s: State, k: nat)
    requires IsLengths(l) && IsLengths(d) && Buffered(s) && s.p >= 8 * |data|
    ensures var t := Run(l, d, data, room, s, k);
      t.Some? ==> if Added(l, d, data) == 0 then t.value.len == s.len else t.value.len >= s.len + k
    decreases k
  {
    hide Next, Run, IsLengths, Added;
    RunUnfolds(l, d, data, room, s, k);
    NextAdds(l, d, data, room, s);
    NextKeeps(l, d, data, room, s);
    if k > 0 && Next(l, d, data, room, s).Some? {
      RunAdds(l, d, data, room, Next(l, d, data, room, s).value, k - 1);
    }
  }

  /** More turns than there are bits in the data, bytes of room, and counts of the buffer. */
  function Patience(data: seq<byte>, room: nat): nat {
    8 * |data| + room + 34
  }

  /** A loop that is still running then never ends. */
  lemma NoEnd(l: seq<nat>, d: seq<nat>, data: seq<byte>, room: nat, s: State, n: nat)
    requires IsLengths(l) && IsLengths(d) && Buffered(s)
    requires Run(l, d, data, room, s, Patience(data, room)).Some?
    ensures Run(l, d, data, room, s, n).Some?
  {
    hide Run, IsLengths, Added;
    var far := 8 * |data|;
    Prefix(l, d, data, room, s, far, Patience(data, room));
    RunKeeps(l, d, data, room, s, far);
    var t := Run(l, d, data, room, s, far).value;
    RunAdd(l, d, data, room, s, far, room + 34);
    RunAdds(l, d, data, room, t, room + 34);
    RunKeeps(l, d, data, room, t, room + 34);
    Prefix(l, d, data, room, t, 33, room + 34);
    RunAdds(l, d, data, room, t, 33);
    if n >= far {
      Circle(l, d, data, room, t, n - far);
      RunAdd(l, d, data, room, s, far, n - far);
    } else {
      Prefix(l, d, data, room, s, n, Patience(data, room));
    }
  }

  // ----- Blocks and streams -----

  lemma {:induction false} ThreesBuffered(p: nat, f: nat, n: nat)
    requires p <= 8 * f <= p + 32
    ensures p + 3 * n <= 8 * ThreesFetched(p, f, n) <= p + 3 * n + 32
    decreases n
  {
    if n > 0 {
      ThreesBuffered(p, f, n - 1);
      RefillBuffered(p + 3 * (n - 1), ThreesFetched(p, f, n - 1), 3, 3);
    }
  }

  lemma LenOpBuffered(cl: seq<nat>, data: seq<byte>, p: nat, f: nat)
    requires IsLengths(cl) && p <= 8 * f <= p + 32
    ensures var g, it := LenOpFetched(ReaderOf(cl, data), data, p, f), LenOpAt(ReaderOf(cl, data), data, p);
      g.Some? && it.Some? ==> it.value.1 <= 8 * g.value <= it.value.1 + 32
  {
    hide SymbolAndEnd, Lsb;
    SymbolEnd(cl, data, p);
  }

  lemma {:induction false} LengthsBuffered(cl: seq<nat>, data: seq<byte>, p: nat, f: nat, total: nat, acc: seq<nat>)
    requires IsLengths(cl) && |acc| <= total && p <= 8 * f <= p + 32
    ensures var g := LengthsFetched(ReaderOf(cl, data), data, p, f, total, acc);
      var r := LengthsAt(ReaderOf(cl, data), data, p, total, acc);
      g.Some? && r.Some? ==> r.value.1 <= 8 * g.value <= r.value.1 + 32
    decreases total - |acc|
  {
    hide ReaderOf, LenOpAt, LenOpFetched, IsLengths;
    if |acc| < total {
      LenOpBuffered(cl, data, p, f);
      var g, it := LenOpFetched(ReaderOf(cl, data), data, p, f), LenOpAt(ReaderOf(cl, data), data, p);
      if g.Some? && it.Some? {
        var next := Extend(acc, it.value.0);
        if next.Some? && |next.value| <= total {
          LengthsBuffered(cl, data, it.value.1, g.value, total, next.value);
        }
      }
    }
  }

  /** After a header there are two codes, and the buffer is in order. */
  lemma HeaderBuffered(data: seq<byte>, p: nat, f: nat)
    requires p <= 8 * f <= p + 32
    ensures var g, t := HeaderFetched(data, p, f), HeaderAt(data, p);
      t.Tables? ==> IsLengths(t.lit) && IsLengths(t.dist) && (g.Some? ==> t.end <= 8 * g.value <= t.end + 32)
  {
    hide TablesAt, LengthsAt, LengthsFetched, Lsb, Refilled, ReaderOf, ClLengths, ThreesAt, ThreesFetched, Kraft;
    Pow2Values();
    var hclen := Lsb(data, p + 10, 4) + 4;
    var hlit, hdist := Lsb(data, p, 5) + 257, Lsb(data, p + 5, 5) + 1;
    var clens := ThreesAt(data, p + 14, hclen);
    var cl := ClLengths(clens);
    TablesFrom(data, p + 14 + 3 * hclen, hlit, hdist, cl);
    RefillBuffered(p, f, 5, 5);
    RefillBuffered(p + 5, Refilled(p, f, 5), 5, 5);
    RefillBuffered(p + 10, Refilled(p + 5, Refilled(p, f, 5), 5), 4, 4);
    var counts := Refilled(p + 10, Refilled(p + 5, Refilled(p, f, 5), 5), 4);
    ThreesBuffered(p + 14, counts, hclen);
    if IsCode(cl) {
      LengthsBuffered(cl, data, p + 14 + 3 * hclen, ThreesFetched(p + 14, counts, hclen), hlit + hdist, []);
    }
  }

  lemma {:induction false} BodyBuffered(l: seq<nat>, d: seq<nat>, data: seq<byte>, room: nat, s: State, turns: nat)
    requires IsLengths(l) && IsLengths(d) && Buffered(s)
    ensures var c := BodyCourse(ReaderOf(l, data), ReaderOf(d, data), data, room, s, turns);
      c.Through? ==> Buffered(c.s)
    decreases turns
  {
    hide IsLengths, SymbolAndEnd, CopyAt, CopyFetched, Turn;
    if turns > 0 {
      EndBuffered(l, d, data, s);
      NextKeeps(l, d, data, room, s);
      var t := Turn(ReaderOf(l, data), ReaderOf(d, data), data, room, s);
      if t.Some? {
        BodyBuffered(l, d, data, room, t.value, turns - 1);
      }
    }
  }

  lemma EndBuffered(l: seq<nat>, d: seq<nat>, data: seq<byte>, s: State)
    requires IsLengths(l) && Buffered(s)
    ensures var it, f := ItemAt(ReaderOf(l, data), ReaderOf(d, data), data, s.p),
                         ItemFetched(ReaderOf(l, data), ReaderOf(d, data), data, s.p, s.f);
      it.EndOfBlock? && f.Some? ==> it.end <= 8 * f.value <= it.end + 32
  {
    hide SymbolAndEnd, CopyFetched, Lsb;
    SymbolEnd(l, data, s.p);
  }

  /** More turns change nothing once the loop has come to an end. */
  lemma {:induction false} BodyDecided(lit: Reader, dist: Reader, data: seq<byte>, room: nat, s: State, j: nat, k: nat)
    requires j <= k && !BodyCourse(lit, dist, data, room, s, j).Running?
    ensures BodyCourse(lit, dist, data, room, s, k) == BodyCourse(lit, dist, data, room, s, j)
    decreases j
  {
    hide ItemAt, ItemFetched, Turn;
    var t := Turn(lit, dist, data, room, s);
    if j > 0 && t.Some? && ItemAt(lit, dist, data, s.p).Tok? {
      BodyDecided(lit, dist, data, room, t.value, j - 1, k - 1);
    }
  }

  /** A block is decided after enough turns: with any other number of them it is still running, or
      it has come to the same end. */
  lemma BodyPatient(l: seq<nat>, d: seq<nat>, data: seq<byte>, room: nat, s: State, turns: nat, k: nat)
    requires IsLengths(l) && IsLengths(d) && Buffered(s) && turns >= Patience(data, room)
    ensures var lit, dist := ReaderOf(l, data), ReaderOf(d, data);
      BodyCourse(lit, dist, data, room, s, k).Running?
      || BodyCourse(lit, dist, data, room, s, k) == BodyCourse(lit, dist, data, room, s, turns)
  {
    hide IsLengths, BodyCourse, Turns, ReaderOf;
    var lit, dist := ReaderOf(l, data), ReaderOf(d, data);
    if !BodyCourse(lit, dist, data, room, s, turns).Running? {
      if turns <= k {
        BodyDecided(lit, dist, data, room, s, turns, k);
      } else if !BodyCourse(lit, dist, data, room, s, k).Running? {
        BodyDecided(lit, dist, data, room, s, k, turns);
      }
    } else {
      RunningTurns(lit, dist, data, room, s, turns);
      Prefix(l, d, data, room, s, Patience(data, room), turns);
      NoEnd(l, d, data, room, s, k);
      RunningTurns(lit, dist, data, room, s, k);
    }
  }

  lemma BlockPatient(data: seq<byte>, kind: nat, room: nat, s: State, turns: nat, k: nat)
    requires Buffered(s) && turns >= Patience(data, room)
    ensures BlockCourse(data, kind, room, s, k).Running?
      || BlockCourse(data, kind, room, s, k) == BlockCourse(data, kind, room, s, turns)
    ensures BlockCourse(data, kind, room, s, k).Through? ==> Buffered(BlockCourse(data, kind, room, s, k).s)
  {
    hide IsLengths, BodyCourse, ReaderOf, HeaderAt, HeaderFetched, FixedLit, FixedDist, ByteAt, Patience;
    FixedLengths();
    BodyPatient(FixedLit(), FixedDist(), data, room, s, turns, k);
    BodyBuffered(FixedLit(), FixedDist(), data, room, s, k);
    HeaderBuffered(data, s.p, s.f);
    var t := HeaderAt(data, s.p);
    if t.Tables? && HeaderFetched(data, s.p, s.f).Some? {
      var begun := State(t.end, HeaderFetched(data, s.p, s.f).value, s.len);
      BodyPatient(t.lit, t.dist, data, room, begun, turns, k);
      BodyBuffered(t.lit, t.dist, data, room, begun, k);
    }
  }

  lemma FixedLengths()
    ensures IsLengths(FixedLit()) && IsLengths(FixedDist())
  {
  }

  lemma HeadedBuffered(s: State)
    requires Buffered(s)
    ensures Buffered(Headed(s))
  {
  }

  /** So is a stream. */
  lemma {:induction false} StreamPatient(data: seq<byte>, room: nat, s: State, turns: nat, k: nat)
    requires Buffered(s) && turns >= Patience(data, room)
    ensures StreamCourse(data, room, s, k).Running?
      || StreamCourse(data, room, s, k) == StreamCourse(data, room, s, turns)
    decreases 8 * |data| - s.p
  {
    hide BlockCourse, Headed, Bit, Lsb, Buffered, Patience;
    if s.p < 8 * |data| {
      var kind := Lsb(data, s.p + 1, 2);
      HeadedBuffered(s);
      BlockPatient(data, kind, room, Headed(s), turns, k);
      var c := BlockCourse(data, kind, room, Headed(s), k);
      CourseAdvances(data, kind, room, Headed(s), k);
      HeadedAdvances(s);
      if c.Through? && Bit(data, s.p) != 1 {
        StreamPatient(data, room, c.s, turns, k);
      }
    }
  }

  lemma HeadedAdvances(s: State)
    ensures Headed(s).p == s.p + 3
  {
  }

  /** No number of turns is enough. */
  ghost predicate NeverEnds(data: seq<byte>, room: nat, s: State) {
    forall k: nat :: StreamCourse(data, room, s, k).Running?
  }

  /** A stream that is still running after enough turns in a block never ends. */
  lemma EndsOrNever(data: seq<byte>, room: nat, s: State, turns: nat)
    requires Buffered(s) && turns >= Patience(data, room)
    ensures StreamCourse(data, room, s, turns).Running? <==> NeverEnds(data, room, s)
  {
    hide StreamCourse, Patience, Buffered;
    if StreamCourse(data, room, s, turns).Running? {
      forall k: nat ensures StreamCourse(data, room, s, k).Running? {
        StreamPatient(data, room, s, turns, k);
      }
    }
  }
}
