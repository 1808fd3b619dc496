/** The course of decoding by sizes alone: where the reader is, how many bytes have been fetched
    and how many written after each turn of the loops. It decides whether decoding comes
    through, breaks off, or goes on without end, for any data and also where symbols that the
    format does not have make the bytes that are written arbitrary. */
module Courses {
  import opened Bits
  import opened CanonicalCode
  import opened Deflate
  import opened DeflateHeader
  import opened DeflateProgress
  import opened DeflateStream
  import opened Options
  import opened Refills

  /** The place in the stream, the bytes fetched and the bytes written. */
  datatype State = State(p: nat, f: nat, len: nat)

  datatype Course = Through(s: State) | Broken | Running

  /** The state after one literal or copy, if it can be performed with so much room. */
  function Turn(lit: Reader, dist: Reader, data: seq<byte>, room: nat, s: State): Option<State> {
    match ItemAt(lit, dist, data, s.p)
    case Tok(tok, end) =>
      (match ItemFetched(lit, dist, data, s.p, s.f)
       case None => None
       case Some(f) =>
         if Distance(tok) > s.len || s.len + Length(tok) > room then None
         else Some(State(end, f, s.len + Length(tok))))
    case _ => None
  }

  /** At most so many turns of the loop over the items of a block. */
  function BodyCourse(lit: Reader, dist: Reader, data: seq<byte>, room: nat, s: State, turns: nat): Course
    decreases turns
  {
    if turns == 0 then Running
    else
      match ItemAt(lit, dist, data, s.p)
      case EndOfBlock(end) =>
        (match ItemFetched(lit, dist, data, s.p, s.f)
         case None => Broken
         case Some(f) => Through(State(end, f, s.len)))
      case Tok(_, _) =>
        (match Turn(lit, dist, data, room, s)
         case None => Broken
         case Some(t) => BodyCourse(lit, dist, data, room, t, turns - 1))
      case NoItem => Broken
  }

  function StoredCourse(data: seq<byte>, room: nat, s: State): Course {
    match StoredAt(data, (s.p + 7) / 8, [])
    case Output(bytes, end) => if s.len + |bytes| > room then Broken else Through(State(end, end / 8, s.len + |bytes|))
    case _ => Broken
  }

  function DynamicCourse(data: seq<byte>, room: nat, s: State, turns: nat): Course {
    match HeaderFetched(data, s.p, s.f)
    case None => Broken
    case Some(f) =>
      match HeaderAt(data, s.p)
      case NoTables => Broken
      case Tables(l, d, end) =>
        BodyCourse(ReaderOf(l, data), ReaderOf(d, data), data, room, State(end, f, s.len), turns)
  }

  /** The same for a block of this kind. */
  function BlockCourse(data: seq<byte>, kind: nat, room: nat, s: State, turns: nat): Course {
    if kind == 0 then StoredCourse(data, room, s)
    else if kind == 1 then BodyCourse(ReaderOf(FixedLit(), data), ReaderOf(FixedDist(), data), data, room, s, turns)
    else if kind == 2 then DynamicCourse(data, room, s, turns)
    else Broken
  }

  /** The state after the three header bits of a block. */
  function Headed(s: State): State {
    State(s.p + 3, HeadFetched(s.p, s.f), s.len)
  }

  /** The same for a stream of blocks of at most so many turns each. */
  function StreamCourse(data: seq<byte>, room: nat, s: State, turns: nat): Course
    decreases 8 * |data| - s.p
  {
    if s.p >= 8 * |data| then Broken
    else
      var c := BlockCourse(data, Lsb(data, s.p + 1, 2), room, Headed(s), turns);
      if c.Through? && Bit(data, s.p) != 1 then
        CourseAdvances(data, Lsb(data, s.p + 1, 2), room, Headed(s), turns);
        StreamCourse(data, room, c.s, turns)
      else c
  }

  /** What a turn does, by the first symbol of its item. */
  lemma TurnCases(l: seq<nat>, d: seq<nat>, data: seq<byte>, room: nat, s: State)
    ensures var t := Turn(ReaderOf(l, data), ReaderOf(d, data), data, room, s);
      var f := SymbolFetched(data, s.p, s.f);
      match SymbolAndEnd(l, data, s.p)
      case None => t == None
      case Some((z, p)) =>
        if f.None? || z == END_OF_BLOCK then t == None
        else if z < 256 then t == if s.len + 1 > room then None else Some(State(p, f.value, s.len + 1))
        else
          var it, g := CopyAt(ReaderOf(d, data), data, z, p), CopyFetched(ReaderOf(d, data), data, z, p, f.value);
          t == if it.Tok? && g.Some? && Distance(it.tok) <= s.len && s.len + Length(it.tok) <= room
               then Some(State(it.end, g.value, s.len + Length(it.tok))) else None
  {
    hide ItemAt, ItemFetched, CopyFetched, SymbolAndEnd, SymbolFetched, ReaderOf;
    ItemCases(l, d, data, s.p, s.f);
    if SymbolAndEnd(l, data, s.p).Some? && SymbolAndEnd(l, data, s.p).value.0 > END_OF_BLOCK {
      CopyIsNoEnd(d, data, SymbolAndEnd(l, data, s.p).value.0, SymbolAndEnd(l, data, s.p).value.1);
    }
  }

  lemma CopyIsNoEnd(d: seq<nat>, data: seq<byte>, z: nat, p: nat)
    requires z >= 257
    ensures !CopyAt(ReaderOf(d, data), data, z, p).EndOfBlock?
  {
  }

  /** What the first item of a body leads to. */
  lemma CourseUnfolds(lit: Reader, dist: Reader, data: seq<byte>, room: nat, s: State, turns: nat)
    requires turns > 0
    ensures var it, f := ItemAt(lit, dist, data, s.p), ItemFetched(lit, dist, data, s.p, s.f);
      var t := Turn(lit, dist, data, room, s);
      BodyCourse(lit, dist, data, room, s, turns) ==
        if it.EndOfBlock? then (if f.Some? then Through(State(it.end, f.value, s.len)) else Broken)
        else if t.Some? then BodyCourse(lit, dist, data, room, t.value, turns - 1) else Broken
    ensures var it, t := ItemAt(lit, dist, data, s.p), Turn(lit, dist, data, room, s);
      t.Some? ==> it.Tok? && t.value.p == it.end
  {
    hide ItemAt, ItemFetched;
  }

  /** What the first block of a stream leads to. */
  lemma CourseContinues(data: seq<byte>, room: nat, s: State, turns: nat, c: Course)
    requires c == BlockCourse(data, Lsb(data, s.p + 1, 2), room, Headed(s), turns)
    ensures s.p < 8 * |data| ==>
      StreamCourse(data, room, s, turns) ==
        if c.Through? && Bit(data, s.p) != 1 then StreamCourse(data, room, c.s, turns) else c
    ensures s.p >= 8 * |data| ==> StreamCourse(data, room, s, turns) == Broken && c == Broken
  {
    hide BlockCourse, Headed, Bit, Lsb;
    if s.p >= 8 * |data| {
      NoCoursePastEnd(data, room, s, turns);
    }
  }

  lemma NoCoursePastEnd(data: seq<byte>, room: nat, s: State, turns: nat)
    requires s.p >= 8 * |data|
    ensures BlockCourse(data, Lsb(data, s.p + 1, 2), room, Headed(s), turns) == Broken
  {
    hide Bit;
    PastEnd(data, s.p + 1);
    PastEnd(data, s.p + 2);
    assert Lsb(data, s.p + 3, 0) == 0 && Lsb(data, s.p + 2, 1) == 0;
    assert Lsb(data, s.p + 1, 2) == 0;
    assert (s.p + 10) / 8 >= |data|;
  }

  lemma CourseAdvances(data: seq<byte>, kind: nat, room: nat, s: State, turns: nat)
    ensures var c := BlockCourse(data, kind, room, s, turns);
      c.Through? ==> c.s.p >= s.p
  {
    hide ReaderOf, HeaderAt, HeaderFetched, FixedLit, FixedDist;
    BodyAdvances(FixedLit(), FixedDist(), data, room, s, turns);
    HeaderAdvances(data, s.p);
    var t := HeaderAt(data, s.p);
    if t.Tables? && HeaderFetched(data, s.p, s.f).Some? {
      BodyAdvances(t.lit, t.dist, data, room, State(t.end, HeaderFetched(data, s.p, s.f).value, s.len), turns);
    }
  }

  lemma {:induction false} BodyAdvances(l: seq<nat>, d: seq<nat>, data: seq<byte>, room: nat, s: State, turns: nat)
    ensures var c := BodyCourse(ReaderOf(l, data), ReaderOf(d, data), data, room, s, turns);
      c.Through? ==> c.s.p >= s.p
    decreases turns
  {
    hide ReaderOf, ItemAt, ItemFetched;
    ItemAdvances(l, d, data, s.p);
    var t := Turn(ReaderOf(l, data), ReaderOf(d, data), data, room, s);
    if turns > 0 && t.Some? {
      BodyAdvances(l, d, data, room, t.value, turns - 1);
    }
  }

  // ----- What is written -----

  /** Where the items of a block have an output, the course is through if it fits and no symbol
      is refused; where they are wrong it is not through. */
  lemma {:induction false} BodyOutcome(lit: Reader, dist: Reader, data: seq<byte>, room: nat, s: State, out: seq<byte>,
                                       turns: nat)
    requires |out| == s.len <= room
    ensures var r, f := Body(lit, dist, data, s.p, out, turns), BodyFetched(lit, dist, data, s.p, s.f, turns);
      var c := BodyCourse(lit, dist, data, room, s, turns);
      && (r.Output? ==>
            c == if f.Some? && |r.out| <= room then Through(State(r.end, f.value, |r.out|)) else Broken)
      && (r.Bad? ==> !c.Through?)
    decreases turns
  {
    hide ItemAt, ItemFetched, Emit, Distance;
    if turns > 0 {
      ItemMeaning(lit, dist, data, s.p, out);
      match ItemAt(lit, dist, data, s.p)
      case Tok(tok, end) =>
        if !Arbitrary(tok) && Emit(out, tok).Some? {
          var next := Emit(out, tok).value;
          BodyLonger(lit, dist, data, end, next, turns - 1);
          match ItemFetched(lit, dist, data, s.p, s.f)
          case Some(f) =>
            if |next| <= room {
              BodyOutcome(lit, dist, data, room, State(end, f, |next|), next, turns - 1);
            }
          case None =>
        }
      case _ =>
    }
  }

  /** A token with a meaning adds as many bytes as it says, unless it copies from too far. */
  lemma ItemMeaning(lit: Reader, dist: Reader, data: seq<byte>, p: nat, out: seq<byte>)
    ensures var it := ItemAt(lit, dist, data, p);
      it.Tok? && !Arbitrary(it.tok) ==>
        if Distance(it.tok) > |out| then Emit(out, it.tok) == None
        else Emit(out, it.tok).Some? && |Emit(out, it.tok).value| == |out| + Length(it.tok)
  {
    hide Lsb, Shl, CopyBack;
  }

  lemma {:induction false} BodyLonger(lit: Reader, dist: Reader, data: seq<byte>, p: nat, out: seq<byte>, turns: nat)
    ensures var r := Body(lit, dist, data, p, out, turns);
      r.Output? ==> |r.out| >= |out|
    decreases turns
  {
    hide ItemAt, Emit;
    if turns > 0 {
      ItemMeaning(lit, dist, data, p, out);
      match ItemAt(lit, dist, data, p)
      case Tok(tok, end) =>
        if !Arbitrary(tok) && Emit(out, tok).Some? {
          BodyLonger(lit, dist, data, end, Emit(out, tok).value, turns - 1);
        }
      case _ =>
    }
  }

  lemma BlockFollows(data: seq<byte>, kind: nat, room: nat, s: State, out: seq<byte>, turns: nat)
    requires |out| == s.len <= room
    ensures var r, f := BlockAt(data, s.p, kind, out, turns), BlockFetched(data, s.p, s.f, kind, turns);
      var c := BlockCourse(data, kind, room, s, turns);
      && (r.Output? ==>
            c == if f.Some? && |r.out| <= room then Through(State(r.end, f.value, |r.out|)) else Broken)
      && (r.Bad? ==> !c.Through?)
  {
    hide Body, BodyFetched, BodyCourse, ReaderOf, HeaderAt, HeaderFetched, FixedLit, FixedDist, ByteAt;
    BodyOutcome(ReaderOf(FixedLit(), data), ReaderOf(FixedDist(), data), data, room, s, out, turns);
    var t := HeaderAt(data, s.p);
    if t.Tables? && HeaderFetched(data, s.p, s.f).Some? {
      var begun := State(t.end, HeaderFetched(data, s.p, s.f).value, s.len);
      BodyOutcome(ReaderOf(t.lit, data), ReaderOf(t.dist, data), data, room, begun, out, turns);
    }
  }

  /** The same for a stream. */
  lemma {:induction false} StreamFollows(data: seq<byte>, room: nat, s: State, out: seq<byte>, turns: nat)
    requires |out| == s.len <= room
    ensures var r, f := StreamAt(data, s.p, out, turns), StreamFetched(data, s.p, s.f, out, turns);
      var c := StreamCourse(data, room, s, turns);
      && (r.Output? ==>
            c == if f.Some? && |r.out| <= room then Through(State(r.end, f.value, |r.out|)) else Broken)
      && (r.Bad? ==> !c.Through?)
    decreases 8 * |data| - s.p
  {
    hide BlockAt, BlockFetched, BlockCourse, HeadFetched, Bit, Lsb;
    if s.p < 8 * |data| {
      var kind := Lsb(data, s.p + 1, 2);
      var r := BlockAt(data, s.p + 3, kind, out, turns);
      var f := BlockFetched(data, s.p + 3, HeadFetched(s.p, s.f), kind, turns);
      BlockFollows(data, kind, room, Headed(s), out, turns);
      StreamUnfolds(data, s.p, out, turns, r);
      FetchedUnfolds(data, s.p, s.f, out, turns, r, f);
      StreamGrows(data, s.p, out, turns, r);
      if r.Output? {
        BlockGrows(data, s.p + 3, kind, out, turns);
        if f.Some? && |r.out| <= room && Bit(data, s.p) != 1 {
          StreamFollows(data, room, State(r.end, f.value, |r.out|), r.out, turns);
        }
      }
    }
  }

  // ----- Patience -----

  /** The state after k turns. */
  function Turns(lit: Reader, dist: Reader, data: seq<byte>, room: nat, s: State, k: nat): Option<State>
    decreases k
  {
    if k == 0 then Some(s)
    else
      match Turn(lit, dist, data, room, s)
      case None => None
      case Some(t) => Turns(lit, dist, data, room, t, k - 1)
  }

  /** The loop is still running after as many turns as it can take one after the other. */
  lemma {:induction false} RunningTurns(lit: Reader, dist: Reader, data: seq<byte>, room: nat, s: State, k: nat)
    ensures BodyCourse(lit, dist, data, room, s, k).Running? <==> Turns(lit, dist, data, room, s, k).Some?
    decreases k
  {
    hide ItemAt, ItemFetched;
    if k > 0 && Turn(lit, dist, data, room, s).Some? {
      RunningTurns(lit, dist, data, room, Turn(lit, dist, data, room, s).value, k - 1);
    }
  }

  lemma {:induction false} TurnsAdd(lit: Reader, dist: Reader, data: seq<byte>, room: nat, s: State, j: nat, k: nat)
    ensures Turns(lit, dist, data, room, s, j + k) ==
      match Turns(lit, dist, data, room, s, j)
      case None => None
      case Some(t) => Turns(lit, dist, data, room, t, k)
    decreases j
  {
    hide Turn;
    if j > 0 && Turn(lit, dist, data, room, s).Some? {
      TurnsAdd(lit, dist, data, room, Turn(lit, dist, data, room, s).value, j - 1, k);
    }
  }
}
