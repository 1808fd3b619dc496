/** Comparing UTF-8 text (section 3 of RFC 3629) with big-endian UTF-16 text (section 2 of
    RFC 2781). */
module Utf {
  import opened Bits
  import opened Options

  type Unit = u: nat | u < 0x1_0000

  /** A character that is not a surrogate. */
  type Scalar = c: nat | c < 0xD800 || 0xE000 <= c < 0x11_0000

  predicate IsHigh(u: Unit) {
    0xD800 <= u < 0xDC00
  }

  predicate IsLow(u: Unit) {
    0xDC00 <= u < 0xE000
  }

  /** The character of a pair of surrogates. */
  function Pair(high: Unit, low: Unit): (c: Scalar)
    requires IsHigh(high) && IsLow(low)
    ensures 0x1_0000 <= c < 0x11_0000
  {
    0x1_0000 + (high - 0xD800) * 0x400 + (low - 0xDC00)
  }

  /** Six bits in a byte that continues a character. */
  function Next(x: nat): byte {
    0x80 + x % 0x40
  }

  function Encode8(c: Scalar): (r: seq<byte>)
    ensures |r| > 0
  {
    if c < 0x80 then One(c)
    else if c < 0x800 then [First(0xC0, c / 0x40), Next(c)]
    else if c < 0x1_0000 then [First(0xE0, c / 0x1000), Next(c / 0x40), Next(c)]
    else Four(c)
  }

  /** The form in four bytes, which also numbers that are no characters can have. */
  function Four(c: nat): (r: seq<byte>)
    requires c < 0x40_0000
    ensures |r| == 4 && r[0] >= 0xF0
  {
    [First(0xF0, c / 0x4_0000), Next(c / 0x1000), Next(c / 0x40), Next(c)]
  }

  function One(c: byte): seq<byte> {
    [c]
  }

  function First(mark: nat, x: nat): byte
    requires mark + x < 256
  {
    mark + x
  }

  function Text8(text: seq<Scalar>): seq<byte> {
    if text == [] then [] else Encode8(text[0]) + Text8(text[1..])
  }

  /** Unit i of big-endian bytes. */
  function UnitAt(s: seq<byte>, i: nat): Unit
    requires i + 2 <= |s|
  {
    256 * ByteAt(s, i) + ByteAt(s, i + 1)
  }

  /** Every unit is there, and every high surrogate has a low one after it. */
  predicate Paired(s: seq<byte>) {
    if s == [] then true
    else
      |s| >= 2 &&
      if IsHigh(UnitAt(s, 0)) then |s| >= 4 && IsLow(UnitAt(s, 2)) && Paired(s[4..]) else Paired(s[2..])
  }

  /** The characters of UTF-16 text; none of it makes sense if there is a low surrogate alone. */
  function Decode16(s: seq<byte>): Option<seq<Scalar>>
    requires Paired(s)
  {
    if s == [] then Some([])
    else
      var u := UnitAt(s, 0);
      if IsLow(u) then None
      else
        var c: Scalar := if IsHigh(u) then Pair(u, UnitAt(s, 2)) else u;
        match Decode16(s[if IsHigh(u) then 4 else 2..])
        case None => None
        case Some(rest) => Some([c] + rest)
  }

  function UnitBytes(u: Unit): seq<byte> {
    [u / 256, u % 256]
  }

  function Encode16(c: Scalar): seq<byte> {
    if c < 0x1_0000 then UnitBytes(c)
    else UnitBytes(0xD800 + (c - 0x1_0000) / 0x400) + UnitBytes(0xDC00 + c % 0x400)
  }

  function Text16(text: seq<Scalar>): seq<byte> {
    if text == [] then [] else Encode16(text[0]) + Text16(text[1..])
  }

  lemma UnitBack(u: Unit, rest: seq<byte>)
    ensures UnitAt(UnitBytes(u) + rest, 0) == u
  {
  }

  lemma PairBack(c: Scalar)
    requires c >= 0x1_0000
    ensures var high, low := 0xD800 + (c - 0x1_0000) / 0x400, 0xDC00 + c % 0x400;
      IsHigh(high) && IsLow(low) && Pair(high, low) == c
  {
    assert c - 0x1_0000 == 0x400 * ((c - 0x1_0000) / 0x400) + c % 0x400;
  }

  /** Every text can be written in UTF-16, and reading it gives it back. */
  lemma {:induction false} TextBack(text: seq<Scalar>)
    ensures Paired(Text16(text)) && Decode16(Text16(text)) == Some(text)
    decreases |text|
  {
    hide UnitBytes, UnitAt, Pair;
    if text != [] {
      var c, rest := text[0], Text16(text[1..]);
      TextBack(text[1..]);
      assert [c] + text[1..] == text;
      hide Paired, Decode16;
      if c < 0x1_0000 {
        UnitBack(c, rest);
        OneUnit(Text16(text), c, rest);
      } else {
        var n: int := c;
        var high: Unit, low: Unit := 0xD800 + (n - 0x1_0000) / 0x400, 0xDC00 + n % 0x400;
        PairBack(c);
        UnitBack(high, UnitBytes(low) + rest);
        UnitBack(low, rest);
        assert Text16(text) == UnitBytes(high) + (UnitBytes(low) + rest);
        TwoUnits(Text16(text), high, low, rest);
      }
    }
  }

  lemma OneUnit(s: seq<byte>, u: Unit, rest: seq<byte>)
    requires s == UnitBytes(u) + rest && UnitAt(s, 0) == u && !IsHigh(u) && !IsLow(u)
    requires Paired(rest) && Decode16(rest).Some?
    ensures Paired(s) && Decode16(s) == Some([u] + Decode16(rest).value)
  {
    TwoBytes(u);
    hide UnitBytes, UnitAt;
    assert s[2..] == rest;
  }

  lemma TwoUnits(s: seq<byte>, high: Unit, low: Unit, rest: seq<byte>)
    requires s == UnitBytes(high) + (UnitBytes(low) + rest) && IsHigh(high) && IsLow(low)
    requires UnitAt(s, 0) == high && UnitAt(UnitBytes(low) + rest, 0) == low
    requires Paired(rest) && Decode16(rest).Some?
    ensures Paired(s) && Decode16(s) == Some([Pair(high, low)] + Decode16(rest).value)
  {
    TwoBytes(high);
    TwoBytes(low);
    assert UnitAt(s, 2) == UnitAt(UnitBytes(low) + rest, 0);
    hide UnitBytes, UnitAt, Pair;
    assert s[4..] == rest;
  }

  lemma TwoBytes(u: Unit)
    ensures |UnitBytes(u)| == 2
  {
  }

  // ----- UTF-8 is a prefix code -----

  lemma Sixes(c: nat)
    ensures c == 0x40 * (c / 0x40) + c % 0x40
    ensures c / 0x40 == 0x40 * (c / 0x1000) + c / 0x40 % 0x40
    ensures c / 0x1000 == 0x40 * (c / 0x4_0000) + c / 0x1000 % 0x40
  {
  }

  /** The first byte says how many there are. */
  lemma FirstByte(c: Scalar)
    ensures var r := Encode8(c);
      |r| == if r[0] < 0x80 then 1 else if r[0] < 0xE0 then 2 else if r[0] < 0xF0 then 3 else 4
  {
  }

  lemma SameEncoding(c: Scalar, d: Scalar)
    requires Encode8(c) == Encode8(d)
    ensures c == d
  {
    Sixes(c);
    Sixes(d);
    var r, t := Encode8(c), Encode8(d);
    assert r[0] == t[0] && r[|r| - 1] == t[|t| - 1];
    if |r| >= 3 {
      assert r[1] == t[1] && r[2] == t[2];
    }
  }

  /** Different texts have different encodings. */
  lemma {:induction false} TextInjective(a: seq<Scalar>, b: seq<Scalar>)
    requires Text8(a) == Text8(b)
    ensures a == b
    decreases |a|
  {
    hide Encode8;
    if a != [] && b != [] {
      var x, y := Encode8(a[0]), Encode8(b[0]);
      assert Text8(a)[0] == x[0] && Text8(b)[0] == y[0];
      FirstByte(a[0]);
      FirstByte(b[0]);
      assert Text8(a)[..|x|] == x && Text8(b)[..|y|] == y;
      SameEncoding(a[0], b[0]);
      assert Text8(a)[|x|..] == Text8(a[1..]) && Text8(b)[|y|..] == Text8(b[1..]);
      TextInjective(a[1..], b[1..]);
    }
  }

  // ----- What the comparison makes of UTF-16 -----

  datatype Part = Alone(u: Unit) | Joined(high: Unit, second: Unit)

  /** A unit that is no surrogate, or a high surrogate and whatever unit comes after it. */
  type Piece = p: Part | if p.Alone? then !IsHigh(p.u) && !IsLow(p.u) else IsHigh(p.high)
    witness Alone(0)

  /** Every unit is there, and there is one after every high surrogate. */
  predicate Whole(s: seq<byte>) {
    if s == [] then true
    else |s| >= 2 && if IsHigh(UnitAt(s, 0)) then |s| >= 4 && Whole(s[4..]) else Whole(s[2..])
  }

  function PieceAt(s: seq<byte>, i: nat): Piece
    requires i + 2 <= |s| && !IsLow(UnitAt(s, i)) && (IsHigh(UnitAt(s, i)) ==> i + 4 <= |s|)
  {
    if IsHigh(UnitAt(s, i)) then Joined(UnitAt(s, i), UnitAt(s, i + 2)) else Alone(UnitAt(s, i))
  }

  /** The pieces from the start on, unless one begins with a low surrogate. */
  function Pieces(s: seq<byte>): Option<seq<Piece>>
    requires Whole(s)
  {
    if s == [] then Some([])
    else if IsLow(UnitAt(s, 0)) then None
    else After([PieceAt(s, 0)], Pieces(s[if IsHigh(UnitAt(s, 0)) then 4 else 2..]))
  }

  /** What two units stand for, by the rule for pairs. */
  function Value(high: Unit, second: Unit): (c: nat)
    requires IsHigh(high)
    ensures 0x2400 <= c < 0x11_2400
  {
    0x1_0000 + (high - 0xD800) * 0x400 + second - 0xDC00
  }

  /** The bytes that a piece is compared with. */
  function Bytes(p: Piece): (r: seq<byte>)
    ensures |r| > 0
  {
    match p
    case Alone(u) => Encode8(u)
    case Joined(high, second) => Four(Value(high, second))
  }

  function AllBytes(ps: seq<Piece>): seq<byte> {
    if ps == [] then [] else Bytes(ps[0]) + AllBytes(ps[1..])
  }

  /** For well-formed text these are its UTF-8 encoding. */
  lemma {:induction false} PiecesOfText(s: seq<byte>)
    requires Paired(s)
    ensures Whole(s)
    ensures match Decode16(s)
      case None => Pieces(s) == None
      case Some(text) => Pieces(s).Some? && AllBytes(Pieces(s).value) == Text8(text)
    decreases |s|
  {
    hide UnitAt, Encode8, Four;
    if s != [] {
      var high := IsHigh(UnitAt(s, 0));
      var rest := s[if high then 4 else 2..];
      PiecesOfText(rest);
      if !IsLow(UnitAt(s, 0)) && Decode16(rest).Some? {
        var piece, text, ps := PieceAt(s, 0), Decode16(rest).value, Pieces(rest).value;
        var c: Scalar := if high then Pair(UnitAt(s, 0), UnitAt(s, 2)) else UnitAt(s, 0);
        PairBytes(piece);
        FirstPiece(piece, ps);
        FirstScalar(c, text);
      }
    }
  }

  lemma PairBytes(p: Piece)
    ensures p.Joined? && IsLow(p.second) ==> Bytes(p) == Encode8(Pair(p.high, p.second))
  {
  }

  lemma FirstPiece(p: Piece, ps: seq<Piece>)
    ensures AllBytes([p] + ps) == Bytes(p) + AllBytes(ps)
  {
    assert ([p] + ps)[1..] == ps;
  }

  lemma FirstScalar(c: Scalar, text: seq<Scalar>)
    ensures Text8([c] + text) == Encode8(c) + Text8(text)
  {
    assert ([c] + text)[1..] == text;
  }

  /** No two units together stand for a number that is out of the range of pairs. */
  predicate InRange(ps: seq<Piece>) {
    forall p :: p in ps && p.Joined? ==> 0x1_0000 <= Value(p.high, p.second) < 0x11_0000
  }

  /** A piece that is compared with the encoding of a character stands for that character. */
  lemma BytesOfScalar(p: Piece, c: Scalar)
    requires Bytes(p) == Encode8(c)
    ensures p.Joined? ==> 0x1_0000 <= Value(p.high, p.second) == c
  {
    if p.Joined? {
      var n := Value(p.high, p.second);
      FirstByte(c);
      Sixes(c);
      Sixes(n);
      var r, t := Four(n), Encode8(c);
      assert r[0] == t[0] && r[1] == t[1] && r[2] == t[2] && r[3] == t[3];
    }
  }

  /** The pieces are compared with some UTF-8 text if and only if no number is out of range. */
  lemma {:induction false} SomeText(ps: seq<Piece>) returns (text: seq<Scalar>)
    requires InRange(ps)
    ensures AllBytes(ps) == Text8(text)
    decreases |ps|
  {
    hide Encode8, Bytes;
    if ps == [] {
      text := [];
    } else {
      assert forall q :: q in ps[1..] ==> q in ps;
      var rest := SomeText(ps[1..]);
      var c := ScalarOf(ps[0]);
      FirstScalar(c, rest);
      text := [c] + rest;
    }
  }

  lemma ScalarOf(p: Piece) returns (c: Scalar)
    requires InRange([p])
    ensures Bytes(p) == Encode8(c)
  {
    assert p in [p];
    c := if p.Joined? then Value(p.high, p.second) else p.u;
  }

  lemma {:induction false} OnlyInRange(ps: seq<Piece>, text: seq<Scalar>)
    requires AllBytes(ps) == Text8(text)
    ensures InRange(ps)
    decreases |ps|
  {
    hide Encode8, Bytes, Value;
    if ps != [] {
      assert text != [];
      var x, y := Bytes(ps[0]), Encode8(text[0]);
      assert AllBytes(ps)[0] == x[0] && Text8(text)[0] == y[0];
      FirstByte(text[0]);
      FirstPieceByte(ps[0]);
      assert AllBytes(ps)[..|x|] == x && Text8(text)[..|y|] == y;
      BytesOfScalar(ps[0], text[0]);
      assert AllBytes(ps)[|x|..] == AllBytes(ps[1..]) && Text8(text)[|y|..] == Text8(text[1..]);
      OnlyInRange(ps[1..], text[1..]);
    }
  }

  lemma FirstPieceByte(p: Piece)
    ensures var r := Bytes(p);
      |r| == if r[0] < 0x80 then 1 else if r[0] < 0xE0 then 2 else if r[0] < 0xF0 then 3 else 4
  {
    if p.Alone? {
      FirstByte(p.u);
    }
  }

  // ----- The comparison -----

  /** The pieces before a place, and what the rest is. */
  function After(done: seq<Piece>, rest: Option<seq<Piece>>): Option<seq<Piece>> {
    match rest
    case None => None
    case Some(more) => Some(done + more)
  }

  /** What comes next in UTF-16 text. */
  lemma NextPiece(s: seq<byte>, at: nat, done: seq<Piece>)
    requires at < |s| && Whole(s[at..])
    ensures at + 2 <= |s|
    ensures var u := UnitAt(s, at);
      var width := if IsHigh(u) then 4 else 2;
      at + width <= |s| && Whole(s[at + width..])
      && After(done, Pieces(s[at..])) ==
        if IsLow(u) then None else After(done + [PieceAt(s, at)], Pieces(s[at + width..]))
  {
    var r := s[at..];
    var u := UnitAt(s, at);
    assert UnitAt(r, 0) == u;
    var width := if IsHigh(u) then 4 else 2;
    if IsHigh(u) {
      assert UnitAt(r, 2) == UnitAt(s, at + 2);
    }
    hide UnitAt;
    assert r[width..] == s[at + width..];
    if !IsLow(u) {
      assert PieceAt(r, 0) == PieceAt(s, at);
      Move(done, PieceAt(s, at), Pieces(s[at + width..]));
    }
  }

  lemma Move(done: seq<Piece>, p: Piece, rest: Option<seq<Piece>>)
    ensures After(done, After([p], rest)) == After(done + [p], rest)
  {
    if rest.Some? {
      assert done + ([p] + rest.value) == done + [p] + rest.value;
    }
  }

  lemma {:induction false} BytesConcat(a: seq<Piece>, b: seq<Piece>)
    ensures AllBytes(a + b) == AllBytes(a) + AllBytes(b)
    decreases |a|
  {
    hide Bytes;
    if a == [] {
      assert a + b == b;
    } else {
      assert (a + b)[1..] == a[1..] + b;
      BytesConcat(a[1..], b);
    }
  }

  lemma MiddlePrefix(s: seq<byte>, a: seq<byte>, b: seq<byte>, c: seq<byte>)
    requires a + b + c <= s
    ensures b <= s[|a|..]
  {
    assert (a + b + c)[|a|..|a| + |b|] == b;
    assert s[|a|..][..|b|] == s[|a|..|a| + |b|] == (a + b + c)[|a|..|a| + |b|];
  }

  /** If a piece does not match, the text is not a prefix. */
  lemma NotPrefix(s1: seq<byte>, i: nat, done: seq<Piece>, p: Piece, rest: Option<seq<Piece>>)
    requires i <= |s1| && s1[..i] == AllBytes(done) && !(Bytes(p) <= s1[i..])
    ensures var all := After(done + [p], rest);
      all.Some? ==> !(AllBytes(all.value) <= s1)
  {
    hide Bytes;
    if rest.Some? {
      var all := done + [p] + rest.value;
      BytesConcat(done + [p], rest.value);
      BytesConcat(done, [p]);
      OnePiece(p);
      assert AllBytes(all) == AllBytes(done) + Bytes(p) + AllBytes(rest.value);
      if AllBytes(all) <= s1 {
        MiddlePrefix(s1, AllBytes(done), Bytes(p), AllBytes(rest.value));
      }
    }
  }

  lemma OnePiece(p: Piece)
    ensures AllBytes([p]) == Bytes(p)
  {
    assert [p][1..] == [];
  }

  /** Does the UTF-8 text go on with this unit? */
  method TakeUnit(s1: seq<byte>, i: nat, u: Unit) returns (ok: bool, next: nat)
    requires i <= |s1| && !IsHigh(u) && !IsLow(u)
    ensures ok <==> Encode8(u) <= s1[i..]
    ensures ok ==> next == i + |Encode8(u)|
  {
    next := i;
    if u < 0x80 {
      if i >= |s1| || s1[i] != u {
        return false, next;
      }
      next := i + 1;
    } else if u < 0x800 {
      if i + 1 >= |s1| || s1[i] != 0xC0 + u / 0x40 || s1[i + 1] != 0x80 + u % 0x40 {
        return false, next;
      }
      next := i + 2;
    } else {
      if i + 2 >= |s1| || s1[i] != 0xE0 + u / 0x1000 || s1[i + 1] != 0x80 + u / 0x40 % 0x40
         || s1[i + 2] != 0x80 + u % 0x40 {
        return false, next;
      }
      next := i + 3;
    }
    ok := true;
  }

  /** Does it go on with what two units stand for? */
  method TakePair(s1: seq<byte>, i: nat, high: Unit, second: Unit) returns (ok: bool, next: nat)
    requires i <= |s1| && IsHigh(high)
    ensures ok <==> Four(Value(high, second)) <= s1[i..]
    ensures ok ==> next == i + 4
  {
    next := i;
    if i + 3 >= |s1| {
      return false, next;
    }
    var c := (high - 0xD800) * 0x400 + (second - 0xDC00) + 0x1_0000;
    if s1[i] != 0xF0 + c / 0x4_0000 || s1[i + 1] != 0x80 + c / 0x1000 % 0x40
       || s1[i + 2] != 0x80 + c / 0x40 % 0x40 || s1[i + 3] != 0x80 + c % 0x40 {
      return false, next;
    }
    next := i + 4;
    ok := true;
  }

  /** The length of the UTF-16 text in UTF-8 if the UTF-8 text begins with it, or -1. */
  method ComparePrefix(s1: seq<byte>, s2: seq<byte>) returns (r: int)
    requires Whole(s2)
    ensures r ==
      match Pieces(s2)
      case None => -1
      case Some(ps) => if AllBytes(ps) <= s1 then |AllBytes(ps)| else -1
    ensures Paired(s2) ==>
      match Decode16(s2)
      case None => r == -1
      case Some(text) => r == if Text8(text) <= s1 then |Text8(text)| else -1
  {
    hide Encode8, Four, Value, Text8, AllBytes, Decode16, Pieces, Paired, Whole, UnitAt;
    if Paired(s2) {
      PiecesOfText(s2);
    }
    ghost var done: seq<Piece> := [];
    var i: nat, at: nat := 0, 0;
    Start(s2);
    while at < |s2|
      invariant at <= |s2| && i <= |s1| && s1[..i] == AllBytes(done)
      invariant Whole(s2[at..]) && Pieces(s2) == After(done, Pieces(s2[at..]))
      decreases |s2| - at
    {
      NextPiece(s2, at, done);
      var ch := UnitAt(s2, at);
      if 0xDC00 <= ch < 0xE000 {
        return -1;
      }
      ghost var p := PieceAt(s2, at);
      var width: nat := 2;
      var ok, next;
      if 0xD800 <= ch < 0xDC00 {
        width := 4;
        ok, next := TakePair(s1, i, ch, UnitAt(s2, at + 2));
      } else {
        ok, next := TakeUnit(s1, i, ch);
      }
      if !ok {
        NotPrefix(s1, i, done, p, Pieces(s2[at + width..]));
        return -1;
      }
      Taken(s1, i, done, p);
      done := done + [p];
      i, at := next, at + width;
    }
    Finished(s2, s1, i, done);
    r := i;
  }

  lemma Start(s: seq<byte>)
    requires Whole(s)
    ensures s[0..] == s && AllBytes([]) == [] && Pieces(s) == After([], Pieces(s))
  {
    hide Pieces;
    if Pieces(s).Some? {
      assert [] + Pieces(s).value == Pieces(s).value;
    }
  }

  lemma Taken(s1: seq<byte>, i: nat, done: seq<Piece>, p: Piece)
    requires i <= |s1| && s1[..i] == AllBytes(done) && Bytes(p) <= s1[i..]
    ensures i + |Bytes(p)| <= |s1| && s1[..i + |Bytes(p)|] == AllBytes(done + [p])
  {
    hide Bytes;
    BytesConcat(done, [p]);
    OnePiece(p);
    assert s1[..i + |Bytes(p)|] == s1[..i] + s1[i..][..|Bytes(p)|];
  }

  lemma Finished(s2: seq<byte>, s1: seq<byte>, i: nat, done: seq<Piece>)
    requires i <= |s1| && s1[..i] == AllBytes(done) && Whole(s2)
    requires Pieces(s2) == After(done, Pieces(s2[|s2|..]))
    ensures Pieces(s2) == Some(done) && AllBytes(done) <= s1 && |AllBytes(done)| == i
  {
    assert done + [] == done && s2[|s2|..] == [];
  }

  /** Whether the texts are the same. For well-formed UTF-16 text that is so just when the UTF-8
      text is its encoding, and the encoding of no other text. */
  method CompareTexts(s1: seq<byte>, s2: seq<byte>) returns (same: bool)
    requires Whole(s2)
    ensures same <==> Pieces(s2).Some? && s1 == AllBytes(Pieces(s2).value)
    ensures Paired(s2) ==> forall text: seq<Scalar> :: s1 == Text8(text) ==> (same <==> Decode16(s2) == Some(text))
  {
    hide Text8, AllBytes, Pieces, Whole, Decode16, Paired;
    var r := ComparePrefix(s1, s2);
    same := |s1| == r;
    if Paired(s2) {
      PiecesOfText(s2);
      forall text: seq<Scalar> | s1 == Text8(text) && same ensures Decode16(s2) == Some(text) {
        TextInjective(text, Decode16(s2).value);
      }
    }
  }

  /** Where UTF-16 text is not well-formed, there is a text that it is found to be the same as if
      and only if no piece begins with a low surrogate and no number is out of range. */
  lemma Mistaken(s2: seq<byte>)
    requires Whole(s2)
    ensures (exists text: seq<Scalar> :: Pieces(s2).Some? && Text8(text) == AllBytes(Pieces(s2).value)) <==>
      Pieces(s2).Some? && InRange(Pieces(s2).value)
  {
    hide Pieces, InRange, AllBytes, Text8, Whole;
    if Pieces(s2).Some? {
      var ps := Pieces(s2).value;
      if InRange(ps) {
        var text := SomeText(ps);
      }
      forall text: seq<Scalar> | Text8(text) == AllBytes(ps) ensures InRange(ps) {
        OnlyInRange(ps, text);
      }
    }
  }

  /** Two units that are no pair, but are taken for one. */
  lemma TakenForPair()
    ensures var s2: seq<byte> := [0xD8, 0x00, 0xE0, 0x00];
      && !Paired(s2) && Whole(s2) && Pieces(s2).Some? && AllBytes(Pieces(s2).value) == Text8([0x1_0400])
  {
    var s2: seq<byte> := [0xD8, 0x00, 0xE0, 0x00];
    assert UnitAt(s2, 0) == 0xD800 && UnitAt(s2, 2) == 0xE000 && s2[4..] == [];
    var p := Joined(0xD800, 0xE000);
    assert Pieces(s2) == Some([p] + []);
    assert [p] + [] == [p];
    FirstPiece(p, []);
    FirstScalar(0x1_0400, []);
    assert [0x1_0400] + [] == [0x1_0400];
  }

  // ----- The encodings by value -----

  /** The character is what the bytes of its UTF-8 encoding say (section 3 of RFC 3629), and there
      are as few of them as can be. */
  lemma EncodingValue(c: Scalar)
    ensures var r := Encode8(c);
      && |r| == (if c < 0x80 then 1 else if c < 0x800 then 2 else if c < 0x1_0000 then 3 else 4)
      && (forall i :: 1 <= i < |r| ==> 0x80 <= r[i] < 0xC0)
      && (|r| == 1 ==> c == r[0])
      && (|r| == 2 ==> 0xC0 <= r[0] < 0xE0 && c == 0x40 * (r[0] - 0xC0) as int + (r[1] - 0x80))
      && (|r| == 3 ==> 0xE0 <= r[0] < 0xF0 && c == 0x1000 * (r[0] - 0xE0) as int + SixBits(r[1], r[2]))
      && (|r| == 4 ==>
            && 0xF0 <= r[0] < 0xF8
            && c == 0x4_0000 * (r[0] - 0xF0) as int + 0x1000 * (r[1] - 0x80) as int + SixBits(r[2], r[3]))
  {
    Sixes(c);
  }

  /** The last two bytes of an encoding, six bits each. */
  function SixBits(a: byte, b: byte): int {
    0x40 * (a as int - 0x80) + (b as int - 0x80)
  }

  /** A pair of surrogates stands for 1024 characters a high one, from 0x10000 on. */
  lemma PairValue(c: Scalar)
    requires c >= 0x1_0000
    ensures var r := Encode16(c);
      && |r| == 4 && IsHigh(UnitAt(r, 0)) && IsLow(UnitAt(r, 2))
      && c - 0x1_0000 == 0x400 * (UnitAt(r, 0) - 0xD800) + (UnitAt(r, 2) - 0xDC00)
  {
    PairBack(c);
    UnitBack(0xD800 + (c - 0x1_0000) / 0x400, UnitBytes(0xDC00 + c % 0x400));
    UnitBack(0xDC00 + c % 0x400, []);
    TwoBytes(0xD800 + (c - 0x1_0000) / 0x400);
    TwoBytes(0xDC00 + c % 0x400);
    var r := Encode16(c);
    assert UnitBytes(0xDC00 + c % 0x400) + [] == UnitBytes(0xDC00 + c % 0x400);
    assert UnitAt(r, 2) == UnitAt(UnitBytes(0xDC00 + c % 0x400), 0);
  }

  /** Characters of two, three and four bytes: an e with an acute accent, the ideograph for the middle,
      and a grinning face. */
  lemma KnownCharacters()
    ensures Encode8(0xE9) == [0xC3, 0xA9] && Encode16(0xE9) == [0x00, 0xE9]
    ensures Encode8(0x4E2D) == [0xE4, 0xB8, 0xAD] && Encode16(0x4E2D) == [0x4E, 0x2D]
    ensures Encode8(0x1_F600) == [0xF0, 0x9F, 0x98, 0x80] && Encode16(0x1_F600) == [0xD8, 0x3D, 0xDE, 0x00]
  {
  }
}
