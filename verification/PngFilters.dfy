/** The PNG filters (sections 6.1 to 6.6 of RFC 2083), and that reconstruction inverts them. */
module PngFilters {
  import opened Bits
  import opened Options

  function Abs(x: int): nat {
    if x < 0 then -x else x
  }

  function Paeth(a: int, b: int, c: int): int {
    var p := a + b - c;
    var pa, pb, pc := Abs(p - a), Abs(p - b), Abs(p - c);
    if pa <= pb && pa <= pc then a else if pb <= pc then b else c
  }

  /** The neighbour nearest to a + b - c; of two as near, the one on the left, then the one above. */
  lemma PaethIsNearest(a: byte, b: byte, c: byte)
    ensures var r, p := Paeth(a, b, c), a + b - c;
      && (r == a || r == b || r == c) && 0 <= r < 256
      && Abs(p - r) <= Abs(p - a) && Abs(p - r) <= Abs(p - b) && Abs(p - r) <= Abs(p - c)
      && (Abs(p - a) == Abs(p - r) ==> r == a) && (Abs(p - b) == Abs(p - r) ==> r == a || r == b)
  {
  }

  function Average(a: int, b: int): int {
    (a + b) / 2
  }

  /** What filter type f predicts for a byte from the bytes to the left, above, and above left. */
  function Predict(f: nat, left: byte, up: byte, upLeft: byte): (r: int)
    ensures 0 <= r < 256
  {
    if f == 0 then 0 else if f == 1 then left else if f == 2 then up else if f == 3 then Average(left, up)
    else Paeth(left, up, upLeft)
  }

  function Byte(x: int): byte {
    x % 256
  }

  /** The byte n places to the left of i; zero left of the row. */
  function Left(row: seq<byte>, n: nat, i: nat): byte
    requires i <= n + |row|
  {
    if n <= i < n + |row| then row[i - n] else 0
  }

  /** A row as the encoder filters it. */
  function Filtered(f: nat, row: seq<byte>, prior: seq<byte>, n: nat): (r: seq<byte>)
    requires |prior| == |row|
    ensures |r| == |row|
  {
    seq(|row|, i requires 0 <= i < |row| => Byte(row[i] - Predict(f, Left(row, n, i), prior[i], Left(prior, n, i))))
  }

  /** The first len bytes of a row from its filtered bytes and the row above. */
  function Recon(f: nat, raw: seq<byte>, prior: seq<byte>, n: nat, len: nat): (r: seq<byte>)
    requires len <= |raw| && len <= |prior| && n > 0
    ensures |r| == len
    decreases len
  {
    if len == 0 then [] else
      var r := Recon(f, raw, prior, n, len - 1);
      r + [Byte(raw[len - 1] + Predict(f, Left(r, n, len - 1), prior[len - 1], Left(prior, n, len - 1)))]
  }

  lemma {:induction false} ReconPrefix(f: nat, raw: seq<byte>, prior: seq<byte>, n: nat, a: nat, b: nat)
    requires a <= b <= |raw| && b <= |prior| && n > 0
    ensures Recon(f, raw, prior, n, b)[..a] == Recon(f, raw, prior, n, a)
    decreases b
  {
    if a < b {
      ReconPrefix(f, raw, prior, n, a, b - 1);
    }
  }

  lemma ByteInverse(x: byte, p: int)
    requires 0 <= p < 256
    ensures Byte(Byte(x - p) + p) == x && Byte(Byte(x + p) - p) == x
  {
    assert Byte(x - p) == if x < p then x - p + 256 else x - p;
    assert Byte(x + p) == if x + p < 256 then x + p else x + p - 256;
  }

  lemma LeftPrefix(row: seq<byte>, n: nat, i: nat)
    requires i <= |row| && n > 0
    ensures Left(row[..i], n, i) == Left(row, n, i)
  {
  }

  lemma {:induction false} ReconFilteredUpTo(f: nat, row: seq<byte>, prior: seq<byte>, n: nat, raw: seq<byte>, len: nat)
    requires |prior| == |row| && n > 0 && len <= |row| && raw == Filtered(f, row, prior, n)
    ensures Recon(f, raw, prior, n, len) == row[..len]
    decreases len
  {
    if len > 0 {
      hide Predict, Byte, Left, Filtered;
      var i := len - 1;
      ReconFilteredUpTo(f, row, prior, n, raw, i);
      LeftPrefix(row, n, i);
      FilteredAt(f, row, prior, n, i);
      ByteInverse(row[i], Predict(f, Left(row, n, i), prior[i], Left(prior, n, i)));
      assert row[..len] == row[..i] + [row[i]];
    }
  }

  lemma FilteredAt(f: nat, row: seq<byte>, prior: seq<byte>, n: nat, i: nat)
    requires |prior| == |row| && i < |row|
    ensures Filtered(f, row, prior, n)[i] == Byte(row[i] - Predict(f, Left(row, n, i), prior[i], Left(prior, n, i)))
  {
  }

  /** Reconstruction undoes the filter, whatever its type. */
  lemma ReconFiltered(f: nat, row: seq<byte>, prior: seq<byte>, n: nat)
    requires |prior| == |row| && n > 0
    ensures Recon(f, Filtered(f, row, prior, n), prior, n, |row|) == row
  {
    ReconFilteredUpTo(f, row, prior, n, Filtered(f, row, prior, n), |row|);
    assert row[..|row|] == row;
  }

  /** And every filtered row is the filter of what it is reconstructed to. */
  lemma FilteredRecon(f: nat, raw: seq<byte>, prior: seq<byte>, n: nat)
    requires |prior| == |raw| && n > 0
    ensures Filtered(f, Recon(f, raw, prior, n, |raw|), prior, n) == raw
  {
    hide Predict, Left, Byte;
    var row := Recon(f, raw, prior, n, |raw|);
    forall i | 0 <= i < |raw| ensures Filtered(f, row, prior, n)[i] == raw[i] {
      ReconPrefix(f, raw, prior, n, i, |raw|);
      ReconPrefix(f, raw, prior, n, i + 1, |raw|);
      var r := Recon(f, raw, prior, n, i);
      assert row[i] == row[..i + 1][i];
      LeftPrefix(row, n, i);
      ByteInverse(raw[i], Predict(f, Left(r, n, i), prior[i], Left(prior, n, i)));
    }
  }

  // ----- Images -----

  function Zeros(w: nat): seq<byte> {
    seq(w, i => 0)
  }

  /** The rows of an image: each is a filter type and w filtered bytes. */
  function Image(raw: seq<byte>, prior: seq<byte>, n: nat, y: nat): Option<seq<seq<byte>>>
    requires n > 0
    decreases y
  {
    var w := |prior|;
    if y == 0 then Some([])
    else if |raw| < w + 1 || raw[0] > 4 then None
    else
      var row := Recon(raw[0], raw[1..w + 1], prior, n, w);
      match Image(raw[w + 1..], row, n, y - 1)
      case None => None
      case Some(rest) => Some([row] + rest)
  }

  type Kind = f: nat | f <= 4

  /** A row and the filter that its encoder chose for it. */
  datatype Line = Line(kind: Kind, bytes: seq<byte>)

  predicate Wide(lines: seq<Line>, w: nat) {
    forall k :: 0 <= k < |lines| ==> |lines[k].bytes| == w
  }

  function Encoded(lines: seq<Line>, prior: seq<byte>, n: nat): seq<byte>
    requires Wide(lines, |prior|)
  {
    if lines == [] then []
    else
      var head: seq<byte> := [lines[0].kind];
      head + Filtered(lines[0].kind, lines[0].bytes, prior, n) + Encoded(lines[1..], lines[0].bytes, n)
  }

  function Rows(lines: seq<Line>): (r: seq<seq<byte>>)
    ensures |r| == |lines|
  {
    seq(|lines|, k requires 0 <= k < |lines| => lines[k].bytes)
  }

  /** Whatever filter each row has, the image is what was encoded. More bytes may follow. */
  lemma {:induction false} ImageEncoded(lines: seq<Line>, prior: seq<byte>, n: nat, more: seq<byte>)
    requires Wide(lines, |prior|) && n > 0
    ensures Image(Encoded(lines, prior, n) + more, prior, n, |lines|) == Some(Rows(lines))
    decreases |lines|
  {
    if lines != [] {
      hide Image, Encoded, Rows;
      ImageEncoded(lines[1..], lines[0].bytes, n, more);
      FirstLine(lines, prior, n, more, Rows(lines[1..]));
      RowsNext(lines);
    }
  }

  lemma RowsNext(lines: seq<Line>)
    requires lines != []
    ensures Rows(lines) == [lines[0].bytes] + Rows(lines[1..])
  {
  }

  /** If the other rows are read back, so is the first row and they. */
  lemma FirstLine(lines: seq<Line>, prior: seq<byte>, n: nat, more: seq<byte>, rows: seq<seq<byte>>)
    requires Wide(lines, |prior|) && n > 0 && lines != []
    requires Image(Encoded(lines[1..], lines[0].bytes, n) + more, lines[0].bytes, n, |lines| - 1) == Some(rows)
    ensures Image(Encoded(lines, prior, n) + more, prior, n, |lines|) == Some([lines[0].bytes] + rows)
  {
    hide Filtered, Recon, Predict, Image;
    var f, row := lines[0].kind, lines[0].bytes;
    var filtered, rest, raw := Filtered(f, row, prior, n), Encoded(lines[1..], row, n), Encoded(lines, prior, n) + more;
    EncodedNext(lines, prior, n);
    hide Encoded, Wide;
    Split([f], filtered, rest, more);
    ReconFiltered(f, row, prior, n);
    ImageNext(raw, prior, n, |lines| - 1, row, rows);
  }

  lemma EncodedNext(lines: seq<Line>, prior: seq<byte>, n: nat)
    requires Wide(lines, |prior|) && lines != []
    ensures var head: seq<byte> := [lines[0].kind];
      Encoded(lines, prior, n) ==
      head + Filtered(lines[0].kind, lines[0].bytes, prior, n) + Encoded(lines[1..], lines[0].bytes, n)
  {
  }

  lemma ImageNext(raw: seq<byte>, prior: seq<byte>, n: nat, y: nat, row: seq<byte>, rows: seq<seq<byte>>)
    requires n > 0 && |raw| >= |prior| + 1 && raw[0] <= 4
    requires row == Recon(raw[0], raw[1..|prior| + 1], prior, n, |prior|)
    requires Image(raw[|prior| + 1..], row, n, y) == Some(rows)
    ensures Image(raw, prior, n, y + 1) == Some([row] + rows)
  {
  }

  lemma Split(head: seq<byte>, a: seq<byte>, b: seq<byte>, c: seq<byte>)
    requires |head| == 1
    ensures var all := head + a + b + c;
      all[0] == head[0] && all[1..|a| + 1] == a && all[|a| + 1..] == b + c
  {
  }

  // ----- What reconstruction computes -----

  /** The average is rounded down. */
  lemma AverageIsFloor(a: byte, b: byte)
    ensures 2 * Average(a, b) <= a + b <= 2 * Average(a, b) + 1
  {
  }

  lemma {:induction false} ReconAt(f: nat, raw: seq<byte>, prior: seq<byte>, n: nat, len: nat, i: nat)
    requires i < len <= |raw| && len <= |prior| && n > 0
    ensures var r := Recon(f, raw, prior, n, len);
      r[i] == Byte(raw[i] + Predict(f, Left(r, n, i), prior[i], Left(prior, n, i)))
    decreases len
  {
    hide Predict;
    if i < len - 1 {
      ReconAt(f, raw, prior, n, len - 1, i);
    }
  }

  /** What each filter type adds to a byte, modulo 256: nothing, the byte to the left, the one above,
      half their sum rounded down, or the nearest of three to left + above - corner. */
  lemma ReconBytes(f: nat, raw: seq<byte>, prior: seq<byte>, n: nat, len: nat, i: nat)
    requires i < len <= |raw| && len <= |prior| && n > 0 && f <= 4
    ensures var r := Recon(f, raw, prior, n, len);
      var left, up, corner := if i < n then 0 else r[i - n], prior[i], if i < n then 0 else prior[i - n];
      && (f == 0 ==> r[i] == raw[i])
      && (f == 1 ==> (r[i] - raw[i] - left) % 256 == 0)
      && (f == 2 ==> (r[i] - raw[i] - up) % 256 == 0)
      && (f == 3 ==> exists h: nat :: 2 * h <= left + up <= 2 * h + 1 && (r[i] - raw[i] - h) % 256 == 0)
      && (f == 4 ==> exists h: byte :: IsNearest(h, left, up, corner) && (r[i] - raw[i] - h) % 256 == 0)
  {
    ReconAt(f, raw, prior, n, len, i);
    hide Recon, Average, Paeth, Byte, IsNearest;
    var r := Recon(f, raw, prior, n, len);
    var left, up, corner := Left(r, n, i), prior[i], Left(prior, n, i);
    AverageIsFloor(left, up);
    PaethIsNearest(left, up, corner);
    NearestIs(left, up, corner);
    ByteIs(raw[i], Predict(f, left, up, corner));
  }

  lemma NearestIs(a: byte, b: byte, c: byte)
    ensures 0 <= Paeth(a, b, c) < 256 && IsNearest(Paeth(a, b, c), a, b, c)
  {
    PaethIsNearest(a, b, c);
  }

  lemma ByteIs(x: byte, p: int)
    requires 0 <= p < 256
    ensures (Byte(x + p) - x - p) % 256 == 0 && (p == 0 ==> Byte(x + p) == x)
  {
  }

  /** h is the one of a, b and c that is nearest to a + b - c, a before b before c. */
  predicate IsNearest(h: int, a: int, b: int, c: int) {
    var p := a + b - c;
    && (h == a || h == b || h == c)
    && Abs(p - h) <= Abs(p - a) && Abs(p - h) <= Abs(p - b) && Abs(p - h) <= Abs(p - c)
    && (Abs(p - a) == Abs(p - h) ==> h == a) && (Abs(p - b) == Abs(p - h) ==> h == a || h == b)
  }

  lemma Plain()
    ensures Recon(0, [1, 1], [0, 0], 1, 2) == [1, 1]
  {
    assert Recon(0, [1, 1], [0, 0], 1, 0) == [];
    assert Recon(0, [1, 1], [0, 0], 1, 1) == [1];
  }

  lemma Averaged()
    ensures Recon(3, [1, 0], [1, 1], 1, 2) == [1, 1]
  {
    assert Recon(3, [1, 0], [1, 1], 1, 0) == [];
    assert Recon(3, [1, 0], [1, 1], 1, 1) == [1];
  }

  /** Two rows of two pixels, without a filter and with the average. */
  lemma TwoRows()
    ensures Image([0, 1, 1, 3, 1, 0], [0, 0], 1, 2) == Some([[1, 1], [1, 1]])
  {
    var raw: seq<byte> := [0, 1, 1, 3, 1, 0];
    var none: seq<byte> := [];
    var second := raw[3..];
    assert raw[1..3] == [1, 1] && second[1..3] == [1, 0] && second[3..] == none;
    Plain();
    Averaged();
    hide Recon;
    var row: seq<byte> := [1, 1];
    assert Image(none, row, 1, 0) == Some([]);
    assert [row] + [] == [row] && [row] + [row] == [row, row];
    assert Image(second, row, 1, 1) == Some([row]);
  }
}
