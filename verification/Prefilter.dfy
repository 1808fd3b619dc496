/** Averaging pixels over the last few of a line, in place, with a circular buffer. */
module Prefilter {
  import opened Bits
  import opened Grid

  /** The sum of the k pixels up to and including i; those before the line are zero. */
  function WindowSum(line: seq<byte>, i: nat, k: nat): nat
    requires i < |line|
    decreases k
  {
    if k == 0 then 0 else line[i] + if i == 0 then 0 else WindowSum(line, i - 1, k - 1)
  }

  /** What leaves the window when the pixel after i - 1 enters. */
  function Leaving(line: seq<byte>, i: nat, k: nat): byte
    requires i < |line| + k && k > 0
  {
    if k <= i then line[i - k] else 0
  }

  /** The window moves on by one pixel. */
  lemma {:induction false} Slide(line: seq<byte>, i: nat, k: nat)
    requires i < |line| && k > 0
    ensures WindowSum(line, i, k) == line[i] + (if i == 0 then 0 else WindowSum(line, i - 1, k)) - Leaving(line, i, k)
    decreases k
  {
    if i > 0 {
      Longer(line, i - 1, k - 1);
    }
  }

  lemma {:induction false} Longer(line: seq<byte>, i: nat, k: nat)
    requires i < |line|
    ensures WindowSum(line, i, k + 1) == WindowSum(line, i, k) + if k <= i then line[i - k] else 0
    decreases k
  {
    if k > 0 && i > 0 {
      Longer(line, i - 1, k - 1);
    }
  }

  /** An average is a byte. */
  lemma {:induction false} SumBound(line: seq<byte>, i: nat, k: nat)
    requires i < |line|
    ensures WindowSum(line, i, k) <= 255 * k
    decreases k
  {
    if k > 0 && i > 0 {
      SumBound(line, i - 1, k - 1);
    }
  }

  lemma AverageIsByte(total: nat, k: nat)
    requires k > 0 && total <= 255 * k
    ensures total / k <= 255
  {
    var q := total / k;
    assert total == q * k + total % k;
    assert q >= 256 ==> q * k >= 256 * k;
  }

  // ----- Lines of pixels -----

  const SLOTS: nat := 8

  /** Where pixel i of a line is. */
  function Pos(base: nat, step: nat, i: nat): nat {
    base + i * step
  }

  lemma Positive(a: nat, b: nat)
    requires a > 0 && b > 0
    ensures a * b > 0
  {
  }

  lemma PosApart(base: nat, step: nat, i: nat, j: nat)
    requires i < j && step > 0
    ensures Pos(base, step, i) < Pos(base, step, j)
  {
    Positive(j - i, step);
    assert j * step == i * step + (j - i) * step;
  }

  lemma SlotsApart(t: nat, u: nat)
    requires t < u < t + SLOTS
    ensures t % SLOTS != u % SLOTS
  {
    assert t == SLOTS * (t / SLOTS) + t % SLOTS;
    assert u == SLOTS * (u / SLOTS) + u % SLOTS;
  }

  ghost predicate OnLine(base: nat, step: nat, n: nat, q: int) {
    exists i :: 0 <= i < n && Pos(base, step, i) == q
  }

  function LineOf(s: seq<byte>, base: nat, step: nat, n: nat): (r: seq<byte>)
    requires forall i :: 0 <= i < n ==> Pos(base, step, i) < |s|
    ensures |r| == n
  {
    seq(n, i requires 0 <= i < n => s[Pos(base, step, i)])
  }

  /** The first i pixels are filtered, the others and everything else as before. */
  ghost predicate Progress(s: seq<byte>, was: seq<byte>, base: nat, step: nat, line: seq<byte>, k: nat, i: nat)
    requires k > 0
  {
    && |s| == |was| && (forall j :: 0 <= j < |line| ==> Pos(base, step, j) < |s|)
    && (forall j :: 0 <= j < |line| ==> s[Pos(base, step, j)] == if j < i then WindowSum(line, j, k) / k else line[j])
    && (forall q :: 0 <= q < |s| && !OnLine(base, step, |line|, q) ==> s[q] == was[q])
  }

  lemma OneMore(s: seq<byte>, was: seq<byte>, base: nat, step: nat, line: seq<byte>, k: nat, i: nat, b: byte)
    requires k > 0 && step > 0 && Progress(s, was, base, step, line, k, i) && i < |line|
    requires b == WindowSum(line, i, k) / k
    ensures Progress(s[Pos(base, step, i) := b], was, base, step, line, k, i + 1)
  {
    hide Pos, WindowSum;
    forall j | 0 <= j < |line| && j != i ensures Pos(base, step, j) != Pos(base, step, i) {
      if j < i {
        PosApart(base, step, j, i);
      } else {
        PosApart(base, step, i, j);
      }
    }
  }

  /** The buffer holds what leaves the window in the next steps. */
  ghost predicate Buffered(buffer: seq<byte>, line: seq<byte>, k: nat, i: nat, end: nat)
    requires k > 0
  {
    |buffer| == SLOTS && end <= |line| + k && forall t :: i <= t < end ==> buffer[t % SLOTS] == Leaving(line, t, k)
  }

  lemma BufferNext(buffer: seq<byte>, line: seq<byte>, k: nat, i: nat)
    requires 0 < k <= SLOTS && i < |line| && Buffered(buffer, line, k, i, i + k)
    ensures Buffered(buffer[(i + k) % SLOTS := line[i]], line, k, i + 1, i + 1 + k)
  {
    forall t | i + 1 <= t < i + k ensures t % SLOTS != (i + k) % SLOTS {
      SlotsApart(t, i + k);
    }
  }

  /** The sum of the window before pixel i. */
  function SumBefore(line: seq<byte>, i: nat, k: nat): nat
    requires i <= |line|
  {
    if i == 0 then 0 else WindowSum(line, i - 1, k)
  }

  lemma SumNext(line: seq<byte>, i: nat, k: nat)
    requires i < |line| && k > 0
    ensures SumBefore(line, i + 1, k) == SumBefore(line, i, k) + line[i] - Leaving(line, i, k)
    ensures SumBefore(line, i + 1, k) == WindowSum(line, i, k) && WindowSum(line, i, k) / k <= 255
  {
    hide WindowSum;
    Slide(line, i, k);
    SumBound(line, i, k);
    AverageIsByte(WindowSum(line, i, k), k);
  }

  /** Replace pixel i by the average, when its sum is known. */
  method PutAverage(pixels: array<byte>, base: nat, step: nat, k: nat, i: nat, total: nat, ghost line: seq<byte>,
                    ghost was: seq<byte>)
    requires k > 0 && step > 0 && i < |line| && Progress(pixels[..], was, base, step, line, k, i)
    requires total == WindowSum(line, i, k) && total / k <= 255
    modifies pixels
    ensures Progress(pixels[..], was, base, step, line, k, i + 1)
  {
    hide Pos, WindowSum, Progress;
    PixelAt(pixels[..], was, base, step, line, k, i);
    var average: byte := total / k;
    ghost var s := pixels[..];
    OneMore(s, was, base, step, line, k, i, average);
    pixels[Pos(base, step, i)] := average;
    assert pixels[..] == s[Pos(base, step, i) := average];
  }

  /** Pixel i enters the window and what was k before it leaves. */
  method Enter(pixels: array<byte>, base: nat, step: nat, k: nat, i: nat, before: nat, buffer: array<byte>,
               ghost line: seq<byte>, ghost was: seq<byte>)
    returns (total: nat)
    requires 2 <= k <= SLOTS && step > 0 && buffer != pixels && i < |line|
    requires Progress(pixels[..], was, base, step, line, k, i) && Buffered(buffer[..], line, k, i, i + k)
    requires before == SumBefore(line, i, k)
    modifies pixels, buffer
    ensures Progress(pixels[..], was, base, step, line, k, i + 1) && Buffered(buffer[..], line, k, i + 1, i + 1 + k)
    ensures total == SumBefore(line, i + 1, k)
  {
    hide Pos, WindowSum, Progress, Buffered, Leaving, SumBefore;
    PixelAt(pixels[..], was, base, step, line, k, i);
    BufferAt(buffer[..], line, k, i, i + k);
    SumNext(line, i, k);
    total := before + pixels[Pos(base, step, i)] - buffer[i % SLOTS];
    BufferNext(buffer[..], line, k, i);
    ghost var b := buffer[..];
    buffer[(i + k) % SLOTS] := pixels[Pos(base, step, i)];
    assert buffer[..] == b[(i + k) % SLOTS := line[i]];
    PutAverage(pixels, base, step, k, i, total, line, was);
  }

  /** Filter a line of pixels whose last k - 1 are zero. */
  method FilterLine(pixels: array<byte>, base: nat, step: nat, n: nat, k: nat, buffer: array<byte>,
                    ghost line: seq<byte>)
    requires 2 <= k <= SLOTS && step > 0 && buffer.Length == SLOTS && buffer != pixels
    requires forall i :: 0 <= i < n ==> Pos(base, step, i) < pixels.Length
    requires line == LineOf(pixels[..], base, step, n)
    requires forall i :: 0 <= i < n && i + k > n ==> line[i] == 0
    modifies pixels, buffer
    ensures Progress(pixels[..], old(pixels[..]), base, step, line, k, n)
  {
    hide Pos, WindowSum, Progress, Buffered, LineOf, Leaving, SumBefore;
    ghost var was := pixels[..];
    NotStarted(was, base, step, n, line, k);
    var m := 0;
    while m < k
      invariant 0 <= m <= k && pixels[..] == was
      invariant forall t :: 0 <= t < m ==> buffer[t] == 0
    {
      buffer[m] := 0;
      m := m + 1;
    }
    BufferEmpty(buffer[..], line, k);
    NoSum(line, k);
    var total: nat, i: nat := 0, 0;
    while i + k <= n
      invariant 0 <= i && (i + k <= n + 1 || i == 0)
      invariant Progress(pixels[..], was, base, step, line, k, i)
      invariant Buffered(buffer[..], line, k, i, i + k)
      invariant i <= n && total == SumBefore(line, i, k)
    {
      total := Enter(pixels, base, step, k, i, total, buffer, line, was);
      i := i + 1;
    }
    ghost var end := i + k;
    while i < n
      invariant 0 <= i <= n < end && i + k > n
      invariant Progress(pixels[..], was, base, step, line, k, i)
      invariant Buffered(buffer[..], line, k, i, end)
      invariant total == SumBefore(line, i, k)
    {
      BufferAt(buffer[..], line, k, i, end);
      SumNext(line, i, k);
      total := total - buffer[i % SLOTS];
      PutAverage(pixels, base, step, k, i, total, line, was);
      BufferLater(buffer[..], line, k, i, end);
      i := i + 1;
    }
  }

  lemma NoSum(line: seq<byte>, k: nat)
    ensures SumBefore(line, 0, k) == 0
  {
  }

  lemma NotStarted(s: seq<byte>, base: nat, step: nat, n: nat, line: seq<byte>, k: nat)
    requires k > 0 && (forall i :: 0 <= i < n ==> Pos(base, step, i) < |s|) && line == LineOf(s, base, step, n)
    ensures Progress(s, s, base, step, line, k, 0)
  {
    hide Pos;
  }

  lemma PixelAt(s: seq<byte>, was: seq<byte>, base: nat, step: nat, line: seq<byte>, k: nat, i: nat)
    requires k > 0 && Progress(s, was, base, step, line, k, i) && i < |line|
    ensures Pos(base, step, i) < |s| && s[Pos(base, step, i)] == line[i]
  {
    hide Pos;
  }

  lemma BufferEmpty(buffer: seq<byte>, line: seq<byte>, k: nat)
    requires 0 < k <= SLOTS == |buffer| && forall t :: 0 <= t < k ==> buffer[t] == 0
    ensures Buffered(buffer, line, k, 0, k)
  {
    forall t | 0 <= t < k ensures buffer[t % SLOTS] == Leaving(line, t, k) {
      assert t % SLOTS == t;
    }
  }

  lemma BufferAt(buffer: seq<byte>, line: seq<byte>, k: nat, i: nat, end: nat)
    requires k > 0 && Buffered(buffer, line, k, i, end) && i < end
    ensures |buffer| == SLOTS && buffer[i % SLOTS] == Leaving(line, i, k)
  {
  }

  lemma BufferLater(buffer: seq<byte>, line: seq<byte>, k: nat, i: nat, end: nat)
    requires k > 0 && Buffered(buffer, line, k, i, end)
    ensures Buffered(buffer, line, k, i + 1, end)
  {
  }

  // ----- Images -----

  /** A line of the image is filtered. */
  ghost predicate Done(s: seq<byte>, was: seq<byte>, base: nat, step: nat, n: nat, k: nat)
    requires k > 0
  {
    |s| == |was| && (forall i :: 0 <= i < n ==> Pos(base, step, i) < |was|) && forall i :: 0 <= i < n ==>
      s[Pos(base, step, i)] == WindowSum(LineOf(was, base, step, n), i, k) / k
  }

  /** Or as it was. */
  ghost predicate Pending(s: seq<byte>, was: seq<byte>, base: nat, step: nat, n: nat) {
    |s| == |was| && forall i :: 0 <= i < n && Pos(base, step, i) < |s| ==>
      s[Pos(base, step, i)] == was[Pos(base, step, i)]
  }

  ghost predicate LinesDisjoint(base: nat, base': nat, step: nat, n: nat) {
    forall i, j :: 0 <= i < n && 0 <= j < n ==> Pos(base, step, i) != Pos(base', step, j)
  }

  /** The pixels after the last line position of each row are zero, as many as the window needs. */
  ghost predicate Padded(s: seq<byte>, base: nat, step: nat, n: nat, k: nat) {
    forall i :: 0 <= i < n ==> Pos(base, step, i) < |s| && (i + k > n ==> s[Pos(base, step, i)] == 0)
  }

  lemma RowsDisjoint(stride: nat, w: nat, j: nat, l: nat)
    requires w <= stride && j != l
    ensures LinesDisjoint(Pos(0, stride, j), Pos(0, stride, l), 1, w)
  {
    forall a, b | 0 <= a < w && 0 <= b < w ensures Pos(Pos(0, stride, j), 1, a) != Pos(Pos(0, stride, l), 1, b) {
      Places(j, a, l, b, stride);
    }
  }

  lemma ColumnsDisjoint(stride: nat, h: nat, j: nat, l: nat)
    requires j < stride && l < stride && j != l
    ensures LinesDisjoint(j, l, stride, h)
  {
    forall a, b | 0 <= a < h && 0 <= b < h ensures Pos(j, stride, a) != Pos(l, stride, b) {
      Places(a, j, b, l, stride);
    }
  }

  /** What filtering one line does to it and to the others. */
  lemma LineDone(s: seq<byte>, t: seq<byte>, was: seq<byte>, base: nat, step: nat, n: nat, k: nat, line: seq<byte>)
    requires k > 0 && |line| == n && Pending(s, was, base, step, n) && Progress(t, s, base, step, line, k, n)
    requires line == LineOf(s, base, step, n)
    ensures Done(t, was, base, step, n, k)
  {
    hide Pos, WindowSum;
    assert line == LineOf(was, base, step, n);
  }

  lemma OthersKept(s: seq<byte>, t: seq<byte>, base: nat, base': nat, step: nat, n: nat, k: nat, line: seq<byte>)
    requires k > 0 && |line| == n && Progress(t, s, base, step, line, k, n) && LinesDisjoint(base, base', step, n)
    ensures Pending(t, s, base', step, n)
  {
    hide Pos, WindowSum;
    forall i | 0 <= i < n && Pos(base', step, i) < |t| ensures t[Pos(base', step, i)] == s[Pos(base', step, i)] {
      assert !OnLine(base, step, n, Pos(base', step, i));
    }
  }

  lemma PendingSelf(s: seq<byte>, base: nat, step: nat, n: nat)
    ensures Pending(s, s, base, step, n)
  {
  }

  /** The line to be filtered is as it was at first. */
  lemma PaddedLine(s: seq<byte>, was: seq<byte>, base: nat, step: nat, n: nat, k: nat) returns (line: seq<byte>)
    requires Padded(was, base, step, n, k) && Pending(s, was, base, step, n)
    ensures forall i :: 0 <= i < n ==> Pos(base, step, i) < |s|
    ensures line == LineOf(s, base, step, n) && |line| == n && forall i :: 0 <= i < n && i + k > n ==> line[i] == 0
  {
    hide Pos;
    line := LineOf(s, base, step, n);
  }

  lemma Elsewhere(s: seq<byte>, t: seq<byte>, base: nat, step: nat, n: nat, k: nat, line: seq<byte>)
    requires k > 0 && |line| == n && Progress(t, s, base, step, line, k, n)
    ensures |t| == |s| && forall q :: 0 <= q < |s| && !OnLine(base, step, n, q) ==> t[q] == s[q]
  {
    hide Pos, WindowSum, OnLine;
  }

  lemma StillDone(s: seq<byte>, t: seq<byte>, was: seq<byte>, base: nat, step: nat, n: nat, k: nat)
    requires k > 0 && Padded(was, base, step, n, k) && Done(s, was, base, step, n, k) && Pending(t, s, base, step, n)
    ensures Done(t, was, base, step, n, k)
  {
    hide Pos, WindowSum, LineOf;
  }

  lemma StillPending(s: seq<byte>, t: seq<byte>, was: seq<byte>, base: nat, step: nat, n: nat)
    requires Pending(s, was, base, step, n) && Pending(t, s, base, step, n)
    ensures Pending(t, was, base, step, n)
  {
    hide Pos;
  }

  /** Filter every row. */
  method HPrefilter(pixels: array<byte>, w: nat, h: nat, stride: nat, k: nat)
    requires 2 <= k <= SLOTS && w <= stride
    requires forall l :: 0 <= l < h ==> Padded(pixels[..], Pos(0, stride, l), 1, w, k)
    modifies pixels
    ensures forall l :: 0 <= l < h ==> Done(pixels[..], old(pixels[..]), Pos(0, stride, l), 1, w, k)
    ensures forall q :: 0 <= q < pixels.Length && (forall l :: 0 <= l < h ==> !OnLine(Pos(0, stride, l), 1, w, q)) ==>
      pixels[q] == old(pixels[q])
  {
    hide Pos, WindowSum, Done, Pending, Padded, OnLine, Progress, LineOf, LinesDisjoint;
    ghost var was := pixels[..];
    var buffer := new byte[SLOTS](_ => 0);
    var j := 0;
    forall l | 0 <= l < h ensures Pending(pixels[..], was, Pos(0, stride, l), 1, w) {
      PendingSelf(was, Pos(0, stride, l), 1, w);
    }
    while j < h
      invariant 0 <= j <= h
      invariant forall l :: 0 <= l < j ==> Done(pixels[..], was, Pos(0, stride, l), 1, w, k)
      invariant forall l :: j <= l < h ==> Pending(pixels[..], was, Pos(0, stride, l), 1, w)
      invariant forall q ::
        0 <= q < pixels.Length && (forall l :: 0 <= l < h ==> !OnLine(Pos(0, stride, l), 1, w, q)) ==>
          pixels[..][q] == was[q]
    {
      ghost var s := pixels[..];
      ghost var line := PaddedLine(s, was, Pos(0, stride, j), 1, w, k);
      FilterLine(pixels, Pos(0, stride, j), 1, w, k, buffer, line);
      LineDone(s, pixels[..], was, Pos(0, stride, j), 1, w, k, line);
      Elsewhere(s, pixels[..], Pos(0, stride, j), 1, w, k, line);
      forall l | 0 <= l < h && l != j
        ensures l < j ==> Done(pixels[..], was, Pos(0, stride, l), 1, w, k)
        ensures l > j ==> Pending(pixels[..], was, Pos(0, stride, l), 1, w)
      {
        RowsDisjoint(stride, w, j, l);
        OthersKept(s, pixels[..], Pos(0, stride, j), Pos(0, stride, l), 1, w, k, line);
        if l < j {
          StillDone(s, pixels[..], was, Pos(0, stride, l), 1, w, k);
        } else {
          StillPending(s, pixels[..], was, Pos(0, stride, l), 1, w);
        }
      }
      j := j + 1;
    }
  }

  /** Filter every column. */
  method VPrefilter(pixels: array<byte>, w: nat, h: nat, stride: nat, k: nat)
    requires 2 <= k <= SLOTS && w <= stride
    requires forall l :: 0 <= l < w ==> Padded(pixels[..], l, stride, h, k)
    modifies pixels
    ensures forall l :: 0 <= l < w ==> Done(pixels[..], old(pixels[..]), l, stride, h, k)
    ensures forall q :: 0 <= q < pixels.Length && (forall l :: 0 <= l < w ==> !OnLine(l, stride, h, q)) ==>
      pixels[q] == old(pixels[q])
  {
    hide Pos, WindowSum, Done, Pending, Padded, OnLine, Progress, LineOf, LinesDisjoint;
    ghost var was := pixels[..];
    var buffer := new byte[SLOTS](_ => 0);
    var j := 0;
    forall l | 0 <= l < w ensures Pending(pixels[..], was, l, stride, h) {
      PendingSelf(was, l, stride, h);
    }
    while j < w
      invariant 0 <= j <= w
      invariant forall l :: 0 <= l < j ==> Done(pixels[..], was, l, stride, h, k)
      invariant forall l :: j <= l < w ==> Pending(pixels[..], was, l, stride, h)
      invariant forall q :: 0 <= q < pixels.Length && (forall l :: 0 <= l < w ==> !OnLine(l, stride, h, q)) ==>
        pixels[..][q] == was[q]
    {
      ghost var s := pixels[..];
      ghost var line := PaddedLine(s, was, j, stride, h, k);
      FilterLine(pixels, j, stride, h, k, buffer, line);
      LineDone(s, pixels[..], was, j, stride, h, k, line);
      Elsewhere(s, pixels[..], j, stride, h, k, line);
      forall l | 0 <= l < w && l != j
        ensures l < j ==> Done(pixels[..], was, l, stride, h, k)
        ensures l > j ==> Pending(pixels[..], was, l, stride, h)
      {
        ColumnsDisjoint(stride, h, j, l);
        OthersKept(s, pixels[..], j, l, stride, h, k, line);
        if l < j {
          StillDone(s, pixels[..], was, l, stride, h, k);
        } else {
          StillPending(s, pixels[..], was, l, stride, h);
        }
      }
      j := j + 1;
    }
  }

  // ----- What is averaged -----

  function Sum(s: seq<byte>): nat {
    if s == [] then 0 else Sum(s[..|s| - 1]) + s[|s| - 1]
  }

  /** The window is the slice of the last k pixels, or of all if there are fewer. */
  lemma {:induction false} WindowIs(line: seq<byte>, i: nat, k: nat)
    requires i < |line|
    ensures WindowSum(line, i, k) == Sum(line[if k <= i then i + 1 - k else 0..i + 1])
    decreases k
  {
    var from := if k <= i then i + 1 - k else 0;
    var s := line[from..i + 1];
    if k > 0 {
      assert s[..|s| - 1] == line[from..i];
      if i > 0 {
        WindowIs(line, i - 1, k - 1);
      }
    }
  }

  /** The average is the sum divided by k, rounded down. */
  lemma AverageIsFloor(line: seq<byte>, i: nat, k: nat)
    requires i < |line| && k > 0
    ensures var a: nat := WindowSum(line, i, k) / k;
      k * a <= Sum(line[if k <= i then i + 1 - k else 0..i + 1]) < k * (a + 1)
  {
    WindowIs(line, i, k);
    FloorOf(WindowSum(line, i, k), k);
  }

  lemma FloorOf(total: nat, k: nat)
    requires k > 0
    ensures k * (total / k) <= total < k * (total / k + 1)
  {
    var q := total / k;
    assert total == q * k + total % k;
    assert k * (q + 1) == q * k + k;
  }
}
