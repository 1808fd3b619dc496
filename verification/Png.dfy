/** Reconstructing the rows of an 8-bit PNG image in place, with or without an added alpha
    channel. */
module Png {
  import opened Bits
  import opened Options
  import opened PngFilters
  import opened Seqs

  // ----- Pixels with alpha -----

  /** s, whose pixels have n bytes, with a byte 255 after each pixel. */
  function Widen(s: seq<byte>, n: nat): seq<byte>
    requires n > 0
  {
    if |s| < n then [] else Widen(s[..|s| - n], n) + s[|s| - n..] + [255]
  }

  /** How a row of n bytes a pixel is stored with outN bytes a pixel. */
  function Laid(s: seq<byte>, n: nat, outN: nat): seq<byte>
    requires n > 0
  {
    if outN == n then s else Widen(s, n)
  }

  /** x times n by adding, which keeps products out of most proofs. */
  function Times(x: nat, n: nat): nat {
    if x == 0 then 0 else Times(x - 1, n) + n
  }

  lemma {:induction false} TimesIs(x: nat, n: nat)
    ensures Times(x, n) == x * n
  {
    if x > 0 {
      TimesIs(x - 1, n);
      assert (x - 1) * n + n == x * n;
    }
  }

  lemma TimesNext(x: nat, n: nat)
    ensures Times(x + 1, n) == Times(x, n) + n
  {
  }

  lemma TimesNone(n: nat)
    ensures Times(0, n) == 0
  {
  }

  lemma TimesSplit(x: nat, i: nat, n: nat)
    requires i < x
    ensures Times(x, n) == Times(i, n) + n + Times(x - i - 1, n)
  {
    hide Times;
    TimesIs(x, n);
    TimesIs(i, n);
    TimesIs(x - i - 1, n);
    assert x * n == (i + 1 + (x - i - 1)) * n;
  }

  lemma {:induction false} WidenLength(s: seq<byte>, n: nat, x: nat)
    requires n > 0 && |s| == Times(x, n)
    ensures |Widen(s, n)| == Times(x, n + 1)
    decreases x
  {
    hide Times;
    if x == 0 {
      TimesNone(n);
      TimesNone(n + 1);
    } else {
      TimesNext(x - 1, n);
      TimesNext(x - 1, n + 1);
      WidenLength(s[..|s| - n], n, x - 1);
    }
  }

  /** Widening a prefix of whole pixels gives a prefix. */
  lemma {:induction false} WidenPrefix(s: seq<byte>, n: nat, m: nat, i: nat)
    requires n > 0 && m + Times(i, n) == |s|
    ensures |Widen(s[..m], n)| <= |Widen(s, n)|
    ensures Widen(s, n)[..|Widen(s[..m], n)|] == Widen(s[..m], n)
    decreases i
  {
    hide Times;
    if i == 0 {
      TimesNone(n);
      assert s[..m] == s;
    } else {
      TimesNext(i - 1, n);
      var t := s[..|s| - n];
      WidenPrefix(t, n, m, i - 1);
      assert t[..m] == s[..m];
    }
  }

  /** Every pixel is stored whole, and the alpha of every pixel is 255. */
  lemma PixelStored(s: seq<byte>, n: nat, x: nat, i: nat, k: nat)
    requires n > 0 && i < x && |s| == Times(x, n) && k <= n
    ensures Times(i, n) + n <= |s| && Times(i, n + 1) + n < |Widen(s, n)|
    ensures Widen(s, n)[Times(i, n + 1) + k] == if k < n then s[Times(i, n) + k] else 255
  {
    TimesSplit(x, i, n);
    var m := Times(i, n);
    hide Times;
    WidenLength(s[..m], n, i);
    WidenPrefix(s, n, m + n, x - i - 1);
    var t := s[..m + n];
    assert t[..m] == s[..m];
    assert Widen(t, n) == Widen(s[..m], n) + t[m..] + [255];
    assert Widen(s, n)[Times(i, n + 1) + k] == Widen(t, n)[Times(i, n + 1) + k];
  }

  // ----- Filters -----

  datatype Filter = FNone | FSub | FUp | FAvg | FPaeth | FAvgFirst | FPaethFirst {
    predicate UsesPrior() {
      FUp? || FAvg? || FPaeth?
    }
  }

  /** The filter for a row; the first row has filters of its own, which do not look above. */
  function FilterOf(kind: Kind, first: bool): Filter {
    if kind == 0 then FNone
    else if kind == 1 then FSub
    else if kind == 2 then if first then FNone else FUp
    else if kind == 3 then if first then FAvgFirst else FAvg
    else if first then FPaethFirst else FPaeth
  }

  /** A byte of the first pixel. */
  function FirstByte(filter: Filter, raw: byte, up: byte): byte {
    match filter
    case FNone => raw
    case FSub => raw
    case FUp => Byte(raw + up)
    case FAvg => Byte(raw + up / 2)
    case FPaeth => Byte(raw + Paeth(0, up, 0))
    case FAvgFirst => raw
    case FPaethFirst => raw
  }

  /** A byte of any other pixel. */
  function LaterByte(filter: Filter, raw: byte, left: byte, up: byte, upLeft: byte): byte {
    match filter
    case FNone => raw
    case FSub => Byte(raw + left)
    case FUp => Byte(raw + up)
    case FAvg => Byte(raw + Average(up, left))
    case FPaeth => Byte(raw + Paeth(left, up, upLeft))
    case FAvgFirst => Byte(raw + left / 2)
    case FPaethFirst => Byte(raw + Paeth(left, 0, 0))
  }

  /** The filters of the first row predict what the ordinary ones do below a row of zeros, and
      the first pixel is like one to the right of a pixel of zeros. */
  lemma FiltersAreStandard(kind: Kind, first: bool, raw: byte, left: byte, up: byte, upLeft: byte)
    requires first ==> up == upLeft == 0
    ensures FirstByte(FilterOf(kind, first), raw, up) == Byte(raw + Predict(kind, 0, up, 0))
    ensures LaterByte(FilterOf(kind, first), raw, left, up, upLeft) == Byte(raw + Predict(kind, left, up, upLeft))
  {
  }

  // ----- One row -----

  /** What is stored above position at: the row of zeros above the first row is not stored. */
  function Above(s: seq<byte>, at: nat, stride: nat, filter: Filter): byte
    requires at < |s| && (filter.UsesPrior() ==> stride <= at)
  {
    if filter.UsesPrior() then s[at - stride] else 0
  }

  /** The byte for position at of a pixel that has another one before it. */
  method Reconstruct(out: array<byte>, at: nat, back: nat, stride: nat, filter: Filter, raw: byte) returns (b: byte)
    requires back <= at < out.Length && (filter.UsesPrior() ==> stride + back <= at)
    ensures b == LaterByte(filter, raw, out[at - back], Above(out[..], at, stride, filter),
                           Above(out[..], at - back, stride, filter))
  {
    match filter
    case FNone => b := raw;
    case FSub => b := Byte(raw + out[at - back]);
    case FUp => b := Byte(raw + out[at - stride]);
    case FAvg => b := Byte(raw + Average(out[at - stride], out[at - back]));
    case FPaeth => b := Byte(raw + Paeth(out[at - back], out[at - stride], out[at - stride - back]));
    case FAvgFirst => b := Byte(raw + out[at - back] / 2);
    case FPaethFirst => b := Byte(raw + Paeth(out[at - back], 0, 0));
  }

  /** Where the pixel at m bytes of a stored row starts, and what its bytes are. */
  lemma StoredAt(s: seq<byte>, n: nat, outN: nat, m: nat, i: nat, k: nat)
    requires n > 0 && (outN == n || outN == n + 1) && m + n + Times(i, n) == |s| && k < n
    ensures |Laid(s[..m], n, outN)| + outN <= |Laid(s, n, outN)|
    ensures Laid(s, n, outN)[|Laid(s[..m], n, outN)| + k] == s[m + k]
  {
    hide Times, Widen;
    var before, pixel := s[..m], s[m..m + n];
    assert s[..m + n] == before + pixel;
    LaidNext(before, n, outN, pixel);
    if outN > n {
      WidenPrefix(s, n, m + n, i);
      assert Widen(s, n)[|Widen(before, n)| + k] == Widen(before + pixel, n)[|Widen(before, n)| + k];
    }
  }

  /** The same for the last pixel of what has been stored so far. */
  lemma LastStored(s: seq<byte>, n: nat, outN: nat, k: nat)
    requires n > 0 && (outN == n || outN == n + 1) && |s| >= n && k < n
    ensures |Laid(s, n, outN)| >= outN
    ensures Laid(s, n, outN)[|Laid(s, n, outN)| - outN + k] == s[|s| - n + k]
  {
  }

  lemma {:induction false} SameLength(s: seq<byte>, t: seq<byte>, n: nat, outN: nat)
    requires n > 0 && |s| == |t|
    ensures |Laid(s, n, outN)| == |Laid(t, n, outN)|
    decreases |s|
  {
    if |s| >= n {
      SameLength(s[..|s| - n], t[..|t| - n], n, outN);
    }
  }

  /** One more pixel. */
  lemma LaidNext(s: seq<byte>, n: nat, outN: nat, p: seq<byte>)
    requires n > 0 && (outN == n || outN == n + 1) && |p| == n
    ensures Laid(s + p, n, outN) == Laid(s, n, outN) + p + if outN == n then [] else [255]
  {
    assert (s + p)[..|s + p| - n] == s && (s + p)[|s + p| - n..] == p;
  }

  ghost predicate AllZero(s: seq<byte>) {
    forall i :: 0 <= i < |s| ==> s[i] == 0
  }

  lemma FirstPixelByte(kind: Kind, first: bool, src: seq<byte>, prior: seq<byte>, n: nat, m: nat, up: byte)
    requires n > 0 && m < n && m < |src| && m < |prior| && (first ==> AllZero(prior))
    requires FilterOf(kind, first).UsesPrior() ==> up == prior[m]
    ensures Recon(kind, src, prior, n, m + 1) ==
      Recon(kind, src, prior, n, m) + [FirstByte(FilterOf(kind, first), src[m], up)]
  {
    hide Predict, FilterOf, FirstByte, LaterByte, Byte;
    FirstIgnores(kind, first, src[m], up, prior[m]);
    FiltersAreStandard(kind, first, src[m], 0, prior[m], 0);
  }

  lemma LaterPixelByte(kind: Kind, first: bool, src: seq<byte>, prior: seq<byte>, n: nat, m: nat,
                       left: byte, up: byte, upLeft: byte)
    requires 0 < n <= m && m < |src| && m < |prior| && (first ==> AllZero(prior))
    requires FilterOf(kind, first).UsesPrior() ==> up == prior[m] && upLeft == prior[m - n]
    requires left == Recon(kind, src, prior, n, m)[m - n]
    ensures Recon(kind, src, prior, n, m + 1) ==
      Recon(kind, src, prior, n, m) + [LaterByte(FilterOf(kind, first), src[m], left, up, upLeft)]
  {
    hide Predict, FilterOf, FirstByte, LaterByte, Byte;
    LaterIgnores(kind, first, src[m], left, up, upLeft, prior[m], prior[m - n]);
    FiltersAreStandard(kind, first, src[m], left, prior[m], prior[m - n]);
  }

  /** Filters that do not look above do not depend on what is there. */
  lemma FirstIgnores(kind: Kind, first: bool, raw: byte, up: byte, up': byte)
    requires FilterOf(kind, first).UsesPrior() ==> up == up'
    ensures FirstByte(FilterOf(kind, first), raw, up) == FirstByte(FilterOf(kind, first), raw, up')
  {
  }

  lemma LaterIgnores(kind: Kind, first: bool, raw: byte, left: byte, up: byte, upLeft: byte, up': byte, upLeft': byte)
    requires FilterOf(kind, first).UsesPrior() ==> up == up' && upLeft == upLeft'
    ensures LaterByte(FilterOf(kind, first), raw, left, up, upLeft)
         == LaterByte(FilterOf(kind, first), raw, left, up', upLeft')
  {
  }

  /** The row above is stored just before position cur, or is all zero. */
  ghost predicate RowAbove(s: seq<byte>, cur: nat, stride: nat, prior: seq<byte>, n: nat, outN: nat, first: bool)
    requires n > 0
  {
    if first then AllZero(prior)
    else stride <= cur <= |s| && s[cur - stride..cur] == Laid(prior, n, outN)
  }

  /** The byte above byte k of the pixel at m bytes of the row, which is stored p bytes into it. */
  lemma AboveAt(s: seq<byte>, cur: nat, stride: nat, prior: seq<byte>, n: nat, outN: nat, m: nat, i: nat, k: nat,
                p: nat)
    requires n > 0 && (outN == n || outN == n + 1) && m + n + Times(i, n) == |prior| && k < n
    requires RowAbove(s, cur, stride, prior, n, outN, false) && p == |Laid(prior[..m], n, outN)|
    ensures p + outN <= stride && s[cur + p + k - stride] == prior[m + k]
  {
    hide Laid;
    StoredAt(prior, n, outN, m, i, k);
    assert s[cur - stride..cur][p + k] == prior[m + k];
  }

  /** Everything outside of lo to hi is as it was. */
  ghost predicate Inside(s: seq<byte>, was: seq<byte>, lo: nat, hi: nat) {
    |s| == |was| && lo <= hi <= |s| && s[..lo] == was[..lo] && s[hi..] == was[hi..]
  }

  lemma AboveKept(s: seq<byte>, was: seq<byte>, lo: nat, hi: nat, cur: nat, stride: nat, prior: seq<byte>, n: nat,
                  outN: nat, first: bool)
    requires n > 0 && Inside(s, was, lo, hi) && cur <= lo && RowAbove(was, cur, stride, prior, n, outN, first)
    ensures RowAbove(s, cur, stride, prior, n, outN, first)
  {
    if !first {
      assert s[cur - stride..cur] == s[..lo][cur - stride..cur];
    }
  }

  lemma WriteInside(s: seq<byte>, was: seq<byte>, lo: nat, hi: nat, at: nat, b: byte)
    requires Inside(s, was, lo, hi) && lo <= at < hi
    ensures Inside(s[at := b], was, lo, hi)
  {
  }

  /** Write a byte just after those from start to at. */
  method Append(out: array<byte>, start: nat, at: nat, b: byte, lo: nat, hi: nat, ghost was: seq<byte>)
    requires lo <= start <= at < hi <= out.Length && Inside(out[..], was, lo, hi)
    modifies out
    ensures Inside(out[..], was, lo, hi) && out[..at] == old(out[..at])
    ensures out[start..at + 1] == old(out[start..at]) + [b]
  {
    WriteInside(out[..], was, lo, hi, at, b);
    ghost var s := out[..];
    out[at] := b;
    assert out[..] == s[at := b];
  }

  /** A byte of the first pixel. */
  method FirstPixelNext(out: array<byte>, cur: nat, stride: nat, n: nat, outN: nat, raw: byte, kind: Kind, first: bool,
                        k: nat, ghost src: seq<byte>, ghost prior: seq<byte>, ghost x: nat, ghost was: seq<byte>)
    requires k < n && (outN == n || outN == n + 1) && outN <= stride && cur + stride <= out.Length
    requires |prior| == |src| == n + Times(x, n) && raw == src[k]
    requires Inside(out[..], was, cur, cur + stride) && RowAbove(was, cur, stride, prior, n, outN, first)
    requires out[cur..cur + k] == Recon(kind, src, prior, n, k)
    modifies out
    ensures Inside(out[..], was, cur, cur + stride)
    ensures out[cur..cur + k + 1] == Recon(kind, src, prior, n, k + 1)
  {
    hide Recon, FilterOf, Laid, Inside, RowAbove, FirstByte, AllZero;
    var filter := FilterOf(kind, first);
    var up: byte := 0;
    if filter.UsesPrior() {
      NeedsAbove(out[..], was, cur, stride, prior, n, outN, kind, first);
      AboveFirst(out[..], cur, stride, prior, n, outN, x, k);
      up := out[cur + k - stride];
    }
    FirstIsZero(was, cur, stride, prior, n, outN, first);
    FirstPixelByte(kind, first, src, prior, n, k, up);
    Append(out, cur, cur + k, FirstByte(filter, raw, up), cur, cur + stride, was);
  }

  lemma FirstIsZero(s: seq<byte>, cur: nat, stride: nat, prior: seq<byte>, n: nat, outN: nat, first: bool)
    requires n > 0 && RowAbove(s, cur, stride, prior, n, outN, first)
    ensures first ==> AllZero(prior)
  {
  }

  lemma AboveFirst(s: seq<byte>, cur: nat, stride: nat, prior: seq<byte>, n: nat, outN: nat, x: nat, k: nat)
    requires n > 0 && (outN == n || outN == n + 1) && n + Times(x, n) == |prior| && k < n
    requires RowAbove(s, cur, stride, prior, n, outN, false)
    ensures s[cur + k - stride] == prior[k]
  {
    assert prior[..0] == [];
    AboveAt(s, cur, stride, prior, n, outN, 0, x, k, 0);
  }

  /** The bytes of the first pixel, and its alpha. */
  method FirstPixel(out: array<byte>, cur: nat, stride: nat, n: nat, outN: nat, raw: seq<byte>, pos: nat, kind: Kind,
                    first: bool, ghost src: seq<byte>, ghost prior: seq<byte>, ghost x: nat)
    requires n > 0 && (outN == n || outN == n + 1) && outN <= stride && cur + stride <= out.Length
    requires |prior| == |src| == n + Times(x, n) && pos + |prior| <= |raw| && src == raw[pos..pos + |prior|]
    requires RowAbove(out[..], cur, stride, prior, n, outN, first)
    modifies out
    ensures Inside(out[..], old(out[..]), cur, cur + stride)
    ensures out[cur..cur + outN] == Laid(Recon(kind, src, prior, n, n), n, outN)
  {
    hide Recon, FilterOf, Laid, Inside, RowAbove, AllZero;
    ghost var was := out[..];
    InsideSelf(was, cur, cur + stride);
    ReconNothing(kind, src, prior, n);
    var k := 0;
    while k < n
      invariant 0 <= k <= n
      invariant Inside(out[..], was, cur, cur + stride)
      invariant out[cur..cur + k] == Recon(kind, src, prior, n, k)
    {
      FirstPixelNext(out, cur, stride, n, outN, raw[pos + k], kind, first, k, src, prior, x, was);
      k := k + 1;
    }
    if n != outN {
      Append(out, cur, cur + n, 255, cur, cur + stride, was);
    }
    FirstLaid(Recon(kind, src, prior, n, n), n, outN);
  }

  lemma FirstLaid(p: seq<byte>, n: nat, outN: nat)
    requires |p| == n > 0 && (outN == n || outN == n + 1)
    ensures Laid(p, n, outN) == p + if outN == n then [] else [255]
  {
    LaidNext([], n, outN, p);
    assert [] + p == p;
  }

  lemma InsideSelf(s: seq<byte>, lo: nat, hi: nat)
    requires lo <= hi <= |s|
    ensures Inside(s, s, lo, hi)
  {
  }

  lemma ReconNothing(kind: Kind, src: seq<byte>, prior: seq<byte>, n: nat)
    requires n > 0
    ensures Recon(kind, src, prior, n, 0) == []
  {
  }

  lemma NeedsAbove(s: seq<byte>, was: seq<byte>, cur: nat, stride: nat, prior: seq<byte>, n: nat, outN: nat, kind: Kind,
                   first: bool)
    requires n > 0 && Inside(s, was, cur, cur + stride) && RowAbove(was, cur, stride, prior, n, outN, first)
    requires FilterOf(kind, first).UsesPrior()
    ensures !first && stride <= cur && RowAbove(s, cur, stride, prior, n, outN, false)
  {
    AboveKept(s, was, cur, cur + stride, cur, stride, prior, n, outN, first);
  }

  /** A byte that is not of the first pixel, where those it depends on are stored. */
  method LaterPixelNext(out: array<byte>, at: nat, back: nat, stride: nat, raw: byte, kind: Kind, first: bool,
                        ghost m: nat, ghost src: seq<byte>, ghost prior: seq<byte>, ghost n: nat) returns (b: byte)
    requires back <= at < out.Length && 0 < n <= m < |src| == |prior| && raw == src[m] && (first ==> AllZero(prior))
    requires out[at - back] == Recon(kind, src, prior, n, m)[m - n]
    requires FilterOf(kind, first).UsesPrior() ==>
      stride + back <= at && out[at - stride] == prior[m] && out[at - stride - back] == prior[m - n]
    ensures Recon(kind, src, prior, n, m + 1) == Recon(kind, src, prior, n, m) + [b]
  {
    hide Recon, FilterOf, LaterByte, AllZero;
    b := Reconstruct(out, at, back, stride, FilterOf(kind, first), raw);
    LaterPixelByte(kind, first, src, prior, n, m, out[at - back], Above(out[..], at, stride, FilterOf(kind, first)),
                   Above(out[..], at - back, stride, FilterOf(kind, first)));
  }

  /** All pixels but the first, when there is no alpha to add. */
  method FlatPixels(out: array<byte>, cur: nat, stride: nat, n: nat, raw: seq<byte>, pos: nat, kind: Kind, first: bool,
                    ghost src: seq<byte>, ghost prior: seq<byte>, ghost was: seq<byte>)
    requires 0 < n <= stride == |src| == |prior| && cur + stride <= out.Length
    requires pos + stride <= |raw| && src == raw[pos..pos + stride]
    requires Inside(out[..], was, cur, cur + stride) && RowAbove(was, cur, stride, prior, n, n, first)
    requires out[cur..cur + n] == Recon(kind, src, prior, n, n)
    modifies out
    ensures Inside(out[..], was, cur, cur + stride)
    ensures out[cur..cur + stride] == Recon(kind, src, prior, n, stride)
  {
    hide Recon, FilterOf, Inside, AllZero, RowAbove, Laid;
    FirstIsZero(was, cur, stride, prior, n, n, first);
    var nk := stride - n;
    var k := 0;
    while k < nk
      invariant 0 <= k <= nk
      invariant Inside(out[..], was, cur, cur + stride)
      invariant out[cur..cur + n + k] == Recon(kind, src, prior, n, n + k)
    {
      FlatAbove(out[..], was, cur, stride, prior, n, kind, first, n + k);
      assert out[cur..cur + n + k][k] == out[cur + k];
      var b := LaterPixelNext(out, cur + n + k, n, stride, raw[pos + n + k], kind, first, n + k, src, prior, n);
      Append(out, cur, cur + n + k, b, cur, cur + stride, was);
      k := k + 1;
    }
  }

  lemma FlatAbove(s: seq<byte>, was: seq<byte>, cur: nat, stride: nat, prior: seq<byte>, n: nat, kind: Kind,
                  first: bool,
                  m: nat)
    requires 0 < n <= m < stride == |prior|
    requires Inside(s, was, cur, cur + stride) && RowAbove(was, cur, stride, prior, n, n, first)
    ensures FilterOf(kind, first).UsesPrior() ==>
      stride <= cur && s[cur + m - stride] == prior[m] && s[cur + m - stride - n] == prior[m - n]
  {
    hide Inside, AllZero;
    if FilterOf(kind, first).UsesPrior() {
      NeedsAbove(s, was, cur, stride, prior, n, n, kind, first);
      assert s[cur - stride..cur][m] == prior[m] && s[cur - stride..cur][m - n] == prior[m - n];
    }
  }

  /** Byte k of the next pixel, when the pixels have alpha. */
  method AlphaPixelNext(out: array<byte>, cur: nat, stride: nat, n: nat, p: nat, k: nat, raw: byte, kind: Kind,
                        first: bool, ghost m: nat, ghost i: nat, ghost src: seq<byte>, ghost prior: seq<byte>,
                        ghost was: seq<byte>)
    requires k < n <= m && m + n + Times(i, n) == |src| == |prior| && cur + stride <= out.Length && p + n < stride
    requires raw == src[m + k] && (first ==> AllZero(prior))
    requires Inside(out[..], was, cur, cur + stride) && RowAbove(was, cur, stride, prior, n, n + 1, first)
    requires p == |Widen(prior[..m], n)| && out[cur..cur + p] == Widen(Recon(kind, src, prior, n, m), n)
    requires out[cur + p..cur + p + k] == Recon(kind, src, prior, n, m + k)[m..]
    modifies out
    ensures Inside(out[..], was, cur, cur + stride) && out[..cur + p] == old(out[..cur + p])
    ensures out[cur + p..cur + p + k + 1] == Recon(kind, src, prior, n, m + k + 1)[m..]
  {
    hide Recon, FilterOf, Inside, AllZero, RowAbove, Widen;
    LeftStored(out[cur..cur + p], kind, src, prior, n, m, k);
    AlphaAbove(out[..], was, cur, stride, prior, n, kind, first, m, i, k, p);
    var b := LaterPixelNext(out, cur + p + k, n + 1, stride, raw, kind, first, m + k, src, prior, n);
    Append(out, cur + p, cur + p + k, b, cur, cur + stride, was);
    assert out[..cur + p] == out[..cur + p + k][..cur + p];
  }

  lemma LeftStored(row: seq<byte>, kind: Kind, src: seq<byte>, prior: seq<byte>, n: nat, m: nat, k: nat)
    requires k < n <= m && m + k <= |src| && m + k <= |prior| && row == Widen(Recon(kind, src, prior, n, m), n)
    ensures |row| >= n + 1 && row[|row| - n - 1 + k] == Recon(kind, src, prior, n, m + k)[m - n + k]
  {
    hide Recon;
    ReconPrefix(kind, src, prior, n, m, m + k);
    LastStored(Recon(kind, src, prior, n, m), n, n + 1, k);
    assert Recon(kind, src, prior, n, m + k)[..m][m - n + k] == Recon(kind, src, prior, n, m + k)[m - n + k];
  }

  lemma AlphaAbove(s: seq<byte>, was: seq<byte>, cur: nat, stride: nat, prior: seq<byte>, n: nat, kind: Kind,
                   first: bool,
                   m: nat, i: nat, k: nat, p: nat)
    requires k < n <= m && m + n + Times(i, n) == |prior| && p == |Widen(prior[..m], n)|
    requires Inside(s, was, cur, cur + stride) && RowAbove(was, cur, stride, prior, n, n + 1, first)
    ensures FilterOf(kind, first).UsesPrior() ==>
      stride <= cur && n + 1 <= p && p + n + 1 <= stride && s[cur + p + k - stride] == prior[m + k]
      && s[cur + p + k - stride - (n + 1)] == prior[m + k - n]
  {
    hide Inside, AllZero, FilterOf, RowAbove, Times;
    if FilterOf(kind, first).UsesPrior() {
      NeedsAbove(s, was, cur, stride, prior, n, n + 1, kind, first);
      AboveAt(s, cur, stride, prior, n, n + 1, m, i, k, p);
      LastStored(prior[..m], n, n + 1, 0);
      assert prior[..m][..m - n] == prior[..m - n];
      TimesNext(i, n);
      AboveAt(s, cur, stride, prior, n, n + 1, m - n, i + 1, k, p - n - 1);
    }
  }

  /** All pixels but the first, when each gets an alpha. */
  method AlphaPixels(out: array<byte>, cur: nat, stride: nat, n: nat, x: nat, raw: seq<byte>, pos: nat, kind: Kind,
                     first: bool, ghost src: seq<byte>, ghost prior: seq<byte>, ghost was: seq<byte>)
    requires n > 0 && x > 0 && |src| == |prior| == Times(x, n) && stride == Times(x, n + 1)
    requires cur + stride <= out.Length
    requires pos + |src| <= |raw| && src == raw[pos..pos + |src|]
    requires Inside(out[..], was, cur, cur + stride) && RowAbove(was, cur, stride, prior, n, n + 1, first)
    requires n <= |src| && n + 1 <= stride && out[cur..cur + n + 1] == Widen(Recon(kind, src, prior, n, n), n)
    modifies out
    ensures Inside(out[..], was, cur, cur + stride)
    ensures out[cur..cur + stride] == Widen(Recon(kind, src, prior, n, |src|), n)
  {
    hide Recon, FilterOf, Inside, AllZero, RowAbove, Widen, Times;
    FirstIsZero(was, cur, stride, prior, n, n + 1, first);
    var i, p, q := x - 1, n + 1, n;
    OnePixel(prior[..n], n);
    TimesNext(i, n);
    TimesNext(i, n + 1);
    while i >= 1
      invariant 0 <= i < x && n <= q <= |src| && |src| == q + Times(i, n) && stride == p + Times(i, n + 1)
      invariant Inside(out[..], was, cur, cur + stride) && p == |Widen(prior[..q], n)|
      invariant out[cur..cur + p] == Widen(Recon(kind, src, prior, n, q), n)
    {
      TimesNext(i - 1, n);
      TimesNext(i - 1, n + 1);
      Nested(raw, pos, pos + |src|, q, q + n);
      AlphaPixel(out, cur, stride, n, p, raw, pos + q, kind, first, q, i - 1, src, prior, was);
      i, p, q := i - 1, p + n + 1, q + n;
    }
    TimesNone(n);
    TimesNone(n + 1);
  }

  lemma OnePixel(s: seq<byte>, n: nat)
    requires |s| == n > 0
    ensures |Widen(s, n)| == n + 1
  {
  }

  /** The bytes of the next pixel, and its alpha. */
  method AlphaPixel(out: array<byte>, cur: nat, stride: nat, n: nat, p: nat, raw: seq<byte>, at: nat, kind: Kind,
                    first: bool, ghost m: nat, ghost i: nat, ghost src: seq<byte>, ghost prior: seq<byte>,
                    ghost was: seq<byte>)
    requires 0 < n <= m && m + n + Times(i, n) == |src| == |prior| && cur + stride <= out.Length && p + n < stride
    requires at + n <= |raw| && (first ==> AllZero(prior)) && src[m..m + n] == raw[at..at + n]
    requires Inside(out[..], was, cur, cur + stride) && RowAbove(was, cur, stride, prior, n, n + 1, first)
    requires p == |Widen(prior[..m], n)| && out[cur..cur + p] == Widen(Recon(kind, src, prior, n, m), n)
    modifies out
    ensures Inside(out[..], was, cur, cur + stride)
    ensures p + n + 1 == |Widen(prior[..m + n], n)|
    ensures out[cur..cur + p + n + 1] == Widen(Recon(kind, src, prior, n, m + n), n)
  {
    hide Recon, FilterOf, Inside, AllZero, RowAbove, Widen;
    ghost var start := out[..];
    var k := 0;
    while k < n
      invariant 0 <= k <= n
      invariant Inside(out[..], was, cur, cur + stride) && out[..cur + p] == start[..cur + p]
      invariant out[cur + p..cur + p + k] == Recon(kind, src, prior, n, m + k)[m..]
    {
      assert src[m..m + n][k] == raw[at..at + n][k];
      SameRow(out[..], start, cur, p);
      AlphaPixelNext(out, cur, stride, n, p, k, raw[at + k], kind, first, m, i, src, prior, was);
      k := k + 1;
    }
    Append(out, cur + p, cur + p + n, 255, cur, cur + stride, was);
    SameRow(out[..], start, cur, p);
    PixelAdded(out[..], cur, p, n, kind, src, prior, m);
  }

  lemma SameRow(s: seq<byte>, t: seq<byte>, cur: nat, p: nat)
    requires cur + p <= |s| && cur + p <= |t| && s[..cur + p] == t[..cur + p]
    ensures s[cur..cur + p] == t[cur..cur + p]
  {
    assert s[cur..cur + p] == s[..cur + p][cur..] && t[cur..cur + p] == t[..cur + p][cur..];
  }

  lemma PixelAdded(s: seq<byte>, cur: nat, p: nat, n: nat, kind: Kind, src: seq<byte>, prior: seq<byte>, m: nat)
    requires n > 0 && m + n <= |src| == |prior| && cur + p + n + 1 <= |s|
    requires p == |Widen(prior[..m], n)| && s[cur..cur + p] == Widen(Recon(kind, src, prior, n, m), n)
    requires s[cur + p..cur + p + n + 1] == Recon(kind, src, prior, n, m + n)[m..] + [255]
    ensures p + n + 1 == |Widen(prior[..m + n], n)|
    ensures s[cur..cur + p + n + 1] == Widen(Recon(kind, src, prior, n, m + n), n)
  {
    hide Recon, Widen;
    ReconPrefix(kind, src, prior, n, m, m + n);
    var r := Recon(kind, src, prior, n, m + n);
    assert r == r[..m] + r[m..];
    LaidNext(r[..m], n, n + 1, r[m..]);
    assert prior[..m + n] == prior[..m] + prior[m..m + n];
    LaidNext(prior[..m], n, n + 1, prior[m..m + n]);
    assert s[cur..cur + p + n + 1] == s[cur..cur + p] + s[cur + p..cur + p + n + 1];
  }

  /** One row, from the bytes at pos, to position cur. */
  method ReconRow(out: array<byte>, cur: nat, stride: nat, n: nat, outN: nat, x: nat, raw: seq<byte>, pos: nat,
                  kind: Kind,
             first: bool, ghost src: seq<byte>, ghost prior: seq<byte>)
    requires n > 0 && x > 0 && (outN == n || outN == n + 1)
    requires |src| == |prior| == Times(x, n) && stride == Times(x, outN) && cur + stride <= out.Length
    requires pos + |src| <= |raw| && src == raw[pos..pos + |src|]
    requires RowAbove(out[..], cur, stride, prior, n, outN, first)
    modifies out
    ensures Inside(out[..], old(out[..]), cur, cur + stride)
    ensures out[cur..cur + stride] == Laid(Recon(kind, src, prior, n, |src|), n, outN)
  {
    hide Recon, FilterOf, Inside, AllZero, RowAbove, Widen, Times;
    ghost var was := out[..];
    TimesNext(x - 1, n);
    TimesNext(x - 1, outN);
    FirstPixel(out, cur, stride, n, outN, raw, pos, kind, first, src, prior, x - 1);
    if n == outN {
      FlatPixels(out, cur, stride, n, raw, pos, kind, first, src, prior, was);
    } else {
      AlphaPixels(out, cur, stride, n, x, raw, pos, kind, first, src, prior, was);
    }
  }

  // ----- The image -----

  /** The rows of an image as they are stored. */
  function Stored(rows: seq<seq<byte>>, n: nat, outN: nat): seq<byte>
    requires n > 0
  {
    if rows == [] then [] else Stored(rows[..|rows| - 1], n, outN) + Laid(rows[|rows| - 1], n, outN)
  }

  lemma StoredNext(rows: seq<seq<byte>>, row: seq<byte>, n: nat, outN: nat)
    requires n > 0
    ensures Stored(rows + [row], n, outN) == Stored(rows, n, outN) + Laid(row, n, outN)
  {
    assert (rows + [row])[..|rows|] == rows;
  }

  lemma LaidSize(s: seq<byte>, n: nat, outN: nat, x: nat)
    requires n > 0 && (outN == n || outN == n + 1) && |s| == Times(x, n)
    ensures |Laid(s, n, outN)| == Times(x, outN)
  {
    if outN > n {
      WidenLength(s, n, x);
    }
  }

  lemma {:induction false} StoredSize(rows: seq<seq<byte>>, n: nat, outN: nat, x: nat)
    requires n > 0 && (outN == n || outN == n + 1) && forall r :: 0 <= r < |rows| ==> |rows[r]| == Times(x, n)
    ensures |Stored(rows, n, outN)| == Times(|rows|, Times(x, outN))
    decreases |rows|
  {
    hide Times, Laid;
    if rows == [] {
      TimesNone(Times(x, outN));
    } else {
      StoredSize(rows[..|rows| - 1], n, outN, x);
      LaidSize(rows[|rows| - 1], n, outN, x);
      TimesNext(|rows| - 1, Times(x, outN));
    }
  }

  /** Byte k of pixel i of row j of the stored image is that byte of the row, or 255 for alpha. */
  lemma {:induction false} ImagePixel(rows: seq<seq<byte>>, n: nat, outN: nat, x: nat, j: nat, i: nat, k: nat)
    requires n > 0 && (outN == n || outN == n + 1) && forall r :: 0 <= r < |rows| ==> |rows[r]| == Times(x, n)
    requires j < |rows| && i < x && k < outN
    ensures Times(j, Times(x, outN)) + Times(i, outN) + k < |Stored(rows, n, outN)|
    ensures Times(i, n) + n <= |rows[j]|
    ensures Stored(rows, n, outN)[Times(j, Times(x, outN)) + Times(i, outN) + k] ==
      if k < n then rows[j][Times(i, n) + k] else 255
    decreases |rows|
  {
    hide Times, Widen;
    var last := |rows| - 1;
    StoredSize(rows[..last], n, outN, x);
    if j < last {
      ImagePixel(rows[..last], n, outN, x, j, i, k);
    } else {
      LaidPixel(rows[j], n, outN, x, i, k);
    }
  }

  lemma LaidPixel(row: seq<byte>, n: nat, outN: nat, x: nat, i: nat, k: nat)
    requires n > 0 && (outN == n || outN == n + 1) && |row| == Times(x, n) && i < x && k < outN
    ensures Times(i, n) + n <= |row| && Times(i, outN) + k < |Laid(row, n, outN)|
    ensures Laid(row, n, outN)[Times(i, outN) + k] == if k < n then row[Times(i, n) + k] else 255
  {
    hide Times, Widen;
    if outN == n {
      TimesSplit(x, i, n);
    } else {
      PixelStored(row, n, x, i, k);
    }
  }

  /** An image needs its filter types and bytes. */
  lemma {:induction false} ImageSize(raw: seq<byte>, prior: seq<byte>, n: nat, y: nat)
    requires n > 0 && Image(raw, prior, n, y).Some?
    ensures |raw| >= Times(y, |prior| + 1)
    decreases y
  {
    hide Recon, Times;
    if y == 0 {
      TimesNone(|prior| + 1);
    } else {
      var w := |prior|;
      TimesNext(y - 1, w + 1);
      ImageSize(raw[w + 1..], Recon(raw[0], raw[1..w + 1], prior, n, w), n, y - 1);
    }
  }

  /** rows, and then what the rest of the image is. */
  function After(rows: seq<seq<byte>>, rest: Option<seq<seq<byte>>>): Option<seq<seq<byte>>> {
    match rest
    case None => None
    case Some(more) => Some(rows + more)
  }

  lemma ImageStep(raw: seq<byte>, pos: nat, prior: seq<byte>, n: nat, y: nat, rows: seq<seq<byte>>)
    requires n > 0 && y > 0 && pos + |prior| + 1 <= |raw|
    ensures raw[pos] > 4 ==> Image(raw[pos..], prior, n, y).None?
    ensures raw[pos] <= 4 ==>
      var w := |prior|;
      var row := Recon(raw[pos], raw[pos + 1..pos + 1 + w], prior, n, w);
      After(rows, Image(raw[pos..], prior, n, y)) == After(rows + [row], Image(raw[pos + 1 + w..], row, n, y - 1))
  {
    hide Recon;
    var w, r := |prior|, raw[pos..];
    assert r[0] == raw[pos] && r[1..w + 1] == raw[pos + 1..pos + 1 + w] && r[w + 1..] == raw[pos + 1 + w..];
    if raw[pos] <= 4 {
      var row := Recon(raw[pos], raw[pos + 1..pos + 1 + w], prior, n, w);
      var rest := Image(raw[pos + 1 + w..], row, n, y - 1);
      if rest.Some? {
        assert rows + ([row] + rest.value) == rows + [row] + rest.value;
      }
    }
  }

  /** Reconstruct an image of x by y pixels of n bytes, storing outN bytes a pixel. It fails just
      when bytes are missing or a filter type is not one of those that exist. */
  method CreateImageRaw(raw: seq<byte>, x: nat, y: nat, n: nat, outN: nat) returns (ok: bool, out: array<byte>)
    requires n > 0 && x > 0 && y > 0 && (outN == n || outN == n + 1)
    ensures fresh(out) && out.Length == Times(y, Times(x, outN))
    ensures ok <==> Image(raw, Zeros(Times(x, n)), n, y).Some?
    ensures ok ==> out[..] == Stored(Image(raw, Zeros(Times(x, n)), n, y).value, n, outN)
  {
    hide Recon, FilterOf, Inside, AllZero, RowAbove, Widen, Times, Laid, Image, Zeros, Stored;
    var stride, width := Times(x, outN), Times(x, n);
    ghost var zeros := Zeros(width);
    ZeroRow(width);
    out := new byte[Times(y, stride)];
    if |raw| < Times(y, width + 1) {
      TooShort(raw, zeros, n, y);
      return false, out;
    }
    ghost var rows: seq<seq<byte>>, prior := [], zeros;
    var pos: nat, cur: nat, j: nat := 0, 0, 0;
    NoRows(raw, n, outN, Image(raw, zeros, n, y));
    FirstRow(out[..], stride, zeros, n, outN);
    while j < y
      invariant 0 <= j <= y && out.Length == cur + Times(y - j, stride) && |raw| >= pos + Times(y - j, width + 1)
      invariant |prior| == width && RowAbove(out[..], cur, stride, prior, n, outN, j == 0)
      invariant Image(raw, zeros, n, y) == After(rows, Image(raw[pos..], prior, n, y - j))
      invariant out[..cur] == Stored(rows, n, outN)
    {
      TimesNext(y - j - 1, stride);
      TimesNext(y - j - 1, width + 1);
      ImageStep(raw, pos, prior, n, y - j, rows);
      var filter := raw[pos];
      pos := pos + 1;
      if filter > 4 {
        return false, out;
      }
      ghost var src, was := raw[pos..pos + width], out[..];
      ReconRow(out, cur, stride, n, outN, x, raw, pos, filter, j == 0, src, prior);
      ghost var row := Recon(filter, src, prior, n, width);
      RowDone(out[..], was, cur, stride, rows, row, n, outN);
      rows, prior := rows + [row], row;
      pos, cur, j := pos + width, cur + stride, j + 1;
    }
    AllRows(raw[pos..], prior, n, rows);
    TimesNone(stride);
    assert out[..cur] == out[..];
    ok := true;
  }

  lemma ZeroRow(w: nat)
    ensures |Zeros(w)| == w && AllZero(Zeros(w))
  {
  }

  lemma TooShort(raw: seq<byte>, prior: seq<byte>, n: nat, y: nat)
    requires n > 0 && |raw| < Times(y, |prior| + 1)
    ensures Image(raw, prior, n, y).None?
  {
    hide Image, Times;
    if Image(raw, prior, n, y).Some? {
      ImageSize(raw, prior, n, y);
    }
  }

  lemma NoRows(raw: seq<byte>, n: nat, outN: nat, image: Option<seq<seq<byte>>>)
    requires n > 0
    ensures raw[0..] == raw && After([], image) == image && Stored([], n, outN) == []
  {
    if image.Some? {
      assert [] + image.value == image.value;
    }
  }

  lemma FirstRow(s: seq<byte>, stride: nat, prior: seq<byte>, n: nat, outN: nat)
    requires n > 0 && AllZero(prior)
    ensures RowAbove(s, 0, stride, prior, n, outN, true)
  {
  }

  lemma RowDone(s: seq<byte>, was: seq<byte>, cur: nat, stride: nat, rows: seq<seq<byte>>, row: seq<byte>, n: nat,
                outN: nat)
    requires n > 0 && Inside(s, was, cur, cur + stride)
    requires was[..cur] == Stored(rows, n, outN) && s[cur..cur + stride] == Laid(row, n, outN)
    ensures cur + stride <= |s| && RowAbove(s, cur + stride, stride, row, n, outN, false)
    ensures s[..cur + stride] == Stored(rows + [row], n, outN)
  {
    hide Stored, Laid;
    StoredNext(rows, row, n, outN);
    assert s[..cur + stride] == s[..cur] + s[cur..cur + stride];
  }

  lemma AllRows(raw: seq<byte>, prior: seq<byte>, n: nat, rows: seq<seq<byte>>)
    requires n > 0
    ensures After(rows, Image(raw, prior, n, 0)) == Some(rows)
  {
    assert rows + [] == rows;
  }
}
