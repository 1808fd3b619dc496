/** Sorting the edges of a glyph by where they start: a quicksort that stops at short runs, and
    an insertion sort that finishes. */
module SortEdges {
  import opened Bits
  import opened Seqs

  datatype Edge = Edge(x0: real, y0: real, x1: real, y1: real, invert: bool)

  predicate Before(a: Edge, b: Edge) {
    a.y0 < b.y0
  }

  ghost predicate Sorted(s: seq<Edge>) {
    forall x, y :: 0 <= x < y < |s| ==> s[x].y0 <= s[y].y0
  }

  // ----- Permutations -----

  /** The same edges, in any order. */
  ghost predicate Same(s: seq<Edge>, t: seq<Edge>) {
    multiset(s) == multiset(t)
  }

  lemma SameSize(s: seq<Edge>, t: seq<Edge>)
    requires Same(s, t)
    ensures |s| == |t|
  {
    assert |s| == |multiset(s)| && |t| == |multiset(t)|;
  }

  lemma SwapSame(s: seq<Edge>, x: nat, y: nat)
    requires x < |s| && y < |s|
    ensures Same(s[x := s[y]][y := s[x]], s)
  {
  }

  // ----- What the quicksort leaves -----

  /** No edge before i starts below one from i on; what is from j to i belongs to neither part. */
  ghost predicate Cut(s: seq<Edge>, j: nat, i: nat) {
    j <= i <= j + 1 && 1 <= i < |s| && forall x, y :: 0 <= x < i <= y < |s| ==> s[x].y0 <= s[y].y0
  }

  /** Short, or cut in two parts which are coarsely sorted themselves. */
  ghost predicate Coarse(s: seq<Edge>) {
    |s| <= 12 || exists j: nat, i: nat :: Cut(s, j, i) && Coarse(s[..j]) && Coarse(s[i..])
  }

  /** Any coarse order of w makes the whole coarse. */
  ghost predicate Frames(pre: seq<Edge>, w: seq<Edge>, post: seq<Edge>) {
    forall v :: Same(v, w) && Coarse(v) ==> Coarse(pre + v + post)
  }

  lemma CutSame(s: seq<Edge>, j: nat, i: nat, x: seq<Edge>, y: seq<Edge>)
    requires Cut(s, j, i) && Same(x, s[..j]) && Same(y, s[i..])
    ensures |x| == j && |y| == |s| - i && Same(x + s[j..i] + y, s) && Cut(x + s[j..i] + y, j, i)
  {
    SameSize(x, s[..j]);
    SameSize(y, s[i..]);
    var t := x + s[j..i] + y;
    assert s == s[..j] + s[j..i] + s[i..];
    forall a, b | 0 <= a < i <= b < |t| ensures t[a].y0 <= t[b].y0 {
      var a' := Source(x, s[..j], a, s[j..i]);
      assert y[b - i] in multiset(y) && y[b - i] in multiset(s[i..]);
      var b' :| 0 <= b' < |s[i..]| && s[i..][b'] == y[b - i];
      assert s[a'].y0 <= s[i + b'].y0;
    }
  }

  /** Where an edge of a permuted first part, or of what follows it, was. */
  lemma Source(x: seq<Edge>, was: seq<Edge>, a: nat, mid: seq<Edge>) returns (k: nat)
    requires Same(x, was) && a < |x| + |mid|
    ensures |x| == |was| && k < |x| + |mid| && (was + mid)[k] == (x + mid)[a]
  {
    SameSize(x, was);
    if a < |x| {
      assert x[a] in multiset(x) && x[a] in multiset(was);
      k :| 0 <= k < |was| && was[k] == x[a];
    } else {
      k := a;
    }
  }

  lemma CutCoarse(s: seq<Edge>, j: nat, i: nat, x: seq<Edge>, y: seq<Edge>)
    requires Cut(s, j, i) && Same(x, s[..j]) && Same(y, s[i..]) && Coarse(x) && Coarse(y)
    ensures Coarse(x + s[j..i] + y)
  {
    CutSame(s, j, i, x, y);
    var t := x + s[j..i] + y;
    assert t[..j] == x && t[i..] == y;
  }

  lemma FramesSelf(w: seq<Edge>)
    ensures Frames([], w, [])
  {
    forall v | Same(v, w) && Coarse(v) ensures Coarse([] + v + []) {
      assert [] + v + [] == v;
    }
  }

  lemma FramesShort(pre: seq<Edge>, w: seq<Edge>, post: seq<Edge>)
    requires Frames(pre, w, post) && |w| <= 12
    ensures Coarse(pre + w + post)
  {
    assert Same(w, w);
  }

  lemma Framed(pre: seq<Edge>, w: seq<Edge>, post: seq<Edge>, s: seq<Edge>, j: nat, i: nat, x: seq<Edge>, y: seq<Edge>)
    requires Frames(pre, w, post) && Same(s, w) && Cut(s, j, i)
    requires Same(x, s[..j]) && Coarse(x) && Same(y, s[i..]) && Coarse(y)
    ensures Coarse(pre + (x + s[j..i] + y) + post)
  {
    hide Coarse, Cut;
    CutSame(s, j, i, x, y);
    CutCoarse(s, j, i, x, y);
  }

  lemma Assoc(a: seq<Edge>, b: seq<Edge>, c: seq<Edge>)
    ensures (a + b) + c == a + (b + c)
  {
  }

  lemma Regroup(pre: seq<Edge>, x: seq<Edge>, m: seq<Edge>, y: seq<Edge>, post: seq<Edge>)
    ensures pre + (x + m + y) + post == pre + x + m + y + post == pre + x + (m + y + post)
  {
    Assoc(x, m, y);
    Assoc(pre, x, m + y);
    Assoc(pre + x, m + y, post);
    Assoc(pre + x, m, y);
  }

  /** When the first part is done, the second remains. */
  lemma SecondRemains(pre: seq<Edge>, w: seq<Edge>, post: seq<Edge>, s: seq<Edge>, j: nat, i: nat, x: seq<Edge>)
    requires Frames(pre, w, post) && Same(s, w) && Cut(s, j, i) && Same(x, s[..j]) && Coarse(x)
    ensures Frames(pre + x + s[j..i], s[i..], post)
  {
    var m := s[j..i];
    forall y | Same(y, s[i..]) && Coarse(y) ensures Coarse(pre + x + m + y + post) {
      hide Coarse, Cut, Same, Frames;
      Framed(pre, w, post, s, j, i, x, y);
      Regroup(pre, x, m, y, post);
    }
  }

  /** And the other way round. */
  lemma FirstRemains(pre: seq<Edge>, w: seq<Edge>, post: seq<Edge>, s: seq<Edge>, j: nat, i: nat, y: seq<Edge>)
    requires Frames(pre, w, post) && Same(s, w) && Cut(s, j, i) && Same(y, s[i..]) && Coarse(y)
    ensures Frames(pre, s[..j], s[j..i] + y + post)
  {
    var m := s[j..i];
    forall x | Same(x, s[..j]) && Coarse(x) ensures Coarse(pre + x + (m + y + post)) {
      hide Coarse, Cut, Same, Frames;
      Framed(pre, w, post, s, j, i, x, y);
      Regroup(pre, x, m, y, post);
    }
  }

  // ----- Changes inside a window of the array -----

  /** s is t with the n edges from lo on in another order. */
  ghost predicate Within(s: seq<Edge>, t: seq<Edge>, lo: nat, n: nat) {
    && |s| == |t| && lo + n <= |s| && s[..lo] == t[..lo] && s[lo + n..] == t[lo + n..]
    && Same(s[lo..lo + n], t[lo..lo + n])
  }

  lemma WithinSelf(s: seq<Edge>, lo: nat, n: nat)
    requires lo + n <= |s|
    ensures Within(s, s, lo, n)
  {
  }

  lemma WithinSwap(s: seq<Edge>, t: seq<Edge>, v: seq<Edge>, lo: nat, n: nat, x: nat, y: nat)
    requires Within(s, t, lo, n) && lo <= x < lo + n && lo <= y < lo + n && v == s[x := s[y]][y := s[x]]
    ensures Within(v, t, lo, n)
  {
    SwapSlices(s, v, lo, n, x, y);
    SwapSame(s[lo..lo + n], x - lo, y - lo);
    Outside(s, v, lo, n, x, y);
  }

  lemma Outside(s: seq<Edge>, v: seq<Edge>, lo: nat, n: nat, x: nat, y: nat)
    requires lo + n <= |s| && lo <= x < lo + n && lo <= y < lo + n && v == s[x := s[y]][y := s[x]]
    ensures |v| == |s| && v[..lo] == s[..lo] && v[lo + n..] == s[lo + n..]
  {
  }

  lemma SwapSlices(s: seq<Edge>, v: seq<Edge>, lo: nat, n: nat, x: nat, y: nat)
    requires lo + n <= |s| && lo <= x < lo + n && lo <= y < lo + n && v == s[x := s[y]][y := s[x]]
    ensures v[lo..lo + n] == s[lo..lo + n][x - lo := s[lo..lo + n][y - lo]][y - lo := s[lo..lo + n][x - lo]]
  {
  }

  lemma WithinWider(s: seq<Edge>, t: seq<Edge>, u: seq<Edge>, lo: nat, n: nat, lo': nat, n': nat)
    requires Within(s, t, lo', n') && Within(t, u, lo, n) && lo <= lo' && lo' + n' <= lo + n
    ensures Within(s, u, lo, n)
  {
    var s0, s1, s2 := s[lo..lo'], s[lo'..lo' + n'], s[lo' + n'..lo + n];
    var t0, t1, t2 := t[lo..lo'], t[lo'..lo' + n'], t[lo' + n'..lo + n];
    assert s0 == t0 by {
      assert s0 == s[..lo'][lo..] && t0 == t[..lo'][lo..];
    }
    assert s2 == t2 by {
      assert s2 == s[lo' + n'..][..lo + n - lo' - n'] && t2 == t[lo' + n'..][..lo + n - lo' - n'];
    }
    assert s[lo..lo + n] == s0 + s1 + s2 && t[lo..lo + n] == t0 + t1 + t2;
    assert s[..lo] == s[..lo'][..lo] && t[..lo] == t[..lo'][..lo];
    assert s[lo + n..] == s[lo' + n'..][lo + n - lo' - n'..] && t[lo + n..] == t[lo' + n'..][lo + n - lo' - n'..];
  }

  lemma CutHere(s: seq<Edge>, i: nat, j: nat, v: real)
    requires j <= i <= j + 1 && 1 <= i < |s|
    requires forall x :: 0 <= x < i ==> s[x].y0 <= v
    requires forall y :: i <= y < |s| ==> v <= s[y].y0
    ensures Cut(s, j, i)
  {
  }

  lemma WithinSize(s: seq<Edge>, t: seq<Edge>, lo: nat, n: nat)
    requires Within(s, t, lo, n)
    ensures |s| == |t| && lo + n <= |s|
  {
  }

  /** A change of the whole window, then of its first part. */
  lemma ThenFirst(s0: seq<Edge>, s1: seq<Edge>, s2: seq<Edge>, was: seq<Edge>, lo: nat, n: nat, p: nat, k: nat,
                  j: nat, i: nat)
    requires Within(s0, was, lo, n) && Within(s1, s0, p, k) && Within(s2, s1, p, j)
    requires j <= i <= k && lo <= p && p + k <= lo + n
    ensures Within(s2, was, lo, n) && Same(s1[p..p + k], s0[p..p + k]) && Same(s2[p..p + j], s1[p..p + k][..j])
    ensures s2[lo..p + i] == s0[lo..p] + s2[p..p + j] + s1[p..p + k][j..i]
    ensures s2[p + i..p + k] == s1[p..p + k][i..] && s2[p + k..lo + n] == s0[p + k..lo + n]
  {
    WithinParts(s0, s1, s2, lo, n, p, k, p, j);
    hide Within, Same;
    WithinWider(s1, s0, was, lo, n, p, k);
    WithinWider(s2, s1, was, lo, n, p, j);
    Joined(s2, lo, p, p + j, p + i);
    Tail(s2, s1[p..p + k], p, j, i);
  }

  /** A change of the whole window, then of its second part. */
  lemma ThenSecond(s0: seq<Edge>, s1: seq<Edge>, s2: seq<Edge>, was: seq<Edge>, lo: nat, n: nat, p: nat, k: nat,
                   j: nat, i: nat)
    requires Within(s0, was, lo, n) && Within(s1, s0, p, k) && j <= i <= k && Within(s2, s1, p + i, k - i)
    requires lo <= p && p + k <= lo + n
    ensures Within(s2, was, lo, n) && Same(s1[p..p + k], s0[p..p + k]) && Same(s2[p + i..p + k], s1[p..p + k][i..])
    ensures s2[lo..p] == s0[lo..p] && s2[p..p + j] == s1[p..p + k][..j]
    ensures s2[p + j..lo + n] == s1[p..p + k][j..i] + s2[p + i..p + k] + s0[p + k..lo + n]
  {
    hide Within, Same;
    WithinSize(s0, was, lo, n);
    WithinSize(s1, s0, p, k);
    WithinSize(s2, s1, p + i, k - i);
    WithinParts(s0, s1, s2, lo, n, p, k, p + i, k - i);
    assert s1[p..p + k][i..k] == s1[p..p + k][i..];
    WithinWider(s1, s0, was, lo, n, p, k);
    WithinWider(s2, s1, was, lo, n, p + i, k - i);
    Joined(s2, p + j, p + i, p + k, lo + n);
    Head(s2, s1[p..p + k], p, j, i);
  }

  lemma FirstDone(s0: seq<Edge>, s1: seq<Edge>, s2: seq<Edge>, was: seq<Edge>, lo: nat, n: nat, p: nat, k: nat,
                  j: nat, i: nat)
    requires Within(s0, was, lo, n) && Within(s1, s0, p, k) && Within(s2, s1, p, j)
    requires j <= i <= k && lo <= p && p + k <= lo + n
    requires Frames(s0[lo..p], s0[p..p + k], s0[p + k..lo + n])
    requires Cut(s1[p..p + k], j, i) && Coarse(s2[p..p + j])
    ensures Within(s2, was, lo, n)
    ensures Frames(s2[lo..p + i], s2[p + i..p + k], s2[p + k..lo + n])
  {
    hide Cut, Coarse, Frames, Same;
    ThenFirst(s0, s1, s2, was, lo, n, p, k, j, i);
    hide Within;
    SecondRemains(s0[lo..p], s0[p..p + k], s0[p + k..lo + n], s1[p..p + k], j, i, s2[p..p + j]);
  }

  lemma SecondDone(s0: seq<Edge>, s1: seq<Edge>, s2: seq<Edge>, was: seq<Edge>, lo: nat, n: nat, p: nat, k: nat,
                   j: nat, i: nat)
    requires Within(s0, was, lo, n) && Within(s1, s0, p, k) && j <= i <= k && Within(s2, s1, p + i, k - i)
    requires lo <= p && p + k <= lo + n
    requires Frames(s0[lo..p], s0[p..p + k], s0[p + k..lo + n])
    requires Cut(s1[p..p + k], j, i) && Coarse(s2[p + i..p + k])
    ensures Within(s2, was, lo, n)
    ensures Frames(s2[lo..p], s2[p..p + j], s2[p + j..lo + n])
  {
    hide Cut, Coarse, Frames, Same;
    ThenSecond(s0, s1, s2, was, lo, n, p, k, j, i);
    hide Within;
    FirstRemains(s0[lo..p], s0[p..p + k], s0[p + k..lo + n], s1[p..p + k], j, i, s2[p + i..p + k]);
  }

  lemma Head(s: seq<Edge>, w: seq<Edge>, p: nat, j: nat, i: nat)
    requires j <= i <= |w| && p + i <= |s| && s[p..p + i] == w[..i]
    ensures s[p..p + j] == w[..j] && s[p + j..p + i] == w[j..i]
  {
    Nested(s, p, p + i, 0, j);
    Nested(s, p, p + i, j, i);
    Nested(w, 0, i, 0, j);
    Nested(w, 0, i, j, i);
  }

  lemma Tail(s: seq<Edge>, w: seq<Edge>, p: nat, j: nat, i: nat)
    requires j <= i <= |w| && p + |w| <= |s| && s[p + j..p + |w|] == w[j..]
    ensures s[p + j..p + i] == w[j..i] && s[p + i..p + |w|] == w[i..]
  {
    assert w[j..] == w[j..|w|] && w[i..] == w[i..|w|];
    Nested(s, p + j, p + |w|, 0, i - j);
    Nested(s, p + j, p + |w|, i - j, |w| - j);
    Nested(w, j, |w|, 0, i - j);
    Nested(w, j, |w|, i - j, |w| - j);
  }

  lemma WithinParts(s0: seq<Edge>, s1: seq<Edge>, s2: seq<Edge>, lo: nat, n: nat, p: nat, k: nat, q: nat, l: nat)
    requires Within(s1, s0, p, k) && Within(s2, s1, q, l)
    requires lo <= p <= q && q + l <= p + k <= lo + n <= |s0|
    ensures Same(s1[p..p + k], s0[p..p + k]) && Same(s2[q..q + l], s1[p..p + k][q - p..q - p + l])
    ensures s2[lo..p] == s0[lo..p] && s2[p + k..lo + n] == s0[p + k..lo + n]
    ensures s2[p..q] == s1[p..p + k][..q - p] && s2[q + l..p + k] == s1[p..p + k][q - p + l..]
  {
    hide Same, Within;
    WithinSize(s1, s0, p, k);
    WithinSize(s2, s1, q, l);
    Kept(s1, s0, p, k, lo, p);
    Kept(s1, s0, p, k, p + k, lo + n);
    Kept(s2, s1, q, l, lo, p);
    Kept(s2, s1, q, l, p + k, lo + n);
    Kept(s2, s1, q, l, p, q);
    Kept(s2, s1, q, l, q + l, p + k);
    WithinSame(s1, s0, p, k);
    WithinSame(s2, s1, q, l);
    Nested(s1, p, p + k, q - p, q - p + l);
    Nested(s1, p, p + k, 0, q - p);
    Nested(s1, p, p + k, q - p + l, k);
  }

  lemma WithinSame(s: seq<Edge>, t: seq<Edge>, lo: nat, n: nat)
    requires Within(s, t, lo, n)
    ensures Same(s[lo..lo + n], t[lo..lo + n])
  {
  }

  /** What is outside the window stays. */
  lemma Kept(s: seq<Edge>, t: seq<Edge>, lo: nat, n: nat, c: nat, d: nat)
    requires Within(s, t, lo, n) && c <= d <= |s| && (d <= lo || lo + n <= c)
    ensures s[c..d] == t[c..d]
  {
    hide Same;
    if d <= lo {
      Nested(s, 0, lo, c, d);
      Nested(t, 0, lo, c, d);
    } else {
      assert s[lo + n..] == s[lo + n..|s|] && t[lo + n..] == t[lo + n..|s|];
      Nested(s, lo + n, |s|, c - lo - n, d - lo - n);
      Nested(t, lo + n, |s|, c - lo - n, d - lo - n);
    }
  }

  // ----- The quicksort -----

  method Swap(a: array<Edge>, x: nat, y: nat)
    requires x < a.Length && y < a.Length
    modifies a
    ensures a[..] == old(a[..])[x := old(a[y])][y := old(a[x])]
  {
    var t := a[x];
    a[x] := a[y];
    a[y] := t;
  }

  method SwapWithin(a: array<Edge>, x: nat, y: nat, lo: nat, n: nat, ghost was: seq<Edge>)
    requires lo <= x < lo + n <= a.Length && lo <= y < lo + n && Within(a[..], was, lo, n)
    modifies a
    ensures a[x] == old(a[y]) && a[y] == old(a[x])
    ensures forall z :: 0 <= z < a.Length && z != x && z != y ==> a[z] == old(a[z])
    ensures Within(a[..], was, lo, n)
  {
    hide Within;
    ghost var s := a[..];
    Swap(a, x, y);
    WithinSwap(s, was, a[..], lo, n, x, y);
    assert forall z :: 0 <= z < a.Length ==> a[z] == a[..][z];
  }

  function Median(x: real, y: real, z: real): real {
    if x <= y <= z || z <= y <= x then y else if y <= x <= z || z <= x <= y then x else z
  }

  /** Put the median of the first, the middle and the last edge first. */
  method MedianToFront(a: array<Edge>, lo: nat, n: nat)
    requires n > 12 && lo + n <= a.Length
    modifies a
    ensures Within(a[..], old(a[..]), lo, n)
    ensures a[lo].y0 == Median(old(a[lo].y0), old(a[lo + n / 2].y0), old(a[lo + n - 1].y0))
    ensures a[lo].y0 <= a[lo + n / 2].y0 || a[lo].y0 <= a[lo + n - 1].y0
  {
    hide Within;
    var m := n / 2;
    var c01 := Before(a[lo], a[lo + m]);
    var c12 := Before(a[lo + m], a[lo + n - 1]);
    ghost var was := a[..];
    WithinSelf(was, lo, n);
    if c01 != c12 {
      var c := Before(a[lo], a[lo + n - 1]);
      var z := if c == c12 then 0 else n - 1;
      Swap(a, lo + z, lo + m);
      WithinSwap(was, was, a[..], lo, n, lo + z, lo + m);
    }
    ghost var mid := a[..];
    Swap(a, lo, lo + m);
    WithinSwap(mid, was, a[..], lo, n, lo, lo + m);
  }

  /** Exchange edges around the median, in place. Neither scan checks where the array ends. */
  method Partition(a: array<Edge>, lo: nat, n: nat) returns (i: nat, j: nat)
    requires n > 12 && lo + n <= a.Length
    modifies a
    ensures Within(a[..], old(a[..]), lo, n)
    ensures Cut(a[lo..lo + n], j, i) && j <= i < n && 1 <= i
  {
    MedianToFront(a, lo, n);
    i, j := Exchange(a, lo, n, if a[lo].y0 <= a[lo + n / 2].y0 then n / 2 else n - 1);
  }

  /** The loop of the partition. At index k is an edge that stops the first scan. */
  method Exchange(a: array<Edge>, lo: nat, n: nat, ghost k: nat) returns (i: nat, j: nat)
    requires lo + n <= a.Length && 1 <= k < n && a[lo].y0 <= a[lo + k].y0
    modifies a
    ensures Within(a[..], old(a[..]), lo, n)
    ensures Cut(a[lo..lo + n], j, i) && j <= i < n && 1 <= i
  {
    hide Within, Cut;
    i, j := 1, n - 1;
    ghost var stop, v, was := k, a[lo].y0, a[..];
    WithinSelf(was, lo, n);
    while true
      invariant 1 <= i <= stop < n && j < n && v == a[lo].y0 <= a[lo + stop].y0 && i <= j + 1
      invariant Within(a[..], was, lo, n)
      invariant forall x :: lo <= x < lo + i ==> a[x].y0 <= v
      invariant forall y :: lo + j < y < lo + n ==> v <= a[y].y0
      decreases n - i
    {
      while Before(a[lo + i], a[lo])
        invariant 1 <= i <= stop && i <= j + 1
        invariant forall x :: lo <= x < lo + i ==> a[x].y0 <= v
        decreases stop - i
      {
        i := i + 1;
      }
      while Before(a[lo], a[lo + j])
        invariant i <= j + 1
        invariant forall y :: lo + j < y < lo + n ==> v <= a[y].y0
        decreases j
      {
        j := j - 1;
      }
      if i >= j {
        break;
      }
      SwapWithin(a, lo + i, lo + j, lo, n, was);
      stop := j;
      i := i + 1;
      j := j - 1;
    }
    CutHere(a[lo..lo + n], i, j, v);
  }

  lemma Deeper(depth: nat, m: nat, n: nat)
    requires (depth > 0 ==> Pow2(depth) <= m) && 2 * m <= n && n >= 2
    ensures Pow2(depth + 1) <= n
  {
  }

  /** Sort coarsely: recur on the smaller part and go on with the larger one. The calls nest no
      deeper than the logarithm of the number of edges. */
  method Quicksort(a: array<Edge>, lo: nat, n: nat) returns (ghost depth: nat)
    requires lo + n <= a.Length
    modifies a
    ensures Within(a[..], old(a[..]), lo, n)
    ensures Coarse(a[lo..lo + n])
    ensures depth > 0 ==> Pow2(depth) <= n
    decreases n
  {
    hide Within, Cut, Coarse, Frames, Same, Pow2;
    ghost var was := a[..];
    depth := 0;
    var p: nat, k: nat := lo, n;
    WithinSelf(was, lo, n);
    FramesSelf(a[lo..lo + n]);
    assert a[lo..lo] == [] && a[lo + n..lo + n] == [];
    while k > 12
      invariant lo <= p && p + k <= lo + n
      invariant Within(a[..], was, lo, n)
      invariant Frames(a[lo..p], a[p..p + k], a[p + k..lo + n])
      invariant depth > 0 ==> Pow2(depth) <= n
      decreases k
    {
      ghost var s0 := a[..];
      var i, j := Partition(a, p, k);
      ghost var s1 := a[..];
      if j < k - i {
        ghost var d := Quicksort(a, p, j);
        Deeper(d, j, n);
        depth := if d + 1 > depth then d + 1 else depth;
        FirstDone(s0, s1, a[..], was, lo, n, p, k, j, i);
        p, k := p + i, k - i;
      } else {
        ghost var d := Quicksort(a, p + i, k - i);
        Deeper(d, k - i, n);
        depth := if d + 1 > depth then d + 1 else depth;
        SecondDone(s0, s1, a[..], was, lo, n, p, k, j, i);
        k := j;
      }
    }
    FramesShort(a[lo..p], a[p..p + k], a[p + k..lo + n]);
    Joined(a[..], lo, p, p + k, lo + n);
  }

  // ----- The insertion sort -----

  /** s with edge i moved to where edge j is. */
  function Moved(s: seq<Edge>, j: nat, i: nat): seq<Edge>
    requires j <= i < |s|
  {
    s[..j] + [s[i]] + s[j..i] + s[i + 1..]
  }

  lemma IsMoved(s: seq<Edge>, t: seq<Edge>, j: nat, i: nat)
    requires j <= i < |s| && |t| == |s| && t[j] == s[i]
    requires forall x :: 0 <= x < j ==> t[x] == s[x]
    requires forall x :: j < x <= i ==> t[x] == s[x - 1]
    requires forall x :: i < x < |t| ==> t[x] == s[x]
    ensures t == Moved(s, j, i)
  {
  }

  lemma MovedWithin(s: seq<Edge>, was: seq<Edge>, j: nat, i: nat, n: nat)
    requires Within(s, was, 0, n) && j <= i < n
    ensures Within(Moved(s, j, i), was, 0, n)
  {
    var t := Moved(s, j, i);
    assert t[n..] == s[n..];
    assert t[0..n] == s[..j] + [s[i]] + s[j..i] + s[i + 1..n];
    assert s[0..n] == s[..j] + s[j..i] + [s[i]] + s[i + 1..n];
  }

  lemma MovedSorted(s: seq<Edge>, j: nat, i: nat)
    requires j <= i < |s| && Sorted(s[..i])
    requires j > 0 ==> s[j - 1].y0 <= s[i].y0
    requires forall x :: j <= x < i ==> s[i].y0 < s[x].y0
    ensures Sorted(Moved(s, j, i)[..i + 1])
  {
    var t, u := Moved(s, j, i)[..i + 1], s[..i];
    forall x, y | 0 <= x < y < |t| ensures t[x].y0 <= t[y].y0 {
      assert x != j ==> t[x] == u[if x < j then x else x - 1];
      assert y != j ==> t[y] == u[if y < j then y else y - 1];
      if x == j {
        assert u[y - 1] == s[y - 1];
      } else if y == j {
        assert j > 0 && u[x].y0 <= u[j - 1].y0;
      }
    }
  }

  /** Sort the first n edges. */
  method InsertionSort(a: array<Edge>, n: nat)
    requires n <= a.Length
    modifies a
    ensures Within(a[..], old(a[..]), 0, n)
    ensures Sorted(a[..n])
  {
    hide Within, Sorted;
    WithinSelf(a[..], 0, n);
    SortedShort(a[..if n == 0 then 0 else 1]);
    var i := 1;
    while i < n
      invariant 1 <= i && (i <= n || n == 0)
      invariant Within(a[..], old(a[..]), 0, n)
      invariant Sorted(a[..if n == 0 then 0 else i])
    {
      Insert(a, i, n, old(a[..]));
      i := i + 1;
    }
  }

  lemma SortedShort(s: seq<Edge>)
    requires |s| <= 1
    ensures Sorted(s)
  {
  }

  /** Move edge i down to its place among the sorted edges before it. */
  method Insert(a: array<Edge>, i: nat, n: nat, ghost was: seq<Edge>)
    requires 1 <= i < n <= a.Length && Sorted(a[..i]) && Within(a[..], was, 0, n)
    modifies a
    ensures Sorted(a[..i + 1]) && Within(a[..], was, 0, n)
  {
    hide Within, Sorted, Moved;
    ghost var s := a[..];
    var t, j := a[i], i;
    while j > 0
      invariant 0 <= j <= i
      invariant forall x :: 0 <= x <= j ==> a[x] == s[x]
      invariant forall x :: j < x <= i ==> a[x] == s[x - 1]
      invariant forall x :: i < x < a.Length ==> a[x] == s[x]
      invariant forall x :: j <= x < i ==> t.y0 < s[x].y0
    {
      var c := Before(t, a[j - 1]);
      if !c {
        break;
      }
      a[j] := a[j - 1];
      j := j - 1;
    }
    if i != j {
      a[j] := t;
    }
    IsMoved(s, a[..], j, i);
    MovedSorted(s, j, i);
    MovedWithin(s, was, j, i, n);
  }

  /** The first n edges end up in order; those after them stay. */
  method Sort(a: array<Edge>, n: nat)
    requires n <= a.Length
    modifies a
    ensures Sorted(a[..n])
    ensures Same(a[..n], old(a[..n])) && a[n..] == old(a[n..])
  {
    ghost var depth := Quicksort(a, 0, n);
    InsertionSort(a, n);
  }
}
