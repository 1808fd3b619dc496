/** Canonical Huffman codes as section 3.2.2 of RFC 1951 defines them from code lengths,
    where length 0 means that a symbol has no code. */
module CanonicalCode {
  import opened Bits
  import opened Options

  const MAX_LENGTH: nat := 15

  predicate IsLengths(l: seq<nat>) {
    forall i :: 0 <= i < |l| ==> l[i] <= MAX_LENGTH
  }

  /** How many of the first n symbols have code length s. */
  function Count(l: seq<nat>, s: nat, n: nat): (r: nat)
    requires n <= |l|
    ensures r <= n
  {
    if n == 0 then 0 else Count(l, s, n - 1) + (if l[n - 1] == s then 1 else 0)
  }

  function Total(l: seq<nat>, s: nat): nat {
    Count(l, s, |l|)
  }

  /** The smallest code of length s. */
  function First(l: seq<nat>, s: nat): nat
    requires s >= 1
    decreases s
  {
    if s == 1 then 0 else 2 * (First(l, s - 1) + Total(l, s - 1))
  }

  /** One more than the largest code of length s. */
  function End(l: seq<nat>, s: nat): nat
    requires s >= 1
  {
    First(l, s) + Total(l, s)
  }

  /** The code of symbol i. */
  function Code(l: seq<nat>, i: nat): nat
    requires i < |l| && l[i] >= 1
  {
    First(l, l[i]) + Count(l, l[i], i)
  }

  /** The Kraft sum of the first n symbols in units of 2^-15. */
  function Kraft(l: seq<nat>, n: nat): nat
    requires n <= |l| && IsLengths(l)
  {
    if n == 0 then 0
    else Kraft(l, n - 1) + (if l[n - 1] == 0 then 0 else Pow2(MAX_LENGTH - l[n - 1]))
  }

  /** The lengths are those of some prefix code. */
  predicate IsCode(l: seq<nat>) {
    IsLengths(l) && Kraft(l, |l|) <= Pow2(MAX_LENGTH)
  }

  // ----- Counting -----

  lemma {:induction false} CountMono(l: seq<nat>, s: nat, m: nat, n: nat)
    requires m <= n <= |l|
    ensures Count(l, s, m) <= Count(l, s, n)
  {
    if m < n {
      CountMono(l, s, m, n - 1);
    }
  }

  lemma CountBelowTotal(l: seq<nat>, i: nat)
    requires i < |l|
    ensures Count(l, l[i], i) < Total(l, l[i])
  {
    CountMono(l, l[i], i + 1, |l|);
  }

  lemma CountStrict(l: seq<nat>, i: nat, j: nat)
    requires i < j <= |l|
    ensures Count(l, l[i], i) < Count(l, l[i], j)
  {
    CountMono(l, l[i], i + 1, j);
  }

  lemma {:induction false} CountInjective(l: seq<nat>, i: nat, j: nat)
    requires i < |l| && j < |l| && l[i] == l[j]
    requires Count(l, l[i], i) == Count(l, l[j], j)
    ensures i == j
  {
    if i < j {
      CountStrict(l, i, j);
    } else if j < i {
      CountStrict(l, j, i);
    }
  }

  /** The symbol that is number r among those of length s. */
  lemma {:induction false} Nth(l: seq<nat>, s: nat, r: nat, n: nat) returns (i: nat)
    requires n <= |l| && r < Count(l, s, n)
    ensures i < n && l[i] == s && Count(l, s, i) == r
  {
    if r < Count(l, s, n - 1) {
      i := Nth(l, s, r, n - 1);
    } else {
      i := n - 1;
    }
  }

  // ----- The Kraft sum length by length -----

  /** The part of the Kraft sum of the first n symbols due to lengths 1 to s. */
  function ByLength(l: seq<nat>, s: nat, n: nat): nat
    requires n <= |l| && s <= MAX_LENGTH
    decreases s
  {
    if s == 0 then 0 else ByLength(l, s - 1, n) + Share(l, s, n)
  }

  /** The part due to length s alone. */
  function Share(l: seq<nat>, s: nat, n: nat): nat
    requires n <= |l| && 1 <= s <= MAX_LENGTH
  {
    Shl(Count(l, s, n), MAX_LENGTH - s)
  }

  lemma {:induction false} ByLengthStep(l: seq<nat>, s: nat, n: nat)
    requires 0 < n <= |l| && s <= MAX_LENGTH
    ensures ByLength(l, s, n) ==
      ByLength(l, s, n - 1) + (if 1 <= l[n - 1] <= s then Pow2(MAX_LENGTH - l[n - 1]) else 0)
  {
    if s > 0 {
      ByLengthStep(l, s - 1, n);
      ShlAdd(Count(l, s, n - 1), 1, MAX_LENGTH - s);
      ShlPow2(0, MAX_LENGTH - s);
    }
  }

  lemma {:induction false} ByLengthZero(l: seq<nat>, s: nat)
    requires s <= MAX_LENGTH
    ensures ByLength(l, s, 0) == 0
  {
    if s > 0 {
      ByLengthZero(l, s - 1);
      ShlAdd(0, 0, MAX_LENGTH - s);
    }
  }

  lemma {:induction false} KraftByLength(l: seq<nat>, n: nat)
    requires n <= |l| && IsLengths(l)
    ensures Kraft(l, n) == ByLength(l, MAX_LENGTH, n)
  {
    if n == 0 {
      ByLengthZero(l, MAX_LENGTH);
    } else {
      KraftByLength(l, n - 1);
      ByLengthStep(l, MAX_LENGTH, n);
    }
  }

  lemma {:induction false} EndIsPartialSum(l: seq<nat>, s: nat)
    requires 1 <= s <= MAX_LENGTH
    ensures Shl(End(l, s), MAX_LENGTH - s) == ByLength(l, s, |l|)
  {
    ShlAdd(First(l, s), Total(l, s), MAX_LENGTH - s);
    if s == 1 {
      assert ByLength(l, 0, |l|) == 0;
      ShlAdd(0, 0, MAX_LENGTH - 1);
    } else {
      EndIsPartialSum(l, s - 1);
      ShlDouble(End(l, s - 1), MAX_LENGTH - s);
    }
  }

  lemma {:induction false} ByLengthMono(l: seq<nat>, s: nat, t: nat)
    requires s <= t <= MAX_LENGTH
    ensures ByLength(l, s, |l|) <= ByLength(l, t, |l|)
  {
    if s < t {
      ByLengthMono(l, s, t - 1);
    }
  }

  /** In a code, the codes of length s fit in s bits. */
  lemma EndFits(l: seq<nat>, s: nat)
    requires IsCode(l) && 1 <= s <= MAX_LENGTH
    ensures End(l, s) <= Pow2(s)
  {
    KraftByLength(l, |l|);
    ByLengthMono(l, s, MAX_LENGTH);
    EndIsPartialSum(l, s);
    ShlPow2(s, MAX_LENGTH - s);
    ShlMono(Pow2(s), End(l, s), MAX_LENGTH - s);
  }

  /** Once a length overflows its bits, the lengths are no code. */
  lemma Overflow(l: seq<nat>, s: nat)
    requires IsLengths(l) && 1 <= s <= MAX_LENGTH && End(l, s) > Pow2(s)
    ensures !IsCode(l)
  {
    if IsCode(l) {
      EndFits(l, s);
    }
  }

  /** If the longest length fits, the lengths are a code. */
  lemma LastFits(l: seq<nat>)
    requires IsLengths(l) && First(l, MAX_LENGTH + 1) <= Pow2(MAX_LENGTH + 1)
    ensures IsCode(l)
  {
    KraftByLength(l, |l|);
    EndIsPartialSum(l, MAX_LENGTH);
  }

  // ----- Prefix freedom -----

  /** The code of symbol i is a prefix of the w-bit word k, read from its top bit. */
  predicate KeyMatches(l: seq<nat>, i: nat, k: nat, w: nat) {
    i < |l| && 1 <= l[i] <= w && Shr(k, w - l[i]) == Code(l, i)
  }

  /** Scaled to w bits, the codes of length s all lie below those of length t. */
  lemma {:induction false} EndBelowFirst(l: seq<nat>, s: nat, t: nat, w: nat)
    requires 1 <= s < t <= w
    ensures Shl(End(l, s), w - s) <= Shl(First(l, t), w - t)
    decreases t
  {
    ShlDouble(End(l, t - 1), w - t);
    if s < t - 1 {
      EndBelowFirst(l, s, t - 1, w);
      ShlMono(First(l, t - 1), End(l, t - 1), w - (t - 1));
    }
  }

  lemma ShorterBelow(l: seq<nat>, i: nat, j: nat, k: nat, w: nat)
    requires KeyMatches(l, i, k, w) && KeyMatches(l, j, k, w)
    ensures l[i] >= l[j]
  {
    var s, t := l[i], l[j];
    if s < t {
      ShrBounds(k, w - s);
      ShrBounds(k, w - t);
      CountBelowTotal(l, i);
      ShlMono(Code(l, i) + 1, End(l, s), w - s);
      EndBelowFirst(l, s, t, w);
      ShlMono(First(l, t), Code(l, j), w - t);
    }
  }

  /** No code is a prefix of another: at most one symbol matches a word. */
  lemma PrefixFree(l: seq<nat>, i: nat, j: nat, k: nat, w: nat)
    requires KeyMatches(l, i, k, w) && KeyMatches(l, j, k, w)
    ensures i == j
  {
    ShorterBelow(l, i, j, k, w);
    ShorterBelow(l, j, i, k, w);
    CountInjective(l, i, j);
  }

  // ----- Symbols in a stream -----

  /** The stream spells the code of symbol i at p, most significant bit first. */
  predicate Matches(l: seq<nat>, i: nat, data: seq<byte>, p: nat) {
    i < |l| && l[i] >= 1 && Msb(data, p, l[i]) == Code(l, i)
  }

  lemma MatchesKey(l: seq<nat>, i: nat, data: seq<byte>, p: nat, w: nat)
    requires i < |l| && l[i] <= w
    ensures Matches(l, i, data, p) <==> KeyMatches(l, i, Msb(data, p, w), w)
  {
    MsbPrefix(data, p, l[i], w - l[i]);
  }

  lemma MatchesUnique(l: seq<nat>, i: nat, j: nat, data: seq<byte>, p: nat)
    requires Matches(l, i, data, p) && Matches(l, j, data, p)
    ensures i == j
  {
    var w := if l[i] > l[j] then l[i] else l[j];
    MatchesKey(l, i, data, p, w);
    MatchesKey(l, j, data, p, w);
    PrefixFree(l, i, j, Msb(data, p, w), w);
  }

  /** The symbol below n whose code the stream spells at p, if there is one. */
  function SymbolBelow(l: seq<nat>, data: seq<byte>, p: nat, n: nat): Option<nat>
    requires n <= |l|
  {
    if n == 0 then None
    else if Matches(l, n - 1, data, p) then Some(n - 1)
    else SymbolBelow(l, data, p, n - 1)
  }

  function SymbolAt(l: seq<nat>, data: seq<byte>, p: nat): Option<nat> {
    SymbolBelow(l, data, p, |l|)
  }

  lemma {:induction false} SymbolBelowFound(l: seq<nat>, data: seq<byte>, p: nat, n: nat)
    requires n <= |l|
    ensures var r := SymbolBelow(l, data, p, n);
      if r.Some? then r.value < n && Matches(l, r.value, data, p)
      else forall i :: 0 <= i < n ==> !Matches(l, i, data, p)
  {
    if n > 0 {
      SymbolBelowFound(l, data, p, n - 1);
    }
  }

  lemma SymbolFound(l: seq<nat>, data: seq<byte>, p: nat)
    ensures SymbolAt(l, data, p).Some? ==> Matches(l, SymbolAt(l, data, p).value, data, p)
  {
    SymbolBelowFound(l, data, p, |l|);
  }

  lemma NoSymbol(l: seq<nat>, data: seq<byte>, p: nat)
    requires forall i :: 0 <= i < |l| ==> !Matches(l, i, data, p)
    ensures SymbolAt(l, data, p) == None
  {
    SymbolBelowFound(l, data, p, |l|);
  }

  /** Symbol i is found at p just when the stream spells its code there. */
  lemma SymbolIs(l: seq<nat>, i: nat, data: seq<byte>, p: nat)
    ensures SymbolAt(l, data, p) == Some(i) <==> Matches(l, i, data, p)
  {
    SymbolBelowFound(l, data, p, |l|);
    if Matches(l, i, data, p) {
      MatchesUnique(l, i, SymbolAt(l, data, p).value, data, p);
    }
  }

  // ----- The code as an encoder and as a decoder -----

  /** For every symbol its code word, if it has one. */
  type Codes = nat -> Option<seq<nat>>

  /** For every place in a stream, the symbol found there and the place after it. */
  type Reader = nat -> Option<(nat, nat)>

  predicate HasCode(l: seq<nat>, i: nat) {
    i < |l| && l[i] >= 1
  }

  /** The code word of symbol i, most significant bit first. */
  function CodeWord(l: seq<nat>, i: nat): seq<nat>
    requires HasCode(l, i)
  {
    MsbBits(Code(l, i), l[i])
  }

  function CodesOf(l: seq<nat>): Codes {
    i => if HasCode(l, i) then Some(CodeWord(l, i)) else None
  }

  function SymbolAndEnd(l: seq<nat>, data: seq<byte>, p: nat): Option<(nat, nat)> {
    SymbolFound(l, data, p);
    match SymbolAt(l, data, p)
    case None => None
    case Some(z) => Some((z, p + l[z]))
  }

  lemma SymbolEnd(l: seq<nat>, data: seq<byte>, p: nat)
    ensures SymbolAndEnd(l, data, p).Some? ==>
      var (z, end) := SymbolAndEnd(l, data, p).value;
      HasCode(l, z) && end == p + l[z] && Matches(l, z, data, p)
  {
    SymbolFound(l, data, p);
  }

  function ReaderOf(l: seq<nat>, data: seq<byte>): Reader {
    p => SymbolAndEnd(l, data, p)
  }

  /** The reader finds symbol i at p just when the stream spells its code word there. */
  ghost predicate ReadsSymbol(codes: Codes, read: Reader, data: seq<byte>, i: nat, p: nat) {
    codes(i).Some? ==> (Spells(data, p, codes(i).value) <==> read(p) == Some((i, p + |codes(i).value|)))
  }

  ghost predicate ReadsOnlySymbols(codes: Codes, read: Reader, p: nat) {
    read(p).Some? ==> codes(read(p).value.0).Some? && read(p).value.1 == p + |codes(read(p).value.0).value|
  }

  /** In this stream the reader finds exactly the symbols whose code words are there. */
  ghost predicate ReadsBack(codes: Codes, read: Reader, data: seq<byte>) {
    && (forall i, p: nat :: ReadsSymbol(codes, read, data, i, p))
    && (forall p: nat :: ReadsOnlySymbols(codes, read, p))
  }

  lemma CodeWordSpelled(l: seq<nat>, i: nat, data: seq<byte>, p: nat)
    requires IsCode(l) && HasCode(l, i)
    ensures Spells(data, p, CodeWord(l, i)) <==> Matches(l, i, data, p)
  {
    CountBelowTotal(l, i);
    EndFits(l, l[i]);
    SpellsMsb(data, p, Code(l, i), l[i]);
  }

  /** Decoding inverts encoding, symbol by symbol. */
  lemma CodeReadsBack(l: seq<nat>, data: seq<byte>)
    requires IsCode(l)
    ensures ReadsBack(CodesOf(l), ReaderOf(l, data), data)
  {
    var codes, read := CodesOf(l), ReaderOf(l, data);
    forall i, p: nat ensures ReadsSymbol(codes, read, data, i, p) {
      if codes(i).Some? {
        CodeWordSpelled(l, i, data, p);
        SymbolIs(l, i, data, p);
      }
    }
    forall p: nat ensures ReadsOnlySymbols(codes, read, p) {
      SymbolFound(l, data, p);
    }
  }

  // ----- The two rules of a canonical code -----

  /** Symbols with codes of the same length have consecutive codes in their order. */
  lemma CodesConsecutive(l: seq<nat>, i: nat, j: nat)
    requires i < j < |l| && l[i] == l[j] >= 1 && forall k :: i < k < j ==> l[k] != l[i]
    ensures Code(l, j) == Code(l, i) + 1
  {
    NoneBetween(l, l[i], i + 1, j);
  }

  lemma {:induction false} NoneBetween(l: seq<nat>, s: nat, i: nat, j: nat)
    requires i <= j <= |l| && forall k :: i <= k < j ==> l[k] != s
    ensures Count(l, s, j) == Count(l, s, i)
    decreases j
  {
    if i < j {
      NoneBetween(l, s, i, j - 1);
    }
  }

  /** The first code of a length comes right after all that are shorter: the code word before it,
      filled up with ones. */
  lemma FirstFollows(l: seq<nat>, s: nat)
    requires s >= 2
    ensures First(l, s) == 2 * End(l, s - 1) && First(l, 1) == 0
    ensures End(l, s) == First(l, s) + Total(l, s)
  {
  }

  /** The example of section 3.2.2 of RFC 1951. */
  lemma Example()
    ensures var l := [3, 3, 3, 3, 3, 2, 4, 4];
      && IsCode(l) && Code(l, 0) == 2 && Code(l, 1) == 3 && Code(l, 2) == 4 && Code(l, 3) == 5 && Code(l, 4) == 6
      && Code(l, 5) == 0 && Code(l, 6) == 14 && Code(l, 7) == 15
  {
    var l := [3, 3, 3, 3, 3, 2, 4, 4];
    ExampleCount(1, 8);
    ExampleCount(2, 8);
    ExampleCount(3, 8);
    assert First(l, 2) == 0 && First(l, 3) == 2 && First(l, 4) == 14;
    ExampleCount(3, 1);
    ExampleCount(3, 2);
    ExampleCount(3, 3);
    ExampleCount(3, 4);
    ExampleCount(4, 6);
    ExampleCount(4, 7);
    ExampleCount(2, 5);
    ExampleKraft(8);
  }

  lemma {:induction false} ExampleCount(s: nat, n: nat)
    requires 1 <= s <= 4 && n <= 8
    ensures Count([3, 3, 3, 3, 3, 2, 4, 4], s, n) ==
      if s == 3 then (if n <= 5 then n else 5) else if s == 2 then (if n > 5 then 1 else 0)
      else if s == 4 then (if n > 6 then n - 6 else 0) else 0
  {
    if n > 0 {
      ExampleCount(s, n - 1);
    }
  }

  lemma {:induction false} ExampleKraft(n: nat)
    requires n <= 8
    ensures IsLengths([3, 3, 3, 3, 3, 2, 4, 4])
    ensures Kraft([3, 3, 3, 3, 3, 2, 4, 4], n) ==
      if n <= 5 then 4096 * n else if n == 6 then 28672 else 28672 + 2048 * (n - 6)
  {
    if n > 0 {
      ExampleKraft(n - 1);
      assert Pow2(12) == 4096 && Pow2(13) == 8192 && Pow2(11) == 2048 && Pow2(15) == 32768 by {
        Pow2Values();
      }
    }
  }
}
