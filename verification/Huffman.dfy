/** The decoding tables of one Huffman code: a table on the next nine bits, and for longer
    codes the ranges of codes of each length. */
module Huffman {
  import opened Bits
  import opened BitReverse
  import opened CanonicalCode

  const FAST_BITS: nat := 9
  const NSYMS: nat := 288

  /** How many symbols have a code shorter than s. */
  function FirstSymbol(l: seq<nat>, s: nat): nat
    requires s >= 1
    decreases s
  {
    if s == 1 then 0 else FirstSymbol(l, s - 1) + Total(l, s - 1)
  }

  /** The place of symbol i when the symbols are ordered by their codes. */
  function Slot(l: seq<nat>, i: nat): nat
    requires i < |l| && l[i] >= 1
  {
    FirstSymbol(l, l[i]) + Count(l, l[i], i)
  }

  /** Symbol i has a short code, which the nine bits j begin with. */
  predicate FastMatch(l: seq<nat>, i: nat, j: nat) {
    i < |l| && 1 <= l[i] <= FAST_BITS && Rev(j, l[i]) == Code(l, i)
  }

  /** The end of the codes of length s, moved up to sixteen bits. */
  function MaxCode(l: seq<nat>, s: nat): nat
    requires 1 <= s <= 16
  {
    Shl(End(l, s), 16 - s)
  }

  function FastEntry(l: seq<nat>, i: nat): (r: nat)
    requires i < |l| <= NSYMS
    ensures r % 512 == i && r / 512 == l[i]
  {
    512 * l[i] + i
  }

  // ----- The order of the symbols -----

  lemma {:induction false} FirstSymbolMono(l: seq<nat>, s: nat, t: nat)
    requires 1 <= s < t
    ensures FirstSymbol(l, s) + Total(l, s) <= FirstSymbol(l, t)
  {
    if s < t - 1 {
      FirstSymbolMono(l, s, t - 1);
    }
  }

  lemma SlotInjective(l: seq<nat>, i: nat, j: nat)
    requires i < |l| && j < |l| && l[i] >= 1 && l[j] >= 1
    requires Slot(l, i) == Slot(l, j)
    ensures i == j
  {
    CountBelowTotal(l, i);
    CountBelowTotal(l, j);
    if l[i] < l[j] {
      FirstSymbolMono(l, l[i], l[j]);
    } else if l[j] < l[i] {
      FirstSymbolMono(l, l[j], l[i]);
    } else {
      CountInjective(l, i, j);
    }
  }

  /** How many of the first n symbols have a code shorter than s. */
  function Shorter(l: seq<nat>, s: nat, n: nat): (r: nat)
    requires s >= 1 && n <= |l|
    ensures s == 1 ==> r == 0
    decreases s
  {
    if s == 1 then 0 else Shorter(l, s - 1, n) + Count(l, s - 1, n)
  }

  lemma {:induction false} ShorterStep(l: seq<nat>, s: nat, n: nat)
    requires s >= 1 && 0 < n <= |l|
    ensures Shorter(l, s, n) == Shorter(l, s, n - 1) + (if 1 <= l[n - 1] < s then 1 else 0)
  {
    if s > 1 {
      ShorterStep(l, s - 1, n);
    }
  }

  lemma {:induction false} ShorterBound(l: seq<nat>, s: nat, n: nat)
    requires s >= 1 && n <= |l|
    ensures Shorter(l, s, n) <= n
    decreases n, s
  {
    if n > 0 {
      ShorterStep(l, s, n);
      ShorterBound(l, s, n - 1);
    } else if s > 1 {
      ShorterBound(l, s - 1, n);
    }
  }

  lemma {:induction false} FirstSymbolIsShorter(l: seq<nat>, s: nat)
    requires s >= 1
    ensures FirstSymbol(l, s) == Shorter(l, s, |l|) <= |l|
  {
    ShorterBound(l, s, |l|);
    if s > 1 {
      FirstSymbolIsShorter(l, s - 1);
    }
  }

  lemma SlotBound(l: seq<nat>, i: nat)
    requires i < |l| && l[i] >= 1
    ensures Slot(l, i) < |l|
  {
    CountBelowTotal(l, i);
    FirstSymbolMono(l, l[i], l[i] + 1);
    FirstSymbolIsShorter(l, l[i] + 1);
  }

  // ----- The table on nine bits -----

  lemma FastUnique(l: seq<nat>, i: nat, k: nat, j: nat)
    requires FastMatch(l, i, j) && FastMatch(l, k, j)
    ensures i == k
  {
    RevTop(j, l[i], FAST_BITS - l[i]);
    RevTop(j, l[k], FAST_BITS - l[k]);
    PrefixFree(l, i, k, Rev(j, FAST_BITS), FAST_BITS);
  }

  lemma RangeStep(l: seq<nat>, s: nat)
    requires s >= 1
    ensures First(l, s + 1) == 2 * End(l, s) && FirstSymbol(l, s + 1) == FirstSymbol(l, s) + Total(l, s)
    ensures Pow2(s + 1) == 2 * Pow2(s)
  {
  }

  lemma TooMany(l: seq<nat>, s: nat)
    requires IsLengths(l) && 1 <= s <= MAX_LENGTH && Total(l, s) > Pow2(s)
    ensures !IsCode(l)
  {
    Overflow(l, s);
  }

  lemma NoneCounted(l: seq<nat>, s: nat)
    ensures Count(l, s, 0) == 0
  {
  }

  /** Counting one more symbol. */
  lemma CountNext(l: seq<nat>, i: nat)
    requires i < |l|
    ensures forall s :: 0 <= s < 16 ==> Count(l, s, i + 1) == Count(l, s, i) + if l[i] == s then 1 else 0
  {
  }

  lemma CodeBounds(l: seq<nat>, s: nat)
    requires 1 <= s <= MAX_LENGTH && |l| <= NSYMS && First(l, s) <= Pow2(s)
    ensures First(l, s) < 0x1_0000 && FirstSymbol(l, s) < 0x1_0000
  {
    Pow2Values();
    Pow2Mono(s, MAX_LENGTH);
    FirstSymbolIsShorter(l, s);
  }

  /** The words that begin with the code of i are those whose low bits are its reversal. */
  lemma MatchesOfCode(l: seq<nat>, i: nat)
    requires IsCode(l) && i < |l| && 1 <= l[i] <= FAST_BITS
    ensures forall k: nat :: FastMatch(l, i, k) <==> Low(k, l[i]) == Rev(Code(l, i), l[i])
  {
    CountBelowTotal(l, i);
    EndFits(l, l[i]);
    forall k: nat ensures FastMatch(l, i, k) <==> Low(k, l[i]) == Rev(Code(l, i), l[i]) {
      RevIffLow(k, Code(l, i), l[i]);
    }
  }

  lemma OthersElsewhere(l: seq<nat>, i: nat)
    requires i < |l|
    ensures forall k, j: nat :: 0 <= k < i && FastMatch(l, k, j) ==> !FastMatch(l, i, j)
  {
    forall k, j: nat | 0 <= k < i && FastMatch(l, k, j) ensures !FastMatch(l, i, j) {
      if FastMatch(l, i, j) {
        FastUnique(l, k, i, j);
      }
    }
  }

  /** Stepping by 2^s visits all words that agree with j on the low s bits. */
  lemma GapAfter(j: nat, s: nat)
    ensures Low(j + Pow2(s), s) == Low(j, s)
    ensures forall k: nat :: j < k < j + Pow2(s) ==> Low(k, s) != Low(j, s)
    ensures j < Pow2(s) ==> Low(j, s) == j && forall k: nat :: k < j ==> Low(k, s) != j
  {
    LowPeriod(j, s);
    forall k: nat | j < k < j + Pow2(s) ensures Low(k, s) != Low(j, s) {
      LowDistinct(j, k, s);
    }
    if j < Pow2(s) {
      LowSmall(j, s);
      forall k: nat | k < j ensures Low(k, s) != j {
        LowSmall(k, s);
      }
    }
  }

  /** For lengths below n, the code that the next symbol of that length gets after the
      first i symbols. */
  ghost predicate NextCodes(nextCode: array<nat>, l: seq<nat>, i: nat, n: nat)
    requires nextCode.Length == 16 && i <= |l| && n <= 16
    reads nextCode
  {
    forall s :: 1 <= s < n ==> nextCode[s] == First(l, s) + Count(l, s, i)
  }

  class ZHuffman {
    const fast: array<uint16>
    const firstcode: array<uint16>
    const maxcode: array<int>
    const firstsymbol: array<uint16>
    const size: array<byte>
    const value: array<uint16>

    ghost function Repr(): set<object> {
      {fast as object, firstcode, maxcode, firstsymbol, size, value}
    }

    ghost predicate Valid() {
      && fast.Length == 512 && firstcode.Length == 16 && maxcode.Length == 17
      && firstsymbol.Length == 16 && size.Length == NSYMS && value.Length == NSYMS
      && fast != firstcode && fast != firstsymbol && fast != value
      && firstcode != firstsymbol && firstcode != value && firstsymbol != value
      && size as object != fast && size as object != firstcode && size as object != maxcode
      && size as object != firstsymbol && size as object != value
      && maxcode as object != fast && maxcode as object != firstcode
      && maxcode as object != firstsymbol && maxcode as object != value
    }

    constructor ()
      ensures Valid() && fresh(Repr())
    {
      fast := new uint16[512];
      firstcode := new uint16[16];
      maxcode := new int[17];
      firstsymbol := new uint16[16];
      size := new byte[NSYMS];
      value := new uint16[NSYMS];
    }

    /** The first code and the first symbol of every length below n. */
    ghost predicate FirstsBuilt(l: seq<nat>, n: nat)
      requires Valid() && n <= 16
      reads firstcode, firstsymbol
    {
      && (forall s :: 1 <= s < n ==> firstcode[s] == First(l, s))
      && (forall s :: 1 <= s < n ==> firstsymbol[s] == FirstSymbol(l, s))
    }

    ghost predicate EndsBuilt(l: seq<nat>, n: nat)
      requires Valid() && n <= 16
      reads maxcode
    {
      forall s :: 1 <= s < n ==> maxcode[s] == MaxCode(l, s)
    }

    ghost predicate SymbolsBuilt(l: seq<nat>, n: nat)
      requires Valid() && n <= |l| <= NSYMS
      reads size, value
    {
      forall i :: 0 <= i < n && l[i] >= 1 ==>
        Slot(l, i) < NSYMS && size[Slot(l, i)] == l[i] && value[Slot(l, i)] == i
    }

    /** An entry of the table on nine bits is nonzero just when one of the first n symbols
        has a short code that the nine bits begin with, and then it names that symbol. */
    ghost predicate FastBuilt(l: seq<nat>, n: nat)
      requires Valid() && n <= |l| <= NSYMS
      reads fast
    {
      && (forall i, j {:trigger FastMatch(l, i, j)} :: 0 <= i < n && 0 <= j < 512 && FastMatch(l, i, j) ==>
            fast[j] == FastEntry(l, i))
      && (forall j {:trigger fast[j]} :: 0 <= j < 512 && fast[j] != 0 ==>
            fast[j] % 512 < n && FastMatch(l, fast[j] % 512, j))
    }

    /** The tables are those of the code with these lengths. */
    ghost predicate Built(l: seq<nat>)
      reads Repr()
    {
      && Valid() && |l| <= NSYMS && IsCode(l)
      && FirstsBuilt(l, 16) && EndsBuilt(l, 16) && maxcode[16] == 0x1_0000
      && SymbolsBuilt(l, |l|) && FastBuilt(l, |l|)
    }

    lemma BuiltSize(l: seq<nat>)
      requires Built(l)
      ensures |l| <= NSYMS
    {
    }

    method Build(l: seq<nat>) returns (ok: bool)
      requires Valid() && IsLengths(l) && |l| <= NSYMS
      modifies Repr()
      ensures ok <==> IsCode(l)
      ensures ok ==> Built(l)
    {
      hide IsLengths, IsCode, Total, FirstsBuilt, SymbolsBuilt, FastBuilt;
      var sizes := CountSizes(l);
      for j := 0 to 512
        modifies fast
        invariant forall k :: 0 <= k < j ==> fast[k] == 0
      {
        fast[j] := 0;
      }
      for s := 1 to 16 {
        if sizes[s] > Pow2(s) {
          TooMany(l, s);
          return false;
        }
      }
      var nextCode;
      ok, nextCode := AssignRanges(l, sizes);
      if ok {
        maxcode[16] := 0x1_0000;
        FillTables(l, nextCode);
      }
    }

    method CountSizes(l: seq<nat>) returns (sizes: array<nat>)
      requires IsLengths(l)
      ensures fresh(sizes) && sizes.Length == 17
      ensures forall s :: 1 <= s < 16 ==> sizes[s] == Total(l, s)
    {
      sizes := new nat[17](_ => 0);
      for i := 0 to |l|
        invariant forall s :: 0 <= s < 16 ==> sizes[s] == Count(l, s, i)
      {
        sizes[l[i]] := sizes[l[i]] + 1;
      }
      sizes[0] := 0;
    }

    method AssignRanges(l: seq<nat>, sizes: array<nat>) returns (ok: bool, nextCode: array<nat>)
      requires Valid() && IsLengths(l) && |l| <= NSYMS
      requires sizes.Length == 17 && (sizes as object) !in Repr()
      requires forall s :: 1 <= s < 16 ==> sizes[s] == Total(l, s)
      modifies firstcode, firstsymbol, maxcode
      ensures fresh(nextCode) && nextCode.Length == 16
      ensures ok <==> IsCode(l)
      ensures ok ==> FirstsBuilt(l, 16) && EndsBuilt(l, 16) && NextCodes(nextCode, l, 0, 16)
    {
      hide IsLengths, IsCode, Pow2;
      nextCode := new nat[16];
      var code, k := 0, 0;
      for s := 1 to 16
        modifies firstcode, firstsymbol, maxcode, nextCode
        invariant code == First(l, s) <= Pow2(s) && k == FirstSymbol(l, s)
        invariant FirstsBuilt(l, s) && EndsBuilt(l, s) && NextCodes(nextCode, l, 0, s)
      {
        StoreFirst(l, s, code, k, nextCode);
        code := code + sizes[s];
        if sizes[s] != 0 && code - 1 >= Pow2(s) {
          Overflow(l, s);
          return false, nextCode;
        }
        StoreEnd(l, s, code);
        RangeStep(l, s);
        code := 2 * code;
        k := k + sizes[s];
      }
      LastFits(l);
      return true, nextCode;
    }

    method StoreFirst(l: seq<nat>, s: nat, code: nat, k: nat, nextCode: array<nat>)
      requires Valid() && 1 <= s <= MAX_LENGTH && |l| <= NSYMS && FirstsBuilt(l, s)
      requires code == First(l, s) <= Pow2(s) && k == FirstSymbol(l, s)
      requires nextCode.Length == 16 && (nextCode as object) !in Repr() && NextCodes(nextCode, l, 0, s)
      modifies firstcode, firstsymbol, nextCode
      ensures FirstsBuilt(l, s + 1) && NextCodes(nextCode, l, 0, s + 1)
    {
      hide Pow2, First, FirstSymbol;
      CodeBounds(l, s);
      NoneCounted(l, s);
      nextCode[s] := code;
      firstcode[s] := code;
      firstsymbol[s] := k;
    }

    method StoreEnd(l: seq<nat>, s: nat, code: nat)
      requires Valid() && 1 <= s <= MAX_LENGTH && EndsBuilt(l, s)
      requires code == End(l, s)
      modifies maxcode
      ensures EndsBuilt(l, s + 1)
    {
      maxcode[s] := Shl(code, 16 - s);
    }

    method FillTables(l: seq<nat>, nextCode: array<nat>)
      requires Valid() && IsCode(l) && |l| <= NSYMS
      requires nextCode.Length == 16 && (nextCode as object) !in Repr()
      requires FirstsBuilt(l, 16)
      requires forall j :: 0 <= j < 512 ==> fast[j] == 0
      requires NextCodes(nextCode, l, 0, 16)
      modifies fast, size, value, nextCode
      ensures SymbolsBuilt(l, |l|) && FastBuilt(l, |l|)
    {
      hide SymbolsBuilt, FastBuilt;
      NothingBuilt(l);
      for i := 0 to |l|
        invariant NextCodes(nextCode, l, i, 16)
        invariant SymbolsBuilt(l, i)
        invariant FastBuilt(l, i)
      {
        FillSymbol(l, i, nextCode);
      }
    }

    /** The table entries of one symbol. */
    method FillSymbol(l: seq<nat>, i: nat, nextCode: array<nat>)
      requires Valid() && IsCode(l) && i < |l| <= NSYMS && FirstsBuilt(l, 16)
      requires nextCode.Length == 16 && (nextCode as object) !in Repr() && NextCodes(nextCode, l, i, 16)
      requires SymbolsBuilt(l, i) && FastBuilt(l, i)
      modifies fast, size, value, nextCode
      ensures NextCodes(nextCode, l, i + 1, 16) && SymbolsBuilt(l, i + 1) && FastBuilt(l, i + 1)
    {
      hide SymbolsBuilt, FastBuilt, First, FirstSymbol, Count;
      CountNext(l, i);
      var s := l[i];
      if s != 0 {
        var c := nextCode[s] - firstcode[s] + firstsymbol[s];
        StoreSymbol(l, i, c);
        if s <= FAST_BITS {
          FillFast(l, i, nextCode[s]);
        } else {
          SkipFast(l, i);
        }
        nextCode[s] := nextCode[s] + 1;
      } else {
        SkipFast(l, i);
        SkipSymbol(l, i);
      }
    }

    lemma SkipSymbol(l: seq<nat>, i: nat)
      requires Valid() && i < |l| <= NSYMS && SymbolsBuilt(l, i) && l[i] == 0
      ensures SymbolsBuilt(l, i + 1)
    {
    }

    lemma NothingBuilt(l: seq<nat>)
      requires Valid() && |l| <= NSYMS && forall j :: 0 <= j < 512 ==> fast[j] == 0
      ensures SymbolsBuilt(l, 0) && FastBuilt(l, 0)
    {
    }

    lemma SkipFast(l: seq<nat>, i: nat)
      requires Valid() && i < |l| <= NSYMS && FastBuilt(l, i)
      requires !(1 <= l[i] <= FAST_BITS)
      ensures FastBuilt(l, i + 1)
    {
    }

    method StoreSymbol(l: seq<nat>, i: nat, c: nat)
      requires Valid() && IsCode(l) && i < |l| <= NSYMS && l[i] >= 1 && c == Slot(l, i)
      requires SymbolsBuilt(l, i)
      modifies size, value
      ensures SymbolsBuilt(l, i + 1)
    {
      SlotBound(l, i);
      forall k | 0 <= k < i && l[k] >= 1
        ensures Slot(l, k) != c
      {
        if Slot(l, k) == c {
          SlotInjective(l, k, i);
        }
      }
      size[c] := l[i];
      value[c] := i;
    }

    method FillFast(l: seq<nat>, i: nat, code: nat)
      requires Valid() && IsCode(l) && i < |l| <= NSYMS
      requires 1 <= l[i] <= FAST_BITS && code == Code(l, i)
      requires FastBuilt(l, i)
      modifies fast
      ensures FastBuilt(l, i + 1)
    {
      MarkFast(l, i, code);
      OthersElsewhere(l, i);
      forall k | 0 <= k < 512 && fast[k] != 0
        ensures fast[k] % 512 < i + 1 && FastMatch(l, fast[k] % 512, k)
      {
        if FastMatch(l, i, k) {
          assert fast[k] % 512 == i;
        }
      }
    }

    method MarkFast(l: seq<nat>, i: nat, code: nat)
      requires Valid() && IsCode(l) && i < |l| <= NSYMS
      requires 1 <= l[i] <= FAST_BITS && code == Code(l, i)
      modifies fast
      ensures forall k :: 0 <= k < 512 ==>
        fast[k] == if FastMatch(l, i, k) then FastEntry(l, i) else old(fast[k])
    {
      hide Low, Rev, Code, FastMatch, IsCode, Pow2;
      var s := l[i];
      ReverseBitsIsRev(code, s);
      MatchesOfCode(l, i);
      var j := ReverseBits(code, s);
      GapAfter(j, s);
      while j < 512
        invariant Low(j, s) == Rev(code, s)
        invariant forall k :: 0 <= k < 512 ==>
          fast[k] == if k < j && FastMatch(l, i, k) then FastEntry(l, i) else old(fast[k])
      {
        fast[j] := FastEntry(l, i);
        GapAfter(j, s);
        j := j + Pow2(s);
      }
    }
  }
}
