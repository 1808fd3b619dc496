/** A set of numbers below a multiple of 64, kept as words of 64 bits. */
module BitArrays {
  import opened Runs
  import opened Words

  /** Which numbers the words stand for. */
  ghost function MembersOf(data: seq<Word>): set<nat> {
    set i: nat | i < 64 * |data| && Test(data[i / 64], i % 64)
  }

  predicate From(start: nat, i: nat) {
    start <= i
  }

  /** The numbers from start to below end. */
  ghost function Span(start: nat, end: nat): set<nat> {
    set i: nat | i < end && From(start, i)
  }

  lemma MemberAt(data: seq<Word>, w: nat, b: nat)
    requires w < |data| && b < 64
    ensures 64 * w + b in MembersOf(data) <==> Test(data[w], b)
  {
    hide Test;
    assert (64 * w + b) / 64 == w && (64 * w + b) % 64 == b;
  }

  /** The number i is bit i % 64 of word i / 64. */
  lemma Place(data: seq<Word>, i: nat)
    requires i < 64 * |data|
    ensures i / 64 < |data| && i == 64 * (i / 64) + i % 64
    ensures i in MembersOf(data) <==> Test(data[i / 64], i % 64)
  {
    hide Test;
  }

  /** Consecutive bits of a word are consecutive numbers. */
  lemma Stretch(data: seq<Word>, w: nat, lo: nat, hi: nat, bit: bool)
    requires w < |data| && hi <= 64 && forall b :: lo <= b < hi ==> Test(data[w], b) == bit
    ensures forall i :: 64 * w + lo <= i < 64 * w + hi ==> ((i in MembersOf(data)) <==> bit)
  {
    hide MembersOf, Test;
    forall i | 64 * w + lo <= i < 64 * w + hi ensures (i in MembersOf(data)) <==> bit {
      MemberAt(data, w, i - 64 * w);
      assert Test(data[w], i - 64 * w) == bit;
    }
  }

  /** One condition on all bits is one on all numbers. */
  lemma SameMembers(data: seq<Word>, s: set<nat>)
    requires forall w, b :: 0 <= w < |data| && 0 <= b < 64 ==> (Test(data[w], b) <==> 64 * w + b in s)
    requires forall i :: i in s ==> i < 64 * |data|
    ensures MembersOf(data) == s
  {
    hide Test;
    forall i: nat | i < 64 * |data| ensures i in MembersOf(data) <==> i in s {
      Place(data, i);
      assert Test(data[i / 64], i % 64) <==> 64 * (i / 64) + i % 64 in s;
    }
  }

  lemma Below(data: seq<Word>)
    ensures forall i :: i in MembersOf(data) ==> i < 64 * |data|
  {
  }

  /** A change that does the same to every bit does it to every number. */
  lemma Changed(data: seq<Word>, was: seq<Word>, start: nat, end: nat, op: (bool, bool) -> bool, s: set<nat>)
    requires |data| == |was|
    requires forall w, b :: 0 <= w < |data| && 0 <= b < 64 ==>
      Test(data[w], b) == op(Test(was[w], b), start <= 64 * w + b < end)
    requires forall i :: i in s <==> 0 <= i < 64 * |data| && op(i in MembersOf(was), start <= i < end)
    ensures MembersOf(data) == s
  {
    hide Test, MembersOf;
    forall w, b | 0 <= w < |data| && 0 <= b < 64 ensures Test(data[w], b) <==> 64 * w + b in s {
      MemberAt(was, w, b);
    }
    SameMembers(data, s);
  }

  class BitArray {
    const words: array<Word>

    ghost predicate Valid() {
      words.Length > 0
    }

    function Size(): nat {
      64 * words.Length
    }

    ghost function Members(): set<nat>
      reads words
    {
      MembersOf(words[..])
    }

    constructor (count: nat)
      requires count > 0
      ensures Valid() && fresh(words) && words.Length == count && Members() == {}
    {
      words := new Word[count](_ => 0);
      new;
      IsZero(0);
      SameMembers(words[..], {});
    }

    /** The members of another array from start to below end; none if that is not a range of it. */
    constructor FromRange(other: BitArray, start: nat, end: nat)
      requires other.Valid()
      ensures Valid() && fresh(words) && words.Length == other.words.Length
      ensures Members() == if start < end <= Size() then other.Members() * Span(start, end) else {}
    {
      words := new Word[other.words.Length](_ => 0);
      new;
      CopyRange(other, start, end);
    }

    method CopyRange(other: BitArray, start: nat, end: nat)
      requires other.Valid() && words.Length == other.words.Length && words != other.words
      requires forall w :: 0 <= w < words.Length ==> words[w] == 0
      modifies words
      ensures Members() == if start < end <= Size() then other.Members() * Span(start, end) else {}
    {
      hide Test, MembersOf;
      IsZero(0);
      if start >= end || end > Size() {
        SameMembers(words[..], {});
        return;
      }
      ghost var from := other.words[..];
      var firstWord, lastWord := start / 64, (end - 1) / 64;
      var startBit, endBit := start % 64, (end - 1) % 64;
      var startMask, endMask := MaskFrom(startBit), MaskThrough(endBit);
      if firstWord == lastWord {
        words[firstWord] := And(And(other.words[firstWord], startMask), endMask);
      } else {
        words[firstWord] := And(other.words[firstWord], startMask);
        var word := firstWord + 1;
        while word < lastWord
          invariant firstWord < word <= lastWord
          invariant forall w :: 0 <= w < words.Length ==>
            words[w] == if w == firstWord then And(from[w], startMask) else if firstWord < w < word then from[w] else 0
        {
          words[word] := other.words[word];
          word := word + 1;
        }
        words[lastWord] := And(other.words[lastWord], endMask);
      }
      assert forall w, b :: 0 <= w < words.Length && 0 <= b < 64 ==>
        (Test(words[..][w], b) <==> Test(from[w], b) && start <= 64 * w + b < end);
      Below(from);
      Changed(words[..], from, start, end, (x, y) => x && y, MembersOf(from) * Span(start, end));
    }

    /** Add the numbers from start to below end; nothing if that is not a range of this array. */
    method SetRange(start: nat, end: nat)
      requires Valid()
      modifies words
      ensures Members() == if start < end <= Size() then old(Members()) + Span(start, end) else old(Members())
    {
      hide Test, MembersOf;
      if start >= end || end > Size() {
        return;
      }
      ghost var was := words[..];
      var firstWord, lastWord := start / 64, (end - 1) / 64;
      var startBit, endBit := start % 64, (end - 1) % 64;
      var startMask, endMask := MaskFrom(startBit), MaskThrough(endBit);
      if firstWord == lastWord {
        words[firstWord] := Or(words[firstWord], And(startMask, endMask));
      } else {
        words[firstWord] := Or(words[firstWord], startMask);
        var word := firstWord + 1;
        while word < lastWord
          invariant firstWord < word <= lastWord
          invariant forall w :: 0 <= w < words.Length ==>
            words[w] == if w == firstWord then Or(was[w], startMask) else if firstWord < w < word then ONES else was[w]
        {
          words[word] := ONES;
          word := word + 1;
        }
        words[lastWord] := Or(words[lastWord], endMask);
      }
      OnesBits(ONES);
      assert forall w, b :: 0 <= w < words.Length && 0 <= b < 64 ==>
        (Test(words[..][w], b) <==> Test(was[w], b) || start <= 64 * w + b < end);
      Below(was);
      Changed(words[..], was, start, end, (x, y) => x || y, MembersOf(was) + Span(start, end));
    }

    /** Remove the numbers from start to below end; nothing if that is not a range of this array. */
    method UnsetRange(start: nat, end: nat)
      requires Valid()
      modifies words
      ensures Members() == if start < end <= Size() then old(Members()) - Span(start, end) else old(Members())
    {
      hide Test, MembersOf;
      if start >= end || end > Size() {
        return;
      }
      ghost var was := words[..];
      var firstWord, lastWord := start / 64, (end - 1) / 64;
      var startBit, endBit := start % 64, (end - 1) % 64;
      var startMask := MaskBelow(startBit);
      var endMask: Word := if endBit == 63 then 0 else Not(MaskBelow(endBit + 1));
      IsZero(0);
      if firstWord == lastWord {
        words[firstWord] := And(words[firstWord], Or(startMask, endMask));
      } else {
        words[firstWord] := And(words[firstWord], startMask);
        var word := firstWord + 1;
        while word < lastWord
          invariant firstWord < word <= lastWord
          invariant forall w :: 0 <= w < words.Length ==>
            words[w] == if w == firstWord then And(was[w], startMask) else if firstWord < w < word then 0 else was[w]
        {
          words[word] := 0;
          word := word + 1;
        }
        words[lastWord] := And(words[lastWord], endMask);
      }
      assert forall w, b :: 0 <= w < words.Length && 0 <= b < 64 ==>
        (Test(words[..][w], b) <==> Test(was[w], b) && !(start <= 64 * w + b < end));
      Below(was);
      Changed(words[..], was, start, end, (x, y) => x && !y, MembersOf(was) - Span(start, end));
    }

    method None() returns (none: bool)
      requires Valid()
      ensures none <==> Members() == {}
    {
      hide Test, MembersOf;
      var combined: Word := 0;
      IsZero(0);
      var w := 0;
      while w < words.Length
        invariant 0 <= w <= words.Length
        invariant combined == 0 <==> forall v :: 0 <= v < w ==> words[v] == 0
      {
        NoneSet(combined, words[w]);
        combined := Or(combined, words[w]);
        w := w + 1;
      }
      EmptyWords(words[..]);
      none := combined == 0;
    }

    /** The first run that starts at start or after it. */
    method FirstRangeFrom(start: nat) returns (r: Range)
      requires Valid()
      ensures r == FirstRun(Members(), Size(), start)
    {
      hide Test, MembersOf, FirstRun, CountrZero, CountrOne, Masked;
      ghost var data, s := words[..], Members();
      if start >= Size() {
        NoRun(s, Size(), start);
        return Range(Size(), Size());
      }
      var wordIndex := start / 64;
      var word := And(words[wordIndex], MaskFrom(start % 64));
      IsMasked(data, wordIndex, word, start);
      while word == 0
        invariant wordIndex < words.Length && start < 64 * wordIndex + 64
        invariant Masked(data[wordIndex], wordIndex, word, start)
        invariant forall i :: start <= i < 64 * wordIndex ==> i !in s
        decreases words.Length - wordIndex
      {
        NoMember(data, wordIndex, start);
        wordIndex := wordIndex + 1;
        if wordIndex == words.Length {
          NoRun(s, Size(), start);
          return Range(Size(), Size());
        }
        word := words[wordIndex];
        IsMasked(data, wordIndex, word, start);
      }
      FirstMember(data, wordIndex, word, start);
      var first := 64 * wordIndex + CountrZero(word);
      var second := EndOfRun(first);
      RunIs(s, Size(), start, Range(first, second));
      return Range(first, second);
    }

    /** Where the members that follow this one end. */
    method EndOfRun(first: nat) returns (second: nat)
      requires Valid() && first < Size() && first in Members()
      ensures first < second <= Size() && (second < Size() ==> second !in Members())
      ensures forall i :: first <= i < second ==> i in Members()
    {
      hide Test, MembersOf, CountrOne;
      ghost var data := words[..];
      var wordIndex, firstBit := first / 64, first % 64;
      MemberAt(data, wordIndex, firstBit);
      var firstOnes := CountrOne(ShiftRight(words[wordIndex], firstBit));
      ShiftedOnes(data, wordIndex, firstBit, firstOnes);
      if firstBit + firstOnes < 64 {
        return first + firstOnes;
      }
      wordIndex := wordIndex + 1;
      while wordIndex < words.Length
        invariant wordIndex <= words.Length && first < 64 * wordIndex
        invariant forall i :: first <= i < 64 * wordIndex ==> i in Members()
      {
        var word := words[wordIndex];
        LowOnes(data, wordIndex);
        if word != ONES {
          return 64 * wordIndex + CountrOne(word);
        }
        wordIndex := wordIndex + 1;
      }
      return Size();
    }

    /** The last run below end, cut off at end. */
    method LastRangeFrom(end: nat) returns (r: Range)
      requires Valid()
      ensures r == LastRun(Members(), end)
    {
      hide Test, MembersOf, LastRun, CountlZero, CountlOne, MaskedBelow;
      ghost var data, s := words[..], Members();
      if end == 0 {
        NoRunBefore(s, end);
        return Range(0, 0);
      }
      var limit := if end > Size() then Size() else end;
      Below(data);
      var wordIndex := (limit - 1) / 64;
      var word := And(words[wordIndex], MaskThrough((limit - 1) % 64));
      IsMaskedBelow(data, wordIndex, word, limit);
      while word == 0
        invariant wordIndex < words.Length && 64 * wordIndex < limit
        invariant MaskedBelow(data[wordIndex], wordIndex, word, limit)
        invariant forall i :: 64 * wordIndex + 64 <= i < limit ==> i !in s
        decreases wordIndex
      {
        NoMemberBelow(data, wordIndex, limit);
        if wordIndex == 0 {
          NoRunBefore(s, end);
          return Range(0, 0);
        }
        wordIndex := wordIndex - 1;
        word := words[wordIndex];
        IsMaskedBelow(data, wordIndex, word, limit);
      }
      var first, last := StartOfRun(wordIndex, word, limit);
      assert Members() == s;
      RunBefore(s, end, Range(first, last));
      return Range(first, last);
    }

    /** Where the last members in this word end, and where the run of them starts. */
    method StartOfRun(from: nat, masked: Word, limit: nat) returns (first: nat, last: nat)
      requires Valid() && from < words.Length && masked != 0 && MaskedBelow(words[from], from, masked, limit)
      ensures first < last <= limit && last <= 64 * from + 64 && (first > 0 ==> first - 1 !in Members())
      ensures forall i :: first <= i < last ==> i in Members()
      ensures forall i :: last <= i < limit && i < 64 * from + 64 ==> i !in Members()
    {
      hide Test, MembersOf, CountlZero, CountlOne, MaskedBelow;
      ghost var data := words[..];
      var wordIndex, word := from, masked;
      var emptyBits := CountlZero(word);
      var ones := CountlOne(ShiftLeft(word, emptyBits));
      LastMember(data, wordIndex, word, limit);
      ShiftedTopOnes(data, wordIndex, word, limit);
      last := (wordIndex + 1) * 64 - emptyBits;
      if emptyBits + ones < 64 {
        return last - ones, last;
      }
      while wordIndex != 0
        invariant 0 <= wordIndex <= from && 64 * wordIndex < last
        invariant forall i :: 64 * wordIndex <= i < last ==> i in Members()
      {
        wordIndex := wordIndex - 1;
        word := words[wordIndex];
        HighOnes(data, wordIndex);
        if word != ONES {
          return (wordIndex + 1) * 64 - CountlOne(word), last;
        }
      }
      return 0, last;
    }

    /** Keep what is in one of the two arrays but not in both. They may be the same. */
    method XorWith(other: BitArray)
      requires Valid() && other.words.Length == words.Length
      modifies words
      ensures Members() == (old(Members()) - old(other.Members())) + (old(other.Members()) - old(Members()))
    {
      hide Test, MembersOf;
      ghost var was, with := words[..], other.words[..];
      var word := 0;
      while word < words.Length
        invariant 0 <= word <= words.Length
        invariant forall w :: 0 <= w < words.Length ==> words[w] == if w < word then Xor(was[w], with[w]) else was[w]
        invariant forall w :: word <= w < words.Length ==> other.words[w] == with[w]
      {
        words[word] := Xor(words[word], other.words[word]);
        word := word + 1;
      }
      Differing(words[..], was, with);
    }

    /** A new array of the numbers that are not in this one. */
    method Complement() returns (result: BitArray)
      requires Valid()
      ensures fresh(result) && fresh(result.words) && result.Valid() && result.Size() == Size()
      ensures result.Members() == Span(0, Size()) - Members()
    {
      hide Test, MembersOf;
      ghost var was := words[..];
      result := new BitArray(words.Length);
      var word := 0;
      while word < words.Length
        invariant 0 <= word <= words.Length && fresh(result.words) && words[..] == was
        invariant forall w :: 0 <= w < word ==> result.words[w] == Not(was[w])
      {
        result.words[word] := Not(words[word]);
        word := word + 1;
      }
      assert forall w, b :: 0 <= w < |was| && 0 <= b < 64 ==>
        (Test(result.words[..][w], b) <==> !Test(was[w], b));
      Changed(result.words[..], was, 0, 0, (x, y) => !x, Span(0, Size()) - MembersOf(was));
    }

    /** What a loop over the array from begin to end sees: all its maximal runs, in order. */
    method Ranges() returns (rs: seq<Range>)
      requires Valid()
      ensures AllRuns(Members(), Size(), 0, rs) && rs == RunsFrom(Members(), Size(), 0)
    {
      hide AllRuns, MembersOf, FirstRun, RunsFrom;
      ghost var s := Members();
      RunsAreAll(s, Size(), 0);
      rs := [];
      var it := new Iterator(this, 0);
      var end := new Iterator(this, Size());
      NextRun(s, Size(), Size());
      ghost var from := 0;
      while it.range != end.range
        invariant fresh(it) && it.bits == this && end != it && end.range == Range(Size(), Size())
        invariant Members() == s && from <= Size() && it.range == FirstRun(s, Size(), from)
        invariant RunsFrom(s, Size(), 0) == rs + RunsFrom(s, Size(), from)
        decreases Size() - from
      {
        NextRun(s, Size(), from);
        from := it.range.second;
        rs := rs + [it.range];
        it.Next();
      }
      NextRun(s, Size(), from);
      assert rs + [] == rs;
    }
  }

  /** A position in the sequence of runs. */
  class Iterator {
    const bits: BitArray
    var range: Range

    constructor (bits: BitArray, start: nat)
      requires bits.Valid()
      ensures this.bits == bits && range == FirstRun(bits.Members(), bits.Size(), start)
    {
      var first := bits.FirstRangeFrom(start);
      this.bits, range := bits, first;
    }

    method Next()
      requires bits.Valid()
      modifies this
      ensures range == FirstRun(bits.Members(), bits.Size(), old(range.second))
    {
      range := bits.FirstRangeFrom(range.second);
    }
  }

  lemma Differing(data: seq<Word>, was: seq<Word>, with: seq<Word>)
    requires |data| == |was| == |with| && forall w :: 0 <= w < |data| ==> data[w] == Xor(was[w], with[w])
    ensures MembersOf(data) == (MembersOf(was) - MembersOf(with)) + (MembersOf(with) - MembersOf(was))
  {
    hide Test, MembersOf;
    var s := (MembersOf(was) - MembersOf(with)) + (MembersOf(with) - MembersOf(was));
    forall w, b | 0 <= w < |data| && 0 <= b < 64 ensures Test(data[w], b) <==> 64 * w + b in s {
      MemberAt(was, w, b);
      MemberAt(with, w, b);
      assert Test(data[w], b) <==> Test(was[w], b) != Test(with[w], b);
    }
    Below(was);
    Below(with);
    SameMembers(data, s);
  }

  lemma NoRunBefore(s: set<nat>, end: nat)
    requires forall i :: 0 <= i < end ==> i !in s
    ensures LastRun(s, end) == Range(0, 0)
  {
  }

  lemma RunBefore(s: set<nat>, end: nat, r: Range)
    requires r.first < r.second <= end && (r.first > 0 ==> r.first - 1 !in s)
    requires forall i :: r.first <= i < r.second ==> i in s
    requires forall i :: r.second <= i < end ==> i !in s
    ensures LastRun(s, end) == r
  {
    var l := LastRun(s, end);
    assert r.second - 1 in s;
    assert l.second == r.second;
    assert l.first < r.first ==> r.first - 1 in s;
    assert r.first < l.first ==> l.first - 1 in s;
  }

  /** word is the stored word without the bits for numbers from end on. */
  ghost predicate MaskedBelow(stored: Word, w: nat, word: Word, end: nat) {
    forall c :: 0 <= c < 64 ==> (Test(word, c) <==> Test(stored, c) && 64 * w + c < end)
  }

  lemma IsMaskedBelow(data: seq<Word>, w: nat, word: Word, end: nat)
    requires w < |data| && end > 0
    requires if w == (end - 1) / 64 then word == And(data[w], MaskThrough((end - 1) % 64))
             else 64 * w + 64 <= end && word == data[w]
    ensures MaskedBelow(data[w], w, word, end)
  {
    hide Test;
  }

  lemma NoMemberBelow(data: seq<Word>, w: nat, end: nat)
    requires w < |data| && MaskedBelow(data[w], w, 0, end)
    ensures forall i :: i < end && 64 * w <= i < 64 * w + 64 ==> i !in MembersOf(data)
  {
    hide Test, MembersOf;
    IsZero(0);
    forall i | i < end && 64 * w <= i < 64 * w + 64 ensures i !in MembersOf(data) {
      MemberAt(data, w, i - 64 * w);
      assert !Test(0, i - 64 * w);
    }
  }

  /** The zeros at the high end of a masked word lead to the last member below end. */
  lemma LastMember(data: seq<Word>, w: nat, word: Word, end: nat)
    requires w < |data| && MaskedBelow(data[w], w, word, end) && word != 0
    ensures CountlZero(word) < 64 && Test(word, 63 - CountlZero(word)) && 64 * w + 64 - CountlZero(word) <= end
    ensures forall i :: i < end && 64 * w + 64 - CountlZero(word) <= i < 64 * w + 64 ==> i !in MembersOf(data)
  {
    hide Test, MembersOf;
    IsZero(word);
    var b := 64 - CountlZero(word);
    forall i | i < end && 64 * w + b <= i < 64 * w + 64 ensures i !in MembersOf(data) {
      MemberAt(data, w, i - 64 * w);
      assert !Test(word, i - 64 * w);
    }
    assert Test(word, b - 1);
  }

  /** The ones at the high end of the shifted word are the members that end there. */
  lemma ShiftedTopOnes(data: seq<Word>, w: nat, word: Word, end: nat)
    requires w < |data| && MaskedBelow(data[w], w, word, end)
    requires CountlZero(word) < 64 && Test(word, 63 - CountlZero(word)) && 64 * w + 64 - CountlZero(word) <= end
    ensures var last, ones := 64 * w + 64 - CountlZero(word), CountlOne(ShiftLeft(word, CountlZero(word)));
      && 0 < ones <= 64 - CountlZero(word)
      && (forall i :: last - ones <= i < last ==> i in MembersOf(data))
      && (CountlZero(word) + ones < 64 ==> last - ones - 1 !in MembersOf(data))
  {
    hide Test, MembersOf, CountlOne, CountlZero;
    var top := 64 - CountlZero(word);
    var ones := CountlOne(ShiftLeft(word, CountlZero(word)));
    OnesUnder(word, top);
    assert forall c :: top - ones <= c < top ==> Test(word, c) ==> Test(data[w], c);
    Stretch(data, w, top - ones, top, true);
    if ones < top {
      MemberAt(data, w, top - ones - 1);
    }
  }

  /** The ones at the high end of a word are members, and what is below them is not. */
  lemma HighOnes(data: seq<Word>, w: nat)
    requires w < |data|
    ensures CountlOne(data[w]) <= 64 && (data[w] == ONES <==> CountlOne(data[w]) == 64)
    ensures forall i :: 64 * w + 64 - CountlOne(data[w]) <= i < 64 * w + 64 ==> i in MembersOf(data)
    ensures data[w] != ONES ==> 64 * w + 63 - CountlOne(data[w]) !in MembersOf(data)
  {
    hide Test, MembersOf;
    IsOnes(data[w]);
    var ones := CountlOne(data[w]);
    Stretch(data, w, 64 - ones, 64, true);
    if ones < 64 {
      MemberAt(data, w, 63 - ones);
    }
  }

  lemma NoRun(s: set<nat>, n: nat, start: nat)
    requires forall i :: start <= i < n ==> i !in s
    ensures FirstRun(s, n, start) == Range(n, n)
  {
  }

  /** word is word w of the array without the bits for numbers below start. */
  ghost predicate Masked(stored: Word, w: nat, word: Word, start: nat) {
    forall c :: 0 <= c < 64 ==> (Test(word, c) <==> Test(stored, c) && start <= 64 * w + c)
  }

  lemma IsMasked(data: seq<Word>, w: nat, word: Word, start: nat)
    requires w < |data|
    requires if w == start / 64 then word == And(data[w], MaskFrom(start % 64)) else start < 64 * w && word == data[w]
    ensures Masked(data[w], w, word, start)
  {
    hide Test;
  }

  lemma NoMember(data: seq<Word>, w: nat, start: nat)
    requires w < |data| && Masked(data[w], w, 0, start)
    ensures forall i :: start <= i && 64 * w <= i < 64 * w + 64 ==> i !in MembersOf(data)
  {
    hide Test, MembersOf;
    IsZero(0);
    forall i | start <= i && 64 * w <= i < 64 * w + 64 ensures i !in MembersOf(data) {
      MemberAt(data, w, i - 64 * w);
      assert !Test(0, i - 64 * w);
    }
  }

  /** The zeros at the low end of a masked word lead to the first member from start on. */
  lemma FirstMember(data: seq<Word>, w: nat, word: Word, start: nat)
    requires w < |data| && Masked(data[w], w, word, start) && word != 0
    ensures CountrZero(word) < 64 && Test(data[w], CountrZero(word)) && start <= 64 * w + CountrZero(word)
    ensures 64 * w + CountrZero(word) in MembersOf(data)
    ensures forall i :: start <= i && 64 * w <= i < 64 * w + CountrZero(word) ==> i !in MembersOf(data)
  {
    hide Test, MembersOf;
    IsZero(word);
    var b := CountrZero(word);
    forall i | start <= i && 64 * w <= i < 64 * w + b ensures i !in MembersOf(data) {
      MemberAt(data, w, i - 64 * w);
      assert !Test(word, i - 64 * w);
    }
    assert Test(word, b);
    MemberAt(data, w, b);
  }

  /** The ones at the low end of the shifted word are the members from that bit on. */
  lemma ShiftedOnes(data: seq<Word>, w: nat, bit: nat, ones: nat)
    requires w < |data| && bit < 64 && Test(data[w], bit) && ones == CountrOne(ShiftRight(data[w], bit))
    ensures ones > 0 && bit + ones <= 64
    ensures forall i :: 64 * w + bit <= i < 64 * w + bit + ones ==> i in MembersOf(data)
    ensures bit + ones < 64 ==> 64 * w + bit + ones !in MembersOf(data)
  {
    hide Test, MembersOf, CountrOne;
    OnesOver(data[w], bit);
    Stretch(data, w, bit, bit + ones, true);
    if bit + ones < 64 {
      MemberAt(data, w, bit + ones);
    }
  }

  /** A word with all ones holds members only; the ones at the low end of another are members,
      and what comes after them is not. */
  lemma LowOnes(data: seq<Word>, w: nat)
    requires w < |data|
    ensures CountrOne(data[w]) <= 64 && (data[w] == ONES <==> CountrOne(data[w]) == 64)
    ensures forall i :: 64 * w <= i < 64 * w + CountrOne(data[w]) ==> i in MembersOf(data)
    ensures data[w] != ONES ==> 64 * w + CountrOne(data[w]) !in MembersOf(data)
  {
    hide Test, MembersOf;
    IsOnes(data[w]);
    var ones := CountrOne(data[w]);
    Stretch(data, w, 0, ones, true);
    if ones < 64 {
      MemberAt(data, w, ones);
    }
  }

  lemma NoneSet(a: Word, b: Word)
    ensures Or(a, b) == 0 <==> a == 0 && b == 0
  {
    hide Test;
    IsZero(a);
    IsZero(b);
    IsZero(Or(a, b));
  }

  lemma EmptyWords(data: seq<Word>)
    ensures MembersOf(data) == {} <==> forall w :: 0 <= w < |data| ==> data[w] == 0
  {
    hide Test, MembersOf;
    if forall w :: 0 <= w < |data| ==> data[w] == 0 {
      IsZero(0);
      SameMembers(data, {});
    } else {
      var w :| 0 <= w < |data| && data[w] != 0;
      IsZero(data[w]);
      var b :| 0 <= b < 64 && Test(data[w], b);
      MemberAt(data, w, b);
    }
  }
}
