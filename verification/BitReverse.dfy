/** Reversing the bits of a word by four masked swaps. */
module BitReverse {
  import opened Bits

  function Swap16(n: bv16): bv16 {
    var a := ((n & 0xAAAA) >> 1) | ((n & 0x5555) << 1);
    var b := ((a & 0xCCCC) >> 2) | ((a & 0x3333) << 2);
    var c := ((b & 0xF0F0) >> 4) | ((b & 0x0F0F) << 4);
    ((c & 0xFF00) >> 8) | ((c & 0x00FF) << 8)
  }

  /** Bit i of a word. */
  predicate At(w: bv16, i: nat)
    requires i < 16
  {
    if i == 0 then w & 0x1 != 0 else if i == 1 then w & 0x2 != 0
    else if i == 2 then w & 0x4 != 0 else if i == 3 then w & 0x8 != 0
    else if i == 4 then w & 0x10 != 0 else if i == 5 then w & 0x20 != 0
    else if i == 6 then w & 0x40 != 0 else if i == 7 then w & 0x80 != 0
    else if i == 8 then w & 0x100 != 0 else if i == 9 then w & 0x200 != 0
    else if i == 10 then w & 0x400 != 0 else if i == 11 then w & 0x800 != 0
    else if i == 12 then w & 0x1000 != 0 else if i == 13 then w & 0x2000 != 0
    else if i == 14 then w & 0x4000 != 0 else w & 0x8000 != 0
  }

  /** The low n bits of v as a machine word. */
  function ToWord(v: nat, n: nat): bv16 {
    if n == 0 then 0 else Push(ToWord(v / 2, n - 1), v % 2 == 1)
  }

  function Push(w: bv16, b: bool): bv16 {
    if b then (w << 1) | 1 else w << 1
  }

  /** The low n bits of w as a number. */
  function FromWord(w: bv16, n: nat): (r: nat)
    requires n <= 16
    ensures r < Pow2(n)
  {
    if n == 0 then 0 else FromWord(w, n - 1) + (if At(w, n - 1) then Pow2(n - 1) else 0)
  }

  /** The low `bits` bits of v reversed: reverse all 16 and shift the surplus away. */
  function ReverseBits(v: nat, bits: nat): nat
    requires bits <= 16
  {
    Shr(FromWord(Swap16(ToWord(v, 16)), 16), 16 - bits)
  }

  lemma PushAt(w: bv16, b: bool, i: nat)
    requires i < 16
    ensures At(Push(w, b), i) == if i == 0 then b else At(w, i - 1)
  {
    if i == 0 {} else if i == 1 {} else if i == 2 {} else if i == 3 {}
    else if i == 4 {} else if i == 5 {} else if i == 6 {} else if i == 7 {}
    else if i == 8 {} else if i == 9 {} else if i == 10 {} else if i == 11 {}
    else if i == 12 {} else if i == 13 {} else if i == 14 {} else {}
  }

  /** The four swaps reverse the order of all sixteen bits. */
  lemma SwapAt(w: bv16, i: nat)
    requires i < 16
    ensures At(Swap16(w), i) == At(w, 15 - i)
  {
    if i == 0 {} else if i == 1 {} else if i == 2 {} else if i == 3 {}
    else if i == 4 {} else if i == 5 {} else if i == 6 {} else if i == 7 {}
    else if i == 8 {} else if i == 9 {} else if i == 10 {} else if i == 11 {}
    else if i == 12 {} else if i == 13 {} else if i == 14 {} else {}
  }

  lemma {:induction false} ToWordAt(v: nat, n: nat, i: nat)
    requires i < n <= 16
    ensures At(ToWord(v, n), i) == (Shr(v, i) % 2 == 1)
  {
    PushAt(ToWord(v / 2, n - 1), v % 2 == 1, i);
    if i > 0 {
      ToWordAt(v / 2, n - 1, i - 1);
    }
  }

  lemma {:induction false} FromSwapped(v: nat, n: nat, w: bv16)
    requires n <= 16
    requires w == Swap16(ToWord(v, 16))
    ensures FromWord(w, n) == Rev(Shr(v, 16 - n), n)
  {
    if n > 0 {
      FromSwapped(v, n - 1, w);
      SwapAt(ToWord(v, 16), n - 1);
      ToWordAt(v, 16, 16 - n);
      ShrSnoc(v, 16 - n);
    }
  }

  /** The word-level reversal is the reversal of the number's low bits. */
  lemma ReverseBitsIsRev(v: nat, bits: nat)
    requires bits <= 16
    ensures ReverseBits(v, bits) == Rev(v, bits)
  {
    FromSwapped(v, 16, Swap16(ToWord(v, 16)));
    RevTop(v, bits, 16 - bits);
  }
}
