/** Words of 64 bits as numbers, and the operations on them by what they do to each bit. */
module Words {
  import opened Bits

  type Word = w: nat | w < 0x1_0000_0000_0000_0000

  /** Bit k of w. */
  predicate Test(w: nat, k: nat) {
    if k == 0 then w % 2 == 1 else Test(w / 2, k - 1)
  }

  // ----- Operations on n bits -----

  function Join(bit: bool, rest: nat): nat {
    (if bit then 1 else 0) + 2 * rest
  }

  function Conj(a: nat, b: nat, n: nat): (r: nat)
    ensures r < Pow2(n)
  {
    if n == 0 then 0 else Join(a % 2 == 1 && b % 2 == 1, Conj(a / 2, b / 2, n - 1))
  }

  function Disj(a: nat, b: nat, n: nat): (r: nat)
    ensures r < Pow2(n)
  {
    if n == 0 then 0 else Join(a % 2 == 1 || b % 2 == 1, Disj(a / 2, b / 2, n - 1))
  }

  function Differ(a: nat, b: nat, n: nat): (r: nat)
    ensures r < Pow2(n)
  {
    if n == 0 then 0 else Join(a % 2 != b % 2, Differ(a / 2, b / 2, n - 1))
  }

  function Flip(a: nat, n: nat): (r: nat)
    ensures r < Pow2(n)
  {
    if n == 0 then 0 else Join(a % 2 == 0, Flip(a / 2, n - 1))
  }

  lemma JoinParts(bit: bool, rest: nat)
    ensures Join(bit, rest) % 2 == (if bit then 1 else 0) && Join(bit, rest) / 2 == rest
  {
  }

  lemma {:induction false} TestConj(a: nat, b: nat, n: nat, k: nat)
    requires k < n
    ensures Test(Conj(a, b, n), k) <==> Test(a, k) && Test(b, k)
  {
    JoinParts(a % 2 == 1 && b % 2 == 1, Conj(a / 2, b / 2, n - 1));
    if k > 0 {
      TestConj(a / 2, b / 2, n - 1, k - 1);
    }
  }

  lemma {:induction false} TestDisj(a: nat, b: nat, n: nat, k: nat)
    requires k < n
    ensures Test(Disj(a, b, n), k) <==> Test(a, k) || Test(b, k)
  {
    JoinParts(a % 2 == 1 || b % 2 == 1, Disj(a / 2, b / 2, n - 1));
    if k > 0 {
      TestDisj(a / 2, b / 2, n - 1, k - 1);
    }
  }

  lemma {:induction false} TestDiffer(a: nat, b: nat, n: nat, k: nat)
    requires k < n
    ensures Test(Differ(a, b, n), k) <==> Test(a, k) != Test(b, k)
  {
    JoinParts(a % 2 != b % 2, Differ(a / 2, b / 2, n - 1));
    if k > 0 {
      TestDiffer(a / 2, b / 2, n - 1, k - 1);
    }
  }

  lemma {:induction false} TestFlip(a: nat, n: nat, k: nat)
    requires k < n
    ensures Test(Flip(a, n), k) <==> !Test(a, k)
  {
    JoinParts(a % 2 == 0, Flip(a / 2, n - 1));
    if k > 0 {
      TestFlip(a / 2, n - 1, k - 1);
    }
  }

  lemma {:induction false} TestZero(k: nat)
    ensures !Test(0, k)
  {
    if k > 0 {
      TestZero(k - 1);
    }
  }

  lemma {:induction false} TestShl(w: nat, s: nat, k: nat)
    ensures Test(Shl(w, s), k) <==> k >= s && Test(w, k - s)
  {
    if s > 0 && k > 0 {
      TestShl(w, s - 1, k - 1);
    }
  }

  lemma {:induction false} TestShr(w: nat, s: nat, k: nat)
    ensures Test(Shr(w, s), k) <==> Test(w, k + s)
  {
    if s > 0 {
      TestShr(w / 2, s - 1, k);
    }
  }

  lemma {:induction false} TestLow(w: nat, n: nat, k: nat)
    ensures Test(Low(w, n), k) <==> k < n && Test(w, k)
  {
    if n == 0 {
      TestZero(k);
    } else if k > 0 {
      assert Low(w, n) / 2 == Low(w / 2, n - 1);
      TestLow(w / 2, n - 1, k - 1);
    }
  }

  /** The low n bits of a number one below a power of two are set. */
  lemma {:induction false} TestOnes(n: nat, k: nat)
    ensures Test(Pow2(n) - 1, k) <==> k < n
  {
    if n == 0 {
      TestZero(k);
    } else if k > 0 {
      assert (Pow2(n) - 1) / 2 == Pow2(n - 1) - 1;
      TestOnes(n - 1, k - 1);
    }
  }

  /** Numbers of n bits with the same bits are the same. */
  lemma {:induction false} SameBits(a: nat, b: nat, n: nat)
    requires a < Pow2(n) && b < Pow2(n)
    requires forall k :: 0 <= k < n ==> Test(a, k) == Test(b, k)
    ensures a == b
  {
    if n > 0 {
      assert Test(a, 0) == Test(b, 0);
      forall k | 0 <= k < n - 1 ensures Test(a / 2, k) == Test(b / 2, k) {
        assert Test(a, k + 1) == Test(b, k + 1);
      }
      SameBits(a / 2, b / 2, n - 1);
    }
  }

  // ----- Operations on words -----

  const ONES: Word := 0xFFFF_FFFF_FFFF_FFFF

  lemma WordSize()
    ensures Pow2(64) == 0x1_0000_0000_0000_0000
  {
    Pow2Values();
    assert Pow2(18) == 0x4_0000;
    assert Pow2(20) == 0x10_0000;
    assert Pow2(22) == 0x40_0000;
    assert Pow2(24) == 0x100_0000;
    assert Pow2(26) == 0x400_0000;
    assert Pow2(28) == 0x1000_0000;
    assert Pow2(30) == 0x4000_0000;
    assert Pow2(32) == 0x1_0000_0000;
    assert Pow2(34) == 0x4_0000_0000;
    assert Pow2(36) == 0x10_0000_0000;
    assert Pow2(38) == 0x40_0000_0000;
    assert Pow2(40) == 0x100_0000_0000;
    assert Pow2(42) == 0x400_0000_0000;
    assert Pow2(44) == 0x1000_0000_0000;
    assert Pow2(46) == 0x4000_0000_0000;
    assert Pow2(48) == 0x1_0000_0000_0000;
    assert Pow2(50) == 0x4_0000_0000_0000;
    assert Pow2(52) == 0x10_0000_0000_0000;
    assert Pow2(54) == 0x40_0000_0000_0000;
    assert Pow2(56) == 0x100_0000_0000_0000;
    assert Pow2(58) == 0x400_0000_0000_0000;
    assert Pow2(60) == 0x1000_0000_0000_0000;
    assert Pow2(62) == 0x4000_0000_0000_0000;
  }

  function And(a: Word, b: Word): (r: Word)
    ensures forall k :: 0 <= k < 64 ==> (Test(r, k) <==> Test(a, k) && Test(b, k))
  {
    AndBits(a, b);
    Conj(a, b, 64)
  }

  lemma AndBits(a: Word, b: Word)
    ensures Conj(a, b, 64) <= ONES
    ensures forall k :: 0 <= k < 64 ==> (Test(Conj(a, b, 64), k) <==> Test(a, k) && Test(b, k))
  {
    WordSize();
    forall k | 0 <= k < 64 ensures Test(Conj(a, b, 64), k) <==> Test(a, k) && Test(b, k) {
      TestConj(a, b, 64, k);
    }
  }

  function Or(a: Word, b: Word): (r: Word)
    ensures forall k :: 0 <= k < 64 ==> (Test(r, k) <==> Test(a, k) || Test(b, k))
  {
    OrBits(a, b);
    Disj(a, b, 64)
  }

  lemma OrBits(a: Word, b: Word)
    ensures Disj(a, b, 64) <= ONES
    ensures forall k :: 0 <= k < 64 ==> (Test(Disj(a, b, 64), k) <==> Test(a, k) || Test(b, k))
  {
    WordSize();
    forall k | 0 <= k < 64 ensures Test(Disj(a, b, 64), k) <==> Test(a, k) || Test(b, k) {
      TestDisj(a, b, 64, k);
    }
  }

  function Xor(a: Word, b: Word): (r: Word)
    ensures forall k :: 0 <= k < 64 ==> (Test(r, k) <==> Test(a, k) != Test(b, k))
  {
    XorBits(a, b);
    Differ(a, b, 64)
  }

  lemma XorBits(a: Word, b: Word)
    ensures Differ(a, b, 64) <= ONES
    ensures forall k :: 0 <= k < 64 ==> (Test(Differ(a, b, 64), k) <==> Test(a, k) != Test(b, k))
  {
    WordSize();
    forall k | 0 <= k < 64 ensures Test(Differ(a, b, 64), k) <==> Test(a, k) != Test(b, k) {
      TestDiffer(a, b, 64, k);
    }
  }

  function Not(a: Word): (r: Word)
    ensures forall k :: 0 <= k < 64 ==> (Test(r, k) <==> !Test(a, k))
  {
    NotBits(a);
    Flip(a, 64)
  }

  lemma NotBits(a: Word)
    ensures Flip(a, 64) <= ONES
    ensures forall k :: 0 <= k < 64 ==> (Test(Flip(a, 64), k) <==> !Test(a, k))
  {
    WordSize();
    forall k | 0 <= k < 64 ensures Test(Flip(a, 64), k) <==> !Test(a, k) {
      TestFlip(a, 64, k);
    }
  }

  function ShiftLeft(a: Word, n: nat): (r: Word)
    ensures forall k :: 0 <= k < 64 ==> (Test(r, k) <==> k >= n && Test(a, k - n))
  {
    ShiftLeftBits(a, n);
    Low(Shl(a, n), 64)
  }

  lemma ShiftLeftBits(a: Word, n: nat)
    ensures Low(Shl(a, n), 64) <= ONES
    ensures forall k :: 0 <= k < 64 ==> (Test(Low(Shl(a, n), 64), k) <==> k >= n && Test(a, k - n))
  {
    WordSize();
    forall k | 0 <= k < 64 ensures Test(Low(Shl(a, n), 64), k) <==> k >= n && Test(a, k - n) {
      TestLow(Shl(a, n), 64, k);
      TestShl(a, n, k);
    }
  }

  function ShiftRight(a: Word, n: nat): (r: Word)
    ensures forall k: nat :: Test(r, k) <==> Test(a, k + n)
  {
    ShiftRightBits(a, n);
    Shr(a, n)
  }

  lemma ShiftRightBits(a: Word, n: nat)
    ensures Shr(a, n) <= a
    ensures forall k: nat :: Test(Shr(a, n), k) <==> Test(a, k + n)
  {
    ShrSmaller(a, n);
    forall k: nat ensures Test(Shr(a, n), k) <==> Test(a, k + n) {
      TestShr(a, n, k);
    }
  }

  lemma {:induction false} ShrSmaller(a: nat, n: nat)
    ensures Shr(a, n) <= a
  {
    if n > 0 {
      ShrSmaller(a / 2, n - 1);
    }
  }

  /** How many bits from k on have this value, without a gap. */
  function RunUp(a: Word, k: nat, bit: bool): (r: nat)
    requires k <= 64
    ensures k + r <= 64 && (k + r < 64 ==> Test(a, k + r) != bit)
    ensures forall j :: k <= j < k + r ==> Test(a, j) == bit
    decreases 64 - k
  {
    if k == 64 || Test(a, k) != bit then 0 else 1 + RunUp(a, k + 1, bit)
  }

  /** How many bits below k have this value, without a gap. */
  function RunDown(a: Word, k: nat, bit: bool): (r: nat)
    requires k <= 64
    ensures r <= k && (r < k ==> Test(a, k - r - 1) != bit)
    ensures forall j :: k - r <= j < k ==> Test(a, j) == bit
    decreases k
  {
    if k == 0 || Test(a, k - 1) != bit then 0 else 1 + RunDown(a, k - 1, bit)
  }

  function CountrZero(a: Word): nat {
    RunUp(a, 0, false)
  }

  function CountrOne(a: Word): nat {
    RunUp(a, 0, true)
  }

  function CountlZero(a: Word): nat {
    RunDown(a, 64, false)
  }

  function CountlOne(a: Word): nat {
    RunDown(a, 64, true)
  }

  lemma SameWord(a: Word, b: Word)
    requires forall k :: 0 <= k < 64 ==> Test(a, k) == Test(b, k)
    ensures a == b
  {
    WordSize();
    SameBits(a, b, 64);
  }

  lemma OnesBits(a: Word)
    requires a == ONES
    ensures forall k :: 0 <= k < 64 ==> Test(a, k)
  {
    WordSize();
    forall k | 0 <= k < 64 ensures Test(a, k) {
      TestOnes(64, k);
    }
  }

  predicate AllBits(a: Word, bit: bool) {
    forall k :: 0 <= k < 64 ==> Test(a, k) == bit
  }

  /** A word is zero just when no bit is set. */
  lemma IsZero(a: Word)
    ensures a == 0 <==> AllBits(a, false)
  {
    forall k | 0 <= k < 64 ensures !Test(0, k) {
      TestZero(k);
    }
    if AllBits(a, false) {
      SameWord(a, 0);
    }
  }

  /** It has all ones just when every bit is set. */
  lemma IsOnes(a: Word)
    ensures a == ONES <==> AllBits(a, true)
  {
    OnesBits(ONES);
    if AllBits(a, true) {
      SameWord(a, ONES);
    }
  }

  lemma NoHighBit(a: Word)
    ensures !Test(a, 64)
  {
    hide Test;
    WordSize();
    LowSmall(a, 64);
    TestLow(a, 64, 64);
  }

  /** Counting the ones from bit k up in the word shifted down to that bit. */
  lemma OnesOver(a: Word, k: nat)
    requires k < 64 && Test(a, k)
    ensures var ones := CountrOne(ShiftRight(a, k));
      && 0 < ones <= 64 - k && (forall b :: k <= b < k + ones ==> Test(a, b))
      && (k + ones < 64 ==> !Test(a, k + ones))
  {
    hide Test;
    NoHighBit(a);
    var x := ShiftRight(a, k);
    var ones := CountrOne(x);
    assert Test(x, 0);
    assert !Test(x, 64 - k);
    forall b | k <= b < k + ones ensures Test(a, b) {
      assert Test(x, b - k);
    }
    assert ones < 64 ==> !Test(x, ones);
  }

  /** Counting the ones below bit k in the word shifted up to the top. */
  lemma OnesUnder(a: Word, k: nat)
    requires 0 < k <= 64 && Test(a, k - 1)
    ensures var ones := CountlOne(ShiftLeft(a, 64 - k));
      && 0 < ones <= k && (forall b :: k - ones <= b < k ==> Test(a, b))
      && (ones < k ==> !Test(a, k - ones - 1))
  {
    hide Test;
    var x := ShiftLeft(a, 64 - k);
    var ones := CountlOne(x);
    assert Test(x, 63);
    assert k < 64 ==> !Test(x, 63 - k);
    forall b | k - ones <= b < k ensures Test(a, b) {
      assert Test(x, b + 64 - k);
    }
    assert ones < 64 ==> !Test(x, 63 - ones);
  }

  // ----- Masks -----

  /** The bits from k on. */
  function MaskFrom(k: nat): (r: Word)
    ensures forall j :: 0 <= j < 64 ==> (Test(r, j) <==> j >= k)
  {
    OnesBits(ONES);
    ShiftLeft(ONES, k)
  }

  /** The bits below k. */
  function MaskBelow(k: nat): (r: Word)
    requires k < 64
    ensures forall j :: 0 <= j < 64 ==> (Test(r, j) <==> j < k)
  {
    ShiftOne(k);
    var mask := ShiftLeft(1, k) - 1;
    OnesBelow(k, mask);
    mask
  }

  lemma ShiftOne(k: nat)
    requires k < 64
    ensures ShiftLeft(1, k) == Pow2(k)
  {
    hide Low, Shl;
    Pow2Mono(k + 1, 64);
    ShlPow2(0, k);
    LowSmall(Shl(1, k), 64);
  }

  lemma OnesBelow(k: nat, mask: nat)
    requires mask == Pow2(k) - 1
    ensures forall j: nat :: Test(mask, j) <==> j < k
  {
    forall j: nat ensures Test(mask, j) <==> j < k {
      TestOnes(k, j);
    }
  }

  /** The bits up to and including k. */
  function MaskThrough(k: nat): (r: Word)
    requires k < 64
    ensures forall j :: 0 <= j < 64 ==> (Test(r, j) <==> j <= k)
  {
    OnesBits(ONES);
    if k == 63 then ONES else MaskBelow(k + 1)
  }
}
