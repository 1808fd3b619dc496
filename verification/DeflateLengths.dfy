/** The code lengths in the header of a dynamic block (section 3.2.7 of RFC 1951), again as an
    encoder and a decoder that are proved inverse to each other. */
module DeflateLengths {
  import opened Bits
  import opened CanonicalCode
  import opened Deflate
  import opened Options

  // ----- Lists of code lengths -----

  /** One length, the last length n more times, or n zeros. */
  datatype LenOp = Len(v: nat) | Repeat(n: nat) | Zeros(n: nat) | ManyZeros(n: nat)

  /** The symbol that stands for an operation, and its extra bits. */
  function OpSymbol(op: LenOp): nat {
    match op
    case Len(v) => v
    case Repeat(_) => 16
    case Zeros(_) => 17
    case ManyZeros(_) => 18
  }

  function OpExtra(op: LenOp): int {
    match op
    case Len(_) => 0
    case Repeat(n) => n - 3
    case Zeros(n) => n - 3
    case ManyZeros(n) => n - 11
  }

  function OpBits(op: LenOp): nat {
    match op
    case Len(_) => 0
    case Repeat(_) => 2
    case Zeros(_) => 3
    case ManyZeros(_) => 7
  }

  predicate IsLenOp(cl: Codes, op: LenOp) {
    (op.Len? ==> op.v < 16) && cl(OpSymbol(op)).Some? && 0 <= OpExtra(op) < Pow2(OpBits(op))
  }

  predicate AreLenOps(cl: Codes, ops: seq<LenOp>) {
    ops == [] || (IsLenOp(cl, ops[0]) && AreLenOps(cl, ops[1..]))
  }

  function EncodeLenOp(cl: Codes, op: LenOp): seq<nat>
    requires IsLenOp(cl, op)
  {
    cl(OpSymbol(op)).value + LsbBits(OpExtra(op), OpBits(op))
  }

  function EncodeLenOps(cl: Codes, ops: seq<LenOp>): seq<nat>
    requires AreLenOps(cl, ops)
    decreases |ops|
  {
    if ops == [] then [] else EncodeLenOp(cl, ops[0]) + EncodeLenOps(cl, ops[1..])
  }

  function Fill(v: nat, n: nat): (r: seq<nat>)
    ensures |r| == n
  {
    seq(n, _ => v)
  }

  /** The operation of a code length symbol whose extra bits are at p, and where they end. */
  function OpOf(c: nat, data: seq<byte>, p: nat): (r: Option<(LenOp, nat)>)
    ensures r.Some? ==> r.value.0.Len? || r.value.0.n >= 3
  {
    if c < 16 then Some((Len(c), p))
    else if c == 16 then Some((Repeat(3 + Lsb(data, p, 2)), p + 2))
    else if c == 17 then Some((Zeros(3 + Lsb(data, p, 3)), p + 3))
    else if c == 18 then Some((ManyZeros(11 + Lsb(data, p, 7)), p + 7))
    else None
  }

  /** The list after one more operation; None if there is no last length to repeat. */
  function Extend(acc: seq<nat>, op: LenOp): Option<seq<nat>> {
    match op
    case Len(v) => Some(acc + [v])
    case Repeat(n) => if acc == [] then None else Some(acc + Fill(acc[|acc| - 1], n))
    case Zeros(n) => Some(acc + Fill(0, n))
    case ManyZeros(n) => Some(acc + Fill(0, n))
  }

  function ExtendAll(acc: seq<nat>, ops: seq<LenOp>): Option<seq<nat>>
    decreases |ops|
  {
    if ops == [] then Some(acc)
    else
      match Extend(acc, ops[0])
      case None => None
      case Some(next) => ExtendAll(next, ops[1..])
  }

  function LenOpAt(cl: Reader, data: seq<byte>, p: nat): (r: Option<(LenOp, nat)>)
    ensures r.Some? ==> r.value.0.Len? || r.value.0.n >= 3
  {
    match cl(p)
    case None => None
    case Some((c, p1)) => OpOf(c, data, p1)
  }

  /** Read operations until the list has exactly `total` lengths. */
  function LengthsAt(cl: Reader, data: seq<byte>, p: nat, total: nat, acc: seq<nat>): Option<(seq<nat>, nat)>
    requires |acc| <= total
    decreases total - |acc|
  {
    if |acc| == total then Some((acc, p))
    else
      match LenOpAt(cl, data, p)
      case None => None
      case Some((op, end)) =>
        match Extend(acc, op)
        case None => None
        case Some(next) => if |next| > total then None else LengthsAt(cl, data, end, total, next)
  }

  lemma LenOpDecodes(cl: Codes, read: Reader, data: seq<byte>, p: nat, op: LenOp)
    requires ReadsBack(cl, read, data) && IsLenOp(cl, op)
    ensures Spells(data, p, EncodeLenOp(cl, op)) <==> LenOpAt(read, data, p) == Some((op, p + |EncodeLenOp(cl, op)|))
  {
    assert ReadsOnlySymbols(cl, read, p);
    ExtraDecodes(cl, read, OpSymbol(op), OpExtra(op), OpBits(op), data, p);
    assert Lsb(data, p + |cl(OpSymbol(op)).value|, 0) == 0;
  }

  lemma LenOpIsOp(cl: Codes, read: Reader, data: seq<byte>, p: nat)
    requires ReadsBack(cl, read, data) && LenOpAt(read, data, p).Some?
    ensures var (op, end) := LenOpAt(read, data, p).value;
      IsLenOp(cl, op) && end == p + |EncodeLenOp(cl, op)|
  {
    Pow2Values();
    assert ReadsOnlySymbols(cl, read, p);
  }

  lemma {:induction false} ExtendGrows(acc: seq<nat>, cl: Codes, ops: seq<LenOp>)
    requires AreLenOps(cl, ops) && ExtendAll(acc, ops).Some?
    ensures |ExtendAll(acc, ops).value| >= |acc| + |ops|
    decreases |ops|
  {
    if ops != [] {
      ExtendGrows(Extend(acc, ops[0]).value, cl, ops[1..]);
    }
  }

  lemma FirstOp(cl: Codes, read: Reader, data: seq<byte>, p: nat, ops: seq<LenOp>)
    requires ReadsBack(cl, read, data) && AreLenOps(cl, ops) && ops != []
    requires Spells(data, p, EncodeLenOps(cl, ops))
    ensures var end := p + |EncodeLenOp(cl, ops[0])|;
      LenOpAt(read, data, p) == Some((ops[0], end)) && Spells(data, end, EncodeLenOps(cl, ops[1..]))
  {
    SpellsConcat(data, p, EncodeLenOp(cl, ops[0]), EncodeLenOps(cl, ops[1..]));
    LenOpDecodes(cl, read, data, p, ops[0]);
  }

  /** Decoding inverts encoding for lists of code lengths. */
  lemma {:induction false} LengthsDecode(cl: Codes, read: Reader, data: seq<byte>, p: nat, acc: seq<nat>,
                                         ops: seq<LenOp>, r: seq<nat>)
    requires ReadsBack(cl, read, data) && AreLenOps(cl, ops)
    requires ExtendAll(acc, ops) == Some(r) && |acc| <= |r|
    requires Spells(data, p, EncodeLenOps(cl, ops))
    ensures LengthsAt(read, data, p, |r|, acc) == Some((r, p + |EncodeLenOps(cl, ops)|))
    decreases |ops|
  {
    hide Spells, EncodeLenOp, LenOpAt, Extend, ReadsBack;
    if ops != [] {
      FirstOp(cl, read, data, p, ops);
      ExtendGrows(acc, cl, ops);
      var next := Extend(acc, ops[0]).value;
      ExtendGrows(next, cl, ops[1..]);
      LengthsDecode(cl, read, data, p + |EncodeLenOp(cl, ops[0])|, next, ops[1..], r);
    }
  }

  /** And whatever list decodes is the encoding of some operations. */
  lemma {:induction false} LengthsAreEncoding(cl: Codes, read: Reader, data: seq<byte>, p: nat, total: nat,
                                              acc: seq<nat>)
      returns (ops: seq<LenOp>)
    requires ReadsBack(cl, read, data) && |acc| <= total && LengthsAt(read, data, p, total, acc).Some?
    ensures AreLenOps(cl, ops)
    ensures var (r, end) := LengthsAt(read, data, p, total, acc).value;
      && ExtendAll(acc, ops) == Some(r) && |r| == total
      && Spells(data, p, EncodeLenOps(cl, ops)) && end == p + |EncodeLenOps(cl, ops)|
    decreases total - |acc|
  {
    if |acc| == total {
      ops := [];
    } else {
      var (op, end) := LenOpAt(read, data, p).value;
      var rest := LengthsAreEncoding(cl, read, data, end, total, Extend(acc, op).value);
      ops := [op] + rest;
      assert ops[1..] == rest;
      LenOpIsOp(cl, read, data, p);
      LenOpDecodes(cl, read, data, p, op);
      SpellsConcat(data, p, EncodeLenOp(cl, op), EncodeLenOps(cl, rest));
    }
  }

  lemma {:induction false} LengthsBounded(cl: Codes, acc: seq<nat>, ops: seq<LenOp>)
    requires AreLenOps(cl, ops) && IsLengths(acc)
    ensures ExtendAll(acc, ops).Some? ==> IsLengths(ExtendAll(acc, ops).value)
    decreases |ops|
  {
    if ops != [] && Extend(acc, ops[0]).Some? {
      LengthsBounded(cl, Extend(acc, ops[0]).value, ops[1..]);
    }
  }

  // ----- What the operations are -----

  /** A length is below 16, the last one comes 3 to 6 times more with two extra bits, and there are
      3 to 10 zeros with three or 11 to 138 with seven. */
  lemma OpRanges(cl: Codes, op: LenOp)
    ensures IsLenOp(cl, op) <==>
      match op
      case Len(v) => v < 16 && cl(v).Some?
      case Repeat(n) => 3 <= n <= 6 && cl(16).Some?
      case Zeros(n) => 3 <= n <= 10 && cl(17).Some?
      case ManyZeros(n) => 11 <= n <= 138 && cl(18).Some?
  {
    Pow2Values();
  }

  /** The list goes on with n equal lengths. */
  ghost predicate Continues(acc: seq<nat>, next: Option<seq<nat>>, n: nat, v: nat) {
    && next.Some? && |next.value| == |acc| + n && acc <= next.value
    && forall i :: |acc| <= i < |acc| + n ==> next.value[i] == v
  }

  lemma OpExtends(acc: seq<nat>, op: LenOp)
    ensures match op
      case Len(v) => Extend(acc, op) == Some(acc + [v])
      case Repeat(n) =>
        && (acc == [] ==> Extend(acc, op) == None)
        && (acc != [] ==> Continues(acc, Extend(acc, op), n, acc[|acc| - 1]))
      case _ => Continues(acc, Extend(acc, op), op.n, 0)
  {
  }
}
