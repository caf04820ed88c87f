/** The folds of constants, as they are computed on host integers, and the values they come to.

    Words are kept in host integers that are wider than they are: complements and left shifts set bits above
    the word, additions and subtractions wrap at the host width, and a sign is the word's top bit under a mask. */
module ConstantFolds {
  import opened Words
  import opened WordLaws

  const HOST_BITS: nat := 128

  /** The width of the host integers; a word that does not fit them is not cut off. */
  function HostWidth(w: nat): (h: nat)
    ensures w <= h
  {
    if w <= HOST_BITS then HOST_BITS else w
  }

  function SignBit(w: nat): nat
    requires w > 0
  {
    Pow2(w - 1)
  }

  /** Whether the sign bit of the word is set in a host integer. */
  predicate HasSign(v: nat, w: nat, h: nat)
    requires 0 < w <= h
  {
    Bitwise(LogicAnd, v, SignBit(w), h) != 0
  }

  /** Sign-extends a word across the host integer. */
  function HostSignExtend(v: nat, w: nat, h: nat): (r: nat)
    requires 0 < w <= h && v < Pow2(w)
    ensures r < Pow2(h)
  {
    Pow2Mono(w, h);
    if HasSign(v, w, h) then Bitwise(LogicOr, v, NotVal(Mask(w), h), h) else v
  }

  function HostSigned(v: nat, w: nat, h: nat): int
    requires 0 < w <= h && v < Pow2(w)
  {
    Signed(HostSignExtend(v, w, h), h)
  }

  /** Sign extension of a constant: fills the new high bits with ones. */
  function SignFill(v: nat, from: nat, to: nat): nat
    requires 0 < from <= to && v < Pow2(from)
  {
    if !Bit(v, from - 1) then v else Bitwise(LogicOr, v, Bitwise(LogicXor, Mask(to), Mask(from), to), to)
  }

  // ----- shifts, rotations and comparisons -----

  function FoldShiftLeft(v: nat, amount: nat, w: nat, h: nat): nat
  {
    if amount >= w then 0 else (v * Pow2(amount)) % Pow2(h)
  }

  function FoldShiftRight(v: nat, amount: nat, w: nat): nat
  {
    if amount >= w then 0 else ShiftDownBit(v, amount, 0); v / Pow2(amount)
  }

  function FoldArithmeticShift(v: nat, amount: nat, w: nat, h: nat): nat
    requires 0 < w <= h && v < Pow2(w)
  {
    if amount >= w then (if HasSign(v, w, h) then Mask(w) else 0)
    else (HostSigned(v, w, h) / Pow2(amount)) % Pow2(h)
  }

  function FoldRotate(v: nat, amount: nat, w: nat, h: nat): nat
    requires 0 < w <= h
  {
    var shift := amount % w;
    ShiftDownBit(v, shift, 0);
    if shift == 0 then v else Bitwise(LogicOr, v / Pow2(shift), (v * Pow2(w - shift)) % Pow2(h), h)
  }

  /** A folded operator on words, cut to the width of its result. */
  function FoldBin(op: BinOp, a: nat, b: nat, w: nat): nat
    requires w > 0 && a < Pow2(w) && b < Pow2(w)
  {
    var h := HostWidth(w);
    match op
    case Sub => ((a - b) % Pow2(h)) % Pow2(w)
    case ShiftLeft => FoldShiftLeft(a, b, w, h) % Pow2(w)
    case LogicalShiftRight => FoldShiftRight(a, b, w) % Pow2(w)
    case ArithmeticShiftRight => FoldArithmeticShift(a, b, w, h) % Pow2(w)
    case RotateRight => FoldRotate(a, b, w, h) % Pow2(w)
    case SignedLessThan => BoolVal(HostSigned(a, w, h) < HostSigned(b, w, h))
    case _ => BinVal(op, a, b, w)
  }

  // ----- flags -----

  /** A sum exceeds the word, or wraps in one of its two steps if the word fills the host integer. */
  predicate FoldAddCarry(l: nat, r: nat, c: nat, w: nat, h: nat)
  {
    if w == h then l + r >= Pow2(h) || (l + r) % Pow2(h) + c >= Pow2(h) else l + r + c > Mask(w)
  }

  /** Neither of the two subtractions borrows. */
  predicate FoldSubCarry(l: nat, r: nat, c: nat, h: nat)
  {
    !(l < r || (l - r) % Pow2(h) < c)
  }

  /** A host sum or difference of two steps, cut to the word. */
  function HostSum(x: int, y: int, w: nat, h: nat): (r: nat)
  {
    ((x % Pow2(h) + y) % Pow2(h)) % Pow2(w)
  }

  /** The operands have one sign and the result the other, read off the sign bit. */
  predicate FoldAddOverflow(l: nat, r: nat, c: nat, w: nat, h: nat)
    requires 0 < w <= h
  {
    var result := HostSum(l + r, c, w, h);
    HasSign(Bitwise(LogicAnd, NotVal(Bitwise(LogicXor, l, r, h), h), Bitwise(LogicXor, l, result, h), h), w, h)
  }

  predicate FoldSubOverflow(l: nat, r: nat, c: nat, w: nat, h: nat)
    requires 0 < w <= h
  {
    var result := HostSum(l - r, 0 - c, w, h);
    HasSign(Bitwise(LogicAnd, Bitwise(LogicXor, l, r, h), Bitwise(LogicXor, l, result, h), h), w, h)
  }

  predicate FoldFlag(flag: FlagOp, l: nat, r: nat, c: nat, w: nat)
    requires w > 0
  {
    var h := HostWidth(w);
    match flag
    case AddCarryOut => FoldAddCarry(l, r, c, w, h)
    case AddOverflow => FoldAddOverflow(l, r, c, w, h)
    case SubCarryOut => FoldSubCarry(l, r, c, h)
    case SubOverflow => FoldSubOverflow(l, r, c, w, h)
  }

  // ----- host arithmetic and words -----

  /** Reducing to the host width first does not change the word. */
  lemma ReduceTwice(x: int, w: nat, h: nat)
    requires w <= h
    ensures (x % Pow2(h)) % Pow2(w) == x % Pow2(w)
  {
    Pow2Add(h - w, w);
    var q := x / Pow2(h);
    FactorOut(q, Pow2(h - w), Pow2(w));
    assert x == q * Pow2(h) + x % Pow2(h);
    ModShift(x % Pow2(h), q * Pow2(h - w), Pow2(w));
  }

  lemma FactorOut(q: int, m: int, p: int)
    ensures q * (m * p) == (q * m) * p
  {
  }

  lemma HasSignIsBit(v: nat, w: nat, h: nat)
    requires 0 < w <= h
    ensures HasSign(v, w, h) <==> Bit(v, w - 1)
  {
    var x := Bitwise(LogicAnd, v, SignBit(w), h);
    BitwiseBit(LogicAnd, v, SignBit(w), h, w - 1);
    PowerBit(w - 1, w - 1);
    ZeroBit(w - 1);
    if !Bit(v, w - 1) {
      forall i: nat | i < h ensures Bit(x, i) == Bit(0, i) {
        BitwiseBit(LogicAnd, v, SignBit(w), h, i);
        PowerBit(w - 1, i);
        ZeroBit(i);
      }
      BitExtensionality(x, 0, h);
    }
  }

  lemma HalfMask(w: nat)
    requires w > 0
    ensures Mask(w) / 2 == Mask(w - 1) && Mask(w) % 2 == 1
  {
  }

  lemma {:induction false} MaskDifference(to: nat, from: nat)
    requires from <= to
    ensures Bitwise(LogicXor, Mask(to), Mask(from), to) == Mask(to - from) * Pow2(from)
    decreases from
  {
    if from == 0 {
      BitwiseUnit(LogicXor, Mask(to), to);
    } else {
      MaskDifference(to - 1, from - 1);
      HalfMask(to);
      HalfMask(from);
      assert Bitwise(LogicXor, Mask(to), Mask(from), to) == 2 * Bitwise(LogicXor, Mask(to - 1), Mask(from - 1), to - 1);
      DoubleLast(Mask(to - from), Pow2(from - 1), Pow2(from));
    }
  }

  lemma DoubleLast(m: int, p: int, q: int)
    requires q == 2 * p
    ensures 2 * (m * p) == m * q
  {
  }

  /** Filling the high bits with ones is sign extension. */
  lemma SignFillMeaning(v: nat, from: nat, to: nat)
    requires 0 < from <= to && v < Pow2(from)
    ensures SignFill(v, from, to) == ExtendVal(SignExtend, v, from, to)
  {
    Pow2Mono(from, to);
    if Bit(v, from - 1) {
      var high := Mask(to - from);
      MaskDifference(to, from);
      Pow2Add(to - from, from);
      OneLess(Pow2(to - from), Pow2(from));
      BitwiseCommutes(LogicOr, v, high * Pow2(from), to);
      JoinIsSum(high, v, from, to);
      ModUnique(v - Pow2(from), -1, v - Pow2(from) + Pow2(to), Pow2(to));
    } else {
      SmallMod(v, Pow2(to));
    }
  }

  /** The ones above a word are the difference of two masks. */
  lemma HighOnes(w: nat, h: nat)
    requires w <= h
    ensures Mask(w) < Pow2(h) && NotVal(Mask(w), h) == Bitwise(LogicXor, Mask(h), Mask(w), h)
  {
    hide Pow2, Bitwise;
    Pow2Mono(w, h);
    MaskDifference(h, w);
    var m, p, q := Pow2(h - w), Pow2(w), Pow2(h);
    assert q == m * p by { Pow2Add(h - w, w); }
    assert Mask(h - w) * p == m * p - p by { OneLess(m, p); }
  }

  /** Sign extension across the host integer is sign extension of the word. */
  lemma HostSignExtendMeaning(v: nat, w: nat, h: nat)
    requires 0 < w <= h && v < Pow2(w)
    ensures HostSignExtend(v, w, h) == ExtendVal(SignExtend, v, w, h) && HostSigned(v, w, h) == Signed(v, w)
  {
    HasSignIsBit(v, w, h);
    HighOnes(w, h);
    SignFillMeaning(v, w, h);
    SignedOfExtended(v, w, h);
  }

  lemma ShiftFolds(a: nat, b: nat, w: nat, h: nat)
    requires 0 < w <= h && a < Pow2(w)
    ensures FoldShiftLeft(a, b, w, h) % Pow2(w) == ShiftLeftVal(a, b, w)
    ensures FoldShiftRight(a, b, w) % Pow2(w) == LogicalShiftRightVal(a, b, w)
    ensures FoldArithmeticShift(a, b, w, h) % Pow2(w) == ArithmeticShiftRightVal(a, b, w)
  {
    HasSignIsBit(a, w, h);
    HostSignExtendMeaning(a, w, h);
    SmallMod(0, Pow2(w));
    SmallMod(Mask(w), Pow2(w));
    ReduceTwice(a * Pow2(b), w, h);
    ReduceTwice(Signed(a, w) / Pow2(b), w, h);
  }

  /** Bits shifted out of the word on the left do not come back. */
  lemma RotateFold(a: nat, b: nat, w: nat, h: nat)
    requires 0 < w <= h && a < Pow2(w)
    ensures FoldRotate(a, b, w, h) % Pow2(w) == RotateRightVal(a, b, w)
  {
    var k := b % w;
    SmallMod(a, Pow2(w));
    if k > 0 {
      ProductNat(a, Pow2(w - k));
      ShiftDownBit(a, k, 0);
      var low, high: nat := a / Pow2(k), a * Pow2(w - k);
      JoinedRotation(low, high, w, h);
    }
  }

  lemma JoinedRotation(low: nat, high: nat, w: nat, h: nat)
    requires w <= h
    ensures Bitwise(LogicOr, low, high % Pow2(h), h) % Pow2(w) == Bitwise(LogicOr, low, high, w)
  {
    var host := Bitwise(LogicOr, low, high % Pow2(h), h);
    forall i: nat | i < w ensures Bit(host % Pow2(w), i) == Bit(Bitwise(LogicOr, low, high, w), i) {
      TruncateBit(host, w, i);
      TruncateBit(high, h, i);
      BitwiseBit(LogicOr, low, high % Pow2(h), h, i);
      BitwiseBit(LogicOr, low, high, w, i);
    }
    BitExtensionality(host % Pow2(w), Bitwise(LogicOr, low, high, w), w);
  }

  /** Folding an operator on host integers gives the operator's value. */
  lemma FoldBinIsBinVal(op: BinOp, a: nat, b: nat, w: nat)
    requires w > 0 && a < Pow2(w) && b < Pow2(w)
    ensures FoldBin(op, a, b, w) == BinVal(op, a, b, w)
  {
    var h := HostWidth(w);
    match op
    case Sub => ReduceTwice(a - b, w, h);
    case ShiftLeft => ShiftFolds(a, b, w, h);
    case LogicalShiftRight => ShiftFolds(a, b, w, h);
    case ArithmeticShiftRight => ShiftFolds(a, b, w, h);
    case RotateRight => RotateFold(a, b, w, h);
    case SignedLessThan =>
      HostSignExtendMeaning(a, w, h);
      HostSignExtendMeaning(b, w, h);
    case _ =>
  }

  lemma AddCarryFold(l: nat, r: nat, c: nat, w: nat, h: nat)
    requires 0 < w <= h && l < Pow2(w) && r < Pow2(w) && c < 2
    ensures FoldAddCarry(l, r, c, w, h) <==> FlagVal(AddCarryOut, l, r, c, w)
  {
    if l + r < Pow2(h) { SmallMod(l + r, Pow2(h)); }
  }

  lemma SubCarryFold(l: nat, r: nat, c: nat, w: nat, h: nat)
    requires 0 < w <= h && l < Pow2(w) && r < Pow2(w) && c < 2
    ensures FoldSubCarry(l, r, c, h) <==> FlagVal(SubCarryOut, l, r, c, w)
  {
    Pow2Mono(w, h);
    if l >= r {
      SmallMod(l - r, Pow2(h));
      SmallMod(l - r, Pow2(w));
    }
  }

  /** The result of two wrapping steps is the word of the sum. */
  lemma TwoSteps(x: int, y: int, w: nat, h: nat)
    requires w <= h
    ensures HostSum(x, y, w, h) == (x + y) % Pow2(w)
  {
    ReduceTwice(x % Pow2(h) + y, w, h);
    ModAdd(y, x % Pow2(h), Pow2(w));
    ReduceTwice(x, w, h);
    ModAdd(y, x, Pow2(w));
  }

  lemma OverflowBits(l: nat, r: nat, result: nat, w: nat, h: nat)
    requires 0 < w <= h
    ensures HasSign(Bitwise(LogicAnd, NotVal(Bitwise(LogicXor, l, r, h), h), Bitwise(LogicXor, l, result, h), h), w, h)
            <==> Negative(l, w) == Negative(r, w) && Negative(l, w) != Negative(result, w)
    ensures HasSign(Bitwise(LogicAnd, Bitwise(LogicXor, l, r, h), Bitwise(LogicXor, l, result, h), h), w, h)
            <==> Negative(l, w) != Negative(r, w) && Negative(l, w) != Negative(result, w)
  {
    var x, y := Bitwise(LogicXor, l, r, h), Bitwise(LogicXor, l, result, h);
    BitwiseBit(LogicXor, l, r, h, w - 1);
    BitwiseBit(LogicXor, l, result, h, w - 1);
    NotBit(x, h, w - 1);
    BitwiseBit(LogicAnd, NotVal(x, h), y, h, w - 1);
    BitwiseBit(LogicAnd, x, y, h, w - 1);
    HasSignIsBit(Bitwise(LogicAnd, NotVal(x, h), y, h), w, h);
    HasSignIsBit(Bitwise(LogicAnd, x, y, h), w, h);
  }

  lemma AddOverflowFold(l: nat, r: nat, c: nat, w: nat, h: nat)
    requires 0 < w <= h && l < Pow2(w) && r < Pow2(w) && c < 2
    ensures FoldAddOverflow(l, r, c, w, h) <==> FlagVal(AddOverflow, l, r, c, w)
  {
    hide HostSum, Bitwise, NotVal, HasSign, Negative;
    TwoSteps(l + r, c, w, h);
    OverflowBits(l, r, HostSum(l + r, c, w, h), w, h);
  }

  lemma SubOverflowFold(l: nat, r: nat, c: nat, w: nat, h: nat)
    requires 0 < w <= h && l < Pow2(w) && r < Pow2(w) && c < 2
    ensures FoldSubOverflow(l, r, c, w, h) <==> FlagVal(SubOverflow, l, r, c, w)
  {
    hide HostSum, Bitwise, NotVal, HasSign, Negative;
    TwoSteps(l - r, 0 - c, w, h);
    OverflowBits(l, r, HostSum(l - r, 0 - c, w, h), w, h);
  }

  /** Folding a flag on host integers gives the flag. */
  lemma FoldFlagIsFlagVal(flag: FlagOp, l: nat, r: nat, c: nat, w: nat)
    requires w > 0 && l < Pow2(w) && r < Pow2(w) && c < 2
    ensures FoldFlag(flag, l, r, c, w) <==> FlagVal(flag, l, r, c, w)
  {
    var h := HostWidth(w);
    match flag
    case AddCarryOut => AddCarryFold(l, r, c, w, h);
    case AddOverflow => AddOverflowFold(l, r, c, w, h);
    case SubCarryOut => SubCarryFold(l, r, c, w, h);
    case SubOverflow => SubOverflowFold(l, r, c, w, h);
  }
}
