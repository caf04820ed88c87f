/** Algebraic laws of the word operations used by the canonicalizer. */
module WordLaws {
  import opened Words

  predicate Fits(v: nat, w: nat) { v < Pow2(w) }

  // ----- bitwise laws -----

  lemma BitwiseBits(op: LogicOp, a: nat, b: nat, w: nat)
    ensures forall i: nat :: i < w ==> Bit(Bitwise(op, a, b, w), i) == Logic(op, Bit(a, i), Bit(b, i))
  {
    forall i: nat | i < w { BitwiseBit(op, a, b, w, i); }
  }

  lemma NotBits(v: nat, w: nat)
    requires Fits(v, w)
    ensures forall i: nat :: i < w ==> Bit(NotVal(v, w), i) == !Bit(v, i)
  {
    forall i: nat | i < w { NotBit(v, w, i); }
  }

  lemma MaskBits(w: nat)
    ensures forall i: nat :: i < w ==> Bit(Mask(w), i)
  {
    forall i: nat | i < w { MaskBit(w, i); }
  }

  lemma ZeroBits(w: nat)
    ensures forall i: nat :: i < w ==> !Bit(0, i)
  {
    forall i: nat | i < w { ZeroBit(i); }
  }

  lemma BitwiseCommutes(op: LogicOp, a: nat, b: nat, w: nat)
    ensures Bitwise(op, a, b, w) == Bitwise(op, b, a, w)
  {
    BitwiseBits(op, a, b, w);
    BitwiseBits(op, b, a, w);
    BitExtensionality(Bitwise(op, a, b, w), Bitwise(op, b, a, w), w);
  }

  lemma BitwiseAssociates(op: LogicOp, a: nat, b: nat, c: nat, w: nat)
    ensures Bitwise(op, Bitwise(op, a, b, w), c, w) == Bitwise(op, a, Bitwise(op, b, c, w), w)
  {
    var ab, bc := Bitwise(op, a, b, w), Bitwise(op, b, c, w);
    BitwiseBits(op, a, b, w);
    BitwiseBits(op, b, c, w);
    BitwiseBits(op, ab, c, w);
    BitwiseBits(op, a, bc, w);
    BitExtensionality(Bitwise(op, ab, c, w), Bitwise(op, a, bc, w), w);
  }

  lemma BitwiseUnit(op: LogicOp, a: nat, w: nat)
    requires Fits(a, w)
    ensures Bitwise(op, a, if op == LogicAnd then Mask(w) else 0, w) == a
  {
    var unit := if op == LogicAnd then Mask(w) else 0;
    MaskBits(w);
    ZeroBits(w);
    BitwiseBits(op, a, unit, w);
    BitExtensionality(Bitwise(op, a, unit, w), a, w);
  }

  lemma BitwiseAnnihilates(a: nat, w: nat)
    ensures Bitwise(LogicAnd, a, 0, w) == 0 && Bitwise(LogicOr, a, Mask(w), w) == Mask(w)
  {
    MaskBits(w);
    ZeroBits(w);
    BitwiseBits(LogicAnd, a, 0, w);
    BitwiseBits(LogicOr, a, Mask(w), w);
    BitExtensionality(Bitwise(LogicAnd, a, 0, w), 0, w);
    BitExtensionality(Bitwise(LogicOr, a, Mask(w), w), Mask(w), w);
  }

  lemma BitwiseRepeats(op: LogicOp, a: nat, w: nat)
    requires Fits(a, w)
    ensures Bitwise(op, a, a, w) == if op == LogicXor then 0 else a
  {
    ZeroBits(w);
    BitwiseBits(op, a, a, w);
    BitExtensionality(Bitwise(op, a, a, w), if op == LogicXor then 0 else a, w);
  }

  lemma Complement(a: nat, w: nat)
    requires Fits(a, w)
    ensures Bitwise(LogicAnd, a, NotVal(a, w), w) == 0
    ensures Bitwise(LogicOr, a, NotVal(a, w), w) == Mask(w)
  {
    var n := NotVal(a, w);
    NotBits(a, w);
    MaskBits(w);
    ZeroBits(w);
    BitwiseBits(LogicAnd, a, n, w);
    BitwiseBits(LogicOr, a, n, w);
    BitExtensionality(Bitwise(LogicAnd, a, n, w), 0, w);
    BitExtensionality(Bitwise(LogicOr, a, n, w), Mask(w), w);
  }

  lemma DeMorgan(a: nat, b: nat, w: nat)
    requires Fits(a, w) && Fits(b, w)
    ensures Bitwise(LogicOr, a, b, w) == NotVal(Bitwise(LogicAnd, NotVal(a, w), NotVal(b, w), w), w)
  {
    var m := Bitwise(LogicAnd, NotVal(a, w), NotVal(b, w), w);
    NotBits(a, w);
    NotBits(b, w);
    BitwiseBits(LogicAnd, NotVal(a, w), NotVal(b, w), w);
    NotBits(m, w);
    BitwiseBits(LogicOr, a, b, w);
    BitExtensionality(Bitwise(LogicOr, a, b, w), NotVal(m, w), w);
  }

  lemma XorExpansion(a: nat, b: nat, w: nat)
    requires Fits(a, w) && Fits(b, w)
    ensures Bitwise(LogicXor, a, b, w) ==
            Bitwise(LogicOr, Bitwise(LogicAnd, a, NotVal(b, w), w), Bitwise(LogicAnd, NotVal(a, w), b, w), w)
  {
    var l, r := Bitwise(LogicAnd, a, NotVal(b, w), w), Bitwise(LogicAnd, NotVal(a, w), b, w);
    NotBits(a, w);
    NotBits(b, w);
    BitwiseBits(LogicAnd, a, NotVal(b, w), w);
    BitwiseBits(LogicAnd, NotVal(a, w), b, w);
    BitwiseBits(LogicOr, l, r, w);
    BitwiseBits(LogicXor, a, b, w);
    BitExtensionality(Bitwise(LogicXor, a, b, w), Bitwise(LogicOr, l, r, w), w);
  }

  /** Sign-extending one bit gives a mask, and masking selects an arm. */
  lemma SelectByMask(c: nat, t: nat, f: nat, w: nat)
    requires w > 0 && c < 2 && Fits(t, w) && Fits(f, w)
    ensures Pow2(1) == 2
    ensures var m := ExtendVal(SignExtend, c, 1, w);
      NotVal(Bitwise(LogicAnd, NotVal(Bitwise(LogicAnd, NotVal(m, w), f, w), w),
                               NotVal(Bitwise(LogicAnd, m, t, w), w), w), w) == if c == 1 then t else f
  {
    hide Bitwise, NotVal;
    assert Pow2(1) == 2 * Pow2(0);
    var m := ExtendVal(SignExtend, c, 1, w);
    assert m == if c == 1 then Mask(w) else 0 by {
      if c == 1 { ModUnique(-1, -1, Mask(w), Pow2(w)); } else { SmallMod(0, Pow2(w)); }
    }
    var x := Bitwise(LogicAnd, NotVal(m, w), f, w);
    var y := Bitwise(LogicAnd, m, t, w);
    MaskBits(w);
    ZeroBits(w);
    NotBits(m, w);
    BitwiseBits(LogicAnd, NotVal(m, w), f, w);
    BitwiseBits(LogicAnd, m, t, w);
    NotBits(x, w);
    NotBits(y, w);
    var z := Bitwise(LogicAnd, NotVal(x, w), NotVal(y, w), w);
    BitwiseBits(LogicAnd, NotVal(x, w), NotVal(y, w), w);
    NotBits(z, w);
    BitExtensionality(NotVal(z, w), if c == 1 then t else f, w);
  }

  // ----- associative-commutative operators, uniformly -----

  function Unit(op: BinOp, w: nat): (u: nat)
    requires w > 0
    ensures u < Pow2(w)
  {
    match op
    case Mul => 1
    case And => Mask(w)
    case _ => 0
  }

  lemma Commutes(op: BinOp, a: nat, b: nat, w: nat)
    requires IsAssocComm(op) && w > 0 && Fits(a, w) && Fits(b, w)
    ensures BinVal(op, a, b, w) == BinVal(op, b, a, w)
  {
    match op
    case And => BitwiseCommutes(LogicAnd, a, b, w);
    case Or => BitwiseCommutes(LogicOr, a, b, w);
    case Xor => BitwiseCommutes(LogicXor, a, b, w);
    case Mul => assert a * b == b * a;
    case Add =>
  }

  lemma Associates(op: BinOp, a: nat, b: nat, c: nat, w: nat)
    requires IsAssocComm(op) && w > 0 && Fits(a, w) && Fits(b, w) && Fits(c, w)
    ensures BinVal(op, BinVal(op, a, b, w), c, w) == BinVal(op, a, BinVal(op, b, c, w), w)
  {
    match op
    case And => BitwiseAssociates(LogicAnd, a, b, c, w);
    case Or => BitwiseAssociates(LogicOr, a, b, c, w);
    case Xor => BitwiseAssociates(LogicXor, a, b, c, w);
    case Add => ModAdd(c, a + b, Pow2(w)); ModAdd(a, b + c, Pow2(w));
    case Mul => MulModAssociates(a, b, c, Pow2(w));
  }

  lemma MulModAssociates(a: nat, b: nat, c: nat, p: nat)
    requires p > 0
    ensures (((a * b) % p) * c) % p == (a * ((b * c) % p)) % p
  {
    var ab, bc := a * b, b * c;
    calc {
      ((ab % p) * c) % p;
      { assert (ab % p) * c == c * (ab % p); }
      (c * (ab % p)) % p;
      { ModMul(c, ab, p); }
      (c * ab) % p;
      { assert c * ab == a * bc; }
      (a * bc) % p;
      { ModMul(a, bc, p); }
      (a * (bc % p)) % p;
    }
  }

  lemma UnitLaw(op: BinOp, a: nat, w: nat)
    requires IsAssocComm(op) && w > 0 && Fits(a, w)
    ensures BinVal(op, a, Unit(op, w), w) == a
  {
    match op
    case And => BitwiseUnit(LogicAnd, a, w);
    case Or => BitwiseUnit(LogicOr, a, w);
    case Xor => BitwiseUnit(LogicXor, a, w);
    case Add => SmallMod(a, Pow2(w));
    case Mul => SmallMod(a, Pow2(w));
  }

  // ----- arithmetic identities -----

  /** `a - b == (a + !b) + 1`. */
  lemma SubAsAdd(a: nat, b: nat, w: nat)
    requires w > 0 && Fits(a, w) && Fits(b, w)
    ensures (a - b) % Pow2(w) == ((a + NotVal(b, w)) % Pow2(w) + 1) % Pow2(w)
  {
    var p := Pow2(w);
    ModAdd(1, a + NotVal(b, w), p);
    ModShift(a - b, 1, p);
  }

  lemma NotValNegative(v: nat, w: nat)
    requires w > 0 && Fits(v, w)
    ensures Negative(NotVal(v, w), w) == !Negative(v, w)
  {
    NotBit(v, w, w - 1);
  }

  /** The carry and overflow of a subtraction are those of adding the complements. */
  lemma SubFlagsAsAddFlags(a: nat, b: nat, c: nat, w: nat)
    requires w > 0 && Fits(a, w) && Fits(b, w) && c < 2
    ensures FlagVal(SubCarryOut, a, b, c, w) == FlagVal(AddCarryOut, a, NotVal(b, w), 1 - c, w)
    ensures FlagVal(SubOverflow, a, b, c, w) == FlagVal(AddOverflow, a, NotVal(b, w), 1 - c, w)
  {
    var p := Pow2(w);
    NotValNegative(b, w);
    ModShift(a - b - c, 1, p);
    assert a + NotVal(b, w) + (1 - c) == (a - b - c) + 1 * p;
    if a >= b { SmallMod(a - b, p); } else { ModUnique(a - b, -1, a - b + p, p); }
  }

  lemma ExtendAgain(kind: ExtendOp, v: nat, from: nat, mid: nat, to: nat)
    requires 0 < from <= mid <= to && Fits(v, from)
    ensures ExtendVal(kind, ExtendVal(kind, v, from, mid), mid, to) == ExtendVal(kind, v, from, to)
  {
    if kind == SignExtend {
      SignedOfExtended(v, from, mid);
    }
  }

  lemma SignedOfExtended(v: nat, from: nat, to: nat)
    requires 0 < from <= to && Fits(v, from)
    ensures Signed(ExtendVal(SignExtend, v, from, to), to) == Signed(v, from)
  {
    var x, p := Signed(v, from), Pow2(to);
    SignedRange(v, from);
    Pow2Mono(from, to);
    Pow2Mono(from - 1, to - 1);
    var y := x % p;
    if x >= 0 { SmallMod(x, p); } else { ModUnique(x, -1, x + p, p); }
    TopBit(v, from);
    TopBit(y, to);
  }

  lemma ExtendToSameWidth(kind: ExtendOp, v: nat, w: nat)
    requires w > 0 && Fits(v, w)
    ensures ExtendVal(kind, v, w, w) == v
  {
    SignedRange(v, w);
  }

  /** Joining a chunk below another is shifting and adding. */
  lemma JoinIsSum(high: nat, low: nat, lowWidth: nat, width: nat)
    requires Fits(low, lowWidth) && lowWidth <= width
    requires high * Pow2(lowWidth) < Pow2(width)
    ensures Bitwise(LogicOr, high * Pow2(lowWidth), low, width) == high * Pow2(lowWidth) + low
    decreases lowWidth
  {
    var h := high * Pow2(lowWidth);
    if lowWidth == 0 {
      BitwiseUnit(LogicOr, h, width);
    } else {
      var h' := high * Pow2(lowWidth - 1);
      assert h == 2 * h' by { assert high * (2 * Pow2(lowWidth - 1)) == 2 * (high * Pow2(lowWidth - 1)); }
      JoinIsSum(high, low / 2, lowWidth - 1, width - 1);
      assert Bitwise(LogicOr, h / 2, low / 2, width - 1) == h' + low / 2;
    }
  }

  lemma JoinFits(high: nat, highWidth: nat, lowWidth: nat)
    requires Fits(high, highWidth)
    ensures high * Pow2(lowWidth) + Pow2(lowWidth) <= Pow2(highWidth + lowWidth)
  {
    Pow2Add(highWidth, lowWidth);
    var p := Pow2(lowWidth);
    assert (high + 1) * p == high * p + p;
    assert (high + 1) * p <= Pow2(highWidth) * p by { MulMono(high + 1, Pow2(highWidth), p); }
  }

  lemma ProductNat(a: nat, b: nat)
    ensures a * b >= 0
  {
  }

  /** A word placed above another, in either order of the operands. */
  lemma JoinWords(high: nat, highWidth: nat, low: nat, lowWidth: nat, raised: nat)
    requires Fits(high, highWidth) && Fits(low, lowWidth) && raised == high * Pow2(lowWidth)
    ensures Bitwise(LogicOr, raised, low, highWidth + lowWidth) == raised + low
    ensures Bitwise(LogicOr, low, raised, highWidth + lowWidth) == raised + low
  {
    JoinFits(high, highWidth, lowWidth);
    JoinIsSum(high, low, lowWidth, highWidth + lowWidth);
    BitwiseCommutes(LogicOr, low, raised, highWidth + lowWidth);
  }

  lemma MulMono(a: nat, b: nat, p: nat)
    requires a <= b
    ensures a * p <= b * p
  {
    assert b * p == a * p + (b - a) * p;
  }
}
