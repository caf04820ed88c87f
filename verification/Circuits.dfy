/** Arithmetic, comparison and reshaping circuits over words of Boolean functions. */
module Circuits {
  import opened Words
  import opened WordLaws
  import opened BddWords
  import opened Shifters

  // ----- the ripple-carry adder -----

  method FullAdder(x: BddFn, y: BddFn, carryIn: BddFn) returns (sum: BddFn, carryOut: BddFn)
    ensures forall a ::
              BoolVal(sum(a)) + 2 * BoolVal(carryOut(a)) == BoolVal(x(a)) + BoolVal(y(a)) + BoolVal(carryIn(a))
  {
    var differ := XorFn(x, y);
    sum := XorFn(differ, carryIn);
    carryOut := OrFn(AndFn(x, y), AndFn(differ, carryIn));
  }

  /** The invariant of the ripple: sum bits and carry together are the sum of the low parts. */
  ghost predicate Rippled(sum: nat, carry: bool, x: nat, y: nat, carryIn: bool, power: nat)
  {
    sum + (if carry then power else 0) == x + y + BoolVal(carryIn)
  }

  lemma RippleStep(
    sum: nat, carry: bool, x: nat, y: nat, carryIn: bool, power: nat,
    xBit: bool, yBit: bool, sumBit: bool, nextCarry: bool)
    requires Rippled(sum, carry, x, y, carryIn, power)
    requires BoolVal(sumBit) + 2 * BoolVal(nextCarry) == BoolVal(xBit) + BoolVal(yBit) + BoolVal(carry)
    ensures Rippled(sum + (if sumBit then power else 0), nextCarry,
                    x + (if xBit then power else 0), y + (if yBit then power else 0), carryIn, 2 * power)
  {
  }

  method Adder(x: BddWord, y: BddWord, carryIn: BddFn, width: nat) returns (result: BddWord, carry: BddFn)
    requires width <= |x| && width <= |y|
    ensures |result| == width
    ensures forall a ::
              Rippled(Num(result, a), carry(a), Num(x[..width], a), Num(y[..width], a), carryIn(a), Pow2(width))
  {
    result, carry := [], carryIn;
    assert x[..0] == [] && y[..0] == [];
    for bit := 0 to width
      invariant |result| == bit
      invariant forall a :: Rippled(Num(result, a), carry(a), Num(x[..bit], a), Num(y[..bit], a), carryIn(a), Pow2(bit))
    {
      var sum, next := FullAdder(x[bit], y[bit], carry);
      forall a
        ensures Rippled(Num(result + [sum], a), next(a), Num(x[..bit + 1], a), Num(y[..bit + 1], a), carryIn(a),
                        Pow2(bit + 1))
      {
        NumAppend(result, sum, a);
        NumPrefix(x, bit, a);
        NumPrefix(y, bit, a);
        RippleStep(Num(result, a), carry(a), Num(x[..bit], a), Num(y[..bit], a), carryIn(a), Pow2(bit),
                   x[bit](a), y[bit](a), sum(a), next(a));
      }
      result, carry := result + [sum], next;
    }
  }

  lemma RippledIsSum(sum: nat, carry: bool, x: nat, y: nat, carryIn: bool, power: nat)
    requires Rippled(sum, carry, x, y, carryIn, power) && sum < power
    ensures sum == (x + y + BoolVal(carryIn)) % power
    ensures carry <==> x + y + BoolVal(carryIn) >= power
  {
    ModUnique(x + y + BoolVal(carryIn), BoolVal(carry), sum, power);
  }

  method LowerAdd(x: BddWord, y: BddWord) returns (result: BddWord)
    requires |x| == |y|
    ensures |result| == |x|
    ensures forall a :: Num(result, a) == (Num(x, a) + Num(y, a)) % Pow2(|x|)
  {
    var carry;
    result, carry := Adder(x, y, ConstFn(false), |x|);
    assert x[..|x|] == x && y[..|x|] == y;
    forall a ensures Num(result, a) == (Num(x, a) + Num(y, a)) % Pow2(|x|) {
      RippledIsSum(Num(result, a), carry(a), Num(x, a), Num(y, a), false, Pow2(|x|));
    }
  }

  // ----- flags -----

  method LowerCarryOut(x: BddWord, y: BddWord, carryIn: BddWord) returns (result: BddWord)
    requires |x| == |y| > 0 && |carryIn| == 1
    ensures |result| == 1
    ensures forall a :: Num(result, a) == BoolVal(Num(x, a) + Num(y, a) + Num(carryIn, a) > Mask(|x|))
  {
    var sum, carry := Adder(x, y, carryIn[0], |x|);
    assert x[..|x|] == x && y[..|x|] == y;
    result := [carry];
    forall a ensures Num(result, a) == BoolVal(Num(x, a) + Num(y, a) + Num(carryIn, a) > Mask(|x|)) {
      NumOfOne(carryIn, a);
      NumOfOne(result, a);
      RippledIsSum(Num(sum, a), carry(a), Num(x, a), Num(y, a), carryIn[0](a), Pow2(|x|));
    }
  }

  lemma NumOfOne(w: BddWord, a: Assignment)
    requires |w| == 1
    ensures Num(w, a) == BoolVal(w[0](a))
  {
    assert [] + [w[0]] == w;
    NumAppend([], w[0], a);
  }

  method LowerOverflow(x: BddWord, y: BddWord, carryIn: BddWord) returns (result: BddWord)
    requires |x| == |y| > 0 && |carryIn| == 1
    ensures |result| == 1
    ensures forall a :: Num(carryIn, a) < 2
    ensures forall a :: Num(result, a) == BoolVal(FlagVal(AddOverflow, Num(x, a), Num(y, a), Num(carryIn, a), |x|))
  {
    var top := |x| - 1;
    var sum, carry := Adder(x, y, carryIn[0], |x|);
    assert x[..|x|] == x && y[..|x|] == y;
    result := [AndFn(EquivFn(x[top], y[top]), NotFn(EquivFn(x[top], sum[top])))];
    forall a ensures Num(carryIn, a) < 2
      ensures Num(result, a) == BoolVal(FlagVal(AddOverflow, Num(x, a), Num(y, a), Num(carryIn, a), |x|))
    {
      NumOfOne(carryIn, a);
      NumOfOne(result, a);
      RippledIsSum(Num(sum, a), carry(a), Num(x, a), Num(y, a), carryIn[0](a), Pow2(|x|));
      NumBit(x, a, top);
      NumBit(y, a, top);
      NumBit(sum, a, top);
    }
  }

  // ----- multiplication and population count -----

  method MaskWord(condition: BddFn, value: BddWord) returns (result: BddWord)
    ensures |result| == |value|
    ensures forall a :: Num(result, a) == if condition(a) then Num(value, a) else 0
  {
    result := seq(|value|, i requires 0 <= i < |value| => AndFn(value[i], condition));
    forall a ensures Num(result, a) == if condition(a) then Num(value, a) else 0 {
      if condition(a) { assert Bits(result, a) == Bits(value, a); } else { NumOfZeros(result, a); }
    }
  }

  /** The product reduced modulo `p`, by repeated addition. */
  ghost function MulMod(x: nat, y: nat, p: nat): (r: nat)
    requires p > 0
    ensures r < p
  {
    if y == 0 then 0 else (MulMod(x, y - 1, p) + x) % p
  }

  lemma {:induction false} MulModIs(x: nat, y: nat, p: nat)
    requires p > 0
    ensures MulMod(x, y, p) == (x * y) % p
  {
    if y > 0 {
      MulModIs(x, y - 1, p);
      ModAdd(x, x * (y - 1), p);
      assert x * (y - 1) + x == x * y;
    } else {
      SmallMod(0, p);
    }
  }

  lemma {:induction false} MulModAdd(x: nat, y: nat, z: nat, p: nat)
    requires p > 0
    ensures (MulMod(x, y, p) + MulMod(x, z, p)) % p == MulMod(x, y + z, p)
  {
    if z == 0 {
      SmallMod(MulMod(x, y, p), p);
    } else {
      MulModAdd(x, y, z - 1, p);
      assert y + z - 1 == y + (z - 1);
      CarryResidue(MulMod(x, y, p), MulMod(x, z - 1, p), x, p);
    }
  }

  lemma CarryResidue(m: int, n: int, x: int, p: int)
    requires p > 0
    ensures (m + (n + x) % p) % p == ((m + n) % p + x) % p
  {
    ModAdd(m, n + x, p);
    ModAdd(x, m + n, p);
  }

  method ShiftedLeft(value: BddWord, amount: nat) returns (result: BddWord)
    ensures |result| == |value|
    ensures forall a :: Num(result, a) == MulMod(Num(value, a), Pow2(amount), Pow2(|value|))
  {
    result := ShiftLeftConst(value, amount);
    forall a ensures Num(result, a) == MulMod(Num(value, a), Pow2(amount), Pow2(|value|)) {
      ShiftLeftConstNumber(value, amount, result, a);
    }
  }

  lemma ShiftLeftConstNumber(value: BddWord, amount: nat, result: BddWord, a: Assignment)
    requires |result| == |value|
    requires forall i | 0 <= i < |value| :: result[i] == if amount <= i then value[i - amount] else ConstFn(false)
    ensures Num(result, a) == MulMod(Num(value, a), Pow2(amount), Pow2(|value|))
  {
    var v := Num(value, a);
    MulModIs(v, Pow2(amount), Pow2(|value|));
    var r := MulMod(v, Pow2(amount), Pow2(|value|));
    forall i: nat | i < |value| ensures result[i](a) == Bit(r, i) {
      ShiftedProductBit(v, amount, |value|, i);
      if amount <= i { NumBit(value, a, i - amount); }
    }
    NumFromBits(result, a, r);
  }

  lemma ShiftedProductBit(v: nat, amount: nat, w: nat, i: nat)
    requires i < w
    ensures Bit(MulMod(v, Pow2(amount), Pow2(w)), i) == (amount <= i && Bit(v, i - amount))
  {
    MulModIs(v, Pow2(amount), Pow2(w));
    TruncateBit(v * Pow2(amount), w, i);
    ShiftUpBit(v, amount, i);
  }

  /** Adds the multiplicand, moved up to one multiplier bit, where that bit is set. */
  method AddPartialProduct(sum: BddWord, x: BddWord, y: BddWord, k: nat) returns (next: BddWord)
    requires |sum| == |x| && k < |y|
    requires forall a :: Num(sum, a) == MulMod(Num(x, a), Num(y[..k], a), Pow2(|x|))
    ensures |next| == |x|
    ensures forall a :: Num(next, a) == MulMod(Num(x, a), Num(y[..k + 1], a), Pow2(|x|))
  {
    var shifted := ShiftedLeft(x, k);
    var partial := MaskWord(y[k], shifted);
    next := LowerAdd(sum, partial);
    forall a ensures Num(next, a) == MulMod(Num(x, a), Num(y[..k + 1], a), Pow2(|x|)) {
      NumPrefix(y, k, a);
      MulModAdd(Num(x, a), Num(y[..k], a), if y[k](a) then Pow2(k) else 0, Pow2(|x|));
    }
  }

  /** Sums the shifted multiplicand over the set multiplier bits. */
  method LowerMul(x: BddWord, y: BddWord) returns (result: BddWord)
    requires |x| == |y|
    ensures |result| == |x|
    ensures forall a :: Num(result, a) == (Num(x, a) * Num(y, a)) % Pow2(|x|)
  {
    var width := |x|;
    result := seq(width, _ => ConstFn(false));
    assert y[..0] == [];
    forall a ensures Num(result, a) == MulMod(Num(x, a), Num(y[..0], a), Pow2(width)) { NumOfZeros(result, a); }
    for bit := 0 to width
      invariant |result| == width
      invariant forall a :: Num(result, a) == MulMod(Num(x, a), Num(y[..bit], a), Pow2(width))
    {
      result := AddPartialProduct(result, x, y, bit);
    }
    assert y[..width] == y;
    forall a ensures Num(result, a) == (Num(x, a) * Num(y, a)) % Pow2(width) {
      MulModIs(Num(x, a), Num(y, a), Pow2(width));
    }
  }

  /** The set bits among the lowest `k`. */
  function CountLow(b: seq<bool>, k: nat): (n: nat)
    requires k <= |b|
    ensures n <= k
  {
    if k == 0 then 0 else CountLow(b, k - 1) + BoolVal(b[k - 1])
  }

  lemma {:induction false} CountFromFront(b: seq<bool>, k: nat)
    requires 0 < k <= |b|
    ensures CountLow(b, k) == BoolVal(b[0]) + CountLow(b[1..], k - 1)
  {
    if k > 1 { CountFromFront(b, k - 1); }
  }

  lemma {:induction false} CountIsPopulation(b: seq<bool>)
    ensures CountLow(b, |b|) == CountOnesVal(FromBits(b), |b|)
  {
    if b != [] {
      CountFromFront(b, |b|);
      CountIsPopulation(b[1..]);
      assert FromBits(b) / 2 == FromBits(b[1..]);
    }
  }

  method OneBitWord(bit: BddFn, width: nat) returns (result: BddWord)
    requires width > 0
    ensures |result| == width
    ensures forall a :: Num(result, a) == BoolVal(bit(a))
  {
    result := [bit] + seq(width - 1, _ => ConstFn(false));
    forall a ensures Num(result, a) == BoolVal(bit(a)) {
      NumSuffix(result, 0, a);
      assert result[0..] == result;
      NumOfZeros(result[1..], a);
    }
  }

  /** Adds bit `k` to the count of the bits below it. */
  method CountBit(count: BddWord, value: BddWord, k: nat) returns (next: BddWord)
    requires k < |value| == |count|
    requires forall a :: Num(count, a) == CountLow(Bits(value, a), k)
    ensures |next| == |value|
    ensures forall a :: Num(next, a) == CountLow(Bits(value, a), k + 1)
  {
    var bit := OneBitWord(value[k], |value|);
    next := LowerAdd(count, bit);
    forall a ensures Num(next, a) == CountLow(Bits(value, a), k + 1) {
      WidthBelowPow2(|value|);
      assert Bits(value, a)[k] == value[k](a);
      SmallMod(CountLow(Bits(value, a), k + 1), Pow2(|value|));
    }
  }

  /** Adds the bits up in a counter of the word's own width, which never overflows. */
  method LowerCountOnes(value: BddWord) returns (count: BddWord)
    ensures |count| == |value|
    ensures forall a :: Num(count, a) == CountOnesVal(Num(value, a), |value|)
  {
    var width := |value|;
    count := seq(width, _ => ConstFn(false));
    forall a ensures Num(count, a) == 0 { NumOfZeros(count, a); }
    for k := 0 to width
      invariant |count| == width
      invariant forall a :: Num(count, a) == CountLow(Bits(value, a), k)
    {
      count := CountBit(count, value, k);
    }
    forall a ensures Num(count, a) == CountOnesVal(Num(value, a), width) { CountIsPopulation(Bits(value, a)); }
  }

  // ----- bitwise operations and comparisons -----

  method LowerAnd(x: BddWord, y: BddWord) returns (result: BddWord)
    requires |x| == |y|
    ensures |result| == |x|
    ensures forall a :: Num(result, a) == Bitwise(LogicAnd, Num(x, a), Num(y, a), |x|)
  {
    result := seq(|x|, i requires 0 <= i < |x| => AndFn(x[i], y[i]));
    forall a ensures Num(result, a) == Bitwise(LogicAnd, Num(x, a), Num(y, a), |x|) {
      var r := Bitwise(LogicAnd, Num(x, a), Num(y, a), |x|);
      forall i: nat | i < |x| ensures result[i](a) == Bit(r, i) {
        BitwiseBit(LogicAnd, Num(x, a), Num(y, a), |x|, i);
        NumBit(x, a, i);
        NumBit(y, a, i);
      }
      NumFromBits(result, a, r);
    }
  }

  method LowerNot(x: BddWord) returns (result: BddWord)
    ensures |result| == |x|
    ensures forall a :: Num(result, a) == NotVal(Num(x, a), |x|)
  {
    result := seq(|x|, i requires 0 <= i < |x| => NotFn(x[i]));
    forall a ensures Num(result, a) == NotVal(Num(x, a), |x|) {
      var r := NotVal(Num(x, a), |x|);
      forall i: nat | i < |x| ensures result[i](a) == Bit(r, i) {
        NotBit(Num(x, a), |x|, i);
        NumBit(x, a, i);
      }
      NumFromBits(result, a, r);
    }
  }

  method AllTrue(values: seq<BddFn>) returns (result: BddFn)
    ensures forall a :: result(a) <==> forall i | 0 <= i < |values| :: values[i](a)
  {
    result := ConstFn(true);
    for k := 0 to |values|
      invariant forall a :: result(a) <==> forall i | 0 <= i < k :: values[i](a)
    {
      result := AndFn(result, values[k]);
    }
  }

  lemma SameNumber(x: BddWord, y: BddWord, a: Assignment)
    requires |x| == |y|
    ensures Num(x, a) == Num(y, a) <==> forall i | 0 <= i < |x| :: x[i](a) == y[i](a)
  {
    if Num(x, a) == Num(y, a) {
      forall i | 0 <= i < |x| ensures x[i](a) == y[i](a) { NumBit(x, a, i); NumBit(y, a, i); }
    } else {
      assert Bits(x, a) != Bits(y, a);
    }
  }

  method EqualFn(x: BddWord, y: BddWord) returns (result: BddFn)
    requires |x| == |y|
    ensures forall a :: result(a) <==> Num(x, a) == Num(y, a)
  {
    var same := seq(|x|, i requires 0 <= i < |x| => EquivFn(x[i], y[i]));
    result := AllTrue(same);
    forall a ensures result(a) <==> Num(x, a) == Num(y, a) {
      assert forall i | 0 <= i < |x| :: same[i](a) <==> x[i](a) == y[i](a);
      SameNumber(x, y, a);
    }
  }

  method LowerEqual(x: BddWord, y: BddWord) returns (result: BddWord)
    requires |x| == |y|
    ensures |result| == 1
    ensures forall a :: Num(result, a) == BoolVal(Num(x, a) == Num(y, a))
  {
    var same := EqualFn(x, y);
    result := [same];
    forall a ensures Num(result, a) == BoolVal(Num(x, a) == Num(y, a)) { NumOfOne(result, a); }
  }

  /** From the top bit down: whether the bits seen so far are equal, and whether they decide `x < y`. */
  method CompareFrom(x: BddWord, y: BddWord, top: nat, equalAbove: BddFn, lessAbove: BddFn) returns (less: BddFn)
    requires |x| == |y| && top <= |x|
    ensures forall a :: less(a) <==> lessAbove(a) || (equalAbove(a) && Num(x[..top], a) < Num(y[..top], a))
  {
    var equal := equalAbove;
    less := lessAbove;
    var bit := top;
    assert x[..top][..top] == x[..top] && y[..top][..top] == y[..top];
    while bit > 0
      invariant 0 <= bit <= top
      invariant forall a ::
        (less(a) || (equal(a) && Num(x[..bit], a) < Num(y[..bit], a)))
        <==> (lessAbove(a) || (equalAbove(a) && Num(x[..top], a) < Num(y[..top], a)))
    {
      bit := bit - 1;
      var decides := AndFn(AndFn(NotFn(x[bit]), y[bit]), equal);
      forall a ensures equal(a) ==>
        (Num(x[..bit + 1], a) < Num(y[..bit + 1], a)
         <==> decides(a) || (x[bit](a) == y[bit](a) && Num(x[..bit], a) < Num(y[..bit], a)))
      {
        NumPrefix(x, bit, a);
        NumPrefix(y, bit, a);
      }
      less := OrFn(less, decides);
      equal := AndFn(equal, EquivFn(x[bit], y[bit]));
    }
    assert x[..0] == [] && y[..0] == [];
  }

  method LowerUnsignedLess(x: BddWord, y: BddWord) returns (result: BddWord)
    requires |x| == |y|
    ensures |result| == 1
    ensures forall a :: Num(result, a) == BoolVal(Num(x, a) < Num(y, a))
  {
    var less := CompareFrom(x, y, |x|, ConstFn(true), ConstFn(false));
    result := [less];
    assert x[..|x|] == x && y[..|x|] == y;
    forall a ensures Num(result, a) == BoolVal(Num(x, a) < Num(y, a)) { NumOfOne(result, a); }
  }

  /** The signed reading, by its top bit and the bits below. */
  lemma SignedByTop(w: BddWord, a: Assignment)
    requires |w| > 0
    ensures Signed(Num(w, a), |w|) == Num(w[..|w| - 1], a) - if w[|w| - 1](a) then Pow2(|w| - 1) else 0
  {
    NumBit(w, a, |w| - 1);
    NumPrefix(w, |w| - 1, a);
    assert w[..|w|] == w;
  }

  method LowerSignedLess(x: BddWord, y: BddWord) returns (result: BddWord)
    requires |x| == |y| > 0
    ensures |result| == 1
    ensures forall a :: Num(result, a) == BoolVal(Signed(Num(x, a), |x|) < Signed(Num(y, a), |y|))
  {
    var top := |x| - 1;
    var less := CompareFrom(x, y, top, EquivFn(x[top], y[top]), AndFn(x[top], NotFn(y[top])));
    result := [less];
    forall a ensures Num(result, a) == BoolVal(Signed(Num(x, a), |x|) < Signed(Num(y, a), |y|)) {
      NumOfOne(result, a);
      SignedByTop(x, a);
      SignedByTop(y, a);
    }
  }

  // ----- reshaping -----

  method LowerConstant(value: nat, width: nat) returns (result: BddWord)
    ensures |result| == width
    ensures forall a :: Num(result, a) == value % Pow2(width)
  {
    result := seq(width, i requires 0 <= i < width => ConstFn(Bit(value, i)));
    forall a ensures Num(result, a) == value % Pow2(width) {
      forall i: nat | i < width ensures result[i](a) == Bit(value % Pow2(width), i) { TruncateBit(value, width, i); }
      NumFromBits(result, a, value % Pow2(width));
    }
  }

  lemma SliceBit(v: nat, low: nat, width: nat, i: nat)
    requires i < width
    ensures v / Pow2(low) >= 0 && (v / Pow2(low)) % Pow2(width) >= 0
    ensures Bit((v / Pow2(low)) % Pow2(width), i) == Bit(v, i + low)
  {
    ShiftDownBit(v, low, i);
    TruncateBit(v / Pow2(low), width, i);
  }

  lemma SliceNumber(value: BddWord, high: nat, low: nat, a: Assignment)
    requires low <= high < |value|
    ensures Num(value[low..high + 1], a) == (Num(value, a) / Pow2(low)) % Pow2(high - low + 1)
  {
    var result, v, width := value[low..high + 1], Num(value, a), high - low + 1;
    SliceBit(v, low, width, 0);
    var n: nat := (v / Pow2(low)) % Pow2(width);
    forall i: nat | i < width ensures result[i](a) == Bit(n, i) {
      SliceBit(v, low, width, i);
      NumBit(value, a, i + low);
    }
    ModIsBelow(v / Pow2(low), Pow2(width));
    NumFromBits(result, a, n);
  }

  lemma ModIsBelow(x: int, m: int)
    requires m > 0
    ensures 0 <= x % m < m
  {
  }

  method LowerSlice(value: BddWord, high: nat, low: nat) returns (result: BddWord)
    requires low <= high < |value|
    ensures |result| == high - low + 1
    ensures forall a :: Num(result, a) == (Num(value, a) / Pow2(low)) % Pow2(high - low + 1)
  {
    result := value[low..high + 1];
    forall a ensures Num(result, a) == (Num(value, a) / Pow2(low)) % Pow2(high - low + 1) {
      SliceNumber(value, high, low, a);
    }
  }

  lemma {:induction false} FromBitsConcat(low: seq<bool>, high: seq<bool>)
    ensures FromBits(low + high) == FromBits(high) * Pow2(|low|) + FromBits(low)
  {
    if low == [] {
      assert low + high == high;
      assert FromBits(high) * Pow2(0) == FromBits(high);
    } else {
      FromBitsConcat(low[1..], high);
      assert (low + high)[1..] == low[1..] + high;
      DoubledJoin(FromBits(high), Pow2(|low| - 1), FromBits(low[1..]));
    }
  }

  lemma DoubledJoin(h: int, p: int, l: int)
    ensures 2 * (h * p + l) == h * (2 * p) + 2 * l
  {
  }

  /** Places `low` below `high`. */
  lemma JoinedNumber(low: BddWord, high: BddWord, a: Assignment)
    ensures Num(low + high, a) == Num(high, a) * Pow2(|low|) + Num(low, a)
  {
    assert Bits(low + high, a) == Bits(low, a) + Bits(high, a);
    FromBitsConcat(Bits(low, a), Bits(high, a));
  }

  method LowerZeroExtend(value: BddWord, toWidth: nat) returns (result: BddWord)
    requires |value| <= toWidth
    ensures |result| == toWidth
    ensures forall a :: Num(result, a) == Num(value, a)
  {
    var fill: BddWord := seq(toWidth - |value|, _ => ConstFn(false));
    result := value + fill;
    forall a ensures Num(result, a) == Num(value, a) {
      NumOfZeros(fill, a);
      JoinedNumber(value, fill, a);
    }
  }

  method LowerSignExtend(value: BddWord, toWidth: nat) returns (result: BddWord)
    requires 0 < |value| <= toWidth
    ensures |result| == toWidth
    ensures forall a :: Num(result, a) == ExtendVal(SignExtend, Num(value, a), |value|, toWidth)
  {
    var sign := value[|value| - 1];
    var fill: BddWord := seq(toWidth - |value|, _ => sign);
    result := value + fill;
    forall a ensures Num(result, a) == ExtendVal(SignExtend, Num(value, a), |value|, toWidth) {
      NumBit(value, a, |value| - 1);
      JoinedNumber(value, fill, a);
      FilledNumber(fill, sign(a), a);
      SignExtendSum(Num(value, a), |value|, toWidth);
    }
  }

  lemma FilledNumber(fill: BddWord, b: bool, a: Assignment)
    requires forall i | 0 <= i < |fill| :: fill[i](a) == b
    ensures Num(fill, a) == if b then Mask(|fill|) else 0
  {
    if b {
      MaskBits(|fill|);
      NumFromBits(fill, a, Mask(|fill|));
    } else {
      NumOfZeros(fill, a);
    }
  }

  lemma SignExtendSum(v: nat, from: nat, to: nat)
    requires 0 < from <= to && v < Pow2(from)
    ensures ExtendVal(SignExtend, v, from, to) == (if Negative(v, from) then Mask(to - from) else 0) * Pow2(from) + v
  {
    Pow2Mono(from, to);
    Pow2Add(to - from, from);
    if Negative(v, from) {
      OneLess(Pow2(to - from), Pow2(from));
      WrapOnce(v - Pow2(from), Pow2(to));
    } else {
      SmallMod(v, Pow2(to));
    }
  }

  // ----- selecting a register -----

  /** `chosen` reads as `high` where the bit is set and as `low` elsewhere. */
  ghost predicate Chooses(chosen: BddWord, bit: BddFn, high: BddWord, low: BddWord)
  {
    forall a :: Num(chosen, a) == if bit(a) then Num(high, a) else Num(low, a)
  }

  ghost predicate AllWide(table: seq<BddWord>, width: nat)
  {
    forall k | 0 <= k < |table| :: |table[k]| == width
  }

  /** Entry `k` of the next layer chooses between entries `2k` and `2k + 1`. */
  ghost predicate HalvedAt(table: seq<BddWord>, bit: BddFn, next: seq<BddWord>, k: nat)
    requires 2 * k + 1 < |table| && k < |next|
  {
    Chooses(next[k], bit, table[2 * k + 1], table[2 * k])
  }

  method ChoosePair(table: seq<BddWord>, bit: BddFn, width: nat, k: nat) returns (selected: BddWord)
    requires 2 * k + 1 < |table| && AllWide(table, width)
    ensures |selected| == width && Chooses(selected, bit, table[2 * k + 1], table[2 * k])
  {
    selected := MuxWord(bit, table[2 * k + 1], table[2 * k]);
  }

  /** One layer of the selector tree: halves the table by the given selector bit. */
  method HalveTable(table: seq<BddWord>, bit: BddFn, width: nat) returns (next: seq<BddWord>)
    requires |table| % 2 == 0 && AllWide(table, width)
    ensures 2 * |next| == |table| && AllWide(next, width)
    ensures forall k: nat | k < |next| :: HalvedAt(table, bit, next, k)
  {
    next := [];
    for k := 0 to |table| / 2
      invariant |next| == k && AllWide(next, width)
      invariant forall j: nat | j < k :: HalvedAt(table, bit, next, j)
    {
      var selected := ChoosePair(table, bit, width, k);
      ghost var before := next;
      next := next + [selected];
      forall j: nat | j < k + 1 ensures HalvedAt(table, bit, next, j) {
        if j < k { assert HalvedAt(table, bit, before, j); }
      }
    }
  }

  /** The layer, indexed by the selector bits still unused, holds the entry the selector asks for. */
  ghost predicate LayerHolds(layer: seq<BddWord>, table: seq<BddWord>, selector: BddWord, k: nat, a: Assignment)
    requires k <= |selector| && |table| == Pow2(|selector|)
  {
    var index := Num(selector[k..], a);
    index < |layer| && Num(layer[index], a) == Num(table[Num(selector, a)], a)
  }

  lemma LayerStep(
    layer: seq<BddWord>, next: seq<BddWord>, table: seq<BddWord>, selector: BddWord, k: nat, a: Assignment)
    requires k < |selector| && |table| == Pow2(|selector|) && 2 * |next| == |layer|
    requires LayerHolds(layer, table, selector, k, a)
    requires forall j: nat | j < |next| :: HalvedAt(layer, selector[k], next, j)
    ensures LayerHolds(next, table, selector, k + 1, a)
  {
    NumSuffix(selector, k, a);
    var rest := Num(selector[k + 1..], a);
    assert HalvedAt(layer, selector[k], next, rest);
  }

  method NextLayer(layer: seq<BddWord>, table: seq<BddWord>, selector: BddWord, width: nat, k: nat)
    returns (next: seq<BddWord>)
    requires k < |selector| && |table| == Pow2(|selector|)
    requires |layer| == Pow2(|selector| - k) && AllWide(layer, width)
    requires forall a :: LayerHolds(layer, table, selector, k, a)
    ensures 2 * |next| == |layer| && AllWide(next, width)
    ensures forall a, used | used == k + 1 :: LayerHolds(next, table, selector, used, a)
  {
    next := HalveTable(layer, selector[k], width);
    var used := k + 1;
    forall a ensures LayerHolds(next, table, selector, used, a) {
      LayerStep(layer, next, table, selector, k, a);
    }
  }

  /** Selects the entry whose index the selector reads as. */
  method SelectEntry(table: seq<BddWord>, selector: BddWord, width: nat) returns (result: BddWord)
    requires |table| == Pow2(|selector|) && AllWide(table, width)
    ensures |result| == width
    ensures forall a :: Num(selector, a) < |table| && Num(result, a) == Num(table[Num(selector, a)], a)
  {
    var layer := table;
    assert selector[0..] == selector;
    for k := 0 to |selector|
      invariant |layer| == Pow2(|selector| - k) && AllWide(layer, width)
      invariant forall a :: LayerHolds(layer, table, selector, k, a)
    {
      layer := NextLayer(layer, table, selector, width, k);
    }
    result := layer[0];
    forall a ensures Num(selector, a) < |table| && Num(result, a) == Num(table[Num(selector, a)], a) {
      assert LayerHolds(layer, table, selector, |selector|, a);
      assert selector[|selector|..] == [];
    }
  }
}
