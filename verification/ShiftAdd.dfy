/** Multiplication by a constant as a sum of shifts, and exactly when that is right.

    A variable that already is a left shift has its amount increased by one per step, in the
    width of the value, so a large amount wraps round to zero.  The expansion of
    `(x << n) * c` then differs from the product by `x * (c / 2^(2^w - n))`. */
module ShiftAdd {
  import opened Words
  import opened WordLaws
  import opened Exprs
  import opened Canonicalizer
  import opened CanonicalizerMeaning

  lemma MulAssoc(a: int, b: int, c: int)
    ensures (a * b) * c == a * (b * c)
  {
  }

  lemma ShiftLeftIsProduct(x: nat, n: nat, w: nat)
    ensures ShiftLeftVal(x, n, w) == (x * Pow2(n)) % Pow2(w)
  {
    if n >= w {
      Pow2Add(n - w, w);
      var k := x * Pow2(n - w);
      assert n - w + w == n;
      MulAssoc(x, Pow2(n - w), Pow2(w));
      ModShift(0, k, Pow2(w));
      SmallMod(0, Pow2(w));
    }
  }

  /** How many doublings an amount of `n` takes before it wraps, as a power of two. */
  function Headroom(n: nat, w: nat): (d: nat)
    requires n < Pow2(w)
    ensures d > 0
  {
    Pow2(Pow2(w) - n)
  }

  /** The condition under which shifting `x << n` further for the bits of `c` is exact. */
  predicate RoomFor(x: nat, n: nat, c: nat, w: nat)
    requires n < Pow2(w)
  {
    (x * (c / Headroom(n, w))) % Pow2(w) == 0
  }

  /** The sum of the shifts taken for the bits of `c`, with the amount wrapping. */
  function Contribution(x: nat, n: nat, c: nat, w: nat): nat
    decreases c
  {
    if c == 0 then 0
    else ((if c % 2 == 1 then ShiftLeftVal(x, n, w) else 0) + Contribution(x, (n + 1) % Pow2(w), c / 2, w)) % Pow2(w)
  }

  /** What `Contribution` adds up to before reduction. */
  function Expanded(x: nat, n: nat, c: nat, w: nat): int
    requires n < Pow2(w)
  {
    (x * Pow2(n)) * (c % Headroom(n, w)) + x * (c / Headroom(n, w))
  }

  /** Halving the factor splits off its lowest bit. */
  lemma SplitHalf(c: nat, d: nat)
    requires d > 0
    ensures 2 * d > 0 && c % (2 * d) == 2 * ((c / 2) % d) + c % 2 && c / (2 * d) == (c / 2) / d
  {
    var q, r := (c / 2) / d, (c / 2) % d;
    assert c / 2 == q * d + r;
    assert q * (2 * d) == 2 * (q * d);
    ModUnique(c, q, 2 * r + c % 2, 2 * d);
  }

  lemma DoubleInto(m: int, r: int, b: int)
    requires b == 0 || b == 1
    ensures m * (2 * r + b) == (if b == 1 then m else 0) + (2 * m) * r
  {
    assert m * b == if b == 1 then m else 0;
  }

  lemma DoublePower(x: int, n: nat)
    ensures x * Pow2(n + 1) == 2 * (x * Pow2(n))
  {
    assert Pow2(n + 1) == 2 * Pow2(n);
  }

  lemma ExpandedStep(x: nat, n: nat, c: nat, w: nat)
    requires n < Pow2(w) && c < Pow2(w)
    ensures Expanded(x, n, c, w) == (if c % 2 == 1 then x * Pow2(n) else 0) + Expanded(x, (n + 1) % Pow2(w), c / 2, w)
  {
    if n + 1 < Pow2(w) {
      SmallMod(n + 1, Pow2(w));
      var d := Headroom(n + 1, w);
      assert Headroom(n, w) == 2 * d;
      SplitHalf(c, d);
      DoublePower(x, n);
      DoubleInto(x * Pow2(n), (c / 2) % d, c % 2);
    } else {
      ModUnique(n + 1, 1, 0, Pow2(w));
      LastStep(x, n, c, w);
    }
  }

  /** The step at which the amount wraps to zero. */
  lemma LastStep(x: nat, n: nat, c: nat, w: nat)
    requires n + 1 == Pow2(w) && c < Pow2(w)
    ensures Expanded(x, n, c, w) == (if c % 2 == 1 then x * Pow2(n) else 0) + Expanded(x, 0, c / 2, w)
  {
    var c', d := c / 2, Headroom(0, w);
    assert Pow2(1) == 2 * Pow2(0);
    assert Headroom(n, w) == 2;
    WidthBelowPow2(w);
    Pow2Mono(w, Pow2(w));
    ModUnique(c', 0, c', d);
    assert Expanded(x, 0, c', w) == (x * 1) * c' + x * 0;
    var m: int, b := x * Pow2(n), c % 2;
    assert m * b == if b == 1 then m else 0;
  }

  lemma {:induction false} ContributionIsExpanded(x: nat, n: nat, c: nat, w: nat)
    requires n < Pow2(w) && c < Pow2(w)
    ensures Contribution(x, n, c, w) == Expanded(x, n, c, w) % Pow2(w)
    decreases c
  {
    var p := Pow2(w);
    if c == 0 {
      assert (x * Pow2(n)) * 0 == 0 && x * 0 == 0;
      SmallMod(0, p);
      assert c / Headroom(n, w) == 0 && c % Headroom(n, w) == 0;
    } else {
      var n' := (n + 1) % p;
      ContributionIsExpanded(x, n', c / 2, w);
      ExpandedStep(x, n, c, w);
      ShiftLeftIsProduct(x, n, w);
      var a := if c % 2 == 1 then x * Pow2(n) else 0;
      var e := Expanded(x, n', c / 2, w);
      ModAdd(a, e, p);
      ModAdd(e % p, a, p);
    }
  }

  /** The wanted product, with the part of the factor that overshoots the amount dropped. */
  lemma ProductIsExpanded(x: nat, n: nat, c: nat, w: nat)
    requires n < Pow2(w)
    ensures (ShiftLeftVal(x, n, w) * c) % Pow2(w) == ((x * Pow2(n)) * (c % Headroom(n, w))) % Pow2(w)
  {
    var d := Headroom(n, w);
    ShiftLeftIsProduct(x, n, w);
    HeadroomProduct(n, w);
    DivMod(c, d);
    DropMultiples(x, Pow2(n), c, c / d, d, c % d, Pow2(Pow2(w) - w), Pow2(w));
  }

  lemma DivMod(c: nat, d: nat)
    requires d > 0
    ensures c == (c / d) * d + c % d
  {
  }

  lemma HeadroomProduct(n: nat, w: nat)
    requires n < Pow2(w)
    ensures w <= Pow2(w) && Pow2(n) * Headroom(n, w) == Pow2(Pow2(w) - w) * Pow2(w)
  {
    WidthBelowPow2(w);
    Pow2Add(n, Pow2(w) - n);
    Pow2Add(Pow2(w) - w, w);
    assert n + (Pow2(w) - n) == (Pow2(w) - w) + w;
  }

  lemma DropMultiples(x: int, e: int, c: int, q: int, d: int, r: int, k: int, p: int)
    requires p > 0 && c == q * d + r && e * d == k * p
    ensures (((x * e) % p) * c) % p == ((x * e) * r) % p
  {
    var m := x * e;
    MulCommutes(m % p, c);
    ModMul(c, m, p);
    Overshoot(x, e, c, q, d, r, k, p);
    ModShift(m * r, x * q * k, p);
  }

  lemma MulCommutes(a: int, b: int)
    ensures a * b == b * a
  {
  }

  lemma Overshoot(x: int, e: int, c: int, q: int, d: int, r: int, k: int, p: int)
    requires c == q * d + r && e * d == k * p
    ensures c * (x * e) == (x * e) * r + (x * q * k) * p
  {
    calc {
      c * (x * e);
      (q * d + r) * (x * e);
      (q * d) * (x * e) + r * (x * e);
      { Regroup(q, d, x, e); }
      (x * q) * (e * d) + r * (x * e);
      (x * q) * (k * p) + r * (x * e);
      { MulAssoc(x * q, k, p); MulCommutes(r, x * e); }
      (x * e) * r + (x * q * k) * p;
    }
  }

  lemma Regroup(q: int, d: int, x: int, e: int)
    ensures (q * d) * (x * e) == (x * q) * (e * d)
  {
    MulAssoc(q, d, x * e);
    MulAssoc(x, q, e * d);
    assert d * (x * e) == x * (e * d);
    MulAssoc(q, x, e * d);
  }

  /** The expansion equals the product exactly when the overshooting part vanishes. */
  lemma ExpansionExact(x: nat, n: nat, c: nat, w: nat)
    requires n < Pow2(w) && c < Pow2(w)
    ensures Contribution(x, n, c, w) == (ShiftLeftVal(x, n, w) * c) % Pow2(w) <==> RoomFor(x, n, c, w)
  {
    var p, d := Pow2(w), Headroom(n, w);
    ContributionIsExpanded(x, n, c, w);
    ProductIsExpanded(x, n, c, w);
    var a: int, b: int := (x * Pow2(n)) * (c % d), x * (c / d);
    SumEqualIff(a, b, p);
    SmallMod(Contribution(x, n, c, w), p);
  }

  lemma SumEqualIff(a: int, b: int, p: int)
    requires p > 0
    ensures (a + b) % p == a % p <==> b % p == 0
  {
    ModAdd(a, b, p);
    ModAdd(b % p, a, p);
    var x, y := a % p, b % p;
    assert (a + b) % p == (x + y) % p;
    if x + y < p { SmallMod(x + y, p); } else { ModUnique(x + y, 1, x + y - p, p); }
  }

  // ----- on expressions -----

  function ShiftBase(variable: Expr): Expr
  {
    if variable.Bin? && variable.op == ShiftLeft then variable.lhs else variable
  }

  ghost function ShiftAmount(variable: Expr, s: MachineState): nat
  {
    if variable.Bin? && variable.op == ShiftLeft then Val(variable.rhs, s) else 0
  }

  lemma VariableValue(variable: Expr, s: MachineState, w: nat)
    requires w > 0 && Has(variable, s, w)
    ensures Has(ShiftBase(variable), s, w) && ShiftAmount(variable, s) < Pow2(w)
    ensures Val(variable, s) == ShiftLeftVal(Val(ShiftBase(variable), s), ShiftAmount(variable, s), w)
  {
    if !(variable.Bin? && variable.op == ShiftLeft) { SmallMod(Val(variable, s), Pow2(w)); }
  }

  lemma DoubledValue(variable: Expr, s: MachineState, w: nat)
    requires w > 0 && Has(variable, s, w)
    ensures var d := Doubled(variable, w);
      && Has(d, s, w) && ShiftBase(d) == ShiftBase(variable)
      && ShiftAmount(d, s) == (ShiftAmount(variable, s) + 1) % Pow2(w)
  {
    var one := Const(1, w);
    SmallMod(1, Pow2(w));
    assert Has(one, s, w) && Val(one, s) == 1;
    if variable.Bin? && variable.op == ShiftLeft {
      assert Has(Bin(Add, variable.rhs, one), s, w);
    }
  }

  lemma SumMod(a: int, v: int, rest: int, p: int)
    requires p > 0
    ensures ((a + v) % p + rest) % p == (a + (v + rest) % p) % p
  {
    ModAdd(rest, a + v, p);
    ModAdd(a, v + rest, p);
  }

  function WithContribution(a: nat, x: nat, n: nat, c: nat, w: nat): nat
  {
    (a + Contribution(x, n, c, w)) % Pow2(w)
  }

  lemma {:induction false} ShiftAddValue(variable: Expr, c: nat, accumulator: Expr, s: MachineState, w: nat)
    requires w > 0 && Has(variable, s, w) && Has(accumulator, s, w)
    ensures Has(ShiftAddTerms(variable, c, accumulator, w), s, w)
    ensures Val(ShiftAddTerms(variable, c, accumulator, w), s)
            == WithContribution(Val(accumulator, s), Val(ShiftBase(variable), s), ShiftAmount(variable, s), c, w)
    decreases c
  {
    hide ShiftBase, ShiftAmount, Eval;
    if c == 0 {
      SmallMod(Val(accumulator, s), Pow2(w));
    } else {
      var d, next := Doubled(variable, w), NextSum(variable, c, accumulator);
      AccumulateValue(variable, c, accumulator, s, w);
      DoubledValue(variable, s, w);
      ShiftAddValue(d, c / 2, next, s, w);
      ShiftAddUnfolds(variable, c, accumulator, w);
      VariableValue(variable, s, w);
      ContributionStep(Val(accumulator, s), Val(next, s), Val(ShiftBase(variable), s), ShiftAmount(variable, s), c, w);
    }
  }

  function NextSum(variable: Expr, c: nat, accumulator: Expr): Expr
  {
    if c % 2 == 1 then Bin(Add, accumulator, variable) else accumulator
  }

  lemma ShiftAddUnfolds(variable: Expr, c: nat, accumulator: Expr, w: nat)
    requires c > 0
    ensures ShiftAddTerms(variable, c, accumulator, w)
            == ShiftAddTerms(Doubled(variable, w), c / 2, NextSum(variable, c, accumulator), w)
  {
  }

  /** Adding the current bit's shift and then the rest is adding the whole contribution. */
  lemma ContributionStep(a: nat, next: nat, x: nat, n: nat, c: nat, w: nat)
    requires c > 0 && next == (a + if c % 2 == 1 then ShiftLeftVal(x, n, w) else 0) % Pow2(w)
    ensures WithContribution(next, x, (n + 1) % Pow2(w), c / 2, w) == WithContribution(a, x, n, c, w)
  {
    var v := if c % 2 == 1 then ShiftLeftVal(x, n, w) else 0;
    SumMod(a, v, Contribution(x, (n + 1) % Pow2(w), c / 2, w), Pow2(w));
  }

  lemma AccumulateValue(variable: Expr, c: nat, accumulator: Expr, s: MachineState, w: nat)
    requires w > 0 && Has(variable, s, w) && Has(accumulator, s, w)
    ensures var next, v := NextSum(variable, c, accumulator),
                           ShiftLeftVal(Val(ShiftBase(variable), s), ShiftAmount(variable, s), w);
      Has(next, s, w) && Val(next, s) == (Val(accumulator, s) + if c % 2 == 1 then v else 0) % Pow2(w)
  {
    VariableValue(variable, s, w);
    if c % 2 == 1 {
      SumValue(accumulator, variable, s, w);
    } else {
      SmallMod(Val(accumulator, s), Pow2(w));
    }
  }

  lemma SumValue(lhs: Expr, rhs: Expr, s: MachineState, w: nat)
    requires w > 0 && Has(lhs, s, w) && Has(rhs, s, w)
    ensures var e := Bin(Add, lhs, rhs); Has(e, s, w) && Val(e, s) == (Val(lhs, s) + Val(rhs, s)) % Pow2(w)
  {
  }

  lemma ProductValue(lhs: Expr, factor: nat, s: MachineState, w: nat)
    requires w > 0 && Has(lhs, s, w) && factor < Pow2(w)
    ensures var e := Bin(Mul, lhs, Const(factor, w)); Has(e, s, w) && Val(e, s) == (Val(lhs, s) * factor) % Pow2(w)
  {
    SmallMod(factor, Pow2(w));
    assert Has(Const(factor, w), s, w) && Val(Const(factor, w), s) == factor;
  }

  lemma SameWord(a: Expr, b: Expr, s: MachineState, w: nat)
    requires Has(a, s, w) && Has(b, s, w)
    ensures Eval(a, s) == Eval(b, s) <==> Val(a, s) == Val(b, s)
  {
  }

  /** The expansion of `variable * factor` means the product if and only if there is room. */
  lemma MulToShiftAddExact(variable: Expr, factor: nat, s: MachineState, w: nat)
    requires w > 0 && Has(variable, s, w) && factor < Pow2(w)
    ensures ShiftAmount(variable, s) < Pow2(w)
    ensures Eval(ShiftAddTerms(variable, factor, Const(0, w), w), s) == Eval(Bin(Mul, variable, Const(factor, w)), s)
            <==> RoomFor(Val(ShiftBase(variable), s), ShiftAmount(variable, s), factor, w)
  {
    var zero, x, n := Const(0, w), Val(ShiftBase(variable), s), ShiftAmount(variable, s);
    ZeroValue(s, w);
    VariableValue(variable, s, w);
    ShiftAddValue(variable, factor, zero, s, w);
    FromZero(x, n, factor, w);
    ExpansionExact(x, n, factor, w);
    ProductValue(variable, factor, s, w);
    SameWord(ShiftAddTerms(variable, factor, zero, w), Bin(Mul, variable, Const(factor, w)), s, w);
  }

  lemma ZeroValue(s: MachineState, w: nat)
    requires w > 0
    ensures Has(Const(0, w), s, w) && Val(Const(0, w), s) == 0
  {
    SmallMod(0, Pow2(w));
  }

  lemma FromZero(x: nat, n: nat, c: nat, w: nat)
    requires n < Pow2(w) && c < Pow2(w)
    ensures WithContribution(0, x, n, c, w) == Contribution(x, n, c, w)
  {
    ContributionIsExpanded(x, n, c, w);
    SmallMod(Contribution(x, n, c, w), Pow2(w));
  }

  /** An amount that stays below `2^w` for every bit of the factor leaves room. */
  lemma SmallAmountLeavesRoom(x: nat, n: nat, c: nat, k: nat, w: nat)
    requires n + k <= Pow2(w) && n < Pow2(w) && c < Pow2(k)
    ensures RoomFor(x, n, c, w)
  {
    var d := Headroom(n, w);
    Pow2Mono(k, Pow2(w) - n);
    ModUnique(c, 0, c, d);
    assert x * 0 == 0;
    SmallMod(0, Pow2(w));
  }

  /** `(x << 3) * 2` in two bits expands to `x`, not to zero. */
  lemma WrapCounterexample()
    ensures var s := MachineState(map[0 := Word(1, 2)], map[]);
      var x := ReadRegister(RegisterField(Fixed(0, 2)), 2);
      var variable := Bin(ShiftLeft, x, Const(3, 2));
      && Eval(Bin(Mul, variable, Const(2, 2)), s) == Some(Word(0, 2))
      && Eval(ShiftAddTerms(variable, 2, Const(0, 2), 2), s) == Some(Word(1, 2))
  {
    assert Pow2(2) == 4;
    var s := MachineState(map[0 := Word(1, 2)], map[]);
    var x := ReadRegister(RegisterField(Fixed(0, 2)), 2);
    var variable := Bin(ShiftLeft, x, Const(3, 2));
    assert Eval(x, s) == Some(Word(1, 2));
    ShiftedAway(x, s);
    ZeroDoubled(variable, s);
    ShiftedAround(x, s);
    var doubled := Doubled(variable, 2);
    assert ShiftAddTerms(variable, 2, Const(0, 2), 2) == Bin(Add, Const(0, 2), doubled);
    ZeroPlus(doubled, s);
  }

  /** At width two a shift by three loses everything. */
  lemma ShiftedAway(x: Expr, s: MachineState)
    requires Eval(x, s) == Some(Word(1, 2))
    ensures Eval(Bin(ShiftLeft, x, Const(3, 2)), s) == Some(Word(0, 2))
  {
    assert Pow2(2) == 4;
  }

  lemma ZeroDoubled(e: Expr, s: MachineState)
    requires Eval(e, s) == Some(Word(0, 2))
    ensures Eval(Bin(Mul, e, Const(2, 2)), s) == Some(Word(0, 2))
  {
    assert Pow2(2) == 4;
  }

  /** At width two a shift by four is a shift by nothing. */
  lemma ShiftedAround(x: Expr, s: MachineState)
    requires Eval(x, s) == Some(Word(1, 2))
    ensures Eval(Bin(ShiftLeft, x, Bin(Add, Const(3, 2), Const(1, 2))), s) == Some(Word(1, 2))
  {
    assert Pow2(2) == 4;
    assert Eval(Bin(Add, Const(3, 2), Const(1, 2)), s) == Some(Word(0, 2));
  }

  lemma ZeroPlus(e: Expr, s: MachineState)
    requires Eval(e, s) == Some(Word(1, 2))
    ensures Eval(Bin(Add, Const(0, 2), e), s) == Some(Word(1, 2))
  {
    assert Pow2(2) == 4;
  }
}
