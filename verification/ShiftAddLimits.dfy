/** A whole run in which expanding a multiplication changes the value. */
module ShiftAddLimits {
  import opened Words
  import opened WordLaws
  import opened Exprs
  import opened Typing
  import opened Canonicalizer
  import opened CanonicalizerTermination
  import opened CanonicalizerTyping
  import opened CanonicalizerPanics
  import opened AbsorptionLimits
  import opened TreeShapes
  import opened ShiftAdd
  import opened ReadViews

  /** A register of two bits, shifted by three. */
  function TwoBits(): Expr { ReadRegister(RegisterField(Fixed(0, 2)), 2) }
  function Three(): Expr { Const(3, 2) }
  function Shifted(): Expr { Bin(ShiftLeft, TwoBits(), Three()) }
  function Two(): Expr { Const(2, 2) }

  function One(): MachineState { MachineState(map[0 := Word(1, 2)], map[]) }

  /** What multiplying by two expands to: the amount is raised to four, which is zero in two bits. */
  function Expansion(): Expr
  {
    Bin(Add, Const(0, 2), Bin(ShiftLeft, TwoBits(), Bin(Add, Three(), Const(1, 2))))
  }

  const TwoBitShape: Shape := Shape(map[0 := 2], 2, 2)

  lemma SmallWidth()
    ensures 2 <= MAX_WIDTH && Pow2(2) == 4
  {
    Pow2Mono(2, 64);
    assert Pow2(2) == 2 * Pow2(1) && Pow2(1) == 2 * Pow2(0);
  }

  lemma ExpansionIsGood()
    ensures Good(Expansion(), 2, TwoBitShape)
  {
    var g := TwoBitShape;
    SmallWidth();
    assert Good(TwoBits(), 2, g);
    GoodConst(3, 2, g);
    GoodConst(1, 2, g);
    GoodConst(0, 2, g);
    GoodBin(Add, Three(), Const(1, 2), 2, g);
    GoodBin(ShiftLeft, TwoBits(), Bin(Add, Three(), Const(1, 2)), 2, g);
    GoodBin(Add, Const(0, 2), Bin(ShiftLeft, TwoBits(), Bin(Add, Three(), Const(1, 2))), 2, g);
  }

  lemma LeavesAreSmall()
    ensures Measure(TwoBits()) == 2
    ensures Measure(Three()) == 1 && Measure(Const(1, 2)) == 1 && Measure(Const(0, 2)) == 1
  {
    assert Measure(RegisterField(Fixed(0, 2))) == 1;
  }

  lemma ExpansionIsSmall()
    ensures Measure(Expansion()) <= 8
  {
    hide Measure;
    LeavesAreSmall();
    var amount := Bin(Add, Three(), Const(1, 2));
    NodeMeasure(Add, Three(), Const(1, 2));
    NodeMeasure(ShiftLeft, TwoBits(), amount);
    NodeMeasure(Add, Const(0, 2), Bin(ShiftLeft, TwoBits(), amount));
  }

  lemma ExpansionIsPlain()
    ensures Plain(Expansion())
  {
    var amount := Bin(Add, Three(), Const(1, 2));
    PlainBin(Add, Three(), Const(1, 2));
    assert Plain(TwoBits());
    PlainBin(ShiftLeft, TwoBits(), amount);
    PlainBin(Add, Const(0, 2), Bin(ShiftLeft, TwoBits(), amount));
  }

  /** The expansion is plain, so its run ends and keeps its value. */
  lemma ExpansionRun(le: Order, fuel: nat)
    requires fuel >= 9
    ensures var r := Canonicalize(Expansion(), le, fuel); r.Done? && Eval(r.value, One()) == Some(Word(1, 2))
  {
    hide Canonicalize, Plain, Measure, Good;
    ExpansionIsGood();
    ExpansionIsSmall();
    ExpansionIsPlain();
    PlainFinishes(Expansion(), 2, le, fuel, TwoBitShape);
    ExpansionValue();
  }

  lemma ExpansionValue()
    ensures Eval(Expansion(), One()) == Some(Word(1, 2)) && MemoryWellFormed(One())
  {
    assert Eval(TwoBits(), One()) == Some(Word(1, 2)) by { SmallWidth(); }
    ShiftedAround(TwoBits(), One());
    ZeroPlus(Bin(ShiftLeft, TwoBits(), Bin(Add, Three(), Const(1, 2))), One());
  }

  // ----- up to the expansion -----

  lemma OperandsStay(le: Order, fuel: nat)
    requires fuel >= 2
    ensures Canonicalize(TwoBits(), le, fuel) == Done(TwoBits(), {})
    ensures Canonicalize(Three(), le, fuel) == Done(Three(), {})
  {
    SmallWidth();
    assert Canonicalize(RegisterField(Fixed(0, 2)), le, fuel - 1) == Done(RegisterField(Fixed(0, 2)), {});
  }

  lemma ShiftStays()
    ensures CanonicalShift(ShiftLeft, TwoBits(), Three()) == Done(Shifted(), {})
  {
    SmallWidth();
  }

  lemma ShiftedStays(le: Order, fuel: nat)
    requires fuel >= 3
    ensures Canonicalize(Shifted(), le, fuel) == Done(Shifted(), {})
  {
    hide Canonicalize, CanonicalizeBin, CanonicalizeOperands, CanonicalShift;
    var f := fuel - 1;
    PlainUnfolds(ShiftLeft, TwoBits(), Three(), le, f);
    OperandsStay(le, f);
    OperandsAre(ShiftLeft, TwoBits(), Three(), le, f);
    ShiftStays();
    BinUnfolds(ShiftLeft, TwoBits(), Three(), le, fuel);
  }

  lemma BinUnfolds(op: BinOp, lhs: Expr, rhs: Expr, le: Order, fuel: nat)
    requires fuel > 0
    ensures Canonicalize(Bin(op, lhs, rhs), le, fuel) == CanonicalizeBin(op, lhs, rhs, le, fuel - 1)
  {
    hide CanonicalizeBin, CanonicalizeFlag, CanonicalizeChoice;
  }

  lemma FactorsStay(le: Order, fuel: nat)
    requires fuel >= 3
    ensures var r := CanonicalizeAll([Shifted(), Two()], le, fuel); r.Done? && r.value == [Shifted(), Two()]
  {
    SmallWidth();
    ShiftedStays(le, fuel);
    FinishesWith([Two()], [Two()], le, fuel);
    assert [Shifted(), Two()][1..] == [Two()] && [Shifted()] + [Two()] == [Shifted(), Two()];
  }

  lemma FactorsFold(le: Order)
    ensures ReduceTerms(Mul, [Shifted(), Two()], le) == ([Shifted()], Folded(2, 2))
  {
    SmallWidth();
    var terms, none: seq<Expr> := [Shifted(), Two()], [];
    assert terms[1..] == [Two()] && [Two()][1..] == none && [Shifted()] + none == [Shifted()];
    assert NonConstants([Two()]) == none && NonConstants(terms) == [Shifted()];
    SortOne(Shifted(), le);
    assert FoldConstants(Mul, [Two()], NoConst) == Folded(2, 2);
    assert FoldConstants(Mul, terms, NoConst) == Folded(2, 2);
  }

  lemma FactorsCombine(le: Order)
    ensures CombineTerms(Mul, [Shifted(), Two()], le) == Done(Bin(Mul, Shifted(), Two()), {})
  {
    FactorsFold(le);
    var all := [Shifted()] + [Two()];
    assert all[..1] == [Shifted()] && Rebuild(Mul, [Shifted()]) == Shifted();
    assert Rebuild(Mul, all) == Bin(Mul, Shifted(), Two());
  }

  lemma ProductCombined(le: Order, fuel: nat)
    requires fuel >= 3
    ensures var r := CanonicalizeAssocComm(Mul, Shifted(), Two(), le, fuel);
      r.Done? && r.value == Bin(Mul, Shifted(), Two())
  {
    hide CanonicalizeAll, CombineTerms, Canonicalize;
    assert Flatten(Mul, Shifted()) + Flatten(Mul, Two()) == [Shifted(), Two()];
    FactorsStay(le, fuel);
    assert FlattenAll(Mul, [Shifted(), Two()]) == [Shifted(), Two()] by {
      assert [Shifted(), Two()][1..] == [Two()] && FlattenAll(Mul, [Two()]) == [Two()];
    }
    FactorsCombine(le);
  }

  lemma ProductExpands(le: Order, fuel: nat)
    ensures CanonicalizeMul(Bin(Mul, Shifted(), Two()), le, fuel)
            == Canonicalize(Expansion(), le, fuel).With({ShiftRoom(Shifted(), 2, 2)})
  {
    hide Canonicalize;
    assert ExprWidth(TwoBits()) == Some(2) && ExprWidth(Three()) == Some(2);
    assert ExprWidth(Shifted()) == Some(2);
    assert ExprWidth(Bin(Mul, Shifted(), Two())) == Some(2);
    assert ShiftAddTerms(Shifted(), 2, Const(0, 2), 2) == Expansion();
  }

  /** Canonicalizing `(x << 3) * 2` in two bits ends in an expression of value one where `x` is one and the product
      is zero, and reports the expansion. */
  lemma WrapRun(le: Order, fuel: nat)
    requires fuel >= 10
    ensures var r := Canonicalize(Bin(Mul, Shifted(), Two()), le, fuel);
      && r.Done? && ShiftRoom(Shifted(), 2, 2) in r.obligations
      && Eval(r.value, One()) == Some(Word(1, 2))
      && Eval(Bin(Mul, Shifted(), Two()), One()) == Some(Word(0, 2))
  {
    hide CanonicalizeBin, CanonicalizeAssocComm, CanonicalizeMul, Eval;
    var f := fuel - 1;
    TreeUnfolds(Mul, Shifted(), Two(), le, f);
    ProductCombined(le, f);
    ProductExpands(le, f);
    ExpansionRun(le, f);
    WrapCounterexample();
  }
}
