/** Canonicalization of a well-formed expression never fails over a width, keeps its type, reads memory byte by
    byte where the expression did, and builds nothing wider than the host allows. */
module CanonicalizerTyping {
  import opened Words
  import opened WordLaws
  import opened Exprs
  import opened Effects
  import opened ByteMemory
  import opened Typing
  import opened Canonicalizer
  import opened CanonicalizerForm
  import opened CanonicalizerSound
  import opened ReadViews

  /** A well-formed expression of width `w` over byte reads, narrow enough to be lowered. */
  ghost predicate Good(e: Expr, w: nat, g: Shape)
  {
    TypeOf(e, g) == Some(w) && OnlyByteReads(e) && Narrow(e, g)
  }

  ghost predicate AllGood(terms: seq<Expr>, w: nat, g: Shape)
  {
    forall t | t in terms :: Good(t, w, g)
  }

  ghost predicate GoodOutcome(r: Outcome<Expr>, w: nat, g: Shape)
  {
    !r.Panic? && (r.Done? ==> Good(r.value, w, g))
  }

  /** A run on the expression keeps its type. */
  ghost predicate Kept(e: Expr, r: Outcome<Expr>, g: Shape)
  {
    forall w :: Good(e, w, g) ==> GoodOutcome(r, w, g)
  }

  ghost predicate KeptUpTo(le: Order, fuel: nat, g: Shape)
  {
    forall e :: Kept(e, Canonicalize(e, le, fuel), g)
  }

  lemma Again(e: Expr, w: nat, le: Order, fuel: nat, g: Shape)
    requires KeptUpTo(le, fuel, g) && Good(e, w, g)
    ensures GoodOutcome(Canonicalize(e, le, fuel), w, g)
  {
    assert Kept(e, Canonicalize(e, le, fuel), g);
  }

  // ----- widths -----

  /** A well-formed expression has its type as static width. */
  lemma {:induction false} TypeIsWidth(e: Expr, g: Shape)
    ensures TypeOf(e, g).Some? ==> ExprWidth(e) == TypeOf(e, g)
    decreases e, 1
  {
    match e
    case Const(_, _) =>
    case RegisterField(_) =>
    case ImmediateField(_) =>
    case DerivedValue(_) =>
    case ReadRegister(_, _) =>
    case ReadMemory(_, _) =>
    case Bin(_, lhs, rhs) => TypeIsWidth(lhs, g); TypeIsWidth(rhs, g);
    case Not(operand) => TypeIsWidth(operand, g);
    case CountOnes(operand) => TypeIsWidth(operand, g);
    case Slice(_, _, _) =>
    case Concat(parts) => PartsTypeIsWidth(parts, g);
    case Extend(_, _, _) =>
    case Flag(_, _, _, _, _) =>
    case Select(_, t, f) => TypeIsWidth(t, g); TypeIsWidth(f, g);
  }

  lemma {:induction false} PartsTypeIsWidth(parts: seq<Expr>, g: Shape)
    ensures PartsType(parts, g).Some? ==> PartsWidth(parts) == PartsType(parts, g)
    decreases parts, 0
  {
    if parts != [] {
      PartsTypeIsWidth(parts[..|parts| - 1], g);
      TypeIsWidth(parts[|parts| - 1], g);
    }
  }

  /** No register is zero bits wide. */
  ghost predicate WideRegisters(g: Shape)
  {
    forall id | id in g.registers :: g.registers[id] > 0
  }

  lemma {:induction false} TypeIsPositive(e: Expr, g: Shape)
    requires WideRegisters(g)
    ensures TypeOf(e, g).Some? ==> TypeOf(e, g).value > 0
    decreases e
  {
    match e
    case ReadRegister(register, width) =>
      if TypeOf(e, g).Some? {
        assert NamesRegistersOf(register, width, g);
        if !(register.RegisterField? && register.ref.Fixed?) { assert RegisterHas(g, 0, width); }
      }
    case Bin(_, lhs, _) => TypeIsPositive(lhs, g);
    case Not(operand) => TypeIsPositive(operand, g);
    case CountOnes(operand) => TypeIsPositive(operand, g);
    case Extend(_, operand, _) => TypeIsPositive(operand, g);
    case Select(_, t, _) => TypeIsPositive(t, g);
    case _ =>
  }

  // ----- building well-formed expressions -----

  lemma GoodConst(v: nat, w: nat, g: Shape)
    requires 0 < w <= MAX_WIDTH
    ensures Good(Const(v, w), w, g)
  {
  }

  lemma GoodBin(op: BinOp, l: Expr, r: Expr, w: nat, g: Shape)
    requires Good(l, w, g) && Good(r, w, g)
    ensures Good(Bin(op, l, r), BinWidth(op, w), g)
  {
  }

  lemma GoodOperands(e: Expr, w: nat, g: Shape) returns (v: nat)
    requires e.Bin? && Good(e, w, g)
    ensures Good(e.lhs, v, g) && Good(e.rhs, v, g) && w == BinWidth(e.op, v)
  {
    v := TypeOf(e.lhs, g).value;
  }

  lemma GoodNot(e: Expr, w: nat, g: Shape)
    ensures Good(e, w, g) <==> Good(Not(e), w, g)
  {
  }

  lemma GoodIsNarrow(e: Expr, w: nat, g: Shape)
    requires Good(e, w, g)
    ensures w <= MAX_WIDTH && ExprWidth(e) == Some(w)
  {
    TypeIsWidth(e, g);
  }

  // ----- lists of terms -----

  lemma {:induction false} FlattenGood(op: BinOp, e: Expr, w: nat, g: Shape)
    requires IsAssocComm(op) && Good(e, w, g)
    ensures AllGood(Flatten(op, e), w, g)
    decreases e
  {
    if e.Bin? && e.op == op {
      var v := GoodOperands(e, w, g);
      FlattenGood(op, e.lhs, w, g);
      FlattenGood(op, e.rhs, w, g);
    }
  }

  lemma {:induction false} FlattenAllGood(op: BinOp, terms: seq<Expr>, w: nat, g: Shape)
    requires IsAssocComm(op) && AllGood(terms, w, g)
    ensures AllGood(FlattenAll(op, terms), w, g)
  {
    if terms != [] { FlattenGood(op, terms[0], w, g); FlattenAllGood(op, terms[1..], w, g); }
  }

  lemma {:induction false} RebuildGood(op: BinOp, terms: seq<Expr>, w: nat, g: Shape)
    requires IsAssocComm(op) && terms != [] && AllGood(terms, w, g)
    ensures Good(Rebuild(op, terms), w, g)
  {
    if |terms| > 1 {
      RebuildGood(op, terms[..|terms| - 1], w, g);
      GoodBin(op, Rebuild(op, terms[..|terms| - 1]), terms[|terms| - 1], w, g);
    }
  }

  lemma {:induction false} CanonicalizeAllGood(terms: seq<Expr>, w: nat, le: Order, fuel: nat, g: Shape)
    requires KeptUpTo(le, fuel, g) && AllGood(terms, w, g)
    ensures var r := CanonicalizeAll(terms, le, fuel); !r.Panic? && (r.Done? ==> AllGood(r.value, w, g))
  {
    if terms != [] {
      CanonicalizeAllGood(terms[1..], w, le, fuel, g);
      Again(terms[0], w, le, fuel, g);
    }
  }

  // ----- combining -----

  ghost predicate FoldedAt(folded: Folded, w: nat)
  {
    !folded.BadWidth? && (folded.Folded? ==> folded.width == w)
  }

  lemma {:induction false} FoldedWidth(op: BinOp, terms: seq<Expr>, acc: Folded, w: nat, g: Shape)
    requires IsAssocComm(op) && w > 0 && AllGood(terms, w, g) && FoldedAt(acc, w)
    ensures FoldedAt(FoldConstants(op, terms, acc), w)
  {
    if terms != [] {
      assert Good(terms[0], w, g);
      FoldedWidth(op, terms[1..],
                  if terms[0].Const? then FoldConstant(op, acc, terms[0].value, terms[0].width) else acc, w, g);
    }
  }

  lemma {:induction false} CancelledWidth(terms: seq<Expr>, cancelled: Option<nat>, w: nat, g: Shape)
    requires AllGood(terms, w, g) && (cancelled.Some? ==> cancelled.value == w)
    ensures var width := CancelRuns(terms, cancelled).1; width.Some? ==> width.value == w
    decreases |terms|
  {
    if terms != [] {
      var n, t := RunLength(terms), terms[0];
      GoodIsNarrow(t, w, g);
      CancelledWidth(terms[n..], RunWidth(t, n, cancelled), w, g);
    }
  }

  lemma ReduceGood(op: BinOp, terms: seq<Expr>, le: Order, w: nat, g: Shape)
    requires IsAssocComm(op) && w > 0 && AllGood(terms, w, g)
    ensures var (reduced, folded) := ReduceTerms(op, terms, le);
      AllGood(reduced, w, g) && FoldedAt(folded, w)
  {
    ReduceFrom(op, terms, le);
    FoldedWidth(op, terms, NoConst, w, g);
    var f := FoldConstants(op, terms, NoConst);
    NonConstantsFrom(terms);
    SortFrom(NonConstants(terms), le);
    CancelledWidth(Sort(NonConstants(terms), le), if f.Folded? then Some(f.width) else None, w, g);
  }

  lemma AssembleGood(op: BinOp, terms: seq<Expr>, folded: Folded, w: nat, g: Shape)
    requires IsAssocComm(op) && AllGood(terms, w, g) && FoldedAt(folded, w) && 0 < w <= MAX_WIDTH
    ensures GoodOutcome(AssembleTerms(op, terms, folded), w, g)
  {
    if terms != [] { RebuildGood(op, terms, w, g); }
    if folded.Folded? && folded.width > 0 {
      GoodConst(folded.value, w, g);
      RebuildGood(op, terms + [Const(folded.value, folded.width)], w, g);
    }
  }

  lemma {:induction false} FirstWidthGood(terms: seq<Expr>, w: nat, g: Shape)
    requires AllGood(terms, w, g) && terms != []
    ensures FirstWidth(terms) == Some(w)
  {
    GoodIsNarrow(terms[0], w, g);
  }

  lemma CombineGood(op: BinOp, terms: seq<Expr>, le: Order, w: nat, g: Shape)
    requires IsAssocComm(op) && AllGood(terms, w, g) && 0 < w <= MAX_WIDTH
    ensures GoodOutcome(CombineTerms(op, terms, le), w, g)
  {
    var (reduced, folded) := ReduceTerms(op, terms, le);
    ReduceGood(op, terms, le, w, g);
    AssembleGood(op, reduced, folded, w, g);
    if reduced != [] { FirstWidthGood(reduced, w, g); }
    GoodConst(0, w, g);
    GoodConst(Mask(w), w, g);
  }

  lemma {:induction false} ContainsGood(op: BinOp, e: Expr, needle: Expr, w: nat, le: Order, fuel: nat, g: Shape)
    requires IsAssocComm(op) && KeptUpTo(le, fuel, g) && Good(e, w, g)
    ensures !ContainsTerm(op, e, needle, le, fuel).Panic?
    decreases e
  {
    hide ContainsTerm, Canonicalize;
    if e.Bin? && e.op == op {
      var v := GoodOperands(e, w, g);
      ContainsGood(op, e.lhs, needle, w, le, fuel, g);
      ContainsGood(op, e.rhs, needle, w, le, fuel, g);
      ContainsUnfolds(op, e, needle, le, fuel);
    } else {
      Again(e, w, le, fuel, g);
      ContainsAtLeaf(op, e, needle, le, fuel);
    }
  }

  lemma {:induction false} FirstAbsorberGood(
    op: BinOp, t: Expr, canonical: seq<Expr>, i: nat, j: nat, w: nat, le: Order, fuel: nat, g: Shape)
    requires IsAssocComm(op) && KeptUpTo(le, fuel, g) && Good(t, w, g) && j <= |canonical|
    ensures !FirstAbsorber(op, t, canonical, i, j, le, fuel).Panic?
    decreases |canonical| - j
  {
    hide ContainsTerm, Canonicalize, Good;
    if j < |canonical| {
      ContainsGood(op, t, canonical[j], w, le, fuel, g);
      FirstAbsorberGood(op, t, canonical, i, j + 1, w, le, fuel, g);
    }
  }

  lemma {:induction false} AbsorbersGood(
    op: BinOp, terms: seq<Expr>, canonical: seq<Expr>, i: nat, w: nat, le: Order, fuel: nat, g: Shape)
    requires IsAssocComm(op) && KeptUpTo(le, fuel, g) && AllGood(terms, w, g) && i <= |terms|
    ensures !Absorbers(op, terms, canonical, i, le, fuel).Panic?
    decreases |terms| - i
  {
    if i < |terms| {
      AbsorbersGood(op, terms, canonical, i + 1, w, le, fuel, g);
      FirstAbsorberGood(op, terms[i], canonical, i, 0, w, le, fuel, g);
    }
  }

  lemma RemoveAbsorbedGood(op: BinOp, terms: seq<Expr>, le: Order, fuel: nat, w: nat, g: Shape)
    requires KeptUpTo(le, fuel, g) && AllGood(terms, w, g)
    ensures var r := RemoveAbsorbed(op, terms, le, fuel); !r.Panic? && (r.Done? ==> AllGood(r.value, w, g))
  {
    if op == And || op == Or {
      CanonicalizeAllGood(terms, w, le, fuel, g);
      var c := CanonicalizeAll(terms, le, fuel);
      if c.Done? {
        AbsorbersGood(Opposite(op), terms, c.value, 0, w, le, fuel, g);
        var a := Absorbers(Opposite(op), terms, c.value, 0, le, fuel);
        if a.Done? { RetainMembers(terms, a.value); }
      }
    }
  }

  lemma AssocCommGood(op: BinOp, lhs: Expr, rhs: Expr, w: nat, le: Order, fuel: nat, g: Shape)
    requires IsAssocComm(op) && KeptUpTo(le, fuel, g) && Good(lhs, w, g) && Good(rhs, w, g) && w > 0
    ensures GoodOutcome(CanonicalizeAssocComm(op, lhs, rhs, le, fuel), w, g)
  {
    hide Good, Canonicalize, CanonicalizeAll, RemoveAbsorbed, CombineTerms;
    var terms := Flatten(op, lhs) + Flatten(op, rhs);
    FlattenGood(op, lhs, w, g);
    FlattenGood(op, rhs, w, g);
    RemoveAbsorbedGood(op, terms, le, fuel, w, g);
    var kept := RemoveAbsorbed(op, terms, le, fuel);
    if kept.Done? {
      CanonicalizeAllGood(kept.value, w, le, fuel, g);
      var canonical := CanonicalizeAll(kept.value, le, fuel);
      if canonical.Done? {
        FlattenAllGood(op, canonical.value, w, g);
        GoodIsNarrow(lhs, w, g);
        CombineGood(op, FlattenAll(op, canonical.value), le, w, g);
      }
    }
  }

  // ----- lowering, multiplication and subtraction -----

  lemma LowerOrGood(lhs: Expr, rhs: Expr, w: nat, g: Shape)
    requires Good(lhs, w, g) && Good(rhs, w, g)
    ensures Good(LowerOr(lhs, rhs), w, g)
  {
    GoodNot(lhs, w, g);
    GoodNot(rhs, w, g);
    GoodBin(And, Not(lhs), Not(rhs), w, g);
    GoodNot(Bin(And, Not(lhs), Not(rhs)), w, g);
  }

  lemma LowerXorGood(lhs: Expr, rhs: Expr, w: nat, g: Shape)
    requires Good(lhs, w, g) && Good(rhs, w, g)
    ensures Good(LowerXor(lhs, rhs), w, g)
  {
    GoodNot(lhs, w, g);
    GoodNot(rhs, w, g);
    GoodBin(And, lhs, Not(rhs), w, g);
    GoodBin(And, Not(lhs), rhs, w, g);
    GoodBin(Or, Bin(And, lhs, Not(rhs)), Bin(And, Not(lhs), rhs), w, g);
  }

  lemma LowerSelectGood(c: Expr, t: Expr, f: Expr, w: nat, g: Shape)
    requires Good(c, 1, g) && Good(t, w, g) && Good(f, w, g) && w > 0
    ensures Good(LowerSelect(c, t, f, w), w, g)
  {
    var mask := Extend(SignExtend, c, w);
    GoodIsNarrow(t, w, g);
    assert Good(mask, w, g);
    GoodNot(mask, w, g);
    var x, y := Bin(And, Not(mask), f), Bin(And, mask, t);
    GoodBin(And, Not(mask), f, w, g);
    GoodBin(And, mask, t, w, g);
    LowerOrGood(x, y, w, g);
  }

  lemma LowerGood(e: Expr, w: nat, le: Order, fuel: nat, g: Shape)
    requires KeptUpTo(le, fuel, g) && Good(e, w, g) && w > 0
    ensures GoodOutcome(LowerOperators(e, le, fuel), w, g)
  {
    if e.Bin? && (e.op == Or || e.op == Xor) {
      var v := GoodOperands(e, w, g);
      if e.op == Or {
        LowerOrGood(e.lhs, e.rhs, w, g);
        Again(LowerOr(e.lhs, e.rhs), w, le, fuel, g);
      } else {
        LowerXorGood(e.lhs, e.rhs, w, g);
        Again(LowerXor(e.lhs, e.rhs), w, le, fuel, g);
      }
    } else if e.Select? {
      GoodIsNarrow(e.condition, 1, g);
      GoodIsNarrow(e.whenTrue, w, g);
      GoodIsNarrow(e.whenFalse, w, g);
      LowerSelectGood(e.condition, e.whenTrue, e.whenFalse, w, g);
      Again(LowerSelect(e.condition, e.whenTrue, e.whenFalse, w), w, le, fuel, g);
    }
  }

  lemma {:induction false} ShiftAddGood(variable: Expr, factor: nat, accumulator: Expr, w: nat, g: Shape)
    requires 0 < w <= MAX_WIDTH && Good(variable, w, g) && Good(accumulator, w, g)
    ensures Good(ShiftAddTerms(variable, factor, accumulator, w), w, g)
    decreases factor
  {
    if factor > 0 {
      DoubledGood(variable, w, g);
      GoodBin(Add, accumulator, variable, w, g);
      ShiftAddGood(Doubled(variable, w), factor / 2,
                   if factor % 2 == 1 then Bin(Add, accumulator, variable) else accumulator, w, g);
    }
  }

  lemma DoubledGood(variable: Expr, w: nat, g: Shape)
    requires 0 < w <= MAX_WIDTH && Good(variable, w, g)
    ensures Good(Doubled(variable, w), w, g)
  {
    var one := Const(1, w);
    GoodConst(1, w, g);
    GoodBin(ShiftLeft, variable, one, w, g);
    if variable.Bin? && variable.op == ShiftLeft {
      var v := GoodOperands(variable, w, g);
      GoodBin(Add, variable.rhs, one, w, g);
      GoodBin(ShiftLeft, variable.lhs, Bin(Add, variable.rhs, one), w, g);
    }
  }

  lemma MulGood(e: Expr, w: nat, le: Order, fuel: nat, g: Shape)
    requires KeptUpTo(le, fuel, g) && Good(e, w, g) && w > 0
    ensures GoodOutcome(CanonicalizeMul(e, le, fuel), w, g)
  {
    GoodIsNarrow(e, w, g);
    if e.Bin? && e.op == Mul {
      var v := GoodOperands(e, w, g);
      GoodConst(0, w, g);
      if e.lhs.Const? {
        if e.rhs.Const? { GoodConst((e.lhs.value * e.rhs.value) % Pow2(w), w, g); }
        FactorGood(e.rhs, e.lhs.value, w, le, fuel, g);
      } else if e.rhs.Const? {
        FactorGood(e.lhs, e.rhs.value, w, le, fuel, g);
      }
    }
  }

  lemma FactorGood(variable: Expr, factor: nat, w: nat, le: Order, fuel: nat, g: Shape)
    requires KeptUpTo(le, fuel, g) && Good(variable, w, g) && 0 < w <= MAX_WIDTH
    ensures GoodOutcome(MulToShiftAdd(variable, factor, w, le, fuel), w, g)
  {
    GoodConst(0, w, g);
    ShiftAddGood(variable, factor, Const(0, w), w, g);
    Again(ShiftAddTerms(variable, factor, Const(0, w), w), w, le, fuel, g);
  }

  lemma SubGood(lhs: Expr, rhs: Expr, w: nat, le: Order, fuel: nat, g: Shape)
    requires KeptUpTo(le, fuel, g) && Good(lhs, w, g) && Good(rhs, w, g) && w > 0
    ensures GoodOutcome(CanonicalizeSub(lhs, rhs, le, fuel), w, g)
  {
    GoodIsNarrow(lhs, w, g);
    GoodConst(0, w, g);
    GoodConst(1, w, g);
    GoodNot(rhs, w, g);
    var sum := Bin(Add, lhs, Not(rhs));
    GoodBin(Add, lhs, Not(rhs), w, g);
    GoodBin(Add, sum, Const(1, w), w, g);
    Again(Bin(Add, sum, Const(1, w)), w, le, fuel, g);
  }

  // ----- the nodes -----

  lemma BinGood(op: BinOp, lhs: Expr, rhs: Expr, w: nat, le: Order, fuel: nat, g: Shape)
    requires WideRegisters(g) && KeptUpTo(le, fuel, g) && Good(Bin(op, lhs, rhs), w, g)
    ensures GoodOutcome(CanonicalizeBin(op, lhs, rhs, le, fuel), w, g)
  {
    var v := GoodOperands(Bin(op, lhs, rhs), w, g);
    TypeIsPositive(lhs, g);
    if IsAssocComm(op) {
      AssocCommBinGood(op, lhs, rhs, w, le, fuel, g);
    } else {
      PlainBinGood(op, lhs, rhs, v, le, fuel, g);
    }
  }

  lemma AssocCommBinGood(op: BinOp, lhs: Expr, rhs: Expr, w: nat, le: Order, fuel: nat, g: Shape)
    requires IsAssocComm(op) && KeptUpTo(le, fuel, g) && Good(lhs, w, g) && Good(rhs, w, g) && w > 0
    ensures GoodOutcome(CanonicalizeBin(op, lhs, rhs, le, fuel), w, g)
  {
    hide Good, CanonicalizeBin, CanonicalizeAssocComm, FinishTree;
    TreeUnfolds(op, lhs, rhs, le, fuel);
    AssocCommGood(op, lhs, rhs, w, le, fuel, g);
    var c := CanonicalizeAssocComm(op, lhs, rhs, le, fuel);
    if c.Done? {
      FinishGood(op, c.value, w, le, fuel, g);
      WithGood(FinishTree(op, c.value, le, fuel), c.obligations, w, g);
    }
  }

  lemma FinishGood(op: BinOp, tree: Expr, w: nat, le: Order, fuel: nat, g: Shape)
    requires IsAssocComm(op) && KeptUpTo(le, fuel, g) && Good(tree, w, g) && w > 0
    ensures GoodOutcome(FinishTree(op, tree, le, fuel), w, g)
  {
    hide Good;
    LowerGood(tree, w, le, fuel, g);
    MulGood(tree, w, le, fuel, g);
  }

  lemma WithGood(r: Outcome<Expr>, more: set<Obligation>, w: nat, g: Shape)
    requires GoodOutcome(r, w, g)
    ensures GoodOutcome(r.With(more), w, g)
  {
  }

  lemma PlainBinGood(op: BinOp, lhs: Expr, rhs: Expr, v: nat, le: Order, fuel: nat, g: Shape)
    requires !IsAssocComm(op) && KeptUpTo(le, fuel, g) && Good(lhs, v, g) && Good(rhs, v, g) && v > 0
    ensures GoodOutcome(CanonicalizeBin(op, lhs, rhs, le, fuel), BinWidth(op, v), g)
  {
    hide Good, CanonicalizeBin, Canonicalize, CanonicalizeOperands;
    PlainUnfolds(op, lhs, rhs, le, fuel);
    Again(lhs, v, le, fuel, g);
    Again(rhs, v, le, fuel, g);
    var l, r := Canonicalize(lhs, le, fuel), Canonicalize(rhs, le, fuel);
    if l.Done? && r.Done? {
      OperandsGood(op, l.value, r.value, v, le, fuel, g);
      WithGood(CanonicalizeOperands(op, l.value, r.value, le, fuel), l.obligations + r.obligations, BinWidth(op, v), g);
    }
  }

  /** What is done with canonical operands of one width. */
  lemma OperandsGood(op: BinOp, l: Expr, r: Expr, v: nat, le: Order, fuel: nat, g: Shape)
    requires !IsAssocComm(op) && KeptUpTo(le, fuel, g) && Good(l, v, g) && Good(r, v, g) && v > 0
    ensures GoodOutcome(CanonicalizeOperands(op, l, r, le, fuel), BinWidth(op, v), g)
  {
    hide Good, CanonicalizeOperands, CanonicalizeSub, CanonicalComparison, CanonicalShift;
    OperandsAre(op, l, r, le, fuel);
    if op == Sub {
      SubGood(l, r, v, le, fuel, g);
    } else if IsComparison(op) {
      ComparisonGood(op, l, r, v, le, g);
    } else {
      ShiftGood(op, l, r, v, g);
    }
  }

  lemma ComparisonGood(op: BinOp, l: Expr, r: Expr, v: nat, le: Order, g: Shape)
    requires IsComparison(op) && Good(l, v, g) && Good(r, v, g)
    ensures Good(CanonicalComparison(op, l, r, le), 1, g)
  {
    GoodConst(BoolVal(op == Equal), 1, g);
    GoodBin(op, l, r, v, g);
    GoodBin(op, r, l, v, g);
  }

  lemma ShiftGood(op: BinOp, value: Expr, amount: Expr, v: nat, g: Shape)
    requires !IsComparison(op) && Good(value, v, g) && Good(amount, v, g) && v > 0
    ensures GoodOutcome(CanonicalShift(op, value, amount), v, g)
  {
    GoodIsNarrow(value, v, g);
    GoodConst(0, v, g);
    GoodBin(op, value, amount, v, g);
  }

  lemma NotGood(value: Expr, w: nat, g: Shape)
    requires Good(value, w, g) && w > 0
    ensures GoodOutcome(CanonicalNot(value), w, g)
  {
    GoodNot(value, w, g);
    GoodIsNarrow(value, w, g);
    match value
    case Const(v, _) => GoodConst(NotVal(v % Pow2(w), w), w, g);
    case Not(inner) => GoodNot(inner, w, g);
    case _ =>
  }

  lemma SliceGood(value: Expr, v: nat, high: nat, low: nat, g: Shape)
    requires Good(value, v, g) && low <= high < v
    ensures GoodOutcome(CanonicalSlice(value, high, low), high - low + 1, g)
  {
    hide ExprWidth;
    GoodIsNarrow(value, v, g);
  }

  lemma ExtensionGood(kind: ExtendOp, value: Expr, v: nat, toWidth: nat, g: Shape)
    requires Good(value, v, g) && v <= toWidth <= MAX_WIDTH
    ensures GoodOutcome(CanonicalExtension(kind, value, toWidth), toWidth, g)
  {
    GoodIsNarrow(value, v, g);
    var inner := StripNested(kind, value);
    assert TypeOf(inner, g).Some? && TypeOf(inner, g).value <= v && OnlyByteReads(inner) && Narrow(inner, g);
  }

  // ----- concatenations -----

  /** The parts are well-formed and together `total` bits wide. */
  ghost predicate GoodParts(parts: seq<Expr>, total: nat, g: Shape)
  {
    PartsType(parts, g) == Some(total) && forall p | p in parts :: OnlyByteReads(p) && Narrow(p, g)
  }

  lemma {:induction false} ChunkGood(parts: seq<Expr>, total: nat, k: nat, g: Shape)
    requires GoodParts(parts, total, g) && k < |parts|
    ensures TypeOf(parts[k], g).Some? && Good(parts[k], TypeOf(parts[k], g).value, g)
  {
    if k < |parts| - 1 { ChunkGood(parts[..|parts| - 1], PartsType(parts[..|parts| - 1], g).value, k, g); }
  }

  /** Canonicalizing the parts one by one keeps each part's type. */
  lemma {:induction false} PartsKept(parts: seq<Expr>, le: Order, fuel: nat, g: Shape)
    requires KeptUpTo(le, fuel, g)
    requires forall k | 0 <= k < |parts| :: TypeOf(parts[k], g).Some? && Good(parts[k], TypeOf(parts[k], g).value, g)
    ensures var r := CanonicalizeAll(parts, le, fuel);
      && !r.Panic?
      && (r.Done? ==> |r.value| == |parts| && forall k | 0 <= k < |parts| ::
                                                Good(r.value[k], TypeOf(parts[k], g).value, g))
  {
    if parts != [] {
      PartsKept(parts[1..], le, fuel, g);
      Again(parts[0], TypeOf(parts[0], g).value, le, fuel, g);
      var r := CanonicalizeAll(parts, le, fuel);
      if r.Done? {
        var rest := CanonicalizeAll(parts[1..], le, fuel).value;
        forall k | 0 <= k < |parts| ensures Good(r.value[k], TypeOf(parts[k], g).value, g) {
          if k > 0 { assert r.value[k] == rest[k - 1] && parts[k] == parts[1..][k - 1]; }
        }
      }
    }
  }

  lemma {:induction false} SamePartsType(a: seq<Expr>, b: seq<Expr>, total: nat, g: Shape)
    requires |a| == |b| && PartsType(a, g) == Some(total)
    requires forall k | 0 <= k < |a| :: TypeOf(b[k], g) == TypeOf(a[k], g)
    ensures PartsType(b, g) == Some(total)
  {
    if a != [] { SamePartsType(a[..|a| - 1], b[..|b| - 1], PartsType(a[..|a| - 1], g).value, g); }
  }

  lemma AppendPart(parts: seq<Expr>, last: Expr, total: nat, w: nat, g: Shape)
    requires GoodParts(parts, total, g) && Good(last, w, g)
    ensures GoodParts(parts + [last], total + w, g)
  {
    assert (parts + [last])[..|parts|] == parts;
  }

  lemma LastPart(parts: seq<Expr>, total: nat, g: Shape) returns (high: nat, low: nat)
    requires GoodParts(parts, total, g) && parts != []
    ensures high + low == total && GoodParts(parts[..|parts| - 1], high, g) && Good(parts[|parts| - 1], low, g)
  {
    high, low := PartsType(parts[..|parts| - 1], g).value, TypeOf(parts[|parts| - 1], g).value;
  }

  /** Merging constant chunks keeps the total width. */
  lemma {:induction false} MergeChunksGood(parts: seq<Expr>, total: nat, g: Shape)
    requires GoodParts(parts, total, g) && total <= MAX_WIDTH
    ensures var m := MergeChunks(parts); m.Some? && GoodParts(m.value, total, g)
  {
    if parts != [] {
      var high, low := LastPart(parts, total, g);
      MergeChunksGood(parts[..|parts| - 1], high, g);
      var merged, last := MergeChunks(parts[..|parts| - 1]), parts[|parts| - 1];
      if merged.Some? {
        if last.Const? && merged.value != [] && merged.value[|merged.value| - 1].Const? {
          JoinedGood(merged.value, last, high, low, g);
        } else if last.Const? {
          GoodConst(last.value % Pow2(low), low, g);
          AppendPart(merged.value, Const(last.value % Pow2(low), low), high, low, g);
        } else {
          AppendPart(merged.value, last, high, low, g);
        }
      }
    }
  }

  /** A constant chunk joined to the constant chunk before it. */
  lemma JoinedGood(merged: seq<Expr>, last: Expr, high: nat, low: nat, g: Shape)
    requires GoodParts(merged, high, g) && Good(last, low, g) && high + low <= MAX_WIDTH
    requires last.Const? && merged != [] && merged[|merged| - 1].Const?
    ensures var previous := merged[|merged| - 1];
      var width := previous.width + last.width;
      GoodParts(merged[..|merged| - 1] +
                [Const(Bitwise(LogicOr, (previous.value % Pow2(previous.width)) * Pow2(last.width),
                               last.value % Pow2(last.width), width), width)], high + low, g)
  {
    var above, middle := LastPart(merged, high, g);
    var previous, width := merged[|merged| - 1], middle + low;
    ProductNat(previous.value % Pow2(middle), Pow2(low));
    var v := Bitwise(LogicOr, (previous.value % Pow2(middle)) * Pow2(low), last.value % Pow2(low), width);
    GoodConst(v, width, g);
    AppendPart(merged[..|merged| - 1], Const(v, width), above, width, g);
  }

  lemma OnePart(parts: seq<Expr>, total: nat, g: Shape)
    requires GoodParts(parts, total, g) && |parts| == 1
    ensures Good(parts[0], total, g)
  {
    assert parts[..0] == [];
    var high, low := LastPart(parts, total, g);
  }

  lemma RebuildConcatGood(parts: seq<Expr>, w: nat, g: Shape)
    requires GoodParts(parts, w, g) && 0 < w <= MAX_WIDTH
    ensures GoodOutcome(RebuildConcat(parts), w, g)
  {
    MergeChunksGood(parts, w, g);
    var m := MergeChunks(parts);
    if |m.value| == 1 { OnePart(m.value, w, g); }
  }

  lemma ConcatGood(parts: seq<Expr>, w: nat, le: Order, fuel: nat, g: Shape)
    requires KeptUpTo(le, fuel, g) && Good(Concat(parts), w, g)
    ensures var c := CanonicalizeAll(parts, le, fuel);
      !c.Panic? && (c.Done? ==> GoodOutcome(RebuildConcat(c.value), w, g))
  {
    forall k | 0 <= k < |parts| ensures TypeOf(parts[k], g).Some? && Good(parts[k], TypeOf(parts[k], g).value, g) {
      ChunkGood(parts, w, k, g);
    }
    PartsKept(parts, le, fuel, g);
    var c := CanonicalizeAll(parts, le, fuel);
    if c.Done? {
      SamePartsType(parts, c.value, w, g);
      assert GoodParts(c.value, w, g);
      RebuildConcatGood(c.value, w, g);
    }
  }

  // ----- the recursion -----

  lemma FlagGood(flag: FlagOp, lhs: Expr, rhs: Expr, flagIn: Expr, v: nat, le: Order, fuel: nat, g: Shape)
    requires KeptUpTo(le, fuel, g) && Good(Flag(flag, lhs, rhs, flagIn, v), 1, g)
    ensures GoodOutcome(CanonicalizeFlag(flag, lhs, rhs, flagIn, v, le, fuel), 1, g)
  {
    hide CanonicalizeFlag, Canonicalize;
    FlagUnfolds(flag, lhs, rhs, flagIn, v, le, fuel);
    GoodNot(rhs, v, g);
    GoodNot(flagIn, 1, g);
    Again(lhs, v, le, fuel, g);
    Again(FlagOperand(flag, rhs), v, le, fuel, g);
    Again(FlagOperand(flag, flagIn), 1, le, fuel, g);
  }

  lemma ChoiceGood(condition: Expr, whenTrue: Expr, whenFalse: Expr, w: nat, le: Order, fuel: nat, g: Shape)
    requires WideRegisters(g) && KeptUpTo(le, fuel, g) && Good(Select(condition, whenTrue, whenFalse), w, g)
    ensures GoodOutcome(CanonicalizeChoice(condition, whenTrue, whenFalse, le, fuel), w, g)
  {
    TypeIsPositive(whenTrue, g);
    Again(condition, 1, le, fuel, g);
    Again(whenTrue, w, le, fuel, g);
    Again(whenFalse, w, le, fuel, g);
    var c, t, f := Canonicalize(condition, le, fuel), Canonicalize(whenTrue, le, fuel),
                   Canonicalize(whenFalse, le, fuel);
    if c.Done? && t.Done? && f.Done? {
      ChosenGood(c.value, t.value, f.value, w, le, fuel, g);
      WithGood(CanonicalizeSelect(c.value, t.value, f.value, le, fuel),
               c.obligations + t.obligations + f.obligations, w, g);
    }
  }

  lemma ChosenGood(c: Expr, t: Expr, f: Expr, w: nat, le: Order, fuel: nat, g: Shape)
    requires KeptUpTo(le, fuel, g) && Good(c, 1, g) && Good(t, w, g) && Good(f, w, g) && w > 0
    ensures GoodOutcome(CanonicalizeSelect(c, t, f, le, fuel), w, g)
  {
    assert Good(Select(c, t, f), w, g);
    LowerGood(Select(c, t, f), w, le, fuel, g);
  }

  lemma ReadGood(e: Expr, w: nat, le: Order, fuel: nat, g: Shape)
    requires (e.ReadRegister? || e.ReadMemory?) && fuel > 0 && KeptUpTo(le, fuel - 1, g) && Good(e, w, g)
    ensures GoodOutcome(Canonicalize(e, le, fuel), w, g)
  {
    if e.ReadMemory? {
      Again(e.address, g.addressWidth, le, fuel - 1, g);
    } else {
      Again(e.register, g.identifierWidth, le, fuel - 1, g);
    }
  }

  lemma UnaryGood(e: Expr, w: nat, le: Order, fuel: nat, g: Shape)
    requires WideRegisters(g) && (e.Not? || e.CountOnes?) && fuel > 0 && KeptUpTo(le, fuel - 1, g) && Good(e, w, g)
    ensures GoodOutcome(Canonicalize(e, le, fuel), w, g)
  {
    TypeIsPositive(e.operand, g);
    Again(e.operand, w, le, fuel - 1, g);
    var c := Canonicalize(e.operand, le, fuel - 1);
    if c.Done? && e.Not? { NotGood(c.value, w, g); }
  }

  lemma PartGood(e: Expr, w: nat, le: Order, fuel: nat, g: Shape)
    requires (e.Slice? || e.Extend?) && fuel > 0 && KeptUpTo(le, fuel - 1, g) && Good(e, w, g)
    ensures GoodOutcome(Canonicalize(e, le, fuel), w, g)
  {
    var v := TypeOf(e.operand, g).value;
    Again(e.operand, v, le, fuel - 1, g);
    var c := Canonicalize(e.operand, le, fuel - 1);
    if c.Done? {
      if e.Slice? { SliceGood(c.value, v, e.high, e.low, g); } else { ExtensionGood(e.kind, c.value, v, e.toWidth, g); }
    }
  }

  lemma TypingStep(e: Expr, w: nat, le: Order, fuel: nat, g: Shape)
    requires WideRegisters(g) && fuel > 0 && KeptUpTo(le, fuel - 1, g) && Good(e, w, g)
    ensures GoodOutcome(Canonicalize(e, le, fuel), w, g)
  {
    hide KeptUpTo, CanonicalizeBin, CanonicalizeFlag, CanonicalizeChoice;
    match e
    case Const(value, width) => GoodConst(value % Pow2(width), width, g);
    case RegisterField(_) =>
    case ImmediateField(_) =>
    case DerivedValue(_) =>
    case ReadRegister(_, _) => ReadGood(e, w, le, fuel, g);
    case ReadMemory(_, _) => ReadGood(e, w, le, fuel, g);
    case Bin(op, lhs, rhs) => BinGood(op, lhs, rhs, w, le, fuel - 1, g);
    case Concat(parts) => ConcatGood(parts, w, le, fuel - 1, g);
    case Flag(flag, lhs, rhs, flagIn, v) => FlagGood(flag, lhs, rhs, flagIn, v, le, fuel - 1, g);
    case Select(c, t, f) => ChoiceGood(c, t, f, w, le, fuel - 1, g);
    case Not(_) => UnaryGood(e, w, le, fuel, g);
    case CountOnes(_) => UnaryGood(e, w, le, fuel, g);
    case _ => PartGood(e, w, le, fuel, g);
  }

  /** Canonicalizing a well-formed expression does not fail over a width; once finished, the result has the
      expression's type, reads memory byte by byte and stays narrow. */
  lemma {:induction false} CanonicalizeKeepsType(e: Expr, w: nat, le: Order, fuel: nat, g: Shape)
    requires WideRegisters(g) && Good(e, w, g)
    ensures GoodOutcome(Canonicalize(e, le, fuel), w, g)
    decreases fuel
  {
    if fuel > 0 {
      var less := fuel - 1;
      forall x ensures Kept(x, Canonicalize(x, le, less), g) {
        forall v | Good(x, v, g) ensures GoodOutcome(Canonicalize(x, le, less), v, g) {
          CanonicalizeKeepsType(x, v, le, less, g);
        }
      }
      TypingStep(e, w, le, fuel, g);
    }
  }

  /** A finished canonicalization of a well-formed expression can be lowered to bits. */
  lemma CanonicalizeIsLowerable(e: Expr, w: nat, le: Order, fuel: nat, g: Shape)
    requires WideRegisters(g) && Good(e, w, g) && Canonicalize(e, le, fuel).Done?
    ensures var c := Canonicalize(e, le, fuel).value; Lowerable(c, g) && TypeOf(c, g) == Some(w)
  {
    CanonicalizeKeepsType(e, w, le, fuel, g);
    CanonicalizeForm(e, le, fuel);
    CanonicalIsLowerable(Canonicalize(e, le, fuel).value, g);
  }
}
