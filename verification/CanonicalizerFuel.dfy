/** The outcome of a run does not depend on how much fuel it was given beyond enough. */
module CanonicalizerFuel {
  import opened Words
  import opened Exprs
  import opened Canonicalizer

  ghost predicate Agrees<T>(less: Outcome<T>, more: Outcome<T>)
  {
    !less.OutOfFuel? ==> more == less
  }

  ghost predicate StableBetween(le: Order, f: nat, g: nat)
  {
    forall e :: Agrees(Canonicalize(e, le, f), Canonicalize(e, le, g))
  }

  lemma Instance(e: Expr, le: Order, f: nat, g: nat)
    requires StableBetween(le, f, g)
    ensures Agrees(Canonicalize(e, le, f), Canonicalize(e, le, g))
  {
    hide Canonicalize;
  }

  lemma {:induction false} AllStable(terms: seq<Expr>, le: Order, f: nat, g: nat)
    requires StableBetween(le, f, g)
    ensures Agrees(CanonicalizeAll(terms, le, f), CanonicalizeAll(terms, le, g))
  {
    if terms != [] {
      Instance(terms[0], le, f, g);
      AllStable(terms[1..], le, f, g);
    }
  }

  lemma EitherStable(l: Outcome<bool>, r: Outcome<bool>, l': Outcome<bool>, r': Outcome<bool>)
    requires Agrees(l, l') && Agrees(r, r')
    ensures Agrees(EitherHit(l, r), EitherHit(l', r'))
  {
  }

  lemma {:induction false} ContainsStable(op: BinOp, e: Expr, needle: Expr, le: Order, f: nat, g: nat)
    requires StableBetween(le, f, g)
    ensures Agrees(ContainsTerm(op, e, needle, le, f), ContainsTerm(op, e, needle, le, g))
    decreases e
  {
    hide ContainsTerm, Canonicalize;
    if e.Bin? && e.op == op {
      ContainsStable(op, e.lhs, needle, le, f, g);
      ContainsStable(op, e.rhs, needle, le, f, g);
      ContainsUnfolds(op, e, needle, le, f);
      ContainsUnfolds(op, e, needle, le, g);
      EitherStable(ContainsTerm(op, e.lhs, needle, le, f), ContainsTerm(op, e.rhs, needle, le, f),
                   ContainsTerm(op, e.lhs, needle, le, g), ContainsTerm(op, e.rhs, needle, le, g));
    } else {
      Instance(e, le, f, g);
      ContainsAtLeaf(op, e, needle, le, f);
      ContainsAtLeaf(op, e, needle, le, g);
    }
  }

  lemma {:induction false} FirstAbsorberStable(
    op: BinOp, t: Expr, canonical: seq<Expr>, i: nat, j: nat, le: Order, f: nat, g: nat)
    requires StableBetween(le, f, g) && j <= |canonical|
    ensures Agrees(FirstAbsorber(op, t, canonical, i, j, le, f), FirstAbsorber(op, t, canonical, i, j, le, g))
    decreases |canonical| - j
  {
    if j < |canonical| {
      ContainsStable(op, t, canonical[j], le, f, g);
      FirstAbsorberStable(op, t, canonical, i, j + 1, le, f, g);
    }
  }

  lemma {:induction false} AbsorbersStable(
    op: BinOp, terms: seq<Expr>, canonical: seq<Expr>, i: nat, le: Order, f: nat, g: nat)
    requires StableBetween(le, f, g) && i <= |terms|
    ensures Agrees(Absorbers(op, terms, canonical, i, le, f), Absorbers(op, terms, canonical, i, le, g))
    decreases |terms| - i
  {
    if i < |terms| {
      AbsorbersStable(op, terms, canonical, i + 1, le, f, g);
      FirstAbsorberStable(op, terms[i], canonical, i, 0, le, f, g);
    }
  }

  lemma AssocCommStable(op: BinOp, lhs: Expr, rhs: Expr, le: Order, f: nat, g: nat)
    requires IsAssocComm(op) && StableBetween(le, f, g)
    ensures Agrees(CanonicalizeAssocComm(op, lhs, rhs, le, f), CanonicalizeAssocComm(op, lhs, rhs, le, g))
  {
    var terms := Flatten(op, lhs) + Flatten(op, rhs);
    RemoveAbsorbedStable(op, terms, le, f, g);
    var kept := RemoveAbsorbed(op, terms, le, f);
    if kept.Done? { AllStable(kept.value, le, f, g); }
  }

  lemma RemoveAbsorbedStable(op: BinOp, terms: seq<Expr>, le: Order, f: nat, g: nat)
    requires StableBetween(le, f, g)
    ensures Agrees(RemoveAbsorbed(op, terms, le, f), RemoveAbsorbed(op, terms, le, g))
  {
    AllStable(terms, le, f, g);
    var c := CanonicalizeAll(terms, le, f);
    if c.Done? { AbsorbersStable(Opposite(op), terms, c.value, 0, le, f, g); }
  }

  lemma LowerStable(e: Expr, le: Order, f: nat, g: nat)
    requires StableBetween(le, f, g)
    ensures Agrees(LowerOperators(e, le, f), LowerOperators(e, le, g))
  {
    if e.Bin? {
      Instance(LowerOr(e.lhs, e.rhs), le, f, g);
      Instance(LowerXor(e.lhs, e.rhs), le, f, g);
    }
    if e.Select? && ExprWidth(e.whenTrue).Some? {
      Instance(LowerSelect(e.condition, e.whenTrue, e.whenFalse, ExprWidth(e.whenTrue).value), le, f, g);
    }
  }

  lemma MulStable(e: Expr, le: Order, f: nat, g: nat)
    requires StableBetween(le, f, g)
    ensures Agrees(CanonicalizeMul(e, le, f), CanonicalizeMul(e, le, g))
  {
    if e.Bin? && ExprWidth(e).Some? {
      var w := ExprWidth(e).value;
      if e.lhs.Const? { Instance(ShiftAddTerms(e.rhs, e.lhs.value, Const(0, w), w), le, f, g); }
      if e.rhs.Const? { Instance(ShiftAddTerms(e.lhs, e.rhs.value, Const(0, w), w), le, f, g); }
    }
  }

  lemma SubStable(lhs: Expr, rhs: Expr, le: Order, f: nat, g: nat)
    requires StableBetween(le, f, g)
    ensures Agrees(CanonicalizeSub(lhs, rhs, le, f), CanonicalizeSub(lhs, rhs, le, g))
  {
    if ExprWidth(lhs).Some? {
      Instance(Bin(Add, Bin(Add, lhs, Not(rhs)), Const(1, ExprWidth(lhs).value)), le, f, g);
    }
  }

  lemma BinStable(op: BinOp, lhs: Expr, rhs: Expr, le: Order, f: nat, g: nat)
    requires StableBetween(le, f, g)
    ensures Agrees(CanonicalizeBin(op, lhs, rhs, le, f), CanonicalizeBin(op, lhs, rhs, le, g))
  {
    if IsAssocComm(op) { AssocCommBinStable(op, lhs, rhs, le, f, g); } else { PlainBinStable(op, lhs, rhs, le, f, g); }
  }

  lemma AssocCommBinStable(op: BinOp, lhs: Expr, rhs: Expr, le: Order, f: nat, g: nat)
    requires StableBetween(le, f, g) && IsAssocComm(op)
    ensures Agrees(CanonicalizeBin(op, lhs, rhs, le, f), CanonicalizeBin(op, lhs, rhs, le, g))
  {
    hide CanonicalizeBin, CanonicalizeAssocComm, FinishTree;
    TreeUnfolds(op, lhs, rhs, le, f);
    TreeUnfolds(op, lhs, rhs, le, g);
    AssocCommStable(op, lhs, rhs, le, f, g);
    var c := CanonicalizeAssocComm(op, lhs, rhs, le, f);
    if c.Done? {
      FinishStable(op, c.value, le, f, g);
      WithStable(FinishTree(op, c.value, le, f), FinishTree(op, c.value, le, g), c.obligations);
    }
  }

  lemma FinishStable(op: BinOp, tree: Expr, le: Order, f: nat, g: nat)
    requires IsAssocComm(op) && StableBetween(le, f, g)
    ensures Agrees(FinishTree(op, tree, le, f), FinishTree(op, tree, le, g))
  {
    if op == Add || op == Mul { MulStable(tree, le, f, g); } else { LowerStable(tree, le, f, g); }
  }

  lemma PlainBinStable(op: BinOp, lhs: Expr, rhs: Expr, le: Order, f: nat, g: nat)
    requires StableBetween(le, f, g) && !IsAssocComm(op)
    ensures Agrees(CanonicalizeBin(op, lhs, rhs, le, f), CanonicalizeBin(op, lhs, rhs, le, g))
  {
    hide CanonicalizeBin, Canonicalize, CanonicalizeOperands;
    PlainUnfolds(op, lhs, rhs, le, f);
    PlainUnfolds(op, lhs, rhs, le, g);
    Instance(lhs, le, f, g);
    Instance(rhs, le, f, g);
    var l, r := Canonicalize(lhs, le, f), Canonicalize(rhs, le, f);
    if l.Done? && r.Done? {
      OperandsStable(op, l.value, r.value, le, f, g);
      WithStable(CanonicalizeOperands(op, l.value, r.value, le, f), CanonicalizeOperands(op, l.value, r.value, le, g),
                 l.obligations + r.obligations);
    }
  }

  lemma OperandsStable(op: BinOp, lhs: Expr, rhs: Expr, le: Order, f: nat, g: nat)
    requires !IsAssocComm(op) && StableBetween(le, f, g)
    ensures Agrees(CanonicalizeOperands(op, lhs, rhs, le, f), CanonicalizeOperands(op, lhs, rhs, le, g))
  {
    if op == Sub { SubStable(lhs, rhs, le, f, g); }
  }

  lemma ChoiceStable(c: Expr, t: Expr, e: Expr, le: Order, f: nat, g: nat)
    requires StableBetween(le, f, g)
    ensures Agrees(CanonicalizeChoice(c, t, e, le, f), CanonicalizeChoice(c, t, e, le, g))
  {
    Instance(c, le, f, g);
    Instance(t, le, f, g);
    Instance(e, le, f, g);
    var c', t', e' := Canonicalize(c, le, f), Canonicalize(t, le, f), Canonicalize(e, le, f);
    if !c'.Done? {
      FirstFails(c, t, e, le, f, g);
    } else if t'.Done? && e'.Done? {
      SelectStable(c'.value, t'.value, e'.value, le, f, g);
      ChoiceUnfolds(c, t, e, c', t', e', le, f);
      ChoiceUnfolds(c, t, e, c', t', e', le, g);
      WithStable(CanonicalizeSelect(c'.value, t'.value, e'.value, le, f),
                 CanonicalizeSelect(c'.value, t'.value, e'.value, le, g),
                 c'.obligations + t'.obligations + e'.obligations);
    } else {
      LaterFails(c, t, e, le, f, g);
    }
  }

  lemma WithStable(r: Outcome<Expr>, r': Outcome<Expr>, more: set<Obligation>)
    requires Agrees(r, r')
    ensures Agrees(r.With(more), r'.With(more))
  {
  }

  lemma ChoiceUnfolds(
    c: Expr, t: Expr, e: Expr, c': Outcome<Expr>, t': Outcome<Expr>, e': Outcome<Expr>, le: Order, f: nat)
    requires c'.Done? && t'.Done? && e'.Done?
    requires c' == Canonicalize(c, le, f) && t' == Canonicalize(t, le, f) && e' == Canonicalize(e, le, f)
    ensures CanonicalizeChoice(c, t, e, le, f)
            == CanonicalizeSelect(c'.value, t'.value, e'.value, le, f)
               .With(c'.obligations + t'.obligations + e'.obligations)
  {
  }

  lemma FirstFails(c: Expr, t: Expr, e: Expr, le: Order, f: nat, g: nat)
    requires !Canonicalize(c, le, f).Done? && Agrees(Canonicalize(c, le, f), Canonicalize(c, le, g))
    ensures Agrees(CanonicalizeChoice(c, t, e, le, f), CanonicalizeChoice(c, t, e, le, g))
  {
  }

  lemma LaterFails(c: Expr, t: Expr, e: Expr, le: Order, f: nat, g: nat)
    requires Canonicalize(c, le, f).Done? && Agrees(Canonicalize(c, le, f), Canonicalize(c, le, g))
    requires Agrees(Canonicalize(t, le, f), Canonicalize(t, le, g))
             && Agrees(Canonicalize(e, le, f), Canonicalize(e, le, g))
    requires !Canonicalize(t, le, f).Done? || !Canonicalize(e, le, f).Done?
    ensures Agrees(CanonicalizeChoice(c, t, e, le, f), CanonicalizeChoice(c, t, e, le, g))
  {
  }

  lemma SelectStable(c: Expr, t: Expr, e: Expr, le: Order, f: nat, g: nat)
    requires StableBetween(le, f, g)
    ensures Agrees(CanonicalizeSelect(c, t, e, le, f), CanonicalizeSelect(c, t, e, le, g))
  {
    LowerStable(Select(c, t, e), le, f, g);
  }

  lemma FlagStable(flag: FlagOp, lhs: Expr, rhs: Expr, flagIn: Expr, width: nat, le: Order, f: nat, g: nat)
    requires StableBetween(le, f, g)
    ensures Agrees(CanonicalizeFlag(flag, lhs, rhs, flagIn, width, le, f),
                   CanonicalizeFlag(flag, lhs, rhs, flagIn, width, le, g))
  {
    Instance(lhs, le, f, g);
    Instance(FlagOperand(flag, rhs), le, f, g);
    Instance(FlagOperand(flag, flagIn), le, f, g);
  }

  lemma StableStep(e: Expr, le: Order, f: nat, g: nat)
    requires f > 0 && g > 0 && StableBetween(le, f - 1, g - 1)
    ensures Agrees(Canonicalize(e, le, f), Canonicalize(e, le, g))
  {
    match e
    case Bin(op, lhs, rhs) => BinStable(op, lhs, rhs, le, f - 1, g - 1);
    case Concat(parts) => ConcatStable(parts, le, f, g);
    case Flag(flag, lhs, rhs, flagIn, width) => FlagStable(flag, lhs, rhs, flagIn, width, le, f - 1, g - 1);
    case Select(c, t, x) => ChoiceStable(c, t, x, le, f - 1, g - 1);
    case ReadRegister(_, _) => ReadStable(e, le, f, g);
    case ReadMemory(_, _) => ReadStable(e, le, f, g);
    case Not(_) => UnaryStable(e, le, f, g);
    case CountOnes(_) => UnaryStable(e, le, f, g);
    case Slice(operand, high, low) => SliceStable(operand, high, low, le, f, g);
    case Extend(kind, operand, toWidth) => ExtendStable(kind, operand, toWidth, le, f, g);
    case _ =>
  }

  lemma ConcatStable(parts: seq<Expr>, le: Order, f: nat, g: nat)
    requires f > 0 && g > 0 && StableBetween(le, f - 1, g - 1)
    ensures Agrees(Canonicalize(Concat(parts), le, f), Canonicalize(Concat(parts), le, g))
  {
    AllStable(parts, le, f - 1, g - 1);
  }

  lemma UnaryStable(e: Expr, le: Order, f: nat, g: nat)
    requires f > 0 && g > 0 && StableBetween(le, f - 1, g - 1) && (e.Not? || e.CountOnes?)
    ensures Agrees(Canonicalize(e, le, f), Canonicalize(e, le, g))
  {
    Instance(e.operand, le, f - 1, g - 1);
  }

  lemma ReadStable(e: Expr, le: Order, f: nat, g: nat)
    requires f > 0 && g > 0 && StableBetween(le, f - 1, g - 1) && (e.ReadRegister? || e.ReadMemory?)
    ensures Agrees(Canonicalize(e, le, f), Canonicalize(e, le, g))
  {
    Instance(if e.ReadRegister? then e.register else e.address, le, f - 1, g - 1);
  }

  lemma SliceStable(operand: Expr, high: nat, low: nat, le: Order, f: nat, g: nat)
    requires f > 0 && g > 0 && StableBetween(le, f - 1, g - 1)
    ensures Agrees(Canonicalize(Slice(operand, high, low), le, f), Canonicalize(Slice(operand, high, low), le, g))
  {
    Instance(operand, le, f - 1, g - 1);
  }

  lemma ExtendStable(kind: ExtendOp, operand: Expr, toWidth: nat, le: Order, f: nat, g: nat)
    requires f > 0 && g > 0 && StableBetween(le, f - 1, g - 1)
    ensures Agrees(Canonicalize(Extend(kind, operand, toWidth), le, f),
                   Canonicalize(Extend(kind, operand, toWidth), le, g))
  {
    Instance(operand, le, f - 1, g - 1);
  }

  /** A run that does not exhaust its fuel has the same outcome with any larger amount. */
  lemma {:induction false} FuelIsIrrelevant(e: Expr, le: Order, f: nat, g: nat)
    requires f <= g
    ensures Agrees(Canonicalize(e, le, f), Canonicalize(e, le, g))
    decreases f
  {
    if f > 0 {
      var a, b := f - 1, g - 1;
      forall x ensures Agrees(Canonicalize(x, le, a), Canonicalize(x, le, b)) { FuelIsIrrelevant(x, le, a, b); }
      StableStep(e, le, f, g);
    }
  }
}
