/** The meaning theorem for the canonicalizer and the two inputs on which it is not valid. */
module CanonicalizerTheorems {
  import opened Words
  import opened WordLaws
  import opened Exprs
  import opened Canonicalizer
  import opened CanonicalizerMeaning
  import opened CanonicalizerSound
  import opened CanonicalizerForm
  import opened ShiftAdd

  lemma AssembledProduct(op: BinOp, e: Expr)
    requires (op == Add ==> IsCanonical(e)) && Assembled(op, e)
    requires op == Add || op == Mul
    ensures e.Bin? && e.op == Mul ==> Reduced(e.lhs) && Reduced(e.rhs)
  {
  }

  lemma TreeSound(op: BinOp, lhs: Expr, rhs: Expr, le: Order, fuel: nat, s: MachineState)
    requires IsAssocComm(op) && SoundUpTo(le, fuel, s) && MemoryWellFormed(s) && FormUpTo(le, fuel)
    ensures SoundAt(Bin(op, lhs, rhs), CanonicalizeBin(op, lhs, rhs, le, fuel), s)
  {
    hide CanonicalizeBin, FinishTree, Assembled;
    TreeUnfolds(op, lhs, rhs, le, fuel);
    AssocCommSound(op, lhs, rhs, le, fuel, s);
    AssocCommForm(op, lhs, rhs, le, fuel);
    var c := CanonicalizeAssocComm(op, lhs, rhs, le, fuel);
    if c.Done? {
      FinishSound(op, c.value, le, fuel, s);
      StepsSound(Bin(op, lhs, rhs), c, FinishTree(op, c.value, le, fuel), s);
    }
  }

  lemma FinishSound(op: BinOp, tree: Expr, le: Order, fuel: nat, s: MachineState)
    requires IsAssocComm(op) && SoundUpTo(le, fuel, s) && MemoryWellFormed(s)
    requires Assembled(op, tree) && (op == And || op == Add ==> IsCanonical(tree))
    ensures SoundAt(tree, FinishTree(op, tree, le, fuel), s)
  {
    if op == Add || op == Mul {
      AssembledProduct(op, tree);
      CanonicalizeMulSound(tree, le, fuel, s);
    } else if op != And {
      LowerOperatorsSound(tree, le, fuel, s);
    }
  }

  /** Two rewrites in a row. */
  lemma StepsSound(e: Expr, first: Outcome<Expr>, second: Outcome<Expr>, s: MachineState)
    requires first.Done? && SoundAt(e, first, s) && SoundAt(first.value, second, s)
    ensures SoundAt(e, second.With(first.obligations), s)
  {
    var all := second.With(first.obligations);
    if all.Done? && AllHold(all.obligations, s) {
      assert AllHold(first.obligations, s) && AllHold(second.obligations, s);
    }
  }

  lemma OneValue(s: MachineState, w: nat)
    requires w > 0
    ensures Has(Const(1, w), s, w) && Val(Const(1, w), s) == 1
  {
    SmallMod(1, Pow2(w));
  }

  /** `x - y` and `(x + !y) + 1` have the same value. */
  lemma SubMeaning(lhs: Expr, rhs: Expr, s: MachineState, w: nat)
    requires w > 0 && Has(lhs, s, w) && Has(rhs, s, w)
    ensures Eval(Bin(Add, Bin(Add, lhs, Not(rhs)), Const(1, w)), s) == Eval(Bin(Sub, lhs, rhs), s)
  {
    var l, r := Eval(lhs, s).value, Eval(rhs, s).value;
    OneValue(s, w);
    DifferenceAsSum(lhs, rhs, Not(rhs), Const(1, w), l, r, s);
  }

  lemma DifferenceAsSum(lhs: Expr, rhs: Expr, complement: Expr, one: Expr, l: Word, r: Word, s: MachineState)
    requires Eval(lhs, s) == Some(l) && Eval(rhs, s) == Some(r) && l.width == r.width
    requires Eval(complement, s) == Some(Word(NotVal(r.value, r.width), r.width))
             && Eval(one, s) == Some(Word(1, l.width))
    ensures Eval(Bin(Add, Bin(Add, lhs, complement), one), s) == Eval(Bin(Sub, lhs, rhs), s)
  {
    hide Eval, Pow2, NotVal;
    var w, inverse := l.width, NotVal(r.value, r.width);
    var total: nat := ((l.value + inverse) % Pow2(w) + 1) % Pow2(w);
    SubAsAdd(l.value, r.value, w);
    SumOfThree(lhs, complement, one, l, Word(inverse, w), Word(1, w), total, s);
    DifferenceWord(lhs, rhs, l, r, total, s);
  }

  lemma SumOfThree(x: Expr, y: Expr, z: Expr, a: Word, b: Word, c: Word, total: nat, s: MachineState)
    requires Eval(x, s) == Some(a) && Eval(y, s) == Some(b) && Eval(z, s) == Some(c)
    requires a.width == b.width == c.width && total == ((a.value + b.value) % Pow2(a.width) + c.value) % Pow2(a.width)
    ensures Eval(Bin(Add, Bin(Add, x, y), z), s) == Some(RawWord.Word(total, a.width))
  {
    var sum := (a.value + b.value) % Pow2(a.width);
    AddWords(x, y, a, b, sum, s);
    AddWords(Bin(Add, x, y), z, Word(sum, a.width), c, total, s);
  }

  lemma DifferenceWord(lhs: Expr, rhs: Expr, l: Word, r: Word, total: nat, s: MachineState)
    requires Eval(lhs, s) == Some(l) && Eval(rhs, s) == Some(r) && l.width == r.width
    requires total == (l.value - r.value) % Pow2(l.width)
    ensures Eval(Bin(Sub, lhs, rhs), s) == Some(RawWord.Word(total, l.width))
  {
  }

  lemma SubIdentities(lhs: Expr, rhs: Expr, s: MachineState, w: nat)
    requires w > 0 && Has(lhs, s, w) && Has(rhs, s, w)
    ensures lhs == rhs ==> Eval(Const(0, w), s) == Eval(Bin(Sub, lhs, rhs), s)
    ensures rhs.Const? && rhs.value % Pow2(rhs.width) == 0 ==> Eval(lhs, s) == Eval(Bin(Sub, lhs, rhs), s)
  {
    BinValue(Sub, lhs, rhs, s, w);
    SmallMod(Val(lhs, s), Pow2(w));
    SmallMod(0, Pow2(w));
  }

  lemma SubSound(lhs: Expr, rhs: Expr, le: Order, fuel: nat, s: MachineState)
    requires SoundUpTo(le, fuel, s) && MemoryWellFormed(s)
    ensures SoundAt(Bin(Sub, lhs, rhs), CanonicalizeSub(lhs, rhs, le, fuel), s)
  {
    if Eval(Bin(Sub, lhs, rhs), s).Some? {
      var w := Eval(lhs, s).value.width;
      EvalHasStaticWidth(lhs, s);
      SubIdentities(lhs, rhs, s, w);
      SubMeaning(lhs, rhs, s, w);
      var again := Bin(Add, Bin(Add, lhs, Not(rhs)), Const(1, w));
      assert SoundAt(again, Canonicalize(again, le, fuel), s);
    }
  }

  lemma OperandsSound(op: BinOp, lhs: Expr, rhs: Expr, le: Order, fuel: nat, s: MachineState)
    requires !IsAssocComm(op) && SoundUpTo(le, fuel, s) && MemoryWellFormed(s)
    ensures SoundAt(Bin(op, lhs, rhs), CanonicalizeOperands(op, lhs, rhs, le, fuel), s)
  {
    if op == Sub {
      SubSound(lhs, rhs, le, fuel, s);
    } else if IsComparison(op) {
      ComparisonMeaning(op, lhs, rhs, le, s);
    } else {
      ShiftMeaning(op, lhs, rhs, s);
    }
  }

  /** Replacing the operands of an operator by equals. */
  lemma PlainBinSound(op: BinOp, lhs: Expr, rhs: Expr, le: Order, fuel: nat, s: MachineState)
    requires !IsAssocComm(op)
    requires SoundUpTo(le, fuel, s) && MemoryWellFormed(s)
    ensures SoundAt(Bin(op, lhs, rhs), CanonicalizeBin(op, lhs, rhs, le, fuel), s)
  {
    hide CanonicalizeBin, CanonicalizeOperands;
    PlainUnfolds(op, lhs, rhs, le, fuel);
    var l, r := Canonicalize(lhs, le, fuel), Canonicalize(rhs, le, fuel);
    assert SoundAt(lhs, l, s) && SoundAt(rhs, r, s);
    if l.Done? && r.Done? {
      var all := CanonicalizeOperands(op, l.value, r.value, le, fuel);
      OperandsSound(op, l.value, r.value, le, fuel, s);
      OperandsReplaced(op, lhs, rhs, l, r, all, s);
    }
  }

  lemma OperandsReplaced(
    op: BinOp, lhs: Expr, rhs: Expr, l: Outcome<Expr>, r: Outcome<Expr>, all: Outcome<Expr>, s: MachineState)
    requires l.Done? && r.Done? && SoundAt(lhs, l, s) && SoundAt(rhs, r, s)
             && SoundAt(Bin(op, l.value, r.value), all, s)
    ensures SoundAt(Bin(op, lhs, rhs), all.With(l.obligations + r.obligations), s)
  {
    var o := all.With(l.obligations + r.obligations);
    if o.Done? && AllHold(o.obligations, s) && Eval(Bin(op, lhs, rhs), s).Some? {
      assert AllHold(l.obligations, s) && AllHold(r.obligations, s) && AllHold(all.obligations, s);
      assert Eval(Bin(op, l.value, r.value), s) == Eval(Bin(op, lhs, rhs), s);
    }
  }

  lemma BinSound(op: BinOp, lhs: Expr, rhs: Expr, le: Order, fuel: nat, s: MachineState)
    requires SoundUpTo(le, fuel, s) && MemoryWellFormed(s) && FormUpTo(le, fuel)
    ensures SoundAt(Bin(op, lhs, rhs), CanonicalizeBin(op, lhs, rhs, le, fuel), s)
  {
    if IsAssocComm(op) { TreeSound(op, lhs, rhs, le, fuel, s); } else { PlainBinSound(op, lhs, rhs, le, fuel, s); }
  }

  lemma FlagSound(flag: FlagOp, lhs: Expr, rhs: Expr, flagIn: Expr, width: nat, le: Order, fuel: nat, s: MachineState)
    requires SoundUpTo(le, fuel, s)
    ensures SoundAt(Flag(flag, lhs, rhs, flagIn, width), CanonicalizeFlag(flag, lhs, rhs, flagIn, width, le, fuel), s)
  {
    hide CanonicalizeFlag, Canonicalize;
    FlagUnfolds(flag, lhs, rhs, flagIn, width, le, fuel);
    FlagMeaning(flag, lhs, rhs, flagIn, width, s);
    var x, y := FlagOperand(flag, rhs), FlagOperand(flag, flagIn);
    assert SoundAt(lhs, Canonicalize(lhs, le, fuel), s);
    assert SoundAt(x, Canonicalize(x, le, fuel), s);
    assert SoundAt(y, Canonicalize(y, le, fuel), s);
  }

  lemma ChoiceSound(c: Expr, t: Expr, f: Expr, le: Order, fuel: nat, s: MachineState)
    requires SoundUpTo(le, fuel, s) && MemoryWellFormed(s)
    ensures SoundAt(Select(c, t, f), CanonicalizeChoice(c, t, f, le, fuel), s)
  {
    var c', t', f' := Canonicalize(c, le, fuel), Canonicalize(t, le, fuel), Canonicalize(f, le, fuel);
    assert SoundAt(c, c', s) && SoundAt(t, t', s) && SoundAt(f, f', s);
    if c'.Done? && t'.Done? && f'.Done? {
      var r := CanonicalizeSelect(c'.value, t'.value, f'.value, le, fuel);
      CanonicalSelectSound(c'.value, t'.value, f'.value, le, fuel, s);
      ChildrenReplaced(c, t, f, c', t', f', r, s);
    }
  }

  lemma ChildrenReplaced(
    c: Expr, t: Expr, f: Expr, c': Outcome<Expr>, t': Outcome<Expr>, f': Outcome<Expr>, r: Outcome<Expr>,
    s: MachineState)
    requires c'.Done? && t'.Done? && f'.Done? && SoundAt(c, c', s) && SoundAt(t, t', s) && SoundAt(f, f', s)
    requires SoundAt(Select(c'.value, t'.value, f'.value), r, s)
    ensures SoundAt(Select(c, t, f), r.With(c'.obligations + t'.obligations + f'.obligations), s)
  {
    var all := r.With(c'.obligations + t'.obligations + f'.obligations);
    if all.Done? && AllHold(all.obligations, s) {
      assert AllHold(c'.obligations, s) && AllHold(t'.obligations, s) && AllHold(f'.obligations, s)
             && AllHold(r.obligations, s);
    }
  }

  /** A select over canonical children. */
  lemma CanonicalSelectSound(c: Expr, t: Expr, f: Expr, le: Order, fuel: nat, s: MachineState)
    requires SoundUpTo(le, fuel, s) && MemoryWellFormed(s)
    ensures SoundAt(Select(c, t, f), CanonicalizeSelect(c, t, f, le, fuel), s)
  {
    LowerOperatorsSound(Select(c, t, f), le, fuel, s);
    assert Pow2(1) == 2 * Pow2(0);
    if c.Const? { assert Eval(c, s) == MakeWord(c.value, c.width); }
  }

  lemma SliceSound(operand: Expr, high: nat, low: nat, le: Order, fuel: nat, s: MachineState)
    requires fuel > 0 && SoundUpTo(le, fuel - 1, s) && MemoryWellFormed(s)
    ensures var e := Slice(operand, high, low); SoundAt(e, Canonicalize(e, le, fuel), s)
  {
    var c := Canonicalize(operand, le, fuel - 1);
    assert SoundAt(operand, c, s);
    if c.Done? && low <= high { SliceMeaning(c.value, high, low, s); }
  }

  lemma ConcatSound(parts: seq<Expr>, le: Order, fuel: nat, s: MachineState)
    requires fuel > 0 && SoundUpTo(le, fuel - 1, s)
    ensures SoundAt(Concat(parts), Canonicalize(Concat(parts), le, fuel), s)
  {
    var c := CanonicalizeAll(parts, le, fuel - 1);
    CanonicalizeAllSound(parts, le, fuel - 1, s);
    if c.Done? && AllHold(c.obligations, s) {
      SameParts(parts, c.value, s);
      ConcatMeaning(c.value, s);
    }
  }

  lemma ExtensionSound(kind: ExtendOp, operand: Expr, toWidth: nat, le: Order, fuel: nat, s: MachineState)
    requires fuel > 0 && SoundUpTo(le, fuel - 1, s) && MemoryWellFormed(s)
    ensures var e := Extend(kind, operand, toWidth); SoundAt(e, Canonicalize(e, le, fuel), s)
  {
    var c := Canonicalize(operand, le, fuel - 1);
    assert SoundAt(operand, c, s);
    if c.Done? { ExtensionMeaning(kind, c.value, toWidth, s); }
  }

  lemma UnarySound(e: Expr, le: Order, fuel: nat, s: MachineState)
    requires fuel > 0 && SoundUpTo(le, fuel - 1, s) && (e.ReadRegister? || e.ReadMemory? || e.CountOnes?)
    ensures SoundAt(e, Canonicalize(e, le, fuel), s)
  {
    match e
    case ReadRegister(register, _) => assert SoundAt(register, Canonicalize(register, le, fuel - 1), s);
    case ReadMemory(address, _) => assert SoundAt(address, Canonicalize(address, le, fuel - 1), s);
    case CountOnes(operand) => assert SoundAt(operand, Canonicalize(operand, le, fuel - 1), s);
  }

  lemma NotSound(operand: Expr, le: Order, fuel: nat, s: MachineState)
    requires fuel > 0 && SoundUpTo(le, fuel - 1, s)
    ensures SoundAt(Not(operand), Canonicalize(Not(operand), le, fuel), s)
  {
    var c := Canonicalize(operand, le, fuel - 1);
    assert SoundAt(operand, c, s);
    if c.Done? { NotMeaning(c.value, s); }
  }

  lemma SoundStep(e: Expr, le: Order, fuel: nat, s: MachineState)
    requires fuel > 0 && SoundUpTo(le, fuel - 1, s) && MemoryWellFormed(s) && FormUpTo(le, fuel - 1)
    ensures SoundAt(e, Canonicalize(e, le, fuel), s)
  {
    hide SoundUpTo, FormUpTo, MemoryWellFormed, CanonicalizeBin, CanonicalizeFlag, CanonicalizeChoice;
    match e
    case Const(value, width) => if width > 0 { ConstMeaning(value, width, s); }
    case RegisterField(_) =>
    case ImmediateField(_) =>
    case DerivedValue(_) =>
    case ReadRegister(_, _) => UnarySound(e, le, fuel, s);
    case ReadMemory(_, _) => UnarySound(e, le, fuel, s);
    case Bin(op, lhs, rhs) => BinSound(op, lhs, rhs, le, fuel - 1, s);
    case Not(operand) => NotSound(operand, le, fuel, s);
    case CountOnes(_) => UnarySound(e, le, fuel, s);
    case Slice(operand, high, low) => SliceSound(operand, high, low, le, fuel, s);
    case Concat(parts) => ConcatSound(parts, le, fuel, s);
    case Extend(kind, operand, toWidth) => ExtensionSound(kind, operand, toWidth, le, fuel, s);
    case Flag(flag, lhs, rhs, flagIn, width) => FlagSound(flag, lhs, rhs, flagIn, width, le, fuel - 1, s);
    case Select(c, t, f) => ChoiceSound(c, t, f, le, fuel - 1, s);
  }

  /** Whenever the evaluator gives an expression a value, its canonical form has that same value,
      provided the obligations the run reports hold in the state. */
  lemma {:induction false} CanonicalizePreservesMeaning(e: Expr, le: Order, fuel: nat, s: MachineState)
    requires MemoryWellFormed(s)
    ensures SoundAt(e, Canonicalize(e, le, fuel), s)
    decreases fuel
  {
    if fuel > 0 {
      var less := fuel - 1;
      forall x ensures SoundAt(x, Canonicalize(x, le, less), s) { CanonicalizePreservesMeaning(x, le, less, s); }
      forall x ensures CanonicalOutcome(Canonicalize(x, le, less)) { CanonicalizeForm(x, le, less); }
      SoundStep(e, le, fuel, s);
    }
  }
}
