/** Canonical expressions lie in the fragment the bit-level lowering accepts. */
module CanonicalizerForm {
  import opened Words
  import opened Exprs
  import opened Canonicalizer

  /** No subtraction, disjunction, exclusive or, select or subtraction flag anywhere; constants
      fit their width; no product keeps a constant factor. */
  predicate IsCanonical(e: Expr)
    decreases e
  {
    match e
    case Const(value, width) => width > 0 && value < Pow2(width)
    case RegisterField(_) => true
    case ImmediateField(_) => true
    case DerivedValue(_) => true
    case ReadRegister(register, _) => IsCanonical(register)
    case ReadMemory(address, _) => IsCanonical(address)
    case Bin(op, lhs, rhs) =>
      && op != Sub && op != Or && op != Xor
      && IsCanonical(lhs) && IsCanonical(rhs)
      && (op == Mul ==> !lhs.Const? && !rhs.Const?)
    case Not(operand) => IsCanonical(operand)
    case CountOnes(operand) => IsCanonical(operand)
    case Slice(operand, _, _) => IsCanonical(operand)
    case Concat(parts) => forall p | p in parts :: IsCanonical(p)
    case Extend(_, operand, _) => IsCanonical(operand)
    case Flag(flag, lhs, rhs, flagIn, _) =>
      AddFlag(flag) == flag && IsCanonical(lhs) && IsCanonical(rhs) && IsCanonical(flagIn)
    case Select(_, _, _) => false
  }

  ghost predicate AllCanonical(terms: seq<Expr>)
  {
    forall t | t in terms :: IsCanonical(t)
  }

  ghost predicate CanonicalOutcome(r: Outcome<Expr>)
  {
    r.Done? ==> IsCanonical(r.value)
  }

  ghost predicate FormUpTo(le: Order, fuel: nat)
  {
    forall e :: CanonicalOutcome(Canonicalize(e, le, fuel))
  }

  lemma {:induction false} CanonicalizeAllForm(terms: seq<Expr>, le: Order, fuel: nat)
    requires FormUpTo(le, fuel)
    ensures var r := CanonicalizeAll(terms, le, fuel); r.Done? ==> AllCanonical(r.value)
  {
    if terms != [] {
      CanonicalizeAllForm(terms[1..], le, fuel);
      assert CanonicalOutcome(Canonicalize(terms[0], le, fuel));
    }
  }

  lemma {:induction false} FlattenForm(op: BinOp, e: Expr)
    requires IsCanonical(e)
    ensures AllCanonical(Flatten(op, e))
    decreases e
  {
    if e.Bin? && e.op == op { FlattenForm(op, e.lhs); FlattenForm(op, e.rhs); }
  }

  lemma {:induction false} FlattenAllForm(op: BinOp, terms: seq<Expr>)
    requires AllCanonical(terms)
    ensures AllCanonical(FlattenAll(op, terms))
  {
    if terms != [] { FlattenForm(op, terms[0]); FlattenAllForm(op, terms[1..]); }
  }

  // ----- the reduction only rearranges and drops terms -----

  lemma {:induction false} NonConstantsFrom(terms: seq<Expr>)
    ensures forall t | t in NonConstants(terms) :: t in terms && !t.Const?
  {
    if terms != [] { NonConstantsFrom(terms[1..]); }
  }

  lemma {:induction false} InsertFrom(t: Expr, sorted: seq<Expr>, le: Order)
    ensures forall x | x in Insert(t, sorted, le) :: x == t || x in sorted
  {
    if sorted != [] && !le(t, sorted[0]) { InsertFrom(t, sorted[1..], le); }
  }

  lemma {:induction false} SortFrom(terms: seq<Expr>, le: Order)
    ensures forall t | t in Sort(terms, le) :: t in terms
  {
    if terms != [] {
      SortFrom(terms[1..], le);
      InsertFrom(terms[0], Sort(terms[1..], le), le);
    }
  }

  lemma {:induction false} DedupFrom(terms: seq<Expr>)
    ensures forall t | t in Dedup(terms) :: t in terms
  {
    if |terms| > 1 { DedupFrom(terms[1..]); }
  }

  lemma {:induction false} CancelFrom(terms: seq<Expr>, cancelled: Option<nat>)
    ensures forall t | t in CancelRuns(terms, cancelled).0 :: t in terms
    decreases |terms|
  {
    if terms != [] {
      CancelFrom(terms[RunLength(terms)..], cancelled);
      CancelFrom(terms[RunLength(terms)..], ExprWidth(terms[0]));
    }
  }

  lemma {:induction false} FoldedInRange(op: BinOp, terms: seq<Expr>, acc: Folded)
    requires IsAssocComm(op)
    requires acc.Folded? ==> acc.width > 0 && acc.value < Pow2(acc.width)
    ensures var f := FoldConstants(op, terms, acc); f.Folded? ==> f.width > 0 && f.value < Pow2(f.width)
  {
    if terms != [] {
      FoldedInRange(op, terms[1..],
                    if terms[0].Const? then FoldConstant(op, acc, terms[0].value, terms[0].width) else acc);
    }
  }

  lemma ReduceFrom(op: BinOp, terms: seq<Expr>, le: Order)
    requires IsAssocComm(op)
    ensures forall t | t in ReduceTerms(op, terms, le).0 :: t in terms && !t.Const?
  {
    NonConstantsFrom(terms);
    SortFrom(NonConstants(terms), le);
    DedupFrom(Sort(NonConstants(terms), le));
    var f := FoldConstants(op, terms, NoConst);
    CancelFrom(Sort(NonConstants(terms), le), if f.Folded? then Some(f.width) else None);
  }

  /** A tree over canonical terms: canonical already, or one node of `op` still to be lowered. */
  ghost predicate Assembled(op: BinOp, e: Expr)
  {
    || IsCanonical(e)
    || (e.Bin? && e.op == op && (op == Or || op == Xor))
    || (e.Bin? && e.op == op && op == Mul && IsCanonical(e.lhs) && IsCanonical(e.rhs))
  }

  lemma {:induction false} RebuildForm(op: BinOp, terms: seq<Expr>)
    requires IsAssocComm(op) && terms != [] && AllCanonical(terms)
    requires op == Mul ==> forall t | t in terms[..|terms| - 1] :: !t.Const?
    ensures Assembled(op, Rebuild(op, terms))
    ensures (forall t | t in terms :: !t.Const?) ==> !Rebuild(op, terms).Const?
    ensures op == Add || op == And || (op == Mul && forall t | t in terms :: !t.Const?)
            ==> IsCanonical(Rebuild(op, terms))
  {
    if |terms| > 1 { RebuildForm(op, terms[..|terms| - 1]); }
  }

  lemma AssembleForm(op: BinOp, terms: seq<Expr>, folded: Folded)
    requires IsAssocComm(op) && AllCanonical(terms) && forall t | t in terms :: !t.Const?
    requires folded.Folded? && folded.width > 0 ==> folded.value < Pow2(folded.width)
    ensures var r := AssembleTerms(op, terms, folded);
      r.Done? ==> Assembled(op, r.value) && (op == And || op == Add ==> IsCanonical(r.value))
  {
    if terms != [] { RebuildForm(op, terms); }
    if folded.Folded? && folded.width > 0 {
      var all := terms + [Const(folded.value, folded.width)];
      assert all[..|all| - 1] == terms;
      RebuildForm(op, all);
    }
  }

  lemma CombineForm(op: BinOp, terms: seq<Expr>, le: Order)
    requires IsAssocComm(op) && AllCanonical(terms)
    ensures var r := CombineTerms(op, terms, le);
      r.Done? ==> Assembled(op, r.value) && (op == And || op == Add ==> IsCanonical(r.value))
  {
    var (reduced, folded) := ReduceTerms(op, terms, le);
    ReduceFrom(op, terms, le);
    FoldedInRange(op, terms, NoConst);
    AssembleForm(op, reduced, folded);
  }

  lemma AssocCommForm(op: BinOp, lhs: Expr, rhs: Expr, le: Order, fuel: nat)
    requires IsAssocComm(op) && FormUpTo(le, fuel)
    ensures var r := CanonicalizeAssocComm(op, lhs, rhs, le, fuel);
      r.Done? ==> Assembled(op, r.value) && (op == And || op == Add ==> IsCanonical(r.value))
  {
    var kept := RemoveAbsorbed(op, Flatten(op, lhs) + Flatten(op, rhs), le, fuel);
    if kept.Done? {
      var canonical := CanonicalizeAll(kept.value, le, fuel);
      CanonicalizeAllForm(kept.value, le, fuel);
      if canonical.Done? {
        FlattenAllForm(op, canonical.value);
        CombineForm(op, FlattenAll(op, canonical.value), le);
      }
    }
  }

  lemma BinForm(op: BinOp, lhs: Expr, rhs: Expr, le: Order, fuel: nat)
    requires FormUpTo(le, fuel)
    ensures CanonicalOutcome(CanonicalizeBin(op, lhs, rhs, le, fuel))
  {
    if IsAssocComm(op) { AssocCommBinForm(op, lhs, rhs, le, fuel); } else { PlainBinForm(op, lhs, rhs, le, fuel); }
  }

  lemma AssocCommBinForm(op: BinOp, lhs: Expr, rhs: Expr, le: Order, fuel: nat)
    requires FormUpTo(le, fuel) && IsAssocComm(op)
    ensures CanonicalOutcome(CanonicalizeBin(op, lhs, rhs, le, fuel))
  {
    hide CanonicalizeBin, FinishTree, Assembled;
    TreeUnfolds(op, lhs, rhs, le, fuel);
    AssocCommForm(op, lhs, rhs, le, fuel);
    var c := CanonicalizeAssocComm(op, lhs, rhs, le, fuel);
    if c.Done? { FinishForm(op, c.value, le, fuel); }
  }

  lemma FinishForm(op: BinOp, tree: Expr, le: Order, fuel: nat)
    requires FormUpTo(le, fuel) && IsAssocComm(op) && Assembled(op, tree)
             && (op == And || op == Add ==> IsCanonical(tree))
    ensures CanonicalOutcome(FinishTree(op, tree, le, fuel))
  {
    if op == Or || op == Xor { LowerForm(tree, le, fuel); }
    if op == Mul || op == Add { MulForm(tree, le, fuel); }
  }

  lemma PlainBinForm(op: BinOp, lhs: Expr, rhs: Expr, le: Order, fuel: nat)
    requires FormUpTo(le, fuel) && !IsAssocComm(op)
    ensures CanonicalOutcome(CanonicalizeBin(op, lhs, rhs, le, fuel))
  {
    hide CanonicalizeBin, CanonicalizeOperands, IsCanonical;
    PlainUnfolds(op, lhs, rhs, le, fuel);
    var l, r := Canonicalize(lhs, le, fuel), Canonicalize(rhs, le, fuel);
    assert CanonicalOutcome(l) && CanonicalOutcome(r);
    if l.Done? && r.Done? { OperandsForm(op, l.value, r.value, le, fuel); }
  }

  lemma OperandsForm(op: BinOp, lhs: Expr, rhs: Expr, le: Order, fuel: nat)
    requires FormUpTo(le, fuel) && !IsAssocComm(op) && IsCanonical(lhs) && IsCanonical(rhs)
    ensures CanonicalOutcome(CanonicalizeOperands(op, lhs, rhs, le, fuel))
  {
    hide CanonicalizeSub, CanonicalComparison, CanonicalShift;
    if op == Sub {
      SubForm(lhs, rhs, le, fuel);
    } else if IsComparison(op) {
      ComparisonForm(op, lhs, rhs, le);
    } else {
      ShiftForm(op, lhs, rhs);
    }
  }

  lemma ComparisonForm(op: BinOp, lhs: Expr, rhs: Expr, le: Order)
    requires IsComparison(op) && IsCanonical(lhs) && IsCanonical(rhs)
    ensures IsCanonical(CanonicalComparison(op, lhs, rhs, le))
  {
    assert Pow2(1) == 2 * Pow2(0);
    assert IsCanonical(Const(BoolVal(op == Equal), 1));
    assert IsCanonical(Bin(op, lhs, rhs)) && IsCanonical(Bin(op, rhs, lhs));
  }

  lemma ShiftForm(op: BinOp, value: Expr, amount: Expr)
    requires !IsAssocComm(op) && op != Sub && IsCanonical(value) && IsCanonical(amount)
    ensures CanonicalOutcome(CanonicalShift(op, value, amount))
  {
  }

  lemma SubForm(lhs: Expr, rhs: Expr, le: Order, fuel: nat)
    requires FormUpTo(le, fuel) && IsCanonical(lhs) && IsCanonical(rhs)
    ensures CanonicalOutcome(CanonicalizeSub(lhs, rhs, le, fuel))
  {
    if ExprWidth(lhs).Some? {
      var again := Bin(Add, Bin(Add, lhs, Not(rhs)), Const(1, ExprWidth(lhs).value));
      assert CanonicalOutcome(Canonicalize(again, le, fuel));
    }
  }

  lemma LowerForm(e: Expr, le: Order, fuel: nat)
    requires FormUpTo(le, fuel)
    requires IsCanonical(e) || (e.Bin? && (e.op == Or || e.op == Xor)) || e.Select?
    ensures CanonicalOutcome(LowerOperators(e, le, fuel))
  {
    if e.Bin? && e.op == Or {
      assert CanonicalOutcome(Canonicalize(LowerOr(e.lhs, e.rhs), le, fuel));
    } else if e.Bin? && e.op == Xor {
      assert CanonicalOutcome(Canonicalize(LowerXor(e.lhs, e.rhs), le, fuel));
    } else if e.Select? && ExprWidth(e.whenTrue).Some? {
      var l := LowerSelect(e.condition, e.whenTrue, e.whenFalse, ExprWidth(e.whenTrue).value);
      assert CanonicalOutcome(Canonicalize(l, le, fuel));
    }
  }

  lemma MulForm(e: Expr, le: Order, fuel: nat)
    requires FormUpTo(le, fuel)
    requires IsCanonical(e) || (e.Bin? && e.op == Mul && IsCanonical(e.lhs) && IsCanonical(e.rhs))
    ensures CanonicalOutcome(CanonicalizeMul(e, le, fuel))
  {
    if e.Bin? && e.op == Mul && ExprWidth(e).Some? {
      var w := ExprWidth(e).value;
      if e.lhs.Const? {
        var t := ShiftAddTerms(e.rhs, e.lhs.value, Const(0, w), w);
        assert CanonicalOutcome(Canonicalize(t, le, fuel));
      }
      if e.rhs.Const? {
        var t := ShiftAddTerms(e.lhs, e.rhs.value, Const(0, w), w);
        assert CanonicalOutcome(Canonicalize(t, le, fuel));
      }
    }
  }

  lemma {:induction false} MergeChunksForm(parts: seq<Expr>)
    requires AllCanonical(parts)
    ensures var m := MergeChunks(parts); m.Some? ==> AllCanonical(m.value)
  {
    if parts != [] { MergeChunksForm(parts[..|parts| - 1]); }
  }

  /** Every finished canonicalization is in canonical form. */
  lemma {:induction false} CanonicalizeForm(e: Expr, le: Order, fuel: nat)
    ensures CanonicalOutcome(Canonicalize(e, le, fuel))
    decreases fuel
  {
    if fuel > 0 {
      var less := fuel - 1;
      forall x ensures CanonicalOutcome(Canonicalize(x, le, less)) { CanonicalizeForm(x, le, less); }
      CanonicalizeFormStep(e, le, fuel);
    }
  }

  lemma FlagForm(flag: FlagOp, lhs: Expr, rhs: Expr, flagIn: Expr, width: nat, le: Order, fuel: nat)
    requires FormUpTo(le, fuel)
    ensures CanonicalOutcome(CanonicalizeFlag(flag, lhs, rhs, flagIn, width, le, fuel))
  {
    assert CanonicalOutcome(Canonicalize(lhs, le, fuel));
    assert CanonicalOutcome(Canonicalize(FlagOperand(flag, rhs), le, fuel));
    assert CanonicalOutcome(Canonicalize(FlagOperand(flag, flagIn), le, fuel));
  }

  lemma ChoiceForm(condition: Expr, whenTrue: Expr, whenFalse: Expr, le: Order, fuel: nat)
    requires FormUpTo(le, fuel)
    ensures CanonicalOutcome(CanonicalizeChoice(condition, whenTrue, whenFalse, le, fuel))
  {
    var c, t, f := Canonicalize(condition, le, fuel), Canonicalize(whenTrue, le, fuel),
                   Canonicalize(whenFalse, le, fuel);
    assert CanonicalOutcome(c) && CanonicalOutcome(t) && CanonicalOutcome(f);
    if c.Done? && t.Done? && f.Done? { LowerForm(Select(c.value, t.value, f.value), le, fuel); }
  }

  lemma CanonicalizeFormStep(e: Expr, le: Order, fuel: nat)
    requires fuel > 0 && FormUpTo(le, fuel - 1)
    ensures CanonicalOutcome(Canonicalize(e, le, fuel))
  {
    match e
    case Const(_, _) =>
    case RegisterField(_) =>
    case ImmediateField(_) =>
    case DerivedValue(_) =>
    case ReadRegister(register, _) => assert CanonicalOutcome(Canonicalize(register, le, fuel - 1));
    case ReadMemory(address, _) => assert CanonicalOutcome(Canonicalize(address, le, fuel - 1));
    case Bin(op, lhs, rhs) => BinForm(op, lhs, rhs, le, fuel - 1);
    case Not(operand) => assert CanonicalOutcome(Canonicalize(operand, le, fuel - 1));
    case CountOnes(operand) => assert CanonicalOutcome(Canonicalize(operand, le, fuel - 1));
    case Slice(operand, _, _) => assert CanonicalOutcome(Canonicalize(operand, le, fuel - 1));
    case Concat(parts) =>
      CanonicalizeAllForm(parts, le, fuel - 1);
      var r := CanonicalizeAll(parts, le, fuel - 1);
      if r.Done? { MergeChunksForm(r.value); }
    case Extend(_, operand, _) => assert CanonicalOutcome(Canonicalize(operand, le, fuel - 1));
    case Flag(flag, lhs, rhs, flagIn, width) => FlagForm(flag, lhs, rhs, flagIn, width, le, fuel - 1);
    case Select(c, t, f) => ChoiceForm(c, t, f, le, fuel - 1);
  }
}
