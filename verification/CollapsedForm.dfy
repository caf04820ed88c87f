/** What collapsing leaves: every field and derived value is resolved, and every operation whose operands are
    constants is folded. */
module CollapsedForm {
  import opened Words
  import opened Exprs
  import opened Canonicalizer
  import opened CanonicalizerForm
  import opened TreeShapes
  import opened ConstantFolds
  import opened Collapse

  /** Nothing left to resolve or to fold.  Trees of one operator are left-associated and keep at most one constant,
      at the end, which has an effect; concatenations have no constants side by side. */
  predicate IsCollapsed(e: Expr)
    decreases e
  {
    match e
    case Const(_, _) => true
    case RegisterField(ref) => ref.Fixed?
    case ImmediateField(_) => false
    case DerivedValue(_) => false
    case ReadRegister(register, _) => IsCollapsed(register)
    case ReadMemory(address, _) => IsCollapsed(address)
    case Bin(op, l, r) =>
      && IsCollapsed(l) && IsCollapsed(r)
      && if IsAssocComm(op) then LeftTree(op, l, r) else !l.Const? || !r.Const?
    case Not(v) => IsCollapsed(v) && !v.Const?
    case CountOnes(v) => IsCollapsed(v) && !v.Const?
    case Slice(v, _, _) => IsCollapsed(v) && !v.Const?
    case Concat(parts) => |parts| != 1 && ChunksApart(parts) && forall p | p in parts :: IsCollapsed(p)
    case Extend(_, v, _) => IsCollapsed(v) && !v.Const?
    case Flag(_, l, r, c, _) => IsCollapsed(l) && IsCollapsed(r) && IsCollapsed(c)
                                && !(l.Const? && r.Const? && c.Const?)
    case Select(c, t, f) => IsCollapsed(c) && IsCollapsed(t) && IsCollapsed(f) && !c.Const?
  }

  predicate AllCollapsed(terms: seq<Expr>)
  {
    forall t | t in terms :: IsCollapsed(t)
  }

  ghost predicate Collapsed(r: Outcome<Expr>)
  {
    r.Done? ==> IsCollapsed(r.value)
  }

  // ----- trees -----

  lemma {:induction false} FlattenCollapsed(op: BinOp, e: Expr)
    requires IsCollapsed(e)
    ensures forall t | t in Flatten(op, e) :: IsCollapsed(t) && !IsTree(op, t)
    decreases e
  {
    hide LeftTree;
    if IsTree(op, e) {
      FlattenCollapsed(op, e.lhs);
      FlattenCollapsed(op, e.rhs);
    }
  }

  lemma {:induction false} RebuildCollapsed(op: BinOp, terms: seq<Expr>)
    requires IsAssocComm(op) && terms != [] && Terms(op, terms) && AllCollapsed(terms)
    ensures IsCollapsed(Rebuild(op, terms))
  {
    RebuildIsLeftTree(op, terms);
    assert terms[|terms| - 1] in terms;
    if |terms| > 1 {
      TermsPrefix(op, terms);
      RebuildSplits(op, terms);
      RebuildCollapsed(op, terms[..|terms| - 1]);
    }
  }

  lemma TermsCollapsed(op: BinOp, terms: seq<Expr>)
    requires IsAssocComm(op) && forall t | t in terms :: IsCollapsed(t) && !IsTree(op, t)
    ensures Collapsed(CollapseTerms(op, terms))
  {
    var kept, folded := NonConstants(terms), FoldConstants(op, terms, NoConst);
    NonConstantsFrom(terms);
    FoldedInRange(op, terms, NoConst);
    AssembledIsRebuilt(op, kept, folded);
    var list := Assembly(op, kept, folded);
    if AssembleTerms(op, kept, folded).Done? {
      forall t | t in list ensures IsCollapsed(t) { assert t in kept || t.Const?; }
      RebuildCollapsed(op, list);
    }
  }

  // ----- the nodes -----

  lemma BinCollapsed(op: BinOp, l: Expr, r: Expr)
    requires IsCollapsed(l) && IsCollapsed(r)
    ensures Collapsed(CollapseBin(op, l, r))
  {
    hide CollapseTerms, FoldBin;
    if IsAssocComm(op) {
      FlattenCollapsed(op, l);
      FlattenCollapsed(op, r);
      TermsCollapsed(op, Flatten(op, l) + Flatten(op, r));
    }
  }

  lemma NotCollapsed(v: Expr)
    requires IsCollapsed(v)
    ensures Collapsed(CollapseNot(v)) && Collapsed(CollapseCountOnes(v))
  {
  }

  lemma PartCollapsed(v: Expr, high: nat, low: nat, kind: ExtendOp, toWidth: nat)
    requires IsCollapsed(v)
    ensures low <= high ==> Collapsed(CollapseSlice(v, high, low))
    ensures Collapsed(CollapseExtend(kind, v, toWidth))
  {
    hide SignFill;
  }

  lemma FlagCollapsed(flag: FlagOp, l: Expr, r: Expr, c: Expr, width: nat)
    requires IsCollapsed(l) && IsCollapsed(r) && IsCollapsed(c)
    ensures Collapsed(CollapseFlag(flag, l, r, c, width))
  {
    hide FoldFlag;
  }

  lemma SelectCollapsed(c: Expr, t: Expr, f: Expr)
    requires IsCollapsed(c) && IsCollapsed(t) && IsCollapsed(f)
    ensures Collapsed(CollapseSelect(c, t, f))
  {
  }

  lemma ConcatCollapsed(parts: seq<Expr>)
    requires AllCollapsed(parts)
    ensures Collapsed(RebuildConcat(parts))
  {
    hide MergeChunks;
    MergedChunks(parts);
    var m := MergeChunks(parts);
    if m.Some? {
      forall p | p in m.value ensures IsCollapsed(p) { assert p.Const? || p in parts; }
      if |m.value| == 1 { assert m.value[0] in m.value; }
    }
  }

  // ----- the theorem -----

  /** Whatever collapsing returns is resolved and folded throughout. */
  lemma {:induction false} CollapseIsCollapsed(e: Expr, i: Instruction, depth: nat)
    ensures Collapsed(Collapse.Collapse(e, i, depth))
    decreases depth, e, 1
  {
    hide CollapseBin, CollapseNot, CollapseCountOnes, CollapseSlice, CollapseExtend, CollapseFlag, CollapseSelect;
    hide RebuildConcat;
    if Collapse.Collapse(e, i, depth).Done? {
      match e
      case Const(_, _) =>
      case RegisterField(_) =>
      case ImmediateField(_) =>
      case DerivedValue(name) => CollapseIsCollapsed(i.derived[name], i, depth - 1);
      case ReadRegister(register, _) => CollapseIsCollapsed(register, i, depth);
      case ReadMemory(address, _) => CollapseIsCollapsed(address, i, depth);
      case Bin(op, l, r) =>
        CollapseIsCollapsed(l, i, depth);
        CollapseIsCollapsed(r, i, depth);
        BinCollapsed(op, Collapse.Collapse(l, i, depth).value, Collapse.Collapse(r, i, depth).value);
      case Not(v) =>
        CollapseIsCollapsed(v, i, depth);
        NotCollapsed(Collapse.Collapse(v, i, depth).value);
      case CountOnes(v) =>
        CollapseIsCollapsed(v, i, depth);
        NotCollapsed(Collapse.Collapse(v, i, depth).value);
      case Slice(v, high, low) =>
        CollapseIsCollapsed(v, i, depth);
        PartCollapsed(Collapse.Collapse(v, i, depth).value, high, low, ZeroExtend, 0);
      case Concat(parts) =>
        CollapseAllCollapsed(parts, i, depth);
        ConcatCollapsed(CollapseAll(parts, i, depth).value);
      case Extend(kind, v, toWidth) =>
        CollapseIsCollapsed(v, i, depth);
        PartCollapsed(Collapse.Collapse(v, i, depth).value, 0, 0, kind, toWidth);
      case Flag(flag, l, r, c, width) =>
        CollapseIsCollapsed(l, i, depth);
        CollapseIsCollapsed(r, i, depth);
        CollapseIsCollapsed(c, i, depth);
        FlagCollapsed(flag, Collapse.Collapse(l, i, depth).value, Collapse.Collapse(r, i, depth).value,
                      Collapse.Collapse(c, i, depth).value, width);
      case Select(c, t, f) =>
        CollapseIsCollapsed(c, i, depth);
        CollapseIsCollapsed(t, i, depth);
        CollapseIsCollapsed(f, i, depth);
        SelectCollapsed(Collapse.Collapse(c, i, depth).value, Collapse.Collapse(t, i, depth).value,
                        Collapse.Collapse(f, i, depth).value);
    }
  }

  lemma {:induction false} CollapseAllCollapsed(parts: seq<Expr>, i: Instruction, depth: nat)
    ensures CollapseAll(parts, i, depth).Done? ==> AllCollapsed(CollapseAll(parts, i, depth).value)
    decreases depth, parts, 0
  {
    if parts != [] {
      CollapseAllCollapsed(parts[..|parts| - 1], i, depth);
      CollapseIsCollapsed(parts[|parts| - 1], i, depth);
    }
  }

  // ----- expressions over the instruction alone -----

  /** Every leaf is a constant, an immediate field, or a derived value that stands for such an expression. */
  predicate Closed(e: Expr, i: Instruction, depth: nat)
    decreases depth, e
  {
    match e
    case Const(_, _) => true
    case RegisterField(_) => false
    case ImmediateField(_) => true
    case DerivedValue(name) => name in i.derived && depth > 0 && Closed(i.derived[name], i, depth - 1)
    case ReadRegister(_, _) => false
    case ReadMemory(_, _) => false
    case Bin(_, l, r) => Closed(l, i, depth) && Closed(r, i, depth)
    case Not(v) => Closed(v, i, depth)
    case CountOnes(v) => Closed(v, i, depth)
    case Slice(v, _, _) => Closed(v, i, depth)
    case Concat(parts) => forall p | p in parts :: Closed(p, i, depth)
    case Extend(_, v, _) => Closed(v, i, depth)
    case Flag(_, l, r, c, _) => Closed(l, i, depth) && Closed(r, i, depth) && Closed(c, i, depth)
    case Select(c, t, f) => Closed(c, i, depth) && Closed(t, i, depth) && Closed(f, i, depth)
  }

  ghost predicate Constant(r: Outcome<Expr>)
  {
    r.Done? ==> r.value.Const?
  }

  lemma BinOfConstants(op: BinOp, l: Expr, r: Expr)
    requires l.Const? && r.Const?
    ensures Constant(CollapseBin(op, l, r))
  {
    hide FoldConstant, FoldBin, BinVal;
    if IsAssocComm(op) {
      var terms := Flatten(op, l) + Flatten(op, r);
      assert terms == [l, r] && terms[1..] == [r];
      assert NonConstants([r]) == [] && NonConstants(terms) == [];
    }
  }

  lemma PartOfConstant(v: Expr, high: nat, low: nat, kind: ExtendOp, toWidth: nat)
    requires v.Const?
    ensures low <= high ==> Constant(CollapseSlice(v, high, low))
    ensures Constant(CollapseExtend(kind, v, toWidth)) && Constant(CollapseNot(v)) && Constant(CollapseCountOnes(v))
  {
    hide SignFill;
  }

  lemma FlagOfConstants(flag: FlagOp, l: Expr, r: Expr, c: Expr, width: nat)
    requires l.Const? && r.Const? && c.Const?
    ensures Constant(CollapseFlag(flag, l, r, c, width))
  {
    hide FoldFlag;
  }

  lemma {:induction false} ChunksOfConstants(parts: seq<Expr>)
    requires parts != [] && forall p | p in parts :: p.Const?
    ensures var m := MergeChunks(parts); m.Some? ==> |m.value| == 1 && m.value[0].Const?
  {
    var init, last := parts[..|parts| - 1], parts[|parts| - 1];
    assert last in parts;
    if init != [] { ChunksOfConstants(init); }
  }

  lemma PartsHaveValues(parts: seq<Expr>, i: Instruction, depth: nat, s: MachineState)
    requires EvalIn(Concat(parts), i, depth, s).Some?
    ensures parts != [] && EvalPartsIn(parts, i, depth, s).Some?
  {
  }

  /** An expression over constants, immediate fields and derived values alone collapses to a constant wherever it
      has a value in the environment of the instruction. */
  lemma {:induction false} ClosedIsConstant(e: Expr, i: Instruction, depth: nat, s: MachineState)
    requires Closed(e, i, depth) && EvalIn(e, i, depth, s).Some?
    ensures Collapse.Collapse(e, i, depth).Done? && Collapse.Collapse(e, i, depth).value.Const?
    decreases depth, e, 1
  {
    hide CollapseBin, CollapseNot, CollapseCountOnes, CollapseSlice, CollapseExtend, CollapseFlag;
    hide RebuildConcat, Eval;
    CollapseMeaning(e, i, depth, s);
    match e
    case Const(_, _) =>
    case ImmediateField(_) =>
    case DerivedValue(name) => ClosedIsConstant(i.derived[name], i, depth - 1, s);
    case Bin(op, l, r) =>
      ClosedIsConstant(l, i, depth, s);
      ClosedIsConstant(r, i, depth, s);
      BinOfConstants(op, Collapse.Collapse(l, i, depth).value, Collapse.Collapse(r, i, depth).value);
    case Not(v) =>
      ClosedIsConstant(v, i, depth, s);
      PartOfConstant(Collapse.Collapse(v, i, depth).value, 0, 0, ZeroExtend, 0);
    case CountOnes(v) =>
      ClosedIsConstant(v, i, depth, s);
      PartOfConstant(Collapse.Collapse(v, i, depth).value, 0, 0, ZeroExtend, 0);
    case Slice(v, high, low) =>
      ClosedIsConstant(v, i, depth, s);
      PartOfConstant(Collapse.Collapse(v, i, depth).value, high, low, ZeroExtend, 0);
    case Concat(parts) =>
      PartsHaveValues(parts, i, depth, s);
      ClosedPartsAreConstant(parts, i, depth, s);
      ConcatOfConstants(Collapse.CollapseAll(parts, i, depth).value);
    case Extend(kind, v, toWidth) =>
      ClosedIsConstant(v, i, depth, s);
      PartOfConstant(Collapse.Collapse(v, i, depth).value, 0, 0, kind, toWidth);
    case Flag(flag, l, r, c, width) =>
      ClosedIsConstant(l, i, depth, s);
      ClosedIsConstant(r, i, depth, s);
      ClosedIsConstant(c, i, depth, s);
      FlagOfConstants(flag, Collapse.Collapse(l, i, depth).value, Collapse.Collapse(r, i, depth).value,
                      Collapse.Collapse(c, i, depth).value, width);
    case Select(c, t, f) =>
      ClosedIsConstant(c, i, depth, s);
      ClosedIsConstant(t, i, depth, s);
      ClosedIsConstant(f, i, depth, s);
  }

  lemma ConcatOfConstants(parts: seq<Expr>)
    requires parts != [] && forall p | p in parts :: p.Const?
    ensures Constant(RebuildConcat(parts))
  {
    ChunksOfConstants(parts);
  }

  lemma {:induction false} ClosedPartsAreConstant(parts: seq<Expr>, i: Instruction, depth: nat, s: MachineState)
    requires (forall p | p in parts :: Closed(p, i, depth)) && EvalPartsIn(parts, i, depth, s).Some?
    ensures var r := CollapseAll(parts, i, depth);
      r.Done? && |r.value| == |parts| && forall p | p in r.value :: p.Const?
    decreases depth, parts, 0
  {
    if parts != [] {
      ClosedPartsAreConstant(parts[..|parts| - 1], i, depth, s);
      ClosedIsConstant(parts[|parts| - 1], i, depth, s);
    }
  }
}
