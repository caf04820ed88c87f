/** Resolving instruction fields and derived values, and folding constants.

    `Collapse` must agree with reading the unresolved expression in the instruction's environment.
    Derived values may refer to one another; `depth` bounds how many of them are unfolded on a path. */
module Collapse {
  import opened Words
  import opened WordLaws
  import opened Exprs
  import opened Canonicalizer
  import opened CanonicalizerMeaning
  import opened CanonicalizerSound
  import opened ConstantFolds

  /** The field values an instruction was decoded with, and its form's derived values. */
  datatype Instruction = Instruction(fields: map<string, RawWord>, derived: map<string, Expr>)

  /** Register identifiers are one byte. */
  const MAX_REGISTERS: nat := 256

  // ----- reading an expression in the instruction's environment -----

  function EvalIn(e: Expr, i: Instruction, depth: nat, s: MachineState): Option<Word>
    decreases depth, e, 1
  {
    match e
    case Const(_, _) => Eval(e, s)
    case RegisterField(ref) =>
      (match ref
       case Fixed(_, _) => Eval(e, s)
       case FromField(field) =>
         if field in i.fields && i.fields[field].value < MAX_REGISTERS
         then MakeWord(i.fields[field].value, i.fields[field].width) else None)
    case ImmediateField(field) =>
      if field in i.fields then MakeWord(i.fields[field].value, i.fields[field].width) else None
    case DerivedValue(name) =>
      if name in i.derived && depth > 0 then EvalIn(i.derived[name], i, depth - 1, s) else None
    case ReadRegister(register, width) =>
      var id :- EvalIn(register, i, depth, s);
      if id.value in s.registers && s.registers[id.value].width == width
      then Some(s.registers[id.value]) else None
    case ReadMemory(address, width) =>
      var a :- EvalIn(address, i, depth, s);
      ReadConcreteMemory(s, a, width)
    case Bin(op, lhs, rhs) =>
      var l :- EvalIn(lhs, i, depth, s);
      var r :- EvalIn(rhs, i, depth, s);
      ApplyBin(op, l, r)
    case Not(operand) =>
      var v :- EvalIn(operand, i, depth, s);
      Some(ApplyNot(v))
    case CountOnes(operand) =>
      var v :- EvalIn(operand, i, depth, s);
      Some(ApplyCountOnes(v))
    case Slice(operand, high, low) =>
      var v :- EvalIn(operand, i, depth, s);
      ApplySlice(v, high, low)
    case Concat(parts) =>
      var r :- EvalPartsIn(parts, i, depth, s);
      if r.width == 0 then None else Some(r)
    case Extend(kind, operand, toWidth) =>
      var v :- EvalIn(operand, i, depth, s);
      ApplyExtend(kind, v, toWidth)
    case Flag(flag, lhs, rhs, flagIn, width) =>
      var l :- EvalIn(lhs, i, depth, s);
      var r :- EvalIn(rhs, i, depth, s);
      var c :- EvalIn(flagIn, i, depth, s);
      ApplyFlag(flag, l, r, c, width)
    case Select(condition, whenTrue, whenFalse) =>
      var c :- EvalIn(condition, i, depth, s);
      var t :- EvalIn(whenTrue, i, depth, s);
      var f :- EvalIn(whenFalse, i, depth, s);
      ApplySelect(c, t, f)
  }

  function EvalPartsIn(parts: seq<Expr>, i: Instruction, depth: nat, s: MachineState): (r: Option<RawWord>)
    ensures r.Some? ==> r.value.value < Pow2(r.value.width)
    decreases depth, parts, 0
  {
    if parts == [] then Some(RawWord.Word(0, 0))
    else
      var high :- EvalPartsIn(parts[..|parts| - 1], i, depth, s);
      var low :- EvalIn(parts[|parts| - 1], i, depth, s);
      Some(ApplyConcat(high, low))
  }

  // ----- folding one node over collapsed children -----

  /** Combines the constants among flattened terms and keeps the order of the others. */
  function CollapseTerms(op: BinOp, terms: seq<Expr>): Outcome<Expr>
    requires IsAssocComm(op)
  {
    AssembleTerms(op, NonConstants(terms), FoldConstants(op, terms, NoConst))
  }

  function CollapseBin(op: BinOp, l: Expr, r: Expr): Outcome<Expr>
  {
    if IsAssocComm(op) then CollapseTerms(op, Flatten(op, l) + Flatten(op, r))
    else if l.Const? && r.Const? then
      if l.width != r.width || l.width == 0 then Panic
      else
        var w := l.width;
        Done(Const(FoldBin(op, l.value % Pow2(w), r.value % Pow2(w), w), BinWidth(op, w)), {})
    else Done(Bin(op, l, r), {})
  }

  function CollapseNot(v: Expr): Outcome<Expr>
  {
    if !v.Const? then Done(Not(v), {})
    else if v.width == 0 then Panic
    else Done(Const(NotVal(v.value % Pow2(v.width), v.width), v.width), {})
  }

  function CollapseCountOnes(v: Expr): Outcome<Expr>
  {
    if !v.Const? then Done(CountOnes(v), {})
    else if v.width == 0 then Panic
    else Done(Const(CountOnesVal(v.value % Pow2(v.width), v.width) % Pow2(v.width), v.width), {})
  }

  function CollapseSlice(v: Expr, high: nat, low: nat): Outcome<Expr>
    requires low <= high
  {
    if !v.Const? then Done(Slice(v, high, low), {})
    else if v.width == 0 || high >= v.width then Panic
    else Done(Const((v.value % Pow2(v.width) / Pow2(low)) % Pow2(high - low + 1), high - low + 1), {})
  }

  function CollapseExtend(kind: ExtendOp, v: Expr, toWidth: nat): Outcome<Expr>
  {
    if !v.Const? then Done(Extend(kind, v, toWidth), {})
    else if v.width == 0 || v.width > toWidth then Panic
    else
      var x := v.value % Pow2(v.width);
      Done(Const((if kind == ZeroExtend then x else SignFill(x, v.width, toWidth)) % Pow2(toWidth), toWidth), {})
  }

  function CollapseFlag(flag: FlagOp, l: Expr, r: Expr, c: Expr, width: nat): Outcome<Expr>
  {
    if !(l.Const? && r.Const? && c.Const?) then Done(Flag(flag, l, r, c, width), {})
    else if l.width != r.width || l.width == 0 || l.width != width || c.width != 1 then Panic
    else
      var w := width;
      assert Pow2(1) == 2;
      Done(Const(BoolVal(FoldFlag(flag, l.value % Pow2(w), r.value % Pow2(w), c.value % Pow2(1), w)), 1), {})
  }

  function CollapseSelect(c: Expr, t: Expr, f: Expr): Outcome<Expr>
  {
    if !c.Const? then Done(Select(c, t, f), {})
    else if c.width != 1 then Panic
    else Done(if c.value % Pow2(1) == 1 then t else f, {})
  }

  // ----- the recursion -----

  function Collapse(e: Expr, i: Instruction, depth: nat): Outcome<Expr>
    decreases depth, e, 1
  {
    match e
    case Const(_, _) => Done(e, {})
    case RegisterField(ref) =>
      (match ref
       case Fixed(_, _) => Done(e, {})
       case FromField(field) =>
         if field !in i.fields || i.fields[field].value >= MAX_REGISTERS then Panic
         else Done(RegisterField(Fixed(i.fields[field].value, i.fields[field].width)), {}))
    case ImmediateField(field) =>
      if field !in i.fields then Panic else Done(Const(i.fields[field].value, i.fields[field].width), {})
    case DerivedValue(name) =>
      if name !in i.derived then Panic
      else if depth == 0 then OutOfFuel
      else Collapse(i.derived[name], i, depth - 1)
    case ReadRegister(register, width) =>
      var (r, _) :- Collapse(register, i, depth);
      Done(ReadRegister(r, width), {})
    case ReadMemory(address, width) =>
      var (a, _) :- Collapse(address, i, depth);
      Done(ReadMemory(a, width), {})
    case Bin(op, lhs, rhs) =>
      var (l, _) :- Collapse(lhs, i, depth);
      var (r, _) :- Collapse(rhs, i, depth);
      CollapseBin(op, l, r)
    case Not(operand) =>
      var (v, _) :- Collapse(operand, i, depth);
      CollapseNot(v)
    case CountOnes(operand) =>
      var (v, _) :- Collapse(operand, i, depth);
      CollapseCountOnes(v)
    case Slice(operand, high, low) =>
      if high < low then Panic
      else
        var (v, _) :- Collapse(operand, i, depth);
        CollapseSlice(v, high, low)
    case Concat(parts) =>
      var (ps, _) :- CollapseAll(parts, i, depth);
      RebuildConcat(ps)
    case Extend(kind, operand, toWidth) =>
      var (v, _) :- Collapse(operand, i, depth);
      CollapseExtend(kind, v, toWidth)
    case Flag(flag, lhs, rhs, flagIn, width) =>
      var (l, _) :- Collapse(lhs, i, depth);
      var (r, _) :- Collapse(rhs, i, depth);
      var (c, _) :- Collapse(flagIn, i, depth);
      CollapseFlag(flag, l, r, c, width)
    case Select(condition, whenTrue, whenFalse) =>
      var (c, _) :- Collapse(condition, i, depth);
      var (t, _) :- Collapse(whenTrue, i, depth);
      var (f, _) :- Collapse(whenFalse, i, depth);
      CollapseSelect(c, t, f)
  }

  function CollapseAll(parts: seq<Expr>, i: Instruction, depth: nat): (r: Outcome<seq<Expr>>)
    ensures r.Done? ==> |r.value| == |parts|
    decreases depth, parts, 0
  {
    if parts == [] then Done([], {})
    else
      var (init, _) :- CollapseAll(parts[..|parts| - 1], i, depth);
      var (last, _) :- Collapse(parts[|parts| - 1], i, depth);
      Done(init + [last], {})
  }

  // ----- each fold keeps the value of its node -----

  /** The outcome is an expression with the value of `e`, if `e` has one. */
  ghost predicate Keeps(e: Expr, r: Outcome<Expr>, s: MachineState)
  {
    Eval(e, s).Some? ==> r.Done? && Eval(r.value, s) == Eval(e, s)
  }

  lemma ConstValue(v: Expr, s: MachineState)
    requires v.Const?
    ensures Eval(v, s) == MakeWord(v.value, v.width)
  {
  }

  lemma CollapseTermsMeaning(op: BinOp, terms: seq<Expr>, s: MachineState, w: nat)
    requires IsAssocComm(op) && w > 0 && terms != [] && AllHave(terms, s, w)
    ensures var r := CollapseTerms(op, terms); r.Done? && Has(r.value, s, w) && Val(r.value, s) == Fold(op, terms, s, w)
  {
    ConstantsMeaning(op, terms, NoConst, s, w);
    UnitLaw(op, Fold(op, terms, s, w), w);
    Commutes(op, Fold(op, terms, s, w), Unit(op, w), w);
    AssembleMeaning(op, NonConstants(terms), FoldConstants(op, terms, NoConst), s, w);
  }

  lemma CollapseBinMeaning(op: BinOp, l: Expr, r: Expr, s: MachineState)
    ensures Keeps(Bin(op, l, r), CollapseBin(op, l, r), s)
  {
    if Eval(Bin(op, l, r), s).Some? {
      var w := Eval(l, s).value.width;
      if IsAssocComm(op) {
        FlattenMeaning(op, l, s, w);
        FlattenMeaning(op, r, s, w);
        FoldConcat(op, Flatten(op, l), Flatten(op, r), s, w);
        CollapseTermsMeaning(op, Flatten(op, l) + Flatten(op, r), s, w);
      } else if l.Const? && r.Const? {
        ConstValue(l, s);
        ConstValue(r, s);
        FoldBinIsBinVal(op, Val(l, s), Val(r, s), w);
        SmallMod(BinVal(op, Val(l, s), Val(r, s), w), Pow2(BinWidth(op, w)));
      }
    }
  }

  lemma CollapseNotMeaning(v: Expr, s: MachineState)
    ensures Keeps(Not(v), CollapseNot(v), s)
  {
    if v.Const? { ConstValue(v, s); }
    if v.Const? && v.width > 0 {
      SmallMod(NotVal(v.value % Pow2(v.width), v.width), Pow2(v.width));
    }
  }

  lemma CollapseCountOnesMeaning(v: Expr, s: MachineState)
    ensures Keeps(CountOnes(v), CollapseCountOnes(v), s)
  {
    if v.Const? { ConstValue(v, s); }
    if v.Const? && v.width > 0 {
      WidthBelowPow2(v.width);
      SmallMod(CountOnesVal(v.value % Pow2(v.width), v.width), Pow2(v.width));
    }
  }

  lemma CollapseSliceMeaning(v: Expr, high: nat, low: nat, s: MachineState)
    requires low <= high
    ensures Keeps(Slice(v, high, low), CollapseSlice(v, high, low), s)
  {
    if v.Const? { ConstValue(v, s); }
    if v.Const? && high < v.width {
      var x := (v.value % Pow2(v.width) / Pow2(low)) % Pow2(high - low + 1);
      SmallMod(x, Pow2(high - low + 1));
    }
  }

  lemma CollapseExtendMeaning(kind: ExtendOp, v: Expr, toWidth: nat, s: MachineState)
    ensures Keeps(Extend(kind, v, toWidth), CollapseExtend(kind, v, toWidth), s)
  {
    if v.Const? { ConstValue(v, s); }
    if v.Const? && 0 < v.width <= toWidth {
      var x := v.value % Pow2(v.width);
      SignFillMeaning(x, v.width, toWidth);
      SmallMod(ExtendVal(kind, x, v.width, toWidth), Pow2(toWidth));
    }
  }

  lemma CollapseFlagMeaning(flag: FlagOp, l: Expr, r: Expr, c: Expr, width: nat, s: MachineState)
    ensures Keeps(Flag(flag, l, r, c, width), CollapseFlag(flag, l, r, c, width), s)
  {
    hide FoldFlag, FlagVal;
    assert Pow2(1) == 2;
    if l.Const? && r.Const? && c.Const? {
      ConstValue(l, s);
      ConstValue(r, s);
      ConstValue(c, s);
      if l.width == r.width == width > 0 && c.width == 1 {
        FoldFlagIsFlagVal(flag, l.value % Pow2(width), r.value % Pow2(width), c.value % Pow2(1), width);
      }
    }
  }

  lemma CollapseSelectMeaning(c: Expr, t: Expr, f: Expr, s: MachineState)
    ensures Keeps(Select(c, t, f), CollapseSelect(c, t, f), s)
  {
    if c.Const? { ConstValue(c, s); }
  }

  lemma {:induction false} ChunksFit(parts: seq<Expr>, s: MachineState)
    requires EvalParts(parts, s).Some?
    ensures MergeChunks(parts).Some?
  {
    if parts != [] { ChunksFit(parts[..|parts| - 1], s); }
  }

  // ----- the theorem -----

  /** If the expression has a value in the instruction's environment, collapsing does not panic and keeps it. */
  ghost predicate Resolves(e: Expr, i: Instruction, depth: nat, s: MachineState)
  {
    EvalIn(e, i, depth, s).Some? ==>
      Collapse(e, i, depth).Done? && Eval(Collapse(e, i, depth).value, s) == EvalIn(e, i, depth, s)
  }

  lemma BinResolves(e: Expr, i: Instruction, depth: nat, s: MachineState)
    requires e.Bin? && Resolves(e.lhs, i, depth, s) && Resolves(e.rhs, i, depth, s)
    ensures Resolves(e, i, depth, s)
  {
    if EvalIn(e, i, depth, s).Some? {
      CollapseBinMeaning(e.op, Collapse(e.lhs, i, depth).value, Collapse(e.rhs, i, depth).value, s);
    }
  }

  lemma FlagResolves(e: Expr, i: Instruction, depth: nat, s: MachineState)
    requires e.Flag? && Resolves(e.lhs, i, depth, s) && Resolves(e.rhs, i, depth, s) && Resolves(e.flagIn, i, depth, s)
    ensures Resolves(e, i, depth, s)
  {
    if EvalIn(e, i, depth, s).Some? {
      CollapseFlagMeaning(e.flag, Collapse(e.lhs, i, depth).value, Collapse(e.rhs, i, depth).value,
                          Collapse(e.flagIn, i, depth).value, e.width, s);
    }
  }

  lemma SelectResolves(e: Expr, i: Instruction, depth: nat, s: MachineState)
    requires e.Select? && Resolves(e.condition, i, depth, s) && Resolves(e.whenTrue, i, depth, s)
             && Resolves(e.whenFalse, i, depth, s)
    ensures Resolves(e, i, depth, s)
  {
    if EvalIn(e, i, depth, s).Some? {
      CollapseSelectMeaning(Collapse(e.condition, i, depth).value, Collapse(e.whenTrue, i, depth).value,
                            Collapse(e.whenFalse, i, depth).value, s);
    }
  }

  /** Whenever the expression, read in the instruction's environment, has a value, collapsing does not
      panic and the collapsed expression has that value. */
  lemma {:induction false} CollapseMeaning(e: Expr, i: Instruction, depth: nat, s: MachineState)
    ensures EvalIn(e, i, depth, s).Some? ==>
              Collapse(e, i, depth).Done? && Eval(Collapse(e, i, depth).value, s) == EvalIn(e, i, depth, s)
    decreases depth, e, 1
  {
    if EvalIn(e, i, depth, s).Some? {
      match e
      case Const(_, _) =>
      case RegisterField(_) =>
      case ImmediateField(_) =>
      case DerivedValue(name) => CollapseMeaning(i.derived[name], i, depth - 1, s);
      case ReadRegister(register, _) => CollapseMeaning(register, i, depth, s);
      case ReadMemory(address, _) => CollapseMeaning(address, i, depth, s);
      case Bin(op, lhs, rhs) =>
        CollapseMeaning(lhs, i, depth, s);
        CollapseMeaning(rhs, i, depth, s);
        BinResolves(e, i, depth, s);
      case Not(operand) =>
        CollapseMeaning(operand, i, depth, s);
        CollapseNotMeaning(Collapse(operand, i, depth).value, s);
      case CountOnes(operand) =>
        CollapseMeaning(operand, i, depth, s);
        CollapseCountOnesMeaning(Collapse(operand, i, depth).value, s);
      case Slice(operand, high, low) =>
        CollapseMeaning(operand, i, depth, s);
        CollapseSliceMeaning(Collapse(operand, i, depth).value, high, low, s);
      case Concat(parts) =>
        CollapsePartsMeaning(parts, i, depth, s);
        var ps := CollapseAll(parts, i, depth).value;
        ChunksFit(ps, s);
        ConcatMeaning(ps, s);
      case Extend(kind, operand, toWidth) =>
        CollapseMeaning(operand, i, depth, s);
        CollapseExtendMeaning(kind, Collapse(operand, i, depth).value, toWidth, s);
      case Flag(flag, lhs, rhs, flagIn, width) =>
        CollapseMeaning(lhs, i, depth, s);
        CollapseMeaning(rhs, i, depth, s);
        CollapseMeaning(flagIn, i, depth, s);
        FlagResolves(e, i, depth, s);
      case Select(c, t, f) =>
        CollapseMeaning(c, i, depth, s);
        CollapseMeaning(t, i, depth, s);
        CollapseMeaning(f, i, depth, s);
        SelectResolves(e, i, depth, s);
    }
  }

  lemma {:induction false} CollapsePartsMeaning(parts: seq<Expr>, i: Instruction, depth: nat, s: MachineState)
    ensures EvalPartsIn(parts, i, depth, s).Some? ==>
              CollapseAll(parts, i, depth).Done?
              && EvalParts(CollapseAll(parts, i, depth).value, s) == EvalPartsIn(parts, i, depth, s)
    decreases depth, parts, 0
  {
    if parts != [] && EvalPartsIn(parts, i, depth, s).Some? {
      CollapsePartsMeaning(parts[..|parts| - 1], i, depth, s);
      CollapseMeaning(parts[|parts| - 1], i, depth, s);
      AppendPart(CollapseAll(parts[..|parts| - 1], i, depth).value, Collapse(parts[|parts| - 1], i, depth).value, s);
    }
  }

  // ----- derived values that do not refer back to themselves -----

  /** The derived values an expression mentions have ranks below `limit`. */
  predicate RankedBelow(e: Expr, i: Instruction, rank: map<string, nat>, limit: nat)
    decreases e
  {
    match e
    case DerivedValue(name) => name in i.derived ==> name in rank && rank[name] < limit
    case ReadRegister(register, _) => RankedBelow(register, i, rank, limit)
    case ReadMemory(address, _) => RankedBelow(address, i, rank, limit)
    case Bin(_, lhs, rhs) => RankedBelow(lhs, i, rank, limit) && RankedBelow(rhs, i, rank, limit)
    case Not(operand) => RankedBelow(operand, i, rank, limit)
    case CountOnes(operand) => RankedBelow(operand, i, rank, limit)
    case Slice(operand, _, _) => RankedBelow(operand, i, rank, limit)
    case Concat(parts) => forall p | p in parts :: RankedBelow(p, i, rank, limit)
    case Extend(_, operand, _) => RankedBelow(operand, i, rank, limit)
    case Flag(_, lhs, rhs, flagIn, _) =>
      RankedBelow(lhs, i, rank, limit) && RankedBelow(rhs, i, rank, limit) && RankedBelow(flagIn, i, rank, limit)
    case Select(c, t, f) => RankedBelow(c, i, rank, limit) && RankedBelow(t, i, rank, limit)
                            && RankedBelow(f, i, rank, limit)
    case _ => true
  }

  /** Every derived value refers only to derived values of smaller rank. */
  predicate Acyclic(i: Instruction, rank: map<string, nat>)
  {
    forall name | name in i.derived :: name in rank && RankedBelow(i.derived[name], i, rank, rank[name])
  }

  /** What two unfolding depths of an acyclic instruction agree on. */
  ghost predicate DepthIndependent(e: Expr, i: Instruction, d1: nat, d2: nat, s: MachineState)
  {
    && Collapse(e, i, d1) == Collapse(e, i, d2) && EvalIn(e, i, d1, s) == EvalIn(e, i, d2, s)
    && !Collapse(e, i, d1).OutOfFuel?
  }

  lemma LeafIndependent(e: Expr, i: Instruction, d1: nat, d2: nat, s: MachineState)
    requires e.Const? || e.RegisterField? || e.ImmediateField? || (e.DerivedValue? && e.name !in i.derived)
    ensures DepthIndependent(e, i, d1, d2, s)
  {
  }

  lemma ReadIndependent(e: Expr, i: Instruction, d1: nat, d2: nat, s: MachineState)
    requires (e.ReadRegister? && DepthIndependent(e.register, i, d1, d2, s))
             || (e.ReadMemory? && DepthIndependent(e.address, i, d1, d2, s))
    ensures DepthIndependent(e, i, d1, d2, s)
  {
    hide ReadConcreteMemory;
  }

  lemma UnaryIndependent(e: Expr, i: Instruction, d1: nat, d2: nat, s: MachineState)
    requires e.Not? || e.CountOnes? || e.Slice? || e.Extend?
    requires DepthIndependent(e.operand, i, d1, d2, s)
    ensures DepthIndependent(e, i, d1, d2, s)
  {
    hide ApplyNot, ApplyCountOnes, ApplySlice, ApplyExtend;
  }

  lemma DerivedIndependent(e: Expr, i: Instruction, d1: nat, d2: nat, s: MachineState)
    requires e.DerivedValue? && e.name in i.derived && d1 > 0 && d2 > 0
    requires DepthIndependent(i.derived[e.name], i, d1 - 1, d2 - 1, s)
    ensures DepthIndependent(e, i, d1, d2, s)
  {
  }

  lemma FlagIndependent(e: Expr, i: Instruction, d1: nat, d2: nat, s: MachineState)
    requires e.Flag? && DepthIndependent(e.lhs, i, d1, d2, s) && DepthIndependent(e.rhs, i, d1, d2, s)
    requires DepthIndependent(e.flagIn, i, d1, d2, s)
    ensures DepthIndependent(e, i, d1, d2, s)
  {
    hide ApplyFlag;
  }

  lemma SelectIndependent(e: Expr, i: Instruction, d1: nat, d2: nat, s: MachineState)
    requires e.Select? && DepthIndependent(e.condition, i, d1, d2, s) && DepthIndependent(e.whenTrue, i, d1, d2, s)
    requires DepthIndependent(e.whenFalse, i, d1, d2, s)
    ensures DepthIndependent(e, i, d1, d2, s)
  {
    hide ApplySelect;
  }

  lemma BinIndependent(e: Expr, i: Instruction, d1: nat, d2: nat, s: MachineState)
    requires e.Bin? && DepthIndependent(e.lhs, i, d1, d2, s) && DepthIndependent(e.rhs, i, d1, d2, s)
    ensures DepthIndependent(e, i, d1, d2, s)
  {
    hide ApplyBin;
  }

  lemma ConcatIndependent(parts: seq<Expr>, i: Instruction, d1: nat, d2: nat, s: MachineState)
    requires CollapseAll(parts, i, d1) == CollapseAll(parts, i, d2) && !CollapseAll(parts, i, d1).OutOfFuel?
    requires EvalPartsIn(parts, i, d1, s) == EvalPartsIn(parts, i, d2, s)
    ensures DepthIndependent(Concat(parts), i, d1, d2, s)
  {
  }

  /** Without cycles, unfolding always ends, and a larger bound changes nothing: every expression
      whose derived values have ranks below `limit` is resolved within depth `limit`. */
  lemma {:induction false} AcyclicResolves(
    e: Expr, i: Instruction, rank: map<string, nat>, limit: nat, d1: nat, d2: nat, s: MachineState)
    requires Acyclic(i, rank) && RankedBelow(e, i, rank, limit) && limit <= d1 && limit <= d2
    ensures DepthIndependent(e, i, d1, d2, s)
    decreases d1, e, 1
  {
    hide EvalIn, DepthIndependent;
    match e
    case DerivedValue(name) =>
      if name in i.derived {
        AcyclicResolves(i.derived[name], i, rank, rank[name], d1 - 1, d2 - 1, s);
        DerivedIndependent(e, i, d1, d2, s);
      } else {
        LeafIndependent(e, i, d1, d2, s);
      }
    case ReadRegister(register, _) =>
      AcyclicResolves(register, i, rank, limit, d1, d2, s);
      ReadIndependent(e, i, d1, d2, s);
    case ReadMemory(address, _) =>
      AcyclicResolves(address, i, rank, limit, d1, d2, s);
      ReadIndependent(e, i, d1, d2, s);
    case Bin(op, lhs, rhs) =>
      AcyclicResolves(lhs, i, rank, limit, d1, d2, s);
      AcyclicResolves(rhs, i, rank, limit, d1, d2, s);
      BinIndependent(e, i, d1, d2, s);
    case Concat(parts) =>
      AcyclicPartsResolve(parts, i, rank, limit, d1, d2, s);
      ConcatIndependent(parts, i, d1, d2, s);
    case Flag(_, lhs, rhs, flagIn, _) =>
      AcyclicResolves(lhs, i, rank, limit, d1, d2, s);
      AcyclicResolves(rhs, i, rank, limit, d1, d2, s);
      AcyclicResolves(flagIn, i, rank, limit, d1, d2, s);
      FlagIndependent(e, i, d1, d2, s);
    case Select(c, t, f) =>
      AcyclicResolves(c, i, rank, limit, d1, d2, s);
      AcyclicResolves(t, i, rank, limit, d1, d2, s);
      AcyclicResolves(f, i, rank, limit, d1, d2, s);
      SelectIndependent(e, i, d1, d2, s);
    case Not(operand) => AcyclicResolves(operand, i, rank, limit, d1, d2, s); UnaryIndependent(e, i, d1, d2, s);
    case CountOnes(operand) => AcyclicResolves(operand, i, rank, limit, d1, d2, s); UnaryIndependent(e, i, d1, d2, s);
    case Slice(operand, _, _) => AcyclicResolves(operand, i, rank, limit, d1, d2, s); UnaryIndependent(e, i, d1, d2, s);
    case Extend(_, operand, _) =>
      AcyclicResolves(operand, i, rank, limit, d1, d2, s);
      UnaryIndependent(e, i, d1, d2, s);
    case _ => LeafIndependent(e, i, d1, d2, s);
  }

  lemma {:induction false} AcyclicPartsResolve(
    parts: seq<Expr>, i: Instruction, rank: map<string, nat>, limit: nat, d1: nat, d2: nat, s: MachineState)
    requires Acyclic(i, rank) && limit <= d1 && limit <= d2
    requires forall p | p in parts :: RankedBelow(p, i, rank, limit)
    ensures CollapseAll(parts, i, d1) == CollapseAll(parts, i, d2)
    ensures EvalPartsIn(parts, i, d1, s) == EvalPartsIn(parts, i, d2, s)
    ensures !CollapseAll(parts, i, d1).OutOfFuel?
    decreases d1, parts, 0
  {
    if parts != [] {
      AcyclicPartsResolve(parts[..|parts| - 1], i, rank, limit, d1, d2, s);
      AcyclicResolves(parts[|parts| - 1], i, rank, limit, d1, d2, s);
    }
  }

  // ----- the loop that splits the constants off -----

  lemma SplitStep(op: BinOp, terms: seq<Expr>, k: nat, folded: Folded, nonConstants: seq<Expr>)
    requires IsAssocComm(op) && k < |terms|
    ensures var t := terms[k];
      && FoldConstants(op, terms[k..], folded)
         == FoldConstants(op, terms[k + 1..], if t.Const? then FoldConstant(op, folded, t.value, t.width) else folded)
      && nonConstants + NonConstants(terms[k..])
         == (if t.Const? then nonConstants else nonConstants + [t]) + NonConstants(terms[k + 1..])
  {
    hide FoldConstant;
    assert terms[k..][1..] == terms[k + 1..];
    assert nonConstants + ([terms[k]] + NonConstants(terms[k + 1..]))
           == (nonConstants + [terms[k]]) + NonConstants(terms[k + 1..]);
    assert nonConstants + ([] + NonConstants(terms[k + 1..])) == nonConstants + NonConstants(terms[k + 1..]);
  }

  /** Walks the flattened terms once, folding constants as they come and stopping at a bad width. */
  method SplitConstants(op: BinOp, terms: seq<Expr>) returns (nonConstants: seq<Expr>, folded: Folded)
    requires IsAssocComm(op)
    ensures folded == FoldConstants(op, terms, NoConst)
    ensures !folded.BadWidth? ==> nonConstants == NonConstants(terms)
  {
    nonConstants, folded := [], NoConst;
    for k := 0 to |terms|
      invariant FoldConstants(op, terms, NoConst) == FoldConstants(op, terms[k..], folded)
      invariant NonConstants(terms) == nonConstants + NonConstants(terms[k..])
    {
      SplitStep(op, terms, k, folded, nonConstants);
      var term := terms[k];
      if term.Const? {
        folded := FoldConstant(op, folded, term.value, term.width);
        if folded.BadWidth? {
          BadWidthStays(op, terms[k + 1..]);
          return;
        }
      } else {
        nonConstants := nonConstants + [term];
      }
    }
  }

  method CollapseTermsInPlace(op: BinOp, terms: seq<Expr>) returns (r: Outcome<Expr>)
    requires IsAssocComm(op)
    ensures r == CollapseTerms(op, terms)
  {
    var nonConstants, folded := SplitConstants(op, terms);
    match folded {
      case BadWidth => r := Panic;
      case NoConst => r := if nonConstants == [] then NoTerms({}) else Done(Rebuild(op, nonConstants), {});
      case Folded(value, width) =>
        if width == 0 {
          r := Panic;
        } else if IsAnnihilator(op, value, width) {
          r := Done(Const(value, width), {});
        } else {
          if !IsIdentity(op, value, width) || nonConstants == [] {
            nonConstants := nonConstants + [Const(value, width)];
          }
          r := Done(Rebuild(op, nonConstants), {});
        }
    }
  }

  lemma {:induction false} BadWidthStays(op: BinOp, terms: seq<Expr>)
    requires IsAssocComm(op)
    ensures FoldConstants(op, terms, BadWidth).BadWidth?
  {
    if terms != [] { BadWidthStays(op, terms[1..]); }
  }
}
