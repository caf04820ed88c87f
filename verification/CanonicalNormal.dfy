/** The normal form: what every finished canonicalization looks like. */
module CanonicalNormal {
  import opened Words
  import opened Exprs
  import opened Canonicalizer
  import opened CanonicalizerForm
  import opened TreeShapes
  import opened TermOrder

  // ----- the normal form -----

  /** No rewrite of the canonicalizer is left to be made, in any part of the expression. */
  ghost predicate Normal(e: Expr, le: Order)
    decreases e, 0
  {
    match e
    case Const(_, _) => ReducedConstant(e)
    case RegisterField(_) => true
    case ImmediateField(_) => true
    case DerivedValue(_) => true
    case ReadRegister(register, _) => Normal(register, le)
    case ReadMemory(address, _) => Normal(address, le)
    case Bin(op, lhs, rhs) =>
      if IsAssocComm(op) then NormalLeaves(op, lhs, le) && NormalLeaves(op, rhs, le) && NormalTree(op, e, le)
      else Normal(lhs, le) && Normal(rhs, le) && NormalPair(op, lhs, rhs, le)
    case Not(operand) => Normal(operand, le) && !operand.Const? && !operand.Not?
    case CountOnes(operand) => Normal(operand, le)
    case Slice(operand, high, low) => Normal(operand, le) && ProperSlice(operand, high, low)
    case Concat(parts) => (forall p | p in parts :: Normal(p, le)) && |parts| != 1 && ChunksApart(parts)
    case Extend(kind, operand, toWidth) => Normal(operand, le) && ProperExtension(kind, operand, toWidth)
    case Flag(flag, lhs, rhs, flagIn, _) =>
      AddFlag(flag) == flag && Normal(lhs, le) && Normal(rhs, le) && Normal(flagIn, le)
    case Select(_, _, _) => false
  }

  /** The terms of a tree are normal. */
  ghost predicate NormalLeaves(op: BinOp, e: Expr, le: Order)
    decreases e, 1
  {
    if e.Bin? && e.op == op then NormalLeaves(op, e.lhs, le) && NormalLeaves(op, e.rhs, le) else Normal(e, le)
  }

  /** The tree is left-associated over its terms; a product has no constant factor, and the width of a sum or product
      is known. */
  ghost predicate NormalTree(op: BinOp, e: Expr, le: Order)
  {
    && (op == And || op == Add || op == Mul)
    && e == Rebuild(op, Flatten(op, e)) && NormalTerms(op, Flatten(op, e), le)
    && (op == Mul ==> forall t | t in Flatten(op, e) :: !t.Const?)
    && (op != And ==> ExprWidth(e).Some?)
  }

  /** The terms are no trees of the operator; at most the last one is a constant, and one that has an effect; the
      others are in order. No two terms of a conjunction are equal, or complements of each other where a width is
      known. */
  ghost predicate NormalTerms(op: BinOp, terms: seq<Expr>, le: Order)
  {
    && Terms(op, terms) && InOrder(NonConstants(terms), le)
    && (op == And ==>
          Distinct(terms) && (HasComplementaryPair(terms) ==> forall t | t in terms :: ExprWidth(t).None?))
  }

  /** A comparison of different operands, in order where it is symmetric; a shift of something by something. */
  ghost predicate NormalPair(op: BinOp, lhs: Expr, rhs: Expr, le: Order)
  {
    && op != Sub
    && (IsComparison(op) ==> lhs != rhs && (op == Equal ==> le(lhs, rhs)))
    && (!IsComparison(op) ==> !IsZero(lhs) && !IsZero(rhs))
  }

  predicate IsZero(e: Expr)
  {
    e.Const? && e.value == 0
  }

  /** A slice inside its operand that leaves something out. */
  predicate ProperSlice(operand: Expr, high: nat, low: nat)
  {
    low <= high && match ExprWidth(operand) case None => true case Some(w) => high < w && !(low == 0 && high + 1 == w)
  }

  /** An extension that adds bits, not applied to one of the same kind. */
  predicate ProperExtension(kind: ExtendOp, operand: Expr, toWidth: nat)
  {
    && !(operand.Extend? && operand.kind == kind)
    && match ExprWidth(operand) case None => true case Some(w) => w < toWidth
  }

  ghost predicate AllNormal(terms: seq<Expr>, le: Order)
  {
    forall t | t in terms :: Normal(t, le)
  }

  // ----- terms of normal expressions -----

  lemma {:induction false} LeavesAreNormal(op: BinOp, e: Expr, le: Order)
    ensures NormalLeaves(op, e, le) <==> AllNormal(Flatten(op, e), le)
    decreases e
  {
    hide Normal;
    if e.Bin? && e.op == op {
      LeavesAreNormal(op, e.lhs, le);
      LeavesAreNormal(op, e.rhs, le);
    }
  }

  lemma {:induction false} LeavesAreNoTrees(op: BinOp, e: Expr)
    ensures forall t | t in Flatten(op, e) :: !IsTree(op, t)
    decreases e
  {
    if e.Bin? && e.op == op {
      LeavesAreNoTrees(op, e.lhs);
      LeavesAreNoTrees(op, e.rhs);
    }
  }

  lemma NormalHasLeaves(op: BinOp, e: Expr, le: Order)
    requires IsAssocComm(op) && Normal(e, le)
    ensures AllNormal(Flatten(op, e), le)
  {
    LeavesAreNormal(op, e, le);
  }

  lemma {:induction false} AllLeavesNormal(op: BinOp, terms: seq<Expr>, le: Order)
    requires IsAssocComm(op) && AllNormal(terms, le)
    ensures AllNormal(FlattenAll(op, terms), le) && forall t | t in FlattenAll(op, terms) :: !IsTree(op, t)
  {
    hide Normal;
    if terms != [] {
      NormalHasLeaves(op, terms[0], le);
      LeavesAreNoTrees(op, terms[0]);
      AllLeavesNormal(op, terms[1..], le);
    }
  }

  // ----- combining terms -----

  lemma {:induction false} NonConstantsAre(terms: seq<Expr>)
    requires forall t | t in terms :: !t.Const?
    ensures NonConstants(terms) == terms
  {
    if terms != [] { NonConstantsAre(terms[1..]); }
  }

  lemma {:induction false} NonConstantsBefore(terms: seq<Expr>, c: Expr)
    requires (forall t | t in terms :: !t.Const?) && c.Const?
    ensures NonConstants(terms + [c]) == terms
  {
    if terms == [] {
      assert terms + [c] == [c] && NonConstants([c][1..]) == [];
    } else {
      NonConstantsBefore(terms[1..], c);
      assert (terms + [c])[1..] == terms[1..] + [c];
    }
  }

  lemma {:induction false} CancelInOrder(terms: seq<Expr>, cancelled: Option<nat>, le: Order)
    requires LinearOrder(le) && InOrder(terms, le)
    ensures InOrder(CancelRuns(terms, cancelled).0, le)
    decreases |terms|
  {
    hide CancelRuns, RunWidth;
    if terms == [] {
      NothingToCancel(cancelled);
    } else {
      var n, t := RunLength(terms), terms[0];
      var rest := CancelRuns(terms[n..], RunWidth(t, n, cancelled)).0;
      InOrderFrom(terms, n, le);
      CancelInOrder(terms[n..], RunWidth(t, n, cancelled), le);
      CancelUnfolds(terms, cancelled);
      CancelFrom(terms[n..], RunWidth(t, n, cancelled));
      forall x | x in rest ensures le(t, x) {
        assert x in terms[n..];
        FirstIsLeast(terms, x, le);
      }
      PrependRun(t, n, rest, le);
    }
  }

  lemma PrependRun(t: Expr, n: nat, terms: seq<Expr>, le: Order)
    requires LinearOrder(le) && InOrder(terms, le) && forall x | x in terms :: le(t, x)
    ensures InOrder(RunKept(t, n) + terms, le)
  {
  }

  /** The reduced terms: in order, no constants, and for conjunctions and disjunctions pairwise different. */
  lemma ReducedInOrder(op: BinOp, terms: seq<Expr>, le: Order)
    requires IsAssocComm(op) && LinearOrder(le)
    ensures var reduced := ReduceTerms(op, terms, le).0;
      InOrder(reduced, le) && (op == And || op == Or ==> Distinct(reduced))
  {
    hide LinearOrder, InOrder, Distinct, Sort, Dedup, CancelRuns, FoldConstants, NonConstants;
    var sorted := Sort(NonConstants(terms), le);
    SortSorted(NonConstants(terms), le);
    DedupDistinct(sorted, le);
    var folded := FoldConstants(op, terms, NoConst);
    CancelInOrder(sorted, if folded.Folded? then Some(folded.width) else None, le);
  }

  lemma {:induction false} FirstWidthFound(terms: seq<Expr>)
    ensures FirstWidth(terms).Some? <==> exists t :: t in terms && ExprWidth(t).Some?
  {
    if terms != [] {
      FirstWidthFound(terms[1..]);
      if t :| t in terms && ExprWidth(t).Some? && t != terms[0] { assert t in terms[1..]; }
      if t :| t in terms[1..] && ExprWidth(t).Some? { assert t in terms; }
    }
  }

  /** The code finds a complementary pair of terms, and a width for the result. */
  predicate PairFound(op: BinOp, reduced: seq<Expr>, folded: Folded)
  {
    && (op == And || op == Or) && HasComplementaryPair(reduced)
    && (FirstWidth(reduced).Some? || folded.Folded?)
  }

  /** The terms that the combined operation is rebuilt from. */
  function CombinedTerms(op: BinOp, terms: seq<Expr>, le: Order): seq<Expr>
    requires IsAssocComm(op)
  {
    var (reduced, folded) := ReduceTerms(op, terms, le);
    if PairFound(op, reduced, folded) then
      var width := if FirstWidth(reduced).Some? then FirstWidth(reduced).value
                   else if folded.Folded? then folded.width else 0;
      [Const(if op == And then 0 else Mask(width), width)]
    else Assembly(op, reduced, folded)
  }

  lemma CombineSplits(op: BinOp, terms: seq<Expr>, le: Order)
    requires IsAssocComm(op)
    ensures var r, (reduced, folded) := CombineTerms(op, terms, le), ReduceTerms(op, terms, le);
      if folded.BadWidth? then r == Panic
      else if PairFound(op, reduced, folded) then
        var c := CombinedTerms(op, terms, le);
        |c| == 1 && c[0].Const? && r == if c[0].width == 0 then Panic else Done(c[0], {})
      else r == AssembleTerms(op, reduced, folded) && CombinedTerms(op, terms, le) == Assembly(op, reduced, folded)
  {
    hide ReduceTerms, AssembleTerms, Assembly, HasComplementaryPair, FirstWidth;
  }

  lemma SingleConstant(op: BinOp, c: Expr, le: Order)
    requires ReducedConstant(c)
    ensures AllNormal([c], le) && NormalTerms(op, [c], le) && Rebuild(op, [c]) == c
  {
    assert !HasComplementaryPair([c]);
    assert NonConstants([c]) == [];
  }

  /** A complementary pair never includes a constant. */
  lemma PairAmongTerms(terms: seq<Expr>, c: Expr, le: Order)
    requires AllNormal(terms, le) && c.Const? && HasComplementaryPair(terms + [c])
    ensures HasComplementaryPair(terms)
  {
    var all := terms + [c];
    var i, j :| 0 <= i < j < |all| && Complementary(all[i], all[j]);
    assert all[i] in terms && Normal(all[i], le);
    assert Complementary(terms[i], terms[j]);
  }

  /** Reduced terms with the constant appended, or without it. */
  lemma AssemblyNormal(op: BinOp, reduced: seq<Expr>, folded: Folded, le: Order)
    requires IsAssocComm(op) && AllNormal(reduced, le) && InOrder(reduced, le) && (op == And ==> Distinct(reduced))
    requires forall t | t in reduced :: !IsTree(op, t) && !t.Const?
    requires folded.Folded? ==> folded.width > 0 && folded.value < Pow2(folded.width)
    requires !PairFound(op, reduced, folded)
    ensures var r, list := AssembleTerms(op, reduced, folded), Assembly(op, reduced, folded);
      r.Done? ==> list != [] && r.value == Rebuild(op, list) && AllNormal(list, le) && NormalTerms(op, list, le)
  {
    hide Normal, HasComplementaryPair, Rebuild, Terms, InOrder;
    var r, list := AssembleTerms(op, reduced, folded), Assembly(op, reduced, folded);
    if r.Done? {
      AssembledIsRebuilt(op, reduced, folded);
      NonConstantsAre(reduced);
      FirstWidthFound(reduced);
      if folded.Folded? {
        var c := Const(folded.value, folded.width);
        SingleConstant(op, c, le);
        assert Normal(c, le) by { assert c in [c]; }
        if list == reduced + [c] {
          NonConstantsBefore(reduced, c);
          if HasComplementaryPair(list) { PairAmongTerms(reduced, c, le); }
        }
      }
    }
  }

  /** The combined operation is rebuilt from normal terms. */
  lemma CombineNormal(op: BinOp, terms: seq<Expr>, le: Order)
    requires IsAssocComm(op) && LinearOrder(le) && AllNormal(terms, le)
    requires forall t | t in terms :: !IsTree(op, t)
    ensures var r, list := CombineTerms(op, terms, le), CombinedTerms(op, terms, le);
      r.Done? ==> list != [] && r.value == Rebuild(op, list) && AllNormal(list, le) && NormalTerms(op, list, le)
  {
    hide CombineTerms, CombinedTerms, ReduceTerms, Normal, NormalTerms, AssembleTerms, Assembly, PairFound, InOrder,
      Distinct, FoldConstants, LinearOrder, Rebuild;
    var (reduced, folded) := ReduceTerms(op, terms, le);
    var r, list := CombineTerms(op, terms, le), CombinedTerms(op, terms, le);
    CombineSplits(op, terms, le);
    if r.Done? {
      ReduceFrom(op, terms, le);
      ReducedInOrder(op, terms, le);
      ReducedFolded(op, terms, le);
      if PairFound(op, reduced, folded) {
        PairConstant(op, terms, le);
        SingleConstant(op, list[0], le);
        assert list == [list[0]];
      } else {
        AssemblyNormal(op, reduced, folded, le);
      }
    }
  }

  lemma ReducedFolded(op: BinOp, terms: seq<Expr>, le: Order)
    requires IsAssocComm(op) && CombineTerms(op, terms, le).Done?
    ensures var f := ReduceTerms(op, terms, le).1; f.Folded? ==> f.width > 0 && f.value < Pow2(f.width)
  {
    hide CancelRuns, Sort, NonConstants, Dedup, FoldConstants;
    FoldedInRange(op, terms, NoConst);
  }

  lemma PairConstant(op: BinOp, terms: seq<Expr>, le: Order)
    requires IsAssocComm(op) && CombineTerms(op, terms, le).Done?
    requires var (reduced, folded) := ReduceTerms(op, terms, le); PairFound(op, reduced, folded)
    ensures var c := CombinedTerms(op, terms, le); |c| == 1 && ReducedConstant(c[0])
  {
    hide ReduceTerms, HasComplementaryPair, AssembleTerms;
  }

  // ----- trees -----

  /** Normal terms are rebuilt into a normal tree. */
  lemma RebuildNormal(op: BinOp, terms: seq<Expr>, le: Order)
    requires op == And || op == Add || op == Mul
    requires terms != [] && AllNormal(terms, le) && NormalTerms(op, terms, le)
    requires |terms| > 1 && op == Mul ==> forall t | t in terms :: !t.Const?
    requires |terms| > 1 && op != And ==> ExprWidth(Rebuild(op, terms)).Some?
    ensures Normal(Rebuild(op, terms), le)
  {
    hide NormalTerms, Rebuild, ExprWidth, NormalLeaves;
    var e := Rebuild(op, terms);
    RebuiltTerms(op, terms, le);
    if |terms| > 1 {
      LeavesAreNormal(op, e, le);
      assert NormalTree(op, e, le);
      LeavesOfTree(op, e, le);
    } else {
      assert terms[0] in terms;
    }
  }

  lemma RebuiltTerms(op: BinOp, terms: seq<Expr>, le: Order)
    requires terms != [] && NormalTerms(op, terms, le)
    ensures var e := Rebuild(op, terms);
      && Flatten(op, e) == terms && (|terms| == 1 ==> e == terms[0])
      && (|terms| > 1 ==> IsTree(op, e) && !e.lhs.Const? && e.rhs == terms[|terms| - 1])
  {
    hide Rebuild, InOrder, HasComplementaryPair;
    RebuildIsLeftTree(op, terms);
  }

  lemma LeavesOfTree(op: BinOp, e: Expr, le: Order)
    requires IsTree(op, e) && NormalLeaves(op, e, le)
    ensures NormalLeaves(op, e.lhs, le) && NormalLeaves(op, e.rhs, le)
  {
  }

  // ----- the canonicalizer -----

  ghost predicate NormalOutcome(r: Outcome<Expr>, le: Order)
  {
    r.Done? ==> Normal(r.value, le)
  }

  ghost predicate NormalUpTo(le: Order, fuel: nat)
  {
    forall e :: NormalOutcome(Canonicalize(e, le, fuel), le)
  }

  lemma {:induction false} CanonicalizeAllNormal(terms: seq<Expr>, le: Order, fuel: nat)
    requires NormalUpTo(le, fuel)
    ensures var r := CanonicalizeAll(terms, le, fuel); r.Done? ==> AllNormal(r.value, le)
  {
    hide Normal;
    if terms != [] {
      CanonicalizeAllNormal(terms[1..], le, fuel);
      assert NormalOutcome(Canonicalize(terms[0], le, fuel), le);
    }
  }

  /** The combined tree is rebuilt from normal terms. */
  lemma AssocCommNormal(op: BinOp, lhs: Expr, rhs: Expr, le: Order, fuel: nat) returns (list: seq<Expr>)
    requires IsAssocComm(op) && LinearOrder(le) && NormalUpTo(le, fuel)
    requires CanonicalizeAssocComm(op, lhs, rhs, le, fuel).Done?
    ensures list != [] && AllNormal(list, le) && NormalTerms(op, list, le)
    ensures CanonicalizeAssocComm(op, lhs, rhs, le, fuel).value == Rebuild(op, list)
  {
    hide Normal, NormalTerms, Rebuild, LinearOrder, RemoveAbsorbed, CanonicalizeAll, CombineTerms, CombinedTerms;
    var kept := RemoveAbsorbed(op, Flatten(op, lhs) + Flatten(op, rhs), le, fuel);
    var canonical := CanonicalizeAll(kept.value, le, fuel);
    CanonicalizeAllNormal(kept.value, le, fuel);
    AllLeavesNormal(op, canonical.value, le);
    CombineNormal(op, FlattenAll(op, canonical.value), le);
    list := CombinedTerms(op, FlattenAll(op, canonical.value), le);
  }

  lemma BinNormal(op: BinOp, lhs: Expr, rhs: Expr, le: Order, fuel: nat)
    requires LinearOrder(le) && NormalUpTo(le, fuel)
    ensures NormalOutcome(CanonicalizeBin(op, lhs, rhs, le, fuel), le)
  {
    hide CanonicalizeBin, FinishTree, CanonicalizeOperands, CanonicalizeAssocComm, Normal, NormalTerms, LinearOrder;
    if IsAssocComm(op) {
      TreeUnfolds(op, lhs, rhs, le, fuel);
      var c := CanonicalizeAssocComm(op, lhs, rhs, le, fuel);
      if c.Done? {
        var list := AssocCommNormal(op, lhs, rhs, le, fuel);
        FinishNormal(op, list, le, fuel);
      }
    } else {
      PlainUnfolds(op, lhs, rhs, le, fuel);
      var l, r := Canonicalize(lhs, le, fuel), Canonicalize(rhs, le, fuel);
      assert NormalOutcome(l, le) && NormalOutcome(r, le);
      if l.Done? && r.Done? { OperandsNormal(op, l.value, r.value, le, fuel); }
    }
  }

  /** What is left to do with a tree over normal terms makes it normal. */
  lemma FinishNormal(op: BinOp, list: seq<Expr>, le: Order, fuel: nat)
    requires IsAssocComm(op) && NormalUpTo(le, fuel)
    requires list != [] && AllNormal(list, le) && NormalTerms(op, list, le)
    ensures NormalOutcome(FinishTree(op, Rebuild(op, list), le, fuel), le)
  {
    hide Normal, NormalTerms, Rebuild, CanonicalizeMul, LowerOperators, Canonicalize;
    RebuiltTerms(op, list, le);
    var tree := Rebuild(op, list);
    if op == And {
      RebuildNormal(op, list, le);
    } else if op == Add || op == Mul {
      MulNormal(op, list, le, fuel);
    } else {
      if |list| == 1 { assert list[0] in list; }
      LowerNormal(tree, le, fuel);
    }
  }

  lemma MulNormal(op: BinOp, list: seq<Expr>, le: Order, fuel: nat)
    requires (op == Add || op == Mul) && NormalUpTo(le, fuel)
    requires list != [] && AllNormal(list, le) && NormalTerms(op, list, le)
    ensures NormalOutcome(CanonicalizeMul(Rebuild(op, list), le, fuel), le)
  {
    hide Normal, NormalTerms, Rebuild, Canonicalize;
    RebuiltTerms(op, list, le);
    var tree := Rebuild(op, list);
    if |list| == 1 {
      assert list[0] in list;
      if IsTree(Mul, tree) { NormalProduct(tree, le); }
    } else if op == Mul && tree.rhs.Const? {
      if ExprWidth(tree).Some? {
        var w := ExprWidth(tree).value;
        assert NormalOutcome(Canonicalize(ShiftAddTerms(tree.lhs, tree.rhs.value, Const(0, w), w), le, fuel), le);
      }
    } else if ExprWidth(tree).Some? {
      if op == Mul { NoConstantTerms(list, le); }
      RebuildNormal(op, list, le);
    }
  }

  lemma NormalProduct(e: Expr, le: Order)
    requires Normal(e, le) && e.Bin? && e.op == Mul
    ensures !e.lhs.Const? && !e.rhs.Const?
  {
    hide NormalLeaves, InOrder;
    var terms := Flatten(Mul, e);
    assert NormalTree(Mul, e, le);
    assert |terms| >= 2;
    RebuiltTerms(Mul, terms, le);
    assert e.rhs in terms;
  }

  lemma NoConstantTerms(list: seq<Expr>, le: Order)
    requires list != [] && NormalTerms(Mul, list, le) && !list[|list| - 1].Const?
    ensures forall t | t in list :: !t.Const?
  {
    forall t | t in list ensures !t.Const? { var k :| 0 <= k < |list| && list[k] == t; }
  }

  lemma LowerNormal(e: Expr, le: Order, fuel: nat)
    requires NormalUpTo(le, fuel) && (Normal(e, le) || (e.Bin? && (e.op == Or || e.op == Xor)) || e.Select?)
    ensures NormalOutcome(LowerOperators(e, le, fuel), le)
  {
    hide Canonicalize, Normal;
    if e.Bin? && e.op == Or {
      assert NormalOutcome(Canonicalize(LowerOr(e.lhs, e.rhs), le, fuel), le);
    } else if e.Bin? && e.op == Xor {
      assert NormalOutcome(Canonicalize(LowerXor(e.lhs, e.rhs), le, fuel), le);
    } else if e.Select? && ExprWidth(e.whenTrue).Some? {
      var l := LowerSelect(e.condition, e.whenTrue, e.whenFalse, ExprWidth(e.whenTrue).value);
      assert NormalOutcome(Canonicalize(l, le, fuel), le);
    }
  }

  lemma OperandsNormal(op: BinOp, lhs: Expr, rhs: Expr, le: Order, fuel: nat)
    requires LinearOrder(le) && NormalUpTo(le, fuel) && !IsAssocComm(op) && Normal(lhs, le) && Normal(rhs, le)
    ensures NormalOutcome(CanonicalizeOperands(op, lhs, rhs, le, fuel), le)
  {
    hide CanonicalizeSub, CanonicalComparison, CanonicalShift, Normal, LinearOrder, CanonicalizeOperands;
    OperandsAre(op, lhs, rhs, le, fuel);
    if op == Sub {
      SubNormal(lhs, rhs, le, fuel);
    } else if IsComparison(op) {
      ComparisonNormal(op, lhs, rhs, le);
    } else {
      ShiftNormal(op, lhs, rhs, le);
    }
  }

  lemma SubNormal(lhs: Expr, rhs: Expr, le: Order, fuel: nat)
    requires NormalUpTo(le, fuel) && Normal(lhs, le) && Normal(rhs, le)
    ensures NormalOutcome(CanonicalizeSub(lhs, rhs, le, fuel), le)
  {
    hide Canonicalize;
    if ExprWidth(lhs).Some? {
      var again := Bin(Add, Bin(Add, lhs, Not(rhs)), Const(1, ExprWidth(lhs).value));
      assert NormalOutcome(Canonicalize(again, le, fuel), le);
    }
  }

  lemma ComparisonNormal(op: BinOp, lhs: Expr, rhs: Expr, le: Order)
    requires LinearOrder(le) && IsComparison(op) && Normal(lhs, le) && Normal(rhs, le)
    ensures Normal(CanonicalComparison(op, lhs, rhs, le), le)
  {
    hide Normal, LinearOrder;
    if lhs == rhs {
      BoolNormal(op == Equal, le);
    } else if op == Equal {
      Total(le, lhs, rhs);
      if !le(lhs, rhs) { PairNormal(op, rhs, lhs, le); } else { PairNormal(op, lhs, rhs, le); }
    } else {
      PairNormal(op, lhs, rhs, le);
    }
  }

  lemma BoolNormal(b: bool, le: Order)
    ensures Normal(Const(BoolVal(b), 1), le)
  {
    assert Pow2(1) == 2 * Pow2(0);
  }

  lemma Total(le: Order, a: Expr, b: Expr)
    requires LinearOrder(le)
    ensures le(a, b) || le(b, a)
  {
  }

  lemma PairNormal(op: BinOp, lhs: Expr, rhs: Expr, le: Order)
    requires !IsAssocComm(op) && Normal(lhs, le) && Normal(rhs, le) && NormalPair(op, lhs, rhs, le)
    ensures Normal(Bin(op, lhs, rhs), le)
  {
  }

  lemma ShiftNormal(op: BinOp, value: Expr, amount: Expr, le: Order)
    requires !IsAssocComm(op) && op != Sub && !IsComparison(op) && Normal(value, le) && Normal(amount, le)
    ensures NormalOutcome(CanonicalShift(op, value, amount), le)
  {
    hide Normal;
    ConstantReduced(amount, le);
    ConstantReduced(value, le);
    var r := CanonicalShift(op, value, amount);
    if r.Done? && r.value == Bin(op, value, amount) && !IsZero(amount) && !IsZero(value) {
      PairNormal(op, value, amount, le);
    }
  }

  lemma ConstantReduced(e: Expr, le: Order)
    requires Normal(e, le)
    ensures e.Const? ==> e.width > 0 && e.value % Pow2(e.width) == e.value && Normal(Const(0, e.width), le)
  {
    if e.Const? { IsReduced(e.value, e.width); }
  }

  lemma ConcatNormal(parts: seq<Expr>, le: Order)
    requires AllNormal(parts, le)
    ensures NormalOutcome(RebuildConcat(parts), le)
  {
    MergedChunks(parts);
    var m := MergeChunks(parts);
    if m.Some? {
      forall p | p in m.value ensures Normal(p, le) {}
      if |m.value| == 1 { assert m.value[0] in m.value; }
    }
  }

  lemma ExtensionNormal(kind: ExtendOp, value: Expr, toWidth: nat, le: Order)
    requires Normal(value, le)
    ensures NormalOutcome(CanonicalExtension(kind, value, toWidth), le)
  {
    hide Normal;
    StrippedNormal(kind, value, le);
    ExtendNormal(kind, StripNested(kind, value), toWidth, le);
  }

  lemma StrippedNormal(kind: ExtendOp, value: Expr, le: Order)
    requires Normal(value, le)
    ensures var v := StripNested(kind, value);
      && Normal(v, le) && !(v.Extend? && v.kind == kind)
      && (v != value ==> ExprWidth(value).Some? && ProperExtension(kind, v, ExprWidth(value).value))
  {
  }

  lemma ExtendNormal(kind: ExtendOp, operand: Expr, toWidth: nat, le: Order)
    requires Normal(operand, le)
    ensures ProperExtension(kind, operand, toWidth) ==> Normal(Extend(kind, operand, toWidth), le)
  {
  }

  lemma FlagNormal(flag: FlagOp, lhs: Expr, rhs: Expr, flagIn: Expr, width: nat, le: Order, fuel: nat)
    requires NormalUpTo(le, fuel)
    ensures NormalOutcome(CanonicalizeFlag(flag, lhs, rhs, flagIn, width, le, fuel), le)
  {
    hide Canonicalize;
    assert NormalOutcome(Canonicalize(lhs, le, fuel), le);
    assert NormalOutcome(Canonicalize(FlagOperand(flag, rhs), le, fuel), le);
    assert NormalOutcome(Canonicalize(FlagOperand(flag, flagIn), le, fuel), le);
  }

  lemma ChoiceNormal(condition: Expr, whenTrue: Expr, whenFalse: Expr, le: Order, fuel: nat)
    requires NormalUpTo(le, fuel)
    ensures NormalOutcome(CanonicalizeChoice(condition, whenTrue, whenFalse, le, fuel), le)
  {
    hide Canonicalize, Normal;
    var c, t, f := Canonicalize(condition, le, fuel), Canonicalize(whenTrue, le, fuel),
                   Canonicalize(whenFalse, le, fuel);
    assert NormalOutcome(c, le) && NormalOutcome(t, le) && NormalOutcome(f, le);
    if c.Done? && t.Done? && f.Done? { LowerNormal(Select(c.value, t.value, f.value), le, fuel); }
  }

  lemma NormalStep(e: Expr, le: Order, fuel: nat)
    requires LinearOrder(le) && fuel > 0 && NormalUpTo(le, fuel - 1)
    ensures NormalOutcome(Canonicalize(e, le, fuel), le)
  {
    hide LinearOrder, CanonicalizeBin, CanonicalizeAll, CanonicalizeFlag, CanonicalizeChoice, CanonicalExtension,
      RebuildConcat;
    match e
    case Const(_, _) =>
    case RegisterField(_) =>
    case ImmediateField(_) =>
    case DerivedValue(_) =>
    case ReadRegister(register, _) => assert NormalOutcome(Canonicalize(register, le, fuel - 1), le);
    case ReadMemory(address, _) => assert NormalOutcome(Canonicalize(address, le, fuel - 1), le);
    case Bin(op, lhs, rhs) => BinNormal(op, lhs, rhs, le, fuel - 1);
    case Not(operand) => assert NormalOutcome(Canonicalize(operand, le, fuel - 1), le);
    case CountOnes(operand) => assert NormalOutcome(Canonicalize(operand, le, fuel - 1), le);
    case Slice(operand, _, _) => assert NormalOutcome(Canonicalize(operand, le, fuel - 1), le);
    case Concat(parts) =>
      CanonicalizeAllNormal(parts, le, fuel - 1);
      var r := CanonicalizeAll(parts, le, fuel - 1);
      if r.Done? { ConcatNormal(r.value, le); }
    case Extend(kind, operand, toWidth) =>
      var c := Canonicalize(operand, le, fuel - 1);
      assert NormalOutcome(c, le);
      if c.Done? { ExtensionNormal(kind, c.value, toWidth, le); }
    case Flag(flag, lhs, rhs, flagIn, width) => FlagNormal(flag, lhs, rhs, flagIn, width, le, fuel - 1);
    case Select(c, t, f) => ChoiceNormal(c, t, f, le, fuel - 1);
  }

  /** Every finished canonicalization is in normal form. */
  lemma {:induction false} CanonicalizeNormal(e: Expr, le: Order, fuel: nat)
    requires LinearOrder(le)
    ensures NormalOutcome(Canonicalize(e, le, fuel), le)
    decreases fuel
  {
    hide LinearOrder, Normal;
    if fuel > 0 {
      var less := fuel - 1;
      forall x ensures NormalOutcome(Canonicalize(x, le, less), le) { CanonicalizeNormal(x, le, less); }
      NormalStep(e, le, fuel);
    }
  }
}
