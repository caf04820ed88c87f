/** Canonicalizing a canonical expression gives the same expression. */
module CanonicalFixpoint {
  import opened Words
  import opened Exprs
  import opened Canonicalizer
  import opened TreeShapes
  import opened TermOrder
  import opened CanonicalNormal
  import opened AssocCommTrees

  /** The nesting of an expression. */
  function Depth(e: Expr): (d: nat)
    decreases e, 0
  {
    match e
    case ReadRegister(register, _) => 1 + Depth(register)
    case ReadMemory(address, _) => 1 + Depth(address)
    case Bin(_, lhs, rhs) => 1 + Larger(Depth(lhs), Depth(rhs))
    case Not(operand) => 1 + Depth(operand)
    case CountOnes(operand) => 1 + Depth(operand)
    case Slice(operand, _, _) => 1 + Depth(operand)
    case Concat(parts) => 1 + PartsDepth(parts)
    case Extend(_, operand, _) => 1 + Depth(operand)
    case Flag(_, lhs, rhs, flagIn, _) => 1 + Larger(Depth(lhs), Larger(Depth(rhs), Depth(flagIn)))
    case Select(c, t, f) => 1 + Larger(Depth(c), Larger(Depth(t), Depth(f)))
    case _ => 1
  }

  function Larger(a: nat, b: nat): nat { if a < b then b else a }

  function PartsDepth(parts: seq<Expr>): nat
    decreases parts, 0
  {
    if parts == [] then 0
    else Larger(PartsDepth(parts[..|parts| - 1]), Depth(parts[|parts| - 1]))
  }

  ghost predicate AllWithin(terms: seq<Expr>, d: nat)
  {
    forall t | t in terms :: Depth(t) <= d
  }

  lemma {:induction false} PartsWithin(parts: seq<Expr>)
    ensures AllWithin(parts, PartsDepth(parts))
  {
    if parts != [] {
      var init := parts[..|parts| - 1];
      PartsWithin(init);
      assert parts == init + [parts[|parts| - 1]];
    }
  }

  lemma {:induction false} LeavesWithin(op: BinOp, e: Expr)
    ensures AllWithin(Flatten(op, e), Depth(e))
    decreases e
  {
    if e.Bin? && e.op == op {
      LeavesWithin(op, e.lhs);
      LeavesWithin(op, e.rhs);
    }
  }

  // ----- combining normal terms -----

  lemma {:induction false} NothingFolds(op: BinOp, terms: seq<Expr>, acc: Folded)
    requires IsAssocComm(op) && forall t | t in terms :: !t.Const?
    ensures FoldConstants(op, terms, acc) == acc
  {
    if terms != [] { NothingFolds(op, terms[1..], acc); }
  }

  lemma LastFolds(op: BinOp, terms: seq<Expr>, c: Expr)
    requires IsAssocComm(op) && (forall t | t in terms :: !t.Const?) && ReducedConstant(c)
    ensures FoldConstants(op, terms + [c], NoConst) == Folded(c.value, c.width)
  {
    FoldAppend(op, terms, [c], NoConst);
    NothingFolds(op, terms, NoConst);
    IsReduced(c.value, c.width);
    assert [c][1..] == [];
  }

  lemma DistinctPrefix(terms: seq<Expr>, c: Expr)
    requires Distinct(terms + [c])
    ensures Distinct(terms)
  {
    forall i, j | 0 <= i < j < |terms| ensures terms[i] != terms[j] {
      assert (terms + [c])[i] != (terms + [c])[j];
    }
  }

  lemma PairPrefix(terms: seq<Expr>, c: Expr)
    requires HasComplementaryPair(terms)
    ensures HasComplementaryPair(terms + [c])
  {
    var i, j :| 0 <= i < j < |terms| && Complementary(terms[i], terms[j]);
    assert Complementary((terms + [c])[i], (terms + [c])[j]);
  }

  /** Reducing ordered terms, with or without a constant behind them, changes nothing. */
  lemma ReduceStays(op: BinOp, terms: seq<Expr>, all: seq<Expr>, folded: Folded, le: Order)
    requires LinearOrder(le) && (op == And || op == Add || op == Mul)
    requires NonConstants(all) == terms && FoldConstants(op, all, NoConst) == folded
    requires InOrder(terms, le) && (op == And ==> Distinct(terms))
    ensures ReduceTerms(op, all, le) == (terms, folded)
  {
    hide LinearOrder, InOrder, Distinct, Sort, Dedup, CancelRuns, FoldConstants, NonConstants;
    SortStays(terms, le);
    if op == And { DedupStays(terms); }
  }

  /** Normal terms combine to the tree over them. */
  lemma CombineStays(op: BinOp, terms: seq<Expr>, le: Order)
    requires LinearOrder(le) && (op == And || op == Add || op == Mul)
    requires |terms| > 1 && NormalTerms(op, terms, le)
    ensures CombineTerms(op, terms, le) == Done(Rebuild(op, terms), {})
  {
    hide LinearOrder, InOrder, Distinct, ReduceTerms, HasComplementaryPair, NonConstants, FoldConstants, ProperConstant;
    var init, last := terms[..|terms| - 1], terms[|terms| - 1];
    assert terms == init + [last];
    TermsPrefix(op, terms);
    FirstWidthFound(init);
    FirstWidthFound(terms);
    if last.Const? {
      ProperIsReduced(op, last);
      NonConstantsBefore(init, last);
      LastFolds(op, init, last);
      if op == And { DistinctPrefix(init, last); }
      ReduceStays(op, init, terms, Folded(last.value, last.width), le);
      if HasComplementaryPair(init) { PairPrefix(init, last); assert last in terms; }
    } else {
      forall t | t in terms ensures !t.Const? {}
      NonConstantsAre(terms);
      NothingFolds(op, terms, NoConst);
      ReduceStays(op, terms, terms, NoConst, le);
    }
  }

  lemma ProperIsReduced(op: BinOp, c: Expr)
    requires c.Const? && ProperConstant(op, c)
    ensures ReducedConstant(c) && !IsIdentity(op, c.value, c.width) && !IsAnnihilator(op, c.value, c.width)
  {
  }

  // ----- no term is absorbed -----

  lemma {:induction false} NothingAbsorbs(
    op: BinOp, terms: seq<Expr>, canonical: seq<Expr>, i: nat, le: Order, fuel: nat)
    requires i <= |terms| && forall t | t in terms :: !IsTree(op, t)
    ensures var r := Absorbers(op, terms, canonical, i, le, fuel);
      r.Done? && forall k | 0 <= k < |r.value| :: r.value[k].None?
    decreases |terms| - i
  {
    hide FirstAbsorber;
    if i < |terms| {
      assert terms[i] in terms;
      NothingAbsorbs(op, terms, canonical, i + 1, le, fuel);
    }
  }

  lemma {:induction false} AllRetained(terms: seq<Expr>, absorbers: seq<Option<nat>>)
    requires |terms| == |absorbers| && forall k | 0 <= k < |absorbers| :: absorbers[k].None?
    ensures Retain(terms, absorbers) == terms
  {
    if terms != [] { AllRetained(terms[1..], absorbers[1..]); }
  }

  lemma NoDisjunction(e: Expr, le: Order)
    requires Normal(e, le)
    ensures !IsTree(Or, e)
  {
    hide NormalLeaves, NormalTerms;
  }

  lemma RemovalStays(op: BinOp, terms: seq<Expr>, le: Order, fuel: nat)
    requires (op == And || op == Add || op == Mul) && AllNormal(terms, le)
    requires CanonicalizeAll(terms, le, fuel).Done?
    ensures var r := RemoveAbsorbed(op, terms, le, fuel); r.Done? && r.value == terms
  {
    hide CanonicalizeAll, Absorbers, Normal;
    if op == And {
      var c := CanonicalizeAll(terms, le, fuel).value;
      forall t | t in terms ensures !IsTree(Or, t) { NoDisjunction(t, le); }
      NothingAbsorbs(Or, terms, c, 0, le, fuel);
      AllRetained(terms, Absorbers(Or, terms, c, 0, le, fuel).value);
    }
  }

  lemma {:induction false} AllFlattened(op: BinOp, terms: seq<Expr>)
    requires forall t | t in terms :: !IsTree(op, t)
    ensures FlattenAll(op, terms) == terms
  {
    if terms != [] {
      assert terms[0] in terms && Flatten(op, terms[0]) == [terms[0]];
      AllFlattened(op, terms[1..]);
      assert terms == [terms[0]] + terms[1..];
    }
  }

  // ----- the canonicalizer -----

  ghost predicate Fixed(r: Outcome<Expr>, e: Expr)
  {
    r.Done? && r.value == e
  }

  ghost predicate FixedUpTo(le: Order, fuel: nat)
  {
    forall e | Normal(e, le) && Depth(e) <= fuel :: Fixed(Canonicalize(e, le, fuel), e)
  }

  lemma {:induction false} AllFixed(terms: seq<Expr>, le: Order, fuel: nat)
    requires FixedUpTo(le, fuel) && AllNormal(terms, le) && AllWithin(terms, fuel)
    ensures var r := CanonicalizeAll(terms, le, fuel); r.Done? && r.value == terms
  {
    hide Normal, Canonicalize;
    if terms != [] {
      assert Fixed(Canonicalize(terms[0], le, fuel), terms[0]);
      AllFixed(terms[1..], le, fuel);
    }
  }

  lemma AssocCommFixed(op: BinOp, lhs: Expr, rhs: Expr, le: Order, fuel: nat)
    requires LinearOrder(le) && FixedUpTo(le, fuel) && (op == And || op == Add || op == Mul)
    requires var terms := Flatten(op, lhs) + Flatten(op, rhs);
      |terms| > 1 && NormalTerms(op, terms, le) && AllNormal(terms, le) && AllWithin(terms, fuel)
    ensures Fixed(CanonicalizeAssocComm(op, lhs, rhs, le, fuel), Rebuild(op, Flatten(op, lhs) + Flatten(op, rhs)))
  {
    hide LinearOrder, Normal, RemoveAbsorbed, CanonicalizeAll, CombineTerms, Rebuild, FixedUpTo, InOrder, Distinct,
      HasComplementaryPair;
    var terms := Flatten(op, lhs) + Flatten(op, rhs);
    AllFixed(terms, le, fuel);
    RemovalStays(op, terms, le, fuel);
    AllFlattened(op, terms);
    CombineStays(op, terms, le);
  }

  lemma TreeFixed(op: BinOp, e: Expr, le: Order, fuel: nat)
    requires LinearOrder(le) && FixedUpTo(le, fuel) && IsTree(op, e) && IsAssocComm(op)
    requires Normal(e, le) && Depth(e) <= fuel + 1
    ensures Fixed(CanonicalizeBin(op, e.lhs, e.rhs, le, fuel), e)
  {
    hide LinearOrder, FixedUpTo, CanonicalizeBin, CanonicalizeAssocComm, Canonicalize, NormalTerms, ExprWidth;
    var terms := Flatten(op, e);
    LeavesWithin(op, e.lhs);
    LeavesWithin(op, e.rhs);
    LeavesAreNormal(op, e.lhs, le);
    LeavesAreNormal(op, e.rhs, le);
    assert AllWithin(terms, fuel);
    AssocCommFixed(op, e.lhs, e.rhs, le, fuel);
    TreeUnfolds(op, e.lhs, e.rhs, le, fuel);
    if op == Mul { NormalProduct(e, le); }
    assert FinishTree(op, e, le, fuel) == Done(e, {});
  }

  lemma PairFixed(op: BinOp, lhs: Expr, rhs: Expr, le: Order, fuel: nat)
    requires FixedUpTo(le, fuel) && !IsAssocComm(op) && NormalPair(op, lhs, rhs, le)
    requires Normal(lhs, le) && Normal(rhs, le) && Depth(lhs) <= fuel && Depth(rhs) <= fuel
    ensures Fixed(CanonicalizeBin(op, lhs, rhs, le, fuel), Bin(op, lhs, rhs))
  {
    hide CanonicalizeBin, Canonicalize, Normal, CanonicalizeSub;
    PlainUnfolds(op, lhs, rhs, le, fuel);
    OperandsAre(op, lhs, rhs, le, fuel);
    assert Fixed(Canonicalize(lhs, le, fuel), lhs) && Fixed(Canonicalize(rhs, le, fuel), rhs);
    ConstantReduced(lhs, le);
    ConstantReduced(rhs, le);
  }

  lemma {:induction false} ChunksStay(parts: seq<Expr>)
    requires ChunksApart(parts) && forall p | p in parts && p.Const? :: ReducedConstant(p)
    ensures MergeChunks(parts) == Some(parts)
  {
    if parts != [] {
      var init, last := parts[..|parts| - 1], parts[|parts| - 1];
      ChunksStay(init);
      assert parts == init + [last];
      assert last in parts;
      if init != [] { assert init[|init| - 1] == parts[|parts| - 2]; }
      if last.Const? { IsReduced(last.value, last.width); }
    }
  }

  lemma ConcatFixed(parts: seq<Expr>, le: Order, fuel: nat)
    requires FixedUpTo(le, fuel) && Normal(Concat(parts), le) && Depth(Concat(parts)) <= fuel + 1
    ensures Fixed(Canonicalize(Concat(parts), le, fuel + 1), Concat(parts))
  {
    PartsWithin(parts);
    AllFixed(parts, le, fuel);
    ChunksStay(parts);
  }

  lemma FlagFixed(e: Expr, le: Order, fuel: nat)
    requires FixedUpTo(le, fuel) && e.Flag? && Normal(e, le) && Depth(e) <= fuel + 1
    ensures Fixed(Canonicalize(e, le, fuel + 1), e)
  {
    hide CanonicalizeBin, CanonicalizeAll, CanonicalizeChoice, RebuildConcat, NormalLeaves, NormalTree;
    assert Fixed(Canonicalize(e.lhs, le, fuel), e.lhs);
    assert Fixed(Canonicalize(e.rhs, le, fuel), e.rhs);
    assert Fixed(Canonicalize(e.flagIn, le, fuel), e.flagIn);
  }

  lemma FixedStep(e: Expr, le: Order, fuel: nat)
    requires LinearOrder(le) && fuel > 0 && FixedUpTo(le, fuel - 1) && Normal(e, le) && Depth(e) <= fuel
    ensures Fixed(Canonicalize(e, le, fuel), e)
  {
    hide LinearOrder, Canonicalize, Depth, Normal;
    NoSelect(e, le);
    match e
    case Bin(_, _, _) => BinFixed(e, le, fuel - 1);
    case Concat(parts) => ConcatFixed(parts, le, fuel - 1);
    case Flag(_, _, _, _, _) => FlagFixed(e, le, fuel - 1);
    case _ => OperandFixed(e, le, fuel);
  }

  lemma NoSelect(e: Expr, le: Order)
    requires Normal(e, le)
    ensures !e.Select?
  {
    hide NormalLeaves, NormalTree;
  }

  lemma BinFixed(e: Expr, le: Order, fuel: nat)
    requires LinearOrder(le) && FixedUpTo(le, fuel) && e.Bin? && Normal(e, le) && Depth(e) <= fuel + 1
    ensures Fixed(Canonicalize(e, le, fuel + 1), e)
  {
    hide LinearOrder, Canonicalize, CanonicalizeBin, NormalLeaves, NormalTree;
    BinUnfolds(e, le, fuel + 1);
    if IsAssocComm(e.op) { TreeFixed(e.op, e, le, fuel); } else { PairFixed(e.op, e.lhs, e.rhs, le, fuel); }
  }

  /** Expressions of one operand or none. */
  lemma OperandFixed(e: Expr, le: Order, fuel: nat)
    requires !e.Bin? && !e.Concat? && !e.Flag? && !e.Select?
    requires fuel > 0 && FixedUpTo(le, fuel - 1) && Normal(e, le) && Depth(e) <= fuel
    ensures Fixed(Canonicalize(e, le, fuel), e)
  {
    hide CanonicalizeBin, CanonicalizeAll, CanonicalizeFlag, CanonicalizeChoice, RebuildConcat, NormalLeaves,
      NormalTree;
    match e
    case Const(value, width) => IsReduced(value, width);
    case ReadRegister(register, _) => assert Fixed(Canonicalize(register, le, fuel - 1), register);
    case ReadMemory(address, _) => assert Fixed(Canonicalize(address, le, fuel - 1), address);
    case Not(operand) => assert Fixed(Canonicalize(operand, le, fuel - 1), operand);
    case CountOnes(operand) => assert Fixed(Canonicalize(operand, le, fuel - 1), operand);
    case Slice(operand, _, _) => assert Fixed(Canonicalize(operand, le, fuel - 1), operand);
    case Extend(_, operand, _) => assert Fixed(Canonicalize(operand, le, fuel - 1), operand);
    case _ =>
  }

  /** A normal expression is its own canonical form, and finding that takes no more than its nesting. */
  lemma {:induction false} NormalIsFixed(e: Expr, le: Order, fuel: nat)
    requires LinearOrder(le) && Normal(e, le) && Depth(e) <= fuel
    ensures Fixed(Canonicalize(e, le, fuel), e)
    decreases fuel
  {
    hide LinearOrder, Normal, Canonicalize;
    DepthPositive(e);
    var less := fuel - 1;
    forall x | Normal(x, le) && Depth(x) <= less ensures Fixed(Canonicalize(x, le, less), x) {
      NormalIsFixed(x, le, less);
    }
    FixedStep(e, le, fuel);
  }

  lemma DepthPositive(e: Expr)
    ensures Depth(e) > 0
  {
  }

  /** Canonicalizing twice is canonicalizing once. */
  lemma CanonicalizeTwice(e: Expr, le: Order, fuel: nat, more: nat)
    requires LinearOrder(le) && Canonicalize(e, le, fuel).Done?
    requires Depth(Canonicalize(e, le, fuel).value) <= more
    ensures Fixed(Canonicalize(Canonicalize(e, le, fuel).value, le, more), Canonicalize(e, le, fuel).value)
  {
    hide LinearOrder, Normal, Canonicalize, Depth;
    CanonicalizeNormal(e, le, fuel);
    NormalIsFixed(Canonicalize(e, le, fuel).value, le, more);
  }

  /** The canonical forms are exactly the expressions in normal form. */
  lemma NormalExactly(c: Expr, le: Order)
    requires LinearOrder(le)
    ensures Normal(c, le) <==> exists e, fuel :: Fixed(Canonicalize(e, le, fuel), c)
  {
    hide LinearOrder, Normal, Canonicalize, Depth;
    if Normal(c, le) { NormalIsFixed(c, le, Depth(c)); }
    if e, fuel :| Fixed(Canonicalize(e, le, fuel), c) { CanonicalizeNormal(e, le, fuel); }
  }
}
