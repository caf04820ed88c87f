/** When canonicalization ends without a result.

    A well-formed expression never fails over a width.  What is left is the panic of an operation whose terms
    have all been dropped: an operation is left without terms exactly when each of its terms is absorbed by
    another one.  On plain expressions that never happens, and a run ends in a result of the same value. */
module CanonicalizerPanics {
  import opened AbsorptionLimits
  import opened TreeShapes
  import opened Words
  import opened Exprs
  import opened Typing
  import opened Canonicalizer
  import opened CanonicalizerForm
  import opened CanonicalizerMeaning
  import opened CanonicalizerSound
  import opened CanonicalizerTermination
  import opened CanonicalizerTheorems
  import opened CanonicalizerTyping

  /** Every term of the operation has an absorber. */
  predicate KeepsNoTerm(o: Obligation)
  {
    o.Absorption? && forall i | 0 <= i < |o.absorbers| :: o.absorbers[i].Some?
  }

  /** Every chain of absorbers ends at a kept term. */
  predicate Anchored(o: Obligation)
  {
    o.Absorption? && o.absorbers != [] && |o.terms| == |o.absorbers| && AllAnchored(o.absorbers)
  }

  /** Disjunctions have two terms, and no two terms of a conjunction or disjunction are trees of the opposite
      operator, which could absorb each other. */
  predicate Settled(op: BinOp, lhs: Expr, rhs: Expr)
  {
    && (op == Or ==> !IsTree(Or, lhs) && !IsTree(Or, rhs))
    && (op == And || op == Or ==> OneTree(Opposite(op), Flatten(op, lhs) + Flatten(op, rhs)))
  }

  /** No exclusive or and no multiplication anywhere, and all conjunctions and disjunctions settled. */
  predicate Plain(e: Expr)
    decreases e
  {
    match e
    case ReadRegister(register, _) => Plain(register)
    case ReadMemory(address, _) => Plain(address)
    case Bin(op, lhs, rhs) => op != Xor && op != Mul && Plain(lhs) && Plain(rhs) && Settled(op, lhs, rhs)
    case Not(operand) => Plain(operand)
    case CountOnes(operand) => Plain(operand)
    case Slice(operand, _, _) => Plain(operand)
    case Concat(parts) => forall p | p in parts :: Plain(p)
    case Extend(_, operand, _) => Plain(operand)
    case Flag(_, lhs, rhs, flagIn, _) => Plain(lhs) && Plain(rhs) && Plain(flagIn)
    case Select(condition, whenTrue, whenFalse) => Plain(condition) && Plain(whenTrue) && Plain(whenFalse)
    case _ => true
  }

  predicate AllPlain(terms: seq<Expr>)
  {
    forall t | t in terms :: Plain(t)
  }

  lemma {:induction false} CanonicalIsPlain(e: Expr)
    requires IsCanonical(e) && MulFree(e)
    ensures Plain(e)
    decreases e
  {
    match e
    case ReadRegister(register, _) => CanonicalIsPlain(register);
    case ReadMemory(address, _) => CanonicalIsPlain(address);
    case Bin(op, lhs, rhs) =>
      CanonicalIsPlain(lhs);
      CanonicalIsPlain(rhs);
      CanonicalIsSettled(op, lhs, rhs);
    case Not(operand) => CanonicalIsPlain(operand);
    case CountOnes(operand) => CanonicalIsPlain(operand);
    case Slice(operand, _, _) => CanonicalIsPlain(operand);
    case Concat(parts) => forall p | p in parts ensures Plain(p) { CanonicalIsPlain(p); }
    case Extend(_, operand, _) => CanonicalIsPlain(operand);
    case Flag(_, lhs, rhs, flagIn, _) => CanonicalIsPlain(lhs); CanonicalIsPlain(rhs); CanonicalIsPlain(flagIn);
    case _ =>
  }

  /** Canonical expressions contain no disjunction at all. */
  lemma CanonicalIsSettled(op: BinOp, lhs: Expr, rhs: Expr)
    requires op != Or && IsCanonical(lhs) && IsCanonical(rhs)
    ensures Settled(op, lhs, rhs)
  {
    FlattenForm(op, lhs);
    FlattenForm(op, rhs);
    var terms := Flatten(op, lhs) + Flatten(op, rhs);
    forall i | 0 <= i < |terms| ensures !IsTree(Or, terms[i]) { assert IsCanonical(terms[i]); }
  }

  lemma {:induction false} PlainIsMulFree(e: Expr)
    requires Plain(e)
    ensures MulFree(e)
    decreases e
  {
    match e
    case ReadRegister(register, _) => PlainIsMulFree(register);
    case ReadMemory(address, _) => PlainIsMulFree(address);
    case Bin(_, lhs, rhs) => PlainIsMulFree(lhs); PlainIsMulFree(rhs);
    case Not(operand) => PlainIsMulFree(operand);
    case CountOnes(operand) => PlainIsMulFree(operand);
    case Slice(operand, _, _) => PlainIsMulFree(operand);
    case Concat(parts) => forall p | p in parts ensures MulFree(p) { PlainIsMulFree(p); }
    case Extend(_, operand, _) => PlainIsMulFree(operand);
    case Flag(_, lhs, rhs, flagIn, _) => PlainIsMulFree(lhs); PlainIsMulFree(rhs); PlainIsMulFree(flagIn);
    case Select(c, t, f) => PlainIsMulFree(c); PlainIsMulFree(t); PlainIsMulFree(f);
    case _ =>
  }

  // ----- lowering keeps expressions plain -----

  lemma PlainBin(op: BinOp, l: Expr, r: Expr)
    requires Plain(l) && Plain(r) && op != Xor && op != Mul && Settled(op, l, r)
    ensures Plain(Bin(op, l, r))
  {
  }

  lemma {:induction false} PlainHasOneTree(op: BinOp, e: Expr)
    requires Plain(e) && (op == And || op == Or)
    ensures OneTree(Opposite(op), Flatten(op, e))
  {
  }

  lemma OneMoreTerm(op: BinOp, x: Expr, terms: seq<Expr>)
    requires !IsTree(op, x) && OneTree(op, terms)
    ensures OneTree(op, [x] + terms)
  {
    var all := [x] + terms;
    forall i, j | 0 <= i < j < |all| ensures !IsTree(op, all[i]) || !IsTree(op, all[j]) {
      assert i > 0 ==> all[i] == terms[i - 1] && all[j] == terms[j - 1];
    }
  }

  /** A conjunction whose first term is no tree. */
  lemma PlainAnd(x: Expr, e: Expr)
    requires !x.Bin? && Plain(x) && Plain(e)
    ensures Plain(Bin(And, x, e))
  {
    hide Plain, OneTree;
    PlainHasOneTree(And, e);
    OneMoreTerm(Or, x, Flatten(And, e));
    assert Flatten(And, x) == [x];
    PlainBin(And, x, e);
  }

  lemma LowerOrPlain(lhs: Expr, rhs: Expr)
    requires Plain(lhs) && Plain(rhs)
    ensures Plain(LowerOr(lhs, rhs))
  {
    hide Settled;
    PlainAnd(Not(lhs), Not(rhs));
  }

  lemma LowerSelectPlain(c: Expr, t: Expr, f: Expr, width: nat)
    requires Plain(c) && Plain(t) && Plain(f)
    ensures Plain(LowerSelect(c, t, f, width))
  {
    hide Settled;
    var mask := Extend(SignExtend, c, width);
    assert Plain(mask);
    PlainAnd(Not(mask), f);
    PlainAnd(mask, t);
    LowerOrPlain(Bin(And, Not(mask), f), Bin(And, mask, t));
  }

  // ----- what a run reports -----

  ghost predicate Clean(obligations: set<Obligation>, plain: bool)
  {
    forall o | o in obligations :: !KeepsNoTerm(o) && (plain ==> Anchored(o))
  }

  ghost predicate Blamed(obligations: set<Obligation>)
  {
    exists o :: o in obligations && KeepsNoTerm(o)
  }

  /** A result reports only absorptions that keep a term; a run left without terms reports one that does not,
      and is not a run on plain expressions. */
  ghost predicate Accounted<T>(r: Outcome<T>, plain: bool)
  {
    (r.Done? ==> Clean(r.obligations, plain)) && (r.NoTerms? ==> !plain && Blamed(r.obligations))
  }

  ghost predicate AccountedRun(e: Expr, r: Outcome<Expr>)
  {
    Accounted(r, Plain(e)) && (Plain(e) && r.Done? ==> MulFree(r.value))
  }

  ghost predicate AccountedUpTo(le: Order, fuel: nat)
  {
    forall e :: AccountedRun(e, Canonicalize(e, le, fuel))
  }

  lemma Recall(e: Expr, plain: bool, le: Order, fuel: nat)
    requires AccountedUpTo(le, fuel) && (plain ==> Plain(e))
    ensures var r := Canonicalize(e, le, fuel); Accounted(r, plain) && (plain && r.Done? ==> MulFree(r.value))
  {
    hide Canonicalize;
    assert AccountedRun(e, Canonicalize(e, le, fuel));
  }

  lemma WithAccounted<T>(r: Outcome<T>, more: set<Obligation>, plain: bool)
    requires Accounted(r, plain) && Clean(more, plain)
    ensures Accounted(r.With(more), plain)
  {
    if r.NoTerms? {
      var o :| o in r.obligations && KeepsNoTerm(o);
      assert o in r.With(more).obligations;
    }
  }

  lemma CleanUnion(a: set<Obligation>, b: set<Obligation>, plain: bool)
    requires Clean(a, plain) && Clean(b, plain)
    ensures Clean(a + b, plain)
  {
  }

  // ----- lists of terms -----

  lemma {:induction false} AllAccounted(terms: seq<Expr>, plain: bool, le: Order, fuel: nat)
    requires AccountedUpTo(le, fuel) && (plain ==> AllPlain(terms))
    ensures var r := CanonicalizeAll(terms, le, fuel);
      Accounted(r, plain) && (r.Done? ==> |r.value| == |terms| && (plain ==> AllMulFree(r.value)))
  {
    hide Canonicalize, Plain, MulFree;
    if terms != [] {
      AllAccounted(terms[1..], plain, le, fuel);
      Recall(terms[0], plain, le, fuel);
    }
  }

  lemma {:induction false} FlattenPlain(op: BinOp, e: Expr)
    requires Plain(e)
    ensures AllPlain(Flatten(op, e))
    decreases e
  {
    if e.Bin? && e.op == op { FlattenPlain(op, e.lhs); FlattenPlain(op, e.rhs); }
  }

  lemma {:induction false} ContainsAccounted(op: BinOp, e: Expr, needle: Expr, plain: bool, le: Order, fuel: nat)
    requires AccountedUpTo(le, fuel) && (plain ==> Plain(e))
    ensures Accounted(ContainsTerm(op, e, needle, le, fuel), plain)
    decreases e
  {
    hide ContainsTerm, Canonicalize, Settled;
    if e.Bin? && e.op == op {
      ContainsUnfolds(op, e, needle, le, fuel);
      ContainsAccounted(op, e.lhs, needle, plain, le, fuel);
      ContainsAccounted(op, e.rhs, needle, plain, le, fuel);
      var l := ContainsTerm(op, e.lhs, needle, le, fuel);
      if l.Done? { WithAccounted(ContainsTerm(op, e.rhs, needle, le, fuel), l.obligations, plain); }
    } else {
      ContainsAtLeaf(op, e, needle, le, fuel);
      Recall(e, plain, le, fuel);
    }
  }

  lemma {:induction false} FirstAccounted(
    op: BinOp, t: Expr, canonical: seq<Expr>, i: nat, j: nat, plain: bool, le: Order, fuel: nat)
    requires AccountedUpTo(le, fuel) && j <= |canonical| && (plain ==> Plain(t))
    ensures Accounted(FirstAbsorber(op, t, canonical, i, j, le, fuel), plain)
    decreases |canonical| - j
  {
    hide ContainsTerm, Canonicalize, Plain;
    if j < |canonical| {
      ContainsAccounted(op, t, canonical[j], plain, le, fuel);
      FirstAccounted(op, t, canonical, i, j + 1, plain, le, fuel);
      var hit := ContainsTerm(op, t, canonical[j], le, fuel);
      if hit.Done? { WithAccounted(FirstAbsorber(op, t, canonical, i, j + 1, le, fuel), hit.obligations, plain); }
    }
  }

  lemma {:induction false} AbsorbersAccounted(
    op: BinOp, terms: seq<Expr>, canonical: seq<Expr>, i: nat, plain: bool, le: Order, fuel: nat)
    requires AccountedUpTo(le, fuel) && i <= |terms| && (plain ==> AllPlain(terms))
    ensures Accounted(Absorbers(op, terms, canonical, i, le, fuel), plain)
    decreases |terms| - i
  {
    hide FirstAbsorber, Canonicalize, Plain;
    if i < |terms| {
      AbsorbersAccounted(op, terms, canonical, i + 1, plain, le, fuel);
      FirstAccounted(op, terms[i], canonical, i, 0, plain, le, fuel);
    }
  }

  lemma {:induction false} ReachesNone(absorbers: seq<Option<nat>>, i: nat, steps: nat)
    requires ReachesKept(absorbers, i, steps)
    ensures exists k :: 0 <= k < |absorbers| && absorbers[k].None?
    decreases steps
  {
    if absorbers[i].Some? { ReachesNone(absorbers, absorbers[i].value, steps - 1); }
  }

  lemma AnchoredKeepsTerm(o: Obligation)
    requires Anchored(o)
    ensures !KeepsNoTerm(o)
  {
    ReachesNone(o.absorbers, 0, |o.absorbers|);
  }

  /** What removing absorbed terms reports: nothing to blame while it keeps a term. */
  ghost predicate RemovalAccounted(r: Outcome<seq<Expr>>, plain: bool)
  {
    && (r.Done? && r.value != [] ==> Clean(r.obligations, plain))
    && (r.Done? && r.value == [] ==> !plain && Blamed(r.obligations))
    && (r.NoTerms? ==> !plain && Blamed(r.obligations))
  }

  lemma RemoveAccounted(op: BinOp, terms: seq<Expr>, plain: bool, le: Order, fuel: nat)
    requires AccountedUpTo(le, fuel) && terms != [] && (plain ==> AllPlain(terms))
    requires plain && (op == And || op == Or) ==> OneTree(Opposite(op), terms)
    ensures RemovalAccounted(RemoveAbsorbed(op, terms, le, fuel), plain)
  {
    hide CanonicalizeAll, Absorbers, Plain;
    if op == And || op == Or {
      AllAccounted(terms, plain, le, fuel);
      var c := CanonicalizeAll(terms, le, fuel);
      if c.Done? {
        AbsorbersAccounted(Opposite(op), terms, c.value, 0, plain, le, fuel);
        var a := Absorbers(Opposite(op), terms, c.value, 0, le, fuel);
        if a.Done? {
          if plain { OneTreeIsAnchored(op, terms, c.value, le, fuel); }
          RecordAccounted(op, terms, a.value, c.obligations + a.obligations, plain);
        }
      }
    }
  }

  lemma RecordAccounted(op: BinOp, terms: seq<Expr>, absorbers: seq<Option<nat>>, others: set<Obligation>, plain: bool)
    requires |terms| == |absorbers| > 0 && Clean(others, plain) && (plain ==> AllAnchored(absorbers))
    ensures RemovalAccounted(Done(Retain(terms, absorbers), others + {Absorption(op, terms, absorbers)}), plain)
  {
    var record := Absorption(op, terms, absorbers);
    RetainsNothing(terms, absorbers);
    assert KeepsNoTerm(record) <==> Retain(terms, absorbers) == [];
    assert record in others + {record};
    if plain { AnchoredKeepsTerm(record); }
  }

  // ----- combining -----

  lemma FoldsSomething(op: BinOp, acc: Folded, value: nat, width: nat)
    requires IsAssocComm(op)
    ensures !FoldConstant(op, acc, value, width).NoConst?
  {
  }

  lemma {:induction false} FoldsConstant(op: BinOp, terms: seq<Expr>, acc: Folded)
    requires IsAssocComm(op) && (!acc.NoConst? || exists t :: t in terms && t.Const?)
    ensures !FoldConstants(op, terms, acc).NoConst?
  {
    hide FoldConstant;
    if terms != [] {
      var t := terms[0];
      if t.Const? { FoldsSomething(op, acc, t.value, t.width); }
      FoldsConstant(op, terms[1..], if t.Const? then FoldConstant(op, acc, t.value, t.width) else acc);
    }
  }

  lemma {:induction false} CancelledHasWidth(terms: seq<Expr>, cancelled: Option<nat>)
    ensures var (kept, width) := CancelRuns(terms, cancelled);
      (cancelled.Some? ==> width.Some?) && (terms != [] && kept == [] ==> width.Some?)
    decreases |terms|
  {
    if terms != [] { CancelledHasWidth(terms[RunLength(terms)..], RunWidth(terms[0], RunLength(terms), cancelled)); }
  }

  /** Reducing at least one term leaves a term or a constant. */
  lemma ReductionLeaves(op: BinOp, terms: seq<Expr>, le: Order)
    requires IsAssocComm(op) && terms != []
    ensures var (reduced, folded) := ReduceTerms(op, terms, le); reduced != [] || !folded.NoConst?
  {
    var folded, sorted := FoldConstants(op, terms, NoConst), Sort(NonConstants(terms), le);
    if terms[0].Const? { FoldsConstant(op, terms, NoConst); } else { assert NonConstants(terms) != []; }
    SortKeepsCount(NonConstants(terms), le);
    DedupNonEmpty(sorted);
    CancelledHasWidth(sorted, if folded.Folded? then Some(folded.width) else None);
  }

  /** Combining at least one term is never left without terms, and reports nothing. */
  lemma CombineHasTerms(op: BinOp, terms: seq<Expr>, le: Order)
    requires IsAssocComm(op) && terms != []
    ensures var r := CombineTerms(op, terms, le); !r.NoTerms? && (r.Done? ==> r.obligations == {})
  {
    ReductionLeaves(op, terms, le);
  }

  lemma FlattenAllKeeps(op: BinOp, terms: seq<Expr>)
    requires terms != []
    ensures FlattenAll(op, terms) != []
  {
  }

  /** Combining canonical terms after removal. */
  lemma CombineAccounted(op: BinOp, kept: Outcome<seq<Expr>>, canonical: Outcome<seq<Expr>>, plain: bool, le: Order)
    requires IsAssocComm(op) && kept.Done? && RemovalAccounted(kept, plain)
    requires canonical.Done? && Clean(canonical.obligations, plain) && |canonical.value| == |kept.value|
    requires plain ==> op != Mul && AllMulFree(canonical.value)
    ensures var more := kept.obligations + canonical.obligations;
      var r := CombineTerms(op, FlattenAll(op, canonical.value), le).With(more);
      Accounted(r, plain) && (plain && r.Done? ==> MulFree(r.value))
  {
    var terms, o := FlattenAll(op, canonical.value), kept.obligations + canonical.obligations;
    if kept.value == [] {
      NothingToCombine(op, le);
      var x :| x in kept.obligations && KeepsNoTerm(x);
      assert x in {} + o;
    } else {
      FlattenAllKeeps(op, canonical.value);
      CombineHasTerms(op, terms, le);
      CleanUnion(kept.obligations, canonical.obligations, plain);
      WithAccounted(CombineTerms(op, terms, le), o, plain);
      if plain {
        FlattenAllMulFree(op, canonical.value);
        CombineMulFree(op, terms, le);
      }
    }
  }

  lemma AssocCommAccounted(op: BinOp, lhs: Expr, rhs: Expr, plain: bool, le: Order, fuel: nat)
    requires IsAssocComm(op) && AccountedUpTo(le, fuel) && (plain ==> Plain(Bin(op, lhs, rhs)))
    ensures var r := CanonicalizeAssocComm(op, lhs, rhs, le, fuel);
      Accounted(r, plain) && (plain && r.Done? ==> MulFree(r.value))
  {
    hide Canonicalize, CanonicalizeAll, RemoveAbsorbed, CombineTerms, MulFree;
    var terms := Flatten(op, lhs) + Flatten(op, rhs);
    if plain {
      FlattenPlain(op, lhs);
      FlattenPlain(op, rhs);
    }
    RemoveAccounted(op, terms, plain, le, fuel);
    var kept := RemoveAbsorbed(op, terms, le, fuel);
    if kept.Done? {
      KeptFrom(op, terms, le, fuel);
      AllAccounted(kept.value, plain, le, fuel);
      var canonical := CanonicalizeAll(kept.value, le, fuel);
      if canonical.Done? { CombineAccounted(op, kept, canonical, plain, le); }
      if kept.value == [] {
        assert CanonicalizeAll(kept.value, le, fuel) == Done([], {}) by { NoneCanonical(le, fuel); }
      }
    }
  }

  lemma NoneCanonical(le: Order, fuel: nat)
    ensures CanonicalizeAll([], le, fuel) == Done([], {})
  {
  }

  lemma {:induction false} RetainCount(terms: seq<Expr>, absorbers: seq<Option<nat>>)
    requires |terms| == |absorbers|
    ensures |Retain(terms, absorbers)| <= |terms|
  {
    if terms != [] { RetainCount(terms[1..], absorbers[1..]); }
  }

  lemma KeptFrom(op: BinOp, terms: seq<Expr>, le: Order, fuel: nat)
    ensures var r := RemoveAbsorbed(op, terms, le, fuel);
      r.Done? ==> |r.value| <= |terms| && forall t | t in r.value :: t in terms
  {
    hide CanonicalizeAll, Absorbers;
    if op == And || op == Or {
      var c := CanonicalizeAll(terms, le, fuel);
      if c.Done? {
        var a := Absorbers(Opposite(op), terms, c.value, 0, le, fuel);
        if a.Done? {
          RetainMembers(terms, a.value);
          RetainCount(terms, a.value);
        }
      }
    }
  }

  // ----- disjunctions of two terms -----

  /** A canonical expression, or a disjunction of two of them. */
  predicate IsPair(e: Expr)
  {
    IsCanonical(e) || (IsTree(Or, e) && IsCanonical(e.lhs) && IsCanonical(e.rhs))
  }

  lemma {:induction false} NonConstantsCount(terms: seq<Expr>)
    ensures |NonConstants(terms)| <= |terms|
    ensures (exists t :: t in terms && t.Const?) ==> |NonConstants(terms)| < |terms|
  {
    if terms != [] { NonConstantsCount(terms[1..]); }
  }

  lemma {:induction false} DedupCount(terms: seq<Expr>)
    ensures |Dedup(terms)| <= |terms|
  {
    if |terms| > 1 { DedupCount(terms[1..]); }
  }

  lemma {:induction false} FlattenAllAtoms(op: BinOp, terms: seq<Expr>)
    requires forall t | t in terms :: !IsTree(op, t)
    ensures FlattenAll(op, terms) == terms
  {
    if terms != [] {
      FlattenAllAtoms(op, terms[1..]);
      assert !IsTree(op, terms[0]);
      assert Flatten(op, terms[0]) == [terms[0]] && [terms[0]] + terms[1..] == terms;
    }
  }

  lemma RebuildPair(terms: seq<Expr>)
    requires 0 < |terms| <= 2 && AllCanonical(terms)
    ensures IsPair(Rebuild(Or, terms))
  {
    if |terms| == 2 { assert Rebuild(Or, terms[..1]) == terms[0]; }
  }

  lemma AssemblePair(terms: seq<Expr>, folded: Folded)
    requires AllCanonical(terms) && |terms| + (if folded.Folded? then 1 else 0) <= 2
    requires folded.Folded? && folded.width > 0 ==> folded.value < Pow2(folded.width)
    ensures var r := AssembleTerms(Or, terms, folded); r.Done? ==> IsPair(r.value)
  {
    if terms != [] { RebuildPair(terms); }
    if folded.Folded? && folded.width > 0 { RebuildPair(terms + [Const(folded.value, folded.width)]); }
  }

  lemma ReducePair(terms: seq<Expr>, le: Order)
    requires AllCanonical(terms) && |terms| <= 2
    ensures var (reduced, folded) := ReduceTerms(Or, terms, le);
      && AllCanonical(reduced) && |reduced| + (if folded.Folded? then 1 else 0) <= 2
      && (folded.Folded? ==> folded.width > 0 && folded.value < Pow2(folded.width))
  {
    hide IsCanonical;
    ReduceFrom(Or, terms, le);
    FoldedInRange(Or, terms, NoConst);
    FoldedNeedsConstant(Or, terms, NoConst);
    NonConstantsCount(terms);
    SortKeepsCount(NonConstants(terms), le);
    DedupCount(Sort(NonConstants(terms), le));
  }

  /** Two canonical terms combine into a canonical expression or a disjunction of two. */
  lemma CombinePair(terms: seq<Expr>, le: Order)
    requires AllCanonical(terms) && |terms| <= 2
    ensures var r := CombineTerms(Or, terms, le); r.Done? ==> IsPair(r.value)
  {
    hide AssembleTerms, ReduceTerms, IsCanonical, HasComplementaryPair;
    ReducePair(terms, le);
    var (reduced, folded) := ReduceTerms(Or, terms, le);
    AssemblePair(reduced, folded);
    CombineForm(Or, terms, le);
  }

  lemma PairForm(lhs: Expr, rhs: Expr, le: Order, fuel: nat)
    requires FormUpTo(le, fuel) && !IsTree(Or, lhs) && !IsTree(Or, rhs)
    ensures var r := CanonicalizeAssocComm(Or, lhs, rhs, le, fuel); r.Done? ==> IsPair(r.value)
  {
    hide Canonicalize, CanonicalizeAll, RemoveAbsorbed, CombineTerms, IsPair;
    assert Flatten(Or, lhs) + Flatten(Or, rhs) == [lhs, rhs];
    KeptFrom(Or, [lhs, rhs], le, fuel);
    var kept := RemoveAbsorbed(Or, [lhs, rhs], le, fuel);
    if kept.Done? {
      CanonicalizeAllForm(kept.value, le, fuel);
      CanonicalizeAllCount(kept.value, le, fuel);
      var canonical := CanonicalizeAll(kept.value, le, fuel);
      if canonical.Done? {
        forall t | t in canonical.value ensures !IsTree(Or, t) { assert IsCanonical(t); }
        FlattenAllAtoms(Or, canonical.value);
        CombinePair(canonical.value, le);
      }
    }
  }

  lemma {:induction false} CanonicalizeAllCount(terms: seq<Expr>, le: Order, fuel: nat)
    ensures var r := CanonicalizeAll(terms, le, fuel); r.Done? ==> |r.value| == |terms|
  {
    hide Canonicalize;
    if terms != [] { CanonicalizeAllCount(terms[1..], le, fuel); }
  }

  // ----- lowering, multiplication and subtraction -----

  /** What is lowered on a plain run: an operator over canonical operands. */
  predicate Lowerable(e: Expr)
  {
    MulFree(e) && if e.Select? then IsCanonical(e.condition) && IsCanonical(e.whenTrue) && IsCanonical(e.whenFalse)
                  else IsPair(e)
  }

  lemma LoweredIsPlain(e: Expr, width: nat)
    requires Lowerable(e)
    ensures IsTree(Or, e) ==> Plain(LowerOr(e.lhs, e.rhs))
    ensures e.Select? ==> Plain(LowerSelect(e.condition, e.whenTrue, e.whenFalse, width))
  {
    hide Plain, LowerSelect, LowerOr;
    if IsTree(Or, e) {
      CanonicalIsPlain(e.lhs);
      CanonicalIsPlain(e.rhs);
      LowerOrPlain(e.lhs, e.rhs);
    }
    if e.Select? {
      CanonicalIsPlain(e.condition);
      CanonicalIsPlain(e.whenTrue);
      CanonicalIsPlain(e.whenFalse);
      LowerSelectPlain(e.condition, e.whenTrue, e.whenFalse, width);
    }
  }

  lemma LowerAccounted(e: Expr, plain: bool, le: Order, fuel: nat)
    requires AccountedUpTo(le, fuel) && (plain ==> Lowerable(e))
    ensures var r := LowerOperators(e, le, fuel); Accounted(r, plain) && (plain && r.Done? ==> MulFree(r.value))
  {
    hide Canonicalize, MulFree, Plain, LowerSelect, LowerOr, LowerXor;
    if e.Bin? {
      if plain { LoweredIsPlain(e, 0); }
      if e.op == Or { Recall(LowerOr(e.lhs, e.rhs), plain, le, fuel); }
      Recall(LowerXor(e.lhs, e.rhs), false, le, fuel);
    } else if e.Select? && ExprWidth(e.whenTrue).Some? {
      var w := ExprWidth(e.whenTrue).value;
      if plain { LoweredIsPlain(e, w); }
      Recall(LowerSelect(e.condition, e.whenTrue, e.whenFalse, w), plain, le, fuel);
    }
  }

  lemma ShiftAddAccounted(variable: Expr, factor: nat, width: nat, le: Order, fuel: nat)
    requires AccountedUpTo(le, fuel)
    ensures Accounted(MulToShiftAdd(variable, factor, width, le, fuel), false)
  {
    hide Canonicalize;
    var terms := ShiftAddTerms(variable, factor, Const(0, width), width);
    Recall(terms, false, le, fuel);
    WithAccounted(Canonicalize(terms, le, fuel), {ShiftRoom(variable, factor, width)}, false);
  }

  lemma MulAccounted(e: Expr, plain: bool, le: Order, fuel: nat)
    requires AccountedUpTo(le, fuel) && (plain ==> MulFree(e))
    ensures var r := CanonicalizeMul(e, le, fuel); Accounted(r, plain) && (plain && r.Done? ==> MulFree(r.value))
  {
    hide MulToShiftAdd, ExprWidth;
    if e.Bin? && e.op == Mul && ExprWidth(e).Some? {
      var w := ExprWidth(e).value;
      if e.lhs.Const? { ShiftAddAccounted(e.rhs, e.lhs.value, w, le, fuel); }
      if e.rhs.Const? { ShiftAddAccounted(e.lhs, e.rhs.value, w, le, fuel); }
    }
  }

  lemma SubPlain(lhs: Expr, rhs: Expr, width: nat)
    requires Plain(lhs) && Plain(rhs)
    ensures Plain(Bin(Add, Bin(Add, lhs, Not(rhs)), Const(1, width)))
  {
    PlainBin(Add, lhs, Not(rhs));
    PlainBin(Add, Bin(Add, lhs, Not(rhs)), Const(1, width));
  }

  lemma SubAccounted(lhs: Expr, rhs: Expr, plain: bool, le: Order, fuel: nat)
    requires AccountedUpTo(le, fuel) && (plain ==> Plain(lhs) && Plain(rhs))
    ensures var r := CanonicalizeSub(lhs, rhs, le, fuel); Accounted(r, plain) && (plain && r.Done? ==> MulFree(r.value))
  {
    hide Canonicalize, KeepsNoTerm, Anchored, Plain, Settled, ExprWidth;
    if plain { PlainIsMulFree(lhs); }
    if ExprWidth(lhs).Some? {
      var w := ExprWidth(lhs).value;
      if plain { SubPlain(lhs, rhs, w); }
      Recall(Bin(Add, Bin(Add, lhs, Not(rhs)), Const(1, w)), plain, le, fuel);
    }
  }

  // ----- the nodes -----

  lemma TreeAccounted(op: BinOp, lhs: Expr, rhs: Expr, plain: bool, le: Order, fuel: nat)
    requires IsAssocComm(op) && AccountedUpTo(le, fuel) && FormUpTo(le, fuel) && (plain ==> Plain(Bin(op, lhs, rhs)))
    ensures var r := CanonicalizeBin(op, lhs, rhs, le, fuel);
      Accounted(r, plain) && (plain && r.Done? ==> MulFree(r.value))
  {
    hide CanonicalizeBin, CanonicalizeAssocComm, FinishTree, Assembled, MulFree;
    TreeUnfolds(op, lhs, rhs, le, fuel);
    AssocCommAccounted(op, lhs, rhs, plain, le, fuel);
    AssocCommForm(op, lhs, rhs, le, fuel);
    if plain && op == Or { PairForm(lhs, rhs, le, fuel); }
    var c := CanonicalizeAssocComm(op, lhs, rhs, le, fuel);
    if c.Done? {
      FinishAccounted(op, c.value, plain, le, fuel);
      WithAccounted(FinishTree(op, c.value, le, fuel), c.obligations, plain);
    }
  }

  lemma FinishAccounted(op: BinOp, tree: Expr, plain: bool, le: Order, fuel: nat)
    requires IsAssocComm(op) && AccountedUpTo(le, fuel)
             && (plain ==> op != Mul && op != Xor && MulFree(tree) && IsPair(tree))
    ensures var r := FinishTree(op, tree, le, fuel); Accounted(r, plain) && (plain && r.Done? ==> MulFree(r.value))
  {
    hide CanonicalizeMul, LowerOperators, MulFree;
    MulAccounted(tree, plain, le, fuel);
    if op == Or || op == Xor { LowerAccounted(tree, plain, le, fuel); }
  }

  lemma OperandsMulFree(op: BinOp, lhs: Expr, rhs: Expr, le: Order)
    requires !IsAssocComm(op)
    ensures MulFree(lhs) && MulFree(rhs) && IsComparison(op) ==> MulFree(CanonicalComparison(op, lhs, rhs, le))
    ensures var r := CanonicalShift(op, lhs, rhs);
      !r.NoTerms? && (r.Done? ==> r.obligations == {} && (MulFree(lhs) && MulFree(rhs) ==> MulFree(r.value)))
  {
    assert MulFree(lhs) && MulFree(rhs) ==> MulFree(Bin(op, lhs, rhs)) && MulFree(Bin(op, rhs, lhs));
  }

  lemma OperandsAccounted(op: BinOp, lhs: Expr, rhs: Expr, plain: bool, le: Order, fuel: nat)
    requires !IsAssocComm(op) && AccountedUpTo(le, fuel) && (plain ==> Plain(lhs) && Plain(rhs))
    ensures var r := CanonicalizeOperands(op, lhs, rhs, le, fuel);
      Accounted(r, plain) && (plain && r.Done? ==> MulFree(r.value))
  {
    hide CanonicalizeOperands, CanonicalizeSub, Plain, Settled;
    hide KeepsNoTerm, Anchored, CanonicalComparison, CanonicalShift;
    OperandsAre(op, lhs, rhs, le, fuel);
    SubAccounted(lhs, rhs, plain, le, fuel);
    if plain {
      PlainIsMulFree(lhs);
      PlainIsMulFree(rhs);
    }
    OperandsMulFree(op, lhs, rhs, le);
  }

  lemma PlainBinAccounted(op: BinOp, lhs: Expr, rhs: Expr, plain: bool, le: Order, fuel: nat)
    requires !IsAssocComm(op) && AccountedUpTo(le, fuel) && FormUpTo(le, fuel) && (plain ==> Plain(lhs) && Plain(rhs))
    ensures var r := CanonicalizeBin(op, lhs, rhs, le, fuel);
      Accounted(r, plain) && (plain && r.Done? ==> MulFree(r.value))
  {
    hide CanonicalizeBin, Canonicalize, CanonicalizeOperands, MulFree, IsCanonical;
    PlainUnfolds(op, lhs, rhs, le, fuel);
    Recall(lhs, plain, le, fuel);
    Recall(rhs, plain, le, fuel);
    var l, r := Canonicalize(lhs, le, fuel), Canonicalize(rhs, le, fuel);
    assert CanonicalOutcome(l) && CanonicalOutcome(r);
    if l.Done? && r.Done? {
      if plain {
        CanonicalIsPlain(l.value);
        CanonicalIsPlain(r.value);
      }
      OperandsAccounted(op, l.value, r.value, plain, le, fuel);
      CleanUnion(l.obligations, r.obligations, plain);
      WithAccounted(CanonicalizeOperands(op, l.value, r.value, le, fuel), l.obligations + r.obligations, plain);
    }
  }

  lemma FlagOperandPlain(flag: FlagOp, e: Expr)
    ensures Plain(e) ==> Plain(FlagOperand(flag, e))
  {
  }

  lemma FlagAccounted(flag: FlagOp, lhs: Expr, rhs: Expr, flagIn: Expr, width: nat, plain: bool, le: Order, fuel: nat)
    requires AccountedUpTo(le, fuel) && (plain ==> Plain(lhs) && Plain(rhs) && Plain(flagIn))
    ensures var r := CanonicalizeFlag(flag, lhs, rhs, flagIn, width, le, fuel);
      Accounted(r, plain) && (plain && r.Done? ==> MulFree(r.value))
  {
    hide CanonicalizeFlag, Canonicalize, KeepsNoTerm, Anchored, Plain, AddFlag, FlagOperand;
    FlagUnfolds(flag, lhs, rhs, flagIn, width, le, fuel);
    FlagOperandPlain(flag, rhs);
    FlagOperandPlain(flag, flagIn);
    Recall(lhs, plain, le, fuel);
    Recall(FlagOperand(flag, rhs), plain, le, fuel);
    Recall(FlagOperand(flag, flagIn), plain, le, fuel);
  }

  lemma SelectAccounted(c: Expr, t: Expr, f: Expr, plain: bool, le: Order, fuel: nat)
    requires AccountedUpTo(le, fuel) && (plain ==> Lowerable(Select(c, t, f)))
    ensures var r := CanonicalizeSelect(c, t, f, le, fuel);
      Accounted(r, plain) && (plain && r.Done? ==> MulFree(r.value))
  {
    hide LowerOperators;
    LowerAccounted(Select(c, t, f), plain, le, fuel);
  }

  lemma ChoiceAccounted(condition: Expr, whenTrue: Expr, whenFalse: Expr, plain: bool, le: Order, fuel: nat)
    requires AccountedUpTo(le, fuel) && FormUpTo(le, fuel)
    requires plain ==> Plain(condition) && Plain(whenTrue) && Plain(whenFalse)
    ensures var r := CanonicalizeChoice(condition, whenTrue, whenFalse, le, fuel);
      Accounted(r, plain) && (plain && r.Done? ==> MulFree(r.value))
  {
    hide Canonicalize, CanonicalizeSelect, Plain, IsCanonical;
    Recall(condition, plain, le, fuel);
    Recall(whenTrue, plain, le, fuel);
    Recall(whenFalse, plain, le, fuel);
    var c, t, f := Canonicalize(condition, le, fuel), Canonicalize(whenTrue, le, fuel),
                   Canonicalize(whenFalse, le, fuel);
    assert CanonicalOutcome(c) && CanonicalOutcome(t) && CanonicalOutcome(f);
    if c.Done? && t.Done? && f.Done? {
      assert plain ==> MulFree(Select(c.value, t.value, f.value));
      SelectAccounted(c.value, t.value, f.value, plain, le, fuel);
      WithAccounted(CanonicalizeSelect(c.value, t.value, f.value, le, fuel),
                    c.obligations + t.obligations + f.obligations, plain);
    }
  }

  lemma ConcatAccounted(parts: seq<Expr>, le: Order, fuel: nat)
    requires fuel > 0 && AccountedUpTo(le, fuel - 1)
    ensures AccountedRun(Concat(parts), Canonicalize(Concat(parts), le, fuel))
  {
    hide Canonicalize, CanonicalizeAll, RebuildConcat;
    var plain := Plain(Concat(parts));
    AllAccounted(parts, plain, le, fuel - 1);
    ConcatUnfolds(parts, le, fuel);
    var c := CanonicalizeAll(parts, le, fuel - 1);
    if c.Done? {
      ConcatReportsNothing(c.value);
      WithAccounted(RebuildConcat(c.value), c.obligations, plain);
    }
  }

  lemma ConcatReportsNothing(parts: seq<Expr>)
    ensures var r := RebuildConcat(parts);
      !r.NoTerms? && (r.Done? ==> r.obligations == {} && (AllMulFree(parts) ==> MulFree(r.value)))
  {
    if AllMulFree(parts) { MergeBounded(parts); }
  }

  lemma ReadAccounted(e: Expr, le: Order, fuel: nat)
    requires fuel > 0 && AccountedUpTo(le, fuel - 1) && (e.ReadRegister? || e.ReadMemory?)
    ensures AccountedRun(e, Canonicalize(e, le, fuel))
  {
    Recall(if e.ReadRegister? then e.register else e.address, Plain(e), le, fuel - 1);
  }

  lemma UnaryAccounted(e: Expr, le: Order, fuel: nat)
    requires fuel > 0 && AccountedUpTo(le, fuel - 1) && (e.Not? || e.CountOnes?)
    ensures AccountedRun(e, Canonicalize(e, le, fuel))
  {
    Recall(e.operand, Plain(e), le, fuel - 1);
  }

  lemma PartAccounted(e: Expr, le: Order, fuel: nat)
    requires fuel > 0 && AccountedUpTo(le, fuel - 1) && (e.Slice? || e.Extend?)
    ensures AccountedRun(e, Canonicalize(e, le, fuel))
  {
    Recall(e.operand, Plain(e), le, fuel - 1);
  }

  lemma AccountStep(e: Expr, le: Order, fuel: nat)
    requires fuel > 0 && AccountedUpTo(le, fuel - 1) && FormUpTo(le, fuel - 1)
    ensures AccountedRun(e, Canonicalize(e, le, fuel))
  {
    hide CanonicalizeBin, CanonicalizeFlag, CanonicalizeChoice, Settled, KeepsNoTerm, Anchored, IsAssocComm;
    hide AccountedUpTo, FormUpTo;
    match e
    case ReadRegister(_, _) => ReadAccounted(e, le, fuel);
    case ReadMemory(_, _) => ReadAccounted(e, le, fuel);
    case Bin(op, lhs, rhs) =>
      if IsAssocComm(op) { TreeAccounted(op, lhs, rhs, Plain(e), le, fuel - 1); }
      else { PlainBinAccounted(op, lhs, rhs, Plain(e), le, fuel - 1); }
    case Not(_) => UnaryAccounted(e, le, fuel);
    case CountOnes(_) => UnaryAccounted(e, le, fuel);
    case Slice(_, _, _) => PartAccounted(e, le, fuel);
    case Concat(parts) => ConcatAccounted(parts, le, fuel);
    case Extend(_, _, _) => PartAccounted(e, le, fuel);
    case Flag(flag, lhs, rhs, flagIn, width) => FlagAccounted(flag, lhs, rhs, flagIn, width, Plain(e), le, fuel - 1);
    case Select(c, t, f) => ChoiceAccounted(c, t, f, Plain(e), le, fuel - 1);
    case _ =>
  }

  lemma {:induction false} CanonicalizeAccounts(e: Expr, le: Order, fuel: nat)
    ensures AccountedRun(e, Canonicalize(e, le, fuel))
    decreases fuel
  {
    if fuel > 0 {
      var less := fuel - 1;
      forall x ensures AccountedRun(x, Canonicalize(x, le, less)) { CanonicalizeAccounts(x, le, less); }
      forall x ensures CanonicalOutcome(Canonicalize(x, le, less)) { CanonicalizeForm(x, le, less); }
      AccountStep(e, le, fuel);
    }
  }

  // ----- the theorems -----

  lemma {:induction false} AllDone(terms: seq<Expr>, le: Order, fuel: nat)
    ensures CanonicalizeAll(terms, le, fuel).Done? <==> forall t | t in terms :: Canonicalize(t, le, fuel).Done?
  {
    hide Canonicalize;
    if terms != [] {
      AllDone(terms[1..], le, fuel);
      assert terms[0] in terms;
    }
  }

  /** The terms that are kept have been canonicalized before. */
  lemma KeptAreDone(op: BinOp, terms: seq<Expr>, le: Order, fuel: nat)
    requires (op == And || op == Or) && RemoveAbsorbed(op, terms, le, fuel).Done?
    ensures var kept := RemoveAbsorbed(op, terms, le, fuel).value;
      CanonicalizeAll(kept, le, fuel).Done? && |CanonicalizeAll(kept, le, fuel).value| == |kept|
  {
    hide CanonicalizeAll, Absorbers, Canonicalize;
    var kept := RemoveAbsorbed(op, terms, le, fuel).value;
    AllDone(terms, le, fuel);
    AllDone(kept, le, fuel);
    KeptFrom(op, terms, le, fuel);
    CanonicalizeAllCount(kept, le, fuel);
  }

  /** Combining an operation whose absorbed terms could be removed ends in the panic of an operation without
      terms if and only if every term is absorbed by another one. */
  lemma LeftWithoutTermsExactly(op: BinOp, lhs: Expr, rhs: Expr, le: Order, fuel: nat)
    requires (op == And || op == Or) && RemoveAbsorbed(op, Flatten(op, lhs) + Flatten(op, rhs), le, fuel).Done?
    ensures CanonicalizeAssocComm(op, lhs, rhs, le, fuel).NoTerms?
            <==> AllAbsorbed(op, Flatten(op, lhs) + Flatten(op, rhs), le, fuel)
  {
    hide CanonicalizeAll, RemoveAbsorbed, CombineTerms, AllAbsorbed;
    var terms := Flatten(op, lhs) + Flatten(op, rhs);
    var kept := RemoveAbsorbed(op, terms, le, fuel).value;
    NothingLeftExactly(op, terms, le, fuel);
    KeptAreDone(op, terms, le, fuel);
    var canonical := CanonicalizeAll(kept, le, fuel).value;
    if kept == [] {
      NothingToCombine(op, le);
    } else {
      FlattenAllKeeps(op, canonical);
      CombineHasTerms(op, FlattenAll(op, canonical), le);
    }
  }

  /** Canonicalizing a conjunction, given that the terms and the leaves of its disjunctions can be canonicalized,
      panics for want of a term if and only if every term is absorbed by another one. */
  lemma ConjunctionPanicsExactly(lhs: Expr, rhs: Expr, le: Order, fuel: nat)
    requires RemoveAbsorbed(And, Flatten(And, lhs) + Flatten(And, rhs), le, fuel).Done?
    ensures Canonicalize(Bin(And, lhs, rhs), le, fuel + 1).NoTerms?
            <==> AllAbsorbed(And, Flatten(And, lhs) + Flatten(And, rhs), le, fuel)
  {
    hide CanonicalizeAssocComm, RemoveAbsorbed, AllAbsorbed;
    LeftWithoutTermsExactly(And, lhs, rhs, le, fuel);
    TreeUnfolds(And, lhs, rhs, le, fuel);
  }

  lemma UpToFuel(le: Order, fuel: nat)
    ensures AccountedUpTo(le, fuel)
  {
    forall e ensures AccountedRun(e, Canonicalize(e, le, fuel)) { CanonicalizeAccounts(e, le, fuel); }
  }

  /** The pass over plain terms is never left without terms inside a term. */
  lemma PlainTermsRemain(op: BinOp, terms: seq<Expr>, le: Order, fuel: nat)
    requires (op == And || op == Or) && AllPlain(terms)
    ensures !RemoveAbsorbed(op, terms, le, fuel).NoTerms?
  {
    hide CanonicalizeAll, Absorbers, Plain;
    UpToFuel(le, fuel);
    AllAccounted(terms, true, le, fuel);
    var c := CanonicalizeAll(terms, le, fuel);
    if c.Done? { AbsorbersAccounted(Opposite(op), terms, c.value, 0, true, le, fuel); }
  }

  lemma RemovalEndsTheRun(lhs: Expr, rhs: Expr, le: Order, fuel: nat)
    ensures var r := RemoveAbsorbed(And, Flatten(And, lhs) + Flatten(And, rhs), le, fuel);
      !r.Done? ==> Canonicalize(Bin(And, lhs, rhs), le, fuel + 1) == r.PropagateFailure()
  {
    hide CanonicalizeAll, RemoveAbsorbed, CombineTerms;
    TreeUnfolds(And, lhs, rhs, le, fuel);
  }

  /** A well-formed conjunction of plain terms, any number of which may be disjunctions, is canonicalized to a
      result unless every term is absorbed by another one, and then panics for want of a term. */
  lemma PlainConjunctionEnds(lhs: Expr, rhs: Expr, w: nat, le: Order, fuel: nat, g: Shape)
    requires WideRegisters(g) && Good(Bin(And, lhs, rhs), w, g) && Measure(Bin(And, lhs, rhs)) < fuel
    requires AllPlain(Flatten(And, lhs) + Flatten(And, rhs)) && MulFree(Bin(And, lhs, rhs))
    ensures var r, terms := Canonicalize(Bin(And, lhs, rhs), le, fuel), Flatten(And, lhs) + Flatten(And, rhs);
      if AllAbsorbed(And, terms, le, fuel - 1) then r.NoTerms? else r.Done?
  {
    hide Canonicalize, RemoveAbsorbed, AllAbsorbed, Plain, MulFree, Measure;
    var e, terms := Bin(And, lhs, rhs), Flatten(And, lhs) + Flatten(And, rhs);
    PlainTermsRemain(And, terms, le, fuel - 1);
    RemovalEndsTheRun(lhs, rhs, le, fuel - 1);
    CanonicalizeTerminates(e, le, fuel);
    CanonicalizeKeepsType(e, w, le, fuel, g);
    ConjunctionPanicsExactly(lhs, rhs, le, fuel - 1);
  }

  /** Everything a run reported before it ended. */
  function Reported<T>(r: Outcome<T>): set<Obligation>
  {
    if r.Done? || r.NoTerms? then r.obligations else {}
  }

  /** A run on a well-formed expression with fuel left panics if and only if it reports an absorption that keeps
      no term, and then it is the panic of an operation without terms. */
  lemma PanicsExactly(e: Expr, w: nat, le: Order, fuel: nat, g: Shape)
    requires WideRegisters(g) && Good(e, w, g) && !Canonicalize(e, le, fuel).OutOfFuel?
    ensures var r := Canonicalize(e, le, fuel);
      && !r.Panic?
      && (r.NoTerms? <==> exists o :: o in Reported(r) && KeepsNoTerm(o))
  {
    hide Canonicalize;
    CanonicalizeKeepsType(e, w, le, fuel, g);
    CanonicalizeAccounts(e, le, fuel);
  }

  /** A well-formed expression without multiplication is canonicalized to a result if and only if every absorption
      of the run keeps a term. */
  lemma FinishesExactly(e: Expr, w: nat, le: Order, fuel: nat, g: Shape)
    requires WideRegisters(g) && Good(e, w, g) && MulFree(e) && Measure(e) < fuel
    ensures var r := Canonicalize(e, le, fuel); r.Done? <==> forall o | o in Reported(r) :: !KeepsNoTerm(o)
  {
    hide Canonicalize;
    CanonicalizeTerminates(e, le, fuel);
    PanicsExactly(e, w, le, fuel, g);
  }

  /** A well-formed plain expression is always canonicalized to a result, whose value is that of the expression
      in every state where it has one. */
  lemma PlainFinishes(e: Expr, w: nat, le: Order, fuel: nat, g: Shape)
    requires WideRegisters(g) && Good(e, w, g) && Plain(e) && Measure(e) < fuel
    ensures var r := Canonicalize(e, le, fuel);
      r.Done? && forall s | MemoryWellFormed(s) && Eval(e, s).Some? :: Eval(r.value, s) == Eval(e, s)
  {
    hide Canonicalize, Eval;
    PlainIsMulFree(e);
    CanonicalizeTerminates(e, le, fuel);
    PanicsExactly(e, w, le, fuel, g);
    CanonicalizeAccounts(e, le, fuel);
    var r := Canonicalize(e, le, fuel);
    forall s | MemoryWellFormed(s) && Eval(e, s).Some? ensures Eval(r.value, s) == Eval(e, s) {
      forall o | o in r.obligations ensures Holds(o, s) {
        assert Anchored(o);
        AnchoredHolds(o.op, o.terms, o.absorbers, s);
      }
      CanonicalizePreservesMeaning(e, le, fuel, s);
    }
  }

  /** Canonicalizing a result once more gives a result again, with the same value and type. */
  lemma CanonicalizeAgain(e: Expr, w: nat, le: Order, fuel: nat, g: Shape)
    requires WideRegisters(g) && Good(e, w, g) && MulFree(e) && Measure(e) < fuel && Canonicalize(e, le, fuel).Done?
    ensures var c := Canonicalize(e, le, fuel).value;
      var again := Canonicalize(c, le, fuel);
      && again.Done? && Good(again.value, w, g)
      && forall s | MemoryWellFormed(s) && Eval(c, s).Some? :: Eval(again.value, s) == Eval(c, s)
  {
    hide Canonicalize, Eval;
    var c := Canonicalize(e, le, fuel).value;
    CanonicalizeTerminates(e, le, fuel);
    CanonicalizeKeepsType(e, w, le, fuel, g);
    CanonicalizeForm(e, le, fuel);
    CanonicalIsPlain(c);
    PlainFinishes(c, w, le, fuel, g);
    CanonicalizeKeepsType(c, w, le, fuel, g);
  }
}
