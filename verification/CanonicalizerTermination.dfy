/** Canonicalization terminates on expressions without multiplication.

    `Measure` is additive, except that it is multiplicative in the operands of exclusive or,
    whose lowering duplicates them.  It is stable under reordering of associative terms, a
    finished run never increases it, and every expression a run canonicalizes again is smaller
    than the one it was called on. */
module CanonicalizerTermination {
  import opened Words
  import opened Exprs
  import opened Canonicalizer
  import opened CanonicalizerForm

  predicate MulFree(e: Expr)
    decreases e
  {
    match e
    case ReadRegister(register, _) => MulFree(register)
    case ReadMemory(address, _) => MulFree(address)
    case Bin(op, lhs, rhs) => op != Mul && MulFree(lhs) && MulFree(rhs)
    case Not(operand) => MulFree(operand)
    case CountOnes(operand) => MulFree(operand)
    case Slice(operand, _, _) => MulFree(operand)
    case Concat(parts) => forall p | p in parts :: MulFree(p)
    case Extend(_, operand, _) => MulFree(operand)
    case Flag(_, lhs, rhs, flagIn, _) => MulFree(lhs) && MulFree(rhs) && MulFree(flagIn)
    case Select(condition, whenTrue, whenFalse) => MulFree(condition) && MulFree(whenTrue) && MulFree(whenFalse)
    case _ => true
  }

  /** What one node of a binary operator adds to the measures of its operands. */
  function NodeCost(op: BinOp): nat
  {
    if op == Or || op == Sub then 5 else 1
  }

  /** Multiplication by repeated addition. */
  function Times(a: nat, b: nat): (r: nat)
    ensures a > 0 && b > 0 ==> r >= a && r >= b
  {
    if a == 0 then 0 else b + Times(a - 1, b)
  }

  lemma {:induction false} TimesIsProduct(a: nat, b: nat)
    ensures Times(a, b) == a * b
  {
    if a > 0 {
      TimesIsProduct(a - 1, b);
      assert a * b == b + (a - 1) * b;
    }
  }

  function Measure(e: Expr): (m: nat)
    ensures m > 0
    decreases e, 1
  {
    match e
    case ReadRegister(register, _) => Measure(register) + 1
    case ReadMemory(address, _) => Measure(address) + 1
    case Bin(op, lhs, rhs) =>
      if op == Xor then 14 * Times(Measure(lhs), Measure(rhs))
      else Measure(lhs) + Measure(rhs) + NodeCost(op)
    case Not(operand) => Measure(operand) + 1
    case CountOnes(operand) => Measure(operand) + 1
    case Slice(operand, _, _) => Measure(operand) + 1
    case Concat(parts) => PartsMeasure(parts) + 1
    case Extend(_, operand, _) => Measure(operand) + 1
    case Flag(flag, lhs, rhs, flagIn, _) =>
      Measure(lhs) + Measure(rhs) + Measure(flagIn) + if AddFlag(flag) == flag then 1 else 3
    case Select(condition, whenTrue, whenFalse) =>
      2 * Measure(condition) + Measure(whenTrue) + Measure(whenFalse) + 10
    case _ => 1
  }

  function PartsMeasure(parts: seq<Expr>): nat
    decreases parts, 0
  {
    if parts == [] then 0 else PartsMeasure(parts[..|parts| - 1]) + Measure(parts[|parts| - 1])
  }

  // ----- weights of term lists -----

  /** The measure of a term scaled so that a tree weighs the combination of its leaves. */
  function Scaled(op: BinOp, m: nat): (r: nat)
    ensures m > 0 ==> r > 0
  {
    if op == Xor then 14 * m else m + NodeCost(op)
  }

  function CombineWeights(op: BinOp, a: nat, b: nat): nat
  {
    if op == Xor then Times(a, b) else a + b
  }

  function Weight(op: BinOp, terms: seq<Expr>): nat
  {
    if terms == [] then (if op == Xor then 1 else 0)
    else CombineWeights(op, Scaled(op, Measure(terms[0])), Weight(op, terms[1..]))
  }

  lemma TimesLaws(a: nat, b: nat, c: nat)
    ensures Times(Times(a, b), c) == Times(a, Times(b, c)) && Times(a, b) == Times(b, a)
  {
    TimesIsProduct(a, b);
    TimesIsProduct(b, a);
    TimesIsProduct(b, c);
    TimesIsProduct(Times(a, b), c);
    TimesIsProduct(a, Times(b, c));
    ProductLaws(a, b, c);
  }

  lemma ProductLaws(a: nat, b: nat, c: nat)
    ensures (a * b) * c == a * (b * c) && a * b == b * a
  {
  }

  lemma {:induction false} CombineUnit(op: BinOp, a: nat)
    ensures CombineWeights(op, a, if op == Xor then 1 else 0) == a
    ensures CombineWeights(op, if op == Xor then 1 else 0, a) == a
  {
    TimesIsProduct(a, 1);
    TimesIsProduct(1, a);
  }

  lemma {:induction false} TimesMono(a: nat, b: nat, c: nat, d: nat)
    requires a <= c && b <= d
    ensures Times(a, b) <= Times(c, d)
    decreases c
  {
    if c > 0 { TimesMono(if a > 0 then a - 1 else 0, b, c - 1, d); }
  }

  lemma CombineLaws(op: BinOp, a: nat, b: nat, c: nat)
    ensures CombineWeights(op, CombineWeights(op, a, b), c) == CombineWeights(op, a, CombineWeights(op, b, c))
    ensures CombineWeights(op, a, b) == CombineWeights(op, b, a)
  {
    TimesLaws(a, b, c);
  }

  lemma CombineMono(op: BinOp, a: nat, b: nat, c: nat, d: nat)
    requires a <= c && b <= d
    ensures CombineWeights(op, a, b) <= CombineWeights(op, c, d)
  {
    TimesMono(a, b, c, d);
  }

  lemma CombineGrows(op: BinOp, a: nat, b: nat)
    requires a > 0
    ensures CombineWeights(op, a, b) >= b
  {
  }

  lemma {:induction false} WeightConcat(op: BinOp, a: seq<Expr>, b: seq<Expr>)
    ensures Weight(op, a + b) == CombineWeights(op, Weight(op, a), Weight(op, b))
  {
    if a == [] {
      assert a + b == b;
      CombineUnit(op, Weight(op, b));
    } else {
      assert (a + b)[1..] == a[1..] + b;
      WeightConcat(op, a[1..], b);
      CombineLaws(op, Scaled(op, Measure(a[0])), Weight(op, a[1..]), Weight(op, b));
    }
  }

  lemma WeightOne(op: BinOp, t: Expr)
    ensures Weight(op, [t]) == Scaled(op, Measure(t))
  {
    CombineUnit(op, Scaled(op, Measure(t)));
    assert [t][1..] == [];
  }

  lemma ScaleProduct(a: nat, b: nat)
    ensures 14 * (14 * (a * b)) == (14 * a) * (14 * b)
  {
  }

  lemma ScaledNode(op: BinOp, l: Expr, r: Expr)
    requires IsAssocComm(op)
    ensures Scaled(op, Measure(Bin(op, l, r))) == CombineWeights(op, Scaled(op, Measure(l)), Scaled(op, Measure(r)))
  {
    if op == Xor {
      var a, b := Measure(l), Measure(r);
      TimesIsProduct(a, b);
      TimesIsProduct(14 * a, 14 * b);
      ScaleProduct(a, b);
    }
  }

  lemma {:induction false} FlattenWeight(op: BinOp, e: Expr)
    requires IsAssocComm(op)
    ensures Weight(op, Flatten(op, e)) == Scaled(op, Measure(e))
    decreases e
  {
    if e.Bin? && e.op == op {
      FlattenWeight(op, e.lhs);
      FlattenWeight(op, e.rhs);
      WeightConcat(op, Flatten(op, e.lhs), Flatten(op, e.rhs));
      ScaledNode(op, e.lhs, e.rhs);
    } else {
      WeightOne(op, e);
    }
  }

  lemma {:induction false} FlattenAllWeight(op: BinOp, terms: seq<Expr>)
    requires IsAssocComm(op)
    ensures Weight(op, FlattenAll(op, terms)) == Weight(op, terms)
  {
    if terms != [] {
      FlattenWeight(op, terms[0]);
      FlattenAllWeight(op, terms[1..]);
      WeightConcat(op, Flatten(op, terms[0]), FlattenAll(op, terms[1..]));
    }
  }

  lemma {:induction false} RebuildWeight(op: BinOp, terms: seq<Expr>)
    requires IsAssocComm(op) && terms != []
    ensures Scaled(op, Measure(Rebuild(op, terms))) == Weight(op, terms)
  {
    if |terms| == 1 {
      WeightOne(op, terms[0]);
      assert terms == [terms[0]];
    } else {
      var init, last := terms[..|terms| - 1], terms[|terms| - 1];
      RebuildWeight(op, init);
      WeightOne(op, last);
      WeightConcat(op, init, [last]);
      assert terms == init + [last];
      ScaledNode(op, Rebuild(op, init), last);
    }
  }

  lemma {:induction false} InsertWeight(op: BinOp, t: Expr, sorted: seq<Expr>, le: Order)
    ensures Weight(op, Insert(t, sorted, le)) == CombineWeights(op, Scaled(op, Measure(t)), Weight(op, sorted))
  {
    if sorted == [] || le(t, sorted[0]) {
      assert ([t] + sorted)[1..] == sorted;
    } else {
      var h, rest := sorted[0], sorted[1..];
      InsertWeight(op, t, rest, le);
      assert ([h] + Insert(t, rest, le))[1..] == Insert(t, rest, le);
      var x, y, f := Scaled(op, Measure(t)), Scaled(op, Measure(h)), Weight(op, rest);
      CombineLaws(op, y, x, f);
      CombineLaws(op, x, y, f);
    }
  }

  lemma {:induction false} SortWeight(op: BinOp, terms: seq<Expr>, le: Order)
    ensures Weight(op, Sort(terms, le)) == Weight(op, terms)
  {
    if terms != [] {
      SortWeight(op, terms[1..], le);
      InsertWeight(op, terms[0], Sort(terms[1..], le), le);
    }
  }

  lemma Drop(op: BinOp, t: Expr, w: nat)
    ensures CombineWeights(op, Scaled(op, Measure(t)), w) >= w
  {
    CombineGrows(op, Scaled(op, Measure(t)), w);
  }

  lemma {:induction false} DedupWeight(op: BinOp, terms: seq<Expr>)
    ensures Weight(op, Dedup(terms)) <= Weight(op, terms)
  {
    if |terms| > 1 {
      var rest := terms[1..];
      DedupWeight(op, rest);
      Drop(op, terms[0], Weight(op, rest));
      assert ([terms[0]] + Dedup(rest))[1..] == Dedup(rest);
      CombineMono(op, Scaled(op, Measure(terms[0])), Weight(op, Dedup(rest)), Scaled(op, Measure(terms[0])),
                  Weight(op, rest));
    }
  }

  lemma {:induction false} SuffixWeight(op: BinOp, terms: seq<Expr>, n: nat)
    requires n <= |terms|
    ensures Weight(op, terms[n..]) <= Weight(op, terms)
  {
    if n > 0 {
      SuffixWeight(op, terms[1..], n - 1);
      assert terms[1..][n - 1..] == terms[n..];
      Drop(op, terms[0], Weight(op, terms[1..]));
    } else {
      assert terms[0..] == terms;
    }
  }

  lemma {:induction false} CancelWeight(terms: seq<Expr>, cancelled: Option<nat>)
    ensures Weight(Xor, CancelRuns(terms, cancelled).0) <= Weight(Xor, terms)
    decreases |terms|
  {
    if terms != [] {
      var n, t := RunLength(terms), terms[0];
      CancelWeight(terms[n..], RunWidth(t, n, cancelled));
      RunWeight(terms, CancelRuns(terms[n..], RunWidth(t, n, cancelled)).0);
    }
  }

  /** What a run leaves, in front of something lighter than the terms after the run. */
  lemma RunWeight(terms: seq<Expr>, kept: seq<Expr>)
    requires terms != [] && Weight(Xor, kept) <= Weight(Xor, terms[RunLength(terms)..])
    ensures Weight(Xor, RunKept(terms[0], RunLength(terms)) + kept) <= Weight(Xor, terms)
  {
    hide Weight, ExprWidth, Measure;
    var n, t := RunLength(terms), terms[0];
    if n % 2 == 1 {
      SkipWeight(terms, 1, n);
      KeptOnce(t, kept, terms);
    } else if ExprWidth(t).Some? {
      SuffixWeight(Xor, terms, n);
      assert [] + kept == kept;
    } else {
      SkipWeight(terms, 2, n);
      assert terms[1..][1..] == terms[2..] && terms[1] == t;
      KeptOnce(t, kept, terms[1..]);
      KeptOnce(t, [t] + kept, terms);
      assert [t] + ([t] + kept) == [t, t] + kept;
    }
  }

  lemma SkipWeight(terms: seq<Expr>, m: nat, n: nat)
    requires m <= n <= |terms|
    ensures Weight(Xor, terms[n..]) <= Weight(Xor, terms[m..])
  {
    SuffixWeight(Xor, terms[m..], n - m);
    assert terms[m..][n - m..] == terms[n..];
  }

  /** Putting the first term in front of something lighter than the rest. */
  lemma KeptOnce(t: Expr, kept: seq<Expr>, terms: seq<Expr>)
    requires terms != [] && terms[0] == t && Weight(Xor, kept) <= Weight(Xor, terms[1..])
    ensures Weight(Xor, [t] + kept) <= Weight(Xor, terms)
  {
    var x := Scaled(Xor, Measure(t));
    assert ([t] + kept)[1..] == kept;
    CombineMono(Xor, x, Weight(Xor, kept), x, Weight(Xor, terms[1..]));
  }

  lemma {:induction false} ConstantsWeight(op: BinOp, terms: seq<Expr>)
    ensures Weight(op, NonConstants(terms)) <= Weight(op, terms)
    ensures (exists t :: t in terms && t.Const?) ==>
              CombineWeights(op, Scaled(op, 1), Weight(op, NonConstants(terms))) <= Weight(op, terms)
  {
    if terms != [] {
      var t, rest := terms[0], terms[1..];
      ConstantsWeight(op, rest);
      var x, y, z := Scaled(op, Measure(t)), Weight(op, NonConstants(rest)), Weight(op, rest);
      CombineMono(op, x, y, x, z);
      Drop(op, t, z);
      if t.Const? {
        assert NonConstants(terms) == NonConstants(rest);
      } else {
        assert ([t] + NonConstants(rest))[1..] == NonConstants(rest);
        if exists u :: u in terms && u.Const? {
          var one := Scaled(op, 1);
          assert exists u :: u in rest && u.Const?;
          CombineLaws(op, one, x, y);
          CombineLaws(op, x, one, y);
          CombineMono(op, x, CombineWeights(op, one, y), x, z);
        }
      }
    }
  }

  lemma {:induction false} FoldedNeedsConstant(op: BinOp, terms: seq<Expr>, acc: Folded)
    requires IsAssocComm(op)
    ensures FoldConstants(op, terms, acc).Folded? && !acc.Folded? ==> exists t :: t in terms && t.Const?
  {
    if terms != [] {
      FoldedNeedsConstant(op, terms[1..],
                          if terms[0].Const? then FoldConstant(op, acc, terms[0].value, terms[0].width) else acc);
      assert terms[0] in terms;
    }
  }

  lemma ReduceWeight(op: BinOp, terms: seq<Expr>, le: Order)
    requires IsAssocComm(op)
    ensures var (reduced, folded) := ReduceTerms(op, terms, le);
      && Weight(op, reduced) <= Weight(op, NonConstants(terms))
      && (folded.Folded? && !FoldConstants(op, terms, NoConst).Folded? ==> op == Xor && reduced == [])
  {
    var nonConstants := NonConstants(terms);
    SortWeight(op, nonConstants, le);
    DedupWeight(op, Sort(nonConstants, le));
    var constants := FoldConstants(op, terms, NoConst);
    CancelWeight(Sort(nonConstants, le), if constants.Folded? then Some(constants.width) else None);
  }

  /** Combining terms yields nothing heavier than the terms. */
  lemma CombineWeight(op: BinOp, terms: seq<Expr>, le: Order)
    requires IsAssocComm(op)
    ensures var r := CombineTerms(op, terms, le);
      !r.OutOfFuel? && (r.Done? && terms != [] ==> Scaled(op, Measure(r.value)) <= Weight(op, terms))
  {
    hide Sort, Dedup, CancelRuns, NonConstants, HasComplementaryPair, Rebuild, IsIdentity, IsAnnihilator, FirstWidth;
    var (reduced, folded) := ReduceTerms(op, terms, le);
    var constants := FoldConstants(op, terms, NoConst);
    ReduceWeight(op, terms, le);
    ConstantsWeight(op, terms);
    FoldedNeedsConstant(op, terms, NoConst);
    var one := Scaled(op, 1);
    CombineMono(op, one, Weight(op, reduced), one, Weight(op, NonConstants(terms)));
    if terms != [] {
      WeightAtLeastOne(op, terms);
      AssembleWeight(op, reduced, folded, Weight(op, terms), constants.Folded?);
    }
  }

  lemma WeightAtLeastOne(op: BinOp, terms: seq<Expr>)
    requires terms != []
    ensures Weight(op, terms) >= Scaled(op, 1)
  {
    var x, w := Scaled(op, Measure(terms[0])), Weight(op, terms[1..]);
    if op == Xor {
      WeightPositive(terms[1..]);
    }
  }

  lemma {:induction false} WeightPositive(terms: seq<Expr>)
    ensures Weight(Xor, terms) > 0
  {
    if terms != [] {
      WeightPositive(terms[1..]);
    }
  }

  lemma WithConstantWeight(op: BinOp, terms: seq<Expr>, value: nat, width: nat)
    requires IsAssocComm(op)
    ensures Scaled(op, Measure(Rebuild(op, terms + [Const(value, width)])))
            == CombineWeights(op, Scaled(op, 1), Weight(op, terms))
  {
    var c := Const(value, width);
    WeightOne(op, c);
    assert Measure(c) == 1;
    WeightConcat(op, terms, [c]);
    CombineLaws(op, Weight(op, terms), Scaled(op, 1), 0);
    RebuildWeight(op, terms + [c]);
  }

  lemma AssembleWeight(op: BinOp, terms: seq<Expr>, folded: Folded, bound: nat, hasConstant: bool)
    requires IsAssocComm(op) && Weight(op, terms) <= bound && Scaled(op, 1) <= bound
    requires folded.Folded? && !hasConstant ==> op == Xor && terms == []
    requires folded.Folded? && hasConstant ==> CombineWeights(op, Scaled(op, 1), Weight(op, terms)) <= bound
    ensures var r := AssembleTerms(op, terms, folded);
      !r.OutOfFuel? && (r.Done? ==> Scaled(op, Measure(r.value)) <= bound)
  {
    AssembledShape(op, terms, folded);
    if terms != [] { RebuildWeight(op, terms); }
    if folded.Folded? { ConstantShapesWeight(op, terms, folded, bound, hasConstant); }
  }

  /** The only expressions that assembling terms and a folded constant can yield. */
  lemma AssembledShape(op: BinOp, terms: seq<Expr>, folded: Folded)
    requires IsAssocComm(op)
    ensures var r := AssembleTerms(op, terms, folded);
      && !r.OutOfFuel?
      && (r.Done? ==>
            || (terms != [] && r.value == Rebuild(op, terms))
            || (folded.Folded? && r.value == Const(folded.value, folded.width))
            || (folded.Folded? && r.value == Rebuild(op, terms + [Const(folded.value, folded.width)])))
  {
  }

  lemma ConstantShapesWeight(op: BinOp, terms: seq<Expr>, folded: Folded, bound: nat, hasConstant: bool)
    requires IsAssocComm(op) && folded.Folded? && Scaled(op, 1) <= bound
    requires !hasConstant ==> op == Xor && terms == []
    requires hasConstant ==> CombineWeights(op, Scaled(op, 1), Weight(op, terms)) <= bound
    ensures var c := Const(folded.value, folded.width);
      Scaled(op, Measure(c)) <= bound && Scaled(op, Measure(Rebuild(op, terms + [c]))) <= bound
  {
    assert Measure(Const(folded.value, folded.width)) == 1;
    WithConstantWeight(op, terms, folded.value, folded.width);
    CombineUnit(op, Scaled(op, 1));
  }

  // ----- the recursion -----

  ghost predicate Bounded(r: Outcome<Expr>, bound: nat)
  {
    !r.OutOfFuel? && (r.Done? ==> MulFree(r.value) && Measure(r.value) <= bound)
  }

  ghost predicate BoundedUpTo(le: Order, fuel: nat)
  {
    forall e | MulFree(e) && Measure(e) < fuel :: Bounded(Canonicalize(e, le, fuel), Measure(e))
  }

  /** Terms that the current fuel suffices for. */
  ghost predicate Affordable(terms: seq<Expr>, fuel: nat)
  {
    forall t | t in terms :: MulFree(t) && Measure(t) < fuel
  }

  ghost predicate AllMulFree(terms: seq<Expr>)
  {
    forall t | t in terms :: MulFree(t)
  }

  lemma {:induction false} FlattenSmall(op: BinOp, e: Expr)
    requires MulFree(e)
    ensures forall t | t in Flatten(op, e) :: MulFree(t) && Measure(t) <= Measure(e)
    decreases e
  {
    if e.Bin? && e.op == op {
      ChildrenSmaller(e);
      FlattenSmall(op, e.lhs);
      FlattenSmall(op, e.rhs);
    }
  }

  lemma ChildrenSmaller(e: Expr)
    requires e.Bin?
    ensures Measure(e.lhs) < Measure(e) && Measure(e.rhs) < Measure(e)
  {
  }

  lemma {:induction false} FlattenAllMulFree(op: BinOp, terms: seq<Expr>)
    requires AllMulFree(terms)
    ensures AllMulFree(FlattenAll(op, terms))
  {
    if terms != [] {
      FlattenSmall(op, terms[0]);
      FlattenAllMulFree(op, terms[1..]);
    }
  }

  lemma {:induction false} RebuildMulFree(op: BinOp, terms: seq<Expr>)
    requires op != Mul && terms != [] && AllMulFree(terms)
    ensures MulFree(Rebuild(op, terms))
  {
    if |terms| > 1 { RebuildMulFree(op, terms[..|terms| - 1]); }
  }

  lemma CombineMulFree(op: BinOp, terms: seq<Expr>, le: Order)
    requires IsAssocComm(op) && op != Mul && AllMulFree(terms)
    ensures var r := CombineTerms(op, terms, le); r.Done? ==> MulFree(r.value)
  {
    var (reduced, folded) := ReduceTerms(op, terms, le);
    ReduceFrom(op, terms, le);
    AssembleMulFree(op, reduced, folded);
  }

  lemma AssembleMulFree(op: BinOp, terms: seq<Expr>, folded: Folded)
    requires IsAssocComm(op) && op != Mul && AllMulFree(terms)
    ensures var r := AssembleTerms(op, terms, folded); r.Done? ==> MulFree(r.value)
  {
    if terms != [] { RebuildMulFree(op, terms); }
    if folded.Folded? { RebuildMulFree(op, terms + [Const(folded.value, folded.width)]); }
  }

  lemma {:induction false} CanonicalizeAllBounded(terms: seq<Expr>, le: Order, fuel: nat)
    requires BoundedUpTo(le, fuel) && Affordable(terms, fuel)
    ensures var r := CanonicalizeAll(terms, le, fuel);
      && !r.OutOfFuel?
      && (r.Done? ==> |r.value| == |terms| && AllMulFree(r.value)
                      && forall k | 0 <= k < |terms| :: Measure(r.value[k]) <= Measure(terms[k]))
  {
    if terms != [] {
      assert Bounded(Canonicalize(terms[0], le, fuel), Measure(terms[0]));
      CanonicalizeAllBounded(terms[1..], le, fuel);
    }
  }

  lemma {:induction false} PointwiseWeight(op: BinOp, a: seq<Expr>, b: seq<Expr>)
    requires |a| == |b| && forall k | 0 <= k < |a| :: Measure(a[k]) <= Measure(b[k])
    ensures Weight(op, a) <= Weight(op, b)
  {
    if a != [] {
      PointwiseWeight(op, a[1..], b[1..]);
      CombineMono(op, Scaled(op, Measure(a[0])), Weight(op, a[1..]), Scaled(op, Measure(b[0])), Weight(op, b[1..]));
    }
  }

  lemma {:induction false} ContainsBounded(op: BinOp, e: Expr, needle: Expr, le: Order, fuel: nat)
    requires BoundedUpTo(le, fuel) && MulFree(e) && Measure(e) < fuel
    ensures !ContainsTerm(op, e, needle, le, fuel).OutOfFuel?
    decreases e
  {
    hide ContainsTerm, Canonicalize;
    if e.Bin? && e.op == op {
      ChildrenSmaller(e);
      ContainsBounded(op, e.lhs, needle, le, fuel);
      ContainsBounded(op, e.rhs, needle, le, fuel);
      ContainsUnfolds(op, e, needle, le, fuel);
    } else {
      Afford(e, le, fuel);
      ContainsAtLeaf(op, e, needle, le, fuel);
    }
  }

  lemma {:induction false} FirstAbsorberBounded(
    op: BinOp, t: Expr, canonical: seq<Expr>, i: nat, j: nat, le: Order, fuel: nat)
    requires BoundedUpTo(le, fuel) && MulFree(t) && Measure(t) < fuel && j <= |canonical|
    ensures !FirstAbsorber(op, t, canonical, i, j, le, fuel).OutOfFuel?
    decreases |canonical| - j
  {
    hide ContainsTerm, Canonicalize;
    if j < |canonical| {
      ContainsBounded(op, t, canonical[j], le, fuel);
      FirstAbsorberBounded(op, t, canonical, i, j + 1, le, fuel);
    }
  }

  lemma {:induction false} AbsorbersBounded(
    op: BinOp, terms: seq<Expr>, canonical: seq<Expr>, i: nat, le: Order, fuel: nat)
    requires BoundedUpTo(le, fuel) && Affordable(terms, fuel) && i <= |terms|
    ensures !Absorbers(op, terms, canonical, i, le, fuel).OutOfFuel?
    decreases |terms| - i
  {
    if i < |terms| {
      AbsorbersBounded(op, terms, canonical, i + 1, le, fuel);
      assert terms[i] in terms;
      FirstAbsorberBounded(op, terms[i], canonical, i, 0, le, fuel);
    }
  }

  lemma {:induction false} RetainWeight(op: BinOp, terms: seq<Expr>, absorbers: seq<Option<nat>>)
    requires |terms| == |absorbers|
    ensures Weight(op, Retain(terms, absorbers)) <= Weight(op, terms)
    ensures forall t | t in Retain(terms, absorbers) :: t in terms
  {
    if terms != [] {
      var rest := Retain(terms[1..], absorbers[1..]);
      RetainWeight(op, terms[1..], absorbers[1..]);
      var x := Scaled(op, Measure(terms[0]));
      Drop(op, terms[0], Weight(op, terms[1..]));
      CombineMono(op, x, Weight(op, rest), x, Weight(op, terms[1..]));
      assert ([terms[0]] + rest)[1..] == rest;
      assert [] + rest == rest;
    }
  }

  lemma RemoveAbsorbedBounded(op: BinOp, terms: seq<Expr>, le: Order, fuel: nat)
    requires BoundedUpTo(le, fuel) && Affordable(terms, fuel)
    ensures var r := RemoveAbsorbed(op, terms, le, fuel);
      !r.OutOfFuel? && (r.Done? ==> Affordable(r.value, fuel) && Weight(op, r.value) <= Weight(op, terms))
  {
    if op == And || op == Or {
      CanonicalizeAllBounded(terms, le, fuel);
      var c := CanonicalizeAll(terms, le, fuel);
      if c.Done? {
        AbsorbersBounded(Opposite(op), terms, c.value, 0, le, fuel);
        var a := Absorbers(Opposite(op), terms, c.value, 0, le, fuel);
        if a.Done? { RetainWeight(op, terms, a.value); }
      }
    }
  }

  lemma ScaledMono(op: BinOp, a: nat, b: nat)
    ensures Scaled(op, a) <= Scaled(op, b) ==> a <= b
  {
  }

  lemma AssocCommBounded(op: BinOp, lhs: Expr, rhs: Expr, le: Order, fuel: nat)
    requires IsAssocComm(op) && BoundedUpTo(le, fuel)
    requires MulFree(Bin(op, lhs, rhs)) && Measure(Bin(op, lhs, rhs)) <= fuel
    ensures Bounded(CanonicalizeAssocComm(op, lhs, rhs, le, fuel), Measure(Bin(op, lhs, rhs)))
  {
    hide Canonicalize, CanonicalizeAll, RemoveAbsorbed, CombineTerms;
    var e := Bin(op, lhs, rhs);
    var terms := Flatten(op, lhs) + Flatten(op, rhs);
    ChildrenSmaller(e);
    FlattenSmall(op, lhs);
    FlattenSmall(op, rhs);
    FlattenWeight(op, e);
    RemoveAbsorbedBounded(op, terms, le, fuel);
    var kept := RemoveAbsorbed(op, terms, le, fuel);
    if kept.Done? {
      CanonicalizeAllBounded(kept.value, le, fuel);
      var canonical := CanonicalizeAll(kept.value, le, fuel);
      if canonical.Done? { CombineBounded(op, kept.value, canonical.value, e, le); }
    }
  }

  lemma CombineBounded(op: BinOp, kept: seq<Expr>, canonical: seq<Expr>, e: Expr, le: Order)
    requires IsAssocComm(op) && op != Mul && AllMulFree(canonical) && |canonical| == |kept|
    requires forall k | 0 <= k < |kept| :: Measure(canonical[k]) <= Measure(kept[k])
    requires Weight(op, kept) <= Scaled(op, Measure(e))
    ensures Bounded(CombineTerms(op, FlattenAll(op, canonical), le), Measure(e))
  {
    var terms := FlattenAll(op, canonical);
    PointwiseWeight(op, canonical, kept);
    FlattenAllWeight(op, canonical);
    FlattenAllMulFree(op, canonical);
    CombineMulFree(op, terms, le);
    CombineWeight(op, terms, le);
    var r := CombineTerms(op, terms, le);
    if r.Done? { ScaledMono(op, Measure(r.value), Measure(e)); }
  }

  lemma NodeMeasure(op: BinOp, l: Expr, r: Expr)
    requires op != Xor
    ensures Measure(Bin(op, l, r)) == Measure(l) + Measure(r) + NodeCost(op)
  {
  }

  lemma AndNotMeasure(l: Expr, r: Expr)
    ensures Measure(Bin(And, Not(l), r)) == Measure(l) + Measure(r) + 2
    ensures Measure(Bin(And, l, Not(r))) == Measure(l) + Measure(r) + 2
    ensures Measure(Bin(And, Not(l), Not(r))) == Measure(l) + Measure(r) + 3
    ensures Measure(Bin(And, l, r)) == Measure(l) + Measure(r) + 1
  {
    assert Measure(Not(l)) == Measure(l) + 1 && Measure(Not(r)) == Measure(r) + 1;
    NodeMeasure(And, Not(l), r);
    NodeMeasure(And, l, Not(r));
    NodeMeasure(And, Not(l), Not(r));
    NodeMeasure(And, l, r);
  }

  /** Lowering an operator yields a smaller expression without multiplications. */
  lemma LowerOrShrinks(lhs: Expr, rhs: Expr)
    requires MulFree(lhs) && MulFree(rhs)
    ensures MulFree(LowerOr(lhs, rhs)) && Measure(LowerOr(lhs, rhs)) < Measure(Bin(Or, lhs, rhs))
  {
    AndNotMeasure(lhs, rhs);
    assert MulFree(Not(lhs)) && MulFree(Not(rhs));
    assert MulFree(Bin(And, Not(lhs), Not(rhs)));
    NodeMeasure(Or, lhs, rhs);
  }

  lemma LowerXorShrinks(lhs: Expr, rhs: Expr)
    requires MulFree(lhs) && MulFree(rhs)
    ensures MulFree(LowerXor(lhs, rhs)) && Measure(LowerXor(lhs, rhs)) < Measure(Bin(Xor, lhs, rhs))
  {
    var x, y := Bin(And, lhs, Not(rhs)), Bin(And, Not(lhs), rhs);
    AndNotMeasure(lhs, rhs);
    assert MulFree(Not(lhs)) && MulFree(Not(rhs));
    assert MulFree(x) && MulFree(y);
    NodeMeasure(Or, x, y);
    assert Measure(Bin(Xor, lhs, rhs)) == 14 * Times(Measure(lhs), Measure(rhs));
  }

  lemma LowerSelectShrinks(c: Expr, t: Expr, f: Expr, width: nat)
    requires MulFree(c) && MulFree(t) && MulFree(f)
    ensures MulFree(LowerSelect(c, t, f, width)) && Measure(LowerSelect(c, t, f, width)) < Measure(Select(c, t, f))
  {
    var mask := Extend(SignExtend, c, width);
    assert MulFree(mask) && Measure(mask) == Measure(c) + 1;
    MaskedPair(mask, t, f);
    SelectMeasure(c, t, f);
  }

  lemma MaskedPair(mask: Expr, t: Expr, f: Expr)
    requires MulFree(mask) && MulFree(t) && MulFree(f)
    ensures var e := Not(Bin(And, Not(Bin(And, Not(mask), f)), Not(Bin(And, mask, t))));
      MulFree(e) && Measure(e) == 2 * Measure(mask) + Measure(t) + Measure(f) + 7
  {
    var x, y := Bin(And, Not(mask), f), Bin(And, mask, t);
    AndNotMeasure(mask, f);
    AndNotMeasure(mask, t);
    assert MulFree(Not(mask));
    NotPair(x, y);
  }

  lemma NotPair(x: Expr, y: Expr)
    requires MulFree(x) && MulFree(y)
    ensures var e := Not(Bin(And, Not(x), Not(y)));
      MulFree(e) && Measure(e) == Measure(x) + Measure(y) + 4
  {
    AndNotMeasure(x, y);
    assert MulFree(Not(x)) && MulFree(Not(y));
    var all := Bin(And, Not(x), Not(y));
    assert MulFree(all) && Measure(Not(all)) == Measure(all) + 1;
  }

  lemma SelectMeasure(c: Expr, t: Expr, f: Expr)
    ensures Measure(Select(c, t, f)) == 2 * Measure(c) + Measure(t) + Measure(f) + 10
  {
  }

  lemma LowerBounded(e: Expr, le: Order, fuel: nat)
    requires BoundedUpTo(le, fuel) && MulFree(e) && Measure(e) <= fuel
    ensures Bounded(LowerOperators(e, le, fuel), Measure(e))
  {
    if e.Bin? && e.op == Or {
      LowerOrShrinks(e.lhs, e.rhs);
      Afford(LowerOr(e.lhs, e.rhs), le, fuel);
    } else if e.Bin? && e.op == Xor {
      LowerXorShrinks(e.lhs, e.rhs);
      Afford(LowerXor(e.lhs, e.rhs), le, fuel);
    } else if e.Select? && ExprWidth(e.whenTrue).Some? {
      var w := ExprWidth(e.whenTrue).value;
      LowerSelectShrinks(e.condition, e.whenTrue, e.whenFalse, w);
      Afford(LowerSelect(e.condition, e.whenTrue, e.whenFalse, w), le, fuel);
    }
  }

  lemma Afford(e: Expr, le: Order, fuel: nat)
    requires BoundedUpTo(le, fuel) && MulFree(e) && Measure(e) < fuel
    ensures Bounded(Canonicalize(e, le, fuel), Measure(e))
  {
  }

  lemma SubBounded(lhs: Expr, rhs: Expr, le: Order, fuel: nat, bound: nat)
    requires BoundedUpTo(le, fuel) && MulFree(lhs) && MulFree(rhs)
    requires Measure(lhs) + Measure(rhs) + 5 <= bound <= fuel
    ensures Bounded(CanonicalizeSub(lhs, rhs, le, fuel), bound)
  {
    hide ExprWidth, BoundedUpTo;
    hide Canonicalize;
    if ExprWidth(lhs).Some? {
      var one := Const(1, ExprWidth(lhs).value);
      assert Measure(Not(rhs)) == Measure(rhs) + 1 && MulFree(Not(rhs));
      var sum := Bin(Add, lhs, Not(rhs));
      NodeMeasure(Add, lhs, Not(rhs));
      NodeMeasure(Add, sum, one);
      assert MulFree(sum);
      Afford(Bin(Add, sum, one), le, fuel);
    }
  }

  /** A subtraction, comparison, shift or rotation of canonical operands. */
  lemma OperandsBounded(op: BinOp, l: Expr, r: Expr, le: Order, fuel: nat, bound: nat)
    requires !IsAssocComm(op) && BoundedUpTo(le, fuel) && MulFree(l) && MulFree(r)
    requires Measure(l) + Measure(r) + NodeCost(op) <= bound <= fuel
    ensures Bounded(CanonicalizeOperands(op, l, r, le, fuel), bound)
  {
    hide CanonicalizeSub, BoundedUpTo;
    if op == Sub {
      SubBounded(l, r, le, fuel, bound);
    } else {
      NodeMeasure(op, l, r);
      NodeMeasure(op, r, l);
      assert MulFree(Bin(op, l, r)) && MulFree(Bin(op, r, l));
    }
  }

  lemma WithKeepsBound(r: Outcome<Expr>, more: set<Obligation>, bound: nat)
    requires Bounded(r, bound)
    ensures Bounded(r.With(more), bound)
  {
  }

  lemma PlainBinBounded(op: BinOp, lhs: Expr, rhs: Expr, le: Order, fuel: nat)
    requires !IsAssocComm(op) && BoundedUpTo(le, fuel)
    requires MulFree(Bin(op, lhs, rhs)) && Measure(Bin(op, lhs, rhs)) <= fuel
    ensures Bounded(CanonicalizeBin(op, lhs, rhs, le, fuel), Measure(Bin(op, lhs, rhs)))
  {
    hide CanonicalizeBin, CanonicalizeOperands, Measure;
    var e := Bin(op, lhs, rhs);
    PlainUnfolds(op, lhs, rhs, le, fuel);
    var l, r := Canonicalize(lhs, le, fuel), Canonicalize(rhs, le, fuel);
    NodeMeasure(op, lhs, rhs);
    Afford(lhs, le, fuel);
    Afford(rhs, le, fuel);
    if l.Done? && r.Done? {
      OperandsBounded(op, l.value, r.value, le, fuel, Measure(e));
      WithKeepsBound(CanonicalizeOperands(op, l.value, r.value, le, fuel), l.obligations + r.obligations, Measure(e));
    }
  }

  lemma AssocCommBinBounded(op: BinOp, lhs: Expr, rhs: Expr, le: Order, fuel: nat)
    requires IsAssocComm(op) && BoundedUpTo(le, fuel)
    requires MulFree(Bin(op, lhs, rhs)) && Measure(Bin(op, lhs, rhs)) <= fuel
    ensures Bounded(CanonicalizeBin(op, lhs, rhs, le, fuel), Measure(Bin(op, lhs, rhs)))
  {
    hide CanonicalizeBin, FinishTree, Measure;
    TreeUnfolds(op, lhs, rhs, le, fuel);
    AssocCommBounded(op, lhs, rhs, le, fuel);
    var c := CanonicalizeAssocComm(op, lhs, rhs, le, fuel);
    if c.Done? {
      FinishBounded(op, c.value, le, fuel, Measure(Bin(op, lhs, rhs)));
      WithKeepsBound(FinishTree(op, c.value, le, fuel), c.obligations, Measure(Bin(op, lhs, rhs)));
    }
  }

  lemma FinishBounded(op: BinOp, tree: Expr, le: Order, fuel: nat, bound: nat)
    requires IsAssocComm(op) && BoundedUpTo(le, fuel) && MulFree(tree) && Measure(tree) <= bound <= fuel
    ensures Bounded(FinishTree(op, tree, le, fuel), bound)
  {
    LowerBounded(tree, le, fuel);
    MulFreeSkipsMul(tree, le, fuel);
  }

  /** Without multiplications the constant-factor step only checks the width. */
  lemma MulFreeSkipsMul(e: Expr, le: Order, fuel: nat)
    requires MulFree(e)
    ensures CanonicalizeMul(e, le, fuel) == if ExprWidth(e).None? then Panic else Done(e, {})
  {
  }

  lemma BinBounded(op: BinOp, lhs: Expr, rhs: Expr, le: Order, fuel: nat)
    requires BoundedUpTo(le, fuel)
    requires MulFree(Bin(op, lhs, rhs)) && Measure(Bin(op, lhs, rhs)) <= fuel
    ensures Bounded(CanonicalizeBin(op, lhs, rhs, le, fuel), Measure(Bin(op, lhs, rhs)))
  {
    if IsAssocComm(op) {
      AssocCommBinBounded(op, lhs, rhs, le, fuel);
    } else {
      PlainBinBounded(op, lhs, rhs, le, fuel);
    }
  }

  lemma {:induction false} PointwiseParts(a: seq<Expr>, b: seq<Expr>)
    requires |a| == |b| && forall k | 0 <= k < |a| :: Measure(a[k]) <= Measure(b[k])
    ensures PartsMeasure(a) <= PartsMeasure(b)
  {
    if a != [] { PointwiseParts(a[..|a| - 1], b[..|b| - 1]); }
  }

  lemma {:induction false} PartSmaller(parts: seq<Expr>, k: nat)
    requires k < |parts|
    ensures Measure(parts[k]) <= PartsMeasure(parts)
  {
    if k < |parts| - 1 { PartSmaller(parts[..|parts| - 1], k); }
  }

  lemma {:induction false} MergeBounded(parts: seq<Expr>)
    requires AllMulFree(parts)
    ensures var m := MergeChunks(parts);
      m.Some? ==> AllMulFree(m.value) && PartsMeasure(m.value) <= PartsMeasure(parts)
  {
    if parts != [] {
      MergeBounded(parts[..|parts| - 1]);
      var m := MergeChunks(parts);
      if m.Some? {
        var merged, all := MergeChunks(parts[..|parts| - 1]).value, m.value;
        assert all != [];
        assert all[..|all| - 1] == merged || (merged != [] && all[..|all| - 1] == merged[..|merged| - 1]);
      }
    }
  }

  lemma ConcatBounded(parts: seq<Expr>, le: Order, fuel: nat)
    requires fuel > 0 && BoundedUpTo(le, fuel - 1)
    requires MulFree(Concat(parts)) && Measure(Concat(parts)) < fuel
    ensures Bounded(Canonicalize(Concat(parts), le, fuel), Measure(Concat(parts)))
  {
    var less := fuel - 1;
    forall t | t in parts ensures MulFree(t) && Measure(t) < less {
      var k :| 0 <= k < |parts| && parts[k] == t;
      PartSmaller(parts, k);
    }
    CanonicalizeAllBounded(parts, le, less);
    var c := CanonicalizeAll(parts, le, less);
    if c.Done? {
      PointwiseParts(c.value, parts);
      RebuildBounded(c.value, PartsMeasure(parts) + 1);
      WithKeepsBound(RebuildConcat(c.value), c.obligations, PartsMeasure(parts) + 1);
    }
    ConcatUnfolds(parts, le, fuel);
  }

  lemma ConcatUnfolds(parts: seq<Expr>, le: Order, fuel: nat)
    requires fuel > 0
    ensures Measure(Concat(parts)) == PartsMeasure(parts) + 1
    ensures var c := CanonicalizeAll(parts, le, fuel - 1);
      Canonicalize(Concat(parts), le, fuel) ==
      if c.Done? then RebuildConcat(c.value).With(c.obligations) else c.PropagateFailure()
  {
  }

  lemma RebuildBounded(parts: seq<Expr>, bound: nat)
    requires AllMulFree(parts) && PartsMeasure(parts) + 1 <= bound
    ensures Bounded(RebuildConcat(parts), bound)
  {
    MergeBounded(parts);
    var m := MergeChunks(parts);
    if m.Some? && |m.value| == 1 { PartSmaller(m.value, 0); }
  }

  lemma FlagBounded(flag: FlagOp, lhs: Expr, rhs: Expr, flagIn: Expr, width: nat, le: Order, fuel: nat)
    requires BoundedUpTo(le, fuel)
    requires var e := Flag(flag, lhs, rhs, flagIn, width); MulFree(e) && Measure(e) <= fuel
    ensures Bounded(CanonicalizeFlag(flag, lhs, rhs, flagIn, width, le, fuel),
                    Measure(Flag(flag, lhs, rhs, flagIn, width)))
  {
    hide CanonicalizeFlag, Canonicalize;
    FlagUnfolds(flag, lhs, rhs, flagIn, width, le, fuel);
    var x, y := FlagOperand(flag, rhs), FlagOperand(flag, flagIn);
    FlagOperandBounded(flag, rhs);
    FlagOperandBounded(flag, flagIn);
    Afford(lhs, le, fuel);
    Afford(x, le, fuel);
    Afford(y, le, fuel);
  }

  lemma FlagOperandBounded(flag: FlagOp, e: Expr)
    requires MulFree(e)
    ensures MulFree(FlagOperand(flag, e))
    ensures Measure(FlagOperand(flag, e)) <= Measure(e) + if AddFlag(flag) == flag then 0 else 1
  {
  }

  lemma ChoiceBounded(c: Expr, t: Expr, f: Expr, le: Order, fuel: nat)
    requires BoundedUpTo(le, fuel)
    requires MulFree(Select(c, t, f)) && Measure(Select(c, t, f)) <= fuel
    ensures Bounded(CanonicalizeChoice(c, t, f, le, fuel), Measure(Select(c, t, f)))
  {
    var c', t', f' := Canonicalize(c, le, fuel), Canonicalize(t, le, fuel), Canonicalize(f, le, fuel);
    SelectMeasure(c, t, f);
    Afford(c, le, fuel);
    Afford(t, le, fuel);
    Afford(f, le, fuel);
    if c'.Done? && t'.Done? && f'.Done? {
      var r := CanonicalizeSelect(c'.value, t'.value, f'.value, le, fuel);
      SelectChildrenBounded(c'.value, t'.value, f'.value, le, fuel, Measure(Select(c, t, f)));
      WithKeepsBound(r, c'.obligations + t'.obligations + f'.obligations, Measure(Select(c, t, f)));
    }
  }

  lemma SelectChildrenBounded(c: Expr, t: Expr, f: Expr, le: Order, fuel: nat, bound: nat)
    requires BoundedUpTo(le, fuel) && MulFree(c) && MulFree(t) && MulFree(f)
    requires 2 * Measure(c) + Measure(t) + Measure(f) + 10 <= bound <= fuel
    ensures Bounded(CanonicalizeSelect(c, t, f, le, fuel), bound)
  {
    SelectMeasure(c, t, f);
    LowerBounded(Select(c, t, f), le, fuel);
  }

  lemma BoundedStep(e: Expr, le: Order, fuel: nat)
    requires fuel > 0 && BoundedUpTo(le, fuel - 1) && MulFree(e) && Measure(e) < fuel
    ensures Bounded(Canonicalize(e, le, fuel), Measure(e))
  {
    hide BoundedUpTo, CanonicalizeBin, CanonicalizeFlag, CanonicalizeChoice;
    var less := fuel - 1;
    match e
    case Bin(op, lhs, rhs) => BinBounded(op, lhs, rhs, le, less);
    case Concat(parts) => ConcatBounded(parts, le, fuel);
    case Flag(flag, lhs, rhs, flagIn, width) => FlagBounded(flag, lhs, rhs, flagIn, width, le, less);
    case Select(c, t, f) => ChoiceBounded(c, t, f, le, less);
    case ReadRegister(_, _) => ReadBounded(e, le, fuel);
    case ReadMemory(_, _) => ReadBounded(e, le, fuel);
    case Not(_) => UnaryBounded(e, le, fuel);
    case CountOnes(_) => UnaryBounded(e, le, fuel);
    case Slice(_, _, _) => PartBounded(e, le, fuel);
    case Extend(_, _, _) => PartBounded(e, le, fuel);
    case _ =>
  }

  lemma ReadBounded(e: Expr, le: Order, fuel: nat)
    requires fuel > 0 && BoundedUpTo(le, fuel - 1) && MulFree(e) && Measure(e) < fuel
             && (e.ReadRegister? || e.ReadMemory?)
    ensures Bounded(Canonicalize(e, le, fuel), Measure(e))
  {
    hide BoundedUpTo, CanonicalizeBin;
    Afford(if e.ReadRegister? then e.register else e.address, le, fuel - 1);
  }

  lemma UnaryBounded(e: Expr, le: Order, fuel: nat)
    requires fuel > 0 && BoundedUpTo(le, fuel - 1) && MulFree(e) && Measure(e) < fuel && (e.Not? || e.CountOnes?)
    ensures Bounded(Canonicalize(e, le, fuel), Measure(e))
  {
    hide BoundedUpTo, CanonicalizeBin;
    Afford(e.operand, le, fuel - 1);
  }

  lemma PartBounded(e: Expr, le: Order, fuel: nat)
    requires fuel > 0 && BoundedUpTo(le, fuel - 1) && MulFree(e) && Measure(e) < fuel && (e.Slice? || e.Extend?)
    ensures Bounded(Canonicalize(e, le, fuel), Measure(e))
  {
    hide BoundedUpTo, CanonicalizeBin, ExprWidth;
    Afford(e.operand, le, fuel - 1);
  }

  /** On an expression without multiplication, fuel above its measure is never exhausted, and a
      finished run returns an expression of no larger measure. */
  lemma {:induction false} CanonicalizeTerminates(e: Expr, le: Order, fuel: nat)
    requires MulFree(e) && Measure(e) < fuel
    ensures Bounded(Canonicalize(e, le, fuel), Measure(e))
    decreases fuel
  {
    var less := fuel - 1;
    forall x | MulFree(x) && Measure(x) < less ensures Bounded(Canonicalize(x, le, less), Measure(x)) {
      CanonicalizeTerminates(x, le, less);
    }
    BoundedStep(e, le, fuel);
  }
}
