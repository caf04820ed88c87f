/** Canonicalization preserves meaning. */
module CanonicalizerMeaning {
  import opened Words
  import opened WordLaws
  import opened Exprs
  import opened Canonicalizer

  /** The expression has a value of width `w` in the state. */
  ghost predicate Has(e: Expr, s: MachineState, w: nat)
  {
    Eval(e, s).Some? && Eval(e, s).value.width == w
  }

  ghost function Val(e: Expr, s: MachineState): nat
  {
    if Eval(e, s).Some? then Eval(e, s).value.value else 0
  }

  ghost predicate AllHave(terms: seq<Expr>, s: MachineState, w: nat)
  {
    forall t | t in terms :: Has(t, s, w)
  }

  /** The operator applied to all the terms. */
  ghost function Fold(op: BinOp, terms: seq<Expr>, s: MachineState, w: nat): (v: nat)
    requires IsAssocComm(op) && w > 0
    requires AllHave(terms, s, w)
    ensures v < Pow2(w)
  {
    if terms == [] then Unit(op, w)
    else assert Has(terms[0], s, w); BinVal(op, Val(terms[0], s), Fold(op, terms[1..], s, w), w)
  }

  lemma {:induction false} FoldConcat(op: BinOp, a: seq<Expr>, b: seq<Expr>, s: MachineState, w: nat)
    requires IsAssocComm(op) && w > 0 && AllHave(a, s, w) && AllHave(b, s, w)
    ensures AllHave(a + b, s, w)
    ensures Fold(op, a + b, s, w) == BinVal(op, Fold(op, a, s, w), Fold(op, b, s, w), w)
  {
    if a == [] {
      assert a + b == b;
      UnitLaw(op, Fold(op, b, s, w), w);
      Commutes(op, Fold(op, b, s, w), Unit(op, w), w);
    } else {
      assert Has(a[0], s, w);
      assert (a + b)[1..] == a[1..] + b;
      FoldConcat(op, a[1..], b, s, w);
      Associates(op, Val(a[0], s), Fold(op, a[1..], s, w), Fold(op, b, s, w), w);
    }
  }

  lemma FoldOne(op: BinOp, t: Expr, s: MachineState, w: nat)
    requires IsAssocComm(op) && w > 0 && Has(t, s, w)
    ensures AllHave([t], s, w) && Fold(op, [t], s, w) == Val(t, s)
  {
    UnitLaw(op, Val(t, s), w);
    assert [t][1..] == [];
  }

  lemma {:induction false} FlattenMeaning(op: BinOp, e: Expr, s: MachineState, w: nat)
    requires IsAssocComm(op) && w > 0 && Has(e, s, w)
    ensures AllHave(Flatten(op, e), s, w) && Fold(op, Flatten(op, e), s, w) == Val(e, s)
  {
    if e.Bin? && e.op == op {
      FlattenMeaning(op, e.lhs, s, w);
      FlattenMeaning(op, e.rhs, s, w);
      FoldConcat(op, Flatten(op, e.lhs), Flatten(op, e.rhs), s, w);
    } else {
      FoldOne(op, e, s, w);
    }
  }

  lemma {:induction false} FlattenAllMeaning(op: BinOp, terms: seq<Expr>, s: MachineState, w: nat)
    requires IsAssocComm(op) && w > 0 && AllHave(terms, s, w)
    ensures AllHave(FlattenAll(op, terms), s, w)
    ensures Fold(op, FlattenAll(op, terms), s, w) == Fold(op, terms, s, w)
  {
    if terms != [] {
      assert Has(terms[0], s, w);
      FlattenMeaning(op, terms[0], s, w);
      FlattenAllMeaning(op, terms[1..], s, w);
      FoldConcat(op, Flatten(op, terms[0]), FlattenAll(op, terms[1..]), s, w);
    }
  }

  lemma {:induction false} RebuildMeaning(op: BinOp, terms: seq<Expr>, s: MachineState, w: nat)
    requires IsAssocComm(op) && w > 0 && terms != [] && AllHave(terms, s, w)
    ensures Has(Rebuild(op, terms), s, w) && Val(Rebuild(op, terms), s) == Fold(op, terms, s, w)
  {
    hide Fold, BinVal;
    if |terms| == 1 {
      FoldOne(op, terms[0], s, w);
      assert terms == [terms[0]];
    } else {
      var init, last := terms[..|terms| - 1], terms[|terms| - 1];
      RebuildMeaning(op, init, s, w);
      FoldOne(op, last, s, w);
      FoldConcat(op, init, [last], s, w);
      assert terms == init + [last];
    }
  }

  lemma {:induction false} InsertMeaning(op: BinOp, t: Expr, sorted: seq<Expr>, le: Order, s: MachineState, w: nat)
    requires IsAssocComm(op) && w > 0 && Has(t, s, w) && AllHave(sorted, s, w)
    ensures AllHave(Insert(t, sorted, le), s, w)
    ensures Fold(op, Insert(t, sorted, le), s, w) == BinVal(op, Val(t, s), Fold(op, sorted, s, w), w)
  {
    if sorted == [] || le(t, sorted[0]) {
      assert ([t] + sorted)[1..] == sorted;
    } else {
      var h, rest := sorted[0], sorted[1..];
      assert Has(h, s, w);
      InsertMeaning(op, t, rest, le, s, w);
      var x, y, f := Val(t, s), Val(h, s), Fold(op, rest, s, w);
      assert ([h] + Insert(t, rest, le))[1..] == Insert(t, rest, le);
      Associates(op, y, x, f, w);
      Associates(op, x, y, f, w);
      Commutes(op, x, y, w);
    }
  }

  lemma {:induction false} SortMeaning(op: BinOp, terms: seq<Expr>, le: Order, s: MachineState, w: nat)
    requires IsAssocComm(op) && w > 0 && AllHave(terms, s, w)
    ensures AllHave(Sort(terms, le), s, w) && Fold(op, Sort(terms, le), s, w) == Fold(op, terms, s, w)
  {
    if terms != [] {
      SortMeaning(op, terms[1..], le, s, w);
      InsertMeaning(op, terms[0], Sort(terms[1..], le), le, s, w);
    }
  }

  lemma Repeats(op: BinOp, v: nat, w: nat)
    requires op == And || op == Or || op == Xor
    requires w > 0 && Fits(v, w)
    ensures BinVal(op, v, v, w) == if op == Xor then 0 else v
  {
    BitwiseRepeats(if op == And then LogicAnd else if op == Or then LogicOr else LogicXor, v, w);
  }

  lemma {:induction false} DedupMeaning(op: BinOp, terms: seq<Expr>, s: MachineState, w: nat)
    requires (op == And || op == Or) && w > 0 && AllHave(terms, s, w)
    ensures AllHave(Dedup(terms), s, w) && Fold(op, Dedup(terms), s, w) == Fold(op, terms, s, w)
  {
    if |terms| > 1 {
      var rest := terms[1..];
      DedupMeaning(op, rest, s, w);
      if terms[0] == terms[1] {
        var v, f := Val(terms[0], s), Fold(op, rest[1..], s, w);
        assert Has(terms[0], s, w);
        Repeats(op, v, w);
        Associates(op, v, v, f, w);
      } else {
        assert ([terms[0]] + Dedup(rest))[1..] == Dedup(rest);
      }
    }
  }

  /** A run of `n` equal terms contributes its term when `n` is odd and nothing when it is even. */
  lemma {:induction false} RunMeaning(terms: seq<Expr>, s: MachineState, w: nat)
    requires terms != [] && w > 0 && AllHave(terms, s, w)
    ensures Has(terms[0], s, w)
    ensures var n := RunLength(terms);
      Fold(Xor, terms, s, w) ==
      BinVal(Xor, if n % 2 == 1 then Val(terms[0], s) else 0, Fold(Xor, terms[n..], s, w), w)
  {
    var v, n := Val(terms[0], s), RunLength(terms);
    assert Has(terms[0], s, w);
    if n > 1 {
      RunMeaning(terms[1..], s, w);
      assert terms[1..][n - 1..] == terms[n..];
      XorAgain(v, n, Fold(Xor, terms[n..], s, w), w);
    }
  }

  lemma XorAgain(v: nat, n: nat, f: nat, w: nat)
    requires w > 0 && n > 1 && Fits(v, w) && Fits(f, w)
    ensures BinVal(Xor, v, BinVal(Xor, if (n - 1) % 2 == 1 then v else 0, f, w), w)
            == BinVal(Xor, if n % 2 == 1 then v else 0, f, w)
  {
    var x := if (n - 1) % 2 == 1 then v else 0;
    Associates(Xor, v, x, f, w);
    Repeats(Xor, v, w);
    UnitLaw(Xor, v, w);
  }

  /** What a run leaves has the value the run contributes. */
  lemma RunKeptMeaning(t: Expr, n: nat, kept: seq<Expr>, s: MachineState, w: nat)
    requires w > 0 && Has(t, s, w) && AllHave(kept, s, w) && ExprWidth(t) == Some(w)
    ensures AllHave(RunKept(t, n) + kept, s, w)
    ensures Fold(Xor, RunKept(t, n) + kept, s, w)
            == BinVal(Xor, if n % 2 == 1 then Val(t, s) else 0, Fold(Xor, kept, s, w), w)
  {
    var f := Fold(Xor, kept, s, w);
    if n % 2 == 1 {
      assert ([t] + kept)[1..] == kept;
    } else {
      assert [] + kept == kept;
      UnitLaw(Xor, f, w);
      Commutes(Xor, f, 0, w);
    }
  }

  lemma {:induction false} CancelMeaning(terms: seq<Expr>, cancelled: Option<nat>, s: MachineState, w: nat)
    requires w > 0 && AllHave(terms, s, w) && MemoryWellFormed(s)
    requires cancelled.Some? ==> cancelled.value == w
    ensures var (kept, width) := CancelRuns(terms, cancelled);
      && AllHave(kept, s, w) && Fold(Xor, kept, s, w) == Fold(Xor, terms, s, w)
      && (width.Some? ==> width.value == w) && (cancelled.Some? ==> width.Some?)
      && (terms != [] && kept == [] ==> width.Some?)
    decreases |terms|
  {
    if terms != [] {
      var n, t := RunLength(terms), terms[0];
      RunMeaning(terms, s, w);
      assert Has(t, s, w);
      EvalHasStaticWidth(t, s);
      CancelMeaning(terms[n..], RunWidth(t, n, cancelled), s, w);
      RunKeptMeaning(t, n, CancelRuns(terms[n..], RunWidth(t, n, cancelled)).0, s, w);
    }
  }

  /** The value a folded constant stands for. */
  ghost function FoldedVal(op: BinOp, folded: Folded, w: nat): nat
    requires w > 0
  {
    if folded.Folded? then folded.value else Unit(op, w)
  }

  ghost predicate FoldedFits(folded: Folded, w: nat)
  {
    folded.Folded? ==> folded.width == w && Fits(folded.value, w)
  }

  /** Splitting the terms into constants and the rest keeps the combined value. */
  ghost predicate SplitsAs(op: BinOp, terms: seq<Expr>, acc: Folded, folded: Folded, s: MachineState, w: nat)
    requires IsAssocComm(op) && w > 0 && AllHave(terms, s, w)
    requires FoldedFits(acc, w)
  {
    && AllHave(NonConstants(terms), s, w)
    && !folded.BadWidth? && FoldedFits(folded, w)
    && BinVal(op, FoldedVal(op, acc, w), Fold(op, terms, s, w), w)
       == BinVal(op, FoldedVal(op, folded, w), Fold(op, NonConstants(terms), s, w), w)
    && (acc.Folded? ==> folded.Folded?)
    && (NonConstants(terms) == [] && terms != [] ==> folded.Folded?)
  }

  lemma {:induction false} ConstantsMeaning(op: BinOp, terms: seq<Expr>, acc: Folded, s: MachineState, w: nat)
    requires IsAssocComm(op) && w > 0 && AllHave(terms, s, w)
    requires !acc.BadWidth? && FoldedFits(acc, w)
    ensures SplitsAs(op, terms, acc, FoldConstants(op, terms, acc), s, w)
  {
    if terms != [] {
      var t := terms[0];
      assert Has(t, s, w);
      if t.Const? {
        FoldConstantMeaning(op, acc, t.value, w);
        var next := FoldConstant(op, acc, t.value, t.width);
        ConstantsMeaning(op, terms[1..], next, s, w);
        SplitConstant(op, terms, acc, next, FoldConstants(op, terms, acc), s, w);
      } else {
        ConstantsMeaning(op, terms[1..], acc, s, w);
        SplitNonConstant(op, terms, acc, FoldConstants(op, terms, acc), s, w);
      }
    }
  }

  lemma SplitConstant(op: BinOp, terms: seq<Expr>, acc: Folded, next: Folded, folded: Folded, s: MachineState, w: nat)
    requires IsAssocComm(op) && w > 0 && terms != [] && AllHave(terms, s, w) && terms[0].Const?
    requires FoldedFits(acc, w) && next.Folded? && FoldedFits(next, w) && Has(terms[0], s, w)
    requires next.value == BinVal(op, FoldedVal(op, acc, w), Val(terms[0], s), w)
    requires SplitsAs(op, terms[1..], next, folded, s, w)
    ensures SplitsAs(op, terms, acc, folded, s, w)
  {
    assert NonConstants(terms) == NonConstants(terms[1..]);
    Associates(op, FoldedVal(op, acc, w), Val(terms[0], s), Fold(op, terms[1..], s, w), w);
  }

  lemma SplitNonConstant(op: BinOp, terms: seq<Expr>, acc: Folded, folded: Folded, s: MachineState, w: nat)
    requires IsAssocComm(op) && w > 0 && terms != [] && AllHave(terms, s, w) && !terms[0].Const?
    requires FoldedFits(acc, w) && SplitsAs(op, terms[1..], acc, folded, s, w)
    ensures SplitsAs(op, terms, acc, folded, s, w)
  {
    var rest := terms[1..];
    assert Has(terms[0], s, w);
    assert NonConstants(terms)[1..] == NonConstants(rest);
    SwapInner(op, FoldedVal(op, acc, w), Val(terms[0], s), Fold(op, rest, s, w), w);
    SwapInner(op, FoldedVal(op, folded, w), Val(terms[0], s), Fold(op, NonConstants(rest), s, w), w);
  }

  lemma FoldConstantMeaning(op: BinOp, acc: Folded, value: nat, w: nat)
    requires IsAssocComm(op) && w > 0 && !acc.BadWidth? && FoldedFits(acc, w)
    ensures var next := FoldConstant(op, acc, value, w);
      && next.Folded? && FoldedFits(next, w)
      && next.value == BinVal(op, FoldedVal(op, acc, w), value % Pow2(w), w)
  {
    var v := value % Pow2(w);
    UnitLaw(op, v, w);
    Commutes(op, v, Unit(op, w), w);
    if acc.Folded? { SmallMod(acc.value, Pow2(w)); }
  }

  lemma SwapInner(op: BinOp, a: nat, v: nat, f: nat, w: nat)
    requires IsAssocComm(op) && w > 0 && Fits(a, w) && Fits(v, w) && Fits(f, w)
    ensures BinVal(op, a, BinVal(op, v, f, w), w) == BinVal(op, v, BinVal(op, a, f, w), w)
  {
    Associates(op, a, v, f, w);
    Associates(op, v, a, f, w);
    Commutes(op, a, v, w);
  }

  lemma ReduceMeaning(op: BinOp, terms: seq<Expr>, le: Order, s: MachineState, w: nat)
    requires IsAssocComm(op) && w > 0 && terms != [] && AllHave(terms, s, w) && MemoryWellFormed(s)
    ensures var (reduced, folded) := ReduceTerms(op, terms, le);
      && AllHave(reduced, s, w) && !folded.BadWidth? && FoldedFits(folded, w)
      && Fold(op, terms, s, w) == BinVal(op, FoldedVal(op, folded, w), Fold(op, reduced, s, w), w)
      && (reduced == [] ==> folded.Folded?)
  {
    var folded := FoldConstants(op, terms, NoConst);
    var nonConstants := NonConstants(terms);
    var sorted := Sort(nonConstants, le);
    ConstantsMeaning(op, terms, NoConst, s, w);
    UnitLaw(op, Fold(op, terms, s, w), w);
    Commutes(op, Fold(op, terms, s, w), Unit(op, w), w);
    SortMeaning(op, nonConstants, le, s, w);
    SortKeepsCount(nonConstants, le);
    if op == And || op == Or {
      DedupMeaning(op, sorted, s, w);
      DedupNonEmpty(sorted);
    } else if op == Xor {
      CancelMeaning(sorted, if folded.Folded? then Some(folded.width) else None, s, w);
      SmallMod(0, Pow2(w));
    }
  }

  lemma {:induction false} SortKeepsCount(terms: seq<Expr>, le: Order)
    ensures |Sort(terms, le)| == |terms|
  {
    if terms != [] {
      SortKeepsCount(terms[1..], le);
      InsertCount(terms[0], Sort(terms[1..], le), le);
    }
  }

  lemma {:induction false} InsertCount(t: Expr, sorted: seq<Expr>, le: Order)
    ensures |Insert(t, sorted, le)| == |sorted| + 1
  {
    if sorted != [] && !le(t, sorted[0]) { InsertCount(t, sorted[1..], le); }
  }

  lemma {:induction false} DedupNonEmpty(terms: seq<Expr>)
    ensures terms != [] ==> Dedup(terms) != []
  {
    if |terms| > 1 { DedupNonEmpty(terms[1..]); }
  }

  // ----- complementary pairs -----

  /** Combining the whole once more with one of its terms changes nothing. */
  lemma {:induction false} FoldContains(op: BinOp, terms: seq<Expr>, k: nat, s: MachineState, w: nat)
    requires (op == And || op == Or) && w > 0 && k < |terms| && AllHave(terms, s, w)
    ensures Has(terms[k], s, w)
    ensures BinVal(op, Fold(op, terms, s, w), Val(terms[k], s), w) == Fold(op, terms, s, w)
  {
    var h, f := Val(terms[0], s), Fold(op, terms[1..], s, w);
    assert Has(terms[0], s, w) && Has(terms[k], s, w);
    if k == 0 {
      Commutes(op, BinVal(op, h, f, w), h, w);
      Associates(op, h, h, f, w);
      Repeats(op, h, w);
    } else {
      FoldContains(op, terms[1..], k - 1, s, w);
      Associates(op, h, f, Val(terms[k], s), w);
    }
  }

  lemma ComplementaryMeaning(op: BinOp, terms: seq<Expr>, s: MachineState, w: nat)
    requires (op == And || op == Or) && w > 0 && AllHave(terms, s, w) && HasComplementaryPair(terms)
    ensures Fold(op, terms, s, w) == if op == And then 0 else Mask(w)
  {
    var i, j :| 0 <= i < j < |terms| && Complementary(terms[i], terms[j]);
    FoldContains(op, terms, i, s, w);
    FoldContains(op, terms, j, s, w);
    var a, b, f := Val(terms[i], s), Val(terms[j], s), Fold(op, terms, s, w);
    Associates(op, f, a, b, w);
    assert BinVal(op, a, b, w) == if op == And then 0 else Mask(w) by {
      if terms[i] == Not(terms[j]) { Complement(b, w); Commutes(op, a, b, w); } else { Complement(a, w); }
    }
    BitwiseAnnihilates(f, w);
  }

  lemma WithConstantMeaning(op: BinOp, terms: seq<Expr>, v: nat, s: MachineState, w: nat)
    requires IsAssocComm(op) && w > 0 && AllHave(terms, s, w) && v < Pow2(w)
    ensures var c, all := Const(v, w), Rebuild(op, terms + [Const(v, w)]);
      && Has(c, s, w) && Val(c, s) == v
      && Has(all, s, w) && Val(all, s) == BinVal(op, v, Fold(op, terms, s, w), w)
  {
    var c := Const(v, w);
    SmallMod(v, Pow2(w));
    assert Has(c, s, w) && Val(c, s) == v;
    FoldOne(op, c, s, w);
    FoldConcat(op, terms, [c], s, w);
    RebuildMeaning(op, terms + [c], s, w);
    Commutes(op, Fold(op, terms, s, w), v, w);
  }

  lemma AssembleMeaning(op: BinOp, terms: seq<Expr>, folded: Folded, s: MachineState, w: nat)
    requires IsAssocComm(op) && w > 0 && AllHave(terms, s, w) && !folded.BadWidth? && FoldedFits(folded, w)
    requires terms == [] ==> folded.Folded?
    ensures var r := AssembleTerms(op, terms, folded);
      && r.Done? && r.obligations == {} && Has(r.value, s, w)
      && Val(r.value, s) == BinVal(op, FoldedVal(op, folded, w), Fold(op, terms, s, w), w)
  {
    hide BinVal, Fold, AllHave, Rebuild, Eval, IsAnnihilator, IsIdentity;
    if folded.Folded? {
      AssembleWithConstant(op, terms, folded.value, s, w);
    } else {
      var f := Fold(op, terms, s, w);
      UnitLaw(op, f, w);
      Commutes(op, f, Unit(op, w), w);
      RebuildMeaning(op, terms, s, w);
    }
  }

  lemma AssembleWithConstant(op: BinOp, terms: seq<Expr>, v: nat, s: MachineState, w: nat)
    requires IsAssocComm(op) && w > 0 && AllHave(terms, s, w) && v < Pow2(w)
    ensures var r := AssembleTerms(op, terms, Folded(v, w));
      && r.Done? && r.obligations == {} && Has(r.value, s, w)
      && Val(r.value, s) == BinVal(op, v, Fold(op, terms, s, w), w)
  {
    hide BinVal, Fold, AllHave, Rebuild, Eval, IsAnnihilator, IsIdentity;
    var f := Fold(op, terms, s, w);
    if IsAnnihilator(op, v, w) {
      AnnihilatorMeaning(op, v, f, w);
      ConstantHas(v, s, w);
    } else if !IsIdentity(op, v, w) || terms == [] {
      WithConstantMeaning(op, terms, v, s, w);
    } else {
      IdentityIsUnit(op, v, w);
      UnitLaw(op, f, w);
      Commutes(op, f, v, w);
      RebuildMeaning(op, terms, s, w);
    }
  }

  lemma ConstantHas(v: nat, s: MachineState, w: nat)
    requires w > 0 && v < Pow2(w)
    ensures Has(Const(v, w), s, w) && Val(Const(v, w), s) == v
  {
    SmallMod(v, Pow2(w));
  }

  lemma IdentityIsUnit(op: BinOp, v: nat, w: nat)
    requires IsAssocComm(op) && IsIdentity(op, v, w) && w > 0 && v < Pow2(w)
    ensures v == Unit(op, w)
  {
  }

  lemma AnnihilatorMeaning(op: BinOp, v: nat, f: nat, w: nat)
    requires IsAssocComm(op) && w > 0 && v < Pow2(w) && f < Pow2(w) && IsAnnihilator(op, v, w)
    ensures BinVal(op, v, f, w) == v
  {
    BitwiseAnnihilates(f, w);
    Commutes(op, f, v, w);
    if op == Mul { SmallMod(0, Pow2(w)); assert f * 0 == 0; }
  }

  lemma {:induction false} FirstWidthIs(terms: seq<Expr>, s: MachineState, w: nat)
    requires AllHave(terms, s, w) && MemoryWellFormed(s)
    ensures terms != [] ==> FirstWidth(terms) == Some(w)
  {
    if terms != [] {
      assert Has(terms[0], s, w);
      EvalHasStaticWidth(terms[0], s);
    }
  }

  /** Sorting, cancellation, complements and constant folding keep the combined value. */
  lemma CombineMeaning(op: BinOp, terms: seq<Expr>, le: Order, s: MachineState, w: nat)
    requires IsAssocComm(op) && w > 0 && terms != [] && AllHave(terms, s, w) && MemoryWellFormed(s)
    ensures var r := CombineTerms(op, terms, le);
      r.Done? && r.obligations == {} && Has(r.value, s, w) && Val(r.value, s) == Fold(op, terms, s, w)
  {
    var (reduced, folded) := ReduceTerms(op, terms, le);
    ReduceMeaning(op, terms, le, s, w);
    FirstWidthIs(reduced, s, w);
    if (op == And || op == Or) && HasComplementaryPair(reduced) {
      ComplementaryMeaning(op, reduced, s, w);
      BitwiseAnnihilates(FoldedVal(op, folded, w), w);
      SmallMod(if op == And then 0 else Mask(w), Pow2(w));
    } else {
      AssembleMeaning(op, reduced, folded, s, w);
    }
  }
}
