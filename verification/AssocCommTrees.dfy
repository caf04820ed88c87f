/** Trees of an associative and commutative operator over the same terms have one canonical form. */
module AssocCommTrees {
  import opened Words
  import opened Exprs
  import opened Canonicalizer
  import opened TreeShapes
  import opened AbsorptionLimits
  import opened CanonicalizerFuel
  import opened TermOrder

  // ----- what is absorbed -----

  /** A leaf of the term, a tree of the opposite operator, has the canonical form of the other term. */
  ghost predicate LeafHasForm(op: BinOp, t: Expr, other: Expr, le: Order, fuel: nat)
  {
    var c := Canonicalize(other, le, fuel);
    c.Done? && exists l :: l in Flatten(Opposite(op), t) && HasForm(l, c.value, le, fuel)
  }

  /** The term is absorbed by another one of the terms, in whatever order they are. */
  ghost predicate AbsorbedAmong(op: BinOp, t: Expr, terms: multiset<Expr>, le: Order, fuel: nat)
  {
    IsTree(Opposite(op), t) && exists u :: u in terms - multiset{t} && LeafHasForm(op, t, u, le, fuel)
  }

  lemma {:induction false} FormsOf(terms: seq<Expr>, i: nat, le: Order, fuel: nat)
    requires i < |terms| && CanonicalizeAll(terms, le, fuel).Done?
    ensures |CanonicalizeAll(terms, le, fuel).value| == |terms| && Canonicalize(terms[i], le, fuel).Done?
    ensures CanonicalizeAll(terms, le, fuel).value[i] == Canonicalize(terms[i], le, fuel).value
    decreases |terms|
  {
    hide Canonicalize;
    if i > 0 {
      FormsOf(terms[1..], i - 1, le, fuel);
    } else {
      AsManyForms(terms, le, fuel);
    }
  }

  lemma {:induction false} AsManyForms(terms: seq<Expr>, le: Order, fuel: nat)
    requires CanonicalizeAll(terms, le, fuel).Done?
    ensures |CanonicalizeAll(terms, le, fuel).value| == |terms|
  {
    hide Canonicalize;
    if terms != [] { AsManyForms(terms[1..], le, fuel); }
  }

  lemma OtherTerm(terms: seq<Expr>, i: nat, j: nat)
    requires i < |terms| && j < |terms| && i != j
    ensures terms[j] in multiset(terms) - multiset{terms[i]}
  {
    TakenOut(terms, i);
    var rest := terms[..i] + terms[i + 1..];
    if j < i { assert rest[j] == terms[j]; } else { assert rest[j - 1] == terms[j]; }
    assert terms[j] in rest;
  }

  lemma OtherIndex(terms: seq<Expr>, i: nat, u: Expr) returns (j: nat)
    requires i < |terms| && u in multiset(terms) - multiset{terms[i]}
    ensures j < |terms| && j != i && terms[j] == u
  {
    TakenOut(terms, i);
    var rest := terms[..i] + terms[i + 1..];
    assert u in rest;
    var k :| 0 <= k < |rest| && rest[k] == u;
    j := if k < i then k else k + 1;
  }

  /** Whether a term is absorbed does not depend on where it stands. */
  lemma AbsorbedAnywhere(op: BinOp, terms: seq<Expr>, i: nat, le: Order, fuel: nat)
    requires i < |terms| && CanonicalizeAll(terms, le, fuel).Done?
    ensures Absorbed(op, terms, CanonicalizeAll(terms, le, fuel).value, i, le, fuel)
            <==> AbsorbedAmong(op, terms[i], multiset(terms), le, fuel)
  {
    hide Canonicalize, CanonicalizeAll, HasForm, Flatten;
    var c := CanonicalizeAll(terms, le, fuel).value;
    AsManyForms(terms, le, fuel);
    if j: nat :| Absorbs(op, terms, c, i, j, le, fuel) {
      FormsOf(terms, j, le, fuel);
      OtherTerm(terms, i, j);
      assert LeafHasForm(op, terms[i], terms[j], le, fuel);
    }
    if AbsorbedAmong(op, terms[i], multiset(terms), le, fuel) {
      var u :| u in multiset(terms) - multiset{terms[i]} && LeafHasForm(op, terms[i], u, le, fuel);
      var j := OtherIndex(terms, i, u);
      FormsOf(terms, j, le, fuel);
      assert Absorbs(op, terms, c, i, j, le, fuel);
    }
  }

  lemma {:induction false} RetainCounts(terms: seq<Expr>, absorbers: seq<Option<nat>>, dropped: set<Expr>, t: Expr)
    requires |terms| == |absorbers| && forall i | 0 <= i < |terms| :: absorbers[i].Some? <==> terms[i] in dropped
    ensures multiset(Retain(terms, absorbers))[t] == if t in dropped then 0 else multiset(terms)[t]
  {
    if terms != [] {
      forall i | 0 <= i < |terms[1..]| ensures absorbers[1..][i].Some? <==> terms[1..][i] in dropped {
        assert absorbers[i + 1].Some? <==> terms[i + 1] in dropped;
      }
      RetainCounts(terms[1..], absorbers[1..], dropped, t);
      HeadSplits(terms);
      assert absorbers[0].Some? <==> terms[0] in dropped;
    }
  }

  ghost function Dropped(op: BinOp, terms: seq<Expr>, le: Order, fuel: nat): set<Expr>
  {
    set t | t in terms && AbsorbedAmong(op, t, multiset(terms), le, fuel)
  }

  lemma DroppedPermuted(op: BinOp, a: seq<Expr>, b: seq<Expr>, le: Order, fuel: nat)
    requires multiset(a) == multiset(b)
    ensures Dropped(op, a, le, fuel) == Dropped(op, b, le, fuel)
  {
    hide AbsorbedAmong;
    forall t ensures t in a <==> t in b {
      assert t in a <==> t in multiset(a);
      assert t in b <==> t in multiset(b);
    }
  }

  lemma RemovalCounts(op: BinOp, terms: seq<Expr>, le: Order, fuel: nat, t: Expr)
    requires (op == And || op == Or) && RemoveAbsorbed(op, terms, le, fuel).Done?
    ensures multiset(RemoveAbsorbed(op, terms, le, fuel).value)[t]
         == if t in Dropped(op, terms, le, fuel) then 0 else multiset(terms)[t]
  {
    hide CanonicalizeAll, Absorbers, Absorbed, AbsorbedAmong;
    var c := CanonicalizeAll(terms, le, fuel).value;
    var absorbers := Absorbers(Opposite(op), terms, c, 0, le, fuel).value;
    forall i | 0 <= i < |terms| ensures absorbers[i].Some? <==> terms[i] in Dropped(op, terms, le, fuel) {
      TableExact(op, terms, c, 0, i, le, fuel);
      AbsorbedAnywhere(op, terms, i, le, fuel);
    }
    RetainCounts(terms, absorbers, Dropped(op, terms, le, fuel), t);
  }

  /** The terms that are left do not depend on the order of the terms. */
  lemma RemovalPermuted(op: BinOp, a: seq<Expr>, b: seq<Expr>, le: Order, fuel: nat)
    requires multiset(a) == multiset(b)
    requires RemoveAbsorbed(op, a, le, fuel).Done? && RemoveAbsorbed(op, b, le, fuel).Done?
    ensures multiset(RemoveAbsorbed(op, a, le, fuel).value) == multiset(RemoveAbsorbed(op, b, le, fuel).value)
  {
    hide RemoveAbsorbed, Dropped;
    if op == And || op == Or {
      DroppedPermuted(op, a, b, le, fuel);
      forall t
        ensures multiset(RemoveAbsorbed(op, a, le, fuel).value)[t] == multiset(RemoveAbsorbed(op, b, le, fuel).value)[t]
      {
        RemovalCounts(op, a, le, fuel, t);
        RemovalCounts(op, b, le, fuel, t);
      }
    } else {
      NothingRemoved(op, a, le, fuel);
      NothingRemoved(op, b, le, fuel);
    }
  }

  lemma NothingRemoved(op: BinOp, terms: seq<Expr>, le: Order, fuel: nat)
    requires op != And && op != Or
    ensures RemoveAbsorbed(op, terms, le, fuel) == Done(terms, {})
  {
  }

  // ----- the terms of the canonical forms -----

  function FormLeaves(op: BinOp, t: Expr, le: Order, fuel: nat): multiset<Expr>
  {
    var c := Canonicalize(t, le, fuel);
    if c.Done? then multiset(Flatten(op, c.value)) else multiset{}
  }

  function AllFormLeaves(op: BinOp, terms: seq<Expr>, le: Order, fuel: nat): multiset<Expr>
  {
    if terms == [] then multiset{}
    else FormLeaves(op, terms[0], le, fuel) + AllFormLeaves(op, terms[1..], le, fuel)
  }

  lemma {:induction false} FormLeavesAre(op: BinOp, terms: seq<Expr>, le: Order, fuel: nat)
    requires CanonicalizeAll(terms, le, fuel).Done?
    ensures multiset(FlattenAll(op, CanonicalizeAll(terms, le, fuel).value)) == AllFormLeaves(op, terms, le, fuel)
  {
    hide Canonicalize, Flatten;
    if terms != [] {
      FormLeavesAre(op, terms[1..], le, fuel);
      var first, rest := Canonicalize(terms[0], le, fuel).value, CanonicalizeAll(terms[1..], le, fuel).value;
      assert ([first] + rest)[1..] == rest;
    }
  }

  lemma {:induction false} FormLeavesWithout(op: BinOp, terms: seq<Expr>, k: nat, le: Order, fuel: nat)
    requires k < |terms|
    ensures AllFormLeaves(op, terms, le, fuel)
         == FormLeaves(op, terms[k], le, fuel) + AllFormLeaves(op, terms[..k] + terms[k + 1..], le, fuel)
    decreases |terms|
  {
    hide FormLeaves;
    if k == 0 {
      assert terms[..0] + terms[1..] == terms[1..];
    } else {
      FormLeavesWithout(op, terms[1..], k - 1, le, fuel);
      var without := terms[..k] + terms[k + 1..];
      assert without[1..] == terms[1..][..k - 1] + terms[1..][k..];
    }
  }

  lemma {:induction false} FormLeavesPermuted(op: BinOp, a: seq<Expr>, b: seq<Expr>, le: Order, fuel: nat)
    requires multiset(a) == multiset(b)
    ensures AllFormLeaves(op, a, le, fuel) == AllFormLeaves(op, b, le, fuel)
    decreases |a|
  {
    hide FormLeaves;
    assert |a| == |multiset(a)| == |multiset(b)| == |b|;
    if a == [] {
      assert b == [];
    } else {
      assert a[0] in multiset(b);
      var k :| 0 <= k < |b| && b[k] == a[0];
      FormLeavesWithout(op, b, k, le, fuel);
      HeadSplits(a);
      TakenOut(b, k);
      assert multiset(a[1..]) == multiset(a) - multiset{a[0]};
      FormLeavesPermuted(op, a[1..], b[..k] + b[k + 1..], le, fuel);
    }
  }

  // ----- the canonical form -----

  /** Two ways to group and order the same terms are combined to the same expression. */
  lemma SameCombination(op: BinOp, l1: Expr, r1: Expr, l2: Expr, r2: Expr, le: Order, fuel: nat)
    requires LinearOrder(le) && IsAssocComm(op)
    requires multiset(Flatten(op, l1) + Flatten(op, r1)) == multiset(Flatten(op, l2) + Flatten(op, r2))
    requires CanonicalizeAssocComm(op, l1, r1, le, fuel).Done? && CanonicalizeAssocComm(op, l2, r2, le, fuel).Done?
    ensures CanonicalizeAssocComm(op, l1, r1, le, fuel).value == CanonicalizeAssocComm(op, l2, r2, le, fuel).value
  {
    hide LinearOrder, RemoveAbsorbed, CanonicalizeAll, CombineTerms, Flatten, FlattenAll, AllFormLeaves;
    var a, b := Flatten(op, l1) + Flatten(op, r1), Flatten(op, l2) + Flatten(op, r2);
    RemovalPermuted(op, a, b, le, fuel);
    var x, y := RemoveAbsorbed(op, a, le, fuel).value, RemoveAbsorbed(op, b, le, fuel).value;
    FormLeavesPermuted(op, x, y, le, fuel);
    FormLeavesAre(op, x, le, fuel);
    FormLeavesAre(op, y, le, fuel);
    CombinePermuted(op, FlattenAll(op, CanonicalizeAll(x, le, fuel).value),
                    FlattenAll(op, CanonicalizeAll(y, le, fuel).value), le);
  }

  lemma BinUnfolds(e: Expr, le: Order, fuel: nat)
    requires e.Bin? && fuel > 0
    ensures Canonicalize(e, le, fuel) == CanonicalizeBin(e.op, e.lhs, e.rhs, le, fuel - 1)
  {
    hide CanonicalizeBin;
  }

  lemma FlattenSplits(op: BinOp, e: Expr)
    requires IsTree(op, e)
    ensures Flatten(op, e) == Flatten(op, e.lhs) + Flatten(op, e.rhs)
  {
  }

  lemma SameTree(op: BinOp, e: Expr, f: Expr, le: Order, fuel: nat)
    requires LinearOrder(le) && IsAssocComm(op) && IsTree(op, e) && IsTree(op, f)
    requires multiset(Flatten(op, e)) == multiset(Flatten(op, f))
    requires fuel > 0 && Canonicalize(e, le, fuel).Done? && Canonicalize(f, le, fuel).Done?
    ensures Canonicalize(e, le, fuel).value == Canonicalize(f, le, fuel).value
  {
    hide LinearOrder, Canonicalize, CanonicalizeBin, CanonicalizeAssocComm, FinishTree, Flatten;
    BinUnfolds(e, le, fuel);
    BinUnfolds(f, le, fuel);
    FlattenSplits(op, e);
    FlattenSplits(op, f);
    TreeUnfolds(op, e.lhs, e.rhs, le, fuel - 1);
    TreeUnfolds(op, f.lhs, f.rhs, le, fuel - 1);
    SameCombination(op, e.lhs, e.rhs, f.lhs, f.rhs, le, fuel - 1);
  }

  lemma {:induction false} ManyLeaves(op: BinOp, e: Expr)
    ensures IsTree(op, e) ==> |Flatten(op, e)| > 1
    ensures !IsTree(op, e) ==> Flatten(op, e) == [e]
  {
  }

  /** Expressions with the same terms under an associative and commutative operator, grouped and ordered in whatever
      way, have the same canonical form. */
  lemma TreesAgree(op: BinOp, e: Expr, f: Expr, le: Order, m: nat, n: nat)
    requires LinearOrder(le) && IsAssocComm(op) && multiset(Flatten(op, e)) == multiset(Flatten(op, f))
    requires Canonicalize(e, le, m).Done? && Canonicalize(f, le, n).Done?
    ensures Canonicalize(e, le, m).value == Canonicalize(f, le, n).value
  {
    hide LinearOrder, Canonicalize, Flatten;
    var fuel := if m < n then n else m;
    FuelIsIrrelevant(e, le, m, fuel);
    FuelIsIrrelevant(f, le, n, fuel);
    ManyLeaves(op, e);
    ManyLeaves(op, f);
    assert |Flatten(op, e)| == |multiset(Flatten(op, e))| == |Flatten(op, f)|;
    if IsTree(op, e) {
      NoFuelNoResult(e, le, fuel);
      SameTree(op, e, f, le, fuel);
    } else {
      assert e in multiset(Flatten(op, f));
    }
  }

  lemma NoFuelNoResult(e: Expr, le: Order, fuel: nat)
    requires Canonicalize(e, le, fuel).Done?
    ensures fuel > 0
  {
  }

  /** The order of two operands does not matter. */
  lemma OperandsCommute(op: BinOp, lhs: Expr, rhs: Expr, le: Order, m: nat, n: nat)
    requires LinearOrder(le) && IsAssocComm(op)
    requires Canonicalize(Bin(op, lhs, rhs), le, m).Done? && Canonicalize(Bin(op, rhs, lhs), le, n).Done?
    ensures Canonicalize(Bin(op, lhs, rhs), le, m).value == Canonicalize(Bin(op, rhs, lhs), le, n).value
  {
    hide LinearOrder, Canonicalize;
    TreesAgree(op, Bin(op, lhs, rhs), Bin(op, rhs, lhs), le, m, n);
  }
}
