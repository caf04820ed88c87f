/** When dropping absorbed terms is valid: terms that absorb each other in a circle vanish together. */
module AbsorptionLimits {
  import opened Words
  import opened WordLaws
  import opened Exprs
  import opened Canonicalizer
  import opened TreeShapes
  import opened CanonicalizerMeaning
  import opened CanonicalizerSound
  import opened CanonicalizerTheorems

  ghost predicate IndicesOk(absorbers: seq<Option<nat>>)
  {
    forall i | 0 <= i < |absorbers| :: absorbers[i].Some? ==> absorbers[i].value < |absorbers|
  }

  /** Some chain of absorbers from `i` ends at a kept term. */
  ghost predicate Rooted(absorbers: seq<Option<nat>>, i: nat)
  {
    exists steps: nat :: ReachesKept(absorbers, i, steps)
  }

  lemma {:induction false} ReachesKeptMono(absorbers: seq<Option<nat>>, i: nat, m: nat, n: nat)
    requires m <= n && ReachesKept(absorbers, i, m)
    ensures ReachesKept(absorbers, i, n)
    decreases m
  {
    if absorbers[i].Some? { ReachesKeptMono(absorbers, absorbers[i].value, m - 1, n - 1); }
  }

  lemma RootedStep(absorbers: seq<Option<nat>>, i: nat)
    requires i < |absorbers| && absorbers[i].Some?
    ensures Rooted(absorbers, i) <==> Rooted(absorbers, absorbers[i].value)
  {
    var j := absorbers[i].value;
    if Rooted(absorbers, i) {
      var n: nat :| ReachesKept(absorbers, i, n);
      assert ReachesKept(absorbers, j, n - 1);
    }
    if Rooted(absorbers, j) {
      var n: nat :| ReachesKept(absorbers, j, n);
      assert ReachesKept(absorbers, i, n + 1);
    }
  }

  /** The constants that defeat an unanchored table: neutral where anchored, annihilating elsewhere. */
  ghost function Witness(op: BinOp, absorbers: seq<Option<nat>>, w: nat): (terms: seq<Expr>)
    requires (op == And || op == Or) && w > 0
    ensures |terms| == |absorbers|
  {
    seq(|absorbers|, i requires 0 <= i < |absorbers| =>
      Const(if Rooted(absorbers, i) then Unit(op, w) else Annihilator(op, w), w))
  }

  function Annihilator(op: BinOp, w: nat): (v: nat)
    ensures v < Pow2(w)
  {
    if op == And then 0 else Mask(w)
  }

  lemma {:induction false} FoldUnits(op: BinOp, terms: seq<Expr>, s: MachineState, w: nat)
    requires (op == And || op == Or) && w > 0 && AllHave(terms, s, w)
    requires forall t | t in terms :: Val(t, s) == Unit(op, w)
    ensures Fold(op, terms, s, w) == Unit(op, w)
  {
    if terms != [] {
      FoldUnits(op, terms[1..], s, w);
      assert Val(terms[0], s) == Unit(op, w);
      UnitLaw(op, Unit(op, w), w);
    }
  }

  /** Anchoring is needed: an unanchored table of absorbers fits terms whose value it changes. */
  lemma AnchoringIsNeeded(op: BinOp, absorbers: seq<Option<nat>>, s: MachineState, w: nat)
    requires (op == And || op == Or) && w > 0 && IndicesOk(absorbers)
    requires exists i: nat :: i < |absorbers| && !Rooted(absorbers, i)
    ensures var terms := Witness(op, absorbers, w);
      && AllHave(terms, s, w) && AllAbsorbersOk(op, terms, absorbers, s, w)
      && AllHave(Retain(terms, absorbers), s, w)
      && Fold(op, Retain(terms, absorbers), s, w) != Fold(op, terms, s, w)
  {
    var terms := Witness(op, absorbers, w);
    var unit, zero := Unit(op, w), Annihilator(op, w);
    SmallMod(unit, Pow2(w));
    SmallMod(zero, Pow2(w));
    forall i | 0 <= i < |terms|
      ensures Has(terms[i], s, w) && Val(terms[i], s) == if Rooted(absorbers, i) then unit else zero
    {
    }
    forall i | 0 <= i < |terms| ensures AbsorberOk(op, terms[i], terms, absorbers[i], s, w) {
      if absorbers[i].Some? {
        RootedStep(absorbers, i);
        Repeats(op, Val(terms[i], s), w);
      }
    }
    RetainFromKept(terms, absorbers);
    forall t | t in Retain(terms, absorbers) ensures Has(t, s, w) && Val(t, s) == unit {
      var i :| 0 <= i < |terms| && terms[i] == t && absorbers[i].None?;
      assert ReachesKept(absorbers, i, 0);
    }
    FoldUnits(op, Retain(terms, absorbers), s, w);
    var k: nat :| k < |absorbers| && !Rooted(absorbers, k);
    FoldContains(op, terms, k, s, w);
    BitwiseAnnihilates(Fold(op, terms, s, w), w);
    Pow2Mono(1, w);
    assert Pow2(1) == 2 * Pow2(0);
  }

  lemma {:induction false} RetainFromKept(terms: seq<Expr>, absorbers: seq<Option<nat>>)
    requires |terms| == |absorbers|
    ensures forall t | t in Retain(terms, absorbers) ::
              exists i :: 0 <= i < |terms| && terms[i] == t && absorbers[i].None?
  {
    if terms != [] {
      RetainFromKept(terms[1..], absorbers[1..]);
      forall t | t in Retain(terms, absorbers)
        ensures exists i :: 0 <= i < |terms| && terms[i] == t && absorbers[i].None?
      {
        if t in Retain(terms[1..], absorbers[1..]) {
          var i :| 0 <= i < |terms[1..]| && terms[1..][i] == t && absorbers[1..][i].None?;
          assert terms[i + 1] == t && absorbers[i + 1].None?;
        }
      }
    }
  }

  ghost function Indices(n: nat): (r: set<nat>)
    ensures |r| == n && forall k: nat :: k in r <==> k < n
  {
    if n == 0 then {} else Indices(n - 1) + {n - 1}
  }

  /** Chains need at most as many steps as there are terms. */
  lemma RootedIsAnchored(absorbers: seq<Option<nat>>, i: nat)
    requires Rooted(absorbers, i)
    ensures ReachesKept(absorbers, i, |absorbers|)
  {
    var n: nat :| ReachesKept(absorbers, i, n);
    ShortChain(absorbers, i, n, {}, Indices(|absorbers|));
  }

  /** A chain that avoids the visited indices is no longer than the indices left. */
  lemma {:induction false} ShortChain(absorbers: seq<Option<nat>>, i: nat, n: nat, visited: set<nat>, left: set<nat>)
    requires ReachesKept(absorbers, i, n)
    requires forall k: nat | k < |absorbers| :: k in left || k in visited
    requires forall k | k in left :: k < |absorbers|
    requires forall k | k in visited :: k < |absorbers| && !ReachesKept(absorbers, k, n)
    ensures ReachesKept(absorbers, i, |left|)
    decreases n
  {
    assert i !in visited;
    if absorbers[i].Some? {
      var j := absorbers[i].value;
      if ReachesKept(absorbers, i, n - 1) {
        forall k | k in visited ensures !ReachesKept(absorbers, k, n - 1) {
          if ReachesKept(absorbers, k, n - 1) { ReachesKeptMono(absorbers, k, n - 1, n); }
        }
        ShortChain(absorbers, i, n - 1, visited, left);
      } else {
        forall k | k in visited ensures !ReachesKept(absorbers, k, n - 1) {
          if ReachesKept(absorbers, k, n - 1) { ReachesKeptMono(absorbers, k, n - 1, n); }
        }
        ShortChain(absorbers, j, n - 1, visited + {i}, left - {i});
        assert |left - {i}| == |left| - 1;
      }
    }
  }

  /** For a table of absorbers, dropping terms is valid for every fitting list if and only if it is anchored. */
  lemma AnchoringExact(op: BinOp, absorbers: seq<Option<nat>>, s: MachineState, w: nat)
    requires (op == And || op == Or) && w > 0 && IndicesOk(absorbers)
    ensures AllAnchored(absorbers) <==>
            forall terms: seq<Expr> | AllHave(terms, s, w) && AllAbsorbersOk(op, terms, absorbers, s, w) ::
              AllHave(Retain(terms, absorbers), s, w)
              && Fold(op, Retain(terms, absorbers), s, w) == Fold(op, terms, s, w)
  {
    if AllAnchored(absorbers) {
      forall terms: seq<Expr> | AllHave(terms, s, w) && AllAbsorbersOk(op, terms, absorbers, s, w)
        ensures AllHave(Retain(terms, absorbers), s, w)
                && Fold(op, Retain(terms, absorbers), s, w) == Fold(op, terms, s, w)
      {
        RetainMeaning(op, terms, absorbers, s, w);
      }
    } else {
      var i: nat :| i < |absorbers| && !ReachesKept(absorbers, i, |absorbers|);
      if Rooted(absorbers, i) { RootedIsAnchored(absorbers, i); }
      AnchoringIsNeeded(op, absorbers, s, w);
      var terms := Witness(op, absorbers, w);
      assert AllHave(terms, s, w) && AllAbsorbersOk(op, terms, absorbers, s, w);
    }
  }

  // ----- the table the pass computes -----

  /** Against the table computed for the terms, the pass keeps their value if and only if the absorption it
      reports holds in the state. */
  lemma RemovalExact(op: BinOp, terms: seq<Expr>, le: Order, fuel: nat, s: MachineState, w: nat)
    requires (op == And || op == Or) && w > 0 && MemoryWellFormed(s) && terms != [] && AllHave(terms, s, w)
    requires var c := CanonicalizeAll(terms, le, fuel); c.Done? && AllHold(c.obligations, s)
    requires var a := Absorbers(Opposite(op), terms, CanonicalizeAll(terms, le, fuel).value, 0, le, fuel);
      a.Done? && AllHold(a.obligations, s)
    ensures var r, a := RemoveAbsorbed(op, terms, le, fuel),
                        Absorbers(Opposite(op), terms, CanonicalizeAll(terms, le, fuel).value, 0, le, fuel).value;
      && r.Done? && AllHave(r.value, s, w)
      && (Fold(op, r.value, s, w) == Fold(op, terms, s, w) <==> Holds(Absorption(op, terms, a), s))
  {
    forall e ensures SoundAt(e, Canonicalize(e, le, fuel), s) { CanonicalizePreservesMeaning(e, le, fuel, s); }
    TableSound(op, terms, le, fuel, s, w);
    var a := Absorbers(Opposite(op), terms, CanonicalizeAll(terms, le, fuel).value, 0, le, fuel).value;
    RetainExact(op, terms, a, s, w);
    OnlyWidth(op, terms, a, s, w);
  }

  /** The terms have one width only. */
  lemma OnlyWidth(op: BinOp, terms: seq<Expr>, absorbers: seq<Option<nat>>, s: MachineState, w: nat)
    requires (op == And || op == Or) && w > 0 && terms != [] && AllHave(terms, s, w) && |terms| == |absorbers|
    ensures Holds(Absorption(op, terms, absorbers), s) <==> LosesNothing(op, terms, absorbers, s, w)
  {
    forall v: nat | v > 0 && AllHave(terms, s, v) ensures v == w {
      assert Has(terms[0], s, v) && Has(terms[0], s, w);
    }
  }

  // ----- circles -----

  /** Every index but the last is absorbed by the next. */
  ghost predicate Walk(absorbers: seq<Option<nat>>, path: seq<nat>)
  {
    && (forall k | 0 <= k < |path| :: path[k] < |absorbers|)
    && forall k | 0 <= k < |path| - 1 :: absorbers[path[k]] == Some(path[k + 1])
  }

  predicate Closes(path: seq<nat>)
  {
    |path| > 1 && path[0] == path[|path| - 1]
  }

  ghost predicate Circular(absorbers: seq<Option<nat>>)
  {
    exists path :: Walk(absorbers, path) && Closes(path)
  }

  lemma {:induction false} CircleNeverKept(absorbers: seq<Option<nat>>, path: seq<nat>, k: nat, steps: nat)
    requires Walk(absorbers, path) && Closes(path) && k < |path|
    ensures !ReachesKept(absorbers, path[k], steps)
    decreases steps
  {
    var j := if k == |path| - 1 then 0 else k;
    assert absorbers[path[j]] == Some(path[j + 1]);
    if steps > 0 { CircleNeverKept(absorbers, path, j + 1, steps - 1); }
  }

  /** The walk from an index that does not reach a kept term in `steps` steps. */
  lemma {:induction false} WalkFrom(absorbers: seq<Option<nat>>, i: nat, steps: nat) returns (path: seq<nat>)
    requires IndicesOk(absorbers) && i < |absorbers| && !ReachesKept(absorbers, i, steps)
    ensures Walk(absorbers, path) && |path| == steps + 2 && path[0] == i
    decreases steps
  {
    var j := absorbers[i].value;
    if steps == 0 {
      path := [i, j];
    } else {
      var rest := WalkFrom(absorbers, j, steps - 1);
      path := [i] + rest;
      forall k | 0 <= k < |path| - 1 ensures absorbers[path[k]] == Some(path[k + 1]) {
        if k > 0 { assert absorbers[rest[k - 1]] == Some(rest[k]); }
      }
    }
  }

  lemma {:induction false} SubsetSize(a: set<nat>, b: set<nat>)
    requires a <= b
    ensures |a| <= |b|
  {
    if a != {} {
      var x :| x in a;
      SubsetSize(a - {x}, b - {x});
    }
  }

  lemma FirstRepeat(path: seq<nat>, n: nat) returns (p: nat, q: nat)
    requires |path| > n && forall k | 0 <= k < |path| :: path[k] < n
    ensures p < q < |path| && path[p] == path[q]
  {
    var seen: set<nat> := {};
    p, q := 0, 0;
    while q < |path|
      invariant q <= |path| && |seen| == q
      invariant forall x :: x in seen <==> x in path[..q]
    {
      if path[q] in seen {
        p :| 0 <= p < q && path[p] == path[q];
        return;
      }
      seen, q := seen + {path[q]}, q + 1;
    }
    SubsetSize(seen, Indices(n));
  }

  /** Every chain of a table ends at a kept term if and only if the table has no circle. */
  lemma AnchoredIffNoCircle(absorbers: seq<Option<nat>>)
    requires IndicesOk(absorbers)
    ensures AllAnchored(absorbers) <==> !Circular(absorbers)
  {
    if Circular(absorbers) {
      var path :| Walk(absorbers, path) && Closes(path);
      CircleNeverKept(absorbers, path, 0, |absorbers|);
    }
    if !AllAnchored(absorbers) {
      var i: nat :| i < |absorbers| && !ReachesKept(absorbers, i, |absorbers|);
      var path := WalkFrom(absorbers, i, |absorbers|);
      var p, q := FirstRepeat(path, |absorbers|);
      var circle := path[p..q + 1];
      forall k | 0 <= k < |circle| - 1 ensures absorbers[circle[k]] == Some(circle[k + 1]) {
        assert absorbers[path[p + k]] == Some(path[p + k + 1]);
      }
      assert Walk(absorbers, circle) && Closes(circle);
    }
  }

  /** Term `i` is a tree of the opposite operator with a leaf of the canonical form of term `j`. */
  ghost predicate Absorbs(op: BinOp, terms: seq<Expr>, canonical: seq<Expr>, i: nat, j: nat, le: Order, fuel: nat)
  {
    && i < |terms| && j < |canonical| && i != j && IsTree(Opposite(op), terms[i])
    && exists l :: l in Flatten(Opposite(op), terms[i]) && HasForm(l, canonical[j], le, fuel)
  }

  predicate HasForm(e: Expr, form: Expr, le: Order, fuel: nat)
  {
    var c := Canonicalize(e, le, fuel); c.Done? && c.value == form
  }

  /** Terms that absorb one another in a circle. */
  ghost predicate AbsorbInCircle(
    op: BinOp, terms: seq<Expr>, canonical: seq<Expr>, path: seq<nat>, le: Order, fuel: nat)
  {
    Closes(path) && forall k | 0 <= k < |path| - 1 :: Absorbs(op, terms, canonical, path[k], path[k + 1], le, fuel)
  }

  lemma {:induction false} FoundInLeaves(op: BinOp, e: Expr, needle: Expr, le: Order, fuel: nat) returns (l: Expr)
    requires var r := ContainsTerm(op, e, needle, le, fuel); r.Done? && r.value
    ensures l in Flatten(op, e) && HasForm(l, needle, le, fuel)
    decreases e
  {
    if e.Bin? && e.op == op {
      var left := ContainsTerm(op, e.lhs, needle, le, fuel);
      l := FoundInLeaves(op, if left.value then e.lhs else e.rhs, needle, le, fuel);
    } else {
      l := e;
    }
  }

  lemma {:induction false} LeafIsFound(op: BinOp, e: Expr, needle: Expr, l: Expr, le: Order, fuel: nat)
    requires ContainsTerm(op, e, needle, le, fuel).Done? && l in Flatten(op, e) && HasForm(l, needle, le, fuel)
    ensures ContainsTerm(op, e, needle, le, fuel).value
    decreases e
  {
    hide ContainsTerm, Canonicalize;
    if e.Bin? && e.op == op {
      ContainsUnfolds(op, e, needle, le, fuel);
      if l in Flatten(op, e.lhs) {
        LeafIsFound(op, e.lhs, needle, l, le, fuel);
      } else if !ContainsTerm(op, e.lhs, needle, le, fuel).value {
        LeafIsFound(op, e.rhs, needle, l, le, fuel);
      }
    } else {
      ContainsAtLeaf(op, e, needle, le, fuel);
    }
  }

  /** The search in one tree of the opposite operator, both ways. */
  lemma SearchDecides(op: BinOp, terms: seq<Expr>, canonical: seq<Expr>, i: nat, j: nat, le: Order, fuel: nat)
    requires i < |terms| && j < |canonical| && i != j && IsTree(Opposite(op), terms[i])
    ensures var hit := ContainsTerm(Opposite(op), terms[i], canonical[j], le, fuel);
      hit.Done? ==> (hit.value <==> Absorbs(op, terms, canonical, i, j, le, fuel))
  {
    hide ContainsTerm, Canonicalize;
    var tree, needle := terms[i], canonical[j];
    var hit := ContainsTerm(Opposite(op), tree, needle, le, fuel);
    if hit.Done? && hit.value { var l := FoundInLeaves(Opposite(op), tree, needle, le, fuel); }
    if hit.Done? && Absorbs(op, terms, canonical, i, j, le, fuel) {
      var l :| l in Flatten(Opposite(op), tree) && HasForm(l, needle, le, fuel);
      LeafIsFound(Opposite(op), tree, needle, l, le, fuel);
    }
  }

  /** The search for an absorber from index `j` on names one, or finds that there is none. */
  lemma {:induction false} FirstAbsorbs(
    op: BinOp, terms: seq<Expr>, canonical: seq<Expr>, i: nat, j: nat, le: Order, fuel: nat)
    requires i < |terms| && j <= |canonical| && IsTree(Opposite(op), terms[i])
    ensures var r := FirstAbsorber(Opposite(op), terms[i], canonical, i, j, le, fuel);
      r.Done? ==> if r.value.Some? then Absorbs(op, terms, canonical, i, r.value.value, le, fuel)
                  else forall k: nat | j <= k :: !Absorbs(op, terms, canonical, i, k, le, fuel)
    decreases |canonical| - j
  {
    hide ContainsTerm, Absorbs;
    if j < |canonical| {
      FirstAbsorbs(op, terms, canonical, i, j + 1, le, fuel);
      if i != j {
        SearchDecides(op, terms, canonical, i, j, le, fuel);
      } else {
        NotByItself(op, terms, canonical, i, le, fuel);
      }
    } else {
      forall k: nat | j <= k ensures !Absorbs(op, terms, canonical, i, k, le, fuel) {
        OnlyInRange(op, terms, canonical, i, k, le, fuel);
      }
    }
  }

  lemma NotByItself(op: BinOp, terms: seq<Expr>, canonical: seq<Expr>, i: nat, le: Order, fuel: nat)
    ensures !Absorbs(op, terms, canonical, i, i, le, fuel)
  {
  }

  lemma OnlyInRange(op: BinOp, terms: seq<Expr>, canonical: seq<Expr>, i: nat, k: nat, le: Order, fuel: nat)
    ensures Absorbs(op, terms, canonical, i, k, le, fuel) ==> k < |canonical|
  {
  }

  /** The term is absorbed by another one. */
  ghost predicate Absorbed(op: BinOp, terms: seq<Expr>, canonical: seq<Expr>, i: nat, le: Order, fuel: nat)
  {
    exists j: nat :: Absorbs(op, terms, canonical, i, j, le, fuel)
  }

  /** An entry of the computed table names an absorber if and only if the term has one. */
  lemma {:induction false} TableExact(
    op: BinOp, terms: seq<Expr>, canonical: seq<Expr>, i: nat, k: nat, le: Order, fuel: nat)
    requires i <= k < |terms| && Absorbers(Opposite(op), terms, canonical, i, le, fuel).Done?
    ensures var entry := Absorbers(Opposite(op), terms, canonical, i, le, fuel).value[k - i];
      && (entry.Some? ==> Absorbs(op, terms, canonical, k, entry.value, le, fuel))
      && (entry.Some? <==> Absorbed(op, terms, canonical, k, le, fuel))
    decreases |terms| - i
  {
    hide FirstAbsorber, Canonicalize;
    if i < k {
      TableExact(op, terms, canonical, i + 1, k, le, fuel);
    } else if IsTree(Opposite(op), terms[i]) {
      FirstAbsorbs(op, terms, canonical, i, 0, le, fuel);
    }
  }

  // ----- when nothing is left -----

  lemma {:induction false} RetainsNothing(terms: seq<Expr>, absorbers: seq<Option<nat>>)
    requires |terms| == |absorbers|
    ensures Retain(terms, absorbers) == [] <==> forall i | 0 <= i < |absorbers| :: absorbers[i].Some?
  {
    if terms != [] {
      RetainsNothing(terms[1..], absorbers[1..]);
      if forall i | 0 <= i < |absorbers[1..]| :: absorbers[1..][i].Some? {
        forall i | 1 <= i < |absorbers| ensures absorbers[i].Some? { assert absorbers[1..][i - 1].Some?; }
      }
    }
  }

  /** Every term is a tree of the opposite operator with a leaf of the canonical form of another term. */
  ghost predicate AllAbsorbed(op: BinOp, terms: seq<Expr>, le: Order, fuel: nat)
  {
    var c := CanonicalizeAll(terms, le, fuel);
    c.Done? && forall i: nat | i < |terms| :: Absorbed(op, terms, c.value, i, le, fuel)
  }

  /** The pass leaves no term if and only if every term is absorbed by another one. */
  lemma NothingLeftExactly(op: BinOp, terms: seq<Expr>, le: Order, fuel: nat)
    requires (op == And || op == Or) && RemoveAbsorbed(op, terms, le, fuel).Done?
    ensures RemoveAbsorbed(op, terms, le, fuel).value == [] <==> AllAbsorbed(op, terms, le, fuel)
  {
    hide CanonicalizeAll, Absorbers;
    var c := CanonicalizeAll(terms, le, fuel);
    var a := Absorbers(Opposite(op), terms, c.value, 0, le, fuel);
    RetainsNothing(terms, a.value);
    forall i: nat | i < |terms| ensures a.value[i].Some? <==> Absorbed(op, terms, c.value, i, le, fuel) {
      TableExact(op, terms, c.value, 0, i, le, fuel);
    }
  }

  /** If no terms absorb one another in a circle, every chain of the computed table ends at a kept term. */
  lemma NoCircleIsAnchored(op: BinOp, terms: seq<Expr>, canonical: seq<Expr>, le: Order, fuel: nat)
    requires |canonical| == |terms| && Absorbers(Opposite(op), terms, canonical, 0, le, fuel).Done?
    requires forall path :: !AbsorbInCircle(op, terms, canonical, path, le, fuel)
    ensures AllAnchored(Absorbers(Opposite(op), terms, canonical, 0, le, fuel).value)
  {
    var table := Absorbers(Opposite(op), terms, canonical, 0, le, fuel).value;
    forall k | 0 <= k < |table| ensures table[k].Some? ==> Absorbs(op, terms, canonical, k, table[k].value, le, fuel) {
      TableExact(op, terms, canonical, 0, k, le, fuel);
    }
    AnchoredIffNoCircle(table);
    if Circular(table) {
      var path :| Walk(table, path) && Closes(path);
      assert AbsorbInCircle(op, terms, canonical, path, le, fuel);
    }
  }

  lemma CircleHasTwoTrees(op: BinOp, terms: seq<Expr>, canonical: seq<Expr>, path: seq<nat>, le: Order, fuel: nat)
    requires AbsorbInCircle(op, terms, canonical, path, le, fuel)
    ensures exists i, j :: 0 <= i < j < |terms| && IsTree(Opposite(op), terms[i]) && IsTree(Opposite(op), terms[j])
  {
    var x, y := path[0], path[1];
    assert Absorbs(op, terms, canonical, x, y, le, fuel);
    assert Absorbs(op, terms, canonical, y, path[2], le, fuel);
    assert IsTree(Opposite(op), terms[x]) && IsTree(Opposite(op), terms[y]);
    assert x < y || y < x;
  }

  /** At most one of the terms is a tree of the operator. */
  predicate OneTree(op: BinOp, terms: seq<Expr>)
  {
    forall i, j | 0 <= i < j < |terms| :: !IsTree(op, terms[i]) || !IsTree(op, terms[j])
  }

  /** With at most one tree of the opposite operator among the terms there is no circle. */
  lemma OneTreeIsAnchored(op: BinOp, terms: seq<Expr>, canonical: seq<Expr>, le: Order, fuel: nat)
    requires |canonical| == |terms| && Absorbers(Opposite(op), terms, canonical, 0, le, fuel).Done?
    requires OneTree(Opposite(op), terms)
    ensures AllAnchored(Absorbers(Opposite(op), terms, canonical, 0, le, fuel).value)
  {
    forall path ensures !AbsorbInCircle(op, terms, canonical, path, le, fuel) {
      if AbsorbInCircle(op, terms, canonical, path, le, fuel) {
        CircleHasTwoTrees(op, terms, canonical, path, le, fuel);
      }
    }
    NoCircleIsAnchored(op, terms, canonical, le, fuel);
  }

  /** An anchored table meets its obligation in every state. */
  lemma AnchoredHolds(op: BinOp, terms: seq<Expr>, absorbers: seq<Option<nat>>, s: MachineState)
    requires |absorbers| == |terms| && AllAnchored(absorbers)
    ensures Holds(Absorption(op, terms, absorbers), s)
  {
    assert forall i: nat | i < |absorbers| :: ReachesKept(absorbers, i, |absorbers|);
  }

  // ----- a concrete input -----

  function Register0(): Expr { ReadRegister(RegisterField(Fixed(0, 8)), 8) }
  function Register1(): Expr { ReadRegister(RegisterField(Fixed(1, 8)), 8) }
  function OrZero(): Expr { Bin(Or, Register0(), Const(0, 8)) }

  lemma CanonicalRegister(e: Expr, le: Order, fuel: nat)
    requires fuel >= 2 && (e == Register0() || e == Register1())
    ensures Canonicalize(e, le, fuel) == Done(e, {})
  {
    assert Canonicalize(e.register, le, fuel - 1) == Done(e.register, {});
  }

  lemma FinishesWith(terms: seq<Expr>, canonical: seq<Expr>, le: Order, fuel: nat)
    requires |terms| == 1 && |canonical| == 1
    requires Canonicalize(terms[0], le, fuel).Done? && Canonicalize(terms[0], le, fuel).value == canonical[0]
    ensures var r := CanonicalizeAll(terms, le, fuel); r.Done? && r.value == canonical
  {
    assert CanonicalizeAll(terms[1..], le, fuel) == Done([], {});
    assert [canonical[0]] + [] == canonical;
  }

  lemma {:induction false} NothingToAbsorb(op: BinOp, terms: seq<Expr>, i: nat, le: Order, fuel: nat)
    requires i <= |terms| && forall t | t in terms :: !t.Bin?
    ensures var r := Absorbers(op, terms, terms, i, le, fuel);
      r.Done? && r.value == seq(|terms| - i, _ => None)
    decreases |terms| - i
  {
    if i < |terms| {
      NothingToAbsorb(op, terms, i + 1, le, fuel);
      assert terms[i] in terms;
    }
  }

  lemma OrZeroTerms(le: Order, fuel: nat)
    requires fuel >= 2
    ensures var terms := [Register0(), Const(0, 8)];
      var r := CanonicalizeAll(terms, le, fuel);
      r.Done? && r.value == terms
  {
    var a, z := Register0(), Const(0, 8);
    CanonicalRegister(a, le, fuel);
    SmallMod(0, Pow2(8));
    FinishesWith([z], [z], le, fuel);
    assert [a, z][1..] == [z] && [a] + [z] == [a, z];
  }

  lemma OrZeroKept(le: Order, fuel: nat)
    requires fuel >= 2
    ensures var terms := [Register0(), Const(0, 8)];
      var r := RemoveAbsorbed(Or, terms, le, fuel);
      r.Done? && r.value == terms
  {
    var terms := [Register0(), Const(0, 8)];
    OrZeroTerms(le, fuel);
    NothingToAbsorb(And, terms, 0, le, fuel);
    var n := Absorbers(And, terms, terms, 0, le, fuel).value;
    assert n[1..] == [None] && terms[1..] == [terms[1]];
    assert Retain(terms[1..], n[1..]) == terms[1..];
  }

  lemma SortOne(t: Expr, le: Order)
    ensures Sort([t], le) == [t] && Dedup([t]) == [t]
  {
    var none: seq<Expr> := [];
    assert [t][1..] == none && Sort(none, le) == none;
    assert [t] + none == [t];
    assert Insert(t, none, le) == [t];
  }

  lemma OrZeroCombined(le: Order)
    ensures CombineTerms(Or, [Register0(), Const(0, 8)], le) == Done(Register0(), {})
  {
    var a, z := Register0(), Const(0, 8);
    var terms := [a, z];
    assert terms[1..] == [z];
    var none: seq<Expr> := [];
    assert [z][1..] == none && [a] + none == [a];
    assert NonConstants([z]) == none;
    assert NonConstants(terms) == [a];
    SortOne(a, le);
    SmallMod(0, Pow2(8));
    assert FoldConstants(Or, [z], NoConst) == Folded(0, 8);
    assert FoldConstants(Or, terms, NoConst) == Folded(0, 8);
    assert ReduceTerms(Or, terms, le) == ([a], Folded(0, 8));
  }

  lemma OrZeroAssembled(le: Order, fuel: nat)
    requires fuel >= 2
    ensures var c := CanonicalizeAssocComm(Or, Register0(), Const(0, 8), le, fuel); c.Done? && c.value == Register0()
  {
    var a, z := Register0(), Const(0, 8);
    assert Flatten(Or, a) + Flatten(Or, z) == [a, z];
    OrZeroKept(le, fuel);
    OrZeroTerms(le, fuel);
    assert FlattenAll(Or, [a, z]) == [a, z] by {
      assert [a, z][1..] == [z] && FlattenAll(Or, [z]) == [z];
    }
    OrZeroCombined(le);
  }

  lemma CanonicalOrZero(le: Order, fuel: nat)
    requires fuel >= 3
    ensures var r := Canonicalize(OrZero(), le, fuel);
      r.Done? && r.value == Register0()
  {
    OrZeroAssembled(le, fuel - 1);
    TreeUnfolds(Or, Register0(), Const(0, 8), le, fuel - 1);
    NothingToLower(Register0(), le, fuel - 1);
  }

  lemma NothingToLower(e: Expr, le: Order, fuel: nat)
    requires e.ReadRegister?
    ensures LowerOperators(e, le, fuel) == Done(e, {})
  {
  }

  /** The absorber table of `x, x, b` with `x = a | 0`: the first two terms absorb each other. */
  lemma MutualTable(le: Order, fuel: nat)
    requires fuel >= 3
    ensures var terms, canonical := [OrZero(), OrZero(), Register1()], [Register0(), Register0(), Register1()];
      var r := Absorbers(Or, terms, canonical, 0, le, fuel);
      r.Done? && r.value == [Some(1), Some(0), None]
  {
    var terms, canonical := [OrZero(), OrZero(), Register1()], [Register0(), Register0(), Register1()];
    CanonicalRegister(Register0(), le, fuel);
    var left := ContainsTerm(Or, Register0(), Register0(), le, fuel);
    assert left.Done? && left.value;
    var hit := ContainsTerm(Or, OrZero(), Register0(), le, fuel);
    assert hit.Done? && hit.value;
    var first := FirstAbsorber(Or, OrZero(), canonical, 1, 0, le, fuel);
    assert first.Done? && first.value == Some(0);
    var second := FirstAbsorber(Or, OrZero(), canonical, 0, 1, le, fuel);
    assert second.Done? && second.value == Some(1);
    assert FirstAbsorber(Or, OrZero(), canonical, 0, 0, le, fuel) == second;
    assert Absorbers(Or, terms, canonical, 3, le, fuel) == Done([], {});
    var a2 := Absorbers(Or, terms, canonical, 2, le, fuel);
    assert a2.Done? && a2.value == [None];
    var a1 := Absorbers(Or, terms, canonical, 1, le, fuel);
    assert a1.Done? && a1.value == [Some(0), None];
  }

  lemma MutualCanonical(le: Order, fuel: nat)
    requires fuel >= 3
    ensures var r := CanonicalizeAll([OrZero(), OrZero(), Register1()], le, fuel);
      r.Done? && r.value == [Register0(), Register0(), Register1()]
  {
    var x, b := OrZero(), Register1();
    CanonicalOrZero(le, fuel);
    CanonicalRegister(b, le, fuel);
    FinishesWith([b], [b], le, fuel);
    assert [x, b][1..] == [b] && [x, x, b][1..] == [x, b];
    var two := CanonicalizeAll([x, b], le, fuel);
    assert two.Done? && two.value == [Register0(), b];
  }

  lemma OneTermCombined(b: Expr, le: Order)
    requires !b.Const?
    ensures CombineTerms(And, [b], le) == Done(b, {})
  {
    assert [b][1..] == [];
    var none: seq<Expr> := [];
    assert [b] + none == [b] && NonConstants([b]) == [b];
    SortOne(b, le);
    assert FoldConstants(And, [b], NoConst) == NoConst;
    assert ReduceTerms(And, [b], le) == ([b], NoConst);
  }

  lemma MutualKept(le: Order, fuel: nat)
    requires fuel >= 3
    ensures var r := RemoveAbsorbed(And, [OrZero(), OrZero(), Register1()], le, fuel);
      r.Done? && r.value == [Register1()] && Absorption(And, MutualTerms(), [Some(1), Some(0), None]) in r.obligations
  {
    var x, b := OrZero(), Register1();
    var terms, table := [x, x, b], [Some(1), Some(0), None];
    MutualCanonical(le, fuel);
    MutualTable(le, fuel);
    assert table[1..] == [Some(0), None] && table[1..][1..] == [None] && terms[1..] == [x, b] && terms[1..][1..] == [b];
    var none: seq<Expr> := [];
    assert [b] + none == [b] && Retain([b], [None]) == [b];
  }

  function MutualTerms(): seq<Expr> { [OrZero(), OrZero(), Register1()] }

  /** `(a | 0) & (a | 0) & b` canonicalizes to `b`, whatever `a` is, and the run reports that it dropped both. */
  lemma MutualAbsorptionLosesTerms(le: Order, fuel: nat)
    requires fuel >= 4
    ensures var r := Canonicalize(Bin(And, Bin(And, OrZero(), OrZero()), Register1()), le, fuel);
      r.Done? && r.value == Register1() && Absorption(And, MutualTerms(), [Some(1), Some(0), None]) in r.obligations
    ensures Circular([Some(1), Some(0), None])
  {
    hide CanonicalizeAssocComm, CanonicalizeBin, RemoveAbsorbed, CanonicalizeAll;
    var f, x, b := fuel - 1, OrZero(), Register1();
    MutualCombined(le, f);
    TreeUnfolds(And, Bin(And, x, x), b, le, f);
    assert Walk([Some(1), Some(0), None], [0, 1, 0]) && Closes([0, 1, 0]);
  }

  lemma MutualCombined(le: Order, fuel: nat)
    requires fuel >= 3
    ensures var r := CanonicalizeAssocComm(And, Bin(And, OrZero(), OrZero()), Register1(), le, fuel);
      r.Done? && r.value == Register1() && Absorption(And, MutualTerms(), [Some(1), Some(0), None]) in r.obligations
  {
    hide Canonicalize, CanonicalizeAll, RemoveAbsorbed, CombineTerms;
    var x, b := OrZero(), Register1();
    assert Flatten(And, Bin(And, x, x)) + Flatten(And, b) == [x, x, b];
    MutualKept(le, fuel);
    CanonicalRegister(b, le, fuel);
    FinishesWith([b], [b], le, fuel);
    assert FlattenAll(And, [b]) == [b];
    OneTermCombined(b, le);
  }

  lemma PairKept(le: Order, fuel: nat)
    requires fuel >= 3
    ensures var r := RemoveAbsorbed(And, [OrZero(), OrZero()], le, fuel);
      r.Done? && r.value == []
  {
    var x, a := OrZero(), Register0();
    var terms, canonical := [x, x], [a, a];
    CanonicalOrZero(le, fuel);
    FinishesWith([x], [a], le, fuel);
    assert terms[1..] == [x] && [a] + [a] == canonical;
    CanonicalRegister(a, le, fuel);
    assert ContainsTerm(Or, a, a, le, fuel).Done?;
    var hit := ContainsTerm(Or, x, a, le, fuel);
    assert hit.Done? && hit.value;
    var first := FirstAbsorber(Or, x, canonical, 1, 0, le, fuel);
    assert first.Done? && first.value == Some(0);
    var second := FirstAbsorber(Or, x, canonical, 0, 1, le, fuel);
    assert second.Done? && second.value == Some(1);
    assert FirstAbsorber(Or, x, canonical, 0, 0, le, fuel) == second;
    assert Absorbers(Or, terms, canonical, 2, le, fuel) == Done([], {});
    var one := Absorbers(Or, terms, canonical, 1, le, fuel);
    assert one.Done? && one.value == [Some(0)];
    var table := [Some(1), Some(0)];
    assert table[1..] == [Some(0)] && Retain([x], [Some(0)]) == [];
  }

  lemma PairPanics(le: Order, fuel: nat)
    requires fuel >= 4
    ensures Canonicalize(Bin(And, OrZero(), OrZero()), le, fuel).NoTerms?
  {
    var f, x := fuel - 1, OrZero();
    assert Flatten(And, x) + Flatten(And, x) == [x, x];
    PairKept(le, f);
    var none: seq<Expr> := [];
    assert CanonicalizeAll(none, le, f) == Done(none, {}) && FlattenAll(And, none) == none;
    NothingToCombine(And, le);
    assert CanonicalizeAssocComm(And, x, x, le, f).NoTerms?;
  }

  lemma OrZeroHasValue(s: MachineState)
    requires 0 in s.registers && s.registers[0].width == 8
    ensures Eval(OrZero(), s).Some? && Eval(OrZero(), s).value.width == 8
  {
    SmallMod(0, Pow2(8));
    assert Eval(RegisterField(Fixed(0, 8)), s) == Some(Word(0, 8));
    assert Eval(Register0(), s) == Some(s.registers[0]);
  }

  lemma ConjunctionHasValue(x: Expr, s: MachineState)
    requires Eval(x, s).Some?
    ensures Eval(Bin(And, x, x), s).Some?
  {
  }

  /** `(a | 0) & (a | 0)` has a value wherever `a` has one, but canonicalizing it leaves no term and panics. */
  lemma MutualAbsorptionPanics(le: Order, fuel: nat, s: MachineState)
    requires fuel >= 4 && 0 in s.registers && s.registers[0].width == 8
    ensures Eval(Bin(And, OrZero(), OrZero()), s).Some?
    ensures Canonicalize(Bin(And, OrZero(), OrZero()), le, fuel).NoTerms?
  {
    OrZeroHasValue(s);
    ConjunctionHasValue(OrZero(), s);
    PairPanics(le, fuel);
  }
}
