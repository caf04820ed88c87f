/** The checker that decides whether one program can stand in for another. */
module EquivalenceManagers {
  import opened Words
  import opened Exprs
  import opened Effects
  import opened Typing
  import opened Canonicalizer
  import opened CanonicalizerTyping
  import opened SequenceTyping
  import opened EffectComparison
  import opened ReadViews
  import opened VariablePool
  import opened BddSides
  import opened BddManagers
  import BddEquivalence

  /** The manager compares the pair. */
  ghost predicate Compares(m: BddManager, pair: (Expr, Expr), registers: seq<Register>, g: Shape)
    reads m
  {
    m.Valid() && m.g == g && m.registers == registers && m.leftExpr == pair.0 && m.rightExpr == pair.1
  }

  ghost predicate Distinct(managers: seq<BddManager>)
  {
    forall i, j | 0 <= i < j < |managers| :: managers[i] != managers[j]
  }

  ghost predicate AllCompare(managers: seq<BddManager>, pairs: seq<(Expr, Expr)>, registers: seq<Register>, g: Shape)
    reads managers
  {
    |managers| == |pairs| && Distinct(managers)
    && forall i | 0 <= i < |managers| :: Compares(managers[i], pairs[i], registers, g)
  }

  /** The state tells some pair apart. */
  ghost predicate TellsApart(s: MachineState, pairs: seq<(Expr, Expr)>)
  {
    exists i | 0 <= i < |pairs| :: BddEquivalence.Separates(s, pairs[i].0, pairs[i].1)
  }

  /** Compares one pair; the other managers are left alone. */
  method CompareAt(
    managers: seq<BddManager>, ghost pairs: seq<(Expr, Expr)>, i: nat, pick: CubePicker,
    ghost registers: seq<Register>, ghost g: Shape)
    returns (verdict: BddEquality)
    requires AllCompare(managers, pairs, registers, g) && i < |managers| && GoodPicker(pick)
    modifies managers
    ensures AllCompare(managers, pairs, registers, g)
    ensures verdict.ExprsEqual? <==> BddEquivalence.Equivalent(pairs[i].0, pairs[i].1, g)
    ensures verdict.ExprsUnequal? ==> FitsShape(verdict.state, g) && TellsApart(verdict.state, pairs)
  {
    assert Compares(managers[i], pairs[i], registers, g);
    verdict := managers[i].Compare(pick);
  }

  /** Pairs before position `i` have the new right expression. */
  function Replaced(before: seq<(Expr, Expr)>, after: seq<(Expr, Expr)>, i: nat): seq<(Expr, Expr)>
    requires i <= |before| == |after|
  {
    after[..i] + before[i..]
  }

  /** Gives one manager the new right expression; the others are left alone. */
  method ReplaceAt(
    managers: seq<BddManager>, ghost before: seq<(Expr, Expr)>, pairs: seq<(Expr, Expr)>, i: nat,
    ghost registers: seq<Register>, ghost g: Shape)
    requires |managers| == |pairs| == |before| && i < |managers| && PairOk(pairs[i], g) && before[i].0 == pairs[i].0
    requires AllCompare(managers, Replaced(before, pairs, i), registers, g)
    modifies managers
    ensures AllCompare(managers, Replaced(before, pairs, i + 1), registers, g)
  {
    ghost var now, next := Replaced(before, pairs, i), Replaced(before, pairs, i + 1);
    assert forall k | 0 <= k < |now| :: next[k] == if k == i then pairs[i] else now[k];
    assert Compares(managers[i], now[i], registers, g);
    managers[i].ReplaceRightExpr(pairs[i].1);
  }

  ghost predicate EquivalentUpTo(pairs: seq<(Expr, Expr)>, n: nat, g: Shape)
    requires n <= |pairs|
  {
    forall k | 0 <= k < n :: BddEquivalence.Equivalent(pairs[k].0, pairs[k].1, g)
  }

  lemma OneMoreEquivalent(pairs: seq<(Expr, Expr)>, i: nat, g: Shape)
    requires i < |pairs| && EquivalentUpTo(pairs, i, g) && BddEquivalence.Equivalent(pairs[i].0, pairs[i].1, g)
    ensures EquivalentUpTo(pairs, i + 1, g)
  {
  }

  /** Compares the pairs in order and stops at the first that differs. */
  method CompareAll(
    managers: seq<BddManager>, ghost pairs: seq<(Expr, Expr)>, pick: CubePicker, ghost registers: seq<Register>,
    ghost g: Shape)
    returns (verdict: BddEquality)
    requires AllCompare(managers, pairs, registers, g) && GoodPicker(pick)
    modifies managers
    ensures AllCompare(managers, pairs, registers, g)
    ensures verdict.ExprsEqual? <==> AllEquivalent(pairs, g)
    ensures verdict.ExprsUnequal? ==> FitsShape(verdict.state, g) && TellsApart(verdict.state, pairs)
  {
    hide Compares, GoodPicker, FitsShape;
    for i := 0 to |managers|
      invariant AllCompare(managers, pairs, registers, g)
      invariant EquivalentUpTo(pairs, i, g)
    {
      verdict := CompareAt(managers, pairs, i, pick, registers, g);
      if verdict.ExprsUnequal? { return; }
      OneMoreEquivalent(pairs, i, g);
    }
    verdict := ExprsEqual;
  }

  /** Gives every manager its new right expression. */
  method ReplaceAll(
    managers: seq<BddManager>, ghost before: seq<(Expr, Expr)>, pairs: seq<(Expr, Expr)>,
    ghost registers: seq<Register>, ghost g: Shape)
    requires |managers| == |pairs| == |before| && PairsOk(pairs, g) && AllCompare(managers, before, registers, g)
    requires forall i | 0 <= i < |pairs| :: before[i].0 == pairs[i].0
    modifies managers
    ensures AllCompare(managers, pairs, registers, g)
  {
    assert Replaced(before, pairs, 0) == before;
    for i := 0 to |managers|
      invariant AllCompare(managers, Replaced(before, pairs, i), registers, g)
    {
      assert PairOk(pairs[i], g);
      ReplaceAt(managers, before, pairs, i, registers, g);
    }
    assert Replaced(before, pairs, |pairs|) == pairs;
  }

  method NewManager(pair: (Expr, Expr), registers: seq<Register>, ghost g: Shape) returns (manager: BddManager)
    requires RegistersMatch(registers, g) && DistinctRegisters(registers) && PairOk(pair, g)
    ensures fresh(manager) && Compares(manager, pair, registers, g)
  {
    manager := new BddManager(pair.0, pair.1, registers, g);
  }

  /** One manager for every pair. */
  method BuildManagers(
    pairs: seq<(Expr, Expr)>, registers: seq<Register>, ghost g: Shape) returns (managers: seq<BddManager>)
    requires RegistersMatch(registers, g) && DistinctRegisters(registers) && PairsOk(pairs, g)
    ensures fresh(managers) && AllCompare(managers, pairs, registers, g)
  {
    hide RegistersMatch, Compares, PairOk;
    managers := [];
    for i := 0 to |pairs|
      invariant |managers| == i && Distinct(managers)
      invariant fresh(managers) && forall k | 0 <= k < i :: Compares(managers[k], pairs[k], registers, g)
    {
      assert PairOk(pairs[i], g);
      var manager := NewManager(pairs[i], registers, g);
      managers := managers + [manager];
    }
  }

  class EquivalenceManager {
    var comparison: Comparison
    var managers: seq<BddManager>
    const registers: seq<Register>
    const le: Order
    const fuel: nat
    ghost const g: Shape

    ghost predicate Valid()
      reads this, managers
    {
      && ShapeOk(g) && GoodList(comparison.left, g)
      && ComparedPairs(comparison.left, comparison.right, le, fuel).Done?
      && comparison.pairs == ComparedPairs(comparison.left, comparison.right, le, fuel).value
      && AllCompare(managers, comparison.pairs, registers, g)
    }

    constructor FromInstructions(
      leftProgram: seq<seq<Effect>>, rightProgram: seq<seq<Effect>>, registers: seq<Register>, le: Order, fuel: nat,
      ghost g: Shape)
      requires RegistersMatch(registers, g) && DistinctRegisters(registers)
      requires ShapeOk(g) && DescribedProgram(leftProgram, g) && DescribedProgram(rightProgram, g)
      requires Prepare(leftProgram, rightProgram, le, fuel).Done?
      ensures Valid() && comparison == Prepare(leftProgram, rightProgram, le, fuel).value
      ensures this.g == g && this.registers == registers && this.le == le && this.fuel == fuel
      ensures fresh(managers)
    {
      var c := Prepare(leftProgram, rightProgram, le, fuel).value;
      ProgramEffectsGood(leftProgram, le, fuel, g);
      ProgramEffectsGood(rightProgram, le, fuel, g);
      ComparedPairsOk(c.left, c.right, le, fuel, g);
      var built := BuildManagers(c.pairs, registers, g);
      this.comparison, this.managers := c, built;
      this.registers, this.le, this.fuel, this.g := registers, le, fuel, g;
    }

    /** Puts another program on the right; the left side keeps what it has lowered. */
    method ReplaceRightInstruction(newRight: seq<seq<Effect>>)
      requires Valid() && DescribedProgram(newRight, g) && ProgramEffects(newRight, le, fuel).Done?
      requires ComparedPairs(comparison.left, ProgramEffects(newRight, le, fuel).value, le, fuel).Done?
      modifies this, managers
      ensures Valid() && managers == old(managers)
      ensures comparison.left == old(comparison.left) && comparison.right == ProgramEffects(newRight, le, fuel).value
    {
      hide ProgramEffects, ComparedPairs, GoodList, ShapeOk, DescribedProgram, PairsOk;
      var left, right := comparison.left, ProgramEffects(newRight, le, fuel).value;
      var pairs := ComparedPairs(left, right, le, fuel).value;
      ProgramEffectsGood(newRight, le, fuel, g);
      ComparedPairsOk(left, right, le, fuel, g);
      forall i | 0 <= i < |pairs| ensures comparison.pairs[i].0 == pairs[i].0 {
        SameLeftExpressions(left, comparison.right, right, i, le, fuel);
      }
      ReplaceAll(managers, comparison.pairs, pairs, registers, g);
      comparison := Comparison(left, right, pairs);
    }

    /** Decides whether any pair can be told apart. */
    method CompareInstructions(pick: CubePicker) returns (verdict: BddEquality)
      requires Valid() && GoodPicker(pick)
      modifies managers
      ensures Valid()
      ensures verdict.ExprsEqual? <==> AllEquivalent(comparison.pairs, g)
      ensures verdict.ExprsUnequal? ==> FitsShape(verdict.state, g) && TellsApart(verdict.state, comparison.pairs)
    {
      hide AllCompare, ComparedPairs, AllEquivalent, TellsApart, GoodList, ShapeOk, GoodPicker;
      verdict := CompareAll(managers, comparison.pairs, pick, registers, g);
    }
  }

  /** A completion of a separating state makes the programs leave different values, if their symbolic form is
      exact there. */
  lemma CounterexampleDistinguishes(
    leftProgram: seq<seq<Effect>>, rightProgram: seq<seq<Effect>>, c: Comparison, le: Order, fuel: nat,
    s: MachineState, t: MachineState,
    g: Shape)
    requires ShapeOk(g) && DescribedProgram(leftProgram, g) && DescribedProgram(rightProgram, g)
    requires ExactAt(Prepare(leftProgram, rightProgram, le, fuel), t)
             && Prepare(leftProgram, rightProgram, le, fuel).value == c
    requires Total(t, g) && Extends(t, s) && TellsApart(s, c.pairs)
    ensures !RunsAgree(leftProgram, rightProgram, c.left, t)
  {
    var i :| 0 <= i < |c.pairs| && BddEquivalence.Separates(s, c.pairs[i].0, c.pairs[i].1);
    ProgramEffectsGood(leftProgram, le, fuel, g);
    ProgramEffectsGood(rightProgram, le, fuel, g);
    PairComparable(c.left, c.right, i, le, fuel, g);
    LowerableReadsBytes(c.pairs[i].0, g);
    LowerableReadsBytes(c.pairs[i].1, g);
    ExtendsKeepsValue(c.pairs[i].0, t, s);
    ExtendsKeepsValue(c.pairs[i].1, t, s);
    PairsDecide(leftProgram, rightProgram, le, fuel, t, g);
  }

  /** From every total state in which the symbolic form is exact the programs agree on what the left one writes. */
  ghost predicate AgreeWhereExact(
    leftProgram: seq<seq<Effect>>, rightProgram: seq<seq<Effect>>, prepared: Outcome<Comparison>, g: Shape)
    requires prepared.Done?
  {
    forall s | Total(s, g) && ExactAt(prepared, s) :: RunsAgree(leftProgram, rightProgram, prepared.value.left, s)
  }

  /** The state can be completed, and from every completion in which the symbolic form is exact the programs leave
      different values at a place the left one writes. */
  ghost predicate IsCounterexample(
    s: MachineState, leftProgram: seq<seq<Effect>>, rightProgram: seq<seq<Effect>>, prepared: Outcome<Comparison>,
    g: Shape)
    requires prepared.Done?
  {
    && (exists t :: Total(t, g) && Extends(t, s))
    && (forall t | Total(t, g) && Extends(t, s) && ExactAt(prepared, t) ::
          !RunsAgree(leftProgram, rightProgram, prepared.value.left, t))
  }

  lemma SeparatingIsCounterexample(
    leftProgram: seq<seq<Effect>>, rightProgram: seq<seq<Effect>>, c: Comparison, le: Order, fuel: nat,
    s: MachineState, g: Shape)
    requires ShapeOk(g) && DescribedProgram(leftProgram, g) && DescribedProgram(rightProgram, g)
    requires Prepare(leftProgram, rightProgram, le, fuel).Done?
             && Prepare(leftProgram, rightProgram, le, fuel).value == c
    requires FitsShape(s, g) && TellsApart(s, c.pairs)
    ensures IsCounterexample(s, leftProgram, rightProgram, Prepare(leftProgram, rightProgram, le, fuel), g)
  {
    hide Prepare, RunsAgree;
    var total := Completion(s, g);
    forall t | Total(t, g) && Extends(t, s) && ExactAt(Prepare(leftProgram, rightProgram, le, fuel), t)
      ensures !RunsAgree(leftProgram, rightProgram, c.left, t)
    {
      CounterexampleDistinguishes(leftProgram, rightProgram, c, le, fuel, s, t, g);
    }
  }

  /** Equivalent pairs: the programs agree wherever their symbolic form is exact. */
  lemma EquivalentProgramsAgree(
    leftProgram: seq<seq<Effect>>, rightProgram: seq<seq<Effect>>, le: Order, fuel: nat, g: Shape)
    requires ShapeOk(g) && DescribedProgram(leftProgram, g) && DescribedProgram(rightProgram, g)
    requires Prepare(leftProgram, rightProgram, le, fuel).Done?
    requires AllEquivalent(Prepare(leftProgram, rightProgram, le, fuel).value.pairs, g)
    ensures AgreeWhereExact(leftProgram, rightProgram, Prepare(leftProgram, rightProgram, le, fuel), g)
  {
    hide Prepare, RunsAgree;
    var prepared := Prepare(leftProgram, rightProgram, le, fuel);
    EquivalentIsEqual(prepared.value.pairs, g);
    forall s | Total(s, g) && ExactAt(prepared, s)
      ensures RunsAgree(leftProgram, rightProgram, prepared.value.left, s)
    {
      PairsDecide(leftProgram, rightProgram, le, fuel, s, g);
    }
  }

  /** From every total state the programs agree on what the left one writes. */
  ghost predicate ProgramsAgree(
    leftProgram: seq<seq<Effect>>, rightProgram: seq<seq<Effect>>, left: seq<Effect>, g: Shape)
  {
    forall s | Total(s, g) :: RunsAgree(leftProgram, rightProgram, left, s)
  }

  /** Where the symbolic form is exact in every total state, a counterexample refutes agreement. */
  lemma CounterexampleRefutes(
    leftProgram: seq<seq<Effect>>, rightProgram: seq<seq<Effect>>, prepared: Outcome<Comparison>, s: MachineState,
    g: Shape)
    requires prepared.Done? && Exact(prepared, g) && IsCounterexample(s, leftProgram, rightProgram, prepared, g)
    ensures !ProgramsAgree(leftProgram, rightProgram, prepared.value.left, g)
  {
    var t :| Total(t, g) && Extends(t, s);
    assert ExactAt(prepared, t);
  }

  /** Two programs, compared symbolically.  If the verdict is equal, both programs leave, from every total state in
      which their symbolic form is exact, the same values at every place the left one writes.  Otherwise the
      returned state is a counterexample: from each of its completions in which the form is exact they do not.
      Where the form is exact everywhere, the verdict is equal if and only if the programs agree everywhere. */
  method ComparePrograms(
    leftProgram: seq<seq<Effect>>, rightProgram: seq<seq<Effect>>, registers: seq<Register>, le: Order, fuel: nat,
    pick: CubePicker, ghost g: Shape) returns (verdict: BddEquality)
    requires RegistersMatch(registers, g) && DistinctRegisters(registers) && GoodPicker(pick)
    requires ShapeOk(g) && DescribedProgram(leftProgram, g) && DescribedProgram(rightProgram, g)
    requires Prepare(leftProgram, rightProgram, le, fuel).Done?
    ensures var prepared := Prepare(leftProgram, rightProgram, le, fuel);
      && (verdict.ExprsEqual? ==> AgreeWhereExact(leftProgram, rightProgram, prepared, g))
      && (verdict.ExprsUnequal? ==> IsCounterexample(verdict.state, leftProgram, rightProgram, prepared, g))
      && (Exact(prepared, g)
          ==> (verdict.ExprsEqual? <==> ProgramsAgree(leftProgram, rightProgram, prepared.value.left, g)))
  {
    hide Prepare, RunsAgree, ExactAt, IsCounterexample;
    ghost var prepared := Prepare(leftProgram, rightProgram, le, fuel);
    ghost var c;
    verdict, c := CompareOnce(leftProgram, rightProgram, registers, le, fuel, pick, g);
    if verdict.ExprsUnequal? {
      SeparatingIsCounterexample(leftProgram, rightProgram, c, le, fuel, verdict.state, g);
      if Exact(prepared, g) { CounterexampleRefutes(leftProgram, rightProgram, prepared, verdict.state, g); }
    } else {
      EquivalentProgramsAgree(leftProgram, rightProgram, le, fuel, g);
    }
  }

  /** A new checker, asked once. */
  method CompareOnce(
    leftProgram: seq<seq<Effect>>, rightProgram: seq<seq<Effect>>, registers: seq<Register>, le: Order, fuel: nat,
    pick: CubePicker, ghost g: Shape) returns (verdict: BddEquality, ghost c: Comparison)
    requires RegistersMatch(registers, g) && DistinctRegisters(registers) && GoodPicker(pick)
    requires ShapeOk(g) && DescribedProgram(leftProgram, g) && DescribedProgram(rightProgram, g)
    requires Prepare(leftProgram, rightProgram, le, fuel).Done?
    ensures c == Prepare(leftProgram, rightProgram, le, fuel).value
    ensures verdict.ExprsEqual? <==> AllEquivalent(c.pairs, g)
    ensures verdict.ExprsUnequal? ==> FitsShape(verdict.state, g) && TellsApart(verdict.state, c.pairs)
  {
    var manager := new EquivalenceManager.FromInstructions(leftProgram, rightProgram, registers, le, fuel, g);
    c := manager.comparison;
    verdict := manager.CompareInstructions(pick);
  }
}
