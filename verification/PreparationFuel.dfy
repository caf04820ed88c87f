/** Enough fuel for a whole comparison.

    The fuel of the canonicalizer is no part of the program.  Preparing a comparison does not depend on how much
    there is beyond enough, and for programs without multiplication there always is enough. */
module PreparationFuel {
  import opened Words
  import opened Exprs
  import opened Effects
  import opened ByteMemory
  import opened Canonicalizer
  import opened CanonicalizerTermination
  import opened CanonicalizerFuel
  import opened EffectSequence
  import opened EffectComparison

  // ----- more fuel changes nothing -----

  lemma PartStable(e: Expr, previous: seq<Effect>, canonical: bool, le: Order, f: nat, g: nat)
    requires f <= g
    ensures Agrees(LowerPart(e, previous, canonical, le, f), LowerPart(e, previous, canonical, le, g))
  {
    hide Canonicalize;
    if LowerReads(e).Some? { FuelIsIrrelevant(Substitute(LowerReads(e).value, previous), le, f, g); }
  }

  lemma EffectStable(e: Effect, previous: seq<Effect>, le: Order, f: nat, g: nat)
    requires f <= g
    ensures Agrees(LowerEffect(e, previous, le, f), LowerEffect(e, previous, le, g))
  {
    hide LowerPart;
    PartStable(e.guard, previous, true, le, f, g);
    PartStable(e.Destination(), previous, true, le, f, g);
    PartStable(e.value, previous, false, le, f, g);
  }

  lemma {:induction false} InstructionStable(effects: seq<Effect>, previous: seq<Effect>, le: Order, f: nat, g: nat)
    requires f <= g
    ensures Agrees(LowerInstruction(effects, previous, le, f), LowerInstruction(effects, previous, le, g))
  {
    hide LowerEffect;
    if effects != [] {
      InstructionStable(effects[..|effects| - 1], previous, le, f, g);
      EffectStable(effects[|effects| - 1], previous, le, f, g);
    }
  }

  lemma {:induction false} SequenceStable(program: seq<seq<Effect>>, le: Order, f: nat, g: nat)
    requires f <= g
    ensures Agrees(SequenceEffects(program, le, f), SequenceEffects(program, le, g))
  {
    hide LowerInstruction, MergeAll;
    if program != [] {
      var init, last := program[..|program| - 1], program[|program| - 1];
      SequenceStable(init, le, f, g);
      var earlier := SequenceEffects(init, le, f);
      if earlier.Done? { InstructionStable(last, earlier.value, le, f, g); }
    }
  }

  lemma CanonicalEffectStable(e: Effect, le: Order, f: nat, g: nat)
    requires f <= g
    ensures Agrees(CanonicalEffect(e, le, f), CanonicalEffect(e, le, g))
  {
    hide Canonicalize;
    FuelIsIrrelevant(e.guard, le, f, g);
    FuelIsIrrelevant(e.Destination(), le, f, g);
    FuelIsIrrelevant(e.value, le, f, g);
  }

  lemma {:induction false} CanonicalEffectsStable(list: seq<Effect>, le: Order, f: nat, g: nat)
    requires f <= g
    ensures Agrees(CanonicalEffects(list, le, f), CanonicalEffects(list, le, g))
  {
    hide CanonicalEffect;
    if list != [] {
      CanonicalEffectsStable(list[..|list| - 1], le, f, g);
      CanonicalEffectStable(list[|list| - 1], le, f, g);
    }
  }

  lemma ProgramStable(program: seq<seq<Effect>>, le: Order, f: nat, g: nat)
    requires f <= g
    ensures Agrees(ProgramEffects(program, le, f), ProgramEffects(program, le, g))
  {
    hide SequenceEffects, CanonicalEffects;
    SequenceStable(program, le, f, g);
    var list := SequenceEffects(program, le, f);
    if list.Done? { CanonicalEffectsStable(list.value, le, f, g); }
  }

  lemma GuardedStable(e: Effect, le: Order, f: nat, g: nat)
    requires f <= g
    ensures Agrees(GuardedValue(e, le, f), GuardedValue(e, le, g))
  {
    hide Canonicalize, Compared;
    if Compared(e).Some? { FuelIsIrrelevant(Compared(e).value, le, f, g); }
  }

  lemma PairStable(e: Effect, right: seq<Effect>, le: Order, f: nat, g: nat)
    requires f <= g
    ensures Agrees(ComparedPair(e, right, le, f), ComparedPair(e, right, le, g))
  {
    hide GuardedValue;
    GuardedStable(e, le, f, g);
    var m := MatchingEffect(right, e);
    if m.Some? { GuardedStable(m.value, le, f, g); }
  }

  lemma {:induction false} PairsStable(left: seq<Effect>, right: seq<Effect>, le: Order, f: nat, g: nat)
    requires f <= g
    ensures Agrees(ComparedPairs(left, right, le, f), ComparedPairs(left, right, le, g))
  {
    hide ComparedPair;
    if left != [] {
      PairsStable(left[..|left| - 1], right, le, f, g);
      PairStable(left[|left| - 1], right, le, f, g);
    }
  }

  /** More fuel than enough changes nothing about a comparison. */
  lemma PrepareStable(leftProgram: seq<seq<Effect>>, rightProgram: seq<seq<Effect>>, le: Order, f: nat, g: nat)
    requires f <= g
    ensures Agrees(Prepare(leftProgram, rightProgram, le, f), Prepare(leftProgram, rightProgram, le, g))
  {
    hide ProgramEffects, ComparedPairs;
    ProgramStable(leftProgram, le, f, g);
    ProgramStable(rightProgram, le, f, g);
    var left, right := ProgramEffects(leftProgram, le, f), ProgramEffects(rightProgram, le, f);
    if left.Done? && right.Done? { PairsStable(left.value, right.value, le, f, g); }
  }

  // ----- programs without multiplication -----

  predicate MulFreeEffect(e: Effect)
  {
    MulFree(e.guard) && MulFree(e.Destination()) && MulFree(e.value)
  }

  predicate MulFreeEffects(effects: seq<Effect>)
  {
    forall e | e in effects :: MulFreeEffect(e)
  }

  predicate MulFreeProgram(program: seq<seq<Effect>>)
  {
    forall i | i in program :: MulFreeEffects(i)
  }

  /** A finished run on an expression without multiplication returns one. */
  lemma CanonicalMulFree(e: Expr, le: Order, fuel: nat)
    requires MulFree(e)
    ensures var r := Canonicalize(e, le, fuel); r.Done? ==> MulFree(r.value)
  {
    hide Canonicalize;
    CanonicalizeTerminates(e, le, fuel + Measure(e) + 1);
    FuelIsIrrelevant(e, le, fuel, fuel + Measure(e) + 1);
  }

  lemma {:induction false} ByteReadsMulFree(address: Expr, count: nat, low: nat, addressWidth: nat)
    requires low <= count && MulFree(address)
    ensures AllMulFree(ByteReads(address, count, low, addressWidth))
    decreases count - low
  {
    if low < count {
      ByteReadsMulFree(address, count, low + 1, addressWidth);
      assert MulFree(ByteAddressExpr(address, low, addressWidth));
    }
  }

  lemma {:induction false} LowerReadsMulFree(e: Expr)
    requires MulFree(e) && LowerReads(e).Some?
    ensures MulFree(LowerReads(e).value)
    decreases e, 1
  {
    match e
    case ReadRegister(register, _) => LowerReadsMulFree(register);
    case ReadMemory(address, width) =>
      LowerReadsMulFree(address);
      if width != 8 {
        var a := LowerReads(address).value;
        ByteReadsMulFree(a, width / 8, 0, ExprWidth(a).value);
      }
    case Bin(_, lhs, rhs) => LowerReadsMulFree(lhs); LowerReadsMulFree(rhs);
    case Not(operand) => LowerReadsMulFree(operand);
    case CountOnes(operand) => LowerReadsMulFree(operand);
    case Slice(operand, _, _) => LowerReadsMulFree(operand);
    case Concat(parts) => LowerPartsMulFree(parts);
    case Extend(_, operand, _) => LowerReadsMulFree(operand);
    case Flag(_, lhs, rhs, flagIn, _) => LowerReadsMulFree(lhs); LowerReadsMulFree(rhs); LowerReadsMulFree(flagIn);
    case Select(c, t, f) => LowerReadsMulFree(c); LowerReadsMulFree(t); LowerReadsMulFree(f);
    case _ =>
  }

  lemma {:induction false} LowerPartsMulFree(parts: seq<Expr>)
    requires AllMulFree(parts) && LowerReadsAll(parts).Some?
    ensures AllMulFree(LowerReadsAll(parts).value)
    decreases parts, 0
  {
    if parts != [] {
      assert parts[|parts| - 1] in parts;
      LowerPartsMulFree(parts[..|parts| - 1]);
      LowerReadsMulFree(parts[|parts| - 1]);
    }
  }

  lemma ForwardedMulFree(guard: Expr, destination: Expr, wanted: Expr, value: Expr, otherwise: Expr)
    requires MulFree(guard) && MulFree(destination) && MulFree(wanted) && MulFree(value) && MulFree(otherwise)
    ensures MulFree(Forwarded(guard, destination, wanted, value, otherwise))
  {
    assert MulFree(Bin(Equal, wanted, destination));
    assert MulFree(Bin(And, guard, Bin(Equal, wanted, destination)));
  }

  lemma {:induction false} ForwardsMulFree(key: Expr, width: nat, previous: seq<Effect>)
    requires MulFree(key) && MulFreeEffects(previous)
    ensures MulFree(ForwardRegister(key, width, previous)) && MulFree(ForwardMemory(key, width, previous))
  {
    if previous != [] {
      var init, e := previous[..|previous| - 1], previous[|previous| - 1];
      ForwardsMulFree(key, width, init);
      assert MulFreeEffect(e);
      ForwardedMulFree(e.guard, e.Destination(), key, e.value, ForwardRegister(key, width, init));
      ForwardedMulFree(e.guard, e.Destination(), key, e.value, ForwardMemory(key, width, init));
    }
  }

  lemma {:induction false} SubstituteMulFree(e: Expr, previous: seq<Effect>)
    requires MulFree(e) && MulFreeEffects(previous)
    ensures MulFree(Substitute(e, previous))
    decreases e, 1
  {
    match e
    case ReadRegister(register, width) =>
      SubstituteMulFree(register, previous);
      ForwardsMulFree(Substitute(register, previous), width, previous);
    case ReadMemory(address, width) =>
      SubstituteMulFree(address, previous);
      ForwardsMulFree(Substitute(address, previous), width, previous);
    case Bin(_, lhs, rhs) => SubstituteMulFree(lhs, previous); SubstituteMulFree(rhs, previous);
    case Not(operand) => SubstituteMulFree(operand, previous);
    case CountOnes(operand) => SubstituteMulFree(operand, previous);
    case Slice(operand, _, _) => SubstituteMulFree(operand, previous);
    case Concat(parts) => SubstitutePartsMulFree(parts, previous);
    case Extend(_, operand, _) => SubstituteMulFree(operand, previous);
    case Flag(_, lhs, rhs, flagIn, _) =>
      SubstituteMulFree(lhs, previous); SubstituteMulFree(rhs, previous); SubstituteMulFree(flagIn, previous);
    case Select(c, t, f) =>
      SubstituteMulFree(c, previous);
      SubstituteMulFree(t, previous);
      SubstituteMulFree(f, previous);
    case _ =>
  }

  lemma {:induction false} SubstitutePartsMulFree(parts: seq<Expr>, previous: seq<Effect>)
    requires AllMulFree(parts) && MulFreeEffects(previous)
    ensures AllMulFree(SubstituteAll(parts, previous))
    decreases parts, 0
  {
    if parts != [] {
      assert parts[|parts| - 1] in parts;
      SubstitutePartsMulFree(parts[..|parts| - 1], previous);
      SubstituteMulFree(parts[|parts| - 1], previous);
    }
  }

  // ----- how much fuel lowering needs -----

  function PartNeeds(e: Expr, previous: seq<Effect>): nat
  {
    if LowerReads(e).None? then 0 else Measure(Substitute(LowerReads(e).value, previous))
  }

  function InstructionNeeds(effects: seq<Effect>, previous: seq<Effect>): nat
  {
    if effects == [] then 0
    else
      var e := effects[|effects| - 1];
      InstructionNeeds(effects[..|effects| - 1], previous) + PartNeeds(e.guard, previous)
      + PartNeeds(e.Destination(), previous)
  }

  lemma PartEnds(e: Expr, previous: seq<Effect>, canonical: bool, le: Order, fuel: nat)
    requires MulFree(e) && MulFreeEffects(previous)
    ensures var r := LowerPart(e, previous, canonical, le, fuel);
      && (!canonical || PartNeeds(e, previous) < fuel ==> !r.OutOfFuel?)
      && (r.Done? ==> MulFree(r.value))
  {
    hide Canonicalize, MulFree, Measure;
    if LowerReads(e).Some? {
      var x := Substitute(LowerReads(e).value, previous);
      LowerReadsMulFree(e);
      SubstituteMulFree(LowerReads(e).value, previous);
      CanonicalMulFree(x, le, fuel);
      if Measure(x) < fuel { CanonicalizeTerminates(x, le, fuel); }
    }
  }

  lemma ByteStoreMulFree(guard: Expr, address: Expr, value: Expr, n: nat, addressWidth: nat)
    requires MulFree(guard) && MulFree(address) && MulFree(value)
    ensures MulFreeEffect(ByteStore(guard, address, value, n, addressWidth))
  {
  }

  lemma {:induction false} SplitStoreMulFree(guard: Expr, address: Expr, value: Expr, count: nat, addressWidth: nat)
    requires MulFree(guard) && MulFree(address) && MulFree(value)
    ensures MulFreeEffects(SplitStore(guard, address, value, count, addressWidth))
  {
    hide MulFreeEffect, ByteStore;
    if count > 0 {
      SplitStoreMulFree(guard, address, value, count - 1, addressWidth);
      ByteStoreMulFree(guard, address, value, count - 1, addressWidth);
    }
  }

  lemma EffectEnds(e: Effect, previous: seq<Effect>, le: Order, fuel: nat)
    requires MulFreeEffect(e) && MulFreeEffects(previous)
    ensures var r := LowerEffect(e, previous, le, fuel);
      && (PartNeeds(e.guard, previous) + PartNeeds(e.Destination(), previous) < fuel ==> !r.OutOfFuel?)
      && (r.Done? ==> MulFreeEffects(r.value))
  {
    hide LowerPart, MulFree, PartNeeds;
    PartEnds(e.guard, previous, true, le, fuel);
    PartEnds(e.Destination(), previous, true, le, fuel);
    PartEnds(e.value, previous, false, le, fuel);
    var guard, destination := LowerPart(e.guard, previous, true, le, fuel),
                              LowerPart(e.Destination(), previous, true, le, fuel);
    var value := LowerPart(e.value, previous, false, le, fuel);
    if guard.Done? && destination.Done? && value.Done? && e.WriteMemory? && ExprWidth(destination.value).Some? {
      SplitStoreMulFree(guard.value, destination.value, value.value, e.width / 8, ExprWidth(destination.value).value);
    }
  }

  lemma {:induction false} InstructionEnds(effects: seq<Effect>, previous: seq<Effect>, le: Order, fuel: nat)
    requires MulFreeEffects(effects) && MulFreeEffects(previous)
    ensures var r := LowerInstruction(effects, previous, le, fuel);
      && (InstructionNeeds(effects, previous) < fuel ==> !r.OutOfFuel?)
      && (r.Done? ==> MulFreeEffects(r.value))
  {
    hide LowerEffect, MulFreeEffect, PartNeeds;
    if effects != [] {
      InstructionEnds(effects[..|effects| - 1], previous, le, fuel);
      EffectEnds(effects[|effects| - 1], previous, le, fuel);
    }
  }

  lemma CombineMulFreeEffects(first: Effect, second: Effect)
    requires MulFreeEffect(first) && MulFreeEffect(second)
    ensures var c := CombineEffects(first, second); c.Some? && c.value.Some? ==> MulFreeEffect(c.value.value)
  {
    assert MulFree(Bin(Or, first.guard, second.guard));
    assert MulFree(Select(second.guard, second.value, first.value));
  }

  lemma {:induction false} MergeMulFree(list: seq<Effect>, e: Effect)
    requires MulFreeEffects(list) && MulFreeEffect(e)
    ensures var m := MergeEffect(list, e); m.Some? ==> MulFreeEffects(m.value)
  {
    hide MulFreeEffect, CombineEffects;
    if list != [] {
      assert MulFreeEffect(list[0]);
      CombineMulFreeEffects(list[0], e);
      MergeMulFree(list[1..], e);
    }
  }

  lemma {:induction false} MergeAllMulFree(list: seq<Effect>, effects: seq<Effect>)
    requires MulFreeEffects(list) && MulFreeEffects(effects)
    ensures var m := MergeAll(list, effects); m.Some? ==> MulFreeEffects(m.value)
  {
    hide MulFreeEffect, MergeEffect;
    if effects != [] {
      MergeAllMulFree(list, effects[..|effects| - 1]);
      var m := MergeAll(list, effects[..|effects| - 1]);
      if m.Some? { MergeMulFree(m.value, effects[|effects| - 1]); }
    }
  }

  lemma {:induction false} SequenceMulFree(program: seq<seq<Effect>>, le: Order, fuel: nat)
    requires MulFreeProgram(program)
    ensures var r := SequenceEffects(program, le, fuel); r.Done? ==> MulFreeEffects(r.value)
  {
    hide LowerInstruction, MergeAll, MulFreeEffect;
    if program != [] {
      var init, last := program[..|program| - 1], program[|program| - 1];
      SequenceMulFree(init, le, fuel);
      var earlier := SequenceEffects(init, le, fuel);
      if earlier.Done? {
        InstructionEnds(last, earlier.value, le, fuel);
        var lowered := LowerInstruction(last, earlier.value, le, fuel);
        if lowered.Done? { MergeAllMulFree(earlier.value, lowered.value); }
      }
    }
  }

  /** Some fuel is enough to fold the program. */
  lemma {:induction false} SequenceEnds(program: seq<seq<Effect>>, le: Order) returns (fuel: nat)
    requires MulFreeProgram(program)
    ensures !SequenceEffects(program, le, fuel).OutOfFuel?
  {
    hide LowerInstruction, MergeAll, MulFreeEffects;
    fuel := 0;
    if program != [] {
      var init, last := program[..|program| - 1], program[|program| - 1];
      var f := SequenceEnds(init, le);
      var earlier := SequenceEffects(init, le, f);
      fuel := f;
      if earlier.Done? {
        fuel := f + InstructionNeeds(last, earlier.value) + 1;
        SequenceStable(init, le, f, fuel);
        SequenceMulFree(init, le, f);
        InstructionEnds(last, earlier.value, le, fuel);
      }
    }
  }

  // ----- how much fuel comparing needs -----

  function ListNeeds(list: seq<Effect>): nat
  {
    if list == [] then 0
    else
      var e := list[|list| - 1];
      ListNeeds(list[..|list| - 1]) + Measure(e.guard) + Measure(e.Destination()) + Measure(e.value)
  }

  lemma CanonicalEffectEnds(e: Effect, le: Order, fuel: nat)
    requires MulFreeEffect(e)
    ensures var r := CanonicalEffect(e, le, fuel);
      && (Measure(e.guard) + Measure(e.Destination()) + Measure(e.value) < fuel ==> !r.OutOfFuel?)
      && (r.Done? ==> MulFreeEffect(r.value))
  {
    hide Canonicalize, MulFree, Measure;
    CanonicalMulFree(e.guard, le, fuel);
    CanonicalMulFree(e.Destination(), le, fuel);
    CanonicalMulFree(e.value, le, fuel);
    if Measure(e.guard) + Measure(e.Destination()) + Measure(e.value) < fuel {
      CanonicalizeTerminates(e.guard, le, fuel);
      CanonicalizeTerminates(e.Destination(), le, fuel);
      CanonicalizeTerminates(e.value, le, fuel);
    }
  }

  lemma {:induction false} CanonicalEffectsEnd(list: seq<Effect>, le: Order, fuel: nat)
    requires MulFreeEffects(list)
    ensures var r := CanonicalEffects(list, le, fuel);
      (ListNeeds(list) < fuel ==> !r.OutOfFuel?) && (r.Done? ==> MulFreeEffects(r.value))
  {
    hide CanonicalEffect, MulFreeEffect, Measure;
    if list != [] {
      CanonicalEffectsEnd(list[..|list| - 1], le, fuel);
      CanonicalEffectEnds(list[|list| - 1], le, fuel);
    }
  }

  lemma ProgramEnds(program: seq<seq<Effect>>, le: Order) returns (fuel: nat)
    requires MulFreeProgram(program)
    ensures var r := ProgramEffects(program, le, fuel); !r.OutOfFuel? && (r.Done? ==> MulFreeEffects(r.value))
  {
    hide SequenceEffects, CanonicalEffects, MulFreeProgram, MulFreeEffects;
    fuel := SequenceEnds(program, le);
    var list := SequenceEffects(program, le, fuel);
    if list.Done? {
      var f := fuel;
      fuel := f + ListNeeds(list.value) + 1;
      SequenceMulFree(program, le, f);
      SequenceStable(program, le, f, fuel);
      CanonicalEffectsEnd(list.value, le, fuel);
    }
  }

  function GuardedNeeds(e: Effect): nat
  {
    if Compared(e).None? then 0 else Measure(Compared(e).value)
  }

  function PairsNeed(left: seq<Effect>, right: seq<Effect>): nat
  {
    if left == [] then 0
    else
      var e := left[|left| - 1];
      var m := MatchingEffect(right, e);
      PairsNeed(left[..|left| - 1], right) + GuardedNeeds(e) + if m.Some? then GuardedNeeds(m.value) else 0
  }

  lemma GuardedEnds(e: Effect, le: Order, fuel: nat)
    requires MulFreeEffect(e) && GuardedNeeds(e) < fuel
    ensures !GuardedValue(e, le, fuel).OutOfFuel?
  {
    hide Canonicalize, Measure;
    if Compared(e).Some? { CanonicalizeTerminates(Compared(e).value, le, fuel); }
  }

  lemma PairEnds(e: Effect, right: seq<Effect>, le: Order, fuel: nat)
    requires MulFreeEffect(e) && MulFreeEffects(right) && GuardedNeeds(e) < fuel
    requires MatchingEffect(right, e).Some? ==> GuardedNeeds(MatchingEffect(right, e).value) < fuel
    ensures !ComparedPair(e, right, le, fuel).OutOfFuel?
  {
    hide GuardedValue, MulFreeEffect, GuardedNeeds;
    GuardedEnds(e, le, fuel);
    var m := MatchingEffect(right, e);
    if m.Some? { GuardedEnds(m.value, le, fuel); }
  }

  lemma {:induction false} PairsEnd(left: seq<Effect>, right: seq<Effect>, le: Order, fuel: nat)
    requires MulFreeEffects(left) && MulFreeEffects(right) && PairsNeed(left, right) < fuel
    ensures !ComparedPairs(left, right, le, fuel).OutOfFuel?
  {
    hide ComparedPair, MulFreeEffect, GuardedNeeds, MatchingEffect;
    if left != [] {
      PairsEnd(left[..|left| - 1], right, le, fuel);
      PairEnds(left[|left| - 1], right, le, fuel);
    }
  }

  lemma SomeFuelSuffices(leftProgram: seq<seq<Effect>>, rightProgram: seq<seq<Effect>>, le: Order) returns (fuel: nat)
    requires MulFreeProgram(leftProgram) && MulFreeProgram(rightProgram)
    ensures !Prepare(leftProgram, rightProgram, le, fuel).OutOfFuel?
  {
    hide ProgramEffects, ComparedPairs, MulFreeProgram, MulFreeEffects;
    var f := ProgramEnds(leftProgram, le);
    var g := ProgramEnds(rightProgram, le);
    var left, right := ProgramEffects(leftProgram, le, f), ProgramEffects(rightProgram, le, g);
    fuel := f + g + 1;
    if left.Done? && right.Done? {
      fuel := fuel + PairsNeed(left.value, right.value);
      PairsEnd(left.value, right.value, le, fuel);
    }
    ProgramStable(leftProgram, le, f, fuel);
    ProgramStable(rightProgram, le, g, fuel);
  }

  /** From this fuel on, preparing the comparison ends, and always with the same outcome. */
  ghost predicate EndsFrom(leftProgram: seq<seq<Effect>>, rightProgram: seq<seq<Effect>>, le: Order, fuel: nat)
  {
    var r := Prepare(leftProgram, rightProgram, le, fuel);
    !r.OutOfFuel? && forall f: nat | fuel <= f :: Prepare(leftProgram, rightProgram, le, f) == r
  }

  /** For programs without multiplication there is enough fuel. */
  lemma PreparationEnds(leftProgram: seq<seq<Effect>>, rightProgram: seq<seq<Effect>>, le: Order)
    requires MulFreeProgram(leftProgram) && MulFreeProgram(rightProgram)
    ensures exists fuel: nat :: EndsFrom(leftProgram, rightProgram, le, fuel)
  {
    hide Prepare;
    var fuel := SomeFuelSuffices(leftProgram, rightProgram, le);
    forall f: nat | fuel <= f
      ensures Prepare(leftProgram, rightProgram, le, f) == Prepare(leftProgram, rightProgram, le, fuel)
    {
      PrepareStable(leftProgram, rightProgram, le, fuel, f);
    }
    assert EndsFrom(leftProgram, rightProgram, le, fuel);
  }
}
