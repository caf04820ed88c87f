/** What the equivalence checker compares: for every write of the left list, the value each side leaves at
    its destination. */
module EffectComparison {
  import opened Words
  import opened Exprs
  import opened Effects
  import opened ByteMemory
  import opened Typing
  import opened Canonicalizer
  import opened CanonicalizerSound
  import opened CanonicalizerTheorems
  import opened CanonicalizerPanics
  import opened CanonicalizerTyping
  import opened EffectSequence
  import opened Forwarding
  import opened EffectSequenceTheorems
  import opened EffectSequenceLimits
  import opened SequenceTyping
  import opened PlainEffects
  import opened ReadViews
  import BddEquivalence

  // ----- canonical lists -----

  function CanonicalEffect(e: Effect, le: Order, fuel: nat): Outcome<Effect>
  {
    var (guard, o1) :- Canonicalize(e.guard, le, fuel);
    var (destination, o2) :- Canonicalize(e.Destination(), le, fuel);
    var (value, o3) :- Canonicalize(e.value, le, fuel);
    Done(match e
         case WriteRegister(_, _, _) => WriteRegister(guard, destination, value)
         case WriteMemory(_, _, _, width) => WriteMemory(guard, destination, value, width), o1 + o2 + o3)
  }

  function CanonicalEffects(list: seq<Effect>, le: Order, fuel: nat): Outcome<seq<Effect>>
  {
    if list == [] then Done([], {})
    else
      var (init, o1) :- CanonicalEffects(list[..|list| - 1], le, fuel);
      var (last, o2) :- CanonicalEffect(list[|list| - 1], le, fuel);
      Done(init + [last], o1 + o2)
  }

  // ----- what is compared -----

  /** The value an effect leaves at its destination: its own where its guard holds, the current one elsewhere.
      `None` is a panic on a value without a width or a store wider than a byte. */
  function Compared(e: Effect): Option<Expr>
  {
    match e
    case WriteMemory(guard, address, value, width) =>
      if width != 8 then None else Some(Select(guard, value, ReadMemory(address, width)))
    case WriteRegister(guard, register, value) =>
      var width :- ExprWidth(value);
      Some(Select(guard, value, ReadRegister(register, width)))
  }

  function GuardedValue(e: Effect, le: Order, fuel: nat): Outcome<Expr>
  {
    if Compared(e).None? then Panic else Canonicalize(Compared(e).value, le, fuel)
  }

  /** The first write of the same kind to the same destination is at index `k`. */
  predicate FirstMatch(effects: seq<Effect>, e: Effect, k: nat)
  {
    k < |effects| && SameDestination(effects[k], e) && forall j | 0 <= j < k :: !SameDestination(effects[j], e)
  }

  /** The first write of the same kind to the same destination, if there is one. */
  function MatchingEffect(effects: seq<Effect>, e: Effect): (r: Option<Effect>)
    ensures r.None? <==> forall x | x in effects :: !SameDestination(x, e)
    ensures r.Some? ==> r.value in effects && SameDestination(r.value, e)
    ensures r.Some? ==> exists k: nat :: FirstMatch(effects, e, k) && r.value == effects[k]
  {
    if effects == [] then None
    else if SameDestination(effects[0], e) then Some(effects[0])
    else FirstMatchSteps(effects, e); MatchingEffect(effects[1..], e)
  }

  lemma FirstMatchSteps(effects: seq<Effect>, e: Effect)
    requires effects != []
    ensures SameDestination(effects[0], e) ==> FirstMatch(effects, e, 0)
    ensures !SameDestination(effects[0], e) ==>
              forall k: nat :: FirstMatch(effects[1..], e, k) ==> FirstMatch(effects, e, k + 1)
  {
  }

  /** The two expressions compared for one write of the left list; a missing match on the right is a panic. */
  function ComparedPair(e: Effect, right: seq<Effect>, le: Order, fuel: nat): Outcome<(Expr, Expr)>
  {
    var (l, o1) :- GuardedValue(e, le, fuel);
    var m := MatchingEffect(right, e);
    if m.None? then Panic
    else
      var (r, o2) :- GuardedValue(m.value, le, fuel);
      Done((l, r), o1 + o2)
  }

  function ComparedPairs(left: seq<Effect>, right: seq<Effect>, le: Order, fuel: nat): (r: Outcome<seq<(Expr, Expr)>>)
    ensures r.Done? ==> |r.value| == |left|
  {
    if left == [] then Done([], {})
    else
      var (init, o1) :- ComparedPairs(left[..|left| - 1], right, le, fuel);
      var (last, o2) :- ComparedPair(left[|left| - 1], right, le, fuel);
      Done(init + [last], o1 + o2)
  }

  // ----- canonical lists mean the same -----

  ghost predicate SameMeaning(a: Effect, b: Effect, s: MachineState)
  {
    && a.WriteRegister? == b.WriteRegister? && (a.WriteMemory? ==> a.width == b.width)
    && Eval(a.guard, s) == Eval(b.guard, s)
    && Eval(a.Destination(), s) == Eval(b.Destination(), s)
    && Eval(a.value, s) == Eval(b.value, s)
  }

  ghost predicate SameLists(a: seq<Effect>, b: seq<Effect>, s: MachineState)
  {
    |a| == |b| && forall i | 0 <= i < |a| :: SameMeaning(a[i], b[i], s)
  }

  lemma {:induction false} SameListsUpdate(a: seq<Effect>, b: seq<Effect>, s: MachineState)
    requires SameLists(a, b, s)
    ensures RegisterWrites(a, s) == RegisterWrites(b, s) && MemoryWrites(a, s) == MemoryWrites(b, s)
  {
    if a != [] {
      assert SameMeaning(a[|a| - 1], b[|b| - 1], s);
      SameListsUpdate(a[..|a| - 1], b[..|b| - 1], s);
    }
  }

  lemma CanonicalSameParts(e: Effect, le: Order, fuel: nat, s: MachineState, g: Shape)
    requires Total(s, g) && GoodEffect(e, g)
    ensures var r := CanonicalEffect(e, le, fuel); r.Done? && AllHold(r.obligations, s) ==> SameMeaning(e, r.value, s)
  {
    hide Canonicalize;
    TotalIsWellFormed(s, g);
    GoodHasValues(e, s, g);
    CanonicalizePreservesMeaning(e.guard, le, fuel, s);
    CanonicalizePreservesMeaning(e.Destination(), le, fuel, s);
    CanonicalizePreservesMeaning(e.value, le, fuel, s);
  }

  lemma GoodHasValues(e: Effect, s: MachineState, g: Shape)
    requires Total(s, g) && GoodEffect(e, g)
    ensures LoweredEffect(e, s, g)
  {
    TypedIsReady(e, g, s);
  }

  lemma CanonicalStaysGood(e: Effect, le: Order, fuel: nat, g: Shape)
    requires ShapeOk(g) && GoodEffect(e, g)
    ensures var r := CanonicalEffect(e, le, fuel); r.Done? ==> GoodEffect(r.value, g)
  {
    CanonicalizeKeepsType(e.guard, 1, le, fuel, g);
    CanonicalizeKeepsType(e.Destination(), TypeOf(e.Destination(), g).value, le, fuel, g);
    CanonicalizeKeepsType(e.value, TypeOf(e.value, g).value, le, fuel, g);
    var r := CanonicalEffect(e, le, fuel);
    if r.Done? && e.WriteRegister? {
      if e.register.RegisterField? { FieldStays(e.register, le, fuel); }
      SameNames(e.register, r.value.register, TypeOf(e.value, g).value, g);
    }
  }

  lemma FieldStays(e: Expr, le: Order, fuel: nat)
    requires e.RegisterField? && Canonicalize(e, le, fuel).Done?
    ensures Canonicalize(e, le, fuel).value == e
  {
  }

  /** Canonicalizing every part of a list keeps it well-formed. */
  lemma {:induction false} CanonicalListGood(list: seq<Effect>, le: Order, fuel: nat, g: Shape)
    requires ShapeOk(g) && GoodList(list, g)
    ensures var r := CanonicalEffects(list, le, fuel); r.Done? ==> |r.value| == |list| && GoodList(r.value, g)
  {
    if list != [] {
      CanonicalListGood(list[..|list| - 1], le, fuel, g);
      CanonicalStaysGood(list[|list| - 1], le, fuel, g);
    }
  }

  /** Canonicalizing every part of a list keeps what it means in a state. */
  lemma {:induction false} CanonicalListMeaning(list: seq<Effect>, le: Order, fuel: nat, s: MachineState, g: Shape)
    requires Total(s, g) && GoodList(list, g)
    ensures var r := CanonicalEffects(list, le, fuel);
      r.Done? && AllHold(r.obligations, s) ==> SameLists(list, r.value, s)
  {
    hide CanonicalEffect, GoodEffect, SameMeaning;
    if list != [] {
      var init, last := list[..|list| - 1], list[|list| - 1];
      CanonicalListMeaning(init, le, fuel, s, g);
      CanonicalSameParts(last, le, fuel, s, g);
      var r := CanonicalEffects(list, le, fuel);
      if r.Done? && AllHold(r.obligations, s) {
        var earlier := CanonicalEffects(init, le, fuel);
        forall i | 0 <= i < |list| ensures SameMeaning(list[i], r.value[i], s) {
          if i < |init| { assert SameMeaning(init[i], earlier.value[i], s); }
        }
      }
    }
  }

  // ----- the compared value is the value left at the destination -----

  ghost predicate EndsWith(list: seq<Effect>, e: Effect, s: MachineState, v: Option<Word>)
    requires Eval(e.Destination(), s).Some?
  {
    var p := PlaceOf(e, s); InState(s, p) && InState(Update(list, s), p) && v == Some(At(Update(list, s), p))
  }

  /** Writes with different destinations do not hit each other's place. */
  lemma ApartMisses(x: Effect, e: Effect, s: MachineState, g: Shape)
    requires ReadyEffect(x, s, g) && ReadyEffect(e, s, g)
    requires x.WriteRegister? == e.WriteRegister? ==> Eval(x.Destination(), s) != Eval(e.Destination(), s)
    ensures !Hits(e, s, PlaceOf(x, s))
  {
  }

  lemma {:induction false} LatestAt(list: seq<Effect>, i: nat, s: MachineState, g: Shape, p: Place)
    requires i < |list| && Separated(list, s) && Lowered(list, s, g)
    requires Eval(list[i].Destination(), s).Some? && p == PlaceOf(list[i], s)
    ensures Latest(list, s, p) == if Fires(list[i].guard, s) then Eval(list[i].value, s) else None
  {
    var init, last := list[..|list| - 1], list[|list| - 1];
    LoweredPrefix(list, s, g);
    if i < |init| {
      LatestAt(init, i, s, g, p);
      ApartMisses(list[i], last, s, g);
    } else if !Fires(last.guard, s) {
      forall e | e in init ensures !Hits(e, s, p) {
        var k :| 0 <= k < |init| && init[k] == e;
        assert list[k] == e;
        ApartMisses(last, e, s, g);
      }
      MissingPlace(init, s, p);
    }
  }

  lemma CurrentValue(e: Effect, s: MachineState, g: Shape)
    requires Total(s, g) && GoodEffect(e, g)
    ensures Eval(e.Destination(), s).Some? && InState(s, PlaceOf(e, s)) && Compared(e).Some? && Eval(e.value, s).Some?
    ensures Eval(Compared(e).value.whenFalse, s) == Some(At(s, PlaceOf(e, s)))
    ensures Eval(Compared(e).value.whenFalse, s).value.width == Eval(e.value, s).value.width
  {
    GoodHasValues(e, s, g);
    TypedHasValue(e.value, g, s);
    TypeIsWidth(e.value, g);
  }

  /** The compared expression of a write evaluates in the start state to what the whole list leaves there. */
  lemma ComparedIsLeft(list: seq<Effect>, i: nat, s: MachineState, g: Shape)
    requires Total(s, g) && GoodList(list, g) && i < |list| && Separated(list, s)
    ensures Eval(list[i].Destination(), s).Some? && Compared(list[i]).Some?
    ensures EndsWith(list, list[i], s, Eval(Compared(list[i]).value, s))
  {
    var e := list[i];
    GoodIsLowered(list, s, g);
    CurrentValue(e, s, g);
    GoodHasValues(e, s, g);
    var p := PlaceOf(e, s);
    LatestAt(list, i, s, g, p);
    UpdateAt(list, s, g, p);
    CombinedValue(e.guard, e.value, Compared(e).value.whenFalse, s);
  }

  lemma GoodIsLowered(list: seq<Effect>, s: MachineState, g: Shape)
    requires Total(s, g) && GoodList(list, g)
    ensures Lowered(list, s, g)
  {
    forall e | e in list ensures ReadyEffect(e, s, g) { GoodHasValues(e, s, g); }
  }

  // ----- the two sides of a pair -----

  lemma {:induction false} PairAt(left: seq<Effect>, right: seq<Effect>, i: nat, le: Order, fuel: nat)
    requires i < |left| && ComparedPairs(left, right, le, fuel).Done?
    ensures var r, p := ComparedPairs(left, right, le, fuel), ComparedPair(left[i], right, le, fuel);
      p.Done? && r.value[i] == p.value && p.obligations <= r.obligations
  {
    if i < |left| - 1 { PairAt(left[..|left| - 1], right, i, le, fuel); }
  }

  lemma GuardedValueMeaning(e: Effect, le: Order, fuel: nat, s: MachineState, g: Shape)
    requires Total(s, g) && GoodEffect(e, g)
    ensures var r := GuardedValue(e, le, fuel);
      r.Done? && AllHold(r.obligations, s) && Eval(Compared(e).value, s).Some?
      ==> Eval(r.value, s) == Eval(Compared(e).value, s)
  {
    TotalIsWellFormed(s, g);
    if Compared(e).Some? { CanonicalizePreservesMeaning(Compared(e).value, le, fuel, s); }
  }

  /** In a total state the two expressions of a pair have the values the two lists leave at the destination. */
  lemma PairMeaning(left: seq<Effect>, right: seq<Effect>, i: nat, le: Order, fuel: nat, s: MachineState, g: Shape)
    requires Total(s, g) && GoodList(left, g) && GoodList(right, g) && Separated(left, s) && Separated(right, s)
    requires i < |left| && ComparedPairs(left, right, le, fuel).Done?
    requires AllHold(ComparedPairs(left, right, le, fuel).obligations, s)
    ensures Eval(left[i].Destination(), s).Some?
    ensures var (l, r) := ComparedPairs(left, right, le, fuel).value[i];
      EndsWith(left, left[i], s, Eval(l, s)) && EndsWith(right, left[i], s, Eval(r, s))
  {
    var e := left[i];
    PairAt(left, right, i, le, fuel);
    ComparedIsLeft(left, i, s, g);
    GuardedValueMeaning(e, le, fuel, s, g);
    var m := MatchingEffect(right, e).value;
    var j :| 0 <= j < |right| && right[j] == m;
    ComparedIsLeft(right, j, s, g);
    GuardedValueMeaning(m, le, fuel, s, g);
    assert PlaceOf(m, s) == PlaceOf(e, s);
  }

  lemma ComparedGood(e: Effect, g: Shape)
    requires GoodEffect(e, g)
    ensures Compared(e).Some? && Good(Compared(e).value, TypeOf(e.value, g).value, g)
  {
    var w := TypeOf(e.value, g).value;
    TypeIsWidth(e.value, g);
    GoodSelect(e.guard, e.value, Compared(e).value.whenFalse, w, g);
  }

  /** The two expressions of a pair can be lowered to bits, and have one width. */
  lemma PairComparable(left: seq<Effect>, right: seq<Effect>, i: nat, le: Order, fuel: nat, g: Shape)
    requires ShapeOk(g) && GoodList(left, g) && GoodList(right, g)
    requires i < |left| && ComparedPairs(left, right, le, fuel).Done?
    ensures var (l, r) := ComparedPairs(left, right, le, fuel).value[i];
      BddEquivalence.Comparable(l, g) && BddEquivalence.Comparable(r, g) && TypeOf(l, g) == TypeOf(r, g)
  {
    var e := left[i];
    PairAt(left, right, i, le, fuel);
    var m := MatchingEffect(right, e).value;
    assert GoodEffect(e, g) && GoodEffect(m, g);
    ComparedGood(e, g);
    ComparedGood(m, g);
    CanonicalizeIsLowerable(Compared(e).value, TypeOf(e.value, g).value, le, fuel, g);
    CanonicalizeIsLowerable(Compared(m).value, TypeOf(m.value, g).value, le, fuel, g);
    if e.WriteRegister? { OneWidth(e.register, TypeOf(e.value, g).value, TypeOf(m.value, g).value, g); }
  }

  // ----- whole programs -----

  /** The canonical effects of both programs and the pairs of expressions to compare. */
  datatype Comparison = Comparison(left: seq<Effect>, right: seq<Effect>, pairs: seq<(Expr, Expr)>)

  function ProgramEffects(program: seq<seq<Effect>>, le: Order, fuel: nat): Outcome<seq<Effect>>
  {
    var (list, o1) :- SequenceEffects(program, le, fuel);
    CanonicalEffects(list, le, fuel).With(o1)
  }

  function Prepare(
    leftProgram: seq<seq<Effect>>, rightProgram: seq<seq<Effect>>, le: Order, fuel: nat): Outcome<Comparison>
  {
    var (left, o1) :- ProgramEffects(leftProgram, le, fuel);
    var (right, o2) :- ProgramEffects(rightProgram, le, fuel);
    var (pairs, o3) :- ComparedPairs(left, right, le, fuel);
    Done(Comparison(left, right, pairs), o1 + o2 + o3)
  }

  /** The symbolic form of both programs is exact in the state: the reported rewrites are valid there, and
      distinct writes have distinct destinations. */
  ghost predicate ExactAt(c: Outcome<Comparison>, s: MachineState)
  {
    c.Done? && AllHold(c.obligations, s) && Separated(c.value.left, s) && Separated(c.value.right, s)
  }

  ghost predicate Exact(c: Outcome<Comparison>, g: Shape)
  {
    forall s | Total(s, g) :: ExactAt(c, s)
  }

  /** Both programs leave the same value at the destination of the write. */
  ghost predicate LeaveSame(leftProgram: seq<seq<Effect>>, rightProgram: seq<seq<Effect>>, e: Effect, s: MachineState)
  {
    var x, y := Run(leftProgram, s), Run(rightProgram, s);
    && Eval(e.Destination(), s).Some?
    && InState(x, PlaceOf(e, s)) && InState(y, PlaceOf(e, s)) && At(x, PlaceOf(e, s)) == At(y, PlaceOf(e, s))
  }

  /** Started in the state, both programs leave the same values at all destinations of the left one. */
  ghost predicate RunsAgree(
    leftProgram: seq<seq<Effect>>, rightProgram: seq<seq<Effect>>, left: seq<Effect>, s: MachineState)
  {
    forall i | 0 <= i < |left| :: LeaveSame(leftProgram, rightProgram, left[i], s)
  }

  ghost predicate PairsEqual(pairs: seq<(Expr, Expr)>, s: MachineState)
  {
    forall i | 0 <= i < |pairs| :: Eval(pairs[i].0, s) == Eval(pairs[i].1, s)
  }

  lemma SeparatedBack(a: seq<Effect>, b: seq<Effect>, s: MachineState)
    requires SameLists(a, b, s) && Separated(b, s)
    ensures Separated(a, s)
  {
    forall i, j | 0 <= i < j < |a| && a[i].WriteRegister? == a[j].WriteRegister?
      ensures Eval(a[i].Destination(), s) != Eval(a[j].Destination(), s)
    {
      assert SameMeaning(a[i], b[i], s) && SameMeaning(a[j], b[j], s);
    }
  }

  /** The canonical list of a program, applied at once, leaves what the program leaves. */
  lemma ProgramEffectsRun(program: seq<seq<Effect>>, le: Order, fuel: nat, s: MachineState, g: Shape)
    requires Total(s, g) && ShapeOk(g) && DescribedProgram(program, g)
    requires var r := ProgramEffects(program, le, fuel); r.Done? && AllHold(r.obligations, s) && Separated(r.value, s)
    ensures var list := ProgramEffects(program, le, fuel).value;
      GoodList(list, g) && Update(list, s) == Run(program, s)
  {
    var list := SequenceEffects(program, le, fuel);
    var canonical := CanonicalEffects(list.value, le, fuel);
    SequenceGood(program, le, fuel, g, s);
    CanonicalListGood(list.value, le, fuel, g);
    CanonicalListMeaning(list.value, le, fuel, s, g);
    SeparatedBack(list.value, canonical.value, s);
    DescribedIsTyped(program, g);
    SeparatedIsRun(program, le, fuel, s, g);
    SameListsUpdate(list.value, canonical.value, s);
  }

  lemma DescribedIsTyped(program: seq<seq<Effect>>, g: Shape)
    requires DescribedProgram(program, g)
    ensures TypedProgram(program, g)
  {
    forall i | i in program ensures TypedEffects(i, g) { assert DescribedInstruction(i, g); }
  }

  /** What a pair's values say about the two runs. */
  lemma PairDecides(
    leftProgram: seq<seq<Effect>>, rightProgram: seq<seq<Effect>>, i: nat, le: Order, fuel: nat, s: MachineState,
    g: Shape)
    requires Total(s, g) && ShapeOk(g) && DescribedProgram(leftProgram, g) && DescribedProgram(rightProgram, g)
    requires ExactAt(Prepare(leftProgram, rightProgram, le, fuel), s)
    requires i < |Prepare(leftProgram, rightProgram, le, fuel).value.left|
    ensures var c := Prepare(leftProgram, rightProgram, le, fuel).value;
      && |c.pairs| == |c.left| && Eval(c.pairs[i].0, s).Some? && Eval(c.pairs[i].1, s).Some?
      && (Eval(c.pairs[i].0, s) == Eval(c.pairs[i].1, s) <==> LeaveSame(leftProgram, rightProgram, c.left[i], s))
  {
    var r := Prepare(leftProgram, rightProgram, le, fuel);
    var c := r.value;
    ProgramEffectsRun(leftProgram, le, fuel, s, g);
    ProgramEffectsRun(rightProgram, le, fuel, s, g);
    PairMeaning(c.left, c.right, i, le, fuel, s, g);
  }

  /** In a state where the symbolic form is exact, all pairs have equal values if and only if the programs agree
      on every place the left one writes. */
  lemma PairsDecide(
    leftProgram: seq<seq<Effect>>, rightProgram: seq<seq<Effect>>, le: Order, fuel: nat, s: MachineState, g: Shape)
    requires Total(s, g) && ShapeOk(g) && DescribedProgram(leftProgram, g) && DescribedProgram(rightProgram, g)
    requires ExactAt(Prepare(leftProgram, rightProgram, le, fuel), s)
    ensures var c := Prepare(leftProgram, rightProgram, le, fuel).value;
      PairsEqual(c.pairs, s) <==> RunsAgree(leftProgram, rightProgram, c.left, s)
  {
    hide Prepare, LeaveSame;
    var c := Prepare(leftProgram, rightProgram, le, fuel).value;
    SameLength(leftProgram, rightProgram, le, fuel);
    forall i | 0 <= i < |c.left|
      ensures Eval(c.pairs[i].0, s) == Eval(c.pairs[i].1, s) <==> LeaveSame(leftProgram, rightProgram, c.left[i], s)
    {
      PairDecides(leftProgram, rightProgram, i, le, fuel, s, g);
    }
  }

  lemma SameLength(leftProgram: seq<seq<Effect>>, rightProgram: seq<seq<Effect>>, le: Order, fuel: nat)
    requires Prepare(leftProgram, rightProgram, le, fuel).Done?
    ensures var c := Prepare(leftProgram, rightProgram, le, fuel).value; |c.pairs| == |c.left|
  {
  }

  /** What a comparison verdict has to be: no pair can be told apart. */
  ghost predicate AllEquivalent(pairs: seq<(Expr, Expr)>, g: Shape)
  {
    forall i | 0 <= i < |pairs| :: BddEquivalence.Equivalent(pairs[i].0, pairs[i].1, g)
  }

  lemma EquivalentIsEqual(pairs: seq<(Expr, Expr)>, g: Shape)
    ensures AllEquivalent(pairs, g) <==> forall s | Total(s, g) :: PairsEqual(pairs, s)
  {
    if forall s | Total(s, g) :: PairsEqual(pairs, s) {
      forall i | 0 <= i < |pairs| ensures BddEquivalence.Equivalent(pairs[i].0, pairs[i].1, g) {
        forall s | Total(s, g) ensures Eval(pairs[i].0, s) == Eval(pairs[i].1, s) { assert PairsEqual(pairs, s); }
      }
    }
  }

  // ----- what the managers need -----

  ghost predicate PairOk(pair: (Expr, Expr), g: Shape)
  {
    BddEquivalence.Comparable(pair.0, g) && BddEquivalence.Comparable(pair.1, g)
    && TypeOf(pair.0, g) == TypeOf(pair.1, g)
  }

  ghost predicate PairsOk(pairs: seq<(Expr, Expr)>, g: Shape)
  {
    forall i | 0 <= i < |pairs| :: PairOk(pairs[i], g)
  }

  lemma ComparedPairsOk(left: seq<Effect>, right: seq<Effect>, le: Order, fuel: nat, g: Shape)
    requires ShapeOk(g) && GoodList(left, g) && GoodList(right, g) && ComparedPairs(left, right, le, fuel).Done?
    ensures PairsOk(ComparedPairs(left, right, le, fuel).value, g)
  {
    forall i | 0 <= i < |left| ensures PairOk(ComparedPairs(left, right, le, fuel).value[i], g) {
      PairComparable(left, right, i, le, fuel, g);
    }
  }

  lemma ProgramEffectsGood(program: seq<seq<Effect>>, le: Order, fuel: nat, g: Shape)
    requires ShapeOk(g) && DescribedProgram(program, g) && ProgramEffects(program, le, fuel).Done?
    ensures GoodList(ProgramEffects(program, le, fuel).value, g)
  {
    var s := SomeState(g);
    SequenceGood(program, le, fuel, g, s);
    CanonicalListGood(SequenceEffects(program, le, fuel).value, le, fuel, g);
  }

  /** The left expressions of the pairs do not depend on the right list. */
  lemma SameLeftExpressions(left: seq<Effect>, right: seq<Effect>, other: seq<Effect>, i: nat, le: Order, fuel: nat)
    requires i < |left| && ComparedPairs(left, right, le, fuel).Done? && ComparedPairs(left, other, le, fuel).Done?
    ensures ComparedPairs(left, right, le, fuel).value[i].0 == ComparedPairs(left, other, le, fuel).value[i].0
  {
    PairAt(left, right, i, le, fuel);
    PairAt(left, other, i, le, fuel);
  }

  // ----- when preparing a comparison ends without a result -----

  lemma CanonicalEffectAccounted(e: Effect, plain: bool, le: Order, fuel: nat, g: Shape)
    requires ShapeOk(g) && GoodEffect(e, g) && (plain ==> PlainWrite(e))
    ensures var r := CanonicalEffect(e, le, fuel);
      !r.Panic? && Accounted(r, plain) && (plain && r.Done? ==> PlainWrite(r.value))
  {
    hide Canonicalize, KeepsNoTerm, Anchored, Plain;
    CanonicalizeKeepsType(e.guard, 1, le, fuel, g);
    CanonicalizeKeepsType(e.Destination(), TypeOf(e.Destination(), g).value, le, fuel, g);
    CanonicalizeKeepsType(e.value, TypeOf(e.value, g).value, le, fuel, g);
    CanonicalizeAccounts(e.guard, le, fuel);
    CanonicalizeAccounts(e.Destination(), le, fuel);
    CanonicalizeAccounts(e.value, le, fuel);
    if plain {
      TrueStaysTrue([], le, fuel);
      CanonicalizePlain(e.Destination(), le, fuel);
      CanonicalizePlain(e.value, le, fuel);
    }
  }

  lemma {:induction false} CanonicalListAccounted(list: seq<Effect>, plain: bool, le: Order, fuel: nat, g: Shape)
    requires ShapeOk(g) && GoodList(list, g) && (plain ==> PlainWrites(list))
    ensures var r := CanonicalEffects(list, le, fuel);
      !r.Panic? && Accounted(r, plain) && (plain && r.Done? ==> PlainWrites(r.value))
  {
    hide CanonicalEffect, GoodEffect, PlainWrite, KeepsNoTerm, Anchored;
    if list != [] {
      CanonicalListAccounted(list[..|list| - 1], plain, le, fuel, g);
      CanonicalEffectAccounted(list[|list| - 1], plain, le, fuel, g);
    }
  }

  /** The canonical effects of a described program: no panic but that of an operation without terms. */
  lemma ProgramAccounted(program: seq<seq<Effect>>, plain: bool, le: Order, fuel: nat, g: Shape)
    requires ShapeOk(g) && DescribedProgram(program, g) && (plain ==> PlainProgram(program))
    ensures var r := ProgramEffects(program, le, fuel);
      && !r.Panic? && Accounted(r, plain)
      && (r.Done? ==> GoodList(r.value, g) && (plain ==> PlainWrites(r.value)))
  {
    hide SequenceEffects, CanonicalEffects, PlainWrites, GoodList, PlainProgram;
    var s := SomeState(g);
    SequenceGood(program, le, fuel, g, s);
    SequenceAccounted(program, plain, le, fuel);
    if plain { SequencePlain(program, le, fuel); }
    var list := SequenceEffects(program, le, fuel);
    if list.Done? {
      CanonicalListGood(list.value, le, fuel, g);
      CanonicalListAccounted(list.value, plain, le, fuel, g);
      WithAccounted(CanonicalEffects(list.value, le, fuel), list.obligations, plain);
    }
  }

  /** Some write of the left list has no write to the same destination on the right. */
  ghost predicate Unmatched(left: seq<Effect>, right: seq<Effect>)
  {
    exists e :: e in left && forall x | x in right :: !SameDestination(x, e)
  }

  lemma UnmatchedSplit(left: seq<Effect>, right: seq<Effect>)
    requires left != []
    ensures Unmatched(left, right)
            <==> Unmatched(left[..|left| - 1], right) || MatchingEffect(right, left[|left| - 1]).None?
  {
    var init, last := left[..|left| - 1], left[|left| - 1];
    assert left == init + [last];
    if Unmatched(init, right) {
      var e :| e in init && forall x | x in right :: !SameDestination(x, e);
      assert e in left;
    }
    assert last in left;
  }

  lemma ComparedPlain(e: Effect)
    requires PlainWrite(e) && Compared(e).Some?
    ensures Plain(Compared(e).value)
  {
  }

  lemma GuardedAccounted(e: Effect, plain: bool, le: Order, fuel: nat, g: Shape)
    requires ShapeOk(g) && GoodEffect(e, g) && (plain ==> PlainWrite(e))
    ensures var r := GuardedValue(e, le, fuel); !r.Panic? && Accounted(r, plain)
  {
    hide Canonicalize, Compared, KeepsNoTerm, Anchored, Plain;
    ComparedGood(e, g);
    if plain { ComparedPlain(e); }
    CanonicalizeKeepsType(Compared(e).value, TypeOf(e.value, g).value, le, fuel, g);
    CanonicalizeAccounts(Compared(e).value, le, fuel);
  }

  lemma PairAccounted(e: Effect, right: seq<Effect>, plain: bool, le: Order, fuel: nat, g: Shape)
    requires ShapeOk(g) && GoodEffect(e, g) && GoodList(right, g) && (plain ==> PlainWrite(e) && PlainWrites(right))
    ensures var r := ComparedPair(e, right, le, fuel);
      Accounted(r, plain) && (r.Panic? ==> MatchingEffect(right, e).None?)
      && (r.Done? ==> MatchingEffect(right, e).Some?)
  {
    hide GuardedValue, GoodEffect, PlainWrite, KeepsNoTerm, Anchored;
    GuardedAccounted(e, plain, le, fuel, g);
    var m := MatchingEffect(right, e);
    if m.Some? { GuardedAccounted(m.value, plain, le, fuel, g); }
  }

  lemma {:induction false} PairsAccounted(
    left: seq<Effect>, right: seq<Effect>, plain: bool, le: Order, fuel: nat, g: Shape)
    requires ShapeOk(g) && GoodList(left, g) && GoodList(right, g)
             && (plain ==> PlainWrites(left) && PlainWrites(right))
    ensures var r := ComparedPairs(left, right, le, fuel);
      Accounted(r, plain) && (r.Panic? ==> Unmatched(left, right)) && (r.Done? ==> !Unmatched(left, right))
  {
    hide ComparedPair, GoodEffect, PlainWrite, KeepsNoTerm, Anchored;
    if left != [] {
      PairsAccounted(left[..|left| - 1], right, plain, le, fuel, g);
      PairAccounted(left[|left| - 1], right, plain, le, fuel, g);
      UnmatchedSplit(left, right);
    }
  }

  /** Preparing the comparison of two described programs, with fuel left, fails for two reasons only: an absorption
      it reports keeps no term, or a write of the left list has no counterpart on the right.  The first does not
      happen for programs of unconditional plain writes. */
  lemma PrepareExactly(
    leftProgram: seq<seq<Effect>>, rightProgram: seq<seq<Effect>>, plain: bool, le: Order, fuel: nat, g: Shape)
    requires ShapeOk(g) && DescribedProgram(leftProgram, g) && DescribedProgram(rightProgram, g)
    requires plain ==> PlainProgram(leftProgram) && PlainProgram(rightProgram)
    ensures var r := Prepare(leftProgram, rightProgram, le, fuel);
      var left, right := ProgramEffects(leftProgram, le, fuel), ProgramEffects(rightProgram, le, fuel);
      && (r.NoTerms? <==> exists o :: o in Reported(r) && KeepsNoTerm(o))
      && (r.Panic? ==> left.Done? && right.Done? && Unmatched(left.value, right.value))
      && (r.Done? ==> left.Done? && right.Done? && !Unmatched(left.value, right.value))
      && Accounted(r, plain)
  {
    hide ProgramEffects, ComparedPairs, KeepsNoTerm, Anchored, PlainWrites, GoodList;
    ProgramAccounted(leftProgram, plain, le, fuel, g);
    ProgramAccounted(rightProgram, plain, le, fuel, g);
    var left, right := ProgramEffects(leftProgram, le, fuel), ProgramEffects(rightProgram, le, fuel);
    if left.Done? && right.Done? { PairsAccounted(left.value, right.value, plain, le, fuel, g); }
  }

  lemma MatchesItself(list: seq<Effect>)
    ensures !Unmatched(list, list)
  {
    forall e | e in list ensures exists x :: x in list && SameDestination(x, e) { assert SameDestination(e, e); }
  }

  /** Preparing the comparison of a described program with itself never misses a counterpart. */
  lemma PrepareItself(program: seq<seq<Effect>>, le: Order, fuel: nat, g: Shape)
    requires ShapeOk(g) && DescribedProgram(program, g)
    ensures !Prepare(program, program, le, fuel).Panic?
  {
    hide Prepare, ProgramEffects;
    PrepareExactly(program, program, false, le, fuel, g);
    var list := ProgramEffects(program, le, fuel);
    if list.Done? { MatchesItself(list.value); }
  }

  // ----- programs that only write registers they name outright -----

  lemma {:induction false} CanonicalKeepsFixed(list: seq<Effect>, le: Order, fuel: nat, w: nat)
    requires AllFixed(list, w) && CanonicalEffects(list, le, fuel).Done?
    ensures var r := CanonicalEffects(list, le, fuel).value;
      |r| == |list| && forall i | 0 <= i < |list| :: SameDestination(r[i], list[i])
  {
    if list != [] {
      assert FixedWrite(list[|list| - 1], w);
      CanonicalKeepsFixed(list[..|list| - 1], le, fuel, w);
      FieldStays(list[|list| - 1].register, le, fuel);
    }
  }

  lemma FixedStaysSeparated(program: seq<seq<Effect>>, le: Order, fuel: nat, w: nat, s: MachineState)
    requires (forall i | i in program :: AllFixed(i, w)) && ProgramEffects(program, le, fuel).Done?
    ensures Separated(ProgramEffects(program, le, fuel).value, s)
  {
    var list, r := SequenceEffects(program, le, fuel).value, ProgramEffects(program, le, fuel).value;
    SequenceStaysFixed(program, le, fuel, w);
    CanonicalKeepsFixed(list, le, fuel, w);
    forall i | 0 <= i < |r| ensures FixedWrite(r[i], w) { assert FixedWrite(list[i], w); }
    forall i, j | 0 <= i < j < |r| ensures !SameDestination(r[i], r[j]) {
      assert FixedWrite(list[i], w) && FixedWrite(list[j], w) && !SameDestination(list[i], list[j]);
    }
    FixedIsSeparated(r, w, s);
  }

  /** For programs that only write registers they name outright, only the rewrites have to be valid. */
  lemma FixedProgramsAreExact(
    leftProgram: seq<seq<Effect>>, rightProgram: seq<seq<Effect>>, le: Order, fuel: nat, g: Shape)
    requires (forall i | i in leftProgram :: AllFixed(i, g.identifierWidth))
             && (forall i | i in rightProgram :: AllFixed(i, g.identifierWidth))
    requires Prepare(leftProgram, rightProgram, le, fuel).Done?
    requires forall s | Total(s, g) :: AllHold(Prepare(leftProgram, rightProgram, le, fuel).obligations, s)
    ensures Exact(Prepare(leftProgram, rightProgram, le, fuel), g)
  {
    hide ProgramEffects;
    var c := Prepare(leftProgram, rightProgram, le, fuel);
    forall s | Total(s, g) ensures ExactAt(c, s) {
      FixedStaysSeparated(leftProgram, le, fuel, g.identifierWidth, s);
      FixedStaysSeparated(rightProgram, le, fuel, g.identifierWidth, s);
    }
  }
}
