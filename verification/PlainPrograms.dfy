/** Programs whose comparison needs no hypothesis on the run.

    Programs of unconditional plain writes are always folded, canonicalized and paired, and every rewrite reported
    on the way is valid in every state.  If they also write only registers they name outright, the comparison is
    prepared exactly when the right program writes every register the left one writes, and then it is exact. */
module PlainPrograms {
  import opened Words
  import opened Exprs
  import opened Effects
  import opened Typing
  import opened Canonicalizer
  import opened AbsorptionLimits
  import opened TreeShapes
  import opened CanonicalizerSound
  import opened CanonicalizerTermination
  import opened CanonicalizerPanics
  import opened EffectSequence
  import opened EffectSequenceTheorems
  import opened EffectSequenceLimits
  import opened SequenceTyping
  import opened PlainEffects
  import opened EffectComparison
  import opened PreparationFuel

  // ----- no hypothesis on the run -----

  lemma CleanHolds(obligations: set<Obligation>, s: MachineState)
    requires Clean(obligations, true)
    ensures AllHold(obligations, s)
  {
    hide Holds, AllAnchored;
    forall o | o in obligations ensures Holds(o, s) {
      assert Anchored(o);
      AnchoredHolds(o.op, o.terms, o.absorbers, s);
    }
  }

  lemma PlainProgramIsMulFree(program: seq<seq<Effect>>)
    requires PlainProgram(program)
    ensures MulFreeProgram(program)
  {
    hide Plain, MulFree;
    forall i, e | i in program && e in i ensures MulFreeEffect(e) {
      assert PlainWrites(i);
      assert PlainWrite(e);
      TrueIsPlain();
      PlainIsMulFree(e.guard);
      PlainIsMulFree(e.Destination());
      PlainIsMulFree(e.value);
    }
  }

  /** Preparing the comparison of unconditional plain programs ends, in a panic only if a write has no counterpart,
      and otherwise with rewrites that are valid in every state. */
  lemma PlainProgramsPrepare(leftProgram: seq<seq<Effect>>, rightProgram: seq<seq<Effect>>, le: Order, g: Shape)
    requires ShapeOk(g) && DescribedProgram(leftProgram, g) && DescribedProgram(rightProgram, g)
    requires PlainProgram(leftProgram) && PlainProgram(rightProgram)
    ensures exists fuel: nat :: EndsFrom(leftProgram, rightProgram, le, fuel)
    ensures forall fuel: nat | EndsFrom(leftProgram, rightProgram, le, fuel) ::
              PreparedFully(leftProgram, rightProgram, le, fuel)
  {
    hide PlainProgram, MulFreeProgram, EndsFrom, DescribedProgram;
    PlainProgramIsMulFree(leftProgram);
    PlainProgramIsMulFree(rightProgram);
    PreparationEnds(leftProgram, rightProgram, le);
    forall fuel: nat | EndsFrom(leftProgram, rightProgram, le, fuel)
      ensures PreparedFully(leftProgram, rightProgram, le, fuel)
    {
      PlainOutcome(leftProgram, rightProgram, le, fuel, g);
    }
  }

  /** The comparison is prepared, with rewrites valid in every state, or the programs do not match. */
  ghost predicate PreparedFully(leftProgram: seq<seq<Effect>>, rightProgram: seq<seq<Effect>>, le: Order, fuel: nat)
  {
    var r := Prepare(leftProgram, rightProgram, le, fuel);
    var left, right := ProgramEffects(leftProgram, le, fuel), ProgramEffects(rightProgram, le, fuel);
    && left.Done? && right.Done?
    && if Unmatched(left.value, right.value) then r.Panic? else r.Done? && forall s :: AllHold(r.obligations, s)
  }

  lemma PlainOutcome(leftProgram: seq<seq<Effect>>, rightProgram: seq<seq<Effect>>, le: Order, fuel: nat, g: Shape)
    requires ShapeOk(g) && DescribedProgram(leftProgram, g) && DescribedProgram(rightProgram, g)
    requires PlainProgram(leftProgram) && PlainProgram(rightProgram) && EndsFrom(leftProgram, rightProgram, le, fuel)
    ensures PreparedFully(leftProgram, rightProgram, le, fuel)
  {
    hide PlainProgram, DescribedProgram, Prepare, Unmatched, KeepsNoTerm, Anchored, Clean;
    PrepareExactly(leftProgram, rightProgram, true, le, fuel, g);
    var r := Prepare(leftProgram, rightProgram, le, fuel);
    if r.Done? {
      forall s ensures AllHold(r.obligations, s) { CleanHolds(r.obligations, s); }
    }
  }

  // ----- the registers a program writes -----

  ghost predicate Names(list: seq<Effect>, destination: Expr)
  {
    exists e :: e in list && e.Destination() == destination
  }

  ghost predicate ProgramNames(program: seq<seq<Effect>>, destination: Expr)
  {
    exists i :: i in program && Names(i, destination)
  }

  lemma NamesConcat(a: seq<Effect>, b: seq<Effect>, d: Expr)
    ensures Names(a + b, d) <==> Names(a, d) || Names(b, d)
  {
    if Names(a, d) { var e :| e in a && e.Destination() == d; assert e in a + b; }
    if Names(b, d) { var e :| e in b && e.Destination() == d; assert e in a + b; }
  }

  lemma NamesOne(e: Effect, d: Expr)
    ensures Names([e], d) <==> e.Destination() == d
  {
    assert e in [e];
  }

  lemma NamesSplit(list: seq<Effect>, d: Expr)
    requires list != []
    ensures Names(list, d) <==> list[0].Destination() == d || Names(list[1..], d)
    ensures Names(list, d) <==> Names(list[..|list| - 1], d) || list[|list| - 1].Destination() == d
  {
    var n := |list| - 1;
    assert list == [list[0]] + list[1..] && list == list[..n] + [list[n]];
    NamesConcat([list[0]], list[1..], d);
    NamesConcat(list[..n], [list[n]], d);
    NamesOne(list[0], d);
    NamesOne(list[n], d);
  }

  lemma CombinedName(x: Effect, e: Effect)
    ensures var c := CombineEffects(x, e);
      c.Some? && c.value.Some? ==> c.value.value.Destination() == x.Destination() == e.Destination()
  {
  }

  lemma {:induction false} MergeNames(list: seq<Effect>, e: Effect, d: Expr)
    requires MergeEffect(list, e).Some? && e.guard != Const(0, 1)
    ensures Names(MergeEffect(list, e).value, d) <==> Names(list, d) || e.Destination() == d
  {
    hide CombineEffects, Names;
    var m := MergeEffect(list, e).value;
    if list == [] {
      NamesOne(e, d);
      NoNames(d);
    } else {
      CombinedName(list[0], e);
      NamesSplit(list, d);
      NamesSplit(m, d);
      if CombineEffects(list[0], e).value.Some? {
        assert m[1..] == list[1..];
      } else {
        MergeNames(list[1..], e, d);
        assert m[1..] == MergeEffect(list[1..], e).value;
      }
    }
  }

  lemma NoNames(d: Expr)
    ensures !Names([], d)
  {
  }

  lemma {:induction false} MergeAllNames(list: seq<Effect>, effects: seq<Effect>, d: Expr)
    requires MergeAll(list, effects).Some? && PlainWrites(effects)
    ensures Names(MergeAll(list, effects).value, d) <==> Names(list, d) || Names(effects, d)
  {
    hide MergeEffect, Names, Plain;
    if effects == [] {
      NoNames(d);
    } else {
      var init, last := effects[..|effects| - 1], effects[|effects| - 1];
      assert PlainWrite(last);
      MergeAllNames(list, init, d);
      MergeNames(MergeAll(list, init).value, last, d);
      NamesSplit(effects, d);
    }
  }

  lemma {:induction false} LowerNames(
    effects: seq<Effect>, previous: seq<Effect>, le: Order, fuel: nat, w: nat, d: Expr)
    requires AllFixed(effects, w) && LowerInstruction(effects, previous, le, fuel).Done?
    ensures Names(LowerInstruction(effects, previous, le, fuel).value, d) <==> Names(effects, d)
  {
    hide Names;
    if effects != [] {
      var init, e := effects[..|effects| - 1], effects[|effects| - 1];
      LowerNames(init, previous, le, fuel, w, d);
      assert FixedWrite(e, w);
      var lowered := LowerEffect(e, previous, le, fuel).value;
      assert LowerPart(e.register, previous, true, le, fuel).value == e.register;
      assert lowered == [lowered[0]] && lowered[0].register == e.register;
      NamesSplit(effects, d);
      NamesConcat(LowerInstruction(init, previous, le, fuel).value, lowered, d);
      NamesOne(lowered[0], d);
    }
  }

  lemma ProgramNamesSplit(program: seq<seq<Effect>>, d: Expr)
    requires program != []
    ensures ProgramNames(program, d) <==> ProgramNames(program[..|program| - 1], d) || Names(program[|program| - 1], d)
  {
    hide Names;
    var n := |program| - 1;
    if ProgramNames(program[..n], d) {
      var i :| i in program[..n] && Names(i, d);
      assert i in program;
    }
    if ProgramNames(program, d) && !Names(program[n], d) {
      var i :| i in program && Names(i, d);
      assert i in program[..n];
    }
  }

  /** The folded list names exactly the registers the program writes. */
  lemma {:induction false} SequenceNames(program: seq<seq<Effect>>, le: Order, fuel: nat, w: nat, d: Expr)
    requires PlainProgram(program) && (forall i | i in program :: AllFixed(i, w))
    requires SequenceEffects(program, le, fuel).Done?
    ensures Names(SequenceEffects(program, le, fuel).value, d) <==> ProgramNames(program, d)
  {
    hide LowerInstruction, MergeAll, Names, ProgramNames, PlainWrites, AllFixed;
    if program == [] {
      NoNames(d);
      NoProgramNames(d);
    } else {
      var init, last := program[..|program| - 1], program[|program| - 1];
      SequenceNames(init, le, fuel, w, d);
      SequencePlain(init, le, fuel);
      assert PlainWrites(last) && AllFixed(last, w);
      var list := SequenceEffects(init, le, fuel).value;
      LowerInstructionPlain(last, list, le, fuel);
      LowerNames(last, list, le, fuel, w, d);
      MergeAllNames(list, LowerInstruction(last, list, le, fuel).value, d);
      ProgramNamesSplit(program, d);
    }
  }

  lemma NoProgramNames(d: Expr)
    ensures !ProgramNames([], d)
  {
  }

  lemma SameNamesPointwise(a: seq<Effect>, b: seq<Effect>, d: Expr)
    requires |a| == |b| && forall i | 0 <= i < |a| :: SameDestination(a[i], b[i])
    ensures Names(a, d) <==> Names(b, d)
  {
    if Names(a, d) {
      var i :| 0 <= i < |a| && a[i].Destination() == d;
      assert SameDestination(a[i], b[i]) && b[i] in b;
    }
    if Names(b, d) {
      var i :| 0 <= i < |b| && b[i].Destination() == d;
      assert SameDestination(a[i], b[i]) && a[i] in a;
    }
  }

  lemma ProgramEffectsNames(program: seq<seq<Effect>>, le: Order, fuel: nat, w: nat, d: Expr)
    requires PlainProgram(program) && (forall i | i in program :: AllFixed(i, w))
    requires ProgramEffects(program, le, fuel).Done?
    ensures Names(ProgramEffects(program, le, fuel).value, d) <==> ProgramNames(program, d)
    ensures forall e | e in ProgramEffects(program, le, fuel).value :: e.WriteRegister?
  {
    hide SequenceEffects, CanonicalEffects, Names, ProgramNames, PlainProgram;
    var list, r := SequenceEffects(program, le, fuel).value, ProgramEffects(program, le, fuel).value;
    SequenceNames(program, le, fuel, w, d);
    SequenceStaysFixed(program, le, fuel, w);
    CanonicalKeepsFixed(list, le, fuel, w);
    SameNamesPointwise(r, list, d);
    forall i | 0 <= i < |r| ensures r[i].WriteRegister? {
      assert SameDestination(r[i], list[i]) && FixedWrite(list[i], w);
    }
  }

  lemma MatchIsName(effects: seq<Effect>, e: Effect)
    requires e.WriteRegister? && forall x | x in effects :: x.WriteRegister?
    ensures (forall x | x in effects :: !SameDestination(x, e)) <==> !Names(effects, e.Destination())
  {
    if Names(effects, e.Destination()) {
      var x :| x in effects && x.Destination() == e.Destination();
      assert SameDestination(x, e);
    }
  }

  /** Every register the left program writes, the right one writes as well. */
  ghost predicate CoversWrites(leftProgram: seq<seq<Effect>>, rightProgram: seq<seq<Effect>>)
  {
    forall d | ProgramNames(leftProgram, d) :: ProgramNames(rightProgram, d)
  }

  lemma UnmatchedExactly(leftProgram: seq<seq<Effect>>, rightProgram: seq<seq<Effect>>, le: Order, fuel: nat, w: nat)
    requires PlainProgram(leftProgram) && (forall i | i in leftProgram :: AllFixed(i, w))
    requires PlainProgram(rightProgram) && (forall i | i in rightProgram :: AllFixed(i, w))
    requires ProgramEffects(leftProgram, le, fuel).Done? && ProgramEffects(rightProgram, le, fuel).Done?
    ensures Unmatched(ProgramEffects(leftProgram, le, fuel).value, ProgramEffects(rightProgram, le, fuel).value)
            <==> !CoversWrites(leftProgram, rightProgram)
  {
    hide ProgramEffects, ProgramNames, PlainProgram, AllFixed;
    var left, right := ProgramEffects(leftProgram, le, fuel).value, ProgramEffects(rightProgram, le, fuel).value;
    forall d ensures Names(left, d) <==> ProgramNames(leftProgram, d) {
      ProgramEffectsNames(leftProgram, le, fuel, w, d);
    }
    forall d ensures Names(right, d) <==> ProgramNames(rightProgram, d) {
      ProgramEffectsNames(rightProgram, le, fuel, w, d);
    }
    ProgramEffectsNames(leftProgram, le, fuel, w, Const(0, 1));
    ProgramEffectsNames(rightProgram, le, fuel, w, Const(0, 1));
    if !CoversWrites(leftProgram, rightProgram) {
      var d :| ProgramNames(leftProgram, d) && !ProgramNames(rightProgram, d);
      assert Names(left, d);
      var e :| e in left && e.Destination() == d;
      MatchIsName(right, e);
    }
    if Unmatched(left, right) {
      var e :| e in left && forall x | x in right :: !SameDestination(x, e);
      MatchIsName(right, e);
      assert Names(left, e.Destination());
    }
  }

  // ----- the theorem -----

  /** Described programs of unconditional plain writes to registers named outright. */
  ghost predicate FixedPlain(program: seq<seq<Effect>>, g: Shape)
  {
    DescribedProgram(program, g) && PlainProgram(program) && forall i | i in program :: AllFixed(i, g.identifierWidth)
  }

  /** For such programs, and some amount of fuel that more of it does not change, the comparison is prepared if and
      only if the right program writes every register the left one writes, and is then exact in every total state. */
  lemma FixedPlainProgramsAreExact(leftProgram: seq<seq<Effect>>, rightProgram: seq<seq<Effect>>, le: Order, g: Shape)
    requires ShapeOk(g) && FixedPlain(leftProgram, g) && FixedPlain(rightProgram, g)
    ensures exists fuel: nat :: EndsFrom(leftProgram, rightProgram, le, fuel)
    ensures forall fuel: nat | EndsFrom(leftProgram, rightProgram, le, fuel) ::
              var r := Prepare(leftProgram, rightProgram, le, fuel);
              if CoversWrites(leftProgram, rightProgram) then Exact(r, g) else r.Panic?
  {
    hide PlainProgram, EndsFrom, DescribedProgram, Prepare, CoversWrites, AllFixed, Exact;
    PlainProgramsPrepare(leftProgram, rightProgram, le, g);
    forall fuel: nat | EndsFrom(leftProgram, rightProgram, le, fuel)
      ensures var r := Prepare(leftProgram, rightProgram, le, fuel);
        if CoversWrites(leftProgram, rightProgram) then Exact(r, g) else r.Panic?
    {
      FixedPlainOutcome(leftProgram, rightProgram, le, fuel, g);
    }
  }

  lemma FixedPlainOutcome(leftProgram: seq<seq<Effect>>, rightProgram: seq<seq<Effect>>, le: Order, fuel: nat, g: Shape)
    requires ShapeOk(g) && FixedPlain(leftProgram, g) && FixedPlain(rightProgram, g)
    requires PreparedFully(leftProgram, rightProgram, le, fuel)
    ensures var r := Prepare(leftProgram, rightProgram, le, fuel);
      if CoversWrites(leftProgram, rightProgram) then Exact(r, g) else r.Panic?
  {
    hide PlainProgram, DescribedProgram, Prepare, ProgramEffects, CoversWrites, AllFixed, Exact, Unmatched;
    UnmatchedExactly(leftProgram, rightProgram, le, fuel, g.identifierWidth);
    if CoversWrites(leftProgram, rightProgram) {
      FixedProgramsAreExact(leftProgram, rightProgram, le, fuel, g);
    }
  }
}
