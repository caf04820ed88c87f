/** Programs over fixed registers always fold faithfully; stores through equal registers may not. */
module EffectSequenceLimits {
  import opened Words
  import opened Exprs
  import opened Effects
  import opened ByteMemory
  import opened Typing
  import opened Canonicalizer
  import opened CanonicalizerSound
  import opened EffectSequence
  import opened Forwarding
  import opened EffectSequenceTheorems

  // ----- fixed registers -----

  /** Every effect writes a register the program names outright, by an identifier of one width. */
  ghost predicate FixedWrite(e: Effect, w: nat)
  {
    && e.WriteRegister? && e.register.RegisterField? && e.register.ref.Fixed?
    && e.register.ref.identifierWidth == w > 0 && e.register.ref.register < Pow2(w)
  }

  ghost predicate AllFixed(list: seq<Effect>, w: nat)
  {
    forall e | e in list :: FixedWrite(e, w)
  }

  ghost predicate DistinctDestinations(list: seq<Effect>)
  {
    forall i, j | 0 <= i < j < |list| :: !SameDestination(list[i], list[j])
  }

  /** A merge adds an entry only for a destination the list does not have yet. */
  lemma {:induction false} MergeAddsOnlyNew(list: seq<Effect>, e: Effect)
    requires MergeEffect(list, e).Some?
    ensures var m := MergeEffect(list, e).value;
      && |list| <= |m| <= |list| + 1
      && (|m| == |list| + 1 ==> m[|list|] == e && forall i | 0 <= i < |list| :: !SameDestination(list[i], e))
  {
    if list != [] && CombineEffects(list[0], e).Some? && CombineEffects(list[0], e).value.None? {
      MergeAddsOnlyNew(list[1..], e);
      var rest := MergeEffect(list[1..], e).value;
      if |rest| == |list| {
        forall i | 0 <= i < |list| ensures !SameDestination(list[i], e) {
          if i > 0 { assert list[i] == list[1..][i - 1]; } else { CombineNeedsMatch(list[0], e); }
        }
      }
    }
  }

  lemma CombineNeedsMatch(x: Effect, e: Effect)
    ensures CombineEffects(x, e) == Some(None) ==> !SameDestination(x, e)
  {
  }

  lemma MergeStaysDistinct(list: seq<Effect>, e: Effect)
    requires MergeEffect(list, e).Some? && DistinctDestinations(list)
    ensures DistinctDestinations(MergeEffect(list, e).value)
  {
    MergeAddsOnlyNew(list, e);
    MergeKeepsDestinations(list, e);
    var m := MergeEffect(list, e).value;
    forall i, j | 0 <= i < j < |m| ensures !SameDestination(m[i], m[j]) {
      assert SameDestination(list[i], m[i]);
      if j < |list| { assert SameDestination(list[j], m[j]) && !SameDestination(list[i], list[j]); }
    }
  }

  lemma MergeStaysFixed(list: seq<Effect>, e: Effect, w: nat)
    requires MergeEffect(list, e).Some? && AllFixed(list, w) && FixedWrite(e, w)
    ensures AllFixed(MergeEffect(list, e).value, w)
  {
    MergeAddsOnlyNew(list, e);
    MergeKeepsDestinations(list, e);
    var m := MergeEffect(list, e).value;
    forall i | 0 <= i < |m| ensures FixedWrite(m[i], w) {
      if i < |list| { assert SameDestination(list[i], m[i]) && FixedWrite(list[i], w); }
    }
  }

  lemma {:induction false} MergeAllStaysFixed(list: seq<Effect>, effects: seq<Effect>, w: nat)
    requires MergeAll(list, effects).Some?
    requires DistinctDestinations(list) && AllFixed(list, w) && AllFixed(effects, w)
    ensures var m := MergeAll(list, effects).value; DistinctDestinations(m) && AllFixed(m, w)
  {
    if effects != [] {
      var init, last := effects[..|effects| - 1], effects[|effects| - 1];
      MergeAllStaysFixed(list, init, w);
      assert FixedWrite(last, w);
      MergeStaysDistinct(MergeAll(list, init).value, last);
      MergeStaysFixed(MergeAll(list, init).value, last, w);
    }
  }

  /** Lowering leaves a named register as it is. */
  lemma {:induction false} LowerKeepsFixed(effects: seq<Effect>, list: seq<Effect>, le: Order, fuel: nat, w: nat)
    requires AllFixed(effects, w) && LowerInstruction(effects, list, le, fuel).Done?
    ensures AllFixed(LowerInstruction(effects, list, le, fuel).value, w)
  {
    if effects != [] {
      var init, e := effects[..|effects| - 1], effects[|effects| - 1];
      LowerKeepsFixed(init, list, le, fuel, w);
      assert FixedWrite(e, w);
      var lowered := LowerEffect(e, list, le, fuel).value;
      assert LowerPart(e.register, list, true, le, fuel).value == e.register;
      assert |lowered| == 1 && lowered[0].register == e.register;
    }
  }

  lemma {:induction false} SequenceStaysFixed(program: seq<seq<Effect>>, le: Order, fuel: nat, w: nat)
    requires forall i | i in program :: AllFixed(i, w)
    requires SequenceEffects(program, le, fuel).Done?
    ensures var list := SequenceEffects(program, le, fuel).value; DistinctDestinations(list) && AllFixed(list, w)
  {
    if program != [] {
      var init, last := program[..|program| - 1], program[|program| - 1];
      SequenceStaysFixed(init, le, fuel, w);
      assert AllFixed(last, w);
      var list := SequenceEffects(init, le, fuel).value;
      LowerKeepsFixed(last, list, le, fuel, w);
      MergeAllStaysFixed(list, LowerInstruction(last, list, le, fuel).value, w);
    }
  }

  /** Registers named outright by different identifiers are different places in every state. */
  lemma FixedIsSeparated(list: seq<Effect>, w: nat, s: MachineState)
    requires AllFixed(list, w) && DistinctDestinations(list)
    ensures Separated(list, s)
  {
    forall i, j | 0 <= i < j < |list| ensures Eval(list[i].Destination(), s) != Eval(list[j].Destination(), s) {
      assert FixedWrite(list[i], w) && FixedWrite(list[j], w) && !SameDestination(list[i], list[j]);
      SmallMod(list[i].register.ref.register, Pow2(w));
      SmallMod(list[j].register.ref.register, Pow2(w));
    }
  }

  /** A program that only writes registers it names outright needs no assumption on the start state:
      its folded list and its stepwise run agree everywhere. */
  lemma FixedRegistersFold(program: seq<seq<Effect>>, le: Order, fuel: nat, s: MachineState, g: Shape)
    requires Total(s, g) && TypedProgram(program, g)
    requires forall i | i in program :: AllFixed(i, g.identifierWidth)
    requires var r := SequenceEffects(program, le, fuel); r.Done? && AllHold(r.obligations, s)
    ensures Update(SequenceEffects(program, le, fuel).value, s) == Run(program, s)
  {
    var list, w := SequenceEffects(program, le, fuel).value, g.identifierWidth;
    SequenceStaysFixed(program, le, fuel, w);
    FixedIsSeparated(list, w, s);
    SeparatedIsRun(program, le, fuel, s, g);
  }

  // ----- stores through two registers that hold the same address -----

  const TwoRegisters: Shape := Shape(map[0 := 1, 1 := 1], 1, 1)

  function Pointer(register: nat): Expr
  {
    ReadRegister(RegisterField(Fixed(register, 1)), 1)
  }

  function StoreThrough(register: nat, value: nat): Effect
  {
    WriteMemory(Const(1, 1), Pointer(register), Const(value, 8), 8)
  }

  ghost predicate StoresOnly(list: seq<Effect>)
  {
    forall e | e in list :: e.WriteMemory?
  }

  lemma {:induction false} NothingForwarded(register: Expr, width: nat, list: seq<Effect>)
    requires StoresOnly(list)
    ensures ForwardRegister(register, width, list) == ReadRegister(register, width)
  {
    if list != [] { assert list[|list| - 1] in list; NothingForwarded(register, width, list[..|list| - 1]); }
  }

  lemma LowerStoreThrough(register: nat, value: nat, list: seq<Effect>, le: Order, fuel: nat)
    requires StoresOnly(list) && fuel >= 2
    ensures LowerInstruction([StoreThrough(register, value)], list, le, fuel)
            == Done([StoreThrough(register, value)], {})
  {
    var e := StoreThrough(register, value);
    assert Pow2(1) == 2;
    NothingForwarded(RegisterField(Fixed(register, 1)), 1, list);
    var r := RegisterField(Fixed(register, 1));
    assert Canonicalize(r, le, fuel - 1) == Done(r, {});
    assert Canonicalize(Const(1, 1), le, fuel) == Done(Const(1, 1), {});
    assert Substitute(Pointer(register), list) == Pointer(register);
    assert Canonicalize(Pointer(register), le, fuel) == Done(Pointer(register), {});
    assert LowerReads(r) == Some(r) && LowerReads(Pointer(register)) == Some(Pointer(register));
    assert LowerPart(e.guard, list, true, le, fuel) == Done(Const(1, 1), {});
    assert LowerPart(e.address, list, true, le, fuel) == Done(Pointer(register), {});
    assert LowerPart(e.value, list, false, le, fuel) == Done(Const(value, 8), {});
    assert LowerEffect(e, list, le, fuel) == Done([e], {});
    assert [e][..0] == [] && LowerInstruction([], list, le, fuel) == Done([], {});
    assert [] + [e] == [e];
    assert LowerInstruction([e], list, le, fuel) == Done([] + [e], {} + {});
  }

  /** Store `a` through register 0, `b` through register 1, then `c` through register 0. */
  function ThreeStores(a: nat, b: nat, c: nat): seq<seq<Effect>>
  {
    [[StoreThrough(0, a)], [StoreThrough(1, b)], [StoreThrough(0, c)]]
  }

  lemma SequenceStep(
    program: seq<seq<Effect>>, register: nat, value: nat, list: seq<Effect>, merged: seq<Effect>, le: Order, fuel: nat)
    requires fuel >= 2 && StoresOnly(list) && SequenceEffects(program, le, fuel) == Done(list, {})
    requires MergeEffect(list, StoreThrough(register, value)) == Some(merged)
    ensures SequenceEffects(program + [[StoreThrough(register, value)]], le, fuel) == Done(merged, {})
  {
    var p, e := program + [[StoreThrough(register, value)]], StoreThrough(register, value);
    assert p[..|p| - 1] == program;
    LowerStoreThrough(register, value, list, le, fuel);
    assert [e][..0] == [] && MergeAll(list, []) == Some(list);
    assert MergeAll(list, [e]) == Some(merged);
  }

  /** The third store meets the first entry, which has its destination, before the second. */
  lemma ThreeStoresMerge(a: nat, b: nat, c: nat)
    ensures var x, y, z := StoreThrough(0, a), StoreThrough(1, b), StoreThrough(0, c);
      && MergeEffect([], x) == Some([x]) && MergeEffect([x], y) == Some([x, y])
      && MergeEffect([x, y], z) == Some([z, y]) && AfterMatch([x, y], z) == [y]
  {
    var x, y, z := StoreThrough(0, a), StoreThrough(1, b), StoreThrough(0, c);
    assert Pointer(0).register.ref.register != Pointer(1).register.ref.register;
    assert [x][1..] == [] && [x, y][1..] == [y];
    assert CombineEffects(x, y) == Some(None) && CombineEffects(x, z) == Some(Some(z));
    assert MergeEffect([], y) == Some([y]);
    assert [x] + [y] == [x, y] && [z] + [y] == [z, y];
  }

  /** The third store replaces the first entry of the list and so comes before the second store. */
  lemma ThreeStoresFold(a: nat, b: nat, c: nat, le: Order, fuel: nat)
    requires fuel >= 2
    ensures SequenceEffects(ThreeStores(a, b, c), le, fuel) == Done([StoreThrough(0, c), StoreThrough(1, b)], {})
  {
    var p := ThreeStores(a, b, c);
    var x, y, z := StoreThrough(0, a), StoreThrough(1, b), StoreThrough(0, c);
    ThreeStoresMerge(a, b, c);
    SequenceStep([], 0, a, [], [x], le, fuel);
    SequenceStep([] + [p[0]], 1, b, [x], [x, y], le, fuel);
    SequenceStep([] + [p[0]] + [p[1]], 0, c, [x, y], [z, y], le, fuel);
    assert [] + [p[0]] + [p[1]] + [p[2]] == p;
  }

  lemma StoreThroughAt(register: nat, value: nat, s: MachineState, g: Shape)
    requires Total(s, g) && g == TwoRegisters && register < 2 && value < 256
    ensures var e := StoreThrough(register, value);
      && LoweredEffect(e, s, g) && TypedEffect(e, g)
      && Fires(e.guard, s) && Eval(e.value, s) == Some(Word(value, 8))
      && register in s.registers && PlaceOf(e, s) == BytePlace(s.registers[register].value)
  {
    var e := StoreThrough(register, value);
    assert Pow2(1) == 2 && Pow2(8) == 256;
    assert RegisterHas(g, register, 1);
    assert NamesRegistersOf(RegisterField(Fixed(register, 1)), 1, g);
    assert TypeOf(RegisterField(Fixed(register, 1)), g) == Some(1);
    assert TypeOf(e.address, g) == Some(1);
    TypedIsReady(e, g, s);
  }

  /** When both registers hold the same address the fold is wrong: it ends with `b`, the run with `c`. */
  lemma AliasedStoresLoseTheirOrder(a: nat, b: nat, c: nat, le: Order, fuel: nat, s: MachineState)
    requires a < 256 && b < 256 && c < 256 && fuel >= 2 && Total(s, TwoRegisters)
    ensures 0 in s.registers && 1 in s.registers
    ensures SequenceEffects(ThreeStores(a, b, c), le, fuel).Done?
    ensures Update(SequenceEffects(ThreeStores(a, b, c), le, fuel).value, s) == Run(ThreeStores(a, b, c), s)
            <==> s.registers[0] != s.registers[1] || b == c
  {
    var g := TwoRegisters;
    StoreThroughAt(0, a, s, g);
    StoreThroughAt(1, b, s, g);
    StoreThroughAt(0, c, s, g);
    var x, y, z := StoreThrough(0, a), StoreThrough(1, b), StoreThrough(0, c);
    ThreeStoresFold(a, b, c, le, fuel);
    ThreeStoresMerge(a, b, c);
    ThreeStoresRun(a, b, c, s);
    assert [x, y] + [z] == [x, y, z];
    MergeExact([x, y], z, s, g);
    LastStoreDisturbed(a, b, c, s);
  }

  lemma LastStoreDisturbed(a: nat, b: nat, c: nat, s: MachineState)
    requires a < 256 && b < 256 && c < 256 && Total(s, TwoRegisters)
    ensures 0 in s.registers && 1 in s.registers
    ensures Undisturbed([StoreThrough(0, a), StoreThrough(1, b)], StoreThrough(0, c), s)
            <==> s.registers[0] != s.registers[1] || b == c
  {
    var y, z := StoreThrough(1, b), StoreThrough(0, c);
    StoreThroughAt(1, b, s, TwoRegisters);
    StoreThroughAt(0, c, s, TwoRegisters);
    ThreeStoresMerge(a, b, c);
    LatestOfOne(y, s, PlaceOf(z, s));
    assert RegisterHas(TwoRegisters, 0, 1) && RegisterHas(TwoRegisters, 1, 1);
  }

  /** Registers keep their values here, so the run is the three stores in order. */
  lemma ThreeStoresRun(a: nat, b: nat, c: nat, s: MachineState)
    requires a < 256 && b < 256 && c < 256 && Total(s, TwoRegisters)
    ensures Run(ThreeStores(a, b, c), s)
            == Update([StoreThrough(0, a), StoreThrough(1, b), StoreThrough(0, c)], s)
  {
    var x, y, z := StoreThrough(0, a), StoreThrough(1, b), StoreThrough(0, c);
    RunStores([], [], 0, a, s);
    RunStores([[x]], [x], 1, b, s) by { Appended([], x); Appended([], [x]); }
    RunStores([[x], [y]], [x, y], 0, c, s) by { Appended([x], y); Appended([[x]], [y]); }
    assert [x, y] + [z] == [x, y, z] && [[x], [y]] + [[z]] == ThreeStores(a, b, c);
  }

  lemma Appended<T>(list: seq<T>, e: T)
    ensures |list| == 0 ==> list + [e] == [e]
    ensures |list| == 1 ==> list + [e] == [list[0], e]
  {
  }

  lemma {:induction false} StoresKeepRegisters(list: seq<Effect>, s: MachineState)
    requires StoresOnly(list)
    ensures RegisterWrites(list, s) == []
  {
    if list != [] { assert list[|list| - 1] in list; StoresKeepRegisters(list[..|list| - 1], s); }
  }

  lemma RunStores(program: seq<seq<Effect>>, list: seq<Effect>, register: nat, value: nat, s: MachineState)
    requires StoresOnly(list) && Run(program, s) == Update(list, s)
    ensures Run(program + [[StoreThrough(register, value)]], s) == Update(list + [StoreThrough(register, value)], s)
  {
    var e := StoreThrough(register, value);
    var p := program + [[e]];
    assert p[..|p| - 1] == program;
    StoresKeepRegisters(list, s);
    var after := Update(list, s);
    assert after.registers == s.registers;
    assert Eval(e.address, after) == Eval(e.address, s);
    WritesOfOne(e, s);
    WritesOfOne(e, after);
    AppendIsSequence(list, [e], [e], s);
  }
}
