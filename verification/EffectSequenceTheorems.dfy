/** Folding a program into one simultaneous update agrees with running it step by step. */
module EffectSequenceTheorems {
  import opened Words
  import opened Exprs
  import opened Effects
  import opened ByteMemory
  import opened Typing
  import opened Canonicalizer
  import opened CanonicalizerSound
  import opened CanonicalizerTheorems
  import opened EffectSequence
  import opened Forwarding

  // ----- one instruction, lowered against the list so far -----

  lemma LowerPartMeaning(
    e: Expr, list: seq<Effect>, canonical: bool, le: Order, fuel: nat, s: MachineState, g: Shape)
    requires Total(s, g) && Lowered(list, s, g) && TypeOf(e, g).Some?
    ensures var r := LowerPart(e, list, canonical, le, fuel);
      r.Done? && AllHold(r.obligations, s) ==> Eval(r.value, s) == Eval(e, Update(list, s))
  {
    TotalIsWellFormed(s, g);
    UpdateKeepsTotal(list, s, g);
    TotalIsWellFormed(Update(list, s), g);
    LowerReadsKeepsType(e, g, s);
    LoweredReadsAreBytes(e);
    TypedHasValue(e, g, Update(list, s));
    LowerReadsMeaning(e, Update(list, s));
    var x := LowerReads(e).value;
    SubstituteMeaning(x, list, s, g);
    if canonical { CanonicalizePreservesMeaning(Substitute(x, list), le, fuel, s); }
  }

  /** Two lists of effects, each read in its own state, make the same writes. */
  ghost predicate SameWrites(a: seq<Effect>, s: MachineState, b: seq<Effect>, t: MachineState)
  {
    RegisterWrites(a, s) == RegisterWrites(b, t) && MemoryWrites(a, s) == MemoryWrites(b, t)
  }

  lemma {:induction false} WritesConcat(a: seq<Effect>, b: seq<Effect>, s: MachineState)
    ensures RegisterWrites(a + b, s) == RegisterWrites(a, s) + RegisterWrites(b, s)
    ensures MemoryWrites(a + b, s) == MemoryWrites(a, s) + MemoryWrites(b, s)
  {
    hide Eval, Fires, StoreWrites;
    if b == [] {
      assert a + b == a;
    } else {
      assert (a + b)[..|a + b| - 1] == a + b[..|b| - 1];
      WritesConcat(a, b[..|b| - 1], s);
    }
  }

  lemma WritesOfOne(e: Effect, s: MachineState)
    ensures RegisterWrites([e], s)
            == if e.WriteRegister? && Fires(e.guard, s) && Eval(e.register, s).Some? && Eval(e.value, s).Some?
               then [(Eval(e.register, s).value.value, Eval(e.value, s).value)] else []
    ensures MemoryWrites([e], s)
            == if e.WriteMemory? && Fires(e.guard, s) && Eval(e.address, s).Some? && Eval(e.value, s).Some?
               then StoreWrites(Eval(e.address, s).value, Eval(e.value, s).value, e.width) else []
  {
    assert [e][..0] == [];
  }

  /** The parts a wide store is split from. */
  ghost predicate Storable(guard: Expr, address: Expr, value: Expr, count: nat, g: Shape, s: MachineState)
  {
    && Eval(guard, s).Some? && Eval(guard, s).value.width == 1
    && Eval(address, s).Some? && Eval(address, s).value.width == g.addressWidth
    && Eval(value, s).Some? && 8 * count <= Eval(value, s).value.width
  }

  lemma ByteSlice(value: Expr, n: nat, s: MachineState)
    requires Eval(value, s).Some? && 8 * n + 8 <= Eval(value, s).value.width
    ensures Eval(Slice(value, 8 * n + 7, 8 * n), s) == Some(ByteOf(Eval(value, s).value, n))
  {
  }

  lemma StoreOneByte(address: Word, value: Word)
    requires value.width == 8
    ensures StoreWrites(address, value, 8) == [((address.value, 8), value)]
  {
    SmallMod(value.value, Pow2(8));
  }

  lemma ByteStoreMeaning(guard: Expr, address: Expr, value: Expr, n: nat, g: Shape, s: MachineState)
    requires Storable(guard, address, value, n + 1, g, s)
    ensures var e := ByteStore(guard, address, value, n, g.addressWidth);
      var a, v := Eval(address, s).value, Eval(value, s).value;
      && ReadyEffect(e, s, g)
      && RegisterWrites([e], s) == []
      && MemoryWrites([e], s) == if Fires(guard, s) then [((ByteAddress(a, n), 8), ByteOf(v, n))] else []
  {
    var e := ByteStore(guard, address, value, n, g.addressWidth);
    ByteAddressMeaning(address, n, s);
    ByteSlice(value, n, s);
    StoreOneByte(Eval(e.address, s).value, Eval(e.value, s).value);
    WritesOfOne(e, s);
  }

  lemma LoweredConcat(a: seq<Effect>, e: Effect, s: MachineState, g: Shape)
    requires Lowered(a, s, g) && ReadyEffect(e, s, g) && (e.WriteMemory? ==> e.width == 8)
    ensures Lowered(a + [e], s, g)
  {
  }

  /** What the first `count` byte stores of a wide store come to. */
  ghost predicate StoresBytes(list: seq<Effect>, fires: bool, address: Word, value: Word, count: nat, s: MachineState)
  {
    RegisterWrites(list, s) == [] && MemoryWrites(list, s) == if fires then ByteWrites(address, value, count) else []
  }

  /** One more byte store. */
  lemma StoresOneMore(list: seq<Effect>, e: Effect, fires: bool, address: Word, value: Word, n: nat, s: MachineState)
    requires 8 * n + 8 <= value.width && StoresBytes(list, fires, address, value, n, s)
    requires RegisterWrites([e], s) == []
    requires MemoryWrites([e], s) == if fires then [((ByteAddress(address, n), 8), ByteOf(value, n))] else []
    ensures StoresBytes(list + [e], fires, address, value, n + 1, s)
  {
    hide RegisterWrites, MemoryWrites, ByteOf, ByteAddress;
    WritesConcat(list, [e], s);
  }

  /** The byte stores of a wide store write its bytes. */
  lemma {:induction false} SplitStoreMeaning(
    guard: Expr, address: Expr, value: Expr, count: nat, g: Shape, s: MachineState)
    requires Storable(guard, address, value, count, g, s)
    ensures var list := SplitStore(guard, address, value, count, g.addressWidth);
      && Lowered(list, s, g)
      && StoresBytes(list, Fires(guard, s), Eval(address, s).value, Eval(value, s).value, count, s)
    decreases count, 1
  {
    if count > 0 { SplitOneMore(guard, address, value, count - 1, g, s); }
  }

  lemma {:induction false} SplitOneMore(guard: Expr, address: Expr, value: Expr, n: nat, g: Shape, s: MachineState)
    requires Storable(guard, address, value, n + 1, g, s)
    ensures var list := SplitStore(guard, address, value, n + 1, g.addressWidth);
      && Lowered(list, s, g)
      && StoresBytes(list, Fires(guard, s), Eval(address, s).value, Eval(value, s).value, n + 1, s)
    decreases n + 1, 0
  {
    hide Lowered, StoresBytes, ByteStore, Fires, Eval, ReadyEffect;
    SplitStoreMeaning(guard, address, value, n, g, s);
    ByteStoreMeaning(guard, address, value, n, g, s);
    ByteStoreIsByte(guard, address, value, n, g.addressWidth);
    var earlier := SplitStore(guard, address, value, n, g.addressWidth);
    var last := ByteStore(guard, address, value, n, g.addressWidth);
    LoweredConcat(earlier, last, s, g);
    StoresOneMore(earlier, last, Fires(guard, s), Eval(address, s).value, Eval(value, s).value, n, s);
  }

  lemma ByteStoreIsByte(guard: Expr, address: Expr, value: Expr, n: nat, addressWidth: nat)
    ensures var e := ByteStore(guard, address, value, n, addressWidth); e.WriteMemory? && e.width == 8
  {
  }

  /** What lowering one instruction against `list` must deliver. */
  ghost predicate LoweredAs(lowered: seq<Effect>, effects: seq<Effect>, list: seq<Effect>, s: MachineState, g: Shape)
  {
    Lowered(lowered, s, g) && SameWrites(lowered, s, effects, Update(list, s))
  }

  lemma LowerEffectMeaning(e: Effect, list: seq<Effect>, le: Order, fuel: nat, s: MachineState, g: Shape)
    requires Total(s, g) && Lowered(list, s, g) && TypedEffect(e, g)
    requires LowerEffect(e, list, le, fuel).Done? && AllHold(LowerEffect(e, list, le, fuel).obligations, s)
    ensures LoweredAs(LowerEffect(e, list, le, fuel).value, [e], list, s, g)
  {
    var after := Update(list, s);
    UpdateKeepsTotal(list, s, g);
    TypedIsReady(e, g, after);
    var guard := LowerPart(e.guard, list, true, le, fuel);
    var destination := LowerPart(e.Destination(), list, true, le, fuel);
    var value := LowerPart(e.value, list, false, le, fuel);
    var all := LowerEffect(e, list, le, fuel).obligations;
    assert all == guard.obligations + destination.obligations + value.obligations;
    LowerPartMeaning(e.guard, list, true, le, fuel, s, g);
    LowerPartMeaning(e.Destination(), list, true, le, fuel, s, g);
    LowerPartMeaning(e.value, list, false, le, fuel, s, g);
    SameParts(e, guard.value, destination.value, value.value, after, s, g);
  }

  /** One effect rebuilt from parts that evaluate as the original ones do in another state. */
  lemma SameParts(
    e: Effect, guard: Expr, destination: Expr, value: Expr, after: MachineState, s: MachineState, g: Shape)
    requires ReadyEffect(e, after, g) && Total(s, g)
    requires Eval(guard, s) == Eval(e.guard, after) && Eval(value, s) == Eval(e.value, after)
    requires Eval(destination, s) == Eval(e.Destination(), after)
    ensures var r :=
        if e.WriteRegister? then [WriteRegister(guard, destination, value)]
        else if e.width == 8 then [WriteMemory(guard, destination, value, 8)]
        else SplitStore(guard, destination, value, e.width / 8, g.addressWidth);
      Lowered(r, s, g) && SameWrites(r, s, [e], after)
    ensures e.WriteMemory? ==> ExprWidth(destination) == Some(g.addressWidth)
  {
    TotalIsWellFormed(s, g);
    EvalHasStaticWidth(destination, s);
    WritesOfOne(e, after);
    if e.WriteRegister? {
      WritesOfOne(WriteRegister(guard, destination, value), s);
    } else if e.width == 8 {
      WritesOfOne(WriteMemory(guard, destination, value, 8), s);
    } else {
      SplitStoreMeaning(guard, destination, value, e.width / 8, g, s);
    }
  }

  lemma LoweredAsConcat(
    a: seq<Effect>, b: seq<Effect>, x: seq<Effect>, y: seq<Effect>, list: seq<Effect>, s: MachineState, g: Shape)
    requires LoweredAs(a, x, list, s, g) && LoweredAs(b, y, list, s, g)
    ensures LoweredAs(a + b, x + y, list, s, g)
  {
    hide Update, ReadyEffect, RegisterWrites, MemoryWrites;
    WritesConcat(a, b, s);
    WritesConcat(x, y, Update(list, s));
  }

  lemma {:induction false} LowerInstructionMeaning(
    effects: seq<Effect>, list: seq<Effect>, le: Order, fuel: nat, s: MachineState, g: Shape)
    requires Total(s, g) && Lowered(list, s, g) && TypedEffects(effects, g)
    requires LowerInstruction(effects, list, le, fuel).Done?
    requires AllHold(LowerInstruction(effects, list, le, fuel).obligations, s)
    ensures LoweredAs(LowerInstruction(effects, list, le, fuel).value, effects, list, s, g)
  {
    hide LowerEffect, LoweredAs, Update, Total, Lowered, TypedEffect;
    if effects == [] {
      NothingLowered(list, s, g);
    } else {
      var init, last := effects[..|effects| - 1], effects[|effects| - 1];
      assert init + [last] == effects;
      var earlier, r := LowerInstruction(init, list, le, fuel), LowerEffect(last, list, le, fuel);
      assert LowerInstruction(effects, list, le, fuel).obligations == earlier.obligations + r.obligations;
      LowerInstructionMeaning(init, list, le, fuel, s, g);
      LowerEffectMeaning(last, list, le, fuel, s, g);
      LoweredAsConcat(earlier.value, r.value, init, [last], list, s, g);
    }
  }

  lemma NothingLowered(list: seq<Effect>, s: MachineState, g: Shape)
    ensures LoweredAs([], [], list, s, g)
  {
  }

  // ----- what a list writes, place by place -----

  datatype Place = RegisterPlace(id: nat) | BytePlace(address: nat)

  ghost function PlaceOf(e: Effect, s: MachineState): Place
    requires Eval(e.Destination(), s).Some?
  {
    var d := Eval(e.Destination(), s).value.value;
    if e.WriteRegister? then RegisterPlace(d) else BytePlace(d)
  }

  /** The effect is performed in `s` and lands on `p`. */
  ghost predicate Hits(e: Effect, s: MachineState, p: Place)
  {
    && Fires(e.guard, s) && Eval(e.Destination(), s).Some? && Eval(e.value, s).Some?
    && PlaceOf(e, s) == p
  }

  /** The value the list leaves at `p`, if it writes there. */
  ghost function Latest(list: seq<Effect>, s: MachineState, p: Place): Option<Word>
  {
    if list == [] then None
    else if Hits(list[|list| - 1], s, p) then Eval(list[|list| - 1].value, s)
    else Latest(list[..|list| - 1], s, p)
  }

  ghost predicate InState(s: MachineState, p: Place)
  {
    match p
    case RegisterPlace(id) => id in s.registers
    case BytePlace(address) => (address, 8) in s.memory
  }

  ghost function At(s: MachineState, p: Place): Word
    requires InState(s, p)
  {
    match p
    case RegisterPlace(id) => s.registers[id]
    case BytePlace(address) => s.memory[(address, 8)]
  }

  lemma {:induction false} LatestConcat(a: seq<Effect>, b: seq<Effect>, s: MachineState, p: Place)
    ensures Latest(a + b, s, p) == if Latest(b, s, p).Some? then Latest(b, s, p) else Latest(a, s, p)
  {
    if b == [] {
      assert a + b == a;
    } else {
      assert (a + b)[..|a + b| - 1] == a + b[..|b| - 1];
      LatestConcat(a, b[..|b| - 1], s, p);
    }
  }

  lemma LatestOfOne(e: Effect, s: MachineState, p: Place)
    ensures Latest([e], s, p) == if Hits(e, s, p) then Eval(e.value, s) else None
  {
  }

  /** What the place holds after the update: the latest write there, or what it held before. */
  ghost function Left(list: seq<Effect>, s: MachineState, p: Place): Word
    requires InState(s, p)
  {
    if Latest(list, s, p).Some? then Latest(list, s, p).value else At(s, p)
  }

  lemma {:induction false} UpdateAt(list: seq<Effect>, s: MachineState, g: Shape, p: Place)
    requires Total(s, g) && Lowered(list, s, g)
    ensures InState(Update(list, s), p) <==> InState(s, p)
    ensures InState(s, p) ==> At(Update(list, s), p) == Left(list, s, p)
    ensures Latest(list, s, p).Some? ==> InState(s, p)
  {
    if list != [] {
      var init, e := list[..|list| - 1], list[|list| - 1];
      LoweredPrefix(list, s, g);
      UpdateAt(init, s, g, p);
      if e.WriteRegister? {
        StepRegister(list, s);
        assert RegisterHas(g, Eval(e.register, s).value.value, Eval(e.value, s).value.width);
      } else {
        StepMemory(list, s);
        assert ByteKey((Eval(e.address, s).value.value, 8), g);
      }
    }
  }

  /** Two lists update a state alike exactly when they leave the same value at every place. */
  lemma UpdateByPlaces(a: seq<Effect>, b: seq<Effect>, s: MachineState, g: Shape)
    requires Total(s, g) && Lowered(a, s, g) && Lowered(b, s, g)
    ensures Update(a, s) == Update(b, s) <==> forall p | InState(s, p) :: Left(a, s, p) == Left(b, s, p)
  {
    UpdateKeepsTotal(a, s, g);
    UpdateKeepsTotal(b, s, g);
    var x, y := Update(a, s), Update(b, s);
    forall p ensures InState(x, p) <==> InState(s, p)
      ensures InState(y, p) <==> InState(s, p)
      ensures InState(s, p) ==> At(x, p) == Left(a, s, p) && At(y, p) == Left(b, s, p)
    {
      UpdateAt(a, s, g, p);
      UpdateAt(b, s, g, p);
    }
    if forall p | InState(s, p) :: Left(a, s, p) == Left(b, s, p) {
      SameAtAllPlaces(x, y, g);
    }
  }

  lemma SameAtAllPlaces(x: MachineState, y: MachineState, g: Shape)
    requires Total(x, g) && Total(y, g)
    requires forall p | InState(x, p) :: InState(y, p) && At(x, p) == At(y, p)
    ensures x == y
  {
    forall id | id in x.registers ensures id in y.registers && x.registers[id] == y.registers[id] {
      assert InState(x, RegisterPlace(id));
    }
    assert x.registers == y.registers;
    forall k | k in x.memory ensures k in y.memory && x.memory[k] == y.memory[k] {
      assert ByteKey(k, g) && InState(x, BytePlace(k.0));
    }
    assert forall k | k in y.memory :: ByteKey(k, g);
    assert x.memory == y.memory;
  }

  // ----- merging one effect -----

  predicate SameDestination(a: Effect, b: Effect)
  {
    a.WriteRegister? == b.WriteRegister? && a.Destination() == b.Destination()
  }

  /** The entries behind the one that a merge of `e` overwrites. */
  ghost function AfterMatch(list: seq<Effect>, e: Effect): seq<Effect>
  {
    if list == [] then []
    else if SameDestination(list[0], e) then list[1..]
    else AfterMatch(list[1..], e)
  }

  /** Nothing behind the overwritten entry leaves a different value at the place `e` writes. */
  ghost predicate Undisturbed(list: seq<Effect>, e: Effect, s: MachineState)
  {
    Fires(e.guard, s) && Eval(e.Destination(), s).Some? ==>
      var later := Latest(AfterMatch(list, e), s, PlaceOf(e, s));
      later.None? || later == Eval(e.value, s)
  }

  ghost predicate LoweredEffect(e: Effect, s: MachineState, g: Shape)
  {
    ReadyEffect(e, s, g) && (e.WriteMemory? ==> e.width == 8)
  }

  lemma OneBitOr(a: nat, b: nat)
    requires a < 2 && b < 2
    ensures BinVal(Or, a, b, 1) == if a == 1 || b == 1 then 1 else 0
  {
    BitwiseBit(LogicOr, a, b, 1, 0);
    assert Pow2(1) == 2;
    var r := Bitwise(LogicOr, a, b, 1);
    assert Bit(r, 0) == (r % 2 == 1) && Bit(a, 0) == (a % 2 == 1) && Bit(b, 0) == (b % 2 == 1);
  }

  /** The guard of a combined write fires when either guard does. */
  lemma CombinedGuard(a: Expr, b: Expr, s: MachineState)
    requires Eval(a, s).Some? && Eval(a, s).value.width == 1 && Eval(b, s).Some? && Eval(b, s).value.width == 1
    ensures Eval(Bin(Or, a, b), s).Some? && Eval(Bin(Or, a, b), s).value.width == 1
    ensures Fires(Bin(Or, a, b), s) <==> Fires(a, s) || Fires(b, s)
  {
    assert Pow2(1) == 2;
    OneBitOr(Eval(a, s).value.value, Eval(b, s).value.value);
  }

  lemma CombinedValue(guard: Expr, later: Expr, earlier: Expr, s: MachineState)
    requires Eval(guard, s).Some? && Eval(guard, s).value.width == 1
    requires Eval(later, s).Some? && Eval(earlier, s).Some?
             && Eval(later, s).value.width == Eval(earlier, s).value.width
    ensures Eval(Select(guard, later, earlier), s) == if Fires(guard, s) then Eval(later, s) else Eval(earlier, s)
  {
    assert Pow2(1) == 2;
  }

  /** Two writes to one place combine, without a panic, into the write that both come to. */
  lemma CombineMeaning(x: Effect, e: Effect, s: MachineState, g: Shape)
    requires Total(s, g) && LoweredEffect(x, s, g) && LoweredEffect(e, s, g)
    ensures CombineEffects(x, e).Some?
    ensures CombineEffects(x, e).value.Some? <==> SameDestination(x, e)
    ensures SameDestination(x, e) ==>
      var c := CombineEffects(x, e).value.value;
      && LoweredEffect(c, s, g) && SameDestination(c, x)
      && (Fires(c.guard, s) <==> Fires(x.guard, s) || Fires(e.guard, s))
      && (Fires(c.guard, s) ==> Eval(c.value, s) == if Fires(e.guard, s) then Eval(e.value, s) else Eval(x.value, s))
  {
    TotalIsWellFormed(s, g);
    EvalHasStaticWidth(x.value, s);
    EvalHasStaticWidth(e.value, s);
    if SameDestination(x, e) {
      assert Eval(x.value, s).value.width == Eval(e.value, s).value.width;
      assert Pow2(1) == 2;
      CombinedGuard(x.guard, e.guard, s);
      CombinedValue(e.guard, e.value, x.value, s);
    }
  }

  lemma HitsWhenFires(e: Effect, s: MachineState, g: Shape, p: Place)
    requires LoweredEffect(e, s, g)
    ensures Hits(e, s, p) <==> Fires(e.guard, s) && PlaceOf(e, s) == p
  {
  }

  lemma LoweredTail(list: seq<Effect>, s: MachineState, g: Shape)
    requires Lowered(list, s, g) && list != []
    ensures Lowered(list[1..], s, g) && LoweredEffect(list[0], s, g)
  {
    assert forall e | e in list[1..] :: e in list;
  }

  /** What a merge leaves at each place: a hit of `e` yields to entries behind the overwritten one. */
  ghost predicate MergeLeaves(list: seq<Effect>, e: Effect, merged: seq<Effect>, s: MachineState, p: Place)
  {
    Latest(merged, s, p)
    == if !Hits(e, s, p) then Latest(list, s, p)
       else if Latest(AfterMatch(list, e), s, p).Some? then Latest(AfterMatch(list, e), s, p)
       else Eval(e.value, s)
  }

  lemma {:induction false} MergeMeaning(list: seq<Effect>, e: Effect, s: MachineState, g: Shape)
    requires Total(s, g) && Lowered(list, s, g) && LoweredEffect(e, s, g)
    ensures MergeEffect(list, e).Some? && Lowered(MergeEffect(list, e).value, s, g)
    ensures forall p :: MergeLeaves(list, e, MergeEffect(list, e).value, s, p)
  {
    if list == [] {
      assert e.guard == Const(0, 1) ==> !Fires(e.guard, s) by { assert 0 % Pow2(1) == 0; }
    } else {
      var x, tail := list[0], list[1..];
      assert list == [x] + tail;
      LoweredTail(list, s, g);
      CombineMeaning(x, e, s, g);
      if SameDestination(x, e) {
        var c := CombineEffects(x, e).value.value;
        assert Lowered([c] + tail, s, g);
        forall p ensures MergeLeaves(list, e, [c] + tail, s, p) {
          LatestConcat([c], tail, s, p);
          LatestConcat([x], tail, s, p);
          HitsWhenFires(c, s, g, p);
          HitsWhenFires(x, s, g, p);
          HitsWhenFires(e, s, g, p);
        }
      } else {
        MergeMeaning(tail, e, s, g);
        var rest := MergeEffect(tail, e).value;
        assert Lowered([x] + rest, s, g);
        forall p ensures MergeLeaves(list, e, [x] + rest, s, p) {
          assert MergeLeaves(tail, e, rest, s, p);
          LatestConcat([x], rest, s, p);
          LatestConcat([x], tail, s, p);
          AfterMatchIsSuffix(tail, e, s, p);
        }
      }
    }
  }

  lemma {:induction false} AfterMatchIsSuffix(list: seq<Effect>, e: Effect, s: MachineState, p: Place)
    ensures Latest(AfterMatch(list, e), s, p).Some? ==> Latest(list, s, p) == Latest(AfterMatch(list, e), s, p)
  {
    if list != [] {
      assert list == [list[0]] + list[1..];
      LatestConcat([list[0]], list[1..], s, p);
      AfterMatchIsSuffix(list[1..], e, s, p);
    }
  }

  /** Overwriting the older entry in place equals appending the write exactly when no entry behind the
      overwritten one leaves a different value at the same place. */
  lemma MergeExact(list: seq<Effect>, e: Effect, s: MachineState, g: Shape)
    requires Total(s, g) && Lowered(list, s, g) && LoweredEffect(e, s, g)
    ensures MergeEffect(list, e).Some? && Lowered(MergeEffect(list, e).value, s, g)
    ensures Update(MergeEffect(list, e).value, s) == Update(list + [e], s) <==> Undisturbed(list, e, s)
  {
    MergeMeaning(list, e, s, g);
    var merged, appended := MergeEffect(list, e).value, list + [e];
    assert Lowered(appended, s, g);
    UpdateByPlaces(merged, appended, s, g);
    forall p ensures Latest(appended, s, p) == if Hits(e, s, p) then Eval(e.value, s) else Latest(list, s, p) {
      LatestConcat(list, [e], s, p);
    }
    var q := PlaceOf(e, s);
    HitsWhenFires(e, s, g, q);
    UpdateAt(appended, s, g, q);
    assert MergeLeaves(list, e, merged, s, q);
    if Undisturbed(list, e, s) {
      forall p | InState(s, p) ensures Left(merged, s, p) == Left(appended, s, p) {
        HitsWhenFires(e, s, g, p);
        assert MergeLeaves(list, e, merged, s, p);
      }
    } else {
      assert InState(s, q) && Left(merged, s, q) != Left(appended, s, q);
    }
  }

  // ----- the whole program -----

  /** No two entries of the list write to the same place in `s`. */
  ghost predicate Separated(list: seq<Effect>, s: MachineState)
  {
    forall i, j | 0 <= i < j < |list| ::
      list[i].WriteRegister? == list[j].WriteRegister? ==>
        Eval(list[i].Destination(), s) != Eval(list[j].Destination(), s)
  }

  /** `longer` keeps the destinations of `list`, in place. */
  ghost predicate KeepsDestinations(list: seq<Effect>, longer: seq<Effect>)
  {
    |list| <= |longer| && forall i | 0 <= i < |list| :: SameDestination(list[i], longer[i])
  }

  lemma {:induction false} MergeKeepsDestinations(list: seq<Effect>, e: Effect)
    requires MergeEffect(list, e).Some?
    ensures KeepsDestinations(list, MergeEffect(list, e).value)
  {
    if list != [] && CombineEffects(list[0], e).Some? && CombineEffects(list[0], e).value.None? {
      MergeKeepsDestinations(list[1..], e);
      var rest := MergeEffect(list[1..], e).value;
      forall i | 0 <= i < |list| ensures SameDestination(list[i], ([list[0]] + rest)[i]) {
        if i > 0 { assert SameDestination(list[1..][i - 1], rest[i - 1]); }
      }
    }
  }

  lemma {:induction false} MergeAllKeepsDestinations(list: seq<Effect>, effects: seq<Effect>)
    requires MergeAll(list, effects).Some?
    ensures KeepsDestinations(list, MergeAll(list, effects).value)
  {
    if effects != [] {
      MergeAllKeepsDestinations(list, effects[..|effects| - 1]);
      MergeKeepsDestinations(MergeAll(list, effects[..|effects| - 1]).value, effects[|effects| - 1]);
    }
  }

  lemma KeptIsSeparated(list: seq<Effect>, longer: seq<Effect>, s: MachineState)
    requires KeepsDestinations(list, longer) && Separated(longer, s)
    ensures Separated(list, s)
  {
    forall i, j | 0 <= i < j < |list| && list[i].WriteRegister? == list[j].WriteRegister?
      ensures Eval(list[i].Destination(), s) != Eval(list[j].Destination(), s)
    {
      assert SameDestination(list[i], longer[i]) && SameDestination(list[j], longer[j]);
    }
  }

  lemma {:induction false} MissingPlace(list: seq<Effect>, s: MachineState, p: Place)
    requires forall e | e in list :: !Hits(e, s, p)
    ensures Latest(list, s, p).None?
  {
    if list != [] {
      assert list[|list| - 1] in list;
      MissingPlace(list[..|list| - 1], s, p);
    }
  }

  /** In a separated list no entry disturbs a merge. */
  lemma {:induction false} SeparatedIsUndisturbed(list: seq<Effect>, e: Effect, s: MachineState, g: Shape)
    requires Lowered(list, s, g) && LoweredEffect(e, s, g) && Separated(list, s)
    ensures Undisturbed(list, e, s)
  {
    if list != [] {
      LoweredTail(list, s, g);
      if SameDestination(list[0], e) {
        forall i | 1 <= i < |list| ensures !Hits(list[i], s, PlaceOf(e, s)) {
          assert list[0].WriteRegister? == list[i].WriteRegister? ==>
              Eval(list[0].Destination(), s) != Eval(list[i].Destination(), s);
          assert ReadyEffect(list[i], s, g);
        }
        MissingPlace(list[1..], s, PlaceOf(e, s));
      } else {
        assert Separated(list[1..], s);
        SeparatedIsUndisturbed(list[1..], e, s, g);
      }
    }
  }

  /** No merge of the effects, one after the other, is disturbed. */
  ghost predicate MergesUndisturbed(list: seq<Effect>, effects: seq<Effect>, s: MachineState)
  {
    effects == [] ||
    var init, last := effects[..|effects| - 1], effects[|effects| - 1];
    MergesUndisturbed(list, init, s)
    && (MergeAll(list, init).Some? ==> Undisturbed(MergeAll(list, init).value, last, s))
  }

  lemma {:induction false} MergeAllMeaning(list: seq<Effect>, effects: seq<Effect>, s: MachineState, g: Shape)
    requires Total(s, g) && Lowered(list, s, g) && Lowered(effects, s, g) && MergesUndisturbed(list, effects, s)
    ensures MergeAll(list, effects).Some? && Lowered(MergeAll(list, effects).value, s, g)
    ensures Update(MergeAll(list, effects).value, s) == Update(list + effects, s)
  {
    hide MergeEffect, Undisturbed, Update, Total;
    if effects == [] {
      assert list + effects == list;
    } else {
      var init, last := effects[..|effects| - 1], effects[|effects| - 1];
      LoweredPrefix(effects, s, g);
      MergeAllNeverPanics(list, effects, s, g);
      MergeAllNeverPanics(list, init, s, g);
      var earlier := MergeAll(list, init).value;
      MergeAllMeaning(list, init, s, g);
      MergeExact(earlier, last, s, g);
      AppendToEquals(earlier, list + init, last, s);
      assert (list + init) + [last] == list + effects;
    }
  }

  lemma {:induction false} MergeAllNeverPanics(list: seq<Effect>, effects: seq<Effect>, s: MachineState, g: Shape)
    requires Total(s, g) && Lowered(list, s, g) && Lowered(effects, s, g)
    ensures MergeAll(list, effects).Some? && Lowered(MergeAll(list, effects).value, s, g)
  {
    if effects != [] {
      LoweredPrefix(effects, s, g);
      MergeAllNeverPanics(list, effects[..|effects| - 1], s, g);
      MergeMeaning(MergeAll(list, effects[..|effects| - 1]).value, effects[|effects| - 1], s, g);
    }
  }

  /** Appending one effect to lists that update alike. */
  lemma AppendToEquals(a: seq<Effect>, b: seq<Effect>, e: Effect, s: MachineState)
    requires Update(a, s) == Update(b, s)
    ensures Update(a + [e], s) == Update(b + [e], s)
  {
    WritesConcat(a, [e], s);
    WritesConcat(b, [e], s);
    InsertAllConcat(s.registers, RegisterWrites(a, s), RegisterWrites([e], s));
    InsertAllConcat(s.registers, RegisterWrites(b, s), RegisterWrites([e], s));
    InsertAllConcat(s.memory, MemoryWrites(a, s), MemoryWrites([e], s));
    InsertAllConcat(s.memory, MemoryWrites(b, s), MemoryWrites([e], s));
  }

  /** Effects lowered against a list, appended to it, come to the list followed by the instruction. */
  lemma AppendIsSequence(list: seq<Effect>, lowered: seq<Effect>, effects: seq<Effect>, s: MachineState)
    requires SameWrites(lowered, s, effects, Update(list, s))
    ensures Update(list + lowered, s) == Update(effects, Update(list, s))
  {
    WritesConcat(list, lowered, s);
    InsertAllConcat(s.registers, RegisterWrites(list, s), RegisterWrites(lowered, s));
    InsertAllConcat(s.memory, MemoryWrites(list, s), MemoryWrites(lowered, s));
  }

  /** No merge of the whole fold is disturbed in the start state. */
  ghost predicate FoldUndisturbed(program: seq<seq<Effect>>, le: Order, fuel: nat, s: MachineState)
  {
    program == [] ||
    var init, last := program[..|program| - 1], program[|program| - 1];
    var earlier := SequenceEffects(init, le, fuel);
    && FoldUndisturbed(init, le, fuel, s)
    && (earlier.Done? ==>
          var lowered := LowerInstruction(last, earlier.value, le, fuel);
          lowered.Done? ==> MergesUndisturbed(earlier.value, lowered.value, s))
  }

  /** The list a program folds into, with every expression read in the start state, leaves the state
      that running the program instruction by instruction leaves. */
  lemma {:induction false} SequenceIsRun(program: seq<seq<Effect>>, le: Order, fuel: nat, s: MachineState, g: Shape)
    requires Total(s, g) && TypedProgram(program, g)
    requires var r := SequenceEffects(program, le, fuel); r.Done? && AllHold(r.obligations, s)
    requires FoldUndisturbed(program, le, fuel, s)
    ensures var list := SequenceEffects(program, le, fuel).value;
      Lowered(list, s, g) && Update(list, s) == Run(program, s)
  {
    hide MergesUndisturbed;
    if program != [] {
      var init, last := program[..|program| - 1], program[|program| - 1];
      var earlier := SequenceEffects(init, le, fuel);
      var lowered := LowerInstruction(last, earlier.value, le, fuel);
      var r := SequenceEffects(program, le, fuel);
      assert r.obligations == earlier.obligations + lowered.obligations;
      assert TypedEffects(last, g);
      SequenceIsRun(init, le, fuel, s, g);
      LowerInstructionMeaning(last, earlier.value, le, fuel, s, g);
      MergeAllMeaning(earlier.value, lowered.value, s, g);
      AppendIsSequence(earlier.value, lowered.value, last, s);
    }
  }

  // ----- lists whose entries write distinct places -----

  lemma {:induction false} SeparatedMerges(list: seq<Effect>, effects: seq<Effect>, s: MachineState, g: Shape)
    requires Total(s, g) && Lowered(list, s, g) && Lowered(effects, s, g)
    requires MergeAll(list, effects).Some? && Separated(MergeAll(list, effects).value, s)
    ensures MergesUndisturbed(list, effects, s)
  {
    hide MergeEffect, Undisturbed, Total, KeepsDestinations, Separated;
    if effects != [] {
      var init, last := effects[..|effects| - 1], effects[|effects| - 1];
      LoweredPrefix(effects, s, g);
      MergeAllNeverPanics(list, init, s, g);
      var earlier := MergeAll(list, init).value;
      MergeKeepsDestinations(earlier, last);
      KeptIsSeparated(earlier, MergeEffect(earlier, last).value, s);
      SeparatedMerges(list, init, s, g);
      SeparatedIsUndisturbed(earlier, last, s, g);
    }
  }

  /** If the entries of the final list write distinct places, no merge was disturbed, and the list and the run agree. */
  lemma {:induction false} SeparatedIsRun(program: seq<seq<Effect>>, le: Order, fuel: nat, s: MachineState, g: Shape)
    requires Total(s, g) && TypedProgram(program, g)
    requires var r := SequenceEffects(program, le, fuel);
      r.Done? && AllHold(r.obligations, s) && Separated(r.value, s)
    ensures var list := SequenceEffects(program, le, fuel).value;
      FoldUndisturbed(program, le, fuel, s) && Lowered(list, s, g) && Update(list, s) == Run(program, s)
  {
    hide Separated, MergesUndisturbed;
    if program != [] {
      var init, last := program[..|program| - 1], program[|program| - 1];
      var earlier := SequenceEffects(init, le, fuel);
      var lowered := LowerInstruction(last, earlier.value, le, fuel);
      var r := SequenceEffects(program, le, fuel);
      assert r.obligations == earlier.obligations + lowered.obligations;
      MergeAllKeepsDestinations(earlier.value, lowered.value);
      KeptIsSeparated(earlier.value, r.value, s);
      assert TypedEffects(last, g);
      SeparatedIsRun(init, le, fuel, s, g);
      LowerInstructionMeaning(last, earlier.value, le, fuel, s, g);
      SeparatedMerges(earlier.value, lowered.value, s, g);
    }
    SequenceIsRun(program, le, fuel, s, g);
  }
}
