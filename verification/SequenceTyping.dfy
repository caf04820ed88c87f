/** The list a well-formed program folds into is well-formed again, reads and writes single bytes only and
    is narrow enough to be lowered to bits. */
module SequenceTyping {
  import opened Words
  import opened Exprs
  import opened Effects
  import opened ByteMemory
  import opened Typing
  import opened Canonicalizer
  import opened CanonicalizerPanics
  import opened CanonicalizerTyping
  import opened EffectSequence
  import opened Forwarding
  import opened PlainEffects
  import opened ReadViews

  /** Widths the machine can have: no empty register or address, and none beyond the host integers. */
  ghost predicate ShapeOk(g: Shape)
  {
    WideRegisters(g) && 0 < g.addressWidth <= MAX_WIDTH && 0 < g.identifierWidth <= MAX_WIDTH
  }

  /** An expression as an instruction's description may use it. */
  ghost predicate Describable(e: Expr, w: nat, g: Shape)
  {
    TypeOf(e, g) == Some(w) && Narrow(e, g)
  }

  ghost predicate DescribedEffect(e: Effect, g: Shape)
  {
    && TypedEffect(e, g)
    && Narrow(e.guard, g) && Narrow(e.Destination(), g) && Narrow(e.value, g)
  }

  ghost predicate DescribedProgram(program: seq<seq<Effect>>, g: Shape)
  {
    forall i | i in program :: DescribedInstruction(i, g)
  }

  ghost predicate DescribedInstruction(effects: seq<Effect>, g: Shape)
  {
    forall e | e in effects :: DescribedEffect(e, g)
  }

  /** A write of the final list. */
  ghost predicate GoodEffect(e: Effect, g: Shape)
  {
    && Good(e.guard, 1, g)
    && match e
       case WriteRegister(_, register, value) =>
         && Good(register, g.identifierWidth, g)
         && TypeOf(value, g).Some? && Good(value, TypeOf(value, g).value, g)
         && NamesRegistersOf(register, TypeOf(value, g).value, g)
       case WriteMemory(_, address, value, width) =>
         Good(address, g.addressWidth, g) && width == 8 && Good(value, 8, g)
  }

  ghost predicate GoodList(list: seq<Effect>, g: Shape)
  {
    forall e | e in list :: GoodEffect(e, g)
  }

  /** There is a total state of every shape without empty registers. */
  lemma SomeState(g: Shape) returns (s: MachineState)
    requires WideRegisters(g)
    ensures Total(s, g)
  {
    var registers: map<nat, Word> := map id | id in g.registers :: Word(0, g.registers[id]);
    s := Completion(MachineState(registers, map[]), g);
  }

  // ----- lowering reads -----

  lemma {:induction false} LowerReadsStaysNarrow(e: Expr, g: Shape, s: MachineState)
    requires Total(s, g) && ShapeOk(g) && TypeOf(e, g).Some? && Narrow(e, g)
    ensures LowerReads(e).Some? && Good(LowerReads(e).value, TypeOf(e, g).value, g)
    decreases e, 1
  {
    LowerReadsKeepsType(e, g, s);
    LoweredReadsAreBytes(e);
    match e
    case Const(_, _) =>
    case RegisterField(_) =>
    case ImmediateField(_) =>
    case DerivedValue(_) =>
    case ReadRegister(register, _) => LowerReadsStaysNarrow(register, g, s);
    case ReadMemory(address, width) =>
      LowerReadsStaysNarrow(address, g, s);
      if width != 8 {
        TypeIsWidth(LowerReads(address).value, g);
        ByteReadsStayNarrow(LowerReads(address).value, width / 8, 0, g);
      }
    case Bin(_, lhs, rhs) => LowerReadsStaysNarrow(lhs, g, s); LowerReadsStaysNarrow(rhs, g, s);
    case Not(operand) => LowerReadsStaysNarrow(operand, g, s);
    case CountOnes(operand) => LowerReadsStaysNarrow(operand, g, s);
    case Slice(operand, _, _) => LowerReadsStaysNarrow(operand, g, s);
    case Concat(parts) => LowerPartsStayNarrow(parts, g, s);
    case Extend(_, operand, _) => LowerReadsStaysNarrow(operand, g, s);
    case Flag(_, lhs, rhs, flagIn, _) =>
      LowerReadsStaysNarrow(lhs, g, s); LowerReadsStaysNarrow(rhs, g, s); LowerReadsStaysNarrow(flagIn, g, s);
    case Select(c, t, f) =>
      LowerReadsStaysNarrow(c, g, s); LowerReadsStaysNarrow(t, g, s); LowerReadsStaysNarrow(f, g, s);
  }

  lemma {:induction false} LowerPartsStayNarrow(parts: seq<Expr>, g: Shape, s: MachineState)
    requires Total(s, g) && ShapeOk(g) && PartsType(parts, g).Some? && forall p | p in parts :: Narrow(p, g)
    ensures LowerReadsAll(parts).Some? && forall p | p in LowerReadsAll(parts).value :: Narrow(p, g)
    decreases parts, 0
  {
    if parts != [] {
      LowerPartsStayNarrow(parts[..|parts| - 1], g, s);
      LowerReadsStaysNarrow(parts[|parts| - 1], g, s);
    }
  }

  lemma ByteAddressGood(address: Expr, index: nat, g: Shape)
    requires ShapeOk(g) && Good(address, g.addressWidth, g)
    ensures Good(ByteAddressExpr(address, index, g.addressWidth), g.addressWidth, g)
  {
    GoodConst(index, g.addressWidth, g);
    GoodBin(Add, address, Const(index, g.addressWidth), g.addressWidth, g);
  }

  lemma {:induction false} ByteReadsStayNarrow(address: Expr, count: nat, low: nat, g: Shape)
    requires ShapeOk(g) && low <= count && Good(address, g.addressWidth, g)
    ensures forall p | p in ByteReads(address, count, low, g.addressWidth) :: Narrow(p, g)
    decreases count - low
  {
    if low < count {
      ByteReadsStayNarrow(address, count, low + 1, g);
      ByteAddressGood(address, low, g);
      EightIsNarrow();
    }
  }

  lemma EightIsNarrow()
    ensures 8 <= MAX_WIDTH
  {
    Pow2Mono(3, 64);
    assert Pow2(3) == 8;
  }

  // ----- forwarding -----

  lemma ForwardedGood(
    guard: Expr, destination: Expr, wanted: Expr, value: Expr, otherwise: Expr, d: nat, w: nat, g: Shape)
    requires Good(guard, 1, g) && Good(destination, d, g) && Good(wanted, d, g) && Good(value, w, g)
             && Good(otherwise, w, g)
    ensures Good(Forwarded(guard, destination, wanted, value, otherwise), w, g)
  {
    GoodBin(Equal, wanted, destination, d, g);
    GoodBin(And, guard, Bin(Equal, wanted, destination), 1, g);
    GoodSelect(Bin(And, guard, Bin(Equal, wanted, destination)), value, otherwise, w, g);
  }

  lemma GoodSelect(c: Expr, t: Expr, f: Expr, w: nat, g: Shape)
    requires Good(c, 1, g) && Good(t, w, g) && Good(f, w, g)
    ensures Good(Select(c, t, f), w, g)
  {
  }

  lemma {:induction false} ForwardRegisterGood(register: Expr, width: nat, previous: seq<Effect>, g: Shape)
    requires GoodList(previous, g) && Good(ReadRegister(register, width), width, g)
    ensures Good(ForwardRegister(register, width, previous), width, g)
  {
    if previous != [] {
      var init, e := previous[..|previous| - 1], previous[|previous| - 1];
      ForwardRegisterGood(register, width, init, g);
      assert GoodEffect(e, g);
      if e.WriteRegister? && ExprWidth(e.value) == Some(width) {
        TypeIsWidth(e.value, g);
        ForwardedGood(e.guard, e.register, register, e.value, ForwardRegister(register, width, init),
                      g.identifierWidth, width, g);
      }
    }
  }

  lemma {:induction false} ForwardMemoryGood(address: Expr, previous: seq<Effect>, g: Shape)
    requires GoodList(previous, g) && Good(ReadMemory(address, 8), 8, g)
    ensures Good(ForwardMemory(address, 8, previous), 8, g)
  {
    if previous != [] {
      var init, e := previous[..|previous| - 1], previous[|previous| - 1];
      ForwardMemoryGood(address, init, g);
      assert GoodEffect(e, g);
      if e.WriteMemory? {
        ForwardedGood(e.guard, e.address, address, e.value, ForwardMemory(address, 8, init), g.addressWidth, 8, g);
      }
    }
  }

  /** Another expression for the identifier of a read may name no other registers. */
  lemma SameNames(register: Expr, other: Expr, width: nat, g: Shape)
    requires NamesRegistersOf(register, width, g) && TypeOf(other, g) == Some(g.identifierWidth)
    requires register.RegisterField? ==> other == register
    ensures NamesRegistersOf(other, width, g)
  {
  }

  lemma RegisterReadGood(register: Expr, other: Expr, width: nat, previous: seq<Effect>, g: Shape)
    requires GoodList(previous, g) && Good(ReadRegister(register, width), width, g) && Good(other, g.identifierWidth, g)
    requires register.RegisterField? ==> other == register
    ensures Good(ForwardRegister(other, width, previous), width, g)
  {
    SameNames(register, other, width, g);
    ForwardRegisterGood(other, width, previous, g);
  }

  lemma ByteReadGood(address: Expr, other: Expr, previous: seq<Effect>, g: Shape)
    requires GoodList(previous, g) && Good(ReadMemory(address, 8), 8, g) && Good(other, g.addressWidth, g)
    ensures Good(ForwardMemory(other, 8, previous), 8, g)
  {
    ForwardMemoryGood(other, previous, g);
  }

  /** Forwarding keeps the type of an expression over byte reads. */
  lemma {:induction false} SubstituteGood(e: Expr, w: nat, previous: seq<Effect>, g: Shape)
    requires GoodList(previous, g) && Good(e, w, g)
    ensures Good(Substitute(e, previous), w, g)
    decreases e, 1
  {
    hide GoodList;
    match e
    case Const(_, _) =>
    case RegisterField(_) =>
    case ImmediateField(_) =>
    case DerivedValue(_) =>
    case ReadRegister(register, width) =>
      SubstituteGood(register, g.identifierWidth, previous, g);
      RegisterReadGood(register, Substitute(register, previous), width, previous, g);
    case ReadMemory(address, _) =>
      SubstituteGood(address, g.addressWidth, previous, g);
      ByteReadGood(address, Substitute(address, previous), previous, g);
    case Not(operand) => SubstituteGood(operand, w, previous, g);
    case CountOnes(operand) => SubstituteGood(operand, w, previous, g);
    case Slice(operand, _, _) => SubstituteGood(operand, TypeOf(operand, g).value, previous, g);
    case Concat(parts) => SubstitutePartsGood(parts, w, previous, g);
    case Extend(_, operand, _) => SubstituteGood(operand, TypeOf(operand, g).value, previous, g);
    case _ => SubstituteOperandsGood(e, w, previous, g);
  }

  /** Expressions of several operands. */
  lemma {:induction false} SubstituteOperandsGood(e: Expr, w: nat, previous: seq<Effect>, g: Shape)
    requires GoodList(previous, g) && Good(e, w, g) && (e.Bin? || e.Flag? || e.Select?)
    ensures Good(Substitute(e, previous), w, g)
    decreases e, 0
  {
    hide GoodList;
    match e
    case Bin(_, lhs, rhs) =>
      var v := GoodOperands(e, w, g);
      SubstituteGood(lhs, v, previous, g);
      SubstituteGood(rhs, v, previous, g);
    case Flag(_, lhs, rhs, flagIn, width) =>
      SubstituteGood(lhs, width, previous, g);
      SubstituteGood(rhs, width, previous, g);
      SubstituteGood(flagIn, 1, previous, g);
    case Select(c, t, f) =>
      SubstituteGood(c, 1, previous, g);
      SubstituteGood(t, w, previous, g);
      SubstituteGood(f, w, previous, g);
  }

  lemma {:induction false} SubstitutePartsGood(parts: seq<Expr>, total: nat, previous: seq<Effect>, g: Shape)
    requires GoodList(previous, g) && GoodParts(parts, total, g)
    ensures GoodParts(SubstituteAll(parts, previous), total, g)
    decreases parts, 0
  {
    if parts != [] {
      var high, low := LastPart(parts, total, g);
      SubstitutePartsGood(parts[..|parts| - 1], high, previous, g);
      SubstituteGood(parts[|parts| - 1], low, previous, g);
      AppendPart(SubstituteAll(parts[..|parts| - 1], previous), Substitute(parts[|parts| - 1], previous), high, low, g);
    }
  }

  // ----- lowering effects -----

  lemma LowerPartGood(
    e: Expr, w: nat, previous: seq<Effect>, canonical: bool, le: Order, fuel: nat, g: Shape, s: MachineState)
    requires Total(s, g) && ShapeOk(g) && GoodList(previous, g) && Describable(e, w, g)
    ensures GoodOutcome(LowerPart(e, previous, canonical, le, fuel), w, g)
  {
    LowerReadsStaysNarrow(e, g, s);
    SubstituteGood(LowerReads(e).value, w, previous, g);
    if canonical { CanonicalizeKeepsType(Substitute(LowerReads(e).value, previous), w, le, fuel, g); }
  }

  /** An identifier the program gives outright stays as it is. */
  lemma LowerPartKeepsField(e: Expr, previous: seq<Effect>, canonical: bool, le: Order, fuel: nat)
    requires e.RegisterField?
    ensures var r := LowerPart(e, previous, canonical, le, fuel); r.Done? ==> r.value == e
  {
  }

  lemma {:induction false} SplitStoreGood(guard: Expr, address: Expr, value: Expr, count: nat, g: Shape)
    requires ShapeOk(g) && Good(guard, 1, g) && Good(address, g.addressWidth, g)
    requires TypeOf(value, g).Some? && Good(value, TypeOf(value, g).value, g) && 8 * count <= TypeOf(value, g).value
    ensures GoodList(SplitStore(guard, address, value, count, g.addressWidth), g)
  {
    if count > 0 {
      SplitStoreGood(guard, address, value, count - 1, g);
      ByteStoreGood(guard, address, value, count - 1, g);
      GoodAppend(SplitStore(guard, address, value, count - 1, g.addressWidth),
                 ByteStore(guard, address, value, count - 1, g.addressWidth), g);
    }
  }

  lemma GoodAppend(list: seq<Effect>, e: Effect, g: Shape)
    requires GoodList(list, g) && GoodEffect(e, g)
    ensures GoodList(list + [e], g)
  {
  }

  lemma ByteStoreGood(guard: Expr, address: Expr, value: Expr, n: nat, g: Shape)
    requires ShapeOk(g) && Good(guard, 1, g) && Good(address, g.addressWidth, g)
    requires TypeOf(value, g).Some? && Good(value, TypeOf(value, g).value, g) && 8 * n + 8 <= TypeOf(value, g).value
    ensures GoodEffect(ByteStore(guard, address, value, n, g.addressWidth), g)
  {
    ByteAddressGood(address, n, g);
    EightIsNarrow();
  }

  /** An identifier expression names registers of one width only. */
  lemma OneWidth(register: Expr, v: nat, w: nat, g: Shape)
    requires NamesRegistersOf(register, v, g) && NamesRegistersOf(register, w, g)
    ensures v == w
  {
    if !(register.RegisterField? && register.ref.Fixed?) { assert RegisterHas(g, 0, v) && RegisterHas(g, 0, w); }
  }

  lemma LowerEffectGood(e: Effect, previous: seq<Effect>, le: Order, fuel: nat, g: Shape, s: MachineState)
    requires Total(s, g) && ShapeOk(g) && GoodList(previous, g) && DescribedEffect(e, g)
    ensures var r := LowerEffect(e, previous, le, fuel); !r.Panic? && (r.Done? ==> GoodList(r.value, g))
  {
    hide LowerPart;
    var guard := LowerPart(e.guard, previous, true, le, fuel);
    var destination := LowerPart(e.Destination(), previous, true, le, fuel);
    var value := LowerPart(e.value, previous, false, le, fuel);
    var w := TypeOf(e.value, g).value;
    LowerPartGood(e.guard, 1, previous, true, le, fuel, g, s);
    LowerPartGood(e.value, w, previous, false, le, fuel, g, s);
    LowerPartGood(e.Destination(), TypeOf(e.Destination(), g).value, previous, true, le, fuel, g, s);
    if guard.Done? && destination.Done? && value.Done? {
      match e
      case WriteRegister(_, register, _) =>
        if register.RegisterField? { LowerPartKeepsField(register, previous, true, le, fuel); }
        SameNames(register, destination.value, w, g);
      case WriteMemory(_, _, _, width) =>
        TypeIsWidth(destination.value, g);
        SplitStoreGood(guard.value, destination.value, value.value, width / 8, g);
    }
  }

  lemma {:induction false} LowerInstructionGood(
    effects: seq<Effect>, previous: seq<Effect>, le: Order, fuel: nat, g: Shape, s: MachineState)
    requires Total(s, g) && ShapeOk(g) && GoodList(previous, g) && DescribedInstruction(effects, g)
    ensures var r := LowerInstruction(effects, previous, le, fuel); !r.Panic? && (r.Done? ==> GoodList(r.value, g))
  {
    hide LowerEffect;
    if effects != [] {
      LowerInstructionGood(effects[..|effects| - 1], previous, le, fuel, g, s);
      LowerEffectGood(effects[|effects| - 1], previous, le, fuel, g, s);
    }
  }

  // ----- merging -----

  lemma CombineGood(first: Effect, second: Effect, g: Shape)
    requires GoodEffect(first, g) && GoodEffect(second, g)
    ensures var c := CombineEffects(first, second); c.Some? && (c.value.Some? ==> GoodEffect(c.value.value, g))
  {
    GoodBin(Or, first.guard, second.guard, 1, g);
    TypeIsWidth(first.value, g);
    TypeIsWidth(second.value, g);
    if first.WriteRegister? && second.WriteRegister? && first.register == second.register {
      OneWidth(first.register, TypeOf(first.value, g).value, TypeOf(second.value, g).value, g);
    }
    var c := CombineEffects(first, second);
    if c.value.Some? {
      GoodSelect(second.guard, second.value, first.value, TypeOf(first.value, g).value, g);
    }
  }

  lemma {:induction false} MergeEffectGood(list: seq<Effect>, e: Effect, g: Shape)
    requires GoodList(list, g) && GoodEffect(e, g)
    ensures var m := MergeEffect(list, e); m.Some? && GoodList(m.value, g)
  {
    if list != [] {
      CombineGood(list[0], e, g);
      MergeEffectGood(list[1..], e, g);
    }
  }

  lemma {:induction false} MergeAllGood(list: seq<Effect>, effects: seq<Effect>, g: Shape)
    requires GoodList(list, g) && GoodList(effects, g)
    ensures var m := MergeAll(list, effects); m.Some? && GoodList(m.value, g)
  {
    if effects != [] {
      MergeAllGood(list, effects[..|effects| - 1], g);
      MergeEffectGood(MergeAll(list, effects[..|effects| - 1]).value, effects[|effects| - 1], g);
    }
  }

  /** Folding a well-formed program does not fail over a width, and gives a well-formed list of byte writes. */
  lemma {:induction false} SequenceGood(program: seq<seq<Effect>>, le: Order, fuel: nat, g: Shape, s: MachineState)
    requires Total(s, g) && ShapeOk(g) && DescribedProgram(program, g)
    ensures var r := SequenceEffects(program, le, fuel); !r.Panic? && (r.Done? ==> GoodList(r.value, g))
  {
    if program != [] {
      var init, last := program[..|program| - 1], program[|program| - 1];
      SequenceGood(init, le, fuel, g, s);
      var earlier := SequenceEffects(init, le, fuel);
      if earlier.Done? {
        LowerInstructionGood(last, earlier.value, le, fuel, g, s);
        var lowered := LowerInstruction(last, earlier.value, le, fuel);
        if lowered.Done? { MergeAllGood(earlier.value, lowered.value, g); }
      }
    }
  }

  // ----- what folding reports -----

  lemma PartAccounted(e: Expr, previous: seq<Effect>, canonical: bool, plain: bool, le: Order, fuel: nat)
    requires plain ==> Plain(e) && PlainWrites(previous)
    ensures Accounted(LowerPart(e, previous, canonical, le, fuel), plain)
  {
    hide Canonicalize, Plain, KeepsNoTerm, Anchored;
    if LowerReads(e).Some? { CanonicalizeAccounts(Substitute(LowerReads(e).value, previous), le, fuel); }
    if plain { PlainPart(e, previous, canonical, le, fuel); }
  }

  lemma EffectAccounted(e: Effect, previous: seq<Effect>, plain: bool, le: Order, fuel: nat)
    requires plain ==> PlainWrite(e) && PlainWrites(previous)
    ensures Accounted(LowerEffect(e, previous, le, fuel), plain)
  {
    hide LowerPart, Plain, KeepsNoTerm, Anchored;
    TrueIsPlain();
    PartAccounted(e.guard, previous, true, plain, le, fuel);
    PartAccounted(e.Destination(), previous, true, plain, le, fuel);
    PartAccounted(e.value, previous, false, plain, le, fuel);
  }

  lemma TrueIsPlain()
    ensures Plain(Const(1, 1))
  {
  }

  lemma {:induction false} InstructionAccounted(
    effects: seq<Effect>, previous: seq<Effect>, plain: bool, le: Order, fuel: nat)
    requires plain ==> PlainWrites(effects) && PlainWrites(previous)
    ensures Accounted(LowerInstruction(effects, previous, le, fuel), plain)
  {
    hide LowerEffect, PlainWrite, KeepsNoTerm, Anchored;
    if effects != [] {
      InstructionAccounted(effects[..|effects| - 1], previous, plain, le, fuel);
      EffectAccounted(effects[|effects| - 1], previous, plain, le, fuel);
    }
  }

  /** Folding ends without terms only where a reported absorption keeps no term, and never for a program of
      unconditional plain writes. */
  lemma {:induction false} SequenceAccounted(program: seq<seq<Effect>>, plain: bool, le: Order, fuel: nat)
    requires plain ==> PlainProgram(program)
    ensures Accounted(SequenceEffects(program, le, fuel), plain)
  {
    hide LowerInstruction, PlainWrite, KeepsNoTerm, Anchored, MergeAll;
    if program != [] {
      var init, last := program[..|program| - 1], program[|program| - 1];
      SequenceAccounted(init, plain, le, fuel);
      var earlier := SequenceEffects(init, le, fuel);
      if earlier.Done? {
        if plain { SequencePlain(init, le, fuel); }
        InstructionAccounted(last, earlier.value, plain, le, fuel);
      }
    }
  }
}
