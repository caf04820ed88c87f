/** The registers an instruction reads and surely overwrites, and what they mean for execution. */
module RegisterUse {
  import opened Words
  import opened Exprs
  import opened Effects
  import opened Typing
  import opened VariablePool

  // ----- collecting -----

  /** The architectural register a fixed identifier expression stands for. */
  function FixedRegister(register: Expr, width: nat): set<Register>
  {
    if register.RegisterField? && register.ref.Fixed?
    then {Register(register.ref.register, register.ref.identifierWidth, width)} else {}
  }

  function ExprReads(e: Expr): set<Register>
    decreases e, 1
  {
    match e
    case ReadRegister(register, width) => ExprReads(register) + FixedRegister(register, width)
    case ReadMemory(address, _) => ExprReads(address)
    case Bin(_, lhs, rhs) => ExprReads(lhs) + ExprReads(rhs)
    case Not(operand) => ExprReads(operand)
    case CountOnes(operand) => ExprReads(operand)
    case Slice(operand, _, _) => ExprReads(operand)
    case Concat(parts) => PartReads(parts)
    case Extend(_, operand, _) => ExprReads(operand)
    case Flag(_, lhs, rhs, flagIn, _) => ExprReads(lhs) + ExprReads(rhs) + ExprReads(flagIn)
    case Select(c, t, f) => ExprReads(c) + ExprReads(t) + ExprReads(f)
    case _ => {}
  }

  function PartReads(parts: seq<Expr>): set<Register>
    decreases parts, 0
  {
    if parts == [] then {} else PartReads(parts[..|parts| - 1]) + ExprReads(parts[|parts| - 1])
  }

  predicate IsConstFalse(guard: Expr)
  {
    guard.Const? && guard.value % Pow2(guard.width) == 0
  }

  predicate IsConstTrue(guard: Expr)
  {
    guard.Const? && guard.width == 1 && guard.value % Pow2(1) == 1
  }

  function EffectReads(e: Effect): set<Register>
  {
    if IsConstFalse(e.guard) then {}
    else ExprReads(e.guard) + ExprReads(e.Destination()) + ExprReads(e.value)
  }

  /** A write counts only if its guard is constantly true; `None` is a panic on a missing width. */
  function EffectWrites(e: Effect): Option<set<Register>>
  {
    if !e.WriteRegister? || !IsConstTrue(e.guard) then Some({})
    else
      var width :- ExprWidth(e.value);
      Some(FixedRegister(e.register, width))
  }

  function InstructionReads(effects: seq<Effect>): set<Register>
  {
    if effects == [] then {} else InstructionReads(effects[..|effects| - 1]) + EffectReads(effects[|effects| - 1])
  }

  function InstructionWrites(effects: seq<Effect>): Option<set<Register>>
  {
    if effects == [] then Some({})
    else
      var earlier :- InstructionWrites(effects[..|effects| - 1]);
      var last :- EffectWrites(effects[|effects| - 1]);
      Some(earlier + last)
  }

  // ----- what is collected, exactly -----

  /** `x` is the expression or a part of it. */
  ghost predicate Occurs(x: Expr, e: Expr)
    decreases e
  {
    e == x ||
    match e
    case ReadRegister(register, _) => Occurs(x, register)
    case ReadMemory(address, _) => Occurs(x, address)
    case Bin(_, lhs, rhs) => Occurs(x, lhs) || Occurs(x, rhs)
    case Not(operand) => Occurs(x, operand)
    case CountOnes(operand) => Occurs(x, operand)
    case Slice(operand, _, _) => Occurs(x, operand)
    case Concat(parts) => exists p :: p in parts && Occurs(x, p)
    case Extend(_, operand, _) => Occurs(x, operand)
    case Flag(_, lhs, rhs, flagIn, _) => Occurs(x, lhs) || Occurs(x, rhs) || Occurs(x, flagIn)
    case Select(c, t, f) => Occurs(x, c) || Occurs(x, t) || Occurs(x, f)
    case _ => false
  }

  function Named(r: Register): Expr { RegisterField(Fixed(r.identifier, r.identifierWidth)) }

  /** The collector finds exactly the registers that the expression reads by a fixed identifier. */
  lemma {:induction false} ReadsExactly(e: Expr, r: Register)
    ensures r in ExprReads(e) <==> Occurs(ReadRegister(Named(r), r.width), e)
    decreases e, 1
  {
    match e
    case ReadRegister(register, _) => ReadsExactly(register, r);
    case ReadMemory(address, _) => ReadsExactly(address, r);
    case Bin(_, lhs, rhs) => ReadsExactly(lhs, r); ReadsExactly(rhs, r);
    case Not(operand) => ReadsExactly(operand, r);
    case CountOnes(operand) => ReadsExactly(operand, r);
    case Slice(operand, _, _) => ReadsExactly(operand, r);
    case Concat(parts) => PartReadsExactly(parts, r);
    case Extend(_, operand, _) => ReadsExactly(operand, r);
    case Flag(_, lhs, rhs, flagIn, _) => ReadsExactly(lhs, r); ReadsExactly(rhs, r); ReadsExactly(flagIn, r);
    case Select(c, t, f) => ReadsExactly(c, r); ReadsExactly(t, r); ReadsExactly(f, r);
    case _ =>
  }

  lemma {:induction false} PartReadsExactly(parts: seq<Expr>, r: Register)
    ensures r in PartReads(parts) <==> exists p :: p in parts && Occurs(ReadRegister(Named(r), r.width), p)
    decreases parts, 0
  {
    if parts != [] {
      var init, last := parts[..|parts| - 1], parts[|parts| - 1];
      PartReadsExactly(init, r);
      ReadsExactly(last, r);
      assert parts == init + [last];
    }
  }

  /** The effect is not switched off and reads the register in its guard, its destination or its value. */
  ghost predicate ReadsIn(e: Effect, r: Register)
  {
    var read := ReadRegister(Named(r), r.width);
    !IsConstFalse(e.guard) && (Occurs(read, e.guard) || Occurs(read, e.Destination()) || Occurs(read, e.value))
  }

  ghost predicate SomeReads(effects: seq<Effect>, r: Register)
  {
    exists e :: e in effects && ReadsIn(e, r)
  }

  lemma {:induction false} InstructionReadsExactly(effects: seq<Effect>, r: Register)
    ensures r in InstructionReads(effects) <==> SomeReads(effects, r)
  {
    if effects != [] {
      var init, last := effects[..|effects| - 1], effects[|effects| - 1];
      InstructionReadsExactly(init, r);
      ReadsExactly(last.guard, r);
      ReadsExactly(last.Destination(), r);
      ReadsExactly(last.value, r);
      assert effects == init + [last];
      if SomeReads(init, r) {
        var e :| e in init && ReadsIn(e, r);
        assert e in effects;
      }
      assert last in effects;
    }
  }

  /** The effect writes the whole register under a guard that is constantly true. */
  ghost predicate Overwrites(e: Effect, r: Register)
  {
    e.WriteRegister? && IsConstTrue(e.guard) && e.register == Named(r) && ExprWidth(e.value) == Some(r.width)
  }

  ghost predicate SomeOverwrites(effects: seq<Effect>, r: Register)
  {
    exists e :: e in effects && Overwrites(e, r)
  }

  lemma {:induction false} InstructionWritesExactly(effects: seq<Effect>, r: Register)
    requires InstructionWrites(effects).Some?
    ensures r in InstructionWrites(effects).value <==> SomeOverwrites(effects, r)
  {
    if effects != [] {
      var init, last := effects[..|effects| - 1], effects[|effects| - 1];
      InstructionWritesExactly(init, r);
      assert effects == init + [last];
      if SomeOverwrites(init, r) {
        var e :| e in init && Overwrites(e, r);
        assert e in effects;
      }
      assert last in effects;
    }
  }

  /** A constant guard of one bit is one of the two, and fires accordingly in every state. */
  lemma ConstGuards(guard: Expr, s: MachineState)
    requires guard.Const? && guard.width == 1
    ensures IsConstFalse(guard) <==> !Fires(guard, s)
    ensures IsConstTrue(guard) <==> Fires(guard, s)
  {
    assert Pow2(1) == 2 * Pow2(0);
  }

  /** Only unconditional writes are ever counted as overwriting. */
  lemma {:induction false} OnlyUnconditionalWrites(effects: seq<Effect>, r: Register)
    requires InstructionWrites(effects).Some? && r in InstructionWrites(effects).value
    ensures exists e :: e in effects && e.WriteRegister? && IsConstTrue(e.guard)
                        && ExprWidth(e.value).Some? && FixedRegister(e.register, ExprWidth(e.value).value) == {r}
  {
    var init, last := effects[..|effects| - 1], effects[|effects| - 1];
    if r in InstructionWrites(init).value {
      OnlyUnconditionalWrites(init, r);
      var e :| e in init && e.WriteRegister? && IsConstTrue(e.guard)
               && ExprWidth(e.value).Some? && FixedRegister(e.register, ExprWidth(e.value).value) == {r};
      assert e in effects;
    } else {
      assert last in effects;
    }
  }

  // ----- scanning a block -----

  /** Registers read before the block surely overwrites them. */
  function UpwardReads(instructions: seq<seq<Effect>>): Option<set<Register>>
  {
    if instructions == [] then Some({})
    else
      var init, last := instructions[..|instructions| - 1], instructions[|instructions| - 1];
      var earlier :- UpwardReads(init);
      var killed :- Consumed(init);
      Some(earlier + (InstructionReads(last) - killed))
  }

  function Consumed(instructions: seq<seq<Effect>>): Option<set<Register>>
  {
    if instructions == [] then Some({})
    else
      var earlier :- Consumed(instructions[..|instructions| - 1]);
      var last :- InstructionWrites(instructions[|instructions| - 1]);
      Some(earlier + last)
  }

  /** Instruction `k` reads the register and no earlier one surely overwrites it. */
  ghost predicate ExposedAt(instructions: seq<seq<Effect>>, k: nat, r: Register)
  {
    && k < |instructions| && SomeReads(instructions[k], r)
    && forall j | 0 <= j < k :: !SomeOverwrites(instructions[j], r)
  }

  lemma {:induction false} ConsumedExactly(instructions: seq<seq<Effect>>, r: Register)
    requires Consumed(instructions).Some?
    ensures r in Consumed(instructions).value
            <==> exists j :: 0 <= j < |instructions| && SomeOverwrites(instructions[j], r)
  {
    if instructions != [] {
      var init, last := instructions[..|instructions| - 1], instructions[|instructions| - 1];
      ConsumedExactly(init, r);
      InstructionWritesExactly(last, r);
      if j :| 0 <= j < |init| && SomeOverwrites(init[j], r) { assert SomeOverwrites(instructions[j], r); }
      if j :| 0 <= j < |instructions| && SomeOverwrites(instructions[j], r) {
        if j < |init| { assert SomeOverwrites(init[j], r); }
      }
    }
  }

  /** The upward-exposed reads of a block are exactly the registers that some instruction of it reads before any
      earlier one surely overwrites them. */
  lemma {:induction false} UpwardReadsExactly(instructions: seq<seq<Effect>>, r: Register)
    requires UpwardReads(instructions).Some?
    ensures r in UpwardReads(instructions).value <==> exists k: nat :: ExposedAt(instructions, k, r)
  {
    if instructions != [] {
      var init, last := instructions[..|instructions| - 1], instructions[|instructions| - 1];
      UpwardReadsExactly(init, r);
      ConsumedExactly(init, r);
      InstructionReadsExactly(last, r);
      if k: nat :| ExposedAt(init, k, r) { assert ExposedAt(instructions, k, r); }
      if r in InstructionReads(last) - Consumed(init).value { assert ExposedAt(instructions, |init|, r); }
      if k: nat :| ExposedAt(instructions, k, r) {
        if k < |init| {
          assert ExposedAt(init, k, r);
        } else {
          assert forall j | 0 <= j < |init| :: init[j] == instructions[j];
        }
      }
    }
  }

  // ----- states that agree on some registers -----

  ghost predicate SameRegister(s: MachineState, t: MachineState, id: nat)
  {
    (id in s.registers <==> id in t.registers) && (id in s.registers ==> s.registers[id] == t.registers[id])
  }

  /** The states have the same memory and the same value in every listed register. */
  ghost predicate AgreeOn(s: MachineState, t: MachineState, registers: set<Register>)
  {
    s.memory == t.memory && forall r | r in registers :: SameRegister(s, t, r.identifier)
  }

  /** Every register the expression reads is named by a fixed identifier. */
  predicate FixedReads(e: Expr)
    decreases e
  {
    match e
    case ReadRegister(register, _) =>
      register.RegisterField? && register.ref.Fixed? && register.ref.register < Pow2(register.ref.identifierWidth)
    case ReadMemory(address, _) => FixedReads(address)
    case Bin(_, lhs, rhs) => FixedReads(lhs) && FixedReads(rhs)
    case Not(operand) => FixedReads(operand)
    case CountOnes(operand) => FixedReads(operand)
    case Slice(operand, _, _) => FixedReads(operand)
    case Concat(parts) => forall p | p in parts :: FixedReads(p)
    case Extend(_, operand, _) => FixedReads(operand)
    case Flag(_, lhs, rhs, flagIn, _) => FixedReads(lhs) && FixedReads(rhs) && FixedReads(flagIn)
    case Select(c, t, f) => FixedReads(c) && FixedReads(t) && FixedReads(f)
    case _ => true
  }

  predicate FixedEffect(e: Effect)
  {
    && FixedReads(e.guard) && FixedReads(e.Destination()) && FixedReads(e.value)
    && (e.WriteRegister? ==> e.register.RegisterField? && e.register.ref.Fixed?
                             && e.register.ref.register < Pow2(e.register.ref.identifierWidth))
  }

  ghost predicate FixedEffects(effects: seq<Effect>)
  {
    forall e | e in effects :: FixedEffect(e)
  }

  /** An expression has the same value in states that agree on memory and on the registers it reads. */
  lemma {:induction false} SameValue(e: Expr, s: MachineState, t: MachineState)
    requires FixedReads(e) && AgreeOn(s, t, ExprReads(e))
    ensures Eval(e, s) == Eval(e, t)
    decreases e, 1
  {
    match e
    case ReadRegister(register, width) =>
      var r := Register(register.ref.register, register.ref.identifierWidth, width);
      SmallMod(r.identifier, Pow2(r.identifierWidth));
      assert Eval(register, s) == MakeWord(r.identifier, r.identifierWidth) == Eval(register, t);
      assert r in ExprReads(e) && SameRegister(s, t, r.identifier);
    case ReadMemory(address, width) =>
      SameValue(address, s, t);
      if Eval(address, s).Some? { SameMemoryRead(s, t, Eval(address, s).value, width); }
    case Bin(_, lhs, rhs) => SameValue(lhs, s, t); SameValue(rhs, s, t);
    case Not(operand) => SameValue(operand, s, t);
    case CountOnes(operand) => SameValue(operand, s, t);
    case Slice(operand, _, _) => SameValue(operand, s, t);
    case Concat(parts) => SameParts(parts, s, t);
    case Extend(_, operand, _) => SameValue(operand, s, t);
    case Flag(_, lhs, rhs, flagIn, _) => SameValue(lhs, s, t); SameValue(rhs, s, t); SameValue(flagIn, s, t);
    case Select(c, x, y) => SameValue(c, s, t); SameValue(x, s, t); SameValue(y, s, t);
    case _ =>
  }

  lemma {:induction false} SameParts(parts: seq<Expr>, s: MachineState, t: MachineState)
    requires AgreeOn(s, t, PartReads(parts)) && forall p | p in parts :: FixedReads(p)
    ensures EvalParts(parts, s) == EvalParts(parts, t)
    decreases parts, 0
  {
    if parts != [] {
      SameParts(parts[..|parts| - 1], s, t);
      SameValue(parts[|parts| - 1], s, t);
    }
  }

  lemma {:induction false} SameBytes(s: MachineState, t: MachineState, address: Word, count: nat)
    requires s.memory == t.memory
    ensures ReadBytes(s, address, count) == ReadBytes(t, address, count)
  {
    if count > 0 { SameBytes(s, t, address, count - 1); }
  }

  lemma SameMemoryRead(s: MachineState, t: MachineState, address: Word, width: nat)
    requires s.memory == t.memory
    ensures ReadConcreteMemory(s, address, width) == ReadConcreteMemory(t, address, width)
  {
    SameBytes(s, t, address, width / 8);
  }

  // ----- one instruction -----

  lemma {:induction false} SameWrites(effects: seq<Effect>, s: MachineState, t: MachineState)
    requires FixedEffects(effects) && AgreeOn(s, t, InstructionReads(effects))
    ensures RegisterWrites(effects, s) == RegisterWrites(effects, t)
    ensures MemoryWrites(effects, s) == MemoryWrites(effects, t)
  {
    if effects != [] {
      var init, e := effects[..|effects| - 1], effects[|effects| - 1];
      assert FixedEffect(e) && forall x | x in init :: x in effects;
      SameWrites(init, s, t);
      SameEffect(e, s, t);
    }
  }

  lemma SameEffect(e: Effect, s: MachineState, t: MachineState)
    requires FixedEffect(e) && AgreeOn(s, t, EffectReads(e))
    ensures Fires(e.guard, s) == Fires(e.guard, t)
    ensures Fires(e.guard, s)
            ==> Eval(e.Destination(), s) == Eval(e.Destination(), t) && Eval(e.value, s) == Eval(e.value, t)
  {
    if !IsConstFalse(e.guard) {
      SameValue(e.guard, s, t);
      SameValue(e.Destination(), s, t);
      SameValue(e.value, s, t);
    }
  }

  lemma {:induction false} InsertKeepsAgreement(s: MachineState, t: MachineState, writes: seq<RegisterWrite>, id: nat)
    requires SameRegister(s, t, id) || exists i :: 0 <= i < |writes| && writes[i].0 == id
    ensures var x, y := InsertAll(s.registers, writes), InsertAll(t.registers, writes);
      (id in x <==> id in y) && (id in x ==> x[id] == y[id])
  {
    if writes != [] {
      var last := writes[|writes| - 1];
      if last.0 != id {
        var init := writes[..|writes| - 1];
        if i :| 0 <= i < |writes| && writes[i].0 == id { assert init[i].0 == id; }
        InsertKeepsAgreement(s, t, init, id);
      }
    }
  }

  /** An unconditional write of a well-formed instruction is always performed. */
  lemma {:induction false} SurelyWritten(effects: seq<Effect>, s: MachineState, g: Shape, r: Register)
    requires Total(s, g) && TypedEffects(effects, g) && FixedEffects(effects)
    requires InstructionWrites(effects).Some? && r in InstructionWrites(effects).value
    ensures exists i :: 0 <= i < |RegisterWrites(effects, s)| && RegisterWrites(effects, s)[i].0 == r.identifier
  {
    var init, e := effects[..|effects| - 1], effects[|effects| - 1];
    assert TypedEffect(e, g) && FixedEffect(e);
    if r in InstructionWrites(init).value {
      SurelyWritten(init, s, g, r);
      var i :| 0 <= i < |RegisterWrites(init, s)| && RegisterWrites(init, s)[i].0 == r.identifier;
      assert RegisterWrites(effects, s)[i].0 == r.identifier;
    } else {
      TypedIsReady(e, g, s);
      SmallMod(r.identifier, Pow2(r.identifierWidth));
      assert Fires(e.guard, s);
      var n := |RegisterWrites(init, s)|;
      assert RegisterWrites(effects, s)[n].0 == r.identifier;
    }
  }

  /** Agreement on what an instruction reads carries over it and grows by what it surely overwrites. */
  lemma InstructionKeepsAgreement(
    effects: seq<Effect>, s: MachineState, t: MachineState, g: Shape, agreed: set<Register>)
    requires Total(s, g) && Total(t, g) && TypedEffects(effects, g) && FixedEffects(effects)
    requires InstructionWrites(effects).Some? && InstructionReads(effects) <= agreed && AgreeOn(s, t, agreed)
    ensures AgreeOn(Update(effects, s), Update(effects, t), agreed + InstructionWrites(effects).value)
  {
    SameWrites(effects, s, t);
    var writes := RegisterWrites(effects, s);
    forall r | r in agreed + InstructionWrites(effects).value
      ensures SameRegister(Update(effects, s), Update(effects, t), r.identifier)
    {
      if r !in agreed { SurelyWritten(effects, s, g, r); }
      InsertKeepsAgreement(s, t, writes, r.identifier);
    }
  }

  ghost predicate BlockOk(instructions: seq<seq<Effect>>, g: Shape)
  {
    && TypedProgram(instructions, g)
    && (forall i | i in instructions :: FixedEffects(i))
    && UpwardReads(instructions).Some? && Consumed(instructions).Some?
  }

  /** A block carries agreement on its upward-exposed reads to agreement on those and all it overwrites. */
  lemma {:induction false} BlockKeepsAgreement(
    instructions: seq<seq<Effect>>, s: MachineState, t: MachineState, g: Shape, agreed: set<Register>)
    requires BlockOk(instructions, g) && Total(s, g) && Total(t, g)
    requires UpwardReads(instructions).value <= agreed && AgreeOn(s, t, agreed)
    ensures AgreeOn(Run(instructions, s), Run(instructions, t), agreed + Consumed(instructions).value)
  {
    if instructions != [] {
      var init, last := instructions[..|instructions| - 1], instructions[|instructions| - 1];
      assert forall i | i in init :: i in instructions;
      BlockKeepsAgreement(init, s, t, g, agreed);
      RunKeepsTotal(init, s, g);
      RunKeepsTotal(init, t, g);
      var sofar := agreed + Consumed(init).value;
      assert InstructionReads(last) <= sofar;
      assert TypedEffects(last, g) && FixedEffects(last);
      InstructionKeepsAgreement(last, Run(init, s), Run(init, t), g, sofar);
      assert agreed + Consumed(instructions).value == sofar + InstructionWrites(last).value;
    } else {
      assert agreed + {} == agreed;
    }
  }
}
