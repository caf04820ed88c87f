/** Total machine states of a fixed shape, and expressions that have a value in all of them. */
module Typing {
  import opened Words
  import opened WordLaws
  import opened Exprs
  import opened Effects
  import opened ByteMemory

  /** Register widths by identifier, the width of identifiers and the width of addresses. */
  datatype Shape = Shape(registers: map<nat, nat>, identifierWidth: nat, addressWidth: nat)

  ghost predicate RegistersFit(registers: map<nat, Word>, g: Shape)
  {
    && (forall r :: r in g.registers <==> r in registers)
    && (forall r | r in g.registers :: registers[r].width == g.registers[r])
  }

  predicate ByteKey(key: (nat, nat), g: Shape)
  {
    key.1 == 8 && key.0 < Pow2(g.addressWidth)
  }

  ghost predicate BytesFit(memory: map<(nat, nat), Word>, g: Shape)
  {
    && (forall k :: ByteKey(k, g) <==> k in memory)
    && (forall k | k in memory :: memory[k].width == 8)
  }

  /** Every register and every memory byte has a value of the right width. */
  ghost predicate Total(s: MachineState, g: Shape)
  {
    RegistersFit(s.registers, g) && BytesFit(s.memory, g)
  }

  ghost predicate RegisterHas(g: Shape, id: nat, width: nat)
  {
    id in g.registers && g.registers[id] == width
  }

  /** The registers an identifier expression may name all have the given width. */
  ghost predicate NamesRegistersOf(register: Expr, width: nat, g: Shape)
  {
    if register.RegisterField? && register.ref.Fixed?
    then RegisterHas(g, register.ref.register % Pow2(register.ref.identifierWidth), width)
    else forall id | 0 <= id < Pow2(g.identifierWidth) :: RegisterHas(g, id, width)
  }

  /** The width of a well-formed expression. */
  ghost function TypeOf(e: Expr, g: Shape): Option<nat>
    decreases e, 1
  {
    match e
    case Const(_, width) => if width > 0 then Some(width) else None
    case RegisterField(ref) =>
      if ref.Fixed? && ref.identifierWidth == g.identifierWidth > 0 then Some(g.identifierWidth) else None
    case ImmediateField(_) => None
    case DerivedValue(_) => None
    case ReadRegister(register, width) =>
      if TypeOf(register, g) == Some(g.identifierWidth) && NamesRegistersOf(register, width, g)
      then Some(width) else None
    case ReadMemory(address, width) =>
      if TypeOf(address, g) == Some(g.addressWidth) && width > 0 && width % 8 == 0 then Some(width) else None
    case Bin(op, lhs, rhs) =>
      var l :- TypeOf(lhs, g);
      var r :- TypeOf(rhs, g);
      if l == r then Some(BinWidth(op, l)) else None
    case Not(operand) => TypeOf(operand, g)
    case CountOnes(operand) => TypeOf(operand, g)
    case Slice(operand, high, low) =>
      var v :- TypeOf(operand, g);
      if low <= high < v then Some(high - low + 1) else None
    case Concat(parts) =>
      var w :- PartsType(parts, g);
      if w > 0 then Some(w) else None
    case Extend(_, operand, toWidth) =>
      var v :- TypeOf(operand, g);
      if v <= toWidth then Some(toWidth) else None
    case Flag(_, lhs, rhs, flagIn, width) =>
      if TypeOf(lhs, g) == Some(width) && TypeOf(rhs, g) == Some(width) && TypeOf(flagIn, g) == Some(1)
      then Some(1) else None
    case Select(condition, whenTrue, whenFalse) =>
      var t :- TypeOf(whenTrue, g);
      if TypeOf(condition, g) == Some(1) && TypeOf(whenFalse, g) == Some(t) then Some(t) else None
  }

  ghost function PartsType(parts: seq<Expr>, g: Shape): Option<nat>
    decreases parts, 0
  {
    if parts == [] then Some(0)
    else
      var high :- PartsType(parts[..|parts| - 1], g);
      var low :- TypeOf(parts[|parts| - 1], g);
      Some(high + low)
  }

  lemma {:induction false} TotalReadsBytes(s: MachineState, g: Shape, address: Word, count: nat)
    requires Total(s, g) && address.width == g.addressWidth
    ensures ReadBytes(s, address, count).Some?
  {
    if count > 0 {
      TotalReadsBytes(s, g, address, count - 1);
      assert ByteKey((ByteAddress(address, count - 1), 8), g);
    }
  }

  /** A well-formed expression has a value of its type in every total state. */
  lemma {:induction false} TypedHasValue(e: Expr, g: Shape, s: MachineState)
    requires Total(s, g)
    ensures TypeOf(e, g).Some? ==> Eval(e, s).Some? && Eval(e, s).value.width == TypeOf(e, g).value
    decreases e, 1
  {
    if TypeOf(e, g).Some? {
      match e
      case Const(_, _) =>
      case RegisterField(_) =>
      case ImmediateField(_) =>
      case DerivedValue(_) =>
      case ReadRegister(register, width) =>
        TypedHasValue(register, g, s);
        assert RegisterHas(g, Eval(register, s).value.value, width);
      case ReadMemory(address, width) =>
        TypedHasValue(address, g, s);
        var a := Eval(address, s).value;
        TotalReadsBytes(s, g, a, width / 8);
        assert ByteKey((a.value, 8), g);
        assert (a.value, width) in s.memory ==> width == 8 by { assert width != 8 ==> !ByteKey((a.value, width), g); }
      case Bin(_, lhs, rhs) => TypedHasValue(lhs, g, s); TypedHasValue(rhs, g, s);
      case Not(operand) => TypedHasValue(operand, g, s);
      case CountOnes(operand) => TypedHasValue(operand, g, s);
      case Slice(operand, _, _) => TypedHasValue(operand, g, s);
      case Concat(parts) => TypedPartsHaveValue(parts, g, s);
      case Extend(_, operand, _) => TypedHasValue(operand, g, s);
      case Flag(_, lhs, rhs, flagIn, _) =>
        TypedHasValue(lhs, g, s); TypedHasValue(rhs, g, s); TypedHasValue(flagIn, g, s);
      case Select(c, t, f) => TypedHasValue(c, g, s); TypedHasValue(t, g, s); TypedHasValue(f, g, s);
    }
  }

  lemma {:induction false} TypedPartsHaveValue(parts: seq<Expr>, g: Shape, s: MachineState)
    requires Total(s, g)
    ensures PartsType(parts, g).Some? ==>
              EvalParts(parts, s).Some? && EvalParts(parts, s).value.width == PartsType(parts, g).value
    decreases parts, 0
  {
    if parts != [] {
      TypedPartsHaveValue(parts[..|parts| - 1], g, s);
      TypedHasValue(parts[|parts| - 1], g, s);
    }
  }

  // ----- effects -----

  ghost predicate TypedEffect(e: Effect, g: Shape)
  {
    && TypeOf(e.guard, g) == Some(1)
    && match e
       case WriteRegister(_, register, value) =>
         && TypeOf(register, g) == Some(g.identifierWidth)
         && TypeOf(value, g).Some? && NamesRegistersOf(register, TypeOf(value, g).value, g)
       case WriteMemory(_, address, value, width) =>
         && TypeOf(address, g) == Some(g.addressWidth)
         && width > 0 && width % 8 == 0 && TypeOf(value, g) == Some(width)
  }

  ghost predicate TypedEffects(effects: seq<Effect>, g: Shape)
  {
    forall e | e in effects :: TypedEffect(e, g)
  }

  ghost predicate TypedProgram(program: seq<seq<Effect>>, g: Shape)
  {
    forall i | i in program :: TypedEffects(i, g)
  }

  /** What the writes of an effect look like in one state: all parts have values that fit the shape. */
  ghost predicate ReadyEffect(e: Effect, s: MachineState, g: Shape)
  {
    && Eval(e.guard, s).Some? && Eval(e.guard, s).value.width == 1
    && Eval(e.value, s).Some?
    && match e
       case WriteRegister(_, register, value) =>
         && Eval(register, s).Some? && Eval(register, s).value.width == g.identifierWidth
         && RegisterHas(g, Eval(register, s).value.value, Eval(value, s).value.width)
       case WriteMemory(_, address, value, width) =>
         && Eval(address, s).Some? && Eval(address, s).value.width == g.addressWidth
         && width > 0 && width % 8 == 0 && Eval(value, s).value.width == width
  }

  ghost predicate Ready(effects: seq<Effect>, s: MachineState, g: Shape)
  {
    forall e | e in effects :: ReadyEffect(e, s, g)
  }

  lemma TypedIsReady(e: Effect, g: Shape, s: MachineState)
    requires TypedEffect(e, g) && Total(s, g)
    ensures ReadyEffect(e, s, g)
  {
    TypedHasValue(e.guard, g, s);
    TypedHasValue(e.value, g, s);
    match e
    case WriteRegister(_, register, value) =>
      TypedHasValue(register, g, s);
      assert RegisterHas(g, Eval(register, s).value.value, Eval(value, s).value.width);
    case WriteMemory(_, address, _, _) => TypedHasValue(address, g, s);
  }

  // ----- updates keep states total -----

  ghost predicate RegisterWritesFit(writes: seq<RegisterWrite>, g: Shape)
  {
    forall w | w in writes :: RegisterHas(g, w.0, w.1.width)
  }

  ghost predicate MemoryWritesFit(writes: seq<MemoryWrite>, g: Shape)
  {
    forall w | w in writes :: ByteKey(w.0, g) && w.1.width == 8
  }

  lemma {:induction false} ByteWritesFit(address: Word, value: Word, count: nat, g: Shape)
    requires address.width == g.addressWidth
    ensures MemoryWritesFit(ByteWrites(address, value, count), g)
  {
    if count > 0 { ByteWritesFit(address, value, count - 1, g); }
  }

  lemma {:induction false} WritesFit(effects: seq<Effect>, s: MachineState, g: Shape)
    requires Ready(effects, s, g)
    ensures RegisterWritesFit(RegisterWrites(effects, s), g)
    ensures MemoryWritesFit(MemoryWrites(effects, s), g)
  {
    if effects != [] {
      var e := effects[|effects| - 1];
      WritesFit(effects[..|effects| - 1], s, g);
      assert ReadyEffect(e, s, g);
      if e.WriteMemory? {
        ByteWritesFit(Eval(e.address, s).value, Eval(e.value, s).value, e.width / 8, g);
      }
    }
  }

  lemma {:induction false} InsertRegistersFit(m: map<nat, Word>, writes: seq<RegisterWrite>, g: Shape)
    requires RegisterWritesFit(writes, g) && RegistersFit(m, g)
    ensures RegistersFit(InsertAll(m, writes), g)
  {
    if writes != [] {
      InsertRegistersFit(m, writes[..|writes| - 1], g);
      var w := writes[|writes| - 1];
      assert RegisterHas(g, w.0, w.1.width);
    }
  }

  lemma {:induction false} InsertBytesFit(m: map<(nat, nat), Word>, writes: seq<MemoryWrite>, g: Shape)
    requires MemoryWritesFit(writes, g) && BytesFit(m, g)
    ensures BytesFit(InsertAll(m, writes), g)
  {
    if writes != [] {
      InsertBytesFit(m, writes[..|writes| - 1], g);
      var w := writes[|writes| - 1];
      assert w in writes && ByteKey(w.0, g);
    }
  }

  lemma UpdateKeepsTotal(effects: seq<Effect>, s: MachineState, g: Shape)
    requires Total(s, g) && Ready(effects, s, g)
    ensures Total(Update(effects, s), g)
  {
    WritesFit(effects, s, g);
    InsertRegistersFit(s.registers, RegisterWrites(effects, s), g);
    InsertBytesFit(s.memory, MemoryWrites(effects, s), g);
  }

  /** Running a well-formed program keeps the state total. */
  lemma {:induction false} RunKeepsTotal(program: seq<seq<Effect>>, s: MachineState, g: Shape)
    requires TypedProgram(program, g) && Total(s, g)
    ensures Total(Run(program, s), g)
  {
    if program != [] {
      var init, last := program[..|program| - 1], program[|program| - 1];
      RunKeepsTotal(init, s, g);
      assert TypedEffects(last, g);
      forall e | e in last ensures ReadyEffect(e, Run(init, s), g) { TypedIsReady(e, g, Run(init, s)); }
      UpdateKeepsTotal(last, Run(init, s), g);
    }
  }
}
