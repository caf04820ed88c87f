/** Store-to-load forwarding: a substituted expression reads the state the earlier writes leave. */
module Forwarding {
  import opened Words
  import opened Exprs
  import opened Effects
  import opened ByteMemory
  import opened Typing
  import opened EffectSequence

  /** The effects of a lowered list: ready to be applied in `s`, with stores of one byte only. */
  ghost predicate Lowered(list: seq<Effect>, s: MachineState, g: Shape)
  {
    Ready(list, s, g) && forall e | e in list :: e.WriteMemory? ==> e.width == 8
  }

  lemma TotalIsWellFormed(s: MachineState, g: Shape)
    requires Total(s, g)
    ensures MemoryWellFormed(s) && ByteEntries(s)
  {
    forall k | k in s.memory ensures k.1 == 8 { assert ByteKey(k, g); }
  }

  lemma LoweredPrefix(list: seq<Effect>, s: MachineState, g: Shape)
    requires Lowered(list, s, g) && list != []
    ensures Lowered(list[..|list| - 1], s, g) && ReadyEffect(list[|list| - 1], s, g)
  {
    assert forall e | e in list[..|list| - 1] :: e in list;
  }

  /** A guarded select over one-bit guards. */
  lemma ForwardedMeaning(
    guard: Expr, destination: Expr, wanted: Expr, value: Expr, otherwise: Expr, s: MachineState)
    requires Eval(guard, s).Some? && Eval(guard, s).value.width == 1
    requires Eval(destination, s).Some? && Eval(wanted, s).Some?
    requires Eval(destination, s).value.width == Eval(wanted, s).value.width
    requires Eval(value, s).Some? && Eval(otherwise, s).Some?
    requires Eval(value, s).value.width == Eval(otherwise, s).value.width
    ensures Eval(Forwarded(guard, destination, wanted, value, otherwise), s)
            == if Fires(guard, s) && Eval(wanted, s) == Eval(destination, s) then Eval(value, s) else Eval(otherwise, s)
  {
    var test := Bin(Equal, wanted, destination);
    TestMeaning(wanted, destination, s);
    BothMeaning(guard, test, s);
    SelectMeaning(Bin(And, guard, test), value, otherwise, s);
  }

  lemma TestMeaning(wanted: Expr, destination: Expr, s: MachineState)
    requires Eval(destination, s).Some? && Eval(wanted, s).Some?
    requires Eval(destination, s).value.width == Eval(wanted, s).value.width
    ensures Eval(Bin(Equal, wanted, destination), s)
            == Some(RawWord.Word(BoolVal(Eval(wanted, s) == Eval(destination, s)), 1))
  {
  }

  /** Two one-bit values combined. */
  lemma BothMeaning(guard: Expr, test: Expr, s: MachineState)
    requires Eval(guard, s).Some? && Eval(guard, s).value.width == 1
    requires Eval(test, s).Some? && Eval(test, s).value.width == 1
    ensures var both := Eval(Bin(And, guard, test), s);
      both.Some? && both.value.width == 1
      && (both.value.value == 1 <==> Fires(guard, s) && Eval(test, s).value.value == 1)
  {
    assert Pow2(1) == 2;
    OneBitAnd(Eval(guard, s).value.value, Eval(test, s).value.value);
  }

  lemma SelectMeaning(condition: Expr, whenTrue: Expr, whenFalse: Expr, s: MachineState)
    requires Eval(condition, s).Some? && Eval(condition, s).value.width == 1
    requires Eval(whenTrue, s).Some? && Eval(whenFalse, s).Some?
    requires Eval(whenTrue, s).value.width == Eval(whenFalse, s).value.width
    ensures Eval(Select(condition, whenTrue, whenFalse), s)
            == if Eval(condition, s).value.value == 1 then Eval(whenTrue, s) else Eval(whenFalse, s)
  {
  }

  lemma OneBitAnd(a: nat, b: nat)
    requires a < 2 && b < 2
    ensures BinVal(And, a, b, 1) == if a == 1 && b == 1 then 1 else 0
  {
    BitwiseBit(LogicAnd, a, b, 1, 0);
    assert Pow2(1) == 2;
    var r := Bitwise(LogicAnd, a, b, 1);
    assert Bit(r, 0) == (r % 2 == 1) && Bit(a, 0) == (a % 2 == 1) && Bit(b, 0) == (b % 2 == 1);
  }

  /** Forwarding a register read gives what the register holds after the earlier writes. */
  lemma {:induction false} ForwardRegisterMeaning(
    register: Expr, width: nat, list: seq<Effect>, s: MachineState, g: Shape)
    requires Total(s, g) && Lowered(list, s, g)
    requires Eval(register, s).Some? && Eval(register, s).value.width == g.identifierWidth
    requires RegisterHas(g, Eval(register, s).value.value, width)
    ensures var id, after := Eval(register, s).value.value, InsertAll(s.registers, RegisterWrites(list, s));
      id in after && after[id].width == width
      && Eval(ForwardRegister(register, width, list), s) == Some(after[id])
  {
    if list != [] {
      var init, e := list[..|list| - 1], list[|list| - 1];
      LoweredPrefix(list, s, g);
      ForwardRegisterMeaning(register, width, init, s, g);
      if e.WriteRegister? {
        TotalIsWellFormed(s, g);
        EvalHasStaticWidth(e.value, s);
        if ExprWidth(e.value) == Some(width) {
          ForwardedMeaning(e.guard, e.register, register, e.value, ForwardRegister(register, width, init), s);
        }
        StepRegister(list, s);
      }
    }
  }

  lemma StepRegister(list: seq<Effect>, s: MachineState)
    requires list != [] && list[|list| - 1].WriteRegister?
    ensures var init, e := list[..|list| - 1], list[|list| - 1];
      var before := InsertAll(s.registers, RegisterWrites(init, s));
      InsertAll(s.registers, RegisterWrites(list, s))
      == if Fires(e.guard, s) && Eval(e.register, s).Some? && Eval(e.value, s).Some?
         then before[Eval(e.register, s).value.value := Eval(e.value, s).value] else before
  {
    var writes := RegisterWrites(list, s);
    var e := list[|list| - 1];
    if Fires(e.guard, s) && Eval(e.register, s).Some? && Eval(e.value, s).Some? {
      assert writes[..|writes| - 1] == RegisterWrites(list[..|list| - 1], s);
    }
  }

  lemma StepMemory(list: seq<Effect>, s: MachineState)
    requires list != [] && list[|list| - 1].WriteMemory? && list[|list| - 1].width == 8
    requires Eval(list[|list| - 1].value, s).Some? ==> Eval(list[|list| - 1].value, s).value.width == 8
    ensures var init, e := list[..|list| - 1], list[|list| - 1];
      var before := InsertAll(s.memory, MemoryWrites(init, s));
      InsertAll(s.memory, MemoryWrites(list, s))
      == if Fires(e.guard, s) && Eval(e.address, s).Some? && Eval(e.value, s).Some?
         then before[(Eval(e.address, s).value.value, 8) := Eval(e.value, s).value] else before
  {
    var writes := MemoryWrites(list, s);
    var e := list[|list| - 1];
    if Fires(e.guard, s) && Eval(e.address, s).Some? && Eval(e.value, s).Some? {
      SmallMod(Eval(e.value, s).value.value, Pow2(8));
      assert writes[..|writes| - 1] == MemoryWrites(list[..|list| - 1], s);
    }
  }

  /** Forwarding a byte read gives what the byte holds after the earlier writes. */
  lemma {:induction false} ForwardMemoryMeaning(address: Expr, list: seq<Effect>, s: MachineState, g: Shape)
    requires Total(s, g) && Lowered(list, s, g)
    requires Eval(address, s).Some? && Eval(address, s).value.width == g.addressWidth
    ensures var key, after := (Eval(address, s).value.value, 8), InsertAll(s.memory, MemoryWrites(list, s));
      key in after && after[key].width == 8
      && Eval(ForwardMemory(address, 8, list), s) == Some(after[key])
  {
    if list == [] {
      assert ByteKey((Eval(address, s).value.value, 8), g);
    } else {
      var init, e := list[..|list| - 1], list[|list| - 1];
      LoweredPrefix(list, s, g);
      ForwardMemoryMeaning(address, init, s, g);
      if e.WriteMemory? {
        ForwardedMeaning(e.guard, e.address, address, e.value, ForwardMemory(address, 8, init), s);
        StepMemory(list, s);
      }
    }
  }

  lemma ForwardedRegister(register: Expr, width: nat, list: seq<Effect>, s: MachineState, g: Shape)
    requires Total(s, g) && Lowered(list, s, g) && TypeOf(ReadRegister(register, width), g).Some?
    requires Eval(Substitute(register, list), s) == Eval(register, Update(list, s))
    ensures Eval(Substitute(ReadRegister(register, width), list), s)
            == Eval(ReadRegister(register, width), Update(list, s))
  {
    UpdateKeepsTotal(list, s, g);
    TypedHasValue(register, g, Update(list, s));
    assert RegisterHas(g, Eval(register, Update(list, s)).value.value, width);
    ForwardRegisterMeaning(Substitute(register, list), width, list, s, g);
  }

  lemma ForwardedMemory(address: Expr, width: nat, list: seq<Effect>, s: MachineState, g: Shape)
    requires Total(s, g) && Lowered(list, s, g)
    requires TypeOf(ReadMemory(address, width), g).Some? && OnlyByteReads(ReadMemory(address, width))
    requires Eval(Substitute(address, list), s) == Eval(address, Update(list, s))
    ensures Eval(Substitute(ReadMemory(address, width), list), s) == Eval(ReadMemory(address, width), Update(list, s))
  {
    UpdateKeepsTotal(list, s, g);
    TypedHasValue(address, g, Update(list, s));
    ForwardMemoryMeaning(Substitute(address, list), list, s, g);
  }

  /** An expression over byte reads, substituted, has in the start state the value it has after the
      earlier writes. */
  lemma {:induction false} SubstituteMeaning(e: Expr, list: seq<Effect>, s: MachineState, g: Shape)
    requires Total(s, g) && Lowered(list, s, g)
    requires TypeOf(e, g).Some? && OnlyByteReads(e)
    ensures Eval(Substitute(e, list), s) == Eval(e, Update(list, s))
    decreases e, 1
  {
    hide Lowered, Total, Update, ApplyBin, ApplySlice, ApplyExtend;
    hide ApplyFlag, ApplySelect, ApplyCountOnes, ReadConcreteMemory, ForwardRegister, ForwardMemory;
    match e
    case Const(_, _) =>
    case RegisterField(_) =>
    case ImmediateField(_) =>
    case DerivedValue(_) =>
    case ReadRegister(register, width) =>
      SubstituteMeaning(register, list, s, g);
      ForwardedRegister(register, width, list, s, g);
    case ReadMemory(address, width) =>
      SubstituteMeaning(address, list, s, g);
      ForwardedMemory(address, width, list, s, g);
    case Bin(_, lhs, rhs) => SubstituteMeaning(lhs, list, s, g); SubstituteMeaning(rhs, list, s, g);
    case Not(operand) => SubstituteMeaning(operand, list, s, g);
    case CountOnes(operand) => SubstituteMeaning(operand, list, s, g);
    case Slice(operand, _, _) => SubstituteMeaning(operand, list, s, g);
    case Concat(parts) => SubstitutePartsMeaning(parts, list, s, g);
    case Extend(_, operand, _) => SubstituteMeaning(operand, list, s, g);
    case Flag(_, lhs, rhs, flagIn, _) =>
      SubstituteMeaning(lhs, list, s, g); SubstituteMeaning(rhs, list, s, g); SubstituteMeaning(flagIn, list, s, g);
    case Select(c, t, f) =>
      SubstituteMeaning(c, list, s, g); SubstituteMeaning(t, list, s, g); SubstituteMeaning(f, list, s, g);
  }

  lemma {:induction false} SubstitutePartsMeaning(parts: seq<Expr>, list: seq<Effect>, s: MachineState, g: Shape)
    requires Total(s, g) && Lowered(list, s, g)
    requires PartsType(parts, g).Some? && forall p | p in parts :: OnlyByteReads(p)
    ensures EvalParts(SubstituteAll(parts, list), s) == EvalParts(parts, Update(list, s))
    decreases parts, 0
  {
    if parts != [] {
      SubstitutePartsMeaning(parts[..|parts| - 1], list, s, g);
      SubstituteMeaning(parts[|parts| - 1], list, s, g);
      var r := SubstituteAll(parts, list);
      assert r[..|r| - 1] == SubstituteAll(parts[..|parts| - 1], list);
    }
  }

  // ----- byte lowering keeps types -----

  lemma ByteAddressType(address: Expr, index: nat, g: Shape)
    requires TypeOf(address, g) == Some(g.addressWidth) && g.addressWidth > 0
    ensures TypeOf(ByteAddressExpr(address, index, g.addressWidth), g) == Some(g.addressWidth)
  {
    assert TypeOf(Const(index, g.addressWidth), g) == Some(g.addressWidth);
  }

  lemma {:induction false} AppendType(parts: seq<Expr>, last: Expr, g: Shape, high: nat, low: nat)
    requires PartsType(parts, g) == Some(high) && TypeOf(last, g) == Some(low)
    ensures PartsType(parts + [last], g) == Some(high + low)
  {
    var r := parts + [last];
    assert r[..|r| - 1] == parts && r[|r| - 1] == last;
  }

  lemma {:induction false} ByteReadsType(address: Expr, count: nat, low: nat, g: Shape)
    requires low <= count && TypeOf(address, g) == Some(g.addressWidth) && g.addressWidth > 0
    ensures PartsType(ByteReads(address, count, low, g.addressWidth), g) == Some(8 * (count - low))
    decreases count - low
  {
    if low < count {
      ByteReadsType(address, count, low + 1, g);
      ByteAddressType(address, low, g);
      var read := ReadMemory(ByteAddressExpr(address, low, g.addressWidth), 8);
      AppendType(ByteReads(address, count, low + 1, g.addressWidth), read, g, 8 * (count - low - 1), 8);
    }
  }

  lemma WideReadType(address: Expr, width: nat, g: Shape, s: MachineState)
    requires Total(s, g) && TypeOf(address, g) == Some(g.addressWidth) && width > 0 && width % 8 == 0
    ensures ExprWidth(address) == Some(g.addressWidth)
    ensures TypeOf(Concat(ByteReads(address, width / 8, 0, g.addressWidth)), g) == Some(width)
  {
    TotalIsWellFormed(s, g);
    TypedHasValue(address, g, s);
    EvalHasStaticWidth(address, s);
    ByteReadsType(address, width / 8, 0, g);
  }

  /** A well-formed expression is lowered without a panic to one of the same type. */
  lemma {:induction false} LowerReadsKeepsType(e: Expr, g: Shape, s: MachineState)
    requires Total(s, g) && TypeOf(e, g).Some?
    ensures LowerReads(e).Some? && TypeOf(LowerReads(e).value, g) == TypeOf(e, g)
    decreases e, 1
  {
    hide Total;
    match e
    case Const(_, _) =>
    case RegisterField(_) =>
    case ImmediateField(_) =>
    case DerivedValue(_) =>
    case ReadRegister(register, width) => LowerReadsKeepsType(register, g, s);
    case ReadMemory(address, width) =>
      LowerReadsKeepsType(address, g, s);
      if width != 8 {
        WideReadType(LowerReads(address).value, width, g, s);
      }
    case Bin(_, lhs, rhs) => LowerReadsKeepsType(lhs, g, s); LowerReadsKeepsType(rhs, g, s);
    case Not(operand) => LowerReadsKeepsType(operand, g, s);
    case CountOnes(operand) => LowerReadsKeepsType(operand, g, s);
    case Slice(operand, _, _) => LowerReadsKeepsType(operand, g, s);
    case Concat(parts) => LowerPartsKeepType(parts, g, s);
    case Extend(_, operand, _) => LowerReadsKeepsType(operand, g, s);
    case Flag(_, lhs, rhs, flagIn, _) =>
      LowerReadsKeepsType(lhs, g, s); LowerReadsKeepsType(rhs, g, s); LowerReadsKeepsType(flagIn, g, s);
    case Select(c, t, f) =>
      LowerReadsKeepsType(c, g, s); LowerReadsKeepsType(t, g, s); LowerReadsKeepsType(f, g, s);
  }

  lemma {:induction false} LowerPartsKeepType(parts: seq<Expr>, g: Shape, s: MachineState)
    requires Total(s, g) && PartsType(parts, g).Some?
    ensures LowerReadsAll(parts).Some? && PartsType(LowerReadsAll(parts).value, g) == PartsType(parts, g)
    decreases parts, 0
  {
    if parts != [] {
      LowerPartsKeepType(parts[..|parts| - 1], g, s);
      LowerReadsKeepsType(parts[|parts| - 1], g, s);
      var r := LowerReadsAll(parts).value;
      assert r[..|r| - 1] == LowerReadsAll(parts[..|parts| - 1]).value;
    }
  }
}
