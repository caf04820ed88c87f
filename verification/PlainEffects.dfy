/** Plain expressions stay plain on their way into the list.

    Lowering reads and forwarding earlier writes replace reads by concatenations and selects, and so keep the
    trees of conjunctions and disjunctions as they are. */
module PlainEffects {
  import opened Words
  import opened Exprs
  import opened Effects
  import opened ByteMemory
  import opened Canonicalizer
  import opened AbsorptionLimits
  import opened TreeShapes
  import opened CanonicalizerForm
  import opened CanonicalizerTermination
  import opened CanonicalizerPanics
  import opened EffectSequence

  // ----- the same trees -----

  /** The same tree of binary operators, over other leaves. */
  predicate Alike(e: Expr, f: Expr)
    decreases e
  {
    if e.Bin? then f.Bin? && f.op == e.op && Alike(e.lhs, f.lhs) && Alike(e.rhs, f.rhs) else !f.Bin?
  }

  ghost predicate AllAlike(a: seq<Expr>, b: seq<Expr>)
  {
    |a| == |b| && forall i | 0 <= i < |a| :: Alike(a[i], b[i])
  }

  lemma {:induction false} FlattenAlike(op: BinOp, e: Expr, f: Expr)
    requires Alike(e, f)
    ensures AllAlike(Flatten(op, e), Flatten(op, f))
    decreases e
  {
    if e.Bin? && e.op == op {
      FlattenAlike(op, e.lhs, f.lhs);
      FlattenAlike(op, e.rhs, f.rhs);
    }
  }

  lemma AlikeSettled(op: BinOp, l: Expr, r: Expr, l': Expr, r': Expr)
    requires Alike(l, l') && Alike(r, r') && Settled(op, l, r)
    ensures Settled(op, l', r')
  {
    FlattenAlike(op, l, l');
    FlattenAlike(op, r, r');
    var a, b := Flatten(op, l) + Flatten(op, r), Flatten(op, l') + Flatten(op, r');
    assert AllAlike(a, b);
    assert forall o: BinOp, i | 0 <= i < |a| :: IsTree(o, a[i]) == IsTree(o, b[i]);
  }

  /** A plain expression with the given trees. */
  ghost predicate PlainLike(e: Expr, f: Expr)
  {
    Plain(f) && Alike(e, f)
  }

  lemma BinLike(op: BinOp, l: Expr, r: Expr, l': Expr, r': Expr)
    requires Plain(Bin(op, l, r)) && PlainLike(l, l') && PlainLike(r, r')
    ensures PlainLike(Bin(op, l, r), Bin(op, l', r'))
  {
    AlikeSettled(op, l, r, l', r');
    PlainBin(op, l', r');
  }

  // ----- lowering reads -----

  lemma {:induction false} ByteReadsPlain(address: Expr, count: nat, low: nat, addressWidth: nat)
    requires low <= count && Plain(address)
    ensures AllPlain(ByteReads(address, count, low, addressWidth))
    decreases count - low
  {
    if low < count {
      ByteReadsPlain(address, count, low + 1, addressWidth);
      PlainBin(Add, address, Const(low, addressWidth));
    }
  }

  lemma {:induction false} LowerReadsPlain(e: Expr)
    requires Plain(e) && LowerReads(e).Some?
    ensures PlainLike(e, LowerReads(e).value)
    decreases e, 1
  {
    hide Settled;
    match e
    case ReadRegister(register, _) => LowerReadsPlain(register);
    case ReadMemory(address, width) =>
      LowerReadsPlain(address);
      if width != 8 {
        var a := LowerReads(address).value;
        ByteReadsPlain(a, width / 8, 0, ExprWidth(a).value);
      }
    case Bin(op, lhs, rhs) =>
      LowerReadsPlain(lhs);
      LowerReadsPlain(rhs);
      BinLike(op, lhs, rhs, LowerReads(lhs).value, LowerReads(rhs).value);
    case Not(operand) => LowerReadsPlain(operand);
    case CountOnes(operand) => LowerReadsPlain(operand);
    case Slice(operand, _, _) => LowerReadsPlain(operand);
    case Concat(parts) => LowerPartsPlain(parts);
    case Extend(_, operand, _) => LowerReadsPlain(operand);
    case Flag(_, lhs, rhs, flagIn, _) => LowerReadsPlain(lhs); LowerReadsPlain(rhs); LowerReadsPlain(flagIn);
    case Select(c, t, f) => LowerReadsPlain(c); LowerReadsPlain(t); LowerReadsPlain(f);
    case _ =>
  }

  lemma {:induction false} LowerPartsPlain(parts: seq<Expr>)
    requires AllPlain(parts) && LowerReadsAll(parts).Some?
    ensures AllPlain(LowerReadsAll(parts).value)
    decreases parts, 0
  {
    if parts != [] {
      LowerPartsPlain(parts[..|parts| - 1]);
      LowerReadsPlain(parts[|parts| - 1]);
    }
  }

  // ----- forwarding -----

  /** An unconditional write of a plain value to a plain destination. */
  predicate PlainWrite(e: Effect)
  {
    e.guard == Const(1, 1) && Plain(e.Destination()) && Plain(e.value)
  }

  predicate PlainWrites(list: seq<Effect>)
  {
    forall e | e in list :: PlainWrite(e)
  }

  predicate PlainProgram(program: seq<seq<Effect>>)
  {
    forall i | i in program :: PlainWrites(i)
  }

  lemma ForwardedPlain(destination: Expr, wanted: Expr, value: Expr, otherwise: Expr)
    requires Plain(destination) && Plain(wanted) && Plain(value) && Plain(otherwise)
    ensures Plain(Forwarded(Const(1, 1), destination, wanted, value, otherwise))
  {
    var test := Bin(Equal, wanted, destination);
    PlainBin(Equal, wanted, destination);
    PlainAnd(Const(1, 1), test);
  }

  lemma {:induction false} ForwardRegisterPlain(register: Expr, width: nat, previous: seq<Effect>)
    requires Plain(register) && PlainWrites(previous)
    ensures var r := ForwardRegister(register, width, previous); Plain(r) && !r.Bin?
  {
    hide Forwarded, Plain, ExprWidth;
    if previous != [] {
      var init, e := previous[..|previous| - 1], previous[|previous| - 1];
      ForwardRegisterPlain(register, width, init);
      assert PlainWrite(e);
      ForwardedPlain(e.Destination(), register, e.value, ForwardRegister(register, width, init));
      ForwardedIsSelect(e.guard, e.Destination(), register, e.value, ForwardRegister(register, width, init));
    } else {
      ReadIsPlain(register, width);
    }
  }

  lemma {:induction false} ForwardMemoryPlain(address: Expr, width: nat, previous: seq<Effect>)
    requires Plain(address) && PlainWrites(previous)
    ensures var r := ForwardMemory(address, width, previous); Plain(r) && !r.Bin?
  {
    hide Forwarded, Plain;
    if previous != [] {
      var init, e := previous[..|previous| - 1], previous[|previous| - 1];
      ForwardMemoryPlain(address, width, init);
      assert PlainWrite(e);
      ForwardedPlain(e.Destination(), address, e.value, ForwardMemory(address, width, init));
      ForwardedIsSelect(e.guard, e.Destination(), address, e.value, ForwardMemory(address, width, init));
    } else {
      ReadIsPlain(address, width);
    }
  }

  lemma ForwardedIsSelect(guard: Expr, destination: Expr, wanted: Expr, value: Expr, otherwise: Expr)
    ensures Forwarded(guard, destination, wanted, value, otherwise).Select?
  {
  }

  lemma ReadIsPlain(e: Expr, width: nat)
    ensures Plain(e) ==> Plain(ReadRegister(e, width)) && Plain(ReadMemory(e, width))
  {
  }

  lemma {:induction false} SubstitutePlain(e: Expr, previous: seq<Effect>)
    requires Plain(e) && PlainWrites(previous)
    ensures PlainLike(e, Substitute(e, previous))
    decreases e, 1
  {
    hide Settled, ForwardRegister, ForwardMemory;
    match e
    case ReadRegister(register, width) =>
      SubstitutePlain(register, previous);
      ForwardRegisterPlain(Substitute(register, previous), width, previous);
    case ReadMemory(address, width) =>
      SubstitutePlain(address, previous);
      ForwardMemoryPlain(Substitute(address, previous), width, previous);
    case Bin(op, lhs, rhs) =>
      SubstitutePlain(lhs, previous);
      SubstitutePlain(rhs, previous);
      BinLike(op, lhs, rhs, Substitute(lhs, previous), Substitute(rhs, previous));
    case Not(operand) => SubstitutePlain(operand, previous);
    case CountOnes(operand) => SubstitutePlain(operand, previous);
    case Slice(operand, _, _) => SubstitutePlain(operand, previous);
    case Concat(parts) => SubstitutePartsPlain(parts, previous);
    case Extend(_, operand, _) => SubstitutePlain(operand, previous);
    case Flag(_, lhs, rhs, flagIn, _) =>
      SubstitutePlain(lhs, previous); SubstitutePlain(rhs, previous); SubstitutePlain(flagIn, previous);
    case Select(c, t, f) => SubstitutePlain(c, previous); SubstitutePlain(t, previous); SubstitutePlain(f, previous);
    case _ =>
  }

  lemma {:induction false} SubstitutePartsPlain(parts: seq<Expr>, previous: seq<Effect>)
    requires AllPlain(parts) && PlainWrites(previous)
    ensures AllPlain(SubstituteAll(parts, previous))
    decreases parts, 0
  {
    if parts != [] {
      SubstitutePartsPlain(parts[..|parts| - 1], previous);
      SubstitutePlain(parts[|parts| - 1], previous);
    }
  }

  // ----- canonical parts -----

  lemma CanonicalizePlain(e: Expr, le: Order, fuel: nat)
    requires Plain(e)
    ensures var r := Canonicalize(e, le, fuel); Accounted(r, true) && (r.Done? ==> Plain(r.value))
  {
    hide Canonicalize, Plain;
    CanonicalizeAccounts(e, le, fuel);
    CanonicalizeForm(e, le, fuel);
    var r := Canonicalize(e, le, fuel);
    if r.Done? { CanonicalIsPlain(r.value); }
  }

  /** The guard of an unconditional write stays as it is. */
  lemma TrueStaysTrue(previous: seq<Effect>, le: Order, fuel: nat)
    ensures LowerPart(Const(1, 1), previous, true, le, fuel) == Canonicalize(Const(1, 1), le, fuel)
    ensures Canonicalize(Const(1, 1), le, fuel) == if fuel == 0 then OutOfFuel else Done(Const(1, 1), {})
  {
    assert Pow2(1) == 2 * Pow2(0);
  }

  lemma PlainPart(e: Expr, previous: seq<Effect>, canonical: bool, le: Order, fuel: nat)
    requires Plain(e) && PlainWrites(previous)
    ensures var r := LowerPart(e, previous, canonical, le, fuel); Accounted(r, true) && (r.Done? ==> Plain(r.value))
  {
    hide Canonicalize, Plain;
    if LowerReads(e).Some? {
      LowerReadsPlain(e);
      SubstitutePlain(LowerReads(e).value, previous);
      CanonicalizePlain(Substitute(LowerReads(e).value, previous), le, fuel);
    }
  }

  // ----- the list -----

  lemma ByteStorePlain(address: Expr, value: Expr, n: nat, addressWidth: nat)
    requires Plain(address) && Plain(value)
    ensures PlainWrite(ByteStore(Const(1, 1), address, value, n, addressWidth))
  {
    PlainBin(Add, address, Const(n, addressWidth));
  }

  lemma {:induction false} SplitStorePlain(address: Expr, value: Expr, count: nat, addressWidth: nat)
    requires Plain(address) && Plain(value)
    ensures PlainWrites(SplitStore(Const(1, 1), address, value, count, addressWidth))
  {
    hide PlainWrite, ByteStore, Plain;
    if count > 0 {
      SplitStorePlain(address, value, count - 1, addressWidth);
      ByteStorePlain(address, value, count - 1, addressWidth);
    }
  }

  lemma LowerEffectPlain(e: Effect, previous: seq<Effect>, le: Order, fuel: nat)
    requires PlainWrite(e) && PlainWrites(previous)
    ensures var r := LowerEffect(e, previous, le, fuel); r.Done? ==> PlainWrites(r.value)
  {
    hide LowerPart, Plain, Accounted;
    TrueStaysTrue(previous, le, fuel);
    PlainPart(e.Destination(), previous, true, le, fuel);
    PlainPart(e.value, previous, false, le, fuel);
    var destination := LowerPart(e.Destination(), previous, true, le, fuel);
    var value := LowerPart(e.value, previous, false, le, fuel);
    if destination.Done? && value.Done? && e.WriteMemory? && ExprWidth(destination.value).Some? {
      SplitStorePlain(destination.value, value.value, e.width / 8, ExprWidth(destination.value).value);
    }
  }

  lemma {:induction false} LowerInstructionPlain(effects: seq<Effect>, previous: seq<Effect>, le: Order, fuel: nat)
    requires PlainWrites(effects) && PlainWrites(previous)
    ensures var r := LowerInstruction(effects, previous, le, fuel); r.Done? ==> PlainWrites(r.value)
  {
    hide LowerEffect, PlainWrite;
    if effects != [] {
      LowerInstructionPlain(effects[..|effects| - 1], previous, le, fuel);
      LowerEffectPlain(effects[|effects| - 1], previous, le, fuel);
    }
  }

  lemma {:induction false} MergePlain(list: seq<Effect>, e: Effect)
    requires PlainWrites(list) && PlainWrite(e)
    ensures var m := MergeEffect(list, e); m.Some? ==> PlainWrites(m.value)
  {
    hide Plain, ExprWidth;
    if list != [] {
      MergePlain(list[1..], e);
      assert PlainWrite(list[0]);
    }
  }

  lemma {:induction false} MergeAllPlain(list: seq<Effect>, effects: seq<Effect>)
    requires PlainWrites(list) && PlainWrites(effects)
    ensures var m := MergeAll(list, effects); m.Some? ==> PlainWrites(m.value)
  {
    hide PlainWrite, MergeEffect;
    if effects != [] {
      MergeAllPlain(list, effects[..|effects| - 1]);
      var m := MergeAll(list, effects[..|effects| - 1]);
      if m.Some? { MergePlain(m.value, effects[|effects| - 1]); }
    }
  }

  /** A program of unconditional plain writes folds into a list of them. */
  lemma {:induction false} SequencePlain(program: seq<seq<Effect>>, le: Order, fuel: nat)
    requires PlainProgram(program)
    ensures var r := SequenceEffects(program, le, fuel); r.Done? ==> PlainWrites(r.value)
  {
    hide LowerInstruction, MergeAll, PlainWrite;
    if program != [] {
      var init, last := program[..|program| - 1], program[|program| - 1];
      SequencePlain(init, le, fuel);
      var earlier := SequenceEffects(init, le, fuel);
      if earlier.Done? {
        LowerInstructionPlain(last, earlier.value, le, fuel);
        var lowered := LowerInstruction(last, earlier.value, le, fuel);
        if lowered.Done? { MergeAllPlain(earlier.value, lowered.value); }
      }
    }
  }
}
