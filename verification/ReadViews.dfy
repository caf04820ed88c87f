/** Expressions whose memory reads are replaced by free values.

    A view gives every register and every memory read, named by its address expression and width, a
    value of its own.  A view comes from a machine state exactly when reads of equal addresses have
    equal values; the lemmas go both ways. */
module ReadViews {
  import opened Words
  import opened WordLaws
  import opened Exprs
  import opened ByteMemory
  import opened Typing
  import opened CanonicalizerForm

  type ReadKey = (Expr, nat)

  datatype View = View(registers: map<nat, Word>, read: map<ReadKey, Word>)

  /** Every memory read in the expression, those inside addresses included. */
  function ReadsOf(e: Expr): set<ReadKey>
    decreases e, 1
  {
    match e
    case ReadMemory(address, width) => ReadsOf(address) + {(address, width)}
    case ReadRegister(register, _) => ReadsOf(register)
    case Bin(_, lhs, rhs) => ReadsOf(lhs) + ReadsOf(rhs)
    case Not(operand) => ReadsOf(operand)
    case CountOnes(operand) => ReadsOf(operand)
    case Slice(operand, _, _) => ReadsOf(operand)
    case Concat(parts) => ReadsOfAll(parts)
    case Extend(_, operand, _) => ReadsOf(operand)
    case Flag(_, lhs, rhs, flagIn, _) => ReadsOf(lhs) + ReadsOf(rhs) + ReadsOf(flagIn)
    case Select(c, t, f) => ReadsOf(c) + ReadsOf(t) + ReadsOf(f)
    case _ => {}
  }

  function ReadsOfAll(parts: seq<Expr>): set<ReadKey>
    decreases parts, 0
  {
    if parts == [] then {} else ReadsOfAll(parts[..|parts| - 1]) + ReadsOf(parts[|parts| - 1])
  }

  /** The evaluator with every read answered by the view. */
  function EvalView(e: Expr, v: View): Option<Word>
    decreases e, 1
  {
    match e
    case Const(value, width) => MakeWord(value, width)
    case RegisterField(ref) =>
      (match ref
       case Fixed(register, identifierWidth) => MakeWord(register, identifierWidth)
       case FromField(_) => None)
    case ImmediateField(_) => None
    case DerivedValue(_) => None
    case ReadRegister(register, width) =>
      var id :- EvalView(register, v);
      if id.value in v.registers && v.registers[id.value].width == width
      then Some(v.registers[id.value]) else None
    case ReadMemory(address, width) =>
      if (address, width) in v.read then Some(v.read[(address, width)]) else None
    case Bin(op, lhs, rhs) =>
      var l :- EvalView(lhs, v);
      var r :- EvalView(rhs, v);
      ApplyBin(op, l, r)
    case Not(operand) =>
      var x :- EvalView(operand, v);
      Some(ApplyNot(x))
    case CountOnes(operand) =>
      var x :- EvalView(operand, v);
      Some(ApplyCountOnes(x))
    case Slice(operand, high, low) =>
      var x :- EvalView(operand, v);
      ApplySlice(x, high, low)
    case Concat(parts) =>
      var r :- EvalViewParts(parts, v);
      if r.width == 0 then None else Some(r)
    case Extend(kind, operand, toWidth) =>
      var x :- EvalView(operand, v);
      ApplyExtend(kind, x, toWidth)
    case Flag(flag, lhs, rhs, flagIn, width) =>
      var l :- EvalView(lhs, v);
      var r :- EvalView(rhs, v);
      var c :- EvalView(flagIn, v);
      ApplyFlag(flag, l, r, c, width)
    case Select(condition, whenTrue, whenFalse) =>
      var c :- EvalView(condition, v);
      var t :- EvalView(whenTrue, v);
      var f :- EvalView(whenFalse, v);
      ApplySelect(c, t, f)
  }

  function EvalViewParts(parts: seq<Expr>, v: View): (r: Option<RawWord>)
    ensures r.Some? ==> r.value.value < Pow2(r.value.width)
    decreases parts, 0
  {
    if parts == [] then Some(RawWord.Word(0, 0))
    else
      var high :- EvalViewParts(parts[..|parts| - 1], v);
      var low :- EvalView(parts[|parts| - 1], v);
      Some(ApplyConcat(high, low))
  }

  // ----- well-formed expressions have a value in every view -----

  /** The view has registers of the shape and a value of the right width for every listed read. */
  ghost predicate ViewFits(v: View, keys: set<ReadKey>, g: Shape)
  {
    RegistersFit(v.registers, g) && forall r | r in keys :: r in v.read && v.read[r].width == r.1
  }

  lemma {:induction false} TypedHasViewValue(e: Expr, g: Shape, v: View, keys: set<ReadKey>)
    requires ViewFits(v, keys, g) && ReadsOf(e) <= keys
    ensures TypeOf(e, g).Some? ==> EvalView(e, v).Some? && EvalView(e, v).value.width == TypeOf(e, g).value
    decreases e, 1
  {
    if TypeOf(e, g).Some? {
      match e
      case Const(_, _) =>
      case RegisterField(_) =>
      case ImmediateField(_) =>
      case DerivedValue(_) =>
      case ReadRegister(register, width) =>
        TypedHasViewValue(register, g, v, keys);
        assert RegisterHas(g, EvalView(register, v).value.value, width);
      case ReadMemory(address, width) => assert (address, width) in keys;
      case Bin(_, lhs, rhs) => TypedHasViewValue(lhs, g, v, keys); TypedHasViewValue(rhs, g, v, keys);
      case Not(operand) => TypedHasViewValue(operand, g, v, keys);
      case CountOnes(operand) => TypedHasViewValue(operand, g, v, keys);
      case Slice(operand, _, _) => TypedHasViewValue(operand, g, v, keys);
      case Concat(parts) => TypedPartsHaveViewValue(parts, g, v, keys);
      case Extend(_, operand, _) => TypedHasViewValue(operand, g, v, keys);
      case Flag(_, lhs, rhs, flagIn, _) =>
        TypedHasViewValue(lhs, g, v, keys); TypedHasViewValue(rhs, g, v, keys); TypedHasViewValue(flagIn, g, v, keys);
      case Select(c, t, f) =>
        TypedHasViewValue(c, g, v, keys); TypedHasViewValue(t, g, v, keys); TypedHasViewValue(f, g, v, keys);
    }
  }

  lemma {:induction false} TypedPartsHaveViewValue(parts: seq<Expr>, g: Shape, v: View, keys: set<ReadKey>)
    requires ViewFits(v, keys, g) && ReadsOfAll(parts) <= keys
    ensures PartsType(parts, g).Some? ==>
              EvalViewParts(parts, v).Some? && EvalViewParts(parts, v).value.width == PartsType(parts, g).value
    decreases parts, 0
  {
    if parts != [] {
      TypedPartsHaveViewValue(parts[..|parts| - 1], g, v, keys);
      TypedHasViewValue(parts[|parts| - 1], g, v, keys);
    }
  }

  // ----- the view of a state -----

  /** Every listed read has in the view the value it has in the state. */
  ghost predicate ViewOf(v: View, keys: set<ReadKey>, s: MachineState)
  {
    && v.registers == s.registers
    && forall r | r in keys :: r in v.read && Eval(ReadMemory(r.0, r.1), s) == Some(v.read[r])
  }

  /** In the view of a state every expression has the value it has in the state. */
  lemma {:induction false} ViewOfState(e: Expr, v: View, keys: set<ReadKey>, s: MachineState)
    requires ViewOf(v, keys, s) && ReadsOf(e) <= keys
    ensures EvalView(e, v) == Eval(e, s)
    decreases e, 1
  {
    match e
    case Const(_, _) =>
    case RegisterField(_) =>
    case ImmediateField(_) =>
    case DerivedValue(_) =>
    case ReadRegister(register, _) => ViewOfState(register, v, keys, s);
    case ReadMemory(address, width) => assert (address, width) in keys;
    case Bin(_, lhs, rhs) => ViewOfState(lhs, v, keys, s); ViewOfState(rhs, v, keys, s);
    case Not(operand) => ViewOfState(operand, v, keys, s);
    case CountOnes(operand) => ViewOfState(operand, v, keys, s);
    case Slice(operand, _, _) => ViewOfState(operand, v, keys, s);
    case Concat(parts) => ViewPartsOfState(parts, v, keys, s);
    case Extend(_, operand, _) => ViewOfState(operand, v, keys, s);
    case Flag(_, lhs, rhs, flagIn, _) =>
      ViewOfState(lhs, v, keys, s); ViewOfState(rhs, v, keys, s); ViewOfState(flagIn, v, keys, s);
    case Select(c, t, f) => ViewOfState(c, v, keys, s); ViewOfState(t, v, keys, s); ViewOfState(f, v, keys, s);
  }

  lemma {:induction false} ViewPartsOfState(parts: seq<Expr>, v: View, keys: set<ReadKey>, s: MachineState)
    requires ViewOf(v, keys, s) && ReadsOfAll(parts) <= keys
    ensures EvalViewParts(parts, v) == EvalParts(parts, s)
    decreases parts, 0
  {
    if parts != [] {
      ViewPartsOfState(parts[..|parts| - 1], v, keys, s);
      ViewOfState(parts[|parts| - 1], v, keys, s);
    }
  }

  // ----- a state for a view -----

  /** The byte at the address each read has in the view holds the value the view gives the read. */
  ghost predicate Realizes(s: MachineState, v: View, keys: set<ReadKey>)
  {
    && (forall id | id in v.registers :: id in s.registers && s.registers[id] == v.registers[id])
    && forall r | r in keys :: RealizesRead(s, v, r)
  }

  ghost predicate RealizesRead(s: MachineState, v: View, r: ReadKey)
  {
    && r.1 == 8 && r in v.read && EvalView(r.0, v).Some?
    && var key := (EvalView(r.0, v).value.value, 8);
       key in s.memory && s.memory[key] == v.read[r]
  }

  /** In a state that realizes a view every expression has the value it has in the view, however deep
      the reads inside its addresses go. */
  lemma {:induction false} StateForView(e: Expr, v: View, keys: set<ReadKey>, s: MachineState)
    requires Realizes(s, v, keys) && ReadsOf(e) <= keys
    ensures EvalView(e, v).Some? ==> Eval(e, s) == EvalView(e, v)
    decreases e, 1
  {
    if EvalView(e, v).Some? {
      match e
      case Const(_, _) =>
      case RegisterField(_) =>
      case ImmediateField(_) =>
      case DerivedValue(_) =>
      case ReadRegister(register, _) => StateForView(register, v, keys, s);
      case ReadMemory(address, width) =>
        assert RealizesRead(s, v, (address, width));
        StateForView(address, v, keys, s);
      case Bin(_, lhs, rhs) => StateForView(lhs, v, keys, s); StateForView(rhs, v, keys, s);
      case Not(operand) => StateForView(operand, v, keys, s);
      case CountOnes(operand) => StateForView(operand, v, keys, s);
      case Slice(operand, _, _) => StateForView(operand, v, keys, s);
      case Concat(parts) => StateForViewParts(parts, v, keys, s);
      case Extend(_, operand, _) => StateForView(operand, v, keys, s);
      case Flag(_, lhs, rhs, flagIn, _) =>
        StateForView(lhs, v, keys, s); StateForView(rhs, v, keys, s); StateForView(flagIn, v, keys, s);
      case Select(c, t, f) => StateForView(c, v, keys, s); StateForView(t, v, keys, s); StateForView(f, v, keys, s);
    }
  }

  lemma {:induction false} StateForViewParts(parts: seq<Expr>, v: View, keys: set<ReadKey>, s: MachineState)
    requires Realizes(s, v, keys) && ReadsOfAll(parts) <= keys
    ensures EvalViewParts(parts, v).Some? ==> EvalParts(parts, s) == EvalViewParts(parts, v)
    decreases parts, 0
  {
    if parts != [] && EvalViewParts(parts, v).Some? {
      StateForViewParts(parts[..|parts| - 1], v, keys, s);
      StateForView(parts[|parts| - 1], v, keys, s);
    }
  }

  // ----- partial states -----

  /** `larger` has every entry of `s`. */
  ghost predicate Extends(larger: MachineState, s: MachineState)
  {
    && (forall id | id in s.registers :: id in larger.registers && larger.registers[id] == s.registers[id])
    && (forall k | k in s.memory :: k in larger.memory && larger.memory[k] == s.memory[k])
  }

  /** A total state with the entries of a partial one. */
  lemma Completion(s: MachineState, g: Shape) returns (total: MachineState)
    requires RegistersFit(s.registers, g)
    requires forall k | k in s.memory :: ByteKey(k, g) && s.memory[k].width == 8
    ensures Total(total, g) && Extends(total, s)
  {
    var zero: Word := Word(0, 8);
    var memory: map<(nat, nat), Word> :=
      map a: nat | 0 <= a < Pow2(g.addressWidth) :: (a, 8) := (if (a, 8) in s.memory then s.memory[(a, 8)] else zero);
    total := MachineState(s.registers, memory);
    forall k ensures ByteKey(k, g) <==> k in memory {
      assert k.1 == 8 ==> k == (k.0, 8);
    }
  }

  /** Adding entries to a state changes no value: byte reads never miss a byte they had. */
  lemma {:induction false} ExtendsKeepsValue(e: Expr, larger: MachineState, s: MachineState)
    requires Extends(larger, s) && OnlyByteReads(e)
    ensures Eval(e, s).Some? ==> Eval(e, larger) == Eval(e, s)
    decreases e, 1
  {
    if Eval(e, s).Some? {
      match e
      case Const(_, _) =>
      case RegisterField(_) =>
      case ImmediateField(_) =>
      case DerivedValue(_) =>
      case ReadRegister(register, _) => ExtendsKeepsValue(register, larger, s);
      case ReadMemory(address, _) => ExtendsKeepsValue(address, larger, s);
      case Bin(_, lhs, rhs) => ExtendsKeepsValue(lhs, larger, s); ExtendsKeepsValue(rhs, larger, s);
      case Not(operand) => ExtendsKeepsValue(operand, larger, s);
      case CountOnes(operand) => ExtendsKeepsValue(operand, larger, s);
      case Slice(operand, _, _) => ExtendsKeepsValue(operand, larger, s);
      case Concat(parts) => ExtendsKeepsParts(parts, larger, s);
      case Extend(_, operand, _) => ExtendsKeepsValue(operand, larger, s);
      case Flag(_, lhs, rhs, flagIn, _) =>
        ExtendsKeepsValue(lhs, larger, s); ExtendsKeepsValue(rhs, larger, s); ExtendsKeepsValue(flagIn, larger, s);
      case Select(c, t, f) =>
        ExtendsKeepsValue(c, larger, s); ExtendsKeepsValue(t, larger, s); ExtendsKeepsValue(f, larger, s);
    }
  }

  lemma {:induction false} ExtendsKeepsParts(parts: seq<Expr>, larger: MachineState, s: MachineState)
    requires Extends(larger, s) && forall p | p in parts :: OnlyByteReads(p)
    ensures EvalParts(parts, s).Some? ==> EvalParts(parts, larger) == EvalParts(parts, s)
    decreases parts, 0
  {
    if parts != [] && EvalParts(parts, s).Some? {
      ExtendsKeepsParts(parts[..|parts| - 1], larger, s);
      ExtendsKeepsValue(parts[|parts| - 1], larger, s);
    }
  }

  // ----- the fragment the bit-level lowering accepts -----

  /** Shift amounts are compared on 64-bit host integers, so widths stay below that range. */
  const MAX_WIDTH: nat := Pow2(64)

  predicate IsShiftLike(op: BinOp)
  {
    op == ShiftLeft || op == LogicalShiftRight || op == ArithmeticShiftRight
  }

  /** Only operators the lowering knows, and reads of one byte. */
  ghost predicate Lowerable(e: Expr, g: Shape)
    decreases e
  {
    match e
    case Const(_, _) => true
    case RegisterField(ref) => ref.Fixed?
    case ImmediateField(_) => false
    case DerivedValue(_) => false
    case ReadRegister(register, _) => Lowerable(register, g)
    case ReadMemory(address, width) => width == 8 && Lowerable(address, g)
    case Bin(op, lhs, rhs) =>
      && op != Sub && op != Or && op != Xor && Lowerable(lhs, g) && Lowerable(rhs, g)
      && (IsShiftLike(op) && TypeOf(lhs, g).Some? ==> TypeOf(lhs, g).value <= MAX_WIDTH)
    case Not(operand) => Lowerable(operand, g)
    case CountOnes(operand) => Lowerable(operand, g)
    case Slice(operand, _, _) => Lowerable(operand, g)
    case Concat(parts) => forall p | p in parts :: Lowerable(p, g)
    case Extend(_, operand, _) => Lowerable(operand, g)
    case Flag(flag, lhs, rhs, flagIn, _) =>
      (flag == AddCarryOut || flag == AddOverflow) && Lowerable(lhs, g) && Lowerable(rhs, g) && Lowerable(flagIn, g)
    case Select(_, _, _) => false
  }

  lemma {:induction false} LowerableReadsBytes(e: Expr, g: Shape)
    requires Lowerable(e, g)
    ensures OnlyByteReads(e)
    decreases e
  {
    match e
    case ReadRegister(register, _) => LowerableReadsBytes(register, g);
    case ReadMemory(address, _) => LowerableReadsBytes(address, g);
    case Bin(_, lhs, rhs) => LowerableReadsBytes(lhs, g); LowerableReadsBytes(rhs, g);
    case Not(operand) => LowerableReadsBytes(operand, g);
    case CountOnes(operand) => LowerableReadsBytes(operand, g);
    case Slice(operand, _, _) => LowerableReadsBytes(operand, g);
    case Concat(parts) => forall p | p in parts ensures OnlyByteReads(p) { LowerableReadsBytes(p, g); }
    case Extend(_, operand, _) => LowerableReadsBytes(operand, g);
    case Flag(_, lhs, rhs, flagIn, _) =>
      LowerableReadsBytes(lhs, g); LowerableReadsBytes(rhs, g); LowerableReadsBytes(flagIn, g);
    case _ =>
  }

  /** No expression is wider than the host integers allow. */
  ghost predicate Narrow(e: Expr, g: Shape)
    decreases e
  {
    && (TypeOf(e, g).Some? ==> TypeOf(e, g).value <= MAX_WIDTH)
    && match e
       case ReadRegister(register, _) => Narrow(register, g)
       case ReadMemory(address, _) => Narrow(address, g)
       case Bin(_, lhs, rhs) => Narrow(lhs, g) && Narrow(rhs, g)
       case Not(operand) => Narrow(operand, g)
       case CountOnes(operand) => Narrow(operand, g)
       case Slice(operand, _, _) => Narrow(operand, g)
       case Concat(parts) => forall p | p in parts :: Narrow(p, g)
       case Extend(_, operand, _) => Narrow(operand, g)
       case Flag(_, lhs, rhs, flagIn, _) => Narrow(lhs, g) && Narrow(rhs, g) && Narrow(flagIn, g)
       case Select(c, t, f) => Narrow(c, g) && Narrow(t, g) && Narrow(f, g)
       case _ => true
  }

  /** Canonical well-formed expressions over byte reads can be lowered. */
  lemma {:induction false} CanonicalIsLowerable(e: Expr, g: Shape)
    requires IsCanonical(e) && OnlyByteReads(e) && Narrow(e, g) && TypeOf(e, g).Some?
    ensures Lowerable(e, g)
    decreases e
  {
    match e
    case ReadRegister(register, _) => CanonicalIsLowerable(register, g);
    case ReadMemory(address, _) => CanonicalIsLowerable(address, g);
    case Bin(_, lhs, rhs) => CanonicalIsLowerable(lhs, g); CanonicalIsLowerable(rhs, g);
    case Not(operand) => CanonicalIsLowerable(operand, g);
    case CountOnes(operand) => CanonicalIsLowerable(operand, g);
    case Slice(operand, _, _) => CanonicalIsLowerable(operand, g);
    case Concat(parts) =>
      forall p | p in parts ensures Lowerable(p, g) {
        PartHasType(parts, p, g);
        CanonicalIsLowerable(p, g);
      }
    case Extend(_, operand, _) => CanonicalIsLowerable(operand, g);
    case Flag(_, lhs, rhs, flagIn, _) =>
      CanonicalIsLowerable(lhs, g); CanonicalIsLowerable(rhs, g); CanonicalIsLowerable(flagIn, g);
    case _ =>
  }

  lemma {:induction false} PartHasType(parts: seq<Expr>, p: Expr, g: Shape)
    requires p in parts && PartsType(parts, g).Some?
    ensures TypeOf(p, g).Some?
  {
    if p != parts[|parts| - 1] { PartHasType(parts[..|parts| - 1], p, g); }
  }
}
