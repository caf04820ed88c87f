/** The symbolic expression language, machine states and the reference evaluator. */
module Exprs {
  import opened Words

  datatype Option<+T> = None | Some(value: T) {
    predicate IsFailure() { None? }
    function PropagateFailure<U>(): Option<U> requires None? { None }
    function Extract(): T requires Some? { value }
  }

  /** A bit-vector value; `Word` is the part of the type whose values fit their width. */
  datatype RawWord = Word(value: nat, width: nat)

  type Word = r: RawWord | 0 < r.width && r.value < Pow2(r.width)
    witness Word(0, 1)

  /** Truncates `value` to `width` bits; a zero width is refused. */
  function MakeWord(value: int, width: nat): Option<Word>
  {
    if width == 0 then None else Some(Word(value % Pow2(width), width))
  }

  datatype RegisterRef =
    | Fixed(register: nat, identifierWidth: nat)
    | FromField(field: string)

  datatype Expr =
    | Const(value: nat, width: nat)
    | RegisterField(ref: RegisterRef)
    | ImmediateField(field: string)
    | DerivedValue(name: string)
    | ReadRegister(register: Expr, width: nat)
    | ReadMemory(address: Expr, width: nat)
    | Bin(op: BinOp, lhs: Expr, rhs: Expr)
    | Not(operand: Expr)
    | CountOnes(operand: Expr)
    | Slice(operand: Expr, high: nat, low: nat)
    | Concat(parts: seq<Expr>)
    | Extend(kind: ExtendOp, operand: Expr, toWidth: nat)
    | Flag(flag: FlagOp, lhs: Expr, rhs: Expr, flagIn: Expr, width: nat)
    | Select(condition: Expr, whenTrue: Expr, whenFalse: Expr)

  /** Register values by identifier; memory values by address and access width. */
  datatype MachineState = MachineState(registers: map<nat, Word>, memory: map<(nat, nat), Word>)

  /** A memory entry holds a word of the width in its key. */
  ghost predicate MemoryWellFormed(s: MachineState)
  {
    forall k :: k in s.memory ==> s.memory[k].width == k.1
  }

  // ----- one operator applied to evaluated operands -----

  function ApplyBin(op: BinOp, a: Word, b: Word): Option<Word>
  {
    if a.width != b.width then None
    else Some(Word(BinVal(op, a.value, b.value, a.width), BinWidth(op, a.width)))
  }

  function ApplyNot(a: Word): Word
  {
    Word(NotVal(a.value, a.width), a.width)
  }

  function ApplyCountOnes(a: Word): Word
  {
    WidthBelowPow2(a.width);
    Word(CountOnesVal(a.value, a.width), a.width)
  }

  function ApplySlice(a: Word, high: nat, low: nat): Option<Word>
  {
    if high < low || high >= a.width then None
    else MakeWord(a.value / Pow2(low), high - low + 1)
  }

  function ApplyExtend(kind: ExtendOp, a: Word, toWidth: nat): Option<Word>
  {
    if a.width > toWidth then None
    else Some(Word(ExtendVal(kind, a.value, a.width, toWidth), toWidth))
  }

  function ApplyFlag(flag: FlagOp, l: Word, r: Word, c: Word, width: nat): Option<Word>
  {
    if l.width != width || r.width != width || c.width != 1 then None
    else assert Pow2(1) == 2; Some(Word(BoolVal(FlagVal(flag, l.value, r.value, c.value, width)), 1))
  }

  function ApplySelect(c: Word, t: Word, f: Word): Option<Word>
  {
    if c.width != 1 || t.width != f.width then None
    else Some(if c.value == 1 then t else f)
  }

  /** Appends a chunk below the bits collected so far. */
  function ApplyConcat(high: RawWord, low: Word): (r: RawWord)
    ensures r.value < Pow2(r.width)
  {
    var width := high.width + low.width;
    Word(Bitwise(LogicOr, high.value * Pow2(low.width), low.value, width), width)
  }

  // ----- memory -----

  function ByteAddress(address: Word, index: nat): nat
  {
    (address.value + index) % Pow2(address.width)
  }

  /** The first `count` bytes starting at `address`, least significant first. */
  function ReadBytes(s: MachineState, address: Word, count: nat): (r: Option<nat>)
    ensures r.Some? ==> r.value < Pow2(8 * count)
    decreases count
  {
    if count == 0 then Some(0)
    else
      var lower :- ReadBytes(s, address, count - 1);
      var key := (ByteAddress(address, count - 1), 8);
      if key !in s.memory || s.memory[key].width != 8 then None
      else Some(Bitwise(LogicOr, lower, s.memory[key].value * Pow2(8 * (count - 1)), 8 * count))
  }

  function ReadConcreteMemory(s: MachineState, address: Word, width: nat): Option<Word>
  {
    if (address.value, width) in s.memory then Some(s.memory[(address.value, width)])
    else if width == 8 || width % 8 != 0 then None
    else
      var value :- ReadBytes(s, address, width / 8);
      MakeWord(value, width)
  }

  // ----- evaluation -----

  function Eval(e: Expr, s: MachineState): Option<Word>
    decreases e, 1
  {
    match e
    case Const(value, width) => MakeWord(value, width)
    case RegisterField(ref) =>
      (match ref
       case Fixed(register, identifierWidth) => MakeWord(register, identifierWidth)
       case FromField(_) => None)
    case ImmediateField(_) => None
    case DerivedValue(_) => None
    case ReadRegister(register, width) =>
      var id :- Eval(register, s);
      if id.value in s.registers && s.registers[id.value].width == width
      then Some(s.registers[id.value]) else None
    case ReadMemory(address, width) =>
      var a :- Eval(address, s);
      ReadConcreteMemory(s, a, width)
    case Bin(op, lhs, rhs) =>
      var l :- Eval(lhs, s);
      var r :- Eval(rhs, s);
      ApplyBin(op, l, r)
    case Not(operand) =>
      var v :- Eval(operand, s);
      Some(ApplyNot(v))
    case CountOnes(operand) =>
      var v :- Eval(operand, s);
      Some(ApplyCountOnes(v))
    case Slice(operand, high, low) =>
      var v :- Eval(operand, s);
      ApplySlice(v, high, low)
    case Concat(parts) =>
      var r :- EvalParts(parts, s);
      if r.width == 0 then None else Some(r)
    case Extend(kind, operand, toWidth) =>
      var v :- Eval(operand, s);
      ApplyExtend(kind, v, toWidth)
    case Flag(flag, lhs, rhs, flagIn, width) =>
      var l :- Eval(lhs, s);
      var r :- Eval(rhs, s);
      var c :- Eval(flagIn, s);
      ApplyFlag(flag, l, r, c, width)
    case Select(condition, whenTrue, whenFalse) =>
      var c :- Eval(condition, s);
      var t :- Eval(whenTrue, s);
      var f :- Eval(whenFalse, s);
      ApplySelect(c, t, f)
  }

  function EvalParts(parts: seq<Expr>, s: MachineState): (r: Option<RawWord>)
    ensures r.Some? ==> r.value.value < Pow2(r.value.width)
    decreases parts, 0
  {
    if parts == [] then Some(RawWord.Word(0, 0))
    else
      var high :- EvalParts(parts[..|parts| - 1], s);
      var low :- Eval(parts[|parts| - 1], s);
      Some(ApplyConcat(high, low))
  }

  // ----- static widths -----

  function ExprWidth(e: Expr): Option<nat>
    decreases e, 1
  {
    match e
    case Const(_, width) => Some(width)
    case RegisterField(ref) => if ref.Fixed? then Some(ref.identifierWidth) else None
    case ImmediateField(_) => None
    case DerivedValue(_) => None
    case ReadRegister(_, width) => Some(width)
    case ReadMemory(_, width) => Some(width)
    case Bin(op, lhs, rhs) =>
      if IsComparison(op) then Some(1)
      else
        var l :- ExprWidth(lhs);
        var r :- ExprWidth(rhs);
        if l == r then Some(l) else None
    case Not(operand) => ExprWidth(operand)
    case CountOnes(operand) => ExprWidth(operand)
    case Slice(_, high, low) => if high >= low then Some(high - low + 1) else None
    case Concat(parts) => PartsWidth(parts)
    case Extend(_, _, toWidth) => Some(toWidth)
    case Flag(_, _, _, _, _) => Some(1)
    case Select(_, whenTrue, whenFalse) =>
      var t :- ExprWidth(whenTrue);
      var f :- ExprWidth(whenFalse);
      if t == f then Some(t) else None
  }

  function PartsWidth(parts: seq<Expr>): Option<nat>
    decreases parts, 0
  {
    if parts == [] then Some(0)
    else
      var high :- PartsWidth(parts[..|parts| - 1]);
      var low :- ExprWidth(parts[|parts| - 1]);
      Some(high + low)
  }

  lemma ReadWidth(s: MachineState, address: Word, width: nat)
    requires MemoryWellFormed(s)
    ensures var r := ReadConcreteMemory(s, address, width); r.Some? ==> r.value.width == width
  {
  }

  /** Whenever an expression has a value, its static width is the width of that value. */
  lemma {:induction false} EvalHasStaticWidth(e: Expr, s: MachineState)
    requires MemoryWellFormed(s)
    ensures Eval(e, s).Some? ==> ExprWidth(e) == Some(Eval(e, s).value.width)
    decreases e, 1
  {
    match e
    case Const(_, _) =>
    case RegisterField(_) =>
    case ImmediateField(_) =>
    case DerivedValue(_) =>
    case ReadRegister(_, _) =>
    case ReadMemory(address, width) =>
      if Eval(address, s).Some? { ReadWidth(s, Eval(address, s).value, width); }
    case Bin(_, lhs, rhs) => EvalHasStaticWidth(lhs, s); EvalHasStaticWidth(rhs, s);
    case Not(operand) => EvalHasStaticWidth(operand, s);
    case CountOnes(operand) => EvalHasStaticWidth(operand, s);
    case Slice(operand, _, _) => EvalHasStaticWidth(operand, s);
    case Concat(parts) => PartsHaveStaticWidth(parts, s);
    case Extend(_, operand, _) => EvalHasStaticWidth(operand, s);
    case Flag(_, _, _, _, _) =>
    case Select(_, whenTrue, whenFalse) => EvalHasStaticWidth(whenTrue, s); EvalHasStaticWidth(whenFalse, s);
  }

  lemma {:induction false} PartsHaveStaticWidth(parts: seq<Expr>, s: MachineState)
    requires MemoryWellFormed(s)
    ensures EvalParts(parts, s).Some? ==> PartsWidth(parts) == Some(EvalParts(parts, s).value.width)
    decreases parts, 0
  {
    if parts != [] {
      PartsHaveStaticWidth(parts[..|parts| - 1], s);
      EvalHasStaticWidth(parts[|parts| - 1], s);
    }
  }

  /** The sum of two operands whose values are known. */
  lemma AddWords(lhs: Expr, rhs: Expr, l: Word, r: Word, total: nat, s: MachineState)
    requires Eval(lhs, s) == Some(l) && Eval(rhs, s) == Some(r) && l.width == r.width
    requires total == (l.value + r.value) % Pow2(l.width)
    ensures Eval(Bin(Add, lhs, rhs), s) == Some(RawWord.Word(total, l.width))
  {
  }
}
