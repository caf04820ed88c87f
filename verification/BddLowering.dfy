/** Lowering a canonical expression to a word of Boolean functions. */
module BddLowering {
  import opened Words
  import opened WordLaws
  import opened Exprs
  import opened Typing
  import opened BddWords
  import opened Shifters
  import opened Circuits
  import opened ReadViews
  import opened VariablePool

  /** What lowering is done against: the variables, the register file and one side's read table. */
  datatype Context = Context(pool: Pool, registers: seq<Register>, table: ReadTable)

  ghost predicate ContextOk(c: Context, g: Shape)
  {
    && PoolOk(c.pool) && RegistersMatch(c.registers, g) && RegistersPooled(c.pool, c.registers)
    && DistinctKeys(c.table) && (forall r | r in c.table :: r.width == |r.value| > 0)
  }

  ghost function ViewIn(c: Context, g: Shape, a: Assignment): View
    requires ContextOk(c, g)
  {
    ViewAt(c.pool, c.registers, c.table, a)
  }

  /** Under every assignment the word reads as the value of the expression in the assignment's view. */
  ghost predicate Denotes(w: BddWord, e: Expr, c: Context, g: Shape)
    requires ContextOk(c, g)
  {
    && TypeOf(e, g) == Some(|w|)
    && forall a :: EvalView(e, ViewIn(c, g, a)) == Some(RawWord.Word(Num(w, a), |w|))
  }

  lemma DenotedWidth(w: BddWord, e: Expr, c: Context, g: Shape)
    requires ContextOk(c, g) && Denotes(w, e, c, g)
    ensures |w| > 0
  {
    var v: Word := EvalView(e, ViewIn(c, g, [])).value;
    assert v.width == |w|;
  }

  // ----- operators over lowered operands -----

  predicate LowerableOp(op: BinOp) { op != Sub && op != Or && op != Xor }

  method LowerShift(op: BinOp, l: BddWord, r: BddWord) returns (w: BddWord)
    requires IsShift(op) || op == RotateRight
    requires |l| == |r| > 0 && (IsShift(op) ==> |l| <= MAX_WIDTH)
    ensures |w| == |l|
    ensures forall a :: Num(w, a) == BinVal(op, Num(l, a), Num(r, a), |l|)
  {
    if IsShift(op) {
      w := BarrelShifter(op, l, r);
    } else {
      w := BarrelRotator(l, r);
    }
    forall a ensures Num(w, a) == BinVal(op, Num(l, a), Num(r, a), |l|) { ShiftedNumber(op, l, Num(r, a), w, a); }
  }

  method LowerBinary(op: BinOp, l: BddWord, r: BddWord) returns (w: BddWord)
    requires LowerableOp(op) && |l| == |r| > 0 && (IsShift(op) ==> |l| <= MAX_WIDTH)
    ensures |w| == BinWidth(op, |l|)
    ensures forall a :: Num(w, a) == BinVal(op, Num(l, a), Num(r, a), |l|)
  {
    hide Num;
    match op {
      case Add => w := LowerAdd(l, r);
      case Mul => w := LowerMul(l, r);
      case And => w := LowerAnd(l, r);
      case ShiftLeft => w := LowerShift(op, l, r);
      case LogicalShiftRight => w := LowerShift(op, l, r);
      case ArithmeticShiftRight => w := LowerShift(op, l, r);
      case RotateRight => w := LowerShift(op, l, r);
      case Equal => w := LowerEqual(l, r);
      case UnsignedLessThan => w := LowerUnsignedLess(l, r);
      case SignedLessThan => w := LowerSignedLess(l, r);
    }
  }

  method LowerFlag(flag: FlagOp, l: BddWord, r: BddWord, carryIn: BddWord) returns (w: BddWord)
    requires (flag == AddCarryOut || flag == AddOverflow) && |l| == |r| > 0 && |carryIn| == 1
    ensures |w| == 1
    ensures forall a :: Num(carryIn, a) < 2
    ensures forall a :: Num(w, a) == BoolVal(FlagVal(flag, Num(l, a), Num(r, a), Num(carryIn, a), |l|))
  {
    assert Pow2(1) == 2;
    if flag == AddCarryOut {
      w := LowerCarryOut(l, r, carryIn);
    } else {
      w := LowerOverflow(l, r, carryIn);
    }
  }

  method LowerExtend(kind: ExtendOp, x: BddWord, toWidth: nat) returns (w: BddWord)
    requires 0 < |x| <= toWidth
    ensures |w| == toWidth
    ensures forall a :: Num(w, a) == ExtendVal(kind, Num(x, a), |x|, toWidth)
  {
    if kind == ZeroExtend {
      w := LowerZeroExtend(x, toWidth);
    } else {
      w := LowerSignExtend(x, toWidth);
    }
  }

  // ----- registers -----

  /** The bits a partly filled register table holds: the variables before position `i`, else false. */
  ghost predicate FilledTo(table: seq<BddWord>, c: Context, width: nat, i: nat)
  {
    forall r | r in c.registers && r.width == width ::
      r.identifier < |table| && |table[r.identifier]| == width
      && forall k: nat | k < width ::
           table[r.identifier][k] == if Slot(c.pool, RegisterBit(r, k)) < i
                                     then VariableFn(Slot(c.pool, RegisterBit(r, k))) else ConstFn(false)
  }

  /** Places every register bit of the wanted width into a table indexed by identifier. */
  method RegisterTable(c: Context, ghost g: Shape, identifierWidth: nat, width: nat) returns (table: seq<BddWord>)
    requires ContextOk(c, g) && identifierWidth == g.identifierWidth
    ensures |table| == Pow2(identifierWidth) && AllWide(table, width)
    ensures forall r | r in c.registers && r.width == width ::
              r.identifier < |table| && table[r.identifier] == RegisterWord(c.pool, r)
  {
    var zeros: BddWord := seq(width, _ => ConstFn(false));
    table := seq(Pow2(identifierWidth), _ => zeros);
    for i := 0 to |c.pool|
      invariant |table| == Pow2(identifierWidth) && AllWide(table, width)
      invariant FilledTo(table, c, width, i)
    {
      table := PlaceBit(table, c, g, width, i);
    }
    forall r | r in c.registers && r.width == width ensures table[r.identifier] == RegisterWord(c.pool, r) {
      forall k: nat | k < width ensures table[r.identifier][k] == RegisterWord(c.pool, r)[k] {
        SlotExists(c.pool, RegisterBit(r, k));
      }
    }
  }

  method PlaceBit(table: seq<BddWord>, c: Context, ghost g: Shape, width: nat, i: nat) returns (next: seq<BddWord>)
    requires ContextOk(c, g) && i < |c.pool|
    requires |table| == Pow2(g.identifierWidth) && AllWide(table, width) && FilledTo(table, c, width, i)
    ensures |next| == |table| && AllWide(next, width) && FilledTo(next, c, width, i + 1)
  {
    next := table;
    var (d, f) := c.pool[i];
    if d.RegisterBit? && d.register.width == width {
      var id := d.register.identifier;
      next := table[id := table[id][d.bit := f]];
      PlacedBit(table, next, c, g, width, i);
    } else {
      forall r, k: nat | r in c.registers && k < r.width && r.width == width
        ensures Slot(c.pool, RegisterBit(r, k)) != i
      {
      }
    }
  }

  lemma PlacedBit(table: seq<BddWord>, next: seq<BddWord>, c: Context, g: Shape, width: nat, i: nat)
    requires ContextOk(c, g) && i < |c.pool| && c.pool[i].0.RegisterBit? && c.pool[i].0.register.width == width
    requires |table| == Pow2(g.identifierWidth) && AllWide(table, width) && FilledTo(table, c, width, i)
    requires var d := c.pool[i].0;
      d.register.identifier < |table| && d.bit < width
      && next == table[d.register.identifier := table[d.register.identifier][d.bit := c.pool[i].1]]
    ensures FilledTo(next, c, width, i + 1)
  {
    var d := c.pool[i].0;
    SlotIs(c.pool, i);
    forall r | r in c.registers && r.width == width
      ensures r.identifier < |next| && |next[r.identifier]| == width
      ensures forall k: nat | k < width ::
        next[r.identifier][k] == if Slot(c.pool, RegisterBit(r, k)) < i + 1
                                 then VariableFn(Slot(c.pool, RegisterBit(r, k))) else ConstFn(false)
    {
      if r.identifier == d.register.identifier { SameIdentifier(c.registers, g, r, d.register); }
      forall k: nat | k < width
        ensures next[r.identifier][k] == if Slot(c.pool, RegisterBit(r, k)) < i + 1
                                         then VariableFn(Slot(c.pool, RegisterBit(r, k))) else ConstFn(false)
      {
        if Slot(c.pool, RegisterBit(r, k)) == i { assert d == RegisterBit(r, k); }
      }
    }
  }

  /** Reads the register the selector names. */
  method LowerRegisterRead(
    register: Expr, selector: BddWord, width: nat, c: Context, ghost g: Shape) returns (w: BddWord)
    requires ContextOk(c, g) && Denotes(selector, register, c, g) && TypeOf(ReadRegister(register, width), g).Some?
    ensures Denotes(w, ReadRegister(register, width), c, g)
  {
    var table := RegisterTable(c, g, |selector|, width);
    w := SelectEntry(table, selector, width);
    forall a ensures EvalView(ReadRegister(register, width), ViewIn(c, g, a)) == Some(RawWord.Word(Num(w, a), |w|)) {
      RegisterReadMeaning(register, selector, width, c, g, table, w, a);
    }
  }

  lemma RegisterReadMeaning(
    register: Expr, selector: BddWord, width: nat, c: Context, g: Shape, table: seq<BddWord>, w: BddWord, a: Assignment)
    requires ContextOk(c, g) && Denotes(selector, register, c, g) && TypeOf(ReadRegister(register, width), g).Some?
    requires |w| == width && Num(selector, a) < |table| && Num(w, a) == Num(table[Num(selector, a)], a)
    requires forall r | r in c.registers && r.width == width ::
               r.identifier < |table| && table[r.identifier] == RegisterWord(c.pool, r)
    ensures EvalView(ReadRegister(register, width), ViewIn(c, g, a)) == Some(RawWord.Word(Num(w, a), |w|))
  {
    var id := Num(selector, a);
    assert EvalView(register, ViewIn(c, g, a)) == Some(RawWord.Word(id, |selector|));
    NamedRegister(register, width, g, ViewIn(c, g, a), id);
    RegistersAtFit(c.pool, c.registers, a, g);
    var r :| r in c.registers && r.identifier == id;
  }

  /** A well-formed register read only ever names registers of its width. */
  lemma NamedRegister(register: Expr, width: nat, g: Shape, v: View, id: nat)
    requires TypeOf(ReadRegister(register, width), g).Some?
    requires EvalView(register, v).Some? && EvalView(register, v).value.value == id
    requires EvalView(register, v).value.width == g.identifierWidth
    ensures RegisterHas(g, id, width)
  {
    assert NamesRegistersOf(register, width, g);
    if register.RegisterField? && register.ref.Fixed? {
      assert EvalView(register, v) == MakeWord(register.ref.register, register.ref.identifierWidth);
    }
  }

  /** The table entry of a read. */
  method FindRead(table: ReadTable, k: ReadKey) returns (r: MemoryRead)
    requires k in Keys(table)
    ensures r in table && r.Key() == k
  {
    var i := 0;
    while table[i].Key() != k
      invariant 0 <= i < |table| && k !in Keys(table[..i])
      invariant exists j :: i <= j < |table| && table[j].Key() == k
      decreases |table| - i
    {
      ghost var j :| i <= j < |table| && table[j].Key() == k;
      i := i + 1;
      assert table[j].Key() == k && i <= j;
      assert table[..i] == table[..i - 1] + [table[i - 1]];
    }
    r := table[i];
  }

  // ----- the recursion -----

  lemma BinDenotes(op: BinOp, lhs: Expr, rhs: Expr, l: BddWord, r: BddWord, w: BddWord, c: Context, g: Shape)
    requires ContextOk(c, g) && Denotes(l, lhs, c, g) && Denotes(r, rhs, c, g) && |l| == |r| > 0
    requires |w| == BinWidth(op, |l|) && forall a :: Num(w, a) == BinVal(op, Num(l, a), Num(r, a), |l|)
    ensures Denotes(w, Bin(op, lhs, rhs), c, g)
  {
    hide BinVal, ContextOk, Num, ViewIn;
    forall a ensures EvalView(Bin(op, lhs, rhs), ViewIn(c, g, a)) == Some(RawWord.Word(Num(w, a), |w|)) {
      var v := ViewIn(c, g, a);
      assert EvalView(lhs, v) == Some(RawWord.Word(Num(l, a), |l|));
      assert EvalView(rhs, v) == Some(RawWord.Word(Num(r, a), |r|));
    }
  }

  lemma FlagDenotes(
    flag: FlagOp, lhs: Expr, rhs: Expr, carryIn: Expr, l: BddWord, r: BddWord, k: BddWord, w: BddWord, c: Context,
    g: Shape)
    requires ContextOk(c, g) && Denotes(l, lhs, c, g) && Denotes(r, rhs, c, g) && Denotes(k, carryIn, c, g)
    requires |l| == |r| > 0 && |k| == 1 && |w| == 1 && forall a :: Num(k, a) < 2
    requires forall a :: Num(w, a) == BoolVal(FlagVal(flag, Num(l, a), Num(r, a), Num(k, a), |l|))
    ensures Denotes(w, Flag(flag, lhs, rhs, carryIn, |l|), c, g)
  {
    var e := Flag(flag, lhs, rhs, carryIn, |l|);
    forall a ensures EvalView(e, ViewIn(c, g, a)) == Some(RawWord.Word(Num(w, a), |w|)) {
      var v := ViewIn(c, g, a);
      assert EvalView(lhs, v) == Some(RawWord.Word(Num(l, a), |l|));
      assert EvalView(rhs, v) == Some(RawWord.Word(Num(r, a), |r|));
      assert EvalView(carryIn, v) == Some(RawWord.Word(Num(k, a), 1));
    }
  }

  /** A node with one operand, given what its operator makes of the operand's word. */
  lemma UnaryDenotes(e: Expr, operand: Expr, x: BddWord, w: BddWord, c: Context, g: Shape)
    requires ContextOk(c, g) && Denotes(x, operand, c, g) && TypeOf(e, g) == Some(|w|)
    requires e == Not(operand) || e == CountOnes(operand)
      || (e.Slice? && e.operand == operand) || (e.Extend? && e.operand == operand)
    requires forall a :: |x| > 0 && ApplyUnary(e, RawWord.Word(Num(x, a), |x|)) == Some(RawWord.Word(Num(w, a), |w|))
    ensures Denotes(w, e, c, g)
  {
    forall a ensures EvalView(e, ViewIn(c, g, a)) == Some(RawWord.Word(Num(w, a), |w|)) {
      assert EvalView(operand, ViewIn(c, g, a)) == Some(RawWord.Word(Num(x, a), |x|));
    }
  }

  /** What a node with one operand makes of the operand's value. */
  ghost function ApplyUnary(e: Expr, x: Word): Option<Word>
    requires e.Not? || e.CountOnes? || e.Slice? || e.Extend?
  {
    match e
    case Not(_) => Some(ApplyNot(x))
    case CountOnes(_) => Some(ApplyCountOnes(x))
    case Slice(_, high, low) => ApplySlice(x, high, low)
    case Extend(kind, _, toWidth) => ApplyExtend(kind, x, toWidth)
  }

  method LowerUnary(e: Expr, operand: Expr, x: BddWord, c: Context, ghost g: Shape) returns (w: BddWord)
    requires ContextOk(c, g) && Denotes(x, operand, c, g) && TypeOf(e, g).Some?
    requires e == Not(operand) || e == CountOnes(operand)
      || (e.Slice? && e.operand == operand) || (e.Extend? && e.operand == operand)
    ensures Denotes(w, e, c, g)
  {
    DenotedWidth(x, operand, c, g);
    match e {
      case Not(_) => w := LowerNot(x);
      case CountOnes(_) => w := LowerCountOnes(x);
      case Slice(_, high, low) => w := LowerSlice(x, high, low);
      case Extend(kind, _, toWidth) => w := LowerExtend(kind, x, toWidth);
    }
    UnaryDenotes(e, operand, x, w, c, g);
  }

  /** The parts of a concatenation, joined so far. */
  ghost predicate PartsDenoted(w: BddWord, parts: seq<Expr>, c: Context, g: Shape)
    requires ContextOk(c, g)
  {
    && PartsType(parts, g) == Some(|w|)
    && forall a :: EvalViewParts(parts, ViewIn(c, g, a)) == Some(RawWord.Word(Num(w, a), |w|))
  }

  lemma JoinDenotes(init: seq<Expr>, last: Expr, high: BddWord, low: BddWord, c: Context, g: Shape)
    requires ContextOk(c, g) && PartsDenoted(high, init, c, g) && Denotes(low, last, c, g)
    ensures PartsDenoted(low + high, init + [last], c, g)
  {
    DenotedWidth(low, last, c, g);
    var parts := init + [last];
    assert parts[..|parts| - 1] == init;
    forall a ensures EvalViewParts(parts, ViewIn(c, g, a)) == Some(RawWord.Word(Num(low + high, a), |low + high|)) {
      assert EvalView(last, ViewIn(c, g, a)) == Some(RawWord.Word(Num(low, a), |low|));
      JoinedValue(high, low, a);
    }
  }

  lemma JoinedValue(high: BddWord, low: BddWord, a: Assignment)
    ensures Num(high, a) * Pow2(|low|) >= 0
    ensures Bitwise(LogicOr, Num(high, a) * Pow2(|low|), Num(low, a), |high| + |low|) == Num(low + high, a)
  {
    JoinedNumber(low, high, a);
    ProductNat(Num(high, a), Pow2(|low|));
    JoinWords(Num(high, a), |high|, Num(low, a), |low|, Num(high, a) * Pow2(|low|));
  }

  method LowerParts(parts: seq<Expr>, c: Context, ghost g: Shape) returns (w: BddWord)
    requires ContextOk(c, g) && PartsType(parts, g).Some? && ReadsOfAll(parts) <= Keys(c.table)
    requires forall p | p in parts :: Lowerable(p, g)
    ensures PartsDenoted(w, parts, c, g)
    decreases parts, 0
  {
    if parts == [] {
      w := [];
      forall a ensures Num(w, a) == 0 { NumOfZeros(w, a); }
    } else {
      var init, last := parts[..|parts| - 1], parts[|parts| - 1];
      var high := LowerParts(init, c, g);
      var low := LowerExpression(last, c, g);
      w := low + high;
      JoinDenotes(init, last, high, low, c, g);
      assert parts == init + [last];
    }
  }

  lemma ConcatDenotes(parts: seq<Expr>, w: BddWord, c: Context, g: Shape)
    requires ContextOk(c, g) && PartsDenoted(w, parts, c, g) && TypeOf(Concat(parts), g).Some?
    ensures Denotes(w, Concat(parts), c, g)
  {
    forall a ensures EvalView(Concat(parts), ViewIn(c, g, a)) == Some(RawWord.Word(Num(w, a), |w|)) {
      assert EvalViewParts(parts, ViewIn(c, g, a)) == Some(RawWord.Word(Num(w, a), |w|));
    }
  }

  lemma ConstDenotes(e: Expr, value: nat, w: BddWord, c: Context, g: Shape)
    requires ContextOk(c, g) && TypeOf(e, g) == Some(|w|) && |w| > 0
    requires e == Const(value, |w|) || e == RegisterField(Fixed(value, |w|))
    requires forall a :: Num(w, a) == value % Pow2(|w|)
    ensures Denotes(w, e, c, g)
  {
    forall a ensures EvalView(e, ViewIn(c, g, a)) == Some(RawWord.Word(Num(w, a), |w|)) {
      ConstView(e, value, |w|, Num(w, a), ViewIn(c, g, a));
    }
  }

  lemma ConstView(e: Expr, value: nat, width: nat, reduced: nat, v: View)
    requires width > 0 && (e == Const(value, width) || e == RegisterField(Fixed(value, width)))
    requires reduced == value % Pow2(width)
    ensures EvalView(e, v) == Some(RawWord.Word(reduced, width))
  {
  }

  lemma ReadDenotes(address: Expr, r: MemoryRead, c: Context, g: Shape)
    requires ContextOk(c, g) && r in c.table && r.address == address && TypeOf(ReadMemory(address, r.width), g).Some?
    ensures Denotes(r.value, ReadMemory(address, r.width), c, g)
  {
    var i :| 0 <= i < |c.table| && c.table[i] == r;
    forall a
      ensures EvalView(ReadMemory(address, r.width), ViewIn(c, g, a)) == Some(RawWord.Word(Num(r.value, a), |r.value|))
    {
      ReadsAtHas(c.table, a);
      assert c.table[i].Key() == (address, r.width);
    }
  }

  /** Lowers an expression: under every assignment the resulting bits read as its value. */
  method LowerExpression(e: Expr, c: Context, ghost g: Shape) returns (w: BddWord)
    requires ContextOk(c, g) && Lowerable(e, g) && TypeOf(e, g).Some? && ReadsOf(e) <= Keys(c.table)
    ensures Denotes(w, e, c, g)
    decreases e, 1
  {
    match e {
      case Const(value, width) =>
        w := LowerConstant(value, width);
        ConstDenotes(e, value, w, c, g);
      case RegisterField(ref) =>
        w := LowerConstant(ref.register, ref.identifierWidth);
        ConstDenotes(e, ref.register, w, c, g);
      case ReadRegister(register, width) =>
        var selector := LowerExpression(register, c, g);
        w := LowerRegisterRead(register, selector, width, c, g);
      case ReadMemory(address, width) =>
        var r := FindRead(c.table, (address, width));
        w := r.value;
        ReadDenotes(address, r, c, g);
      case Bin(op, lhs, rhs) =>
        var l := LowerExpression(lhs, c, g);
        var r := LowerExpression(rhs, c, g);
        DenotedWidth(l, lhs, c, g);
        w := LowerBinary(op, l, r);
        BinDenotes(op, lhs, rhs, l, r, w, c, g);
      case Not(operand) =>
        var x := LowerExpression(operand, c, g);
        w := LowerUnary(e, operand, x, c, g);
      case CountOnes(operand) =>
        var x := LowerExpression(operand, c, g);
        w := LowerUnary(e, operand, x, c, g);
      case Slice(operand, _, _) =>
        var x := LowerExpression(operand, c, g);
        w := LowerUnary(e, operand, x, c, g);
      case Concat(parts) =>
        w := LowerParts(parts, c, g);
        ConcatDenotes(parts, w, c, g);
      case Extend(_, operand, _) =>
        var x := LowerExpression(operand, c, g);
        w := LowerUnary(e, operand, x, c, g);
      case Flag(flag, lhs, rhs, flagIn, width) =>
        var l := LowerExpression(lhs, c, g);
        var r := LowerExpression(rhs, c, g);
        var k := LowerExpression(flagIn, c, g);
        DenotedWidth(l, lhs, c, g);
        w := LowerFlag(flag, l, r, k);
        FlagDenotes(flag, lhs, rhs, flagIn, l, r, k, w, c, g);
    }
  }
}
