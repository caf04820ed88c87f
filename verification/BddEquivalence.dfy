/** From machine states to assignments and back: why comparing words under the memory constraint decides
    equivalence of expressions. */
module BddEquivalence {
  import opened Words
  import opened WordLaws
  import opened Exprs
  import opened ByteMemory
  import opened Typing
  import opened BddWords
  import opened ReadViews
  import opened VariablePool
  import opened ReadAllocation
  import opened BddLowering

  /** No total state gives the expressions different values. */
  ghost predicate Equivalent(l: Expr, r: Expr, g: Shape)
  {
    forall s | Total(s, g) :: Eval(l, s) == Eval(r, s)
  }

  /** The state gives both expressions values, and different ones. */
  ghost predicate Separates(s: MachineState, l: Expr, r: Expr)
  {
    Eval(l, s).Some? && Eval(r, s).Some? && Eval(l, s) != Eval(r, s)
  }

  /** An expression the manager accepts. */
  ghost predicate Comparable(e: Expr, g: Shape)
  {
    Lowerable(e, g) && TypeOf(e, g).Some?
  }

  /** What the manager knows of a read it has to lower. */
  ghost predicate ByteRead(k: ReadKey, g: Shape)
  {
    k.1 == 8 && Lowerable(k.0, g) && TypeOf(k.0, g) == Some(g.addressWidth)
  }

  lemma {:induction false} ReadsAreBytes(e: Expr, g: Shape)
    requires Comparable(e, g)
    ensures forall k | k in ReadsOf(e) :: ByteRead(k, g)
    decreases e, 1
  {
    match e
    case Const(_, _) =>
    case RegisterField(_) =>
    case ReadRegister(register, _) => ReadsAreBytes(register, g);
    case ReadMemory(address, _) => ReadsAreBytes(address, g);
    case Bin(_, lhs, rhs) => ReadsAreBytes(lhs, g); ReadsAreBytes(rhs, g);
    case Not(operand) => ReadsAreBytes(operand, g);
    case CountOnes(operand) => ReadsAreBytes(operand, g);
    case Slice(operand, _, _) => ReadsAreBytes(operand, g);
    case Concat(parts) => PartReadsAreBytes(parts, g);
    case Extend(_, operand, _) => ReadsAreBytes(operand, g);
    case Flag(_, lhs, rhs, flagIn, _) => ReadsAreBytes(lhs, g); ReadsAreBytes(rhs, g); ReadsAreBytes(flagIn, g);
  }

  lemma {:induction false} PartReadsAreBytes(parts: seq<Expr>, g: Shape)
    requires PartsType(parts, g).Some? && forall p | p in parts :: Lowerable(p, g)
    ensures forall k | k in ReadsOfAll(parts) :: ByteRead(k, g)
    decreases parts, 0
  {
    if parts != [] {
      PartReadsAreBytes(parts[..|parts| - 1], g);
      ReadsAreBytes(parts[|parts| - 1], g);
    }
  }

  // ----- one side of a comparison -----

  /** A context for an expression: its reads, all of one byte, each with its variables. */
  ghost predicate SideOk(c: Context, e: Expr, left: bool, g: Shape)
  {
    && PoolOk(c.pool) && RegistersMatch(c.registers, g) && RegistersPooled(c.pool, c.registers)
    && Comparable(e, g) && TableOk(c.table, e) && TablePooled(c.pool, c.table, left)
  }

  lemma SideIsContext(c: Context, e: Expr, left: bool, g: Shape)
    requires SideOk(c, e, left, g)
    ensures ContextOk(c, g)
    ensures forall r | r in c.table :: ByteRead(r.Key(), g) && ReadsOf(r.address) <= Keys(c.table)
  {
    ReadsAreBytes(e, g);
    forall r | r in c.table ensures ByteRead(r.Key(), g) && ReadsOf(r.address) <= Keys(c.table) {
      var i :| 0 <= i < |c.table| && c.table[i] == r;
      assert c.table[i].Key() in Keys(c.table);
    }
  }

  /** The addresses lowered so far denote their expressions. */
  ghost predicate AddressesDenoted(c: Context, g: Shape)
    requires ContextOk(c, g)
  {
    forall r | r in c.table && r.lowered.Some? :: Denotes(r.lowered.value, r.address, c, g)
  }

  ghost predicate AllLowered(table: ReadTable)
  {
    forall r | r in table :: r.lowered.Some?
  }

  /** Views depend on a table only through keys, widths and value bits. */
  ghost predicate SameValues(table: ReadTable, other: ReadTable)
  {
    |table| == |other|
    && forall i | 0 <= i < |table| :: other[i].Key() == table[i].Key() && other[i].value == table[i].value
                                      && other[i].readId == table[i].readId
  }

  lemma {:induction false} SameReadsAt(table: ReadTable, other: ReadTable, a: Assignment)
    requires SameValues(table, other)
    requires forall r | r in table :: r.width == |r.value| > 0
    ensures forall r | r in other :: r.width == |r.value| > 0
    ensures ReadsAt(other, a) == ReadsAt(table, a)
  {
    forall r | r in other ensures r.width == |r.value| > 0 {
      var i :| 0 <= i < |other| && other[i] == r;
      assert table[i] in table && other[i].Key() == table[i].Key();
    }
    if table != [] {
      var n := |table| - 1;
      forall i | 0 <= i < n
        ensures other[..n][i].Key() == table[..n][i].Key() && other[..n][i].value == table[..n][i].value
        ensures other[..n][i].readId == table[..n][i].readId
      {
      }
      SameReadsAt(table[..n], other[..n], a);
    }
  }

  lemma SameDenotes(w: BddWord, e: Expr, c: Context, other: ReadTable, g: Shape)
    requires ContextOk(c, g) && SameValues(c.table, other) && Denotes(w, e, c, g)
    ensures var d := c.(table := other); ContextOk(d, g) && Denotes(w, e, d, g)
  {
    SameReadsAt(c.table, other, []);
    var d := c.(table := other);
    forall i, j | 0 <= i < j < |other| ensures other[i].Key() != other[j].Key() {
      assert c.table[i].Key() != c.table[j].Key();
    }
    forall a ensures EvalView(e, ViewIn(d, g, a)) == Some(RawWord.Word(Num(w, a), |w|)) {
      SameReadsAt(c.table, other, a);
      assert EvalView(e, ViewIn(c, g, a)) == Some(RawWord.Word(Num(w, a), |w|));
    }
  }

  // ----- the memory constraint -----

  /** Reads of equal addresses have equal values under the assignment. */
  ghost predicate PairAgrees(r: MemoryRead, q: MemoryRead, a: Assignment)
    requires r.lowered.Some? && q.lowered.Some?
  {
    Num(r.lowered.value, a) == Num(q.lowered.value, a) ==> Num(r.value, a) == Num(q.value, a)
  }

  ghost predicate ReadsAgree(all: ReadTable, a: Assignment)
    requires AllLowered(all)
  {
    forall i, j | 0 <= j < i < |all| :: PairAgrees(all[i], all[j], a)
  }

  // ----- from a state to an assignment -----

  /** The value bit `d` describes, in the state. */
  ghost function DescribedBit(d: Description, leftReads: ReadTable, rightReads: ReadTable, s: MachineState): bool
  {
    match d
    case Unallocated => false
    case RegisterBit(r, k) => r.identifier in s.registers && Bit(s.registers[r.identifier].value, k)
    case ReadBit(id, left, k) =>
      var table := if left then leftReads else rightReads;
      exists r :: r in table && r.readId == id && ReadHasBit(r, s, k)
  }

  ghost predicate ReadHasBit(r: MemoryRead, s: MachineState, k: nat)
  {
    var v := Eval(ReadMemory(r.address, r.width), s);
    v.Some? && Bit(v.value.value, k)
  }

  ghost function AssignmentOf(pool: Pool, leftReads: ReadTable, rightReads: ReadTable, s: MachineState): (a: Assignment)
    ensures |a| == |pool|
    ensures forall i | 0 <= i < |pool| :: a[i] == DescribedBit(pool[i].0, leftReads, rightReads, s)
  {
    seq(|pool|, i requires 0 <= i < |pool| => DescribedBit(pool[i].0, leftReads, rightReads, s))
  }

  lemma AssignedBit(pool: Pool, leftReads: ReadTable, rightReads: ReadTable, s: MachineState, d: Description)
    requires InPool(pool, d)
    ensures IsSet(AssignmentOf(pool, leftReads, rightReads, s), Slot(pool, d))
            == DescribedBit(d, leftReads, rightReads, s)
  {
    SlotExists(pool, d);
  }

  lemma RegisterAssigned(
    pool: Pool, registers: seq<Register>, leftReads: ReadTable, rightReads: ReadTable, s: MachineState, g: Shape,
    r: Register)
    requires RegistersMatch(registers, g) && RegistersPooled(pool, registers) && RegistersFit(s.registers, g)
             && r in registers
    ensures r.identifier in s.registers
    ensures Num(RegisterWord(pool, r), AssignmentOf(pool, leftReads, rightReads, s)) == s.registers[r.identifier].value
  {
    var w, a, v := RegisterWord(pool, r), AssignmentOf(pool, leftReads, rightReads, s), s.registers[r.identifier].value;
    forall k: nat | k < |w| ensures w[k](a) == Bit(v, k) {
      AssignedBit(pool, leftReads, rightReads, s, RegisterBit(r, k));
    }
    NumFromBits(w, a, v);
  }

  lemma ReadAssigned(
    pool: Pool, leftReads: ReadTable, rightReads: ReadTable, left: bool, s: MachineState, r: MemoryRead)
    requires var table := if left then leftReads else rightReads; TablePooled(pool, table, left) && r in table
    requires var v := Eval(ReadMemory(r.address, r.width), s); v.Some? && v.value.width == r.width
    ensures Num(r.value, AssignmentOf(pool, leftReads, rightReads, s))
            == Eval(ReadMemory(r.address, r.width), s).value.value
  {
    var table := if left then leftReads else rightReads;
    var a, v := AssignmentOf(pool, leftReads, rightReads, s), Eval(ReadMemory(r.address, r.width), s).value.value;
    assert r.value == ReadWord(pool, r.readId, left, r.width);
    forall k: nat | k < |r.value| ensures r.value[k](a) == Bit(v, k) {
      var d := ReadBit(r.readId, left, k);
      assert InPool(pool, d);
      AssignedBit(pool, leftReads, rightReads, s, d);
      if exists q :: q in table && q.readId == r.readId && ReadHasBit(q, s, k) {
        var q :| q in table && q.readId == r.readId && ReadHasBit(q, s, k);
        SameRead(table, q, r);
      } else {
        assert !ReadHasBit(r, s, k);
      }
    }
    NumFromBits(r.value, a, v);
  }

  lemma SameRead(table: ReadTable, q: MemoryRead, r: MemoryRead)
    requires q in table && r in table && q.readId == r.readId
    requires forall i, j | 0 <= i < j < |table| :: table[i].readId != table[j].readId
    ensures q == r
  {
    var i :| 0 <= i < |table| && table[i] == q;
    var j :| 0 <= j < |table| && table[j] == r;
  }

  lemma StateRegisters(c: Context, leftReads: ReadTable, rightReads: ReadTable, s: MachineState, g: Shape)
    requires RegistersMatch(c.registers, g) && RegistersPooled(c.pool, c.registers) && RegistersFit(s.registers, g)
    ensures RegistersAt(c.pool, c.registers, AssignmentOf(c.pool, leftReads, rightReads, s)) == s.registers
  {
    var m := RegistersAt(c.pool, c.registers, AssignmentOf(c.pool, leftReads, rightReads, s));
    RegistersAtFit(c.pool, c.registers, AssignmentOf(c.pool, leftReads, rightReads, s), g);
    forall id | id in g.registers ensures m[id] == s.registers[id] {
      var r :| r in c.registers && r.identifier == id;
      RegisterAssigned(c.pool, c.registers, leftReads, rightReads, s, g, r);
    }
  }

  lemma StateReadValue(
    c: Context, e: Expr, left: bool, leftReads: ReadTable, rightReads: ReadTable, s: MachineState, g: Shape, i: nat)
    requires SideOk(c, e, left, g) && Total(s, g) && c.table == if left then leftReads else rightReads
    requires i < |c.table|
    ensures var r, a := c.table[i], AssignmentOf(c.pool, leftReads, rightReads, s);
      var v := Eval(ReadMemory(r.address, r.width), s);
      v.Some? && v.value.width == r.width && v.value.value == Num(r.value, a)
  {
    SideIsContext(c, e, left, g);
    var r := c.table[i];
    assert ByteRead(r.Key(), g);
    TypedHasValue(ReadMemory(r.address, r.width), g, s);
    ReadAssigned(c.pool, leftReads, rightReads, left, s, r);
  }

  /** The view of the assignment a state stands for is the view of the state. */
  lemma StateView(
    c: Context, e: Expr, left: bool, leftReads: ReadTable, rightReads: ReadTable, s: MachineState, g: Shape)
    requires SideOk(c, e, left, g) && Total(s, g) && c.table == if left then leftReads else rightReads
    ensures ContextOk(c, g)
    ensures ViewOf(ViewIn(c, g, AssignmentOf(c.pool, leftReads, rightReads, s)), Keys(c.table), s)
  {
    SideIsContext(c, e, left, g);
    StateRegisters(c, leftReads, rightReads, s, g);
    forall k | k in Keys(c.table)
      ensures var v := ViewIn(c, g, AssignmentOf(c.pool, leftReads, rightReads, s));
        k in v.read && Eval(ReadMemory(k.0, k.1), s) == Some(v.read[k])
    {
      var i :| 0 <= i < |c.table| && c.table[i].Key() == k;
      StateReadValue(c, e, left, leftReads, rightReads, s, g, i);
      ReadsAtHas(c.table, AssignmentOf(c.pool, leftReads, rightReads, s));
    }
  }

  /** A denoted expression over the table's reads has in the state the number its word reads as. */
  lemma StateNumber(
    w: BddWord, x: Expr, c: Context, e: Expr, left: bool, leftReads: ReadTable, rightReads: ReadTable,
    s: MachineState, g: Shape)
    requires SideOk(c, e, left, g) && Total(s, g) && c.table == if left then leftReads else rightReads
    requires ContextOk(c, g) && Denotes(w, x, c, g) && ReadsOf(x) <= Keys(c.table)
    ensures Eval(x, s) == Some(RawWord.Word(Num(w, AssignmentOf(c.pool, leftReads, rightReads, s)), |w|))
  {
    var a := AssignmentOf(c.pool, leftReads, rightReads, s);
    StateView(c, e, left, leftReads, rightReads, s, g);
    ViewOfState(x, ViewIn(c, g, a), Keys(c.table), s);
    assert EvalView(x, ViewIn(c, g, a)) == Some(RawWord.Word(Num(w, a), |w|));
  }

  /** Both sides of a comparison, fully lowered. */
  ghost predicate Lowered(cl: Context, l: Expr, cr: Context, r: Expr, g: Shape)
  {
    && SideOk(cl, l, true, g) && SideOk(cr, r, false, g)
    && cl.pool == cr.pool && cl.registers == cr.registers
    && ContextOk(cl, g) && ContextOk(cr, g)
    && AllLowered(cl.table) && AllLowered(cr.table)
    && AddressesDenoted(cl, g) && AddressesDenoted(cr, g)
  }

  /** A read of one side, under the assignment of a state: its address and value are the state's. */
  lemma StateRead(cl: Context, l: Expr, cr: Context, r: Expr, left: bool, q: MemoryRead, s: MachineState, g: Shape)
    requires Lowered(cl, l, cr, r, g) && Total(s, g) && q in (if left then cl.table else cr.table)
    ensures q.lowered.Some?
    ensures var a := AssignmentOf(cl.pool, cl.table, cr.table, s);
      && Num(q.lowered.value, a) < Pow2(g.addressWidth) && g.addressWidth > 0
      && ReadConcreteMemory(s, RawWord.Word(Num(q.lowered.value, a), g.addressWidth), 8)
         == Some(RawWord.Word(Num(q.value, a), 8))
  {
    hide Num, AssignmentOf, ViewIn, TypeOf;
    var c, e := if left then cl else cr, if left then l else r;
    var a := AssignmentOf(cl.pool, cl.table, cr.table, s);
    SideIsContext(c, e, left, g);
    assert ByteRead(q.Key(), g) && Denotes(q.lowered.value, q.address, c, g);
    StateNumber(q.lowered.value, q.address, c, e, left, cl.table, cr.table, s, g);
    TypedHasValue(ReadMemory(q.address, 8), g, s);
    ReadAssigned(c.pool, cl.table, cr.table, left, s, q);
  }

  /** The assignment of a state meets the memory constraint. */
  lemma StateAgrees(cl: Context, l: Expr, cr: Context, r: Expr, s: MachineState, g: Shape)
    requires Lowered(cl, l, cr, r, g) && Total(s, g)
    ensures AllLowered(cl.table + cr.table)
    ensures ReadsAgree(cl.table + cr.table, AssignmentOf(cl.pool, cl.table, cr.table, s))
  {
    var all, a := cl.table + cr.table, AssignmentOf(cl.pool, cl.table, cr.table, s);
    forall i, j | 0 <= j < i < |all| ensures PairAgrees(all[i], all[j], a) {
      StateRead(cl, l, cr, r, i < |cl.table|, all[i], s, g);
      StateRead(cl, l, cr, r, j < |cl.table|, all[j], s, g);
    }
  }

  // ----- from an assignment to a state -----

  /** Memory holds, for every read, the value the assignment gives it at the address it gives it. */
  ghost predicate MemoryFor(memory: map<(nat, nat), Word>, all: ReadTable, a: Assignment)
    requires AllLowered(all)
  {
    forall i | 0 <= i < |all| :: HoldsRead(memory, all[i], a)
  }

  ghost predicate HoldsRead(memory: map<(nat, nat), Word>, r: MemoryRead, a: Assignment)
    requires r.lowered.Some?
  {
    var key := (Num(r.lowered.value, a), 8);
    key in memory && memory[key].value == Num(r.value, a) && memory[key].width == 8
  }

  /** The state a counterexample assignment stands for. */
  ghost predicate StateFor(s: MachineState, cl: Context, cr: Context, a: Assignment, g: Shape)
    requires RegistersMatch(cl.registers, g) && AllLowered(cl.table + cr.table)
  {
    s.registers == RegistersAt(cl.pool, cl.registers, a) && MemoryFor(s.memory, cl.table + cr.table, a)
  }

  lemma ReadRealized(s: MachineState, c: Context, e: Expr, left: bool, i: nat, a: Assignment, g: Shape)
    requires SideOk(c, e, left, g) && ContextOk(c, g) && AddressesDenoted(c, g) && i < |c.table|
    requires c.table[i].lowered.Some? && HoldsRead(s.memory, c.table[i], a)
    ensures RealizesRead(s, ViewIn(c, g, a), c.table[i].Key())
  {
    var q, v := c.table[i], ViewIn(c, g, a);
    SideIsContext(c, e, left, g);
    ReadsAtHas(c.table, a);
    assert Denotes(q.lowered.value, q.address, c, g) && ByteRead(q.Key(), g);
    assert EvalView(q.address, v) == Some(RawWord.Word(Num(q.lowered.value, a), |q.lowered.value|));
  }

  /** Such a state realizes the view of either side. */
  lemma StateRealizes(
    s: MachineState, cl: Context, l: Expr, cr: Context, r: Expr, left: bool, a: Assignment, g: Shape)
    requires Lowered(cl, l, cr, r, g) && AllLowered(cl.table + cr.table) && StateFor(s, cl, cr, a, g)
    ensures var c := if left then cl else cr; Realizes(s, ViewIn(c, g, a), Keys(c.table))
  {
    var c, e := if left then cl else cr, if left then l else r;
    forall k | k in Keys(c.table) ensures RealizesRead(s, ViewIn(c, g, a), k) {
      var i :| 0 <= i < |c.table| && c.table[i].Key() == k;
      var all := cl.table + cr.table;
      var j := if left then i else |cl.table| + i;
      assert all[j] == c.table[i] && HoldsRead(s.memory, all[j], a);
      ReadRealized(s, c, e, left, i, a, g);
    }
  }

  /** In that state each side has the value its word reads as. */
  lemma StateValue(
    s: MachineState, w: BddWord, cl: Context, l: Expr, cr: Context, r: Expr, left: bool, a: Assignment, g: Shape)
    requires Lowered(cl, l, cr, r, g) && AllLowered(cl.table + cr.table) && StateFor(s, cl, cr, a, g)
    requires Denotes(w, if left then l else r, if left then cl else cr, g)
    ensures Eval(if left then l else r, s) == Some(RawWord.Word(Num(w, a), |w|))
  {
    var c, e := if left then cl else cr, if left then l else r;
    StateRealizes(s, cl, l, cr, r, left, a, g);
    assert EvalView(e, ViewIn(c, g, a)) == Some(RawWord.Word(Num(w, a), |w|));
    StateForView(e, ViewIn(c, g, a), Keys(c.table), s);
  }

  // ----- the verdict -----

  /** If no assignment meets the constraint and tells the words apart, no state tells the expressions apart. */
  lemma NoAssignmentNoState(wl: BddWord, wr: BddWord, cl: Context, l: Expr, cr: Context, r: Expr, g: Shape)
    requires Lowered(cl, l, cr, r, g) && Denotes(wl, l, cl, g) && Denotes(wr, r, cr, g) && |wl| == |wr|
    requires AllLowered(cl.table + cr.table)
    requires forall a :: ReadsAgree(cl.table + cr.table, a) ==> Num(wl, a) == Num(wr, a)
    ensures Equivalent(l, r, g)
  {
    forall s | Total(s, g) ensures Eval(l, s) == Eval(r, s) {
      StateAgrees(cl, l, cr, r, s, g);
      StateNumber(wl, l, cl, l, true, cl.table, cr.table, s, g);
      StateNumber(wr, r, cr, r, false, cl.table, cr.table, s, g);
    }
  }

  /** A state that separates the expressions, though partial, shows they are not equivalent. */
  lemma SeparatedIsInequivalent(s: MachineState, l: Expr, r: Expr, g: Shape)
    requires Separates(s, l, r) && OnlyByteReads(l) && OnlyByteReads(r) && RegistersFit(s.registers, g)
    requires forall k | k in s.memory :: ByteKey(k, g) && s.memory[k].width == 8
    ensures !Equivalent(l, r, g)
  {
    var total := Completion(s, g);
    ExtendsKeepsValue(l, total, s);
    ExtendsKeepsValue(r, total, s);
  }
}
