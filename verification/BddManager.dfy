/** The manager that compares a fixed left expression with a changing right one. */
module BddManagers {
  import opened Words
  import opened Exprs
  import opened ByteMemory
  import opened Typing
  import opened BddWords
  import opened ReadViews
  import opened VariablePool
  import opened ReadAllocation
  import opened BddLowering
  import opened BddEquivalence
  import opened BddSides
  import opened BddCounterexample

  datatype BddEquality = ExprsEqual | ExprsUnequal(state: MachineState)

  /** Satisfiability and the choice of a satisfying cube, taken from the decision-diagram library. */
  type CubePicker = BddFn -> Option<Cube>

  ghost predicate GoodPicker(pick: CubePicker)
  {
    forall f: BddFn ::
      && (pick(f).None? ==> forall a :: !f(a))
      && (pick(f).Some? ==> f(CubeAssignment(pick(f).value)))
  }

  // ----- variables a function does not depend on -----

  function SetVariable(a: Assignment, i: nat, b: bool): (r: Assignment)
    ensures forall j: nat :: IsSet(r, j) == if j == i then b else IsSet(a, j)
  {
    if i < |a| then a[i := b] else a + seq(i - |a|, _ => false) + [b]
  }

  /** Both cofactors are the same function. */
  ghost predicate Ignores(f: BddFn, i: nat)
  {
    forall a :: f(SetVariable(a, i, false)) == f(SetVariable(a, i, true))
  }

  ghost predicate WordIgnores(w: BddWord, i: nat)
  {
    forall k | 0 <= k < |w| :: Ignores(w[k], i)
  }

  ghost predicate TableIgnores(table: ReadTable, i: nat)
  {
    forall r | r in table :: (r.lowered.Some? ==> WordIgnores(r.lowered.value, i)) && WordIgnores(r.value, i)
  }

  lemma VariablesIgnore(pool: Pool, i: nat)
    requires PoolOk(pool)
    ensures forall j | 0 <= j < |pool| && j != i :: Ignores(pool[j].1, i)
  {
  }

  /** A word that denotes an expression over the left reads ignores every right variable. */
  lemma LeftIgnoresRight(w: BddWord, e: Expr, c: Context, l: Expr, g: Shape, i: nat)
    requires SideOk(c, l, true, g) && ContextOk(c, g) && Denotes(w, e, c, g)
    requires i < |c.pool| && IsReadOf(c.pool[i].0, false)
    ensures WordIgnores(w, i)
  {
    forall k | 0 <= k < |w| ensures Ignores(w[k], i) {
      forall a ensures w[k](SetVariable(a, i, false)) == w[k](SetVariable(a, i, true)) {
        var x, y := SetVariable(a, i, false), SetVariable(a, i, true);
        SameLeftView(c, l, g, i, x, y);
        assert EvalView(e, ViewIn(c, g, x)) == Some(RawWord.Word(Num(w, x), |w|));
        assert EvalView(e, ViewIn(c, g, y)) == Some(RawWord.Word(Num(w, y), |w|));
        NumBit(w, x, k);
        NumBit(w, y, k);
      }
    }
  }

  /** Assignments that differ in one right variable give the left side the same view. */
  lemma SameLeftView(c: Context, l: Expr, g: Shape, i: nat, x: Assignment, y: Assignment)
    requires SideOk(c, l, true, g) && ContextOk(c, g) && i < |c.pool| && IsReadOf(c.pool[i].0, false)
    requires forall j: nat | j != i :: IsSet(x, j) == IsSet(y, j)
    ensures ViewIn(c, g, x) == ViewIn(c, g, y)
  {
    forall r | r in c.registers ensures Num(RegisterWord(c.pool, r), x) == Num(RegisterWord(c.pool, r), y) {
      forall k: nat | k < r.width ensures Slot(c.pool, RegisterBit(r, k)) != i {}
      assert Bits(RegisterWord(c.pool, r), x) == Bits(RegisterWord(c.pool, r), y);
    }
    SameRegisterValues(c.pool, c.registers, x, y);
    forall r | r in c.table ensures Num(r.value, x) == Num(r.value, y) {
      assert r.value == ReadWord(c.pool, r.readId, true, r.width);
      forall k: nat | k < r.width ensures Slot(c.pool, ReadBit(r.readId, true, k)) != i {}
      assert Bits(r.value, x) == Bits(r.value, y);
    }
    SameReadValues(c.table, x, y);
  }

  lemma {:induction false} SameRegisterValues(pool: Pool, registers: seq<Register>, x: Assignment, y: Assignment)
    requires forall r | r in registers :: r.width > 0 && Num(RegisterWord(pool, r), x) == Num(RegisterWord(pool, r), y)
    ensures RegistersAt(pool, registers, x) == RegistersAt(pool, registers, y)
  {
    if registers != [] { SameRegisterValues(pool, registers[..|registers| - 1], x, y); }
  }

  lemma {:induction false} SameReadValues(table: ReadTable, x: Assignment, y: Assignment)
    requires forall r | r in table :: r.width == |r.value| > 0 && Num(r.value, x) == Num(r.value, y)
    ensures ReadsAt(table, x) == ReadsAt(table, y)
  {
    if table != [] { SameReadValues(table[..|table| - 1], x, y); }
  }

  lemma LeftTableIgnoresRight(c: Context, l: Expr, g: Shape, i: nat)
    requires SideOk(c, l, true, g) && ContextOk(c, g) && AddressesDenoted(c, g)
    requires i < |c.pool| && IsReadOf(c.pool[i].0, false)
    ensures TableIgnores(c.table, i)
  {
    forall r | r in c.table ensures (r.lowered.Some? ==> WordIgnores(r.lowered.value, i)) && WordIgnores(r.value, i) {
      if r.lowered.Some? { LeftIgnoresRight(r.lowered.value, r.address, c, l, g, i); }
      SideIsContext(c, l, true, g);
      ReadDenotes(r.address, r, c, g);
      LeftIgnoresRight(r.value, ReadMemory(r.address, r.width), c, l, g, i);
    }
  }

  /** Freeing a right variable moves no other variable. */
  lemma ReleaseKeepsOthers(pool: Pool, i: nat)
    requires PoolOk(pool) && i < |pool| && IsReadOf(pool[i].0, false)
    ensures var next := pool[i := (Unallocated, pool[i].1)]; PoolOk(next) && KeepsOthers(pool, next, false)
  {
    var next := pool[i := (Unallocated, pool[i].1)];
    forall d: Description | d != Unallocated && !IsReadOf(d, false)
      ensures (InPool(next, d) <==> InPool(pool, d)) && (InPool(pool, d) ==> Slot(next, d) == Slot(pool, d))
    {
      if InPool(pool, d) {
        SlotExists(pool, d);
        assert next[Slot(pool, d)].0 == d;
        SlotIs(next, Slot(pool, d));
      }
      if InPool(next, d) {
        var j :| 0 <= j < |next| && next[j].0 == d;
        assert pool[j].0 == d;
      }
    }
  }

  lemma NewSide(c: Context, e: Expr, left: bool, g: Shape)
    requires SideOk(c, e, left, g) && forall r | r in c.table :: r.lowered.None?
    ensures SideKnown(c, e, None, left, g)
  {
    SideIsContext(c, e, left, g);
  }

  /** The variables and read tables of a new manager: the registers', the left side's, the right side's. */
  method SetUpBoth(leftExpr: Expr, rightExpr: Expr, registers: seq<Register>, ghost g: Shape)
    returns (pool: Pool, leftTable: ReadTable, rightTable: ReadTable)
    requires RegistersMatch(registers, g) && DistinctRegisters(registers)
    requires Comparable(leftExpr, g) && Comparable(rightExpr, g)
    ensures SideKnown(Context(pool, registers, leftTable), leftExpr, None, true, g)
    ensures SideKnown(Context(pool, registers, rightTable), rightExpr, None, false, g)
  {
    var base := RegisterVariables(registers);
    forall d | IsReadOf(d, true) ensures !InPool(base, d) {}
    var withLeft;
    withLeft, leftTable := SetUpSide(base, registers, leftExpr, true, g);
    NewSide(Context(withLeft, registers, leftTable), leftExpr, true, g);
    forall d | IsReadOf(d, false) ensures !InPool(withLeft, d) { assert InPool(withLeft, d) <==> InPool(base, d); }
    RegistersKept(base, withLeft, registers, true);
    pool, rightTable := SetUpSide(withLeft, registers, rightExpr, false, g);
    SideKept(Context(withLeft, registers, leftTable), leftExpr, None, true, g, pool);
    NewSide(Context(pool, registers, rightTable), rightExpr, false, g);
  }

  /** All registers and single bytes, not necessarily all of them, with values of the right width. */
  ghost predicate FitsShape(s: MachineState, g: Shape)
  {
    RegistersFit(s.registers, g) && forall k | k in s.memory :: ByteKey(k, g) && s.memory[k].width == 8
  }

  class BddManager {
    var variables: Pool
    var leftReads: ReadTable
    var rightReads: ReadTable
    var left: Option<BddWord>
    var right: Option<BddWord>
    var constraint: BddFn
    var leftExpr: Expr
    var rightExpr: Expr
    var registers: seq<Register>
    ghost const g: Shape

    function LeftContext(): Context
      reads this
    {
      Context(variables, registers, leftReads)
    }

    function RightContext(): Context
      reads this
    {
      Context(variables, registers, rightReads)
    }

    ghost predicate Valid()
      reads this
    {
      && SideKnown(LeftContext(), leftExpr, left, true, g)
      && SideKnown(RightContext(), rightExpr, right, false, g)
      && TypeOf(leftExpr, g) == TypeOf(rightExpr, g)
    }

    constructor (leftExpr: Expr, rightExpr: Expr, registers: seq<Register>, ghost g: Shape)
      requires RegistersMatch(registers, g) && DistinctRegisters(registers)
      requires Comparable(leftExpr, g) && Comparable(rightExpr, g) && TypeOf(leftExpr, g) == TypeOf(rightExpr, g)
      ensures Valid() && this.g == g
      ensures this.leftExpr == leftExpr && this.rightExpr == rightExpr && this.registers == registers
    {
      var pool, leftTable, rightTable := SetUpBoth(leftExpr, rightExpr, registers, g);
      this.variables, this.leftReads, this.rightReads := pool, leftTable, rightTable;
      this.left, this.right, this.constraint := None, None, ConstFn(true);
      this.leftExpr, this.rightExpr, this.registers, this.g := leftExpr, rightExpr, registers, g;
    }

    /** Bits of different live reads, of one side or of both, never share a variable, and a read nested
        in another read's address has the smaller identifier. */
    lemma LiveReadsAreApart(side: bool, r: MemoryRead, k: nat, otherSide: bool, q: MemoryRead, m: nat)
      requires Valid() && r in (if side then leftReads else rightReads)
               && q in (if otherSide then leftReads else rightReads)
      requires k < r.width && m < q.width && (side, r, k) != (otherSide, q, m)
      ensures |r.value| == r.width && |q.value| == q.width
      ensures exists i, j :: 0 <= i < |variables| && 0 <= j < |variables| && i != j
                             && r.value[k] == VariableFn(i) && q.value[m] == VariableFn(j)
      ensures side == otherSide && q.Key() in ReadsOf(r.address) ==> q.readId < r.readId
    {
      hide Denotes, Lowerable, TypeOf;
      var table, otherTable := if side then leftReads else rightReads, if otherSide then leftReads else rightReads;
      assert r.value == ReadWord(variables, r.readId, side, r.width)
             && q.value == ReadWord(variables, q.readId, otherSide, q.width);
      var d, e := ReadBit(r.readId, side, k), ReadBit(q.readId, otherSide, m);
      if d == e { SameRead(table, r, q); }
      SlotExists(variables, d);
      SlotExists(variables, e);
      var i, j := Slot(variables, d), Slot(variables, e);
      assert r.value[k] == VariableFn(i) && q.value[m] == VariableFn(j);
      if side == otherSide && q.Key() in ReadsOf(r.address) {
        var n :| 0 <= n < |table| && table[n] == r;
        var o :| 0 <= o < |table| && table[o].Key() == q.Key() && table[o].readId < table[n].readId;
        var p :| 0 <= p < |table| && table[p] == q;
        assert o == p;
      }
    }

    // ----- lowering -----

    /** Lowers the expressions that are not lowered yet. */
    method LowerLeftAndRight() returns (l: BddWord, r: BddWord)
      requires Valid()
      modifies this`left, this`right
      ensures Valid() && left == Some(l) && right == Some(r)
      ensures Denotes(l, leftExpr, LeftContext(), g) && Denotes(r, rightExpr, RightContext(), g) && |l| == |r|
    {
      if left.None? {
        var w := LowerExpression(leftExpr, LeftContext(), g);
        left := Some(w);
      }
      if right.None? {
        var w := LowerExpression(rightExpr, RightContext(), g);
        right := Some(w);
      }
      l, r := left.value, right.value;
    }

    /** Lowers the addresses of one side that are not lowered yet. */
    method LowerMemory(side: bool)
      requires Valid()
      modifies this`leftReads, this`rightReads
      ensures Valid() && AllLowered(if side then leftReads else rightReads)
      ensures if side then rightReads == old(rightReads) else leftReads == old(leftReads)
    {
      if side {
        leftReads := LowerAddresses(LeftContext(), leftExpr, true, g, left);
      } else {
        rightReads := LowerAddresses(RightContext(), rightExpr, false, g, right);
      }
    }

    method BuildMemoryConstraint()
      requires Valid() && AllLowered(leftReads) && AllLowered(rightReads)
      modifies this`constraint
      ensures Valid() && AllLowered(leftReads + rightReads) && Uniform(leftReads + rightReads, g.addressWidth)
      ensures forall a :: constraint(a) <==> ReadsAgree(leftReads + rightReads, a)
    {
      UniformReads();
      constraint := MemoryConstraint(leftReads + rightReads, g.addressWidth);
    }

    lemma UniformReads()
      requires Valid() && AllLowered(leftReads) && AllLowered(rightReads)
      ensures Uniform(leftReads + rightReads, g.addressWidth) && AllLowered(leftReads + rightReads)
    {
      SideIsContext(LeftContext(), leftExpr, true, g);
      SideIsContext(RightContext(), rightExpr, false, g);
      forall r | r in leftReads + rightReads
        ensures r.lowered.Some? && |r.lowered.value| == g.addressWidth && |r.value| == 8
      {
        assert ByteRead(r.Key(), g);
      }
    }

    // ----- comparison -----

    /** The machine state a cube stands for. */
    method CounterexampleState(cube: Cube) returns (s: MachineState)
      requires Valid() && AllLowered(leftReads + rightReads) && Uniform(leftReads + rightReads, g.addressWidth)
      requires ReadsAgree(leftReads + rightReads, CubeAssignment(cube))
      ensures Valid() && StateFor(s, LeftContext(), RightContext(), CubeAssignment(cube), g)
      ensures forall k | k in s.memory :: ByteKey(k, g) && s.memory[k].width == 8
    {
      var a := CubeAssignment(cube);
      var registerValues := ReadRegisters(LeftContext(), a, g);
      var memory := ReadMemories(leftReads + rightReads, a, g);
      s := MachineState(registerValues, memory);
    }

    /** Decides whether any machine state gives the two expressions different values. */
    method Compare(pick: CubePicker) returns (verdict: BddEquality)
      requires Valid() && GoodPicker(pick)
      modifies this
      ensures Valid() && leftExpr == old(leftExpr) && rightExpr == old(rightExpr) && registers == old(registers)
      ensures verdict.ExprsEqual? <==> Equivalent(leftExpr, rightExpr, g)
      ensures verdict.ExprsUnequal? ==> Separates(verdict.state, leftExpr, rightExpr) && FitsShape(verdict.state, g)
    {
      var l, r := LowerLeftAndRight();
      LowerMemory(true);
      LowerMemory(false);
      BuildMemoryConstraint();
      var difference := WordDifference(l, r);
      var counterexamples := AndFn(constraint, difference);
      var cube := pick(counterexamples);
      if cube.None? {
        verdict := ExprsEqual;
        forall a ensures ReadsAgree(leftReads + rightReads, a) ==> Num(l, a) == Num(r, a) {
          assert !counterexamples(a);
        }
        NoAssignmentNoState(l, r, LeftContext(), leftExpr, RightContext(), rightExpr, g);
      } else {
        ghost var a := CubeAssignment(cube.value);
        assert counterexamples(a);
        var s := CounterexampleState(cube.value);
        verdict := ExprsUnequal(s);
        Separation(s, l, r, a);
      }
    }

    /** The state of a satisfying assignment separates the expressions. */
    lemma Separation(s: MachineState, l: BddWord, r: BddWord, a: Assignment)
      requires Valid() && AllLowered(leftReads) && AllLowered(rightReads) && AllLowered(leftReads + rightReads)
      requires left == Some(l) && right == Some(r) && |l| == |r| && Num(l, a) != Num(r, a)
      requires StateFor(s, LeftContext(), RightContext(), a, g)
      requires forall k | k in s.memory :: ByteKey(k, g) && s.memory[k].width == 8
      ensures Separates(s, leftExpr, rightExpr) && FitsShape(s, g) && !Equivalent(leftExpr, rightExpr, g)
    {
      StateValue(s, l, LeftContext(), leftExpr, RightContext(), rightExpr, true, a, g);
      StateValue(s, r, LeftContext(), leftExpr, RightContext(), rightExpr, false, a, g);
      LowerableReadsBytes(leftExpr, g);
      LowerableReadsBytes(rightExpr, g);
      RegistersAtFit(variables, registers, a, g);
      SeparatedIsInequivalent(s, leftExpr, rightExpr, g);
    }

    // ----- replacing the right expression -----

    /** No live function depends on the variable. */
    ghost predicate Unused(i: nat)
      reads this
    {
      && (left.Some? ==> WordIgnores(left.value, i))
      && (right.Some? ==> WordIgnores(right.value, i))
      && Ignores(constraint, i)
      && TableIgnores(leftReads, i) && TableIgnores(rightReads, i)
      && forall j | 0 <= j < |variables| && j != i :: Ignores(variables[j].1, i)
    }

    /** Returns a variable to the pool; releasing one that is in use would be a failed assertion. */
    method ReleaseVariable(i: nat)
      requires i < |variables| && variables[i].0 != Unallocated && Unused(i)
      modifies this`variables
      ensures variables == old(variables)[i := (Unallocated, old(variables)[i].1)]
    {
      variables := variables[i := (Unallocated, variables[i].1)];
    }

    lemma RightVariableIsUnused(i: nat)
      requires SideKnown(LeftContext(), leftExpr, left, true, g)
      requires right.None? && rightReads == [] && constraint == ConstFn(true)
      requires i < |variables| && IsReadOf(variables[i].0, false)
      ensures Unused(i)
    {
      if left.Some? { LeftIgnoresRight(left.value, leftExpr, LeftContext(), leftExpr, g, i); }
      LeftTableIgnoresRight(LeftContext(), leftExpr, g, i);
      VariablesIgnore(variables, i);
    }

    /** Releases every variable of the right side. */
    method ReleaseRightVariables()
      requires SideKnown(LeftContext(), leftExpr, left, true, g)
      requires right.None? && rightReads == [] && constraint == ConstFn(true)
      modifies this`variables
      ensures SideKnown(LeftContext(), leftExpr, left, true, g)
      ensures forall d | IsReadOf(d, false) :: !InPool(variables, d)
    {
      for i := 0 to |variables|
        invariant |variables| == old(|variables|)
        invariant SideKnown(LeftContext(), leftExpr, left, true, g)
        invariant forall j | 0 <= j < i :: !IsReadOf(variables[j].0, false)
      {
        if variables[i].0.ReadBit? && !variables[i].0.left {
          ghost var before := LeftContext();
          RightVariableIsUnused(i);
          ReleaseKeepsOthers(variables, i);
          ReleaseVariable(i);
          SideKept(before, leftExpr, left, true, g, variables);
        }
      }
    }

    /** Puts another expression on the right; the left side and its lowered parts stay. */
    method ReplaceRightExpr(newExpr: Expr)
      requires Valid() && Comparable(newExpr, g) && TypeOf(newExpr, g) == TypeOf(leftExpr, g)
      modifies this
      ensures Valid() && rightExpr == newExpr
      ensures leftExpr == old(leftExpr) && left == old(left) && leftReads == old(leftReads)
              && registers == old(registers)
    {
      right, rightReads, constraint, rightExpr := None, [], ConstFn(true), newExpr;
      ReleaseRightVariables();
      ghost var before := LeftContext();
      variables, rightReads := SetUpSide(variables, registers, newExpr, false, g);
      SideKept(before, leftExpr, left, true, g, variables);
      SideIsContext(RightContext(), newExpr, false, g);
    }
  }

  /** Whatever a manager has compared and replaced before, its next verdict is that of a fresh manager
      for the same two expressions. */
  method CompareIsHistoryIndependent(used: BddManager, pick: CubePicker, otherPick: CubePicker)
    returns (verdict: BddEquality, first: BddEquality)
    requires used.Valid() && DistinctRegisters(used.registers) && GoodPicker(pick) && GoodPicker(otherPick)
    modifies used
    ensures verdict.ExprsEqual? <==> first.ExprsEqual?
  {
    var manager := new BddManager(used.leftExpr, used.rightExpr, used.registers, used.g);
    first := manager.Compare(otherPick);
    verdict := used.Compare(pick);
  }
}
