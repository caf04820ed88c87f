/** How the two sides of a comparison are set up, lowered, kept and read back. */
module BddSides {
  import opened Words
  import opened WordLaws
  import opened Exprs
  import opened Typing
  import opened BddWords
  import opened Circuits
  import opened ReadViews
  import opened VariablePool
  import opened ReadCollection
  import opened ReadAllocation
  import opened BddLowering
  import opened BddEquivalence

  // ----- register variables -----

  function MaxWidth(registers: seq<Register>): (w: nat)
    ensures forall r | r in registers :: r.width <= w
  {
    if registers == [] then 0 else Max(MaxWidth(registers[..|registers| - 1]), registers[|registers| - 1].width)
  }

  /** Whether a bit comes before position `j` of round `bit`, going bit by bit over all registers. */
  predicate BeforeRound(registers: seq<Register>, i: nat, k: nat, bit: nat, j: nat)
    requires i < |registers|
  {
    k < registers[i].width && (k < bit || (k == bit && i < j))
  }

  /** The variables made so far: exactly the bits before the given round and position, in positions of their own. */
  ghost predicate RegistersUpTo(pool: Pool, registers: seq<Register>, bit: nat, j: nat)
  {
    && PoolOk(pool)
    && (forall p | 0 <= p < |pool| :: BitListed(pool[p].0, registers, bit, j))
    && (forall i, k: nat | 0 <= i < |registers| && BeforeRound(registers, i, k, bit, j) ::
          InPool(pool, RegisterBit(registers[i], k)))
  }

  ghost predicate BitListed(d: Description, registers: seq<Register>, bit: nat, j: nat)
  {
    d.RegisterBit?
    && exists i :: 0 <= i < |registers| && d.register == registers[i] && BeforeRound(registers, i, d.bit, bit, j)
  }

  ghost predicate DistinctRegisters(registers: seq<Register>)
  {
    forall i, j | 0 <= i < j < |registers| :: registers[i] != registers[j]
  }

  lemma PushRegisterBit(pool: Pool, registers: seq<Register>, bit: nat, j: nat)
    requires DistinctRegisters(registers) && j < |registers| && bit < registers[j].width
    requires RegistersUpTo(pool, registers, bit, j)
    ensures RegistersUpTo(pool + [(RegisterBit(registers[j], bit), VariableFn(|pool|))], registers, bit, j + 1)
  {
    var d := RegisterBit(registers[j], bit);
    var next := pool + [(d, VariableFn(|pool|))];
    forall p | 0 <= p < |pool| ensures pool[p].0 != d {
      assert BitListed(pool[p].0, registers, bit, j);
      var i :| 0 <= i < |registers| && pool[p].0.register == registers[i]
               && BeforeRound(registers, i, pool[p].0.bit, bit, j);
      if pool[p].0.bit == bit { assert registers[i] != registers[j]; }
    }
    forall p | 0 <= p < |next| ensures BitListed(next[p].0, registers, bit, j + 1) {
      if p < |pool| {
        assert BitListed(pool[p].0, registers, bit, j);
        var i :| 0 <= i < |registers| && pool[p].0.register == registers[i]
                 && BeforeRound(registers, i, pool[p].0.bit, bit, j);
        assert BeforeRound(registers, i, next[p].0.bit, bit, j + 1);
      } else {
        assert BeforeRound(registers, j, next[p].0.bit, bit, j + 1);
      }
    }
    forall i, k: nat | 0 <= i < |registers| && BeforeRound(registers, i, k, bit, j + 1)
      ensures InPool(next, RegisterBit(registers[i], k))
    {
      if BeforeRound(registers, i, k, bit, j) {
        assert InPool(pool, RegisterBit(registers[i], k));
        var p :| 0 <= p < |pool| && pool[p].0 == RegisterBit(registers[i], k);
        assert next[p].0 == RegisterBit(registers[i], k);
      } else {
        assert next[|pool|].0 == RegisterBit(registers[i], k);
      }
    }
  }

  lemma NextRound(pool: Pool, registers: seq<Register>, bit: nat)
    requires RegistersUpTo(pool, registers, bit, |registers|)
    ensures RegistersUpTo(pool, registers, bit + 1, 0)
  {
    var round := bit + 1;
    forall p | 0 <= p < |pool| ensures BitListed(pool[p].0, registers, round, 0) {
      assert BitListed(pool[p].0, registers, bit, |registers|);
      var i :| 0 <= i < |registers| && pool[p].0.register == registers[i]
                && BeforeRound(registers, i, pool[p].0.bit, bit, |registers|);
      assert BeforeRound(registers, i, pool[p].0.bit, round, 0);
    }
    forall i, k: nat | 0 <= i < |registers| && BeforeRound(registers, i, k, round, 0)
      ensures InPool(pool, RegisterBit(registers[i], k))
    {
      assert BeforeRound(registers, i, k, bit, |registers|);
    }
    assert RegistersUpTo(pool, registers, round, 0);
  }

  lemma SkipRegister(pool: Pool, registers: seq<Register>, bit: nat, j: nat)
    requires j < |registers| && registers[j].width <= bit && RegistersUpTo(pool, registers, bit, j)
    ensures RegistersUpTo(pool, registers, bit, j + 1)
  {
    forall p | 0 <= p < |pool| ensures BitListed(pool[p].0, registers, bit, j + 1) {
      assert BitListed(pool[p].0, registers, bit, j);
      var i :| 0 <= i < |registers| && pool[p].0.register == registers[i]
               && BeforeRound(registers, i, pool[p].0.bit, bit, j);
      assert BeforeRound(registers, i, pool[p].0.bit, bit, j + 1);
    }
    forall i, k: nat | 0 <= i < |registers| && BeforeRound(registers, i, k, bit, j + 1)
      ensures InPool(pool, RegisterBit(registers[i], k))
    {
      assert BeforeRound(registers, i, k, bit, j);
    }
  }

  /** Interleaves the register variables bit by bit. */
  method RegisterVariables(registers: seq<Register>) returns (pool: Pool)
    requires DistinctRegisters(registers)
    ensures PoolOk(pool) && RegistersPooled(pool, registers)
    ensures forall p | 0 <= p < |pool| :: pool[p].0.RegisterBit?
  {
    pool := [];
    var widest := MaxWidth(registers);
    for bit := 0 to widest
      invariant RegistersUpTo(pool, registers, bit, 0)
    {
      for j := 0 to |registers|
        invariant RegistersUpTo(pool, registers, bit, j)
      {
        if registers[j].width <= bit {
          SkipRegister(pool, registers, bit, j);
          continue;
        }
        PushRegisterBit(pool, registers, bit, j);
        pool := pool + [(RegisterBit(registers[j], bit), VariableFn(|pool|))];
      }
      NextRound(pool, registers, bit);
    }
    assert forall p | 0 <= p < |pool| :: BitListed(pool[p].0, registers, widest, 0);
    forall r, k: nat | r in registers && k < r.width ensures InPool(pool, RegisterBit(r, k)) {
      var i :| 0 <= i < |registers| && registers[i] == r;
      assert BeforeRound(registers, i, k, widest, 0);
    }
  }

  // ----- setting up a side -----

  lemma RegistersKept(pool: Pool, next: Pool, registers: seq<Register>, left: bool)
    requires PoolOk(next) && RegistersPooled(pool, registers) && KeepsOthers(pool, next, left)
    ensures RegistersPooled(next, registers)
    ensures forall r | r in registers :: RegisterWord(next, r) == RegisterWord(pool, r)
  {
    forall i | 0 <= i < |next| && next[i].0.RegisterBit?
      ensures next[i].0.register in registers && next[i].0.bit < next[i].0.register.width
    {
      assert InPool(next, next[i].0) && InPool(pool, next[i].0);
      var j :| 0 <= j < |pool| && pool[j].0 == next[i].0;
    }
    forall r | r in registers ensures RegisterWord(next, r) == RegisterWord(pool, r) {
      forall k: nat | k < r.width ensures RegisterWord(next, r)[k] == RegisterWord(pool, r)[k] {
        assert InPool(pool, RegisterBit(r, k));
      }
    }
  }

  method SetUpSide(startPool: Pool, registers: seq<Register>, e: Expr, left: bool, ghost g: Shape)
    returns (pool: Pool, table: ReadTable)
    requires PoolOk(startPool) && RegistersMatch(registers, g) && RegistersPooled(startPool, registers)
             && Comparable(e, g)
    requires forall d | IsReadOf(d, left) :: !InPool(startPool, d)
    ensures KeepsOthers(startPool, pool, left) && SideOk(Context(pool, registers, table), e, left, g)
    ensures forall r | r in table :: r.lowered.None?
  {
    CollectMeaning(e, 0, []);
    var start := Collect(e, 0, []);
    assert Keys([]) == {};
    pool, table := AllocateReads(startPool, start, left);
    FinishedIsOk(pool, start, table, e, left);
    RegistersKept(startPool, pool, registers, left);
    forall r | r in table ensures r.lowered.None? {
      var i :| 0 <= i < |table| && table[i] == r;
      assert start[i] in start && table[i].lowered == start[i].lowered;
    }
  }

  // ----- keeping a side while the other changes -----

  /** Everything known of a side whose words and addresses may be lowered already. */
  ghost predicate SideKnown(c: Context, e: Expr, w: Option<BddWord>, left: bool, g: Shape)
  {
    && SideOk(c, e, left, g) && ContextOk(c, g) && AddressesDenoted(c, g)
    && (w.Some? ==> Denotes(w.value, e, c, g))
  }

  lemma {:induction false} SameRegistersAt(pool: Pool, next: Pool, registers: seq<Register>, a: Assignment)
    requires forall r | r in registers :: r.width > 0 && RegisterWord(next, r) == RegisterWord(pool, r)
    ensures RegistersAt(next, registers, a) == RegistersAt(pool, registers, a)
  {
    if registers != [] { SameRegistersAt(pool, next, registers[..|registers| - 1], a); }
  }

  /** A side survives any change of the pool that leaves its own variables in place. */
  lemma SideKept(c: Context, e: Expr, w: Option<BddWord>, left: bool, g: Shape, next: Pool)
    requires SideKnown(c, e, w, left, g) && PoolOk(next) && KeepsOthers(c.pool, next, !left)
    ensures SideKnown(c.(pool := next), e, w, left, g)
  {
    var d := c.(pool := next);
    RegistersKept(c.pool, next, c.registers, !left);
    TableKept(c.pool, next, c.table, left);
    forall a ensures ViewIn(d, g, a) == ViewIn(c, g, a) { SameRegistersAt(c.pool, next, c.registers, a); }
    if w.Some? { ViewsDenote(w.value, e, c, d, g); }
    forall r | r in d.table && r.lowered.Some? ensures Denotes(r.lowered.value, r.address, d, g) {
      ViewsDenote(r.lowered.value, r.address, c, d, g);
    }
  }

  lemma ViewsDenote(w: BddWord, e: Expr, c: Context, d: Context, g: Shape)
    requires ContextOk(c, g) && ContextOk(d, g) && Denotes(w, e, c, g)
    requires forall a :: ViewIn(d, g, a) == ViewIn(c, g, a)
    ensures Denotes(w, e, d, g)
  {
    forall a ensures EvalView(e, ViewIn(d, g, a)) == Some(RawWord.Word(Num(w, a), |w|)) {
      assert EvalView(e, ViewIn(c, g, a)) == Some(RawWord.Word(Num(w, a), |w|));
    }
  }

  lemma TableKept(pool: Pool, next: Pool, table: ReadTable, left: bool)
    requires PoolOk(next) && TablePooled(pool, table, left) && KeepsOthers(pool, next, !left)
    ensures TablePooled(next, table, left)
  {
    forall r | r in table ensures r.value == ReadWord(next, r.readId, left, r.width) {
      forall k: nat | k < r.width
        ensures ReadWord(pool, r.readId, left, r.width)[k] == ReadWord(next, r.readId, left, r.width)[k]
      {
        assert InPool(pool, ReadBit(r.readId, left, k));
      }
    }
    forall i | 0 <= i < |next| && next[i].0.ReadBit? && next[i].0.left == left
      ensures exists r :: r in table && r.readId == next[i].0.readId && next[i].0.bit < r.width
    {
      assert InPool(next, next[i].0) && InPool(pool, next[i].0);
      var j :| 0 <= j < |pool| && pool[j].0 == next[i].0;
    }
  }

  // ----- lowering addresses -----

  /** Lowers every address that is not lowered yet. */
  method LowerAddresses(
    c: Context, e: Expr, left: bool, ghost g: Shape, ghost w: Option<BddWord>) returns (table: ReadTable)
    requires SideKnown(c, e, w, left, g)
    ensures SameValues(c.table, table) && AllLowered(table)
    ensures SideKnown(c.(table := table), e, w, left, g)
  {
    table := c.table;
    SideIsContext(c, e, left, g);
    for i := 0 to |c.table|
      invariant SameValues(c.table, table)
      invariant forall j | 0 <= j < |table| && table[j].lowered.Some? ::
                  Denotes(table[j].lowered.value, table[j].address, c, g)
      invariant forall j | 0 <= j < i :: table[j].lowered.Some?
    {
      if table[i].lowered.Some? {
        continue;
      }
      assert c.table[i] in c.table && ByteRead(c.table[i].Key(), g) && table[i].Key() == c.table[i].Key();
      var lowered := LowerExpression(table[i].address, c, g);
      table := table[i := table[i].(lowered := Some(lowered))];
    }
    RetabledSide(c, e, w, left, g, table);
  }

  lemma RetabledSide(c: Context, e: Expr, w: Option<BddWord>, left: bool, g: Shape, table: ReadTable)
    requires SideKnown(c, e, w, left, g) && SameValues(c.table, table)
    requires forall j | 0 <= j < |table| && table[j].lowered.Some? ::
               Denotes(table[j].lowered.value, table[j].address, c, g)
    ensures SideKnown(c.(table := table), e, w, left, g)
  {
    var d := c.(table := table);
    SameReadsAt(c.table, table, []);
    RetabledIsOk(c.table, table, e);
    RetabledIsPooled(c.pool, c.table, table, left);
    if w.Some? { SameDenotes(w.value, e, c, table, g); }
    forall r | r in d.table && r.lowered.Some? ensures Denotes(r.lowered.value, r.address, d, g) {
      var j :| 0 <= j < |table| && table[j] == r;
      SameDenotes(r.lowered.value, r.address, c, table, g);
    }
  }

  lemma RetabledIsOk(table: ReadTable, other: ReadTable, e: Expr)
    requires TableOk(table, e) && SameValues(table, other)
    ensures TableOk(other, e)
  {
    forall i, j | 0 <= i < j < |other| ensures other[i].Key() != other[j].Key() {
      assert table[i].Key() != table[j].Key();
    }
    forall k ensures k in Keys(other) <==> k in Keys(table) {
      if k in Keys(table) { var i :| 0 <= i < |table| && table[i].Key() == k; assert other[i].Key() == k; }
      if k in Keys(other) { var i :| 0 <= i < |other| && other[i].Key() == k; assert table[i].Key() == k; }
    }
    assert Keys(other) == Keys(table);
    forall i | 0 <= i < |other| ensures ReadsOf(other[i].address) <= Keys(other) {
      assert other[i].Key() == table[i].Key();
    }
    forall i, k | 0 <= i < |other| && k in ReadsOf(other[i].address)
      ensures exists j :: 0 <= j < |other| && other[j].Key() == k && other[j].readId < other[i].readId
    {
      assert other[i].Key() == table[i].Key();
      var j :| 0 <= j < |table| && table[j].Key() == k && table[j].readId < table[i].readId;
      assert other[j].Key() == k;
    }
  }

  lemma RetabledIsPooled(pool: Pool, table: ReadTable, other: ReadTable, left: bool)
    requires TablePooled(pool, table, left) && SameValues(table, other)
    ensures TablePooled(pool, other, left)
  {
    forall r | r in other
      ensures r.value == ReadWord(pool, r.readId, left, r.width)
      ensures forall k: nat | k < r.width :: InPool(pool, ReadBit(r.readId, left, k))
    {
      var i :| 0 <= i < |other| && other[i] == r;
      assert table[i] in table && other[i].Key() == table[i].Key();
    }
    forall i | 0 <= i < |pool| && pool[i].0.ReadBit? && pool[i].0.left == left
      ensures exists r :: r in other && r.readId == pool[i].0.readId && pool[i].0.bit < r.width
    {
      var r :| r in table && r.readId == pool[i].0.readId && pool[i].0.bit < r.width;
      var j :| 0 <= j < |table| && table[j] == r;
      assert other[j] in other && other[j].Key() == table[j].Key();
    }
  }

  // ----- the constraint and the difference -----

  /** Addresses of one width and values of one byte, so that comparing bits compares numbers. */
  ghost predicate Uniform(all: ReadTable, addressWidth: nat)
  {
    forall r | r in all :: r.lowered.Some? && |r.lowered.value| == addressWidth && |r.value| == 8
  }

  method PairFn(r: MemoryRead, q: MemoryRead) returns (f: BddFn)
    requires r.lowered.Some? && q.lowered.Some? && |r.lowered.value| == |q.lowered.value| && |r.value| == |q.value|
    ensures forall a :: f(a) <==> PairAgrees(r, q, a)
  {
    var addressesEqual := EqualFn(r.lowered.value, q.lowered.value);
    var valuesEqual := EqualFn(r.value, q.value);
    f := OrFn(NotFn(addressesEqual), valuesEqual);
  }

  /** The pairs compared so far: all of row `k` and below, and of row `k` those before column `m`. */
  ghost predicate AgreeUpTo(all: ReadTable, k: nat, m: nat, a: Assignment)
    requires AllLowered(all)
  {
    forall i, j | 0 <= j < i < |all| && (i < k || (i == k && j < m)) :: PairAgrees(all[i], all[j], a)
  }

  method MemoryConstraint(all: ReadTable, ghost addressWidth: nat) returns (constraint: BddFn)
    requires Uniform(all, addressWidth) && AllLowered(all)
    ensures forall a :: constraint(a) <==> ReadsAgree(all, a)
  {
    constraint := ConstFn(true);
    for i := 0 to |all|
      invariant forall a :: constraint(a) <==> AgreeUpTo(all, i, 0, a)
    {
      for j := 0 to i
        invariant forall a :: constraint(a) <==> AgreeUpTo(all, i, j, a)
      {
        assert all[i] in all && all[j] in all;
        var implication := PairFn(all[i], all[j]);
        constraint := AndFn(constraint, implication);
      }
    }
  }

  method WordDifference(l: BddWord, r: BddWord) returns (different: BddFn)
    requires |l| == |r|
    ensures forall a :: different(a) <==> Num(l, a) != Num(r, a)
  {
    different := ConstFn(false);
    for i := 0 to |l|
      invariant forall a :: different(a) <==> exists j :: 0 <= j < i && l[j](a) != r[j](a)
    {
      different := OrFn(different, XorFn(l[i], r[i]));
    }
    forall a ensures different(a) <==> Num(l, a) != Num(r, a) { SameNumber(l, r, a); }
  }
}
