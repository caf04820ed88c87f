/** Reading a satisfying assignment back as a machine state. */
module BddCounterexample {
  import opened Words
  import opened WordLaws
  import opened Exprs
  import opened Typing
  import opened BddWords
  import opened ReadViews
  import opened VariablePool
  import opened BddLowering
  import opened BddEquivalence
  import opened BddSides

  /** A partial assignment; unset variables are read as false. */
  type Cube = seq<Option<bool>>

  function CubeAssignment(cube: Cube): Assignment
  {
    seq(|cube|, i requires 0 <= i < |cube| => cube[i] == Some(true))
  }

  // ----- registers -----

  /** The register word as far as the variables before position `p` go. */
  ghost predicate BitsBefore(w: Word, r: Register, pool: Pool, a: Assignment, p: nat)
  {
    && w.width == r.width
    && forall k: nat | k < r.width ::
         Bit(w.value, k) == (Slot(pool, RegisterBit(r, k)) < p && IsSet(a, Slot(pool, RegisterBit(r, k))))
  }

  ghost predicate RegistersBefore(m: map<nat, Word>, registers: seq<Register>, pool: Pool, a: Assignment, p: nat)
  {
    && (forall id | id in m :: exists r :: r in registers && r.identifier == id)
    && (forall r | r in registers && r.identifier in m :: BitsBefore(m[r.identifier], r, pool, a, p))
    && (forall r, k: nat | r in registers && k < r.width && Slot(pool, RegisterBit(r, k)) < p :: r.identifier in m)
  }

  /** Sets one bit of a word. */
  function WithBit(w: Word, k: nat): Word
  {
    Word(Bitwise(LogicOr, w.value, Pow2(k), w.width), w.width)
  }

  lemma WithBitBits(w: Word, k: nat, i: nat)
    requires i < w.width
    ensures Bit(WithBit(w, k).value, i) == (Bit(w.value, i) || i == k)
  {
    BitwiseBit(LogicOr, w.value, Pow2(k), w.width, i);
    PowerBit(k, i);
  }

  lemma ZeroWordBits(r: Register, pool: Pool, a: Assignment, p: nat)
    requires r.width > 0 && forall k: nat | k < r.width :: Slot(pool, RegisterBit(r, k)) >= p
    ensures BitsBefore(RawWord.Word(0, r.width), r, pool, a, p)
  {
    ZeroBits(r.width);
  }

  lemma SetRegisterBit(w: Word, r: Register, k: nat, pool: Pool, a: Assignment, p: nat, next: Word)
    requires BitsBefore(w, r, pool, a, p) && PoolOk(pool) && p < |pool| && pool[p].0 == RegisterBit(r, k) && k < r.width
    requires next == if IsSet(a, p) then WithBit(w, k) else w
    ensures BitsBefore(next, r, pool, a, p + 1)
  {
    SlotIs(pool, p);
    forall i: nat | i < r.width
      ensures Bit(next.value, i) == (Slot(pool, RegisterBit(r, i)) < p + 1 && IsSet(a, Slot(pool, RegisterBit(r, i))))
    {
      WithBitBits(w, k, i);
      if i != k && Slot(pool, RegisterBit(r, i)) == p { assert pool[p].0 == RegisterBit(r, i); }
    }
  }

  /** One register variable: enters its register if it is new and sets its bit if the cube does. */
  method ReadRegisterBit(
    m: map<nat, Word>, c: Context, a: Assignment, p: nat, ghost g: Shape) returns (next: map<nat, Word>)
    requires ContextOk(c, g) && p < |c.pool| && c.pool[p].0.RegisterBit?
    requires RegistersBefore(m, c.registers, c.pool, a, p)
    ensures RegistersBefore(next, c.registers, c.pool, a, p + 1)
  {
    var RegisterBit(register, bit) := c.pool[p].0;
    var id := register.identifier;
    SlotIs(c.pool, p);
    if id !in m {
      ZeroWordBits(register, c.pool, a, p);
    }
    var entry: Word := if id in m then m[id] else RawWord.Word(0, register.width);
    var updated: Word := if IsSet(a, p) then WithBit(entry, bit) else entry;
    next := m[id := updated];
    SetRegisterBit(entry, register, bit, c.pool, a, p, updated);
    forall r | r in c.registers && r.identifier in next ensures BitsBefore(next[r.identifier], r, c.pool, a, p + 1) {
      if r.identifier == id {
        SameIdentifier(c.registers, g, r, register);
      } else {
        OtherBit(m[r.identifier], r, c.pool, a, p);
      }
    }
    forall r, k: nat | r in c.registers && k < r.width && Slot(c.pool, RegisterBit(r, k)) < p + 1
      ensures r.identifier in next
    {
      if Slot(c.pool, RegisterBit(r, k)) == p { assert c.pool[p].0 == RegisterBit(r, k); }
    }
  }

  /** A variable of something else leaves a register as it is. */
  lemma OtherBit(w: Word, r: Register, pool: Pool, a: Assignment, p: nat)
    requires BitsBefore(w, r, pool, a, p) && p < |pool|
    requires !(pool[p].0.RegisterBit? && pool[p].0.register == r)
    ensures BitsBefore(w, r, pool, a, p + 1)
  {
    forall k: nat | k < r.width ensures Slot(pool, RegisterBit(r, k)) != p {}
  }

  method ReadRegisters(c: Context, a: Assignment, ghost g: Shape) returns (m: map<nat, Word>)
    requires ContextOk(c, g)
    ensures m == RegistersAt(c.pool, c.registers, a)
  {
    m := map[];
    for p := 0 to |c.pool|
      invariant RegistersBefore(m, c.registers, c.pool, a, p)
    {
      if c.pool[p].0.RegisterBit? {
        m := ReadRegisterBit(m, c, a, p, g);
      } else {
        forall r | r in c.registers && r.identifier in m ensures BitsBefore(m[r.identifier], r, c.pool, a, p + 1) {
          OtherBit(m[r.identifier], r, c.pool, a, p);
        }
        forall r, k: nat | r in c.registers && k < r.width ensures Slot(c.pool, RegisterBit(r, k)) != p {}
      }
    }
    AllRegistersRead(m, c, a, g);
  }

  lemma AllRegistersRead(m: map<nat, Word>, c: Context, a: Assignment, g: Shape)
    requires ContextOk(c, g) && RegistersBefore(m, c.registers, c.pool, a, |c.pool|)
    ensures m == RegistersAt(c.pool, c.registers, a)
  {
    var n := RegistersAt(c.pool, c.registers, a);
    RegistersAtFit(c.pool, c.registers, a, g);
    forall r | r in c.registers ensures r.identifier in m && m[r.identifier] == n[r.identifier] {
      OneRegisterRead(m, c, a, g, r);
    }
    RegistersAtHas(c.pool, c.registers, a);
    SameRegisterMaps(m, n, c.registers);
  }

  lemma SameRegisterMaps(m: map<nat, Word>, n: map<nat, Word>, registers: seq<Register>)
    requires forall r | r in registers :: r.identifier in m && r.identifier in n && m[r.identifier] == n[r.identifier]
    requires forall id | id in m :: exists r :: r in registers && r.identifier == id
    requires forall id | id in n :: exists r :: r in registers && r.identifier == id
    ensures m == n
  {
    forall id | id in m ensures id in n && m[id] == n[id] { var r :| r in registers && r.identifier == id; }
    forall id | id in n ensures id in m { var r :| r in registers && r.identifier == id; }
  }

  lemma OneRegisterRead(m: map<nat, Word>, c: Context, a: Assignment, g: Shape, r: Register)
    requires ContextOk(c, g) && RegistersBefore(m, c.registers, c.pool, a, |c.pool|) && r in c.registers
    ensures r.identifier in m && m[r.identifier] == RawWord.Word(Num(RegisterWord(c.pool, r), a), r.width)
  {
    assert InPool(c.pool, RegisterBit(r, 0));
    SlotExists(c.pool, RegisterBit(r, 0));
    WholeRegister(m[r.identifier], r, c.pool, a);
  }

  lemma WholeRegister(w: Word, r: Register, pool: Pool, a: Assignment)
    requires BitsBefore(w, r, pool, a, |pool|)
    requires forall k: nat | k < r.width :: InPool(pool, RegisterBit(r, k))
    ensures w == RawWord.Word(Num(RegisterWord(pool, r), a), r.width)
  {
    forall k: nat | k < r.width ensures RegisterWord(pool, r)[k](a) == Bit(w.value, k) {
      SlotExists(pool, RegisterBit(r, k));
    }
    NumFromBits(RegisterWord(pool, r), a, w.value);
  }

  // ----- memory -----

  /** Writes the value of every read at the address the assignment gives it, in table order. */
  method ReadMemories(all: ReadTable, a: Assignment, ghost g: Shape) returns (memory: map<(nat, nat), Word>)
    requires AllLowered(all) && Uniform(all, g.addressWidth) && ReadsAgree(all, a)
    ensures MemoryFor(memory, all, a)
    ensures forall k | k in memory :: ByteKey(k, g) && memory[k].width == 8
  {
    memory := map[];
    for i := 0 to |all|
      invariant forall j | 0 <= j < i :: HoldsRead(memory, all[j], a)
      invariant forall k | k in memory :: ByteKey(k, g) && memory[k].width == 8
    {
      assert all[i] in all;
      var address, value := Num(all[i].lowered.value, a), Num(all[i].value, a);
      memory := memory[(address, 8) := RawWord.Word(value, 8)];
      forall j | 0 <= j < i ensures HoldsRead(memory, all[j], a) { assert PairAgrees(all[i], all[j], a); }
    }
  }
}
