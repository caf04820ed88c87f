/** The pool of Boolean variables and the tables of memory reads built over it. */
module VariablePool {
  import opened Words
  import opened WordLaws
  import opened Exprs
  import opened Typing
  import opened BddWords
  import opened ReadViews

  datatype Register = Register(identifier: nat, identifierWidth: nat, width: nat)

  datatype Description =
    | Unallocated
    | RegisterBit(register: Register, bit: nat)
    | ReadBit(readId: nat, left: bool, bit: nat)

  type Pool = seq<(Description, BddFn)>

  // ----- slots -----

  predicate InPool(pool: Pool, d: Description)
  {
    exists i :: 0 <= i < |pool| && pool[i].0 == d
  }

  /** The position of the first variable with the description, or the pool's size. */
  function Slot(pool: Pool, d: Description): (i: nat)
    ensures i <= |pool|
    ensures i < |pool| ==> pool[i].0 == d
    ensures forall j | 0 <= j < i :: pool[j].0 != d
  {
    if pool == [] then 0
    else if pool[0].0 == d then 0
    else 1 + Slot(pool[1..], d)
  }

  /** Position `i` holds variable `i`, and no two positions are allocated to the same bit. */
  ghost predicate PoolOk(pool: Pool)
  {
    && (forall i | 0 <= i < |pool| :: pool[i].1 == VariableFn(i))
    && (forall i, j | 0 <= i < j < |pool| :: pool[i].0 == pool[j].0 ==> pool[i].0 == Unallocated)
  }

  lemma SlotIs(pool: Pool, i: nat)
    requires PoolOk(pool) && i < |pool| && pool[i].0 != Unallocated
    ensures Slot(pool, pool[i].0) == i
  {
  }

  lemma SlotExists(pool: Pool, d: Description)
    ensures Slot(pool, d) < |pool| <==> InPool(pool, d)
  {
  }

  /** `next` is the pool with one free position, or a new one at the end, given to `d`. */
  ghost predicate Allocated(pool: Pool, next: Pool, d: Description)
  {
    && |pool| <= |next| <= |pool| + 1
    && Slot(next, d) < |next|
    && (forall i | 0 <= i < |pool| && i != Slot(next, d) :: next[i] == pool[i])
    && (Slot(next, d) < |pool| ==> pool[Slot(next, d)].0 == Unallocated)
    && (|next| == |pool| + 1 ==> Slot(next, d) == |pool|)
  }

  method NewVariable(pool: Pool, d: Description) returns (next: Pool, f: BddFn)
    requires PoolOk(pool) && d != Unallocated && !InPool(pool, d)
    ensures PoolOk(next) && Allocated(pool, next, d) && f == VariableFn(Slot(next, d))
  {
    for i := 0 to |pool|
      invariant forall j | 0 <= j < i :: pool[j].0 != Unallocated
    {
      if pool[i].0 == Unallocated {
        f := pool[i].1;
        next := pool[i := (d, f)];
        SlotIs(next, i);
        return;
      }
    }
    f := VariableFn(|pool|);
    next := pool + [(d, f)];
    SlotIs(next, |pool|);
  }

  /** Allocation moves no other variable and brings in no other description. */
  lemma AllocatedKeeps(pool: Pool, next: Pool, d: Description, other: Description)
    requires PoolOk(pool) && PoolOk(next) && Allocated(pool, next, d) && other != d && other != Unallocated
    ensures InPool(next, other) <==> InPool(pool, other)
    ensures InPool(pool, other) ==> Slot(next, other) == Slot(pool, other)
  {
    SlotExists(pool, other);
    SlotExists(next, other);
    if InPool(pool, other) {
      var i := Slot(pool, other);
      assert next[i] == pool[i];
      SlotIs(next, i);
    }
  }

  // ----- words made of variables -----

  function RegisterWord(pool: Pool, r: Register): (w: BddWord)
    ensures |w| == r.width
  {
    seq(r.width, k requires 0 <= k < r.width => VariableFn(Slot(pool, RegisterBit(r, k))))
  }

  function ReadWord(pool: Pool, id: nat, left: bool, width: nat): (w: BddWord)
    ensures |w| == width
  {
    seq(width, k requires 0 <= k < width => VariableFn(Slot(pool, ReadBit(id, left, k))))
  }

  // ----- the register file -----

  /** The registers are those of the shape, with dense one-width identifiers. */
  ghost predicate RegistersMatch(registers: seq<Register>, g: Shape)
  {
    && g.identifierWidth > 0
    && (forall r | r in registers ::
          && r.identifierWidth == g.identifierWidth && r.identifier < Pow2(r.identifierWidth) && r.width > 0
          && r.identifier in g.registers && g.registers[r.identifier] == r.width)
    && (forall id | id in g.registers :: exists r :: r in registers && r.identifier == id)
  }

  /** Registers are determined by their identifiers. */
  lemma SameIdentifier(registers: seq<Register>, g: Shape, r: Register, q: Register)
    requires RegistersMatch(registers, g) && r in registers && q in registers && r.identifier == q.identifier
    ensures r == q
  {
  }

  /** Every register bit, and nothing else of that kind, has a variable. */
  ghost predicate RegistersPooled(pool: Pool, registers: seq<Register>)
  {
    && (forall r, k: nat | r in registers && k < r.width :: InPool(pool, RegisterBit(r, k)))
    && (forall i | 0 <= i < |pool| && pool[i].0.RegisterBit? ::
          pool[i].0.register in registers && pool[i].0.bit < pool[i].0.register.width)
  }

  /** The register values an assignment stands for. */
  ghost function RegistersAt(pool: Pool, registers: seq<Register>, a: Assignment): (m: map<nat, Word>)
    requires forall r | r in registers :: r.width > 0
  {
    if registers == [] then map[]
    else
      var r := registers[|registers| - 1];
      var earlier := RegistersAt(pool, registers[..|registers| - 1], a);
      earlier[r.identifier := RawWord.Word(Num(RegisterWord(pool, r), a), r.width)]
  }

  lemma {:induction false} RegistersAtHas(pool: Pool, registers: seq<Register>, a: Assignment)
    requires forall r | r in registers :: r.width > 0
    requires forall r, q | r in registers && q in registers && r.identifier == q.identifier :: r == q
    ensures var m := RegistersAt(pool, registers, a);
      && (forall r | r in registers ::
            r.identifier in m && m[r.identifier] == RawWord.Word(Num(RegisterWord(pool, r), a), r.width))
      && (forall id | id in m :: exists r :: r in registers && r.identifier == id)
  {
    if registers != [] {
      var init := registers[..|registers| - 1];
      assert registers == init + [registers[|registers| - 1]];
      RegistersAtHas(pool, init, a);
    }
  }

  lemma RegistersAtFit(pool: Pool, registers: seq<Register>, a: Assignment, g: Shape)
    requires RegistersMatch(registers, g)
    ensures RegistersFit(RegistersAt(pool, registers, a), g)
    ensures forall r | r in registers ::
      RegistersAt(pool, registers, a)[r.identifier] == RawWord.Word(Num(RegisterWord(pool, r), a), r.width)
  {
    RegistersAtHas(pool, registers, a);
    var m := RegistersAt(pool, registers, a);
    forall id ensures id in g.registers <==> id in m {
      if id in g.registers { var r :| r in registers && r.identifier == id; }
    }
  }

  // ----- read tables -----

  datatype MemoryRead =
    MemoryRead(readId: nat, depth: nat, address: Expr, lowered: Option<BddWord>, width: nat, value: BddWord)
  {
    function Key(): ReadKey { (address, width) }
  }

  type ReadTable = seq<MemoryRead>

  function Keys(table: ReadTable): set<ReadKey>
  {
    set i | 0 <= i < |table| :: table[i].Key()
  }

  ghost predicate DistinctKeys(table: ReadTable)
  {
    forall i, j | 0 <= i < j < |table| :: table[i].Key() != table[j].Key()
  }

  /** The value the assignment gives each read of the table. */
  ghost function ReadsAt(table: ReadTable, a: Assignment): (m: map<ReadKey, Word>)
    requires forall r | r in table :: r.width == |r.value| > 0
  {
    if table == [] then map[]
    else
      var r := table[|table| - 1];
      ReadsAt(table[..|table| - 1], a)[r.Key() := RawWord.Word(Num(r.value, a), r.width)]
  }

  lemma {:induction false} ReadsAtHas(table: ReadTable, a: Assignment)
    requires DistinctKeys(table) && forall r | r in table :: r.width == |r.value| > 0
    ensures var m := ReadsAt(table, a);
      forall i | 0 <= i < |table| ::
        table[i].Key() in m && m[table[i].Key()] == RawWord.Word(Num(table[i].value, a), table[i].width)
  {
    if table != [] {
      var init, last := table[..|table| - 1], table[|table| - 1];
      ReadsAtHas(init, a);
      forall i | 0 <= i < |init|
        ensures table[i].Key() in ReadsAt(table, a)
        ensures ReadsAt(table, a)[table[i].Key()] == RawWord.Word(Num(table[i].value, a), table[i].width)
      {
        assert init[i] == table[i];
      }
    }
  }

  /** Reads have identifiers of their own, their variables are in the pool, and the pool has no other
      read variables of that side. */
  ghost predicate TablePooled(pool: Pool, table: ReadTable, left: bool)
  {
    && (forall i, j | 0 <= i < j < |table| :: table[i].readId != table[j].readId)
    && (forall r | r in table :: r.value == ReadWord(pool, r.readId, left, r.width))
    && (forall r, k: nat | r in table && k < r.width :: InPool(pool, ReadBit(r.readId, left, k)))
    && (forall i | 0 <= i < |pool| && pool[i].0.ReadBit? && pool[i].0.left == left ::
          exists r :: r in table && r.readId == pool[i].0.readId && pool[i].0.bit < r.width)
  }

  /** A read nested in another read's address has a smaller identifier. */
  ghost predicate NestedFirst(table: ReadTable)
  {
    forall i, k | 0 <= i < |table| && k in ReadsOf(table[i].address) ::
      exists j :: 0 <= j < |table| && table[j].Key() == k && table[j].readId < table[i].readId
  }

  /** A table for the reads of an expression. */
  ghost predicate TableOk(table: ReadTable, e: Expr)
  {
    && DistinctKeys(table)
    && Keys(table) == ReadsOf(e)
    && (forall i | 0 <= i < |table| :: ReadsOf(table[i].address) <= Keys(table))
    && NestedFirst(table)
  }

  ghost function ViewAt(pool: Pool, registers: seq<Register>, table: ReadTable, a: Assignment): View
    requires forall r | r in registers :: r.width > 0
    requires forall r | r in table :: r.width == |r.value| > 0
  {
    View(RegistersAt(pool, registers, a), ReadsAt(table, a))
  }
}
