/** Numbering the collected reads, deepest first, and giving each of their bits a variable. */
module ReadAllocation {
  import opened Words
  import opened Exprs
  import opened BddWords
  import opened ReadViews
  import opened VariablePool
  import opened ReadCollection

  // ----- what allocation leaves alone -----

  predicate IsReadOf(d: Description, left: bool)
  {
    d.ReadBit? && d.left == left
  }

  /** No variable but those of one side's reads appears, moves or goes. */
  ghost predicate KeepsOthers(pool: Pool, next: Pool, left: bool)
  {
    forall d: Description | d != Unallocated && !IsReadOf(d, left) ::
      (InPool(next, d) <==> InPool(pool, d)) && (InPool(pool, d) ==> Slot(next, d) == Slot(pool, d))
  }

  lemma KeepsOthersTrans(p: Pool, q: Pool, r: Pool, left: bool)
    requires KeepsOthers(p, q, left) && KeepsOthers(q, r, left)
    ensures KeepsOthers(p, r, left)
  {
  }

  lemma AllocatedKeepsOthers(pool: Pool, next: Pool, d: Description, left: bool)
    requires PoolOk(pool) && PoolOk(next) && Allocated(pool, next, d) && IsReadOf(d, left)
    ensures KeepsOthers(pool, next, left)
  {
    forall other: Description | other != Unallocated && !IsReadOf(other, left)
      ensures (InPool(next, other) <==> InPool(pool, other))
              && (InPool(pool, other) ==> Slot(next, other) == Slot(pool, other))
    {
      AllocatedKeeps(pool, next, d, other);
    }
  }

  // ----- half-allocated tables -----

  /** The bits given out so far are in the pool, in order, and are the pool's only ones of this side. */
  ghost predicate PartlyPooled(pool: Pool, table: ReadTable, left: bool)
  {
    && (forall i | 0 <= i < |table| :: table[i].value == ReadWord(pool, table[i].readId, left, |table[i].value|))
    && (forall i, k: nat | 0 <= i < |table| && k < |table[i].value| :: InPool(pool, ReadBit(table[i].readId, left, k)))
    && (forall d | IsReadOf(d, left) && InPool(pool, d) :: Accounted(table, d))
  }

  ghost predicate Accounted(table: ReadTable, d: Description)
    requires d.ReadBit?
  {
    exists i :: 0 <= i < |table| && table[i].readId == d.readId && d.bit < |table[i].value|
  }

  /** The same reads at the same depths. */
  ghost predicate SameReads(table: ReadTable, later: ReadTable)
  {
    |later| == |table| && forall i | 0 <= i < |table| ::
      later[i].Key() == table[i].Key() && later[i].depth == table[i].depth && later[i].lowered == table[i].lowered
  }

  /** The next bit of one read gets the variable just allocated. */
  lemma AppendBit(pool: Pool, next: Pool, table: ReadTable, i: nat, left: bool)
    requires PoolOk(pool) && PoolOk(next) && i < |table| && PartlyPooled(pool, table, left)
    requires Allocated(pool, next, ReadBit(table[i].readId, left, |table[i].value|))
    requires !InPool(pool, ReadBit(table[i].readId, left, |table[i].value|))
    ensures var r := table[i];
      var f := VariableFn(Slot(next, ReadBit(r.readId, left, |r.value|)));
      PartlyPooled(next, table[i := r.(value := r.value + [f])], left)
  {
    var r := table[i];
    var d := ReadBit(r.readId, left, |r.value|);
    var later := table[i := r.(value := r.value + [VariableFn(Slot(next, d))])];
    SlotExists(next, d);
    forall j, k: nat | 0 <= j < |table| && k < |table[j].value|
      ensures InPool(next, ReadBit(table[j].readId, left, k))
      ensures Slot(next, ReadBit(table[j].readId, left, k)) == Slot(pool, ReadBit(table[j].readId, left, k))
    {
      AllocatedKeeps(pool, next, d, ReadBit(table[j].readId, left, k));
    }
    forall j | 0 <= j < |later| ensures later[j].value == ReadWord(next, later[j].readId, left, |later[j].value|) {
      assert table[j].value == ReadWord(pool, table[j].readId, left, |table[j].value|);
    }
    forall j, k: nat | 0 <= j < |later| && k < |later[j].value|
      ensures InPool(next, ReadBit(later[j].readId, left, k))
    {
      if k < |table[j].value| { assert InPool(next, ReadBit(table[j].readId, left, k)); }
    }
    forall other | IsReadOf(other, left) && InPool(next, other) ensures Accounted(later, other) {
      if other == d {
        assert later[i].readId == other.readId && other.bit < |later[i].value|;
      } else {
        AllocatedKeeps(pool, next, d, other);
        assert Accounted(table, other);
        var j :| 0 <= j < |table| && table[j].readId == other.readId && other.bit < |table[j].value|;
        assert later[j].readId == other.readId && other.bit < |later[j].value|;
      }
    }
  }

  // ----- one depth level -----

  /** Identifiers of the reads at `level` and deeper are distinct and below `nextId`. */
  ghost predicate Numbered(table: ReadTable, level: nat, nextId: nat)
  {
    && (forall i | 0 <= i < |table| && table[i].depth >= level :: table[i].readId < nextId)
    && (forall i, j | 0 <= i < j < |table| && table[i].depth >= level && table[j].depth >= level ::
          table[i].readId != table[j].readId)
    && (forall i, j | 0 <= i < |table| && 0 <= j < |table| && table[i].depth > table[j].depth >= level ::
          table[i].readId < table[j].readId)
  }

  /** Reads above `level` have no variables yet. */
  ghost predicate EmptyAbove(table: ReadTable, level: nat)
  {
    forall i | 0 <= i < |table| && table[i].depth < level :: table[i].value == []
  }

  /** Numbers the reads of one depth, in table order. */
  method NumberLevel(start: ReadTable, level: nat, firstId: nat) returns (table: ReadTable, nextId: nat)
    requires Numbered(start, level + 1, firstId) && EmptyAbove(start, level + 1)
    ensures Numbered(table, level, nextId) && SameReads(start, table)
    ensures forall i | 0 <= i < |table| :: table[i].value == start[i].value
    ensures forall i | 0 <= i < |table| && table[i].depth != level :: table[i] == start[i]
  {
    table, nextId := start, firstId;
    for k := 0 to |start|
      invariant SameReads(start, table) && nextId >= firstId
      invariant forall i | 0 <= i < |table| :: table[i].value == start[i].value
      invariant forall i | 0 <= i < |table| && (table[i].depth != level || i >= k) :: table[i] == start[i]
      invariant forall i | 0 <= i < k && table[i].depth == level :: firstId <= table[i].readId < nextId
      invariant forall i, j | 0 <= i < j < k && table[i].depth == level && table[j].depth == level ::
        table[i].readId < table[j].readId
    {
      if table[k].depth == level {
        table := table[k := table[k].(readId := nextId)];
        nextId := nextId + 1;
      }
    }
  }

  lemma Renumbered(pool: Pool, start: ReadTable, table: ReadTable, level: nat, left: bool)
    requires PartlyPooled(pool, start, left) && EmptyAbove(start, level + 1) && SameReads(start, table)
    requires forall i | 0 <= i < |table| :: table[i].value == start[i].value
    requires forall i | 0 <= i < |table| && table[i].depth != level :: table[i] == start[i]
    ensures PartlyPooled(pool, table, left)
  {
    forall d | IsReadOf(d, left) && InPool(pool, d) ensures Accounted(table, d) {
      assert Accounted(start, d);
      var i :| 0 <= i < |start| && start[i].readId == d.readId && d.bit < |start[i].value|;
      assert start[i].depth != level;
      assert table[i] == start[i];
    }
  }

  /** How many bits of a read are allocated when `bit` bits of every read of the level are. */
  function Allotted(r: MemoryRead, bit: nat): nat
  {
    if r.width < bit then r.width else bit
  }

  /** Reads at `level` have `bit` bits, those before position `k` one more; deeper reads are complete. */
  ghost predicate AllottedTo(table: ReadTable, level: nat, bit: nat, k: nat)
  {
    && (forall i | 0 <= i < |table| && table[i].depth == level ::
          |table[i].value| == Allotted(table[i], if i < k then bit + 1 else bit))
    && (forall i | 0 <= i < |table| && table[i].depth > level :: |table[i].value| == table[i].width)
    && EmptyAbove(table, level)
  }

  ghost predicate SameNumbers(table: ReadTable, later: ReadTable)
  {
    SameReads(table, later) && forall i | 0 <= i < |table| :: later[i].readId == table[i].readId
  }

  lemma FreshBit(pool: Pool, table: ReadTable, level: nat, nextId: nat, bit: nat, k: nat, left: bool)
    requires PartlyPooled(pool, table, left) && Numbered(table, level, nextId) && AllottedTo(table, level, bit, k)
    requires k < |table| && table[k].depth == level && bit < table[k].width
    ensures |table[k].value| == bit && !InPool(pool, ReadBit(table[k].readId, left, bit))
  {
    var d := ReadBit(table[k].readId, left, bit);
    forall i | 0 <= i < |table| ensures !(table[i].readId == d.readId && d.bit < |table[i].value|) {
      if i != k && table[i].depth >= level { assert table[i].readId != table[k].readId; }
    }
    assert !Accounted(table, d);
  }

  /** Gives one more bit to the read at `k`, if it is of the level and wide enough. */
  method AllocateOne(startPool: Pool, start: ReadTable, level: nat, ghost nextId: nat, bit: nat, k: nat, left: bool)
    returns (pool: Pool, table: ReadTable)
    requires PoolOk(startPool) && PartlyPooled(startPool, start, left) && k < |start|
    requires Numbered(start, level, nextId) && AllottedTo(start, level, bit, k)
    ensures PoolOk(pool) && PartlyPooled(pool, table, left)
    ensures SameNumbers(start, table) && AllottedTo(table, level, bit, k + 1) && KeepsOthers(startPool, pool, left)
  {
    hide PoolOk, PartlyPooled, Numbered;
    pool, table := startPool, start;
    if table[k].depth == level && bit < table[k].width {
      FreshBit(pool, table, level, nextId, bit, k, left);
      var d := ReadBit(table[k].readId, left, bit);
      var f;
      pool, f := NewVariable(pool, d);
      AppendBit(startPool, pool, start, k, left);
      AllocatedKeepsOthers(startPool, pool, d, left);
      table := table[k := table[k].(value := table[k].value + [f])];
    }
  }

  /** Gives one more bit to each read of the level that is wide enough. */
  method AllocateBit(startPool: Pool, start: ReadTable, level: nat, ghost nextId: nat, bit: nat, left: bool)
    returns (pool: Pool, table: ReadTable)
    requires PoolOk(startPool) && PartlyPooled(startPool, start, left)
    requires Numbered(start, level, nextId) && AllottedTo(start, level, bit, 0)
    ensures PoolOk(pool) && PartlyPooled(pool, table, left)
    ensures SameNumbers(start, table) && AllottedTo(table, level, bit + 1, 0) && KeepsOthers(startPool, pool, left)
  {
    pool, table := startPool, start;
    for k := 0 to |start|
      invariant PoolOk(pool) && PartlyPooled(pool, table, left)
      invariant SameNumbers(start, table) && AllottedTo(table, level, bit, k) && KeepsOthers(startPool, pool, left)
    {
      ghost var before := pool;
      pool, table := AllocateOne(pool, table, level, nextId, bit, k, left);
      KeepsOthersTrans(startPool, before, pool, left);
    }
  }

  function WidestAt(table: ReadTable, level: nat): (w: nat)
    ensures forall r | r in table && r.depth == level :: r.width <= w
  {
    if table == [] then 0
    else
      var w, r := WidestAt(table[..|table| - 1], level), table[|table| - 1];
      if r.depth == level then Max(w, r.width) else w
  }

  /** Interleaves the variables of the reads of one depth, bit by bit. */
  method AllocateLevel(startPool: Pool, start: ReadTable, level: nat, ghost nextId: nat, left: bool)
    returns (pool: Pool, table: ReadTable)
    requires PoolOk(startPool) && PartlyPooled(startPool, start, left)
    requires Numbered(start, level, nextId) && AllottedTo(start, level, 0, 0)
    ensures PoolOk(pool) && PartlyPooled(pool, table, left)
    ensures SameNumbers(start, table) && KeepsOthers(startPool, pool, left)
    ensures forall i | 0 <= i < |table| && table[i].depth >= level :: |table[i].value| == table[i].width
    ensures EmptyAbove(table, level)
  {
    pool, table := startPool, start;
    var widest := WidestAt(start, level);
    for bit := 0 to widest
      invariant PoolOk(pool) && PartlyPooled(pool, table, left)
      invariant SameNumbers(start, table) && AllottedTo(table, level, bit, 0) && KeepsOthers(startPool, pool, left)
    {
      ghost var before := pool;
      pool, table := AllocateBit(pool, table, level, nextId, bit, left);
      KeepsOthersTrans(startPool, before, pool, left);
    }
    forall i | 0 <= i < |table| && table[i].depth >= level ensures |table[i].value| == table[i].width {
      assert start[i] in start && start[i].Key() == table[i].Key();
    }
  }

  // ----- all levels -----

  function Deepest(table: ReadTable): (d: nat)
    ensures forall r | r in table :: r.depth <= d
  {
    if table == [] then 0 else Max(Deepest(table[..|table| - 1]), table[|table| - 1].depth)
  }

  /** A finished table: every bit has its variable, and deeper reads have smaller identifiers. */
  ghost predicate Finished(pool: Pool, table: ReadTable, left: bool)
  {
    && PartlyPooled(pool, table, left)
    && (forall i | 0 <= i < |table| :: |table[i].value| == table[i].width)
    && (forall i, j | 0 <= i < j < |table| :: table[i].readId != table[j].readId)
    && (forall i, j | 0 <= i < |table| && 0 <= j < |table| && table[i].depth > table[j].depth ::
          table[i].readId < table[j].readId)
  }

  /** The reads at `level` and deeper are numbered and have all their variables; the others have none. */
  ghost predicate LevelsDone(pool: Pool, table: ReadTable, level: nat, nextId: nat, left: bool)
  {
    && PoolOk(pool) && PartlyPooled(pool, table, left)
    && Numbered(table, level, nextId) && EmptyAbove(table, level)
    && forall i | 0 <= i < |table| && table[i].depth >= level :: |table[i].value| == table[i].width
  }

  method AllocateNextLevel(startPool: Pool, start: ReadTable, level: nat, firstId: nat, left: bool)
    returns (pool: Pool, table: ReadTable, nextId: nat)
    requires LevelsDone(startPool, start, level + 1, firstId, left)
    ensures LevelsDone(pool, table, level, nextId, left)
    ensures SameReads(start, table) && KeepsOthers(startPool, pool, left)
  {
    var numbered;
    numbered, nextId := NumberLevel(start, level, firstId);
    Renumbered(startPool, start, numbered, level, left);
    LevelIsEmpty(start, numbered, level);
    pool, table := AllocateLevel(startPool, numbered, level, nextId, left);
    StillNumbered(numbered, table, level, nextId);
    SameReadsTrans(start, numbered, table);
  }

  lemma LevelIsEmpty(start: ReadTable, table: ReadTable, level: nat)
    requires EmptyAbove(start, level + 1) && SameReads(start, table)
    requires forall i | 0 <= i < |table| :: table[i].value == start[i].value
    requires forall i | 0 <= i < |start| && start[i].depth >= level + 1 :: |start[i].value| == start[i].width
    ensures AllottedTo(table, level, 0, 0)
  {
    forall i | 0 <= i < |table| ensures table[i].Key() == start[i].Key() && table[i].depth == start[i].depth {}
  }

  lemma StillNumbered(table: ReadTable, later: ReadTable, level: nat, nextId: nat)
    requires Numbered(table, level, nextId) && SameNumbers(table, later)
    ensures Numbered(later, level, nextId)
  {
  }

  lemma SameReadsTrans(a: ReadTable, b: ReadTable, c: ReadTable)
    requires SameReads(a, b) && SameReads(b, c)
    ensures SameReads(a, c)
  {
    forall i | 0 <= i < |a|
      ensures c[i].Key() == a[i].Key() && c[i].depth == a[i].depth && c[i].lowered == a[i].lowered
    {
      assert b[i].Key() == a[i].Key();
    }
  }

  method AllocateReads(startPool: Pool, start: ReadTable, left: bool) returns (pool: Pool, table: ReadTable)
    requires PoolOk(startPool) && Skeleton(start)
    requires forall d | IsReadOf(d, left) :: !InPool(startPool, d)
    ensures PoolOk(pool) && Finished(pool, table, left)
    ensures SameReads(start, table) && KeepsOthers(startPool, pool, left)
  {
    pool, table := startPool, start;
    if start == [] { return; }
    var level: nat, nextId: nat := Deepest(start) + 1, 0;
    forall i | 0 <= i < |start| ensures start[i].depth < level && start[i].value == [] { assert start[i] in start; }
    while level > 0
      invariant LevelsDone(pool, table, level, nextId, left)
      invariant SameReads(start, table) && KeepsOthers(startPool, pool, left)
    {
      level := level - 1;
      ghost var beforePool, beforeTable := pool, table;
      pool, table, nextId := AllocateNextLevel(pool, table, level, nextId, left);
      KeepsOthersTrans(startPool, beforePool, pool, left);
      SameReadsTrans(start, beforeTable, table);
    }
  }

  /** A finished table over collected reads is a proper table: nested reads come first. */
  lemma FinishedIsOk(pool: Pool, start: ReadTable, table: ReadTable, e: Expr, left: bool)
    requires Collected(ReadsOf(e), 0, [], start) && SameReads(start, table) && Finished(pool, table, left)
    ensures TableOk(table, e) && TablePooled(pool, table, left)
  {
    forall i, j | 0 <= i < j < |table| ensures table[i].Key() != table[j].Key() {
      assert start[i].Key() != start[j].Key() && start[i].Key() == table[i].Key() && start[j].Key() == table[j].Key();
    }
    SameKeys(start, table);
    forall i, k | 0 <= i < |table| && k in ReadsOf(table[i].address)
      ensures exists j :: 0 <= j < |table| && table[j].Key() == k && table[j].readId < table[i].readId
    {
      assert start[i].Key() == table[i].Key();
      assert AllHaveDepth(start, ReadsOf(start[i].address), start[i].depth + 1);
      assert HasDepth(start, k, start[i].depth + 1);
      var j :| 0 <= j < |start| && start[j].Key() == k && start[j].depth >= start[i].depth + 1;
      assert table[j].Key() == k && table[j].readId < table[i].readId;
    }
    forall i | 0 <= i < |table| ensures ReadsOf(table[i].address) <= Keys(table) {
      forall k | k in ReadsOf(table[i].address) ensures k in Keys(table) {
        var j :| 0 <= j < |table| && table[j].Key() == k && table[j].readId < table[i].readId;
      }
    }
    FinishedIsPooled(pool, table, left);
  }

  lemma SameKeys(start: ReadTable, table: ReadTable)
    requires SameReads(start, table)
    ensures Keys(table) == Keys(start)
  {
    forall k ensures k in Keys(table) <==> k in Keys(start) {
      if k in Keys(start) {
        var i :| 0 <= i < |start| && start[i].Key() == k;
        assert table[i].Key() == k;
      }
      if k in Keys(table) {
        var i :| 0 <= i < |table| && table[i].Key() == k;
        assert start[i].Key() == k;
      }
    }
  }

  lemma FinishedIsPooled(pool: Pool, table: ReadTable, left: bool)
    requires Finished(pool, table, left)
    ensures TablePooled(pool, table, left)
  {
    forall i | 0 <= i < |pool| && pool[i].0.ReadBit? && pool[i].0.left == left
      ensures exists r :: r in table && r.readId == pool[i].0.readId && pool[i].0.bit < r.width
    {
      assert InPool(pool, pool[i].0) && Accounted(table, pool[i].0);
      var j :| 0 <= j < |table| && table[j].readId == pool[i].0.readId && pool[i].0.bit < |table[j].value|;
      assert table[j] in table;
    }
  }
}
