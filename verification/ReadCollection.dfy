/** Collecting the memory reads of an expression, each at its greatest nesting depth. */
module ReadCollection {
  import opened Exprs
  import opened BddWords
  import opened ReadViews
  import opened VariablePool

  function Max(a: nat, b: nat): nat { if a < b then b else a }

  /** The position of the entry for a key, or the table's size. */
  function Find(table: ReadTable, k: ReadKey): (i: nat)
    ensures i <= |table|
    ensures i < |table| ==> table[i].Key() == k
    ensures forall j | 0 <= j < i :: table[j].Key() != k
  {
    if table == [] then 0
    else if table[0].Key() == k then 0
    else 1 + Find(table[1..], k)
  }

  /** Equivalent reads share one entry, kept at the greatest depth seen. */
  function Enter(table: ReadTable, address: Expr, width: nat, depth: nat): ReadTable
  {
    var i := Find(table, (address, width));
    if i < |table| then table[i := table[i].(depth := Max(table[i].depth, depth))]
    else table + [MemoryRead(|table|, depth, address, None, width, [])]
  }

  /** Walks the expression, addresses one level deeper than the reads that use them. */
  function Collect(e: Expr, depth: nat, table: ReadTable): ReadTable
    decreases e, 1
  {
    match e
    case ReadMemory(address, width) => Enter(Collect(address, depth + 1, table), address, width, depth)
    case ReadRegister(register, _) => Collect(register, depth, table)
    case Bin(_, lhs, rhs) => Collect(rhs, depth, Collect(lhs, depth, table))
    case Not(operand) => Collect(operand, depth, table)
    case CountOnes(operand) => Collect(operand, depth, table)
    case Slice(operand, _, _) => Collect(operand, depth, table)
    case Concat(parts) => CollectAll(parts, depth, table)
    case Extend(_, operand, _) => Collect(operand, depth, table)
    case Flag(_, lhs, rhs, flagIn, _) => Collect(flagIn, depth, Collect(rhs, depth, Collect(lhs, depth, table)))
    case Select(c, t, f) => Collect(f, depth, Collect(t, depth, Collect(c, depth, table)))
    case _ => table
  }

  function CollectAll(parts: seq<Expr>, depth: nat, table: ReadTable): ReadTable
    decreases parts, 0
  {
    if parts == [] then table
    else Collect(parts[|parts| - 1], depth, CollectAll(parts[..|parts| - 1], depth, table))
  }

  // ----- what collection keeps -----

  /** The read is in the table, at least as deep as `depth`. */
  ghost predicate HasDepth(table: ReadTable, k: ReadKey, depth: nat)
  {
    exists j :: 0 <= j < |table| && table[j].Key() == k && table[j].depth >= depth
  }

  ghost predicate AllHaveDepth(table: ReadTable, keys: set<ReadKey>, depth: nat)
  {
    forall k | k in keys :: HasDepth(table, k, depth)
  }

  /** Reads nested in an entry's address are entries of greater depth. */
  ghost predicate NestedDeeper(table: ReadTable)
  {
    forall i | 0 <= i < |table| :: AllHaveDepth(table, ReadsOf(table[i].address), table[i].depth + 1)
  }

  /** Entries without variables yet. */
  ghost predicate Skeleton(table: ReadTable)
  {
    forall r | r in table :: r.lowered == None && r.value == []
  }

  ghost predicate Collectable(table: ReadTable)
  {
    DistinctKeys(table) && NestedDeeper(table) && Skeleton(table)
  }

  /** `later` keeps the entries of `table` in place, possibly deeper. */
  ghost predicate Grown(table: ReadTable, later: ReadTable)
  {
    && |table| <= |later|
    && forall i | 0 <= i < |table| :: later[i].Key() == table[i].Key() && later[i].depth >= table[i].depth
  }

  lemma GrownHasDepth(table: ReadTable, later: ReadTable, keys: set<ReadKey>, depth: nat)
    requires Grown(table, later) && AllHaveDepth(table, keys, depth)
    ensures AllHaveDepth(later, keys, depth)
  {
    forall k | k in keys ensures HasDepth(later, k, depth) {
      assert HasDepth(table, k, depth);
      var j :| 0 <= j < |table| && table[j].Key() == k && table[j].depth >= depth;
      assert later[j].Key() == k && later[j].depth >= depth;
    }
  }

  /** What walking an expression does to a table. */
  ghost predicate Collected(keys: set<ReadKey>, depth: nat, table: ReadTable, later: ReadTable)
  {
    && Collectable(later) && Grown(table, later)
    && Keys(later) == Keys(table) + keys
    && AllHaveDepth(later, keys, depth)
  }

  lemma EnterKeys(table: ReadTable, address: Expr, width: nat, depth: nat)
    ensures Keys(Enter(table, address, width, depth)) == Keys(table) + {(address, width)}
    ensures Grown(table, Enter(table, address, width, depth))
    ensures HasDepth(Enter(table, address, width, depth), (address, width), depth)
  {
    var later, i := Enter(table, address, width, depth), Find(table, (address, width));
    assert later[i].Key() == (address, width) && later[i].depth >= depth;
    forall j | 0 <= j < |table| ensures later[j].Key() == table[j].Key() {}
    forall k ensures k in Keys(later) <==> k in Keys(table) || k == (address, width) {
      if k in Keys(table) {
        var j :| 0 <= j < |table| && table[j].Key() == k;
        assert later[j].Key() == k;
      } else if k == (address, width) {
        assert later[i].Key() == k;
      }
    }
  }

  /** The entry at `j` after an entry was made: the old one, or the new or deepened one. */
  lemma EnteredNested(table: ReadTable, address: Expr, width: nat, depth: nat, j: nat)
    requires Collectable(table) && AllHaveDepth(table, ReadsOf(address), depth + 1)
    requires j < |Enter(table, address, width, depth)|
    ensures var later := Enter(table, address, width, depth);
      AllHaveDepth(later, ReadsOf(later[j].address), later[j].depth + 1)
  {
    var later := Enter(table, address, width, depth);
    EnterKeys(table, address, width, depth);
    if j < |table| {
      assert later[j].Key() == table[j].Key();
      assert AllHaveDepth(table, ReadsOf(table[j].address), table[j].depth + 1);
      if later[j].depth == table[j].depth {
        GrownHasDepth(table, later, ReadsOf(table[j].address), table[j].depth + 1);
      } else {
        GrownHasDepth(table, later, ReadsOf(address), depth + 1);
      }
    } else {
      GrownHasDepth(table, later, ReadsOf(address), depth + 1);
    }
  }

  lemma EnterDistinct(table: ReadTable, address: Expr, width: nat, depth: nat)
    requires DistinctKeys(table) && Skeleton(table)
    ensures DistinctKeys(Enter(table, address, width, depth)) && Skeleton(Enter(table, address, width, depth))
  {
    var later := Enter(table, address, width, depth);
    forall m, n | 0 <= m < n < |later| ensures later[m].Key() != later[n].Key() {
      if n < |table| { assert table[m].Key() != table[n].Key(); }
    }
  }

  lemma EnterCollectable(table: ReadTable, address: Expr, width: nat, depth: nat)
    requires Collectable(table) && AllHaveDepth(table, ReadsOf(address), depth + 1)
    ensures Collectable(Enter(table, address, width, depth))
  {
    var later := Enter(table, address, width, depth);
    EnterDistinct(table, address, width, depth);
    forall j | 0 <= j < |later| ensures AllHaveDepth(later, ReadsOf(later[j].address), later[j].depth + 1) {
      EnteredNested(table, address, width, depth, j);
    }
  }

  lemma Combine(a: set<ReadKey>, b: set<ReadKey>, depth: nat, t0: ReadTable, t1: ReadTable, t2: ReadTable)
    requires Collected(a, depth, t0, t1) && Collected(b, depth, t1, t2)
    ensures Collected(a + b, depth, t0, t2)
  {
    GrownHasDepth(t1, t2, a, depth);
    forall i | 0 <= i < |t0| ensures t2[i].Key() == t0[i].Key() && t2[i].depth >= t0[i].depth {
      assert t1[i].Key() == t0[i].Key();
    }
  }

  lemma Nothing(depth: nat, table: ReadTable)
    requires Collectable(table)
    ensures Collected({}, depth, table, table)
  {
  }

  /** Walking an expression enters exactly its reads, deep enough, nested reads deepest. */
  lemma {:induction false} CollectMeaning(e: Expr, depth: nat, table: ReadTable)
    requires Collectable(table)
    ensures Collected(ReadsOf(e), depth, table, Collect(e, depth, table))
    decreases e, 1
  {
    match e
    case ReadMemory(address, width) =>
      CollectMeaning(address, depth + 1, table);
      EnterMeaning(address, width, depth, table, Collect(address, depth + 1, table));
    case ReadRegister(register, _) => CollectMeaning(register, depth, table);
    case Bin(_, lhs, rhs) => CollectTwo(lhs, rhs, e, depth, table);
    case Not(operand) => CollectMeaning(operand, depth, table);
    case CountOnes(operand) => CollectMeaning(operand, depth, table);
    case Slice(operand, _, _) => CollectMeaning(operand, depth, table);
    case Concat(parts) => CollectAllMeaning(parts, depth, table);
    case Extend(_, operand, _) => CollectMeaning(operand, depth, table);
    case Flag(_, lhs, rhs, flagIn, _) =>
      CollectTwo(lhs, rhs, e, depth, table);
      CollectThird(ReadsOf(lhs) + ReadsOf(rhs), flagIn, depth, table, Collect(rhs, depth, Collect(lhs, depth, table)));
    case Select(c, t, f) =>
      CollectTwo(c, t, e, depth, table);
      CollectThird(ReadsOf(c) + ReadsOf(t), f, depth, table, Collect(t, depth, Collect(c, depth, table)));
    case _ => Nothing(depth, table);
  }

  lemma {:induction false} CollectTwo(x: Expr, y: Expr, e: Expr, depth: nat, table: ReadTable)
    requires Collectable(table) && x < e && y < e
    ensures Collected(ReadsOf(x) + ReadsOf(y), depth, table, Collect(y, depth, Collect(x, depth, table)))
    decreases e, 0
  {
    var t := Collect(x, depth, table);
    CollectMeaning(x, depth, table);
    CollectMeaning(y, depth, t);
    Combine(ReadsOf(x), ReadsOf(y), depth, table, t, Collect(y, depth, t));
  }

  lemma {:induction false} CollectThird(keys: set<ReadKey>, z: Expr, depth: nat, table: ReadTable, t: ReadTable)
    requires Collected(keys, depth, table, t)
    ensures Collected(keys + ReadsOf(z), depth, table, Collect(z, depth, t))
    decreases z, 2
  {
    CollectMeaning(z, depth, t);
    Combine(keys, ReadsOf(z), depth, table, t, Collect(z, depth, t));
  }

  lemma EnterMeaning(address: Expr, width: nat, depth: nat, table: ReadTable, t: ReadTable)
    requires Collected(ReadsOf(address), depth + 1, table, t)
    ensures Collected(ReadsOf(address) + {(address, width)}, depth, table, Enter(t, address, width, depth))
  {
    var later := Enter(t, address, width, depth);
    EnterKeys(t, address, width, depth);
    EnterCollectable(t, address, width, depth);
    GrownHasDepth(t, later, ReadsOf(address), depth + 1);
    forall k | k in ReadsOf(address) + {(address, width)} ensures HasDepth(later, k, depth) {
      if k != (address, width) { assert HasDepth(later, k, depth + 1); }
    }
    forall i | 0 <= i < |table| ensures later[i].Key() == table[i].Key() && later[i].depth >= table[i].depth {
      assert t[i].Key() == table[i].Key();
    }
  }

  lemma {:induction false} CollectAllMeaning(parts: seq<Expr>, depth: nat, table: ReadTable)
    requires Collectable(table)
    ensures Collected(ReadsOfAll(parts), depth, table, CollectAll(parts, depth, table))
    decreases parts, 0
  {
    if parts == [] {
      Nothing(depth, table);
    } else {
      var init, last := parts[..|parts| - 1], parts[|parts| - 1];
      CollectAllMeaning(init, depth, table);
      CollectMeaning(last, depth, CollectAll(init, depth, table));
      Combine(ReadsOfAll(init), ReadsOf(last), depth, table, CollectAll(init, depth, table),
              CollectAll(parts, depth, table));
    }
  }
}
