/** The shape of rebuilt expressions: left-associated trees with one constant at the end, and concatenations
    without neighbouring constants. */
module TreeShapes {
  import opened Words
  import opened Exprs
  import opened Canonicalizer

  predicate IsTree(op: BinOp, e: Expr) { e.Bin? && e.op == op }

  // ----- associative-commutative trees -----

  /** A constant that has an effect on the other operands. */
  predicate ProperConstant(op: BinOp, c: Expr)
    requires c.Const?
  {
    c.width > 0 && c.value < Pow2(c.width) && !IsIdentity(op, c.value, c.width) && !IsAnnihilator(op, c.value, c.width)
  }

  /** A node of a left-associated tree: its right operand is no tree of the operator, and only the right operand of
      the outermost node may be a constant, one that has an effect. */
  predicate LeftTree(op: BinOp, l: Expr, r: Expr)
  {
    && !IsTree(op, r) && !l.Const? && (IsTree(op, l) ==> !l.rhs.Const?)
    && (r.Const? ==> ProperConstant(op, r))
  }

  /** Terms as they are put together: no trees of the operator, and at most one constant, at the end. */
  predicate Terms(op: BinOp, terms: seq<Expr>)
  {
    && (forall t | t in terms :: !IsTree(op, t))
    && (forall i | 0 <= i < |terms| - 1 :: !terms[i].Const?)
    && (|terms| > 1 && terms[|terms| - 1].Const? ==> ProperConstant(op, terms[|terms| - 1]))
  }

  lemma TermsPrefix(op: BinOp, terms: seq<Expr>)
    requires Terms(op, terms) && |terms| > 1
    ensures Terms(op, terms[..|terms| - 1]) && forall t | t in terms[..|terms| - 1] :: !t.Const?
  {
    var init := terms[..|terms| - 1];
    forall t | t in init ensures !t.Const? { var i :| 0 <= i < |init| && init[i] == t; assert terms[i] == t; }
  }

  lemma RebuildSplits(op: BinOp, terms: seq<Expr>)
    requires |terms| > 1
    ensures Rebuild(op, terms) == Bin(op, Rebuild(op, terms[..|terms| - 1]), terms[|terms| - 1])
  {
  }

  /** Such terms are rebuilt into a left-associated tree whose terms they are. */
  lemma {:induction false} RebuildIsLeftTree(op: BinOp, terms: seq<Expr>)
    requires Terms(op, terms) && terms != []
    ensures var e := Rebuild(op, terms);
      && Flatten(op, e) == terms
      && (|terms| == 1 ==> e == terms[0])
      && (|terms| > 1 ==> IsTree(op, e) && LeftTree(op, e.lhs, e.rhs) && e.rhs == terms[|terms| - 1])
      && ((forall t | t in terms :: !t.Const?) ==> !e.Const? && (IsTree(op, e) ==> !e.rhs.Const?))
  {
    hide ProperConstant;
    if |terms| == 1 {
      assert !IsTree(op, terms[0]);
      assert terms == [terms[0]];
    } else {
      var init, last := terms[..|terms| - 1], terms[|terms| - 1];
      TermsPrefix(op, terms);
      RebuildIsLeftTree(op, init);
      RebuildSplits(op, terms);
      assert last in terms;
      assert Flatten(op, last) == [last] && init + [last] == terms;
    }
  }

  /** The terms that assembling puts together. */
  function Assembly(op: BinOp, terms: seq<Expr>, folded: Folded): seq<Expr>
  {
    match folded
    case Folded(value, width) =>
      if IsAnnihilator(op, value, width) then [Const(value, width)]
      else if !IsIdentity(op, value, width) || terms == [] then terms + [Const(value, width)]
      else terms
    case _ => terms
  }

  /** Assembling rebuilds a proper list of terms: the given ones and the constant, unless it has no effect. */
  lemma AssembledIsRebuilt(op: BinOp, terms: seq<Expr>, folded: Folded)
    requires IsAssocComm(op) && forall t | t in terms :: !IsTree(op, t) && !t.Const?
    requires folded.Folded? && folded.width > 0 ==> folded.value < Pow2(folded.width)
    ensures var r, list := AssembleTerms(op, terms, folded), Assembly(op, terms, folded);
      r.Done? ==> list != [] && Terms(op, list) && r.value == Rebuild(op, list)
  {
    var r, list := AssembleTerms(op, terms, folded), Assembly(op, terms, folded);
    if r.Done? {
      forall i | 0 <= i < |list| - 1 ensures !list[i].Const? { assert list[i] in terms; }
    }
  }

  // ----- concatenations -----

  /** No two neighbouring chunks are constants. */
  predicate ChunksApart(parts: seq<Expr>)
  {
    forall i | 0 <= i < |parts| - 1 :: !parts[i].Const? || !parts[i + 1].Const?
  }

  predicate ReducedConstant(c: Expr)
  {
    c.Const? && c.width > 0 && c.value < Pow2(c.width)
  }

  lemma AppendChunk(parts: seq<Expr>, last: Expr)
    requires ChunksApart(parts) && (parts == [] || !parts[|parts| - 1].Const? || !last.Const?)
    ensures ChunksApart(parts + [last])
  {
  }

  /** What merging leaves: constants side by side nowhere, reduced constants, and parts of the original list. */
  ghost predicate WellMerged(merged: seq<Expr>, parts: seq<Expr>)
  {
    ChunksApart(merged) && forall p | p in merged :: if p.Const? then ReducedConstant(p) else p in parts
  }

  lemma {:induction false} MergedChunks(parts: seq<Expr>)
    ensures var m := MergeChunks(parts); m.Some? ==> WellMerged(m.value, parts) && (parts != [] ==> m.value != [])
  {
    if parts != [] && MergeChunks(parts).Some? {
      var init, last := parts[..|parts| - 1], parts[|parts| - 1];
      MergedChunks(init);
      var merged, all := MergeChunks(init).value, MergeChunks(parts).value;
      if last.Const? && merged != [] && merged[|merged| - 1].Const? {
        var kept := merged[..|merged| - 1];
        assert all == kept + [all[|all| - 1]] && all[|all| - 1].Const?;
        assert ReducedConstant(all[|all| - 1]);
        AppendChunk(kept, all[|all| - 1]);
      } else {
        assert all == merged + [all[|all| - 1]];
        AppendChunk(merged, all[|all| - 1]);
      }
    }
  }
}
