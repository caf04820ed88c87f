/** The list-updating parts of canonicalization as loops, each equal to the function that specifies it. */
module CanonicalizerLoops {
  import opened Words
  import opened Exprs
  import opened Canonicalizer
  import Collapse

  // ----- flattening and rebuilding -----

  /** Pushes the leaves of an `op` tree onto the terms, from left to right. */
  method FlattenInto(op: BinOp, e: Expr, terms: seq<Expr>) returns (r: seq<Expr>)
    ensures r == terms + Flatten(op, e)
    decreases e
  {
    if e.Bin? && e.op == op {
      r := FlattenInto(op, e.lhs, terms);
      r := FlattenInto(op, e.rhs, r);
    } else {
      r := terms + [e];
    }
  }

  /** Merges each constant chunk into the one before it. */
  method MergeChunksInPlace(parts: seq<Expr>) returns (r: Option<seq<Expr>>)
    ensures r == MergeChunks(parts)
  {
    var merged: seq<Expr> := [];
    assert parts[..0] == [];
    for i := 0 to |parts|
      invariant MergeChunks(parts[..i]) == Some(merged)
    {
      var value := parts[i];
      assert parts[..i + 1][..i] == parts[..i];
      if value.Const? {
        if value.width == 0 {
          MergePrefixFails(parts, i + 1);
          return None;
        }
        if merged != [] && merged[|merged| - 1].Const? {
          var previous := merged[|merged| - 1];
          var width := previous.width + value.width;
          var joined := Bitwise(LogicOr, (previous.value % Pow2(previous.width)) * Pow2(value.width),
                                value.value % Pow2(value.width), width);
          merged := merged[..|merged| - 1] + [Const(joined, width)];
        } else {
          merged := merged + [Const(value.value % Pow2(value.width), value.width)];
        }
      } else {
        merged := merged + [value];
      }
    }
    assert parts[..|parts|] == parts;
    r := Some(merged);
  }

  lemma {:induction false} MergePrefixFails(parts: seq<Expr>, i: nat)
    requires i <= |parts| && MergeChunks(parts[..i]).None?
    ensures MergeChunks(parts).None?
    decreases |parts|
  {
    if i < |parts| {
      assert parts[..|parts| - 1][..i] == parts[..i];
      MergePrefixFails(parts[..|parts| - 1], i);
    } else {
      assert parts[..i] == parts;
    }
  }

  // ----- cancelling and searching -----

  /** How many equal terms start at `index`. */
  method CountRun(terms: seq<Expr>, index: nat) returns (count: nat)
    requires index < |terms|
    ensures count == RunLength(terms[index..])
  {
    count := 1;
    while index + count < |terms| && terms[index + count] == terms[index]
      invariant 1 <= count <= |terms| - index && terms[index + count - 1] == terms[index]
      invariant RunLength(terms[index..]) == count - 1 + RunLength(terms[index + count - 1..])
    {
      assert terms[index + count - 1..][1..] == terms[index + count..];
      count := count + 1;
    }
  }

  lemma SkipRun(terms: seq<Expr>, index: nat, n: nat)
    requires index + n <= |terms|
    ensures terms[index..][n..] == terms[index + n..]
  {
  }

  /** The runs from `index` on come after the terms kept so far. */
  ghost predicate CancelledSoFar(
    terms: seq<Expr>, width: Option<nat>, reduced: seq<Expr>, cancelled: Option<nat>, index: nat)
    requires index <= |terms|
  {
    var rest := CancelRuns(terms[index..], cancelled);
    CancelRuns(terms, width) == (reduced + rest.0, rest.1)
  }

  lemma CancelStarts(terms: seq<Expr>, width: Option<nat>)
    ensures CancelledSoFar(terms, width, [], width, 0)
  {
    assert terms[0..] == terms && [] + CancelRuns(terms, width).0 == CancelRuns(terms, width).0;
  }

  lemma CancelEnds(terms: seq<Expr>, width: Option<nat>, reduced: seq<Expr>, cancelled: Option<nat>)
    requires CancelledSoFar(terms, width, reduced, cancelled, |terms|)
    ensures CancelRuns(terms, width) == (reduced, cancelled)
  {
    assert reduced + [] == reduced;
  }

  lemma CancelStep(terms: seq<Expr>, width: Option<nat>, reduced: seq<Expr>, cancelled: Option<nat>, index: nat, n: nat)
    requires index < |terms| && n == RunLength(terms[index..])
    requires CancelledSoFar(terms, width, reduced, cancelled, index)
    ensures CancelledSoFar(terms, width, reduced + RunKept(terms[index], n), RunWidth(terms[index], n, cancelled),
                           index + n)
  {
    var t := terms[index];
    SkipRun(terms, index, n);
    var next := CancelRuns(terms[index + n..], RunWidth(t, n, cancelled));
    assert reduced + (RunKept(t, n) + next.0) == (reduced + RunKept(t, n)) + next.0;
  }

  /** Keeps one term of every odd run and drops every even run whose width is known. */
  method CancelRunsInPlace(terms: seq<Expr>, width: Option<nat>) returns (reduced: seq<Expr>, cancelled: Option<nat>)
    ensures (reduced, cancelled) == CancelRuns(terms, width)
  {
    reduced, cancelled := [], width;
    var index := 0;
    CancelStarts(terms, width);
    while index < |terms|
      invariant index <= |terms| && CancelledSoFar(terms, width, reduced, cancelled, index)
    {
      var term := terms[index];
      var count := CountRun(terms, index);
      CancelStep(terms, width, reduced, cancelled, index, count);
      if count % 2 == 1 {
        reduced := reduced + [term];
      } else if ExprWidth(term).Some? {
        cancelled := ExprWidth(term);
        assert reduced + [] == reduced;
      } else {
        reduced := reduced + [term, term];
      }
      index := index + count;
    }
    CancelEnds(terms, width, reduced, cancelled);
  }

  method FindComplementaryPair(terms: seq<Expr>) returns (found: bool)
    ensures found == HasComplementaryPair(terms)
  {
    for i := 0 to |terms|
      invariant forall k, j :: 0 <= k < i && k < j < |terms| ==> !Complementary(terms[k], terms[j])
    {
      for j := i + 1 to |terms|
        invariant forall l :: i < l < j ==> !Complementary(terms[i], terms[l])
      {
        if Complementary(terms[i], terms[j]) { return true; }
      }
    }
    return false;
  }

  method FindWidth(terms: seq<Expr>) returns (width: Option<nat>)
    ensures width == FirstWidth(terms)
  {
    assert terms[0..] == terms;
    for i := 0 to |terms|
      invariant FirstWidth(terms) == FirstWidth(terms[i..])
    {
      assert terms[i..][1..] == terms[i + 1..];
      if ExprWidth(terms[i]).Some? { return ExprWidth(terms[i]); }
    }
    return None;
  }

  // ----- absorption -----

  /** Marks every candidate that contains another top-level term, then drops the marked ones. */
  method RemoveAbsorbedInPlace(op: BinOp, terms: seq<Expr>, le: Order, fuel: nat) returns (r: Outcome<seq<Expr>>)
    ensures r == RemoveAbsorbed(op, terms, le, fuel)
  {
    if op != And && op != Or { return Done(terms, {}); }
    var canonical := CanonicalizeAll(terms, le, fuel);
    if !canonical.Done? { return canonical; }
    var absorbers := MarkAbsorbed(Opposite(op), terms, canonical.value, le, fuel);
    if !absorbers.Done? { return absorbers.PropagateFailure(); }
    var kept := RetainUnmarked(terms, absorbers.value);
    r := Done(kept, canonical.obligations + absorbers.obligations + {Absorption(op, terms, absorbers.value)});
  }

  method MarkAbsorbed(op: BinOp, terms: seq<Expr>, canonical: seq<Expr>, le: Order, fuel: nat)
    returns (r: Outcome<seq<Option<nat>>>)
    ensures r == Absorbers(op, terms, canonical, 0, le, fuel)
  {
    hide FirstAbsorber, Canonicalize;
    var marks, obligations := [], {};
    AfterNothing(Absorbers(op, terms, canonical, 0, le, fuel));
    for i := 0 to |terms|
      invariant |marks| == i
      invariant Absorbers(op, terms, canonical, 0, le, fuel)
             == After(marks, obligations, Absorbers(op, terms, canonical, i, le, fuel))
    {
      if terms[i].Bin? && terms[i].op == op {
        var first := FindAbsorber(op, terms[i], canonical, i, le, fuel);
        if !first.Done? { return first.PropagateFailure(); }
        AfterMark(marks, obligations, first.value, first.obligations, Absorbers(op, terms, canonical, i + 1, le, fuel));
        marks, obligations := marks + [first.value], obligations + first.obligations;
      } else {
        AfterMark(marks, obligations, None, {}, Absorbers(op, terms, canonical, i + 1, le, fuel));
        marks := marks + [None];
      }
    }
    assert marks + [] == marks;
    r := Done(marks, obligations);
  }

  ghost function After(
    marks: seq<Option<nat>>, o: set<Obligation>, rest: Outcome<seq<Option<nat>>>): Outcome<seq<Option<nat>>>
  {
    if rest.Done? then Done(marks + rest.value, o + rest.obligations) else rest
  }

  lemma AfterNothing(rest: Outcome<seq<Option<nat>>>)
    ensures After([], {}, rest) == rest
  {
    if rest.Done? { assert [] + rest.value == rest.value; }
  }

  lemma AfterMark(
    marks: seq<Option<nat>>, o: set<Obligation>, mark: Option<nat>, more: set<Obligation>,
    rest: Outcome<seq<Option<nat>>>)
    ensures After(marks, o, if rest.Done? then Done([mark] + rest.value, more + rest.obligations) else rest)
         == After(marks + [mark], o + more, rest)
  {
    if rest.Done? {
      assert marks + ([mark] + rest.value) == (marks + [mark]) + rest.value;
      assert o + (more + rest.obligations) == (o + more) + rest.obligations;
    }
  }

  /** Tests the canonical terms in order and stops at the first that the candidate contains. */
  method FindAbsorber(op: BinOp, candidate: Expr, canonical: seq<Expr>, i: nat, le: Order, fuel: nat)
    returns (r: Outcome<Option<nat>>)
    ensures r == FirstAbsorber(op, candidate, canonical, i, 0, le, fuel)
  {
    hide ContainsTerm, Canonicalize;
    var obligations: set<Obligation> := {};
    for j := 0 to |canonical|
      invariant FirstAbsorber(op, candidate, canonical, i, 0, le, fuel)
             == FirstAbsorber(op, candidate, canonical, i, j, le, fuel).With(obligations)
    {
      if j != i {
        var hit := ContainsTerm(op, candidate, canonical[j], le, fuel);
        if !hit.Done? { return hit.PropagateFailure().With(obligations); }
        if hit.value { return Done(Some(j), hit.obligations + obligations); }
        WithTwice(FirstAbsorber(op, candidate, canonical, i, j + 1, le, fuel), hit.obligations, obligations);
        obligations := hit.obligations + obligations;
      }
    }
    r := Done(None, obligations);
  }

  lemma WithTwice<T>(r: Outcome<T>, a: set<Obligation>, b: set<Obligation>)
    ensures r.With(a).With(b) == r.With(a + b)
  {
    if r.Done? || r.NoTerms? { assert r.obligations + a + b == r.obligations + (a + b); }
  }

  method RetainUnmarked(terms: seq<Expr>, absorbers: seq<Option<nat>>) returns (kept: seq<Expr>)
    requires |terms| == |absorbers|
    ensures kept == Retain(terms, absorbers)
  {
    kept := [];
    assert terms[0..] == terms && absorbers[0..] == absorbers;
    for index := 0 to |terms|
      invariant Retain(terms, absorbers) == kept + Retain(terms[index..], absorbers[index..])
    {
      assert terms[index..][1..] == terms[index + 1..] && absorbers[index..][1..] == absorbers[index + 1..];
      if absorbers[index].None? { kept := kept + [terms[index]]; }
    }
  }

  // ----- the whole pass -----

  /** Folds the constants, sorts, drops repeats or cancels runs, and assembles what is left. */
  method CombineInPlace(op: BinOp, terms: seq<Expr>, le: Order) returns (r: Outcome<Expr>)
    requires IsAssocComm(op)
    ensures r == CombineTerms(op, terms, le)
  {
    var nonConstants, folded := Collapse.SplitConstants(op, terms);
    if folded.BadWidth? { return Panic; }
    nonConstants := Sort(nonConstants, le);
    if op == And || op == Or {
      nonConstants := Dedup(nonConstants);
    } else if op == Xor {
      var cancelled;
      nonConstants, cancelled := CancelRunsInPlace(nonConstants, if folded.Folded? then Some(folded.width) else None);
      if folded.NoConst? && nonConstants == [] && cancelled.Some? { folded := Folded(0, cancelled.value); }
    }
    assert (nonConstants, folded) == ReduceTerms(op, terms, le);
    if op == And || op == Or {
      var complementary := FindComplementaryPair(nonConstants);
      if complementary {
        var width := FindWidth(nonConstants);
        if width.None? && folded.Folded? { width := Some(folded.width); }
        if width.Some? {
          if width.value == 0 { return Panic; }
          return Done(Const(if op == And then 0 else Mask(width.value), width.value), {});
        }
      }
    }
    r := AssembleTerms(op, nonConstants, folded);
  }

  /** Flattens, drops absorbed terms, canonicalizes and flattens again, and combines. */
  method CanonicalizeAssocCommInPlace(op: BinOp, lhs: Expr, rhs: Expr, le: Order, fuel: nat) returns (r: Outcome<Expr>)
    requires IsAssocComm(op)
    ensures r == CanonicalizeAssocComm(op, lhs, rhs, le, fuel)
  {
    var terms := FlattenInto(op, lhs, []);
    terms := FlattenInto(op, rhs, terms);
    assert terms == Flatten(op, lhs) + Flatten(op, rhs);
    var kept := RemoveAbsorbedInPlace(op, terms, le, fuel);
    if !kept.Done? { return kept.PropagateFailure(); }
    var canonical := CanonicalizeTerms(kept.value, le, fuel);
    if !canonical.Done? { return canonical.PropagateFailure(); }
    var flat := FlattenTerms(op, canonical.value);
    var combined := CombineInPlace(op, flat, le);
    r := combined.With(kept.obligations + canonical.obligations);
  }

  method CanonicalizeTerms(terms: seq<Expr>, le: Order, fuel: nat) returns (r: Outcome<seq<Expr>>)
    ensures r == CanonicalizeAll(terms, le, fuel)
  {
    var canonical, obligations := [], {};
    assert terms[0..] == terms;
    JoinedNothing(CanonicalizeAll(terms, le, fuel));
    for i := 0 to |terms|
      invariant CanonicalizeAll(terms, le, fuel)
                == Joined(canonical, obligations, CanonicalizeAll(terms[i..], le, fuel))
    {
      assert terms[i..][1..] == terms[i + 1..];
      var first := Canonicalize(terms[i], le, fuel);
      if !first.Done? { return first.PropagateFailure(); }
      JoinedStep(canonical, obligations, first.value, first.obligations, CanonicalizeAll(terms[i + 1..], le, fuel));
      canonical, obligations := canonical + [first.value], obligations + first.obligations;
    }
    assert canonical + [] == canonical;
    r := Done(canonical, obligations);
  }

  ghost function Joined(done: seq<Expr>, o: set<Obligation>, rest: Outcome<seq<Expr>>): Outcome<seq<Expr>>
  {
    if rest.Done? then Done(done + rest.value, o + rest.obligations) else rest
  }

  lemma JoinedNothing(rest: Outcome<seq<Expr>>)
    ensures Joined([], {}, rest) == rest
  {
    if rest.Done? { assert [] + rest.value == rest.value; }
  }

  lemma JoinedStep(done: seq<Expr>, o: set<Obligation>, first: Expr, more: set<Obligation>, rest: Outcome<seq<Expr>>)
    ensures Joined(done, o, if rest.Done? then Done([first] + rest.value, more + rest.obligations) else rest)
         == Joined(done + [first], o + more, rest)
  {
    if rest.Done? {
      assert done + ([first] + rest.value) == (done + [first]) + rest.value;
      assert o + (more + rest.obligations) == (o + more) + rest.obligations;
    }
  }

  lemma FlattenStep(op: BinOp, terms: seq<Expr>, i: nat, flat: seq<Expr>)
    requires i < |terms|
    ensures flat + FlattenAll(op, terms[i..]) == (flat + Flatten(op, terms[i])) + FlattenAll(op, terms[i + 1..])
  {
    assert terms[i..][1..] == terms[i + 1..];
  }

  method FlattenTerms(op: BinOp, terms: seq<Expr>) returns (flat: seq<Expr>)
    ensures flat == FlattenAll(op, terms)
  {
    flat := [];
    assert terms[0..] == terms;
    for i := 0 to |terms|
      invariant FlattenAll(op, terms) == flat + FlattenAll(op, terms[i..])
    {
      FlattenStep(op, terms, i, flat);
      flat := FlattenInto(op, terms[i], flat);
    }
  }
}
