/** Sorting, removing repeats and folding constants do not depend on the order of the terms. */
module TermOrder {
  import opened Words
  import opened WordLaws
  import opened Exprs
  import opened Canonicalizer
  import opened CanonicalizerForm

  /** The comparison of sort keys, where different terms have different keys. */
  ghost predicate LinearOrder(le: Order)
  {
    && (forall a, b :: le(a, b) || le(b, a))
    && (forall a, b, c :: le(a, b) && le(b, c) ==> le(a, c))
    && (forall a, b :: le(a, b) && le(b, a) ==> a == b)
  }

  ghost predicate InOrder(terms: seq<Expr>, le: Order)
  {
    forall i, j | 0 <= i < j < |terms| :: le(terms[i], terms[j])
  }

  ghost predicate Distinct(terms: seq<Expr>)
  {
    forall i, j | 0 <= i < j < |terms| :: terms[i] != terms[j]
  }

  lemma HeadSplits(terms: seq<Expr>)
    requires terms != []
    ensures multiset(terms) == multiset{terms[0]} + multiset(terms[1..])
  {
    assert terms == [terms[0]] + terms[1..];
  }

  /** The term is before all others, which are in order. */
  lemma PrependInOrder(t: Expr, terms: seq<Expr>, le: Order)
    requires InOrder(terms, le) && forall x | x in terms :: le(t, x)
    ensures InOrder([t] + terms, le)
  {
  }

  // ----- sorting -----

  lemma {:induction false} InsertSorted(t: Expr, sorted: seq<Expr>, le: Order)
    requires LinearOrder(le) && InOrder(sorted, le)
    ensures InOrder(Insert(t, sorted, le), le)
    ensures multiset(Insert(t, sorted, le)) == multiset{t} + multiset(sorted)
  {
    if sorted == [] || le(t, sorted[0]) {
      forall x | x in sorted ensures le(t, x) {
        var k :| 0 <= k < |sorted| && sorted[k] == x;
        assert k > 0 ==> le(sorted[0], sorted[k]);
      }
      PrependInOrder(t, sorted, le);
    } else {
      var rest := Insert(t, sorted[1..], le);
      InsertSorted(t, sorted[1..], le);
      InsertFrom(t, sorted[1..], le);
      HeadSplits(sorted);
      forall x | x in rest ensures le(sorted[0], x) {
        if x in sorted[1..] {
          var k :| 0 <= k < |sorted[1..]| && sorted[1..][k] == x;
          assert le(sorted[0], sorted[k + 1]);
        }
      }
      PrependInOrder(sorted[0], rest, le);
    }
  }

  /** Sorting puts the terms in order and loses none. */
  lemma {:induction false} SortSorted(terms: seq<Expr>, le: Order)
    requires LinearOrder(le)
    ensures InOrder(Sort(terms, le), le) && multiset(Sort(terms, le)) == multiset(terms)
  {
    if terms != [] {
      SortSorted(terms[1..], le);
      InsertSorted(terms[0], Sort(terms[1..], le), le);
      HeadSplits(terms);
    }
  }

  lemma FirstIsLeast(terms: seq<Expr>, x: Expr, le: Order)
    requires InOrder(terms, le) && x in terms
    ensures terms[0] == x || le(terms[0], x)
  {
    var k :| 0 <= k < |terms| && terms[k] == x;
  }

  lemma FirstIsSame(a: seq<Expr>, b: seq<Expr>, le: Order)
    requires LinearOrder(le) && InOrder(a, le) && InOrder(b, le) && multiset(a) == multiset(b) && a != [] && b != []
    ensures a[0] == b[0]
  {
    assert a[0] in multiset(b) && b[0] in multiset(a);
    FirstIsLeast(a, b[0], le);
    FirstIsLeast(b, a[0], le);
  }

  /** Ordered lists of the same terms are the same list. */
  lemma {:induction false} OrderedUnique(a: seq<Expr>, b: seq<Expr>, le: Order)
    requires LinearOrder(le) && InOrder(a, le) && InOrder(b, le) && multiset(a) == multiset(b)
    ensures a == b
  {
    hide LinearOrder, InOrder;
    assert |a| == |multiset(a)| == |multiset(b)| == |b|;
    if a != [] {
      FirstIsSame(a, b, le);
      InOrderFrom(a, 1, le);
      InOrderFrom(b, 1, le);
      HeadSplits(a);
      HeadSplits(b);
      assert multiset(a[1..]) == multiset(a) - multiset{a[0]};
      assert multiset(b[1..]) == multiset(b) - multiset{b[0]};
      OrderedUnique(a[1..], b[1..], le);
      assert a == [a[0]] + a[1..] && b == [b[0]] + b[1..];
    }
  }

  lemma SortPermuted(a: seq<Expr>, b: seq<Expr>, le: Order)
    requires LinearOrder(le) && multiset(a) == multiset(b)
    ensures Sort(a, le) == Sort(b, le)
  {
    SortSorted(a, le);
    SortSorted(b, le);
    OrderedUnique(Sort(a, le), Sort(b, le), le);
  }

  lemma SortStays(terms: seq<Expr>, le: Order)
    requires LinearOrder(le) && InOrder(terms, le)
    ensures Sort(terms, le) == terms
  {
    SortSorted(terms, le);
    OrderedUnique(Sort(terms, le), terms, le);
  }

  // ----- repeats -----

  /** Of ordered terms every one is left once. */
  lemma {:induction false} DedupDistinct(terms: seq<Expr>, le: Order)
    requires LinearOrder(le) && InOrder(terms, le)
    ensures var d := Dedup(terms); InOrder(d, le) && Distinct(d) && forall t :: t in d <==> t in terms
  {
    if |terms| > 1 {
      var rest := terms[1..];
      DedupDistinct(rest, le);
      assert terms == [terms[0]] + rest;
      forall t | t in rest ensures le(terms[0], t) {
        var k :| 0 <= k < |rest| && rest[k] == t;
        assert le(terms[0], terms[k + 1]);
      }
      if terms[0] != terms[1] {
        forall t | t in rest ensures t != terms[0] { FirstIsLeast(rest, t, le); }
        PrependInOrder(terms[0], Dedup(rest), le);
        PrependDistinct(terms[0], Dedup(rest));
      } else {
        assert rest[0] == terms[0];
      }
    }
  }

  lemma PrependDistinct(t: Expr, terms: seq<Expr>)
    requires Distinct(terms) && t !in terms
    ensures Distinct([t] + terms)
  {
  }

  lemma {:induction false} DedupStays(terms: seq<Expr>)
    requires Distinct(terms)
    ensures Dedup(terms) == terms
  {
    if |terms| > 1 {
      assert terms[0] != terms[1];
      DedupStays(terms[1..]);
      assert terms == [terms[0]] + terms[1..];
    }
  }

  // ----- cancelling -----

  /** How many of `n` equal terms an exclusive or keeps. */
  function KeptOf(t: Expr, n: nat): nat
  {
    if n % 2 == 1 then 1 else if n == 0 || ExprWidth(t).Some? then 0 else 2
  }

  lemma {:induction false} RunOfFirst(terms: seq<Expr>, le: Order)
    requires LinearOrder(le) && InOrder(terms, le) && terms != []
    ensures var n := RunLength(terms);
      && (forall i | 0 <= i < n :: terms[i] == terms[0])
      && terms[0] !in terms[n..] && n == multiset(terms)[terms[0]]
  {
    var rest := terms[1..];
    HeadSplits(terms);
    if |terms| > 1 && terms[1] == terms[0] {
      RunOfFirst(rest, le);
      var n := RunLength(rest);
      assert terms[1 + n..] == rest[n..];
      forall i | 0 <= i < 1 + n ensures terms[i] == terms[0] { if i > 0 { assert rest[i - 1] == terms[i]; } }
    } else if |terms| > 1 {
      forall t | t in rest ensures t != terms[0] {
        FirstIsLeast(rest, t, le);
        assert le(terms[0], terms[1]);
      }
    }
  }

  lemma {:induction false} RunCounts(t: Expr, terms: seq<Expr>, n: nat)
    requires n <= |terms| && forall i | 0 <= i < n :: terms[i] == t
    ensures forall x | x != t :: multiset(terms[n..])[x] == multiset(terms)[x]
  {
    if n > 0 {
      HeadSplits(terms);
      RunCounts(t, terms[1..], n - 1);
      assert terms[1..][n - 1..] == terms[n..];
    } else {
      assert terms[0..] == terms;
    }
  }

  /** Of sorted terms, an odd number of equal ones leaves one; an even number leaves none, or two if their width is
      not known. */
  lemma {:induction false} CancelCounts(terms: seq<Expr>, cancelled: Option<nat>, le: Order, x: Expr)
    requires LinearOrder(le) && InOrder(terms, le)
    ensures multiset(CancelRuns(terms, cancelled).0)[x] == KeptOf(x, multiset(terms)[x])
    decreases |terms|
  {
    hide LinearOrder, InOrder, CancelRuns, RunKept, RunWidth;
    if terms == [] {
      NothingToCancel(cancelled);
    } else {
      var n, t := RunLength(terms), terms[0];
      RunOfFirst(terms, le);
      RunCounts(t, terms, n);
      InOrderFrom(terms, n, le);
      CancelCounts(terms[n..], RunWidth(t, n, cancelled), le, x);
      CancelUnfolds(terms, cancelled);
      if x == t { assert multiset(terms[n..])[t] == 0; }
      KeptCounts(t, n, x);
    }
  }

  lemma InOrderFrom(terms: seq<Expr>, n: nat, le: Order)
    requires n <= |terms| && InOrder(terms, le)
    ensures InOrder(terms[n..], le)
  {
  }

  lemma NothingToCancel(cancelled: Option<nat>)
    ensures CancelRuns([], cancelled).0 == []
  {
  }

  lemma CancelUnfolds(terms: seq<Expr>, cancelled: Option<nat>)
    requires terms != []
    ensures var n, t := RunLength(terms), terms[0];
      CancelRuns(terms, cancelled).0
      == RunKept(t, n) + CancelRuns(terms[n..], RunWidth(t, n, cancelled)).0
  {
  }

  lemma KeptCounts(t: Expr, n: nat, x: Expr)
    requires n > 0
    ensures multiset(RunKept(t, n))[x] == if x == t then KeptOf(t, n) else 0
  {
  }

  // ----- constants -----

  lemma {:induction false} NonConstantsCount(terms: seq<Expr>, t: Expr)
    ensures multiset(NonConstants(terms))[t] == if t.Const? then 0 else multiset(terms)[t]
  {
    if terms != [] {
      NonConstantsCount(terms[1..], t);
      HeadSplits(terms);
    }
  }

  lemma NonConstantsPermuted(a: seq<Expr>, b: seq<Expr>)
    requires multiset(a) == multiset(b)
    ensures multiset(NonConstants(a)) == multiset(NonConstants(b))
  {
    forall t ensures multiset(NonConstants(a))[t] == multiset(NonConstants(b))[t] {
      NonConstantsCount(a, t);
      NonConstantsCount(b, t);
    }
  }

  predicate InRange(acc: Folded)
  {
    acc.Folded? ==> acc.width > 0 && acc.value < Pow2(acc.width)
  }

  function FoldTerm(op: BinOp, acc: Folded, t: Expr): Folded
    requires IsAssocComm(op)
  {
    if t.Const? then FoldConstant(op, acc, t.value, t.width) else acc
  }

  lemma FoldTermInRange(op: BinOp, acc: Folded, t: Expr)
    requires IsAssocComm(op) && InRange(acc)
    ensures InRange(FoldTerm(op, acc, t))
  {
  }

  lemma FoldSwap(op: BinOp, acc: Folded, s: Expr, t: Expr)
    requires IsAssocComm(op) && InRange(acc)
    ensures FoldTerm(op, FoldTerm(op, acc, s), t) == FoldTerm(op, FoldTerm(op, acc, t), s)
  {
    hide BinVal, Pow2;
    if s.Const? && t.Const? && s.width == t.width && s.width > 0 {
      var w := s.width;
      var x, y := s.value % Pow2(w), t.value % Pow2(w);
      IsReduced(x, w);
      IsReduced(y, w);
      Commutes(op, x, y, w);
      if acc.Folded? && acc.width == w {
        IsReduced(acc.value, w);
        SwapReduced(op, acc.value, x, y, w);
        IsReduced(BinVal(op, acc.value, x, w), w);
        IsReduced(BinVal(op, acc.value, y, w), w);
      }
    }
  }

  lemma IsReduced(v: nat, w: nat)
    requires v < Pow2(w)
    ensures v % Pow2(w) == v
  {
    ModUnique(v, 0, v, Pow2(w));
  }

  lemma SwapReduced(op: BinOp, v: nat, x: nat, y: nat, w: nat)
    requires IsAssocComm(op) && w > 0 && Fits(v, w) && Fits(x, w) && Fits(y, w)
    ensures BinVal(op, BinVal(op, v, x, w), y, w) == BinVal(op, BinVal(op, v, y, w), x, w)
  {
    hide BinVal, Pow2;
    Commutes(op, x, y, w);
    Associates(op, v, x, y, w);
    Associates(op, v, y, x, w);
  }

  lemma {:induction false} FoldMove(op: BinOp, terms: seq<Expr>, acc: Folded, t: Expr)
    requires IsAssocComm(op) && InRange(acc)
    ensures FoldConstants(op, terms, FoldTerm(op, acc, t)) == FoldTerm(op, FoldConstants(op, terms, acc), t)
  {
    hide FoldTerm;
    if terms != [] {
      var s := terms[0];
      FoldUnfolds(op, terms, acc);
      FoldUnfolds(op, terms, FoldTerm(op, acc, t));
      FoldSwap(op, acc, s, t);
      FoldTermInRange(op, acc, s);
      FoldMove(op, terms[1..], FoldTerm(op, acc, s), t);
    }
  }

  lemma FoldUnfolds(op: BinOp, terms: seq<Expr>, acc: Folded)
    requires IsAssocComm(op) && terms != []
    ensures FoldConstants(op, terms, acc) == FoldConstants(op, terms[1..], FoldTerm(op, acc, terms[0]))
  {
  }

  lemma {:induction false} FoldAppend(op: BinOp, a: seq<Expr>, b: seq<Expr>, acc: Folded)
    requires IsAssocComm(op)
    ensures FoldConstants(op, a + b, acc) == FoldConstants(op, b, FoldConstants(op, a, acc))
  {
    hide FoldTerm;
    if a == [] {
      assert a + b == b;
    } else {
      FoldUnfolds(op, a, acc);
      FoldUnfolds(op, a + b, acc);
      FoldAppend(op, a[1..], b, FoldTerm(op, acc, a[0]));
      assert (a + b)[1..] == a[1..] + b;
    }
  }

  /** A term may as well be folded first. */
  lemma FoldFirst(op: BinOp, a: seq<Expr>, t: Expr, b: seq<Expr>, acc: Folded)
    requires IsAssocComm(op) && InRange(acc)
    ensures FoldConstants(op, a + [t] + b, acc) == FoldConstants(op, a + b, FoldTerm(op, acc, t))
  {
    hide FoldTerm, FoldConstants;
    assert a + [t] + b == a + ([t] + b);
    FoldAppend(op, a, [t] + b, acc);
    FoldUnfolds(op, [t] + b, FoldConstants(op, a, acc));
    assert ([t] + b)[1..] == b;
    FoldMove(op, a, acc, t);
    FoldAppend(op, a, b, FoldTerm(op, acc, t));
  }

  lemma TakenOut(terms: seq<Expr>, k: nat)
    requires k < |terms|
    ensures terms == terms[..k] + [terms[k]] + terms[k + 1..]
    ensures multiset(terms[..k] + terms[k + 1..]) == multiset(terms) - multiset{terms[k]}
  {
    assert terms == terms[..k] + [terms[k]] + terms[k + 1..];
  }

  /** The folded constant does not depend on the order of the terms. */
  lemma {:induction false} FoldPermuted(op: BinOp, a: seq<Expr>, b: seq<Expr>, acc: Folded)
    requires IsAssocComm(op) && InRange(acc) && multiset(a) == multiset(b)
    ensures FoldConstants(op, a, acc) == FoldConstants(op, b, acc)
    decreases |a|
  {
    hide FoldTerm, FoldConstants;
    assert |a| == |multiset(a)| == |multiset(b)| == |b|;
    if a == [] {
      assert b == [];
    } else {
      var t := a[0];
      assert t in multiset(b);
      var k :| 0 <= k < |b| && b[k] == t;
      FoldUnfolds(op, a, acc);
      HeadSplits(a);
      TakenOut(b, k);
      FoldFirst(op, b[..k], t, b[k + 1..], acc);
      FoldTermInRange(op, acc, t);
      assert multiset(a[1..]) == multiset(a) - multiset{t};
      FoldPermuted(op, a[1..], b[..k] + b[k + 1..], FoldTerm(op, acc, t));
    }
  }

  // ----- the combined operation -----

  /** Permutations of one list of terms combine to the same outcome. */
  lemma CombinePermuted(op: BinOp, a: seq<Expr>, b: seq<Expr>, le: Order)
    requires IsAssocComm(op) && LinearOrder(le) && multiset(a) == multiset(b)
    ensures CombineTerms(op, a, le) == CombineTerms(op, b, le)
  {
    hide LinearOrder, Sort, NonConstants, FoldConstants, Dedup, CancelRuns, AssembleTerms, HasComplementaryPair,
      FirstWidth;
    FoldPermuted(op, a, b, NoConst);
    NonConstantsPermuted(a, b);
    SortPermuted(NonConstants(a), NonConstants(b), le);
    assert ReduceTerms(op, a, le) == ReduceTerms(op, b, le);
  }
}
