/** Ternary patterns and the sharp product. */
module Cubes {

  datatype Trit = Low | High | Var

  type Pattern = seq<Trit>

  predicate IsConcrete(p: Pattern)
  {
    forall i | 0 <= i < |p| :: p[i] != Var
  }

  function Flip(t: Trit): Trit
  {
    match t
    case Low => High
    case High => Low
    case Var => Var
  }

  /** Every concrete value of `q` is one of `p`. */
  predicate Covers(p: Pattern, q: Pattern)
  {
    |p| == |q| && forall i | 0 <= i < |p| :: p[i] == Var || p[i] == q[i]
  }

  /** Some bit is low in one pattern and high in the other. */
  predicate Disjoint(p: Pattern, q: Pattern)
  {
    exists i :: 0 <= i < |p| && i < |q| && p[i] != Var && q[i] != Var && p[i] != q[i]
  }

  function NumVars(p: Pattern): (n: nat)
    ensures n <= |p|
  {
    if p == [] then 0 else (if p[0] == Var then 1 else 0) + NumVars(p[1..])
  }

  /** Matching a concrete word: a loop that returns at the first mismatch. */
  method MatchesPrefix(p: Pattern, prefix: Pattern) returns (b: bool)
    ensures b <==> |prefix| <= |p| && Covers(p[..|prefix|], prefix)
  {
    if |prefix| > |p| { return false; }
    for i := 0 to |prefix|
      invariant forall j | 0 <= j < i :: p[j] == Var || p[j] == prefix[j]
    {
      if p[i] != Var && prefix[i] != p[i] {
        return false;
      }
    }
    return true;
  }

  // ----- merging two patterns -----

  predicate CanMerge(p: Pattern, q: Pattern)
  {
    |p| == |q| && exists i :: 0 <= i < |p| && p[i] != Var && q == p[i := Flip(p[i])]
  }

  /** Counts the differences, refusing one that is not low against high. */
  method CanMergeWith(p: Pattern, q: Pattern) returns (b: bool)
    ensures b <==> CanMerge(p, q)
  {
    if |p| != |q| { return false; }
    var differences := 0;
    ghost var at := 0;
    for i := 0 to |p|
      invariant differences == 0 ==> p[..i] == q[..i]
      invariant differences == 1 ==> 0 <= at < i && p[at] != Var && q[at] == Flip(p[at])
      invariant differences == 1 ==> forall j | 0 <= j < i && j != at :: p[j] == q[j]
      invariant differences >= 2 ==> !CanMerge(p, q)
      invariant differences >= 0
    {
      if p[i] != q[i] {
        if p[i] == Var || q[i] == Var {
          return false;
        }
        if differences == 1 { TwoDifferences(p, q, at, i); }
        if differences == 0 { at := i; }
        differences := differences + 1;
      }
    }
    if differences == 1 { assert q == p[at := Flip(p[at])]; }
    b := differences == 1;
  }

  lemma TwoDifferences(p: Pattern, q: Pattern, i: nat, j: nat)
    requires |p| == |q| && i < j < |p| && p[i] != q[i] && p[j] != q[j]
    ensures !CanMerge(p, q)
  {
    forall k | 0 <= k < |p| && p[k] != Var ensures q != p[k := Flip(p[k])] {
      var r := p[k := Flip(p[k])];
      if k != i { assert r[i] == p[i]; } else { assert r[j] == p[j]; }
    }
  }

  function Merge(p: Pattern, q: Pattern): (m: Pattern)
    requires CanMerge(p, q)
    ensures |m| == |p|
  {
    seq(|p|, i requires 0 <= i < |p| => if p[i] == q[i] then p[i] else Var)
  }

  /** Merging frees the one bit in which the patterns differ. */
  lemma MergeFrees(p: Pattern, q: Pattern) returns (i: nat)
    requires CanMerge(p, q)
    ensures i < |p| && p[i] != Var && q == p[i := Flip(p[i])] && Merge(p, q) == p[i := Var] == q[i := Var]
  {
    i :| 0 <= i < |p| && p[i] != Var && q == p[i := Flip(p[i])];
    assert Merge(p, q) == p[i := Var];
  }

  lemma CanMergeSymmetric(p: Pattern, q: Pattern)
    requires CanMerge(p, q)
    ensures CanMerge(q, p) && Merge(q, p) == Merge(p, q)
  {
    var i := MergeFrees(p, q);
    assert p == q[i := Flip(q[i])];
    assert CanMerge(q, p);
    assert Merge(q, p) == Merge(p, q);
  }

  // ----- facts about cubes -----

  lemma CoversTrans(p: Pattern, q: Pattern, r: Pattern)
    requires Covers(p, q) && Covers(q, r)
    ensures Covers(p, r)
  {
  }

  lemma {:induction false} CoversVars(p: Pattern, q: Pattern)
    requires Covers(p, q)
    ensures NumVars(p) >= NumVars(q)
    ensures NumVars(p) == NumVars(q) ==> p == q
  {
    if p != [] {
      assert Covers(p[1..], q[1..]);
      CoversVars(p[1..], q[1..]);
      assert p == [p[0]] + p[1..] && q == [q[0]] + q[1..];
    }
  }

  lemma {:induction false} SetVars(p: Pattern, i: nat, t: Trit)
    requires i < |p| && p[i] != t && (p[i] == Var || t == Var)
    ensures NumVars(p[i := t]) == if t == Var then NumVars(p) + 1 else NumVars(p) - 1
  {
    var q := p[i := t];
    if i == 0 {
      assert q[1..] == p[1..];
    } else {
      assert q[1..] == p[1..][i - 1 := t];
      SetVars(p[1..], i - 1, t);
    }
  }

  lemma {:induction false} ConcreteVars(p: Pattern)
    ensures IsConcrete(p) <==> NumVars(p) == 0
  {
    if p != [] {
      ConcreteVars(p[1..]);
      if NumVars(p) == 0 {
        forall i | 0 <= i < |p| ensures p[i] != Var { if i > 0 { assert p[i] == p[1..][i - 1]; } }
      } else if p[0] != Var {
        var i :| 0 <= i < |p| - 1 && p[1..][i] == Var;
        assert p[i + 1] == Var;
      }
    }
  }

  /** A concrete word of the pattern: variable bits read as low. */
  function Lowest(p: Pattern): (x: Pattern)
    ensures |x| == |p| && IsConcrete(x) && Covers(p, x)
  {
    seq(|p|, i requires 0 <= i < |p| => if p[i] == Var then Low else p[i])
  }

  /** Covering is inclusion of the sets of concrete words. */
  lemma CoversByWords(p: Pattern, q: Pattern)
    requires |p| == |q|
    ensures Covers(p, q) <==> forall x | IsConcrete(x) && Covers(q, x) :: Covers(p, x)
  {
    if Covers(p, q) {
      forall x | IsConcrete(x) && Covers(q, x) ensures Covers(p, x) { CoversTrans(p, q, x); }
    } else {
      var i :| 0 <= i < |p| && p[i] != Var && p[i] != q[i];
      var x := Lowest(q)[i := Flip(p[i])];
      assert IsConcrete(x) && Covers(q, x) && !Covers(p, x);
    }
  }

  /** Disjoint patterns are those with no concrete word in common. */
  lemma DisjointByWords(p: Pattern, q: Pattern)
    requires |p| == |q|
    ensures Disjoint(p, q) <==> forall x | IsConcrete(x) :: !(Covers(p, x) && Covers(q, x))
  {
    if !Disjoint(p, q) {
      var x: Pattern := seq(|p|, i requires 0 <= i < |p| =>
        if p[i] != Var then p[i] else if q[i] != Var then q[i] else Low);
      assert IsConcrete(x) && Covers(p, x) && Covers(q, x);
    }
  }

  // ----- sets of patterns -----

  ghost predicate AllWide(patterns: set<Pattern>, w: nat)
  {
    forall p | p in patterns :: |p| == w
  }

  /** The concrete word matches some pattern of the set. */
  ghost predicate Denotes(patterns: set<Pattern>, x: Pattern)
  {
    exists p :: p in patterns && Covers(p, x)
  }

  ghost predicate PairwiseDisjoint(patterns: set<Pattern>)
  {
    forall p, q | p in patterns && q in patterns && p != q :: Disjoint(p, q)
  }

  /** What the sharp product promises: pairwise disjoint cubes for exactly `a` minus `b`. */
  ghost predicate IsSharp(a: Pattern, b: Pattern, r: set<Pattern>)
  {
    && PairwiseDisjoint(r)
    && (forall p | p in r :: Covers(a, p))
    && forall x | IsConcrete(x) && |x| == |a| :: Denotes(r, x) <==> Covers(a, x) && !Covers(b, x)
  }

  /** Splitting on a bit that is free in `a` and fixed in `b`. */
  lemma SharpSplit(a: Pattern, b: Pattern, i: nat, rest: set<Pattern>)
    requires |a| == |b| && i < |a| && a[i] == Var && b[i] != Var
    requires IsSharp(a[i := b[i]], b, rest)
    ensures IsSharp(a, b, {a[i := Flip(b[i])]} + rest)
  {
    var outside, inside := a[i := Flip(b[i])], a[i := b[i]];
    var r := {outside} + rest;
    forall p | p in rest ensures Covers(a, p) && p[i] == b[i] { CoversTrans(a, inside, p); }
    forall p, q | p in r && q in r && p != q ensures Disjoint(p, q) {
      if p == outside || q == outside { assert p[i] != Var && q[i] != Var && p[i] != q[i]; }
    }
    forall x | IsConcrete(x) && |x| == |a| ensures Denotes(r, x) <==> Covers(a, x) && !Covers(b, x) {
      assert Denotes(rest, x) <==> Covers(inside, x) && !Covers(b, x);
      if x[i] == b[i] {
        assert Covers(inside, x) <==> Covers(a, x);
        assert Denotes(r, x) ==> Denotes(rest, x);
        if Denotes(rest, x) { var p :| p in rest && Covers(p, x); assert p in r; }
      } else {
        assert Covers(outside, x) <==> Covers(a, x);
        if Covers(a, x) { assert outside in r && Covers(outside, x); }
        if Denotes(r, x) { var p :| p in r && Covers(p, x); assert Covers(a, x) by { CoversTrans(a, p, x); } }
      }
    }
  }

  /** The bits that are free in one pattern and fixed in the other. */
  function Splits(a: Pattern, b: Pattern): nat
    requires |a| == |b|
  {
    if a == [] then 0 else (if a[0] == Var && b[0] != Var then 1 else 0) + Splits(a[1..], b[1..])
  }

  lemma {:induction false} OneSplit(a: Pattern, b: Pattern, i: nat)
    requires |a| == |b| && i < |a| && a[i] == Var && b[i] != Var
    ensures Splits(a, b) == Splits(a[i := b[i]], b) + 1
  {
    var c := a[i := b[i]];
    if i == 0 {
      assert c[1..] == a[1..];
    } else {
      OneSplit(a[1..], b[1..], i - 1);
      assert c[1..] == a[1..][i - 1 := b[1..][i - 1]];
    }
  }

  lemma {:induction false} NoSplit(a: Pattern, b: Pattern)
    requires |a| == |b| && forall j | 0 <= j < |a| :: !(a[j] == Var && b[j] != Var)
    ensures Splits(a, b) == 0
  {
    if a != [] { NoSplit(a[1..], b[1..]); }
  }

  /** The piece split off is none of the others. */
  lemma SplitCount(a: Pattern, b: Pattern, i: nat, rest: set<Pattern>)
    requires |a| == |b| && i < |a| && a[i] == Var && b[i] != Var && IsSharp(a[i := b[i]], b, rest)
    ensures |{a[i := Flip(b[i])]} + rest| == |rest| + 1
  {
    var piece, c := a[i := Flip(b[i])], a[i := b[i]];
    assert c[i] == b[i] && piece[i] == Flip(b[i]);
    assert !Covers(c, piece);
    assert {piece} + rest - {piece} == rest;
  }

  /** Roth's sharp product, with one piece for every bit split on; the loop always finds a bit. */
  method CubeSubtract(a: Pattern, b: Pattern) returns (r: set<Pattern>)
    requires |a| == |b|
    ensures IsSharp(a, b, r) && |r| == if Disjoint(a, b) then 1 else Splits(a, b)
    decreases NumVars(a)
  {
    if Disjoint(a, b) {
      DisjointByWords(a, b);
      assert Covers(a, a);
      r := {a};
      forall x | IsConcrete(x) && |x| == |a| ensures Denotes(r, x) <==> Covers(a, x) && !Covers(b, x) {
        if Covers(a, x) { assert a in r; }
      }
      return;
    }
    if Covers(b, a) {
      CoversByWords(b, a);
      NoSplit(a, b);
      r := {};
      return;
    }
    for i := 0 to |a|
      invariant forall j | 0 <= j < i :: !(a[j] == Var && b[j] != Var)
    {
      if a[i] == Var && b[i] != Var {
        SetVars(a, i, b[i]);
        var rest := CubeSubtract(a[i := b[i]], b);
        SharpSplit(a, b, i, rest);
        SplitCount(a, b, i, rest);
        OneSplit(a, b, i);
        r := {a[i := Flip(b[i])]} + rest;
        return;
      }
    }
    assert false;
  }
}
