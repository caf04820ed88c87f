/** Repeated merging of patterns in the style of Quine and McCluskey. */
module FieldMerge {
  import opened Cubes

  // ----- all patterns of a width -----

  function AllCubes(w: nat): (s: set<Pattern>)
    ensures forall p :: p in s <==> |p| == w
  {
    if w == 0 then {[]}
    else
      var shorter := AllCubes(w - 1);
      var s := (set p | p in shorter :: [Low] + p) + (set p | p in shorter :: [High] + p)
               + (set p | p in shorter :: [Var] + p);
      SplitsFirst(shorter, s, w);
      s
  }

  lemma SplitsFirst(shorter: set<Pattern>, s: set<Pattern>, w: nat)
    requires w > 0 && forall p :: p in shorter <==> |p| == w - 1
    requires s == (set p | p in shorter :: [Low] + p) + (set p | p in shorter :: [High] + p)
             + (set p | p in shorter :: [Var] + p)
    ensures forall p :: p in s <==> |p| == w
  {
    forall p: Pattern | |p| == w ensures p in s {
      var rest := p[1..];
      assert rest in shorter && p == [p[0]] + rest;
      match p[0]
      case Low => assert p == [Low] + rest;
      case High => assert p == [High] + rest;
      case Var => assert p == [Var] + rest;
    }
  }

  // ----- one round -----

  function RemoveSubsumed(s: set<Pattern>): (r: set<Pattern>)
    ensures r <= s
  {
    set p | p in s && !(exists o :: o in s && o != p && Covers(o, p))
  }

  ghost predicate Antichain(s: set<Pattern>)
  {
    forall p, q | p in s && q in s && Covers(p, q) :: p == q
  }

  /** The patterns that merge with some other one. */
  function Used(s: set<Pattern>): set<Pattern>
  {
    set p | p in s && exists q :: q in s && CanMerge(p, q)
  }

  function Merged(s: set<Pattern>): set<Pattern>
  {
    set p, q | p in s && q in s && CanMerge(p, q) :: Merge(p, q)
  }

  function Round(s: set<Pattern>): set<Pattern>
  {
    RemoveSubsumed((s - Used(s)) + Merged(s))
  }

  /** The cubes that some pattern of the set covers. */
  function Covered(s: set<Pattern>, w: nat): set<Pattern>
  {
    set c | c in AllCubes(w) && exists p :: p in s && Covers(p, c)
  }

  // ----- what a round keeps and gains -----

  lemma {:induction false} SomeMaximal(s: set<Pattern>, p: Pattern) returns (m: Pattern)
    requires p in s
    ensures m in RemoveSubsumed(s) && Covers(m, p)
    decreases |p| - NumVars(p)
  {
    if o :| o in s && o != p && Covers(o, p) {
      CoversVars(o, p);
      m := SomeMaximal(s, o);
      CoversTrans(m, o, p);
    } else {
      m := p;
    }
  }

  lemma RemoveSubsumedCovers(s: set<Pattern>, w: nat)
    ensures Covered(RemoveSubsumed(s), w) == Covered(s, w) && Antichain(RemoveSubsumed(s))
  {
    var r := RemoveSubsumed(s);
    forall c | c in Covered(s, w) ensures c in Covered(r, w) {
      var p :| p in s && Covers(p, c);
      var m := SomeMaximal(s, p);
      CoversTrans(m, p, c);
    }
  }

  lemma MergeCovers(p: Pattern, q: Pattern)
    requires CanMerge(p, q)
    ensures Covers(Merge(p, q), p) && Covers(Merge(p, q), q) && !Covers(p, Merge(p, q)) && p != q
    ensures forall x | IsConcrete(x) && Covers(Merge(p, q), x) :: Covers(p, x) || Covers(q, x)
  {
    var i := MergeFrees(p, q);
    assert q[i] != p[i];
  }

  /** A round never loses a covered cube. */
  lemma RoundKeeps(s: set<Pattern>, w: nat)
    requires AllWide(s, w)
    ensures Covered(s, w) <= Covered(Round(s), w) && AllWide(Round(s), w) && Antichain(Round(s))
  {
    var t := (s - Used(s)) + Merged(s);
    RemoveSubsumedCovers(t, w);
    forall c | c in Covered(s, w) ensures c in Covered(t, w) {
      var p :| p in s && Covers(p, c);
      if p in Used(s) {
        var q :| q in s && CanMerge(p, q);
        MergeCovers(p, q);
        CoversTrans(Merge(p, q), p, c);
        assert Merge(p, q) in t;
      } else {
        assert p in t;
      }
    }
  }

  /** A round that merges anything covers a cube that was not covered before. */
  lemma RoundGains(s: set<Pattern>, w: nat, p: Pattern, q: Pattern)
    requires AllWide(s, w) && Antichain(s) && p in s && q in s && CanMerge(p, q)
    ensures Covered(s, w) < Covered(Round(s), w) && Round(s) != s
  {
    RoundKeeps(s, w);
    MergeCovers(p, q);
    var m := Merge(p, q);
    var t := (s - Used(s)) + Merged(s);
    RemoveSubsumedCovers(t, w);
    assert m in t && Covers(m, m) && m in Covered(Round(s), w);
    if m in Covered(s, w) {
      var o :| o in s && Covers(o, m);
      CoversTrans(o, m, p);
      assert false;
    }
  }

  /** An antichain in which nothing merges is left as it is. */
  lemma NothingMerges(s: set<Pattern>)
    requires Antichain(s) && forall p, q | p in s && q in s :: !CanMerge(p, q)
    ensures Round(s) == s
  {
    assert Used(s) == {} && Merged(s) == {};
    assert (s - Used(s)) + Merged(s) == s;
  }

  /** The invariant of the loop: a round changes the set exactly when two of its patterns merge. */
  lemma RoundChanges(s: set<Pattern>, w: nat)
    requires AllWide(s, w) && Antichain(s)
    ensures Round(s) != s <==> exists p, q :: p in s && q in s && CanMerge(p, q)
    ensures Round(s) != s ==> Covered(s, w) < Covered(Round(s), w)
  {
    if exists p, q :: p in s && q in s && CanMerge(p, q) {
      var p, q :| p in s && q in s && CanMerge(p, q);
      RoundGains(s, w, p, q);
    } else {
      NothingMerges(s);
    }
  }

  /** Two sets with the same concrete words. */
  ghost predicate SameWords(s: set<Pattern>, t: set<Pattern>)
  {
    forall x | IsConcrete(x) :: Denotes(s, x) <==> Denotes(t, x)
  }

  lemma RemoveSubsumedWords(s: set<Pattern>)
    ensures SameWords(RemoveSubsumed(s), s)
  {
    forall x | IsConcrete(x) ensures Denotes(RemoveSubsumed(s), x) <==> Denotes(s, x) {
      if Denotes(s, x) {
        var p :| p in s && Covers(p, x);
        var m := SomeMaximal(s, p);
        CoversTrans(m, p, x);
      }
    }
  }

  lemma RoundWords(s: set<Pattern>)
    ensures SameWords(Round(s), s)
  {
    var t := (s - Used(s)) + Merged(s);
    RemoveSubsumedWords(t);
    forall x | IsConcrete(x) ensures Denotes(t, x) <==> Denotes(s, x) {
      if Denotes(s, x) {
        var p :| p in s && Covers(p, x);
        if p in Used(s) {
          var q :| q in s && CanMerge(p, q);
          MergeCovers(p, q);
          CoversTrans(Merge(p, q), p, x);
          assert Merge(p, q) in t;
        } else {
          assert p in t;
        }
      }
      if Denotes(t, x) {
        var m :| m in t && Covers(m, x);
        if m !in s {
          var p, q :| p in s && q in s && CanMerge(p, q) && m == Merge(p, q);
          MergeCovers(p, q);
        }
      }
    }
  }

  // ----- prime implicants -----

  /** Every concrete word of `c` is in the set of words. */
  ghost predicate Implicant(c: Pattern, words: set<Pattern>, w: nat)
  {
    |c| == w && forall x | IsConcrete(x) && Covers(c, x) :: x in words
  }

  ghost predicate Prime(c: Pattern, words: set<Pattern>, w: nat)
  {
    Implicant(c, words, w) && forall o | Implicant(o, words, w) && Covers(o, c) :: o == c
  }

  /** After `k` rounds: all implicants with `k` free bits and the primes with fewer. */
  ghost predicate AfterRounds(s: set<Pattern>, words: set<Pattern>, w: nat, k: nat)
  {
    forall c :: c in s <==>
      (Implicant(c, words, w) && NumVars(c) == k) || (Prime(c, words, w) && NumVars(c) < k)
  }

  lemma Smaller(o: Pattern, c: Pattern, words: set<Pattern>, w: nat)
    requires Implicant(o, words, w) && Covers(o, c)
    ensures Implicant(c, words, w)
  {
    forall x | IsConcrete(x) && Covers(c, x) ensures x in words { CoversTrans(o, c, x); }
  }

  lemma MergeImplicant(p: Pattern, q: Pattern, words: set<Pattern>, w: nat)
    requires CanMerge(p, q) && Implicant(p, words, w) && Implicant(q, words, w)
    ensures Implicant(Merge(p, q), words, w) && NumVars(Merge(p, q)) == NumVars(p) + 1 && NumVars(q) == NumVars(p)
  {
    MergeCovers(p, q);
    var i := MergeFrees(p, q);
    SetVars(p, i, Var);
    SetVars(q, i, Var);
  }

  /** An implicant with a free bit is the merge of two implicants with one free bit less. */
  lemma {:induction false} SplitImplicant(c: Pattern, words: set<Pattern>, w: nat) returns (p: Pattern, q: Pattern)
    requires Implicant(c, words, w) && NumVars(c) > 0
    ensures CanMerge(p, q) && Merge(p, q) == c && Implicant(p, words, w) && Implicant(q, words, w)
    ensures NumVars(p) == NumVars(c) - 1 && NumVars(q) == NumVars(c) - 1
  {
    ConcreteVars(c);
    var i :| 0 <= i < |c| && c[i] == Var;
    p, q := c[i := Low], c[i := High];
    SetVars(c, i, Low);
    SetVars(c, i, High);
    Smaller(c, p, words, w);
    Smaller(c, q, words, w);
    assert q == p[i := Flip(p[i])] && CanMerge(p, q);
    assert Merge(p, q) == c;
  }

  /** An implicant is prime exactly when it merges with no implicant. */
  lemma PrimeMergesNot(c: Pattern, words: set<Pattern>, w: nat)
    requires Implicant(c, words, w)
    ensures Prime(c, words, w) <==> forall q | Implicant(q, words, w) :: !CanMerge(c, q)
  {
    if q :| Implicant(q, words, w) && CanMerge(c, q) {
      MergeImplicant(c, q, words, w);
      MergeCovers(c, q);
    } else if !Prime(c, words, w) {
      var o :| Implicant(o, words, w) && Covers(o, c) && o != c;
      var i :| 0 <= i < |c| && o[i] != c[i];
      var q := c[i := Flip(c[i])];
      assert Covers(o, q);
      Smaller(o, q, words, w);
      assert CanMerge(c, q);
    }
  }

  lemma ConcreteStart(words: set<Pattern>, w: nat)
    requires AllWide(words, w) && forall x | x in words :: IsConcrete(x)
    ensures AfterRounds(words, words, w, 0) && RemoveSubsumed(words) == words
  {
    forall c ensures c in words <==> Implicant(c, words, w) && NumVars(c) == 0 {
      ConcreteVars(c);
      if c in words {
        forall x | IsConcrete(x) && Covers(c, x) ensures x in words { assert x == c; }
      }
      if Implicant(c, words, w) && NumVars(c) == 0 { assert Covers(c, c); }
    }
    forall p | p in words ensures p in RemoveSubsumed(words) {
      forall o | o in words && Covers(o, p) ensures o == p {}
    }
  }

  /** Members of a stage that merge have exactly `k` free bits, and these are its non-primes. */
  lemma StageUsed(s: set<Pattern>, words: set<Pattern>, w: nat, k: nat, c: Pattern)
    requires AfterRounds(s, words, w, k) && c in s
    ensures c in Used(s) <==> !Prime(c, words, w)
  {
    PrimeMergesNot(c, words, w);
    if !Prime(c, words, w) {
      var q :| Implicant(q, words, w) && CanMerge(c, q);
      MergeImplicant(c, q, words, w);
      assert q in s;
    }
  }

  lemma StageMerged(s: set<Pattern>, words: set<Pattern>, w: nat, k: nat, c: Pattern)
    requires AfterRounds(s, words, w, k)
    ensures c in Merged(s) <==> Implicant(c, words, w) && NumVars(c) == k + 1
  {
    if c in Merged(s) {
      var p, q :| p in s && q in s && CanMerge(p, q) && c == Merge(p, q);
      StageUsed(s, words, w, k, p);
      assert p in Used(s);
      MergeImplicant(p, q, words, w);
    }
    if Implicant(c, words, w) && NumVars(c) == k + 1 {
      var p, q := SplitImplicant(c, words, w);
      assert p in s && q in s;
    }
  }

  /** One more round: all implicants with one more free bit, and the primes left behind. */
  lemma NextStage(s: set<Pattern>, words: set<Pattern>, w: nat, k: nat)
    requires AfterRounds(s, words, w, k)
    ensures AfterRounds(Round(s), words, w, k + 1)
  {
    var t := (s - Used(s)) + Merged(s);
    forall c ensures c in t <==>
      (Implicant(c, words, w) && NumVars(c) == k + 1) || (Prime(c, words, w) && NumVars(c) < k + 1)
    {
      StageMerged(s, words, w, k, c);
      if c in s { StageUsed(s, words, w, k, c); }
    }
    forall c | c in t ensures c in RemoveSubsumed(t) {
      forall o | o in t && Covers(o, c) ensures o == c {
        if !Prime(c, words, w) { CoversVars(o, c); }
      }
    }
    assert RemoveSubsumed(t) == t;
  }

  /** Dropping free bits one at a time reaches every smaller number of free bits. */
  lemma {:induction false} ImplicantWith(c: Pattern, words: set<Pattern>, w: nat, k: nat) returns (d: Pattern)
    requires Implicant(c, words, w) && k <= NumVars(c)
    ensures Implicant(d, words, w) && NumVars(d) == k
    decreases NumVars(c)
  {
    if NumVars(c) == k {
      d := c;
    } else {
      var p, q := SplitImplicant(c, words, w);
      d := ImplicantWith(p, words, w, k);
    }
  }

  lemma NothingAbove(s: set<Pattern>, words: set<Pattern>, w: nat, k: nat)
    requires AfterRounds(s, words, w, k) && AfterRounds(s, words, w, k + 1)
    ensures forall c | Implicant(c, words, w) :: NumVars(c) <= k
  {
    forall c | Implicant(c, words, w) ensures NumVars(c) <= k {
      if NumVars(c) > k {
        var d := ImplicantWith(c, words, w, k + 1);
      }
    }
  }

  /** When a stage repeats, it consists of all prime implicants. */
  lemma LastStage(s: set<Pattern>, words: set<Pattern>, w: nat, k: nat)
    requires AfterRounds(s, words, w, k) && Round(s) == s
    ensures forall c :: c in s <==> Prime(c, words, w)
  {
    NextStage(s, words, w, k);
    NothingAbove(s, words, w, k);
  }

  // ----- the loop -----

  /** The patterns of a set in some order. */
  method Listed(s: set<Pattern>) returns (list: seq<Pattern>)
    ensures forall p :: p in list <==> p in s
    ensures forall i, j | 0 <= i < j < |list| :: list[i] != list[j]
  {
    list := [];
    var rest := s;
    while rest != {}
      invariant rest <= s
      invariant forall p :: p in list <==> p in s && p !in rest
      invariant forall i, j | 0 <= i < j < |list| :: list[i] != list[j]
    {
      var p :| p in rest;
      list, rest := list + [p], rest - {p};
    }
  }

  /** The pair `m < n` merges and comes before pair `(i, j)`. */
  ghost predicate MergesBefore(list: seq<Pattern>, i: int, j: int, m: int, n: int)
  {
    0 <= m < n < |list| && (m < i || (m == i && n < j)) && CanMerge(list[m], list[n])
  }

  ghost predicate UsedBefore(list: seq<Pattern>, i: int, j: int, p: Pattern)
  {
    exists m, n :: MergesBefore(list, i, j, m, n) && (p == list[m] || p == list[n])
  }

  ghost predicate MergedBefore(list: seq<Pattern>, i: int, j: int, p: Pattern)
  {
    exists m, n :: MergesBefore(list, i, j, m, n) && p == Merge(list[m], list[n])
  }

  ghost predicate PairsDone(list: seq<Pattern>, i: int, j: int, used: set<Pattern>, merged: set<Pattern>)
  {
    && (forall p :: p in used <==> UsedBefore(list, i, j, p))
    && (forall p :: p in merged <==> MergedBefore(list, i, j, p))
  }

  /** One pair more; it matters only if it merges. */
  lemma OnePair(list: seq<Pattern>, i: int, j: int, p: Pattern)
    requires 0 <= i < j < |list|
    ensures UsedBefore(list, i, j + 1, p) <==>
      UsedBefore(list, i, j, p) || (CanMerge(list[i], list[j]) && (p == list[i] || p == list[j]))
    ensures MergedBefore(list, i, j + 1, p) <==>
      MergedBefore(list, i, j, p) || (CanMerge(list[i], list[j]) && p == Merge(list[i], list[j]))
  {
    var next := j + 1;
    forall m, n ensures MergesBefore(list, i, next, m, n) <==>
      MergesBefore(list, i, j, m, n) || (m == i && n == j && CanMerge(list[i], list[j]))
    {
    }
    if CanMerge(list[i], list[j]) { assert MergesBefore(list, i, next, i, j); }
  }

  lemma NextPair(list: seq<Pattern>, i: int, j: int, used: set<Pattern>, merged: set<Pattern>)
    requires 0 <= i < j < |list| && PairsDone(list, i, j, used, merged)
    ensures !CanMerge(list[i], list[j]) ==> PairsDone(list, i, j + 1, used, merged)
    ensures CanMerge(list[i], list[j]) ==>
      PairsDone(list, i, j + 1, used + {list[i], list[j]}, merged + {Merge(list[i], list[j])})
  {
    var next := j + 1;
    forall p
      ensures UsedBefore(list, i, next, p)
              <==> UsedBefore(list, i, j, p) || (CanMerge(list[i], list[j]) && (p == list[i] || p == list[j]))
      ensures MergedBefore(list, i, next, p)
              <==> MergedBefore(list, i, j, p) || (CanMerge(list[i], list[j]) && p == Merge(list[i], list[j]))
    {
      OnePair(list, i, j, p);
    }
  }

  lemma AllPairs(list: seq<Pattern>, s: set<Pattern>, used: set<Pattern>, merged: set<Pattern>)
    requires forall p :: p in list <==> p in s
    requires PairsDone(list, |list|, 0, used, merged)
    ensures used == Used(s) && merged == Merged(s)
  {
    forall p ensures p in used <==> p in Used(s) {
      if p in Used(s) {
        var q :| q in s && CanMerge(p, q);
        PairListed(list, p, q);
      }
      if p in used {
        var m, n :| MergesBefore(list, |list|, 0, m, n) && (p == list[m] || p == list[n]);
        CanMergeSymmetric(list[m], list[n]);
        assert list[m] in s && list[n] in s;
      }
    }
    forall p ensures p in merged <==> p in Merged(s) {
      if p in Merged(s) {
        var x, y :| x in s && y in s && CanMerge(x, y) && p == Merge(x, y);
        PairListed(list, x, y);
      }
      if p in merged {
        var m, n :| MergesBefore(list, |list|, 0, m, n) && p == Merge(list[m], list[n]);
        assert list[m] in s && list[n] in s;
      }
    }
  }

  /** A mergeable pair occurs in the list in one order or the other. */
  lemma PairListed(list: seq<Pattern>, p: Pattern, q: Pattern)
    requires p in list && q in list && CanMerge(p, q)
    ensures UsedBefore(list, |list|, 0, p) && UsedBefore(list, |list|, 0, q)
            && MergedBefore(list, |list|, 0, Merge(p, q))
  {
    MergeCovers(p, q);
    CanMergeSymmetric(p, q);
    var m :| 0 <= m < |list| && list[m] == p;
    var n :| 0 <= n < |list| && list[n] == q;
    if m < n {
      assert MergesBefore(list, |list|, 0, m, n);
    } else {
      assert MergesBefore(list, |list|, 0, n, m);
    }
  }

  lemma RowStart(list: seq<Pattern>, i: int, used: set<Pattern>, merged: set<Pattern>)
    requires 0 <= i < |list| && PairsDone(list, i, 0, used, merged)
    ensures PairsDone(list, i, i + 1, used, merged)
  {
    var first := i + 1;
    forall m, n ensures MergesBefore(list, i, first, m, n) <==> MergesBefore(list, i, 0, m, n) {}
    SamePairsDone(list, i, 0, i, first, used, merged);
  }

  lemma RowEnd(list: seq<Pattern>, i: int, used: set<Pattern>, merged: set<Pattern>)
    requires 0 <= i < |list| && PairsDone(list, i, |list|, used, merged)
    ensures PairsDone(list, i + 1, 0, used, merged)
  {
    var row := i + 1;
    forall m, n ensures MergesBefore(list, row, 0, m, n) <==> MergesBefore(list, i, |list|, m, n) {}
    SamePairsDone(list, i, |list|, row, 0, used, merged);
  }

  lemma SamePairsDone(list: seq<Pattern>, i: int, j: int, k: int, l: int, used: set<Pattern>, merged: set<Pattern>)
    requires PairsDone(list, i, j, used, merged)
    requires forall m, n :: MergesBefore(list, k, l, m, n) <==> MergesBefore(list, i, j, m, n)
    ensures PairsDone(list, k, l, used, merged)
  {
    forall p ensures UsedBefore(list, k, l, p) <==> UsedBefore(list, i, j, p)
      ensures MergedBefore(list, k, l, p) <==> MergedBefore(list, i, j, p)
    {
    }
  }

  /** Compares one pattern with all later ones. */
  method MergeRow(list: seq<Pattern>, i: nat, usedSoFar: set<Pattern>, mergedSoFar: set<Pattern>)
    returns (used: set<Pattern>, merged: set<Pattern>)
    requires i < |list| && PairsDone(list, i, 0, usedSoFar, mergedSoFar)
    ensures PairsDone(list, i + 1, 0, used, merged)
  {
    used, merged := usedSoFar, mergedSoFar;
    RowStart(list, i, used, merged);
    for j := i + 1 to |list|
      invariant PairsDone(list, i, j, used, merged)
    {
      NextPair(list, i, j, used, merged);
      var mergeable := CanMergeWith(list[i], list[j]);
      if mergeable {
        used, merged := used + {list[i], list[j]}, merged + {Merge(list[i], list[j])};
      }
    }
    RowEnd(list, i, used, merged);
  }

  /** One round over the patterns in any order. */
  method MergeRound(s: set<Pattern>) returns (next: set<Pattern>)
    ensures next == Round(s)
  {
    var used: set<Pattern>, merged: set<Pattern> := {}, {};
    var list := Listed(s);
    for i := 0 to |list|
      invariant PairsDone(list, i, 0, used, merged)
    {
      used, merged := MergeRow(list, i, used, merged);
    }
    AllPairs(list, s, used, merged);
    next := RemoveSubsumed((s - used) + merged);
  }

  // ----- what merging ends with -----

  function Rounds(s: set<Pattern>, k: nat): set<Pattern>
  {
    if k == 0 then s else Round(Rounds(s, k - 1))
  }

  /** Rounds of merging lead from the patterns to the set, which a further round does not change. */
  ghost predicate MergesTo(patterns: set<Pattern>, merged: set<Pattern>)
  {
    exists k: nat :: Rounds(RemoveSubsumed(patterns), k) == merged && Round(merged) == merged
  }

  /** No pattern covers another, and no two of them merge. */
  ghost predicate Unmergeable(patterns: set<Pattern>)
  {
    Antichain(patterns) && forall p, q | p in patterns && q in patterns :: !CanMerge(p, q)
  }

  lemma RoundsStart(s: set<Pattern>)
    ensures Rounds(s, 0) == s
  {
  }

  lemma RoundsStep(s: set<Pattern>, k: nat)
    ensures Rounds(s, k + 1) == Round(Rounds(s, k))
  {
    hide Round;
  }

  lemma RemoveSubsumedIsWide(s: set<Pattern>, w: nat)
    requires AllWide(s, w)
    ensures AllWide(RemoveSubsumed(s), w)
  {
  }

  lemma {:induction false} RoundsStay(s: set<Pattern>, j: nat, k: nat)
    requires j <= k && Round(Rounds(s, j)) == Rounds(s, j)
    ensures Rounds(s, k) == Rounds(s, j)
    decreases k
  {
    hide Round;
    if j < k { RoundsStay(s, j, k - 1); }
  }

  /** Merging has one result, whatever the order of iteration. */
  lemma MergesToOne(patterns: set<Pattern>, a: set<Pattern>, b: set<Pattern>)
    requires MergesTo(patterns, a) && MergesTo(patterns, b)
    ensures a == b
  {
    var s := RemoveSubsumed(patterns);
    var j: nat :| Rounds(s, j) == a && Round(a) == a;
    var k: nat :| Rounds(s, k) == b && Round(b) == b;
    if j <= k { RoundsStay(s, j, k); } else { RoundsStay(s, k, j); }
  }

  ghost predicate AllConcrete(patterns: set<Pattern>)
  {
    forall x | x in patterns :: IsConcrete(x)
  }

  /** The set after `k` rounds. */
  ghost predicate Merging(s: set<Pattern>, patterns: set<Pattern>, w: nat, k: nat)
  {
    && AllWide(s, w) && SameWords(s, patterns) && Antichain(s)
    && s == Rounds(RemoveSubsumed(patterns), k)
    && (AllConcrete(patterns) ==> AfterRounds(s, patterns, w, k))
  }

  lemma StartMerging(patterns: set<Pattern>, w: nat)
    requires AllWide(patterns, w)
    ensures Merging(RemoveSubsumed(patterns), patterns, w, 0)
  {
    hide RemoveSubsumed, Rounds;
    RoundsStart(RemoveSubsumed(patterns));
    RemoveSubsumedIsWide(patterns, w);
    RemoveSubsumedWords(patterns);
    RemoveSubsumedCovers(patterns, w);
    if AllConcrete(patterns) { ConcreteStart(patterns, w); }
  }

  lemma NextMerging(s: set<Pattern>, patterns: set<Pattern>, w: nat, k: nat)
    requires Merging(s, patterns, w, k) && Round(s) != s
    ensures Merging(Round(s), patterns, w, k + 1) && Covered(s, w) < Covered(Round(s), w)
  {
    hide Round, Rounds, RemoveSubsumed, Covered, AfterRounds;
    RoundsStep(RemoveSubsumed(patterns), k);
    RoundChanges(s, w);
    RoundKeeps(s, w);
    RoundWords(s);
    if AllConcrete(patterns) { NextStage(s, patterns, w, k); }
  }

  lemma EndMerging(s: set<Pattern>, patterns: set<Pattern>, w: nat, k: nat)
    requires Merging(s, patterns, w, k) && Round(s) == s
    ensures AllWide(s, w) && SameWords(s, patterns) && Unmergeable(s) && MergesTo(patterns, s)
    ensures AllConcrete(patterns) ==> forall c :: c in s <==> Prime(c, patterns, w)
  {
    hide Round, Rounds, RemoveSubsumed, AfterRounds, Prime;
    RoundChanges(s, w);
    if AllConcrete(patterns) { LastStage(s, patterns, w, k); }
  }

  /** Merges until a round changes nothing.  The result denotes the same words and is an antichain in
      which no two patterns merge; from concrete words it is exactly the set of prime implicants. */
  method MergePatterns(patterns: set<Pattern>, w: nat) returns (merged: set<Pattern>)
    requires AllWide(patterns, w)
    ensures AllWide(merged, w) && SameWords(merged, patterns)
    ensures Unmergeable(merged) && MergesTo(patterns, merged)
    ensures (forall x | x in patterns :: IsConcrete(x)) ==> forall c :: c in merged <==> Prime(c, patterns, w)
  {
    hide Merging, Round, RemoveSubsumed, Covered, Prime, AllWide, MergesTo, Unmergeable;
    merged := RemoveSubsumed(patterns);
    StartMerging(patterns, w);
    ghost var k := 0;
    while true
      invariant k >= 0 && Merging(merged, patterns, w, k)
      decreases AllCubes(w) - Covered(merged, w)
    {
      MergingIsWide(merged, patterns, w, k);
      var next := MergeRound(merged);
      if next == merged {
        EndMerging(merged, patterns, w, k);
        return;
      }
      NextMerging(merged, patterns, w, k);
      CoveredIsWide(next, w);
      merged, k := next, k + 1;
    }
  }

  lemma MergingIsWide(s: set<Pattern>, patterns: set<Pattern>, w: nat, k: nat)
    requires Merging(s, patterns, w, k)
    ensures AllWide(s, w)
  {
  }

  lemma CoveredIsWide(s: set<Pattern>, w: nat)
    ensures Covered(s, w) <= AllCubes(w)
  {
  }
}
