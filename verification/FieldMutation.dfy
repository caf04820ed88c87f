/** Uncovered values of a field and the mutation of its patterns. */
module FieldMutation {
  import opened Words
  import opened Cubes
  import opened FieldMerge

  // ----- the words of a pattern, counted -----

  /** The concrete words a pattern covers. */
  function WordsOf(p: Pattern): (s: set<Pattern>)
    ensures forall x :: x in s <==> IsConcrete(x) && Covers(p, x)
  {
    if p == [] then {[]}
    else
      var rest := WordsOf(p[1..]);
      var s := (if p[0] == High then {} else Prefixed(Low, rest)) + (if p[0] == Low then {} else Prefixed(High, rest));
      WordsSplit(p, rest, s);
      s
  }

  function Prefixed(t: Trit, rest: set<Pattern>): set<Pattern>
  {
    set x | x in rest :: [t] + x
  }

  lemma WordsSplit(p: Pattern, rest: set<Pattern>, s: set<Pattern>)
    requires p != [] && forall x :: x in rest <==> IsConcrete(x) && Covers(p[1..], x)
    requires s
             == (if p[0] == High then {} else Prefixed(Low, rest)) + (if p[0] == Low then {} else Prefixed(High, rest))
    ensures forall x :: x in s <==> IsConcrete(x) && Covers(p, x)
  {
    forall x ensures x in s <==> IsConcrete(x) && Covers(p, x) {
      if x in s {
        var y :| y in rest && (x == [Low] + y || x == [High] + y);
        assert x[1..] == y;
        forall i | 0 < i < |x| ensures x[i] != Var && (p[i] == Var || p[i] == x[i]) {
          assert x[i] == y[i - 1] && p[i] == p[1..][i - 1];
        }
      }
      if IsConcrete(x) && Covers(p, x) {
        var y := x[1..];
        assert IsConcrete(y) && Covers(p[1..], y) && x == [x[0]] + y;
        assert y in rest;
        assert x in Prefixed(x[0], rest);
      }
    }
  }

  lemma {:induction false} PrefixedSize(t: Trit, rest: set<Pattern>)
    ensures |Prefixed(t, rest)| == |rest|
  {
    if rest != {} {
      var y :| y in rest;
      PrefixedSize(t, rest - {y});
      assert Prefixed(t, rest) == Prefixed(t, rest - {y}) + {[t] + y};
      assert ([t] + y)[1..] == y;
      forall z | z in rest - {y} ensures [t] + z != [t] + y { assert ([t] + z)[1..] == z; }
    } else {
      assert Prefixed(t, rest) == {};
    }
  }

  lemma HalvesSize(rest: set<Pattern>)
    ensures |Prefixed(Low, rest) + Prefixed(High, rest)| == 2 * |rest|
  {
    PrefixedSize(Low, rest);
    PrefixedSize(High, rest);
    forall x | x in Prefixed(Low, rest) ensures x !in Prefixed(High, rest) { assert x[0] == Low; }
    assert Prefixed(Low, rest) * Prefixed(High, rest) == {};
  }

  lemma HalvesOf(p: Pattern)
    requires p != []
    ensures p[0] == Low ==> WordsOf(p) == Prefixed(Low, WordsOf(p[1..]))
    ensures p[0] == High ==> WordsOf(p) == Prefixed(High, WordsOf(p[1..]))
    ensures p[0] == Var ==> WordsOf(p) == Prefixed(Low, WordsOf(p[1..])) + Prefixed(High, WordsOf(p[1..]))
  {
  }

  lemma HalvesCount(p: Pattern)
    requires p != []
    ensures |WordsOf(p)| == if p[0] == Var then 2 * |WordsOf(p[1..])| else |WordsOf(p[1..])|
  {
    HalvesOf(p);
    var rest := WordsOf(p[1..]);
    if p[0] == Var { HalvesSize(rest); } else { PrefixedSize(p[0], rest); }
  }

  lemma EmptyWord()
    ensures |WordsOf([])| == 1
  {
    assert WordsOf([]) == {[]};
  }

  /** A pattern with `k` free bits covers `2^k` words. */
  lemma {:induction false} WordCount(p: Pattern)
    ensures |WordsOf(p)| == Pow2(NumVars(p))
  {
    if p == [] {
      EmptyWord();
    } else {
      WordCount(p[1..]);
      HalvesCount(p);
      var n := NumVars(p[1..]);
      assert NumVars(p) == if p[0] == Var then n + 1 else n;
      assert Pow2(n + 1) == 2 * Pow2(n);
    }
  }

  /** The words the patterns of a list cover. */
  function WordsOfAll(list: seq<Pattern>): set<Pattern>
  {
    if list == [] then {} else WordsOfAll(list[..|list| - 1]) + WordsOf(list[|list| - 1])
  }

  lemma {:induction false} InWordsOfAll(list: seq<Pattern>, x: Pattern)
    ensures x in WordsOfAll(list) <==> IsConcrete(x) && exists i :: 0 <= i < |list| && Covers(list[i], x)
  {
    if list != [] {
      var init := list[..|list| - 1];
      InWordsOfAll(init, x);
      if i :| 0 <= i < |list| && Covers(list[i], x) {
        if i < |init| { assert Covers(init[i], x); }
      }
    }
  }

  function Weight(list: seq<Pattern>): nat
  {
    if list == [] then 0 else Weight(list[..|list| - 1]) + Pow2(NumVars(list[|list| - 1]))
  }

  /** Over pairwise disjoint patterns the weights add up to the number of words. */
  lemma {:induction false} WeightCounts(list: seq<Pattern>, w: nat)
    requires forall i | 0 <= i < |list| :: |list[i]| == w
    requires forall i, j | 0 <= i < j < |list| :: Disjoint(list[i], list[j])
    ensures Weight(list) == |WordsOfAll(list)|
  {
    if list != [] {
      var init, last := list[..|list| - 1], list[|list| - 1];
      WeightCounts(init, w);
      WordCount(last);
      forall x | x in WordsOfAll(init) ensures x !in WordsOf(last) {
        InWordsOfAll(init, x);
        var i :| 0 <= i < |init| && Covers(init[i], x);
        assert Disjoint(list[i], last);
        DisjointByWords(list[i], last);
      }
      assert WordsOfAll(init) * WordsOf(last) == {};
    }
  }

  // ----- what no pattern covers -----

  /** Pairwise disjoint patterns for exactly the words outside `patterns`. */
  ghost predicate IsComplement(uncovered: set<Pattern>, patterns: set<Pattern>, w: nat)
  {
    && AllWide(uncovered, w) && PairwiseDisjoint(uncovered)
    && forall x | IsConcrete(x) && |x| == w :: Denotes(uncovered, x) <==> !Denotes(patterns, x)
  }

  /** Subtracts one pattern from every cube of a disjoint set. */
  method SubtractFromAll(cubes: set<Pattern>, p: Pattern, w: nat) returns (r: set<Pattern>)
    requires AllWide(cubes, w) && PairwiseDisjoint(cubes) && |p| == w
    ensures AllWide(r, w) && PairwiseDisjoint(r)
    ensures forall x | IsConcrete(x) && |x| == w :: Denotes(r, x) <==> Denotes(cubes, x) && !Covers(p, x)
  {
    r := {};
    var rest := cubes;
    while rest != {}
      invariant rest <= cubes && AllWide(r, w) && PairwiseDisjoint(r)
      invariant forall q | q in r :: exists u :: u in cubes - rest && Covers(u, q)
      invariant forall x | IsConcrete(x) && |x| == w :: Denotes(r, x) <==> Denotes(cubes - rest, x) && !Covers(p, x)
    {
      var u :| u in rest;
      var pieces := CubeSubtract(u, p);
      ghost var done := cubes - rest;
      PiecesStayApart(cubes, done, u, r, pieces, w);
      forall x | IsConcrete(x) && |x| == w
        ensures Denotes(r + pieces, x) <==> Denotes(done + {u}, x) && !Covers(p, x)
      {
        DenotesUnion(r, pieces, x);
        DenotesUnion(done, {u}, x);
        assert Denotes({u}, x) <==> Covers(u, x) by { assert u in {u}; }
      }
      assert cubes - (rest - {u}) == done + {u};
      r, rest := r + pieces, rest - {u};
    }
    assert cubes - {} == cubes;
  }

  lemma DenotesUnion(a: set<Pattern>, b: set<Pattern>, x: Pattern)
    ensures Denotes(a + b, x) <==> Denotes(a, x) || Denotes(b, x)
  {
    if Denotes(a, x) { var p :| p in a && Covers(p, x); assert p in a + b; }
    if Denotes(b, x) { var p :| p in b && Covers(p, x); assert p in a + b; }
  }

  /** Parts of disjoint cubes are disjoint. */
  lemma PiecesStayApart(
    cubes: set<Pattern>, done: set<Pattern>, u: Pattern, r: set<Pattern>, pieces: set<Pattern>, w: nat)
    requires PairwiseDisjoint(cubes) && AllWide(cubes, w) && u in cubes && done <= cubes && u !in done
    requires PairwiseDisjoint(r) && forall q | q in r :: exists d :: d in done && Covers(d, q)
    requires PairwiseDisjoint(pieces) && forall q | q in pieces :: Covers(u, q)
    ensures PairwiseDisjoint(r + pieces) && AllWide(r + pieces, w)
    ensures forall q | q in r + pieces :: exists d :: d in done + {u} && Covers(d, q)
  {
    forall q | q in r + pieces ensures exists d :: d in done + {u} && Covers(d, q) {
      if q in r { var d :| d in done && Covers(d, q); assert d in done + {u}; } else { assert u in done + {u}; }
    }
    forall p, q | p in r && q in pieces ensures Disjoint(p, q) && Disjoint(q, p) {
      var d :| d in done && Covers(d, p);
      var i :| 0 <= i < |d| && i < |u| && d[i] != Var && u[i] != Var && d[i] != u[i];
      assert p[i] == d[i] && q[i] == u[i];
    }
  }

  /** Subtracts every pattern in turn from the pattern of all words. */
  method UncoveredPatterns(patterns: set<Pattern>, w: nat) returns (uncovered: set<Pattern>)
    requires AllWide(patterns, w)
    ensures IsComplement(uncovered, patterns, w)
  {
    var universal: Pattern := seq(w, _ => Var);
    uncovered := {universal};
    assert forall x | |x| == w :: Covers(universal, x);
    var rest := patterns;
    while rest != {}
      invariant rest <= patterns
      invariant IsComplement(uncovered, patterns - rest, w)
    {
      var p :| p in rest;
      ghost var done := patterns - rest;
      var next := SubtractFromAll(uncovered, p, w);
      forall x | IsConcrete(x) && |x| == w ensures Denotes(next, x) <==> !Denotes(done + {p}, x) {
        DenotesUnion(done, {p}, x);
        assert Denotes({p}, x) <==> Covers(p, x) by { assert p in {p}; }
      }
      assert patterns - (rest - {p}) == done + {p};
      uncovered, rest := next, rest - {p};
    }
    assert patterns - {} == patterns;
  }

  /** The words of a width that no pattern covers. */
  ghost function Outside(patterns: set<Pattern>, w: nat): set<Pattern>
  {
    set x | x in WordsOf(seq(w, _ => Var)) && !Denotes(patterns, x)
  }

  lemma ComplementWords(uncovered: set<Pattern>, patterns: set<Pattern>, w: nat, list: seq<Pattern>)
    requires IsComplement(uncovered, patterns, w) && forall p :: p in list <==> p in uncovered
    ensures WordsOfAll(list) == Outside(patterns, w)
  {
    var universal: Pattern := seq(w, _ => Var);
    forall x ensures x in WordsOfAll(list) <==> x in Outside(patterns, w) {
      InWordsOfAll(list, x);
      if x in WordsOfAll(list) {
        var i :| 0 <= i < |list| && Covers(list[i], x);
        assert list[i] in uncovered && Denotes(uncovered, x) && Covers(universal, x);
      }
      if x in Outside(patterns, w) {
        assert Denotes(uncovered, x);
        var p :| p in uncovered && Covers(p, x);
        var i :| 0 <= i < |list| && list[i] == p;
      }
    }
  }

  /** The weight given to "add a new value": each uncovered pattern counts two to the power of its free
      bits, and the sum is the number of words no pattern covers. */
  method UncoveredWeight(uncovered: set<Pattern>, ghost patterns: set<Pattern>, w: nat) returns (weight: nat)
    requires IsComplement(uncovered, patterns, w)
    ensures weight == |Outside(patterns, w)|
  {
    var list := Listed(uncovered);
    weight := 0;
    for i := 0 to |list|
      invariant weight == Weight(list[..i])
    {
      assert list[..i + 1][..i] == list[..i];
      weight := weight + Pow2(NumVars(list[i]));
    }
    assert list[..|list|] == list;
    forall i, j | 0 <= i < j < |list| ensures Disjoint(list[i], list[j]) {
      assert list[i] in uncovered && list[j] in uncovered;
    }
    forall i | 0 <= i < |list| ensures |list[i]| == w { assert list[i] in uncovered; }
    WeightCounts(list, w);
    ComplementWords(uncovered, patterns, w, list);
  }

  // ----- one mutation -----

  /** The outcome of the random draws: a new word among the uncovered ones, or a pattern and one of its words. */
  datatype Draw = AddWord(word: Pattern) | NarrowPattern(pattern: Pattern, word: Pattern)

  /** The draws the weights allow: everything with a positive weight. */
  ghost predicate PossibleDraw(d: Draw, patterns: set<Pattern>, w: nat)
  {
    && |d.word| == w && IsConcrete(d.word)
    && match d
       case AddWord(word) => !Denotes(patterns, word)
       case NarrowPattern(p, word) => p in patterns && Covers(p, word)
  }

  /** What a draw does to the denoted words. */
  ghost predicate Mutates(mutated: set<Pattern>, patterns: set<Pattern>, draw: Draw, w: nat)
  {
    && (forall x | IsConcrete(x) && |x| == w && x != draw.word :: Denotes(mutated, x) <==> Denotes(patterns, x))
    && (draw.AddWord? ==> Denotes(mutated, draw.word) && !Denotes(patterns, draw.word))
    && (draw.NarrowPattern? ==>
          (Denotes(mutated, draw.word) <==> exists q :: q in patterns && q != draw.pattern && Covers(q, draw.word)))
  }

  /** The patterns with the drawn word added, or with its pattern split around it, merged as far as possible. */
  ghost predicate Redrawn(mutated: set<Pattern>, patterns: set<Pattern>, draw: Draw)
  {
    Unmergeable(mutated) &&
    match draw
    case AddWord(word) => MergesTo(patterns + {word}, mutated)
    case NarrowPattern(p, word) =>
      exists pieces :: SplitAround(p, word, pieces) && MergesTo(patterns - {p} + pieces, mutated)
  }

  /** What is left of a pattern without one of its words: nothing of a concrete one. */
  ghost predicate SplitAround(p: Pattern, word: Pattern, pieces: set<Pattern>)
  {
    if NumVars(p) == 0 then pieces == {} else IsSharp(p, word, pieces)
  }

  /** Mutates a set of patterns.  For every draw the denoted words change by at most one: a draw of a new
      word adds exactly it; a draw of a pattern removes no more than the chosen word, and removes it
      unless another pattern still covers it. */
  method MutateUses(patterns: set<Pattern>, w: nat, draw: Draw) returns (mutated: set<Pattern>)
    requires AllWide(patterns, w) && PossibleDraw(draw, patterns, w)
    ensures AllWide(mutated, w) && Mutates(mutated, patterns, draw, w) && Redrawn(mutated, patterns, draw)
  {
    var changed := patterns;
    match draw {
      case AddWord(word) =>
        changed := changed + {word};
        forall x | IsConcrete(x) && |x| == w ensures Denotes(changed, x) <==> Denotes(patterns, x) || x == word {
          DenotesUnion(patterns, {word}, x);
          assert Denotes({word}, x) <==> x == word by { assert word in {word}; }
        }
      case NarrowPattern(p, word) =>
        changed := changed - {p};
        var pieces: set<Pattern> := {};
        if NumVars(p) != 0 {
          pieces := CubeSubtract(p, word);
        } else {
          ConcreteVars(p);
        }
        changed := changed + pieces;
        assert SplitAround(p, word, pieces);
        Narrowed(patterns, p, word, pieces, w);
    }
    mutated := MergePatterns(changed, w);
  }

  lemma Narrowed(patterns: set<Pattern>, p: Pattern, word: Pattern, pieces: set<Pattern>, w: nat)
    requires AllWide(patterns, w) && p in patterns && |word| == w && IsConcrete(word) && Covers(p, word)
    requires (NumVars(p) == 0 && pieces == {}) || IsSharp(p, word, pieces)
    ensures AllWide((patterns - {p}) + pieces, w)
    ensures forall x | IsConcrete(x) && |x| == w && x != word ::
              Denotes((patterns - {p}) + pieces, x) <==> Denotes(patterns, x)
    ensures Denotes((patterns - {p}) + pieces, word) <==> exists q :: q in patterns && q != p && Covers(q, word)
  {
    ConcreteVars(p);
    var others := patterns - {p};
    forall x | IsConcrete(x) && |x| == w
      ensures Denotes(others + pieces, x) <==> Denotes(others, x) || (Covers(p, x) && x != word)
    {
      DenotesUnion(others, pieces, x);
      assert Covers(word, x) <==> x == word;
      if NumVars(p) == 0 { assert p == word; }
    }
    forall x | IsConcrete(x) && |x| == w ensures Denotes(patterns, x) <==> Denotes(others, x) || Covers(p, x) {
      DenotesUnion(others, {p}, x);
      assert patterns == others + {p};
      assert Denotes({p}, x) <==> Covers(p, x) by { assert p in {p}; }
    }
    assert (exists q :: q in patterns && q != p && Covers(q, word)) <==> Denotes(others, word) by {
      if Denotes(others, word) { var q :| q in others && Covers(q, word); assert q in patterns; }
      if q :| q in patterns && q != p && Covers(q, word) { assert q in others; }
    }
  }

  // ----- drawing a mutation -----

  /** A random choice among weighted entries; it never takes an entry of weight zero. */
  type Chooser = seq<nat> -> nat

  ghost predicate GoodChooser(choose: Chooser)
  {
    forall weights: seq<nat> | (exists i :: 0 <= i < |weights| && weights[i] > 0) ::
      choose(weights) < |weights| && weights[choose(weights)] > 0
  }

  /** Free bits take the drawn values. */
  function Fill(p: Pattern, bits: seq<bool>): (x: Pattern)
    requires |bits| == |p|
    ensures |x| == |p| && IsConcrete(x) && Covers(p, x)
  {
    seq(|p|, i requires 0 <= i < |p| => if p[i] != Var then p[i] else if bits[i] then High else Low)
  }

  lemma FillReaches(p: Pattern, x: Pattern)
    requires IsConcrete(x) && Covers(p, x)
    ensures var bits := seq(|p|, i requires 0 <= i < |p| => x[i] == High); Fill(p, bits) == x
  {
    var bits := seq(|p|, i requires 0 <= i < |p| => x[i] == High);
    assert forall i | 0 <= i < |p| :: Fill(p, bits)[i] == x[i];
  }

  function Frequencies(list: seq<Pattern>): (r: seq<nat>)
    ensures |r| == |list| && forall i | 0 <= i < |r| :: r[i] > 0
  {
    seq(|list|, i requires 0 <= i < |list| => Pow2(NumVars(list[i])))
  }

  /** A pattern is chosen by weight, the last entry standing for all uncovered ones; then an uncovered pattern,
      if that was it; then the free bits of the chosen pattern are filled. */
  function DrawAt(ordered: seq<Pattern>, uncovered: seq<Pattern>, first: nat, second: nat, bits: seq<bool>): Draw
    requires first < |ordered| ==> |ordered[first]| == |bits|
    requires first >= |ordered| ==> second < |uncovered| && |uncovered[second]| == |bits|
  {
    if first < |ordered|
    then NarrowPattern(ordered[first], Fill(ordered[first], bits)) else AddWord(Fill(uncovered[second], bits))
  }

  /** The random choices lead to the draw. */
  ghost predicate Draws(
    ordered: seq<Pattern>, uncovered: seq<Pattern>, w: nat, first: nat, second: nat, bits: seq<bool>, d: Draw)
  {
    && |bits| == w && first <= |ordered|
    && (if first < |ordered| then |ordered[first]| == w else second < |uncovered| && |uncovered[second]| == w)
    && DrawAt(ordered, uncovered, first, second, bits) == d
  }

  ghost predicate Lists(list: seq<Pattern>, all: set<Pattern>)
  {
    forall p :: p in list <==> p in all
  }

  /** The two-stage choice reaches exactly the possible draws, in whatever order the sets are listed. */
  lemma DrawsExactly(
    patterns: set<Pattern>, uncovered: set<Pattern>, w: nat, ordered: seq<Pattern>, list: seq<Pattern>, d: Draw)
    requires AllWide(patterns, w) && IsComplement(uncovered, patterns, w) && Lists(ordered, patterns)
             && Lists(list, uncovered)
    ensures PossibleDraw(d, patterns, w)
            <==> exists first: nat, second: nat, bits: seq<bool> :: Draws(ordered, list, w, first, second, bits, d)
  {
    if first: nat, second: nat, bits: seq<bool> :| Draws(ordered, list, w, first, second, bits, d) {
      if first < |ordered| {
        assert ordered[first] in patterns;
      } else {
        assert list[second] in uncovered && Covers(list[second], d.word);
        assert Denotes(uncovered, d.word);
      }
    }
    if PossibleDraw(d, patterns, w) {
      var first, second, p := |ordered|, 0, [];
      match d {
        case NarrowPattern(q, _) =>
          assert q in ordered;
          first := IndexIn(ordered, q);
          p := q;
        case AddWord(word) =>
          assert Denotes(uncovered, word);
          p :| p in uncovered && Covers(p, word);
          assert p in list;
          second := IndexIn(list, p);
      }
      FillReaches(p, d.word);
      assert Draws(ordered, list, w, first, second, seq(|p|, i requires 0 <= i < |p| => d.word[i] == High), d);
    }
  }

  lemma IndexIn(list: seq<Pattern>, p: Pattern) returns (i: nat)
    requires p in list
    ensures i < |list| && list[i] == p
  {
    i :| 0 <= i < |list| && list[i] == p;
  }

  /** Chooses a pattern, or one of the uncovered ones, by weight. */
  method ChooseDraw(
    patterns: set<Pattern>, uncovered: set<Pattern>, w: nat, first: Chooser, second: Chooser, bits: seq<bool>)
    returns (draw: Draw)
    requires AllWide(patterns, w) && IsComplement(uncovered, patterns, w)
    requires GoodChooser(first) && GoodChooser(second) && |bits| == w
    ensures PossibleDraw(draw, patterns, w)
  {
    hide IsComplement, PossibleDraw, AllWide, Outside;
    var ordered := Listed(patterns);
    var list := Listed(uncovered);
    var added := UncoveredWeight(uncovered, patterns, w);
    var weights := Frequencies(ordered) + [added];
    SomeWeight(patterns, uncovered, w, ordered, list, weights);
    var index := first(weights);
    var other := 0;
    if index >= |ordered| {
      SomeUncovered(patterns, uncovered, w, list);
      other := ChooseAny(list, second);
    }
    ChosenDraws(patterns, uncovered, w, ordered, list, index, other, bits);
    draw := DrawAt(ordered, list, index, other, bits);
  }

  method ChooseAny(list: seq<Pattern>, choose: Chooser) returns (index: nat)
    requires list != [] && GoodChooser(choose)
    ensures index < |list|
  {
    assert Frequencies(list)[0] > 0;
    index := choose(Frequencies(list));
  }

  /** Mutates a set of patterns by the drawn choices, which always amount to a possible draw. */
  method MutateByWeight(patterns: set<Pattern>, w: nat, first: Chooser, second: Chooser, bits: seq<bool>)
    returns (mutated: set<Pattern>, ghost draw: Draw)
    requires AllWide(patterns, w) && GoodChooser(first) && GoodChooser(second) && |bits| == w
    ensures AllWide(mutated, w) && PossibleDraw(draw, patterns, w) && Mutates(mutated, patterns, draw, w)
    ensures Redrawn(mutated, patterns, draw)
  {
    var uncovered := UncoveredPatterns(patterns, w);
    var d := ChooseDraw(patterns, uncovered, w, first, second, bits);
    draw := d;
    mutated := MutateUses(patterns, w, d);
  }

  lemma ChosenDraws(
    patterns: set<Pattern>, uncovered: set<Pattern>, w: nat, ordered: seq<Pattern>, list: seq<Pattern>,
    first: nat, second: nat, bits: seq<bool>)
    requires AllWide(patterns, w) && IsComplement(uncovered, patterns, w) && Lists(ordered, patterns)
             && Lists(list, uncovered)
    requires |bits| == w && first <= |ordered| && (first == |ordered| ==> second < |list|)
    ensures first < |ordered| ==> |ordered[first]| == w
    ensures first == |ordered| ==> |list[second]| == w
    ensures PossibleDraw(DrawAt(ordered, list, first, second, bits), patterns, w)
  {
    if first < |ordered| { assert ordered[first] in patterns; } else { assert list[second] in uncovered; }
    var d := DrawAt(ordered, list, first, second, bits);
    DrawsExactly(patterns, uncovered, w, ordered, list, d);
    assert Draws(ordered, list, w, first, second, bits, d);
  }

  /** Words are left to add exactly if the uncovered patterns are not empty. */
  lemma SomeUncovered(patterns: set<Pattern>, uncovered: set<Pattern>, w: nat, list: seq<Pattern>)
    requires IsComplement(uncovered, patterns, w) && Lists(list, uncovered)
    ensures |Outside(patterns, w)| > 0 <==> list != []
  {
    ComplementWords(uncovered, patterns, w, list);
    if list != [] {
      WordCount(list[|list| - 1]);
      assert WordsOf(list[|list| - 1]) <= WordsOfAll(list);
      var x :| x in WordsOf(list[|list| - 1]);
      assert x in Outside(patterns, w);
    }
  }

  /** Some entry has a positive weight. */
  lemma SomeWeight(
    patterns: set<Pattern>, uncovered: set<Pattern>, w: nat, ordered: seq<Pattern>, list: seq<Pattern>,
    weights: seq<nat>)
    requires AllWide(patterns, w) && IsComplement(uncovered, patterns, w) && Lists(ordered, patterns)
             && Lists(list, uncovered)
    requires weights == Frequencies(ordered) + [|Outside(patterns, w)|]
    ensures exists i :: 0 <= i < |weights| && weights[i] > 0
  {
    if ordered != [] {
      assert weights[0] > 0;
    } else {
      var word: Pattern := seq(w, _ => Low);
      assert IsConcrete(word) && |word| == w && !Denotes(patterns, word);
      assert Denotes(uncovered, word);
      var p :| p in uncovered && Covers(p, word);
      assert p in list;
      SomeUncovered(patterns, uncovered, w, list);
      assert weights[|ordered|] > 0;
    }
  }
}
