/** Every finished canonicalization whose obligations hold has the meaning it started with. */
module CanonicalizerSound {
  import opened Words
  import opened WordLaws
  import opened Exprs
  import opened Canonicalizer
  import opened CanonicalizerMeaning
  import opened ShiftAdd

  ghost predicate Holds(o: Obligation, s: MachineState)
  {
    match o
    case Absorption(op, terms, absorbers) =>
      (op == And || op == Or) && |terms| == |absorbers| ==>
        forall w: nat | w > 0 && AllHave(terms, s, w) :: LosesNothing(op, terms, absorbers, s, w)
    case ShiftRoom(variable, factor, width) =>
      width > 0 && Has(variable, s, width) ==>
        RoomFor(Val(ShiftBase(variable), s), ShiftAmount(variable, s) % Pow2(width), factor, width)
  }

  ghost predicate AllHold(obligations: set<Obligation>, s: MachineState)
  {
    forall o | o in obligations :: Holds(o, s)
  }

  /** A run on `e` that finishes with its obligations met keeps the value of `e`. */
  ghost predicate SoundAt(e: Expr, r: Outcome<Expr>, s: MachineState)
  {
    r.Done? && AllHold(r.obligations, s) && Eval(e, s).Some? ==> Eval(r.value, s) == Eval(e, s)
  }

  ghost predicate SoundUpTo(le: Order, fuel: nat, s: MachineState)
  {
    forall e :: SoundAt(e, Canonicalize(e, le, fuel), s)
  }

  lemma BinValue(op: BinOp, lhs: Expr, rhs: Expr, s: MachineState, w: nat)
    requires w > 0 && Has(lhs, s, w) && Has(rhs, s, w)
    ensures var e := Bin(op, lhs, rhs);
      Has(e, s, BinWidth(op, w)) && Val(e, s) == BinVal(op, Val(lhs, s), Val(rhs, s), w)
  {
  }

  lemma NotValue(e: Expr, s: MachineState, w: nat)
    requires Has(e, s, w)
    ensures Has(Not(e), s, w) && Val(Not(e), s) == NotVal(Val(e, s), w)
  {
  }

  // ----- lists of terms -----

  /** Terms paired with canonical forms of the same value. */
  ghost predicate SameValues(terms: seq<Expr>, canonical: seq<Expr>, s: MachineState)
  {
    |canonical| == |terms| &&
    forall k | 0 <= k < |terms| :: Eval(terms[k], s).Some? ==> Eval(canonical[k], s) == Eval(terms[k], s)
  }

  lemma {:induction false} CanonicalizeAllSound(terms: seq<Expr>, le: Order, fuel: nat, s: MachineState)
    requires SoundUpTo(le, fuel, s)
    ensures var r := CanonicalizeAll(terms, le, fuel);
      r.Done? && AllHold(r.obligations, s) ==> SameValues(terms, r.value, s)
  {
    var r := CanonicalizeAll(terms, le, fuel);
    if r.Done? && AllHold(r.obligations, s) && terms != [] {
      CanonicalizeAllSound(terms[1..], le, fuel, s);
      assert SoundAt(terms[0], Canonicalize(terms[0], le, fuel), s);
    }
  }

  lemma SameValuesFold(op: BinOp, terms: seq<Expr>, canonical: seq<Expr>, s: MachineState, w: nat)
    requires IsAssocComm(op) && w > 0 && AllHave(terms, s, w) && SameValues(terms, canonical, s)
    ensures AllHave(canonical, s, w) && Fold(op, canonical, s, w) == Fold(op, terms, s, w)
  {
    forall k | 0 <= k < |terms| ensures Has(canonical[k], s, w) { assert Has(terms[k], s, w); }
    if terms != [] {
      assert Has(terms[0], s, w) && Has(canonical[0], s, w);
      SameValuesFold(op, terms[1..], canonical[1..], s, w);
    }
  }

  // ----- absorption -----

  /** `n` absorbs `v`: combining `n` with `v` gives `n` again. */
  ghost predicate AbsorbsValue(op: BinOp, n: nat, v: nat, w: nat)
    requires (op == And || op == Or) && w > 0
  {
    Fits(n, w) && Fits(v, w) && BinVal(op, n, v, w) == n
  }

  lemma AbsorbsWider(op: BinOp, n: nat, l: nat, r: nat, w: nat)
    requires (op == And || op == Or) && w > 0 && Fits(l, w) && Fits(r, w)
    requires AbsorbsValue(op, n, l, w) || AbsorbsValue(op, n, r, w)
    ensures AbsorbsValue(op, n, BinVal(Opposite(op), l, r, w), w)
  {
    var o := if op == And then LogicAnd else LogicOr;
    var p := if op == And then LogicOr else LogicAnd;
    var x := Bitwise(p, l, r, w);
    BitwiseBits(p, l, r, w);
    BitwiseBits(o, n, l, w);
    BitwiseBits(o, n, r, w);
    BitwiseBits(o, n, x, w);
    BitExtensionality(Bitwise(o, n, x, w), n, w);
  }

  lemma AbsorbsTrans(op: BinOp, a: nat, b: nat, c: nat, w: nat)
    requires (op == And || op == Or) && w > 0 && AbsorbsValue(op, a, b, w) && AbsorbsValue(op, b, c, w)
    ensures AbsorbsValue(op, a, c, w)
  {
    Associates(op, a, b, c, w);
  }

  /** An `op` tree that contains a leaf with the canonical form `needle` is absorbed by it. */
  lemma {:induction false} ContainsSound(
    op: BinOp, e: Expr, needle: Expr, le: Order, fuel: nat, s: MachineState, w: nat)
    requires (op == And || op == Or) && w > 0 && SoundUpTo(le, fuel, s) && Has(e, s, w)
    ensures var r := ContainsTerm(Opposite(op), e, needle, le, fuel);
      r.Done? && r.value && AllHold(r.obligations, s) ==>
        Has(needle, s, w) && AbsorbsValue(op, Val(needle, s), Val(e, s), w)
  {
    hide ContainsTerm, Canonicalize;
    var r := ContainsTerm(Opposite(op), e, needle, le, fuel);
    if r.Done? && r.value && AllHold(r.obligations, s) {
      if e.Bin? && e.op == Opposite(op) {
        assert Has(e.lhs, s, w) && Has(e.rhs, s, w);
        ContainsUnfolds(Opposite(op), e, needle, le, fuel);
        ContainsSound(op, e.lhs, needle, le, fuel, s, w);
        ContainsSound(op, e.rhs, needle, le, fuel, s, w);
        BinValue(Opposite(op), e.lhs, e.rhs, s, w);
        AbsorbsWider(op, Val(needle, s), Val(e.lhs, s), Val(e.rhs, s), w);
      } else {
        ContainsAtLeaf(Opposite(op), e, needle, le, fuel);
        assert SoundAt(e, Canonicalize(e, le, fuel), s);
        Repeats(op, Val(e, s), w);
      }
    }
  }

  /** What a recorded absorber promises about the term at index `i`. */
  ghost predicate AbsorberOk(
    op: BinOp, term: Expr, canonical: seq<Expr>, absorber: Option<nat>, s: MachineState, w: nat)
    requires (op == And || op == Or) && w > 0
  {
    absorber.Some? ==>
      && absorber.value < |canonical|
      && AbsorbsValue(op, Val(canonical[absorber.value], s), Val(term, s), w)
  }

  lemma {:induction false} FirstAbsorberSound(
    op: BinOp, term: Expr, canonical: seq<Expr>, i: nat, j: nat, le: Order, fuel: nat, s: MachineState, w: nat)
    requires (op == And || op == Or) && w > 0 && SoundUpTo(le, fuel, s) && Has(term, s, w) && j <= |canonical|
    ensures var r := FirstAbsorber(Opposite(op), term, canonical, i, j, le, fuel);
      r.Done? && AllHold(r.obligations, s) ==> AbsorberOk(op, term, canonical, r.value, s, w)
    decreases |canonical| - j
  {
    hide ContainsTerm, Canonicalize, AbsorbsValue;
    if j < |canonical| {
      FirstAbsorberSound(op, term, canonical, i, j + 1, le, fuel, s, w);
      ContainsSound(op, term, canonical[j], le, fuel, s, w);
    }
  }

  ghost predicate AbsorbersOkFrom(
    op: BinOp, terms: seq<Expr>, canonical: seq<Expr>, absorbers: seq<Option<nat>>, i: nat, s: MachineState, w: nat)
    requires (op == And || op == Or) && w > 0 && i <= |terms| && |absorbers| == |terms| - i
  {
    forall k | i <= k < |terms| :: AbsorberOk(op, terms[k], canonical, absorbers[k - i], s, w)
  }

  lemma {:induction false} AbsorbersSound(
    op: BinOp, terms: seq<Expr>, canonical: seq<Expr>, i: nat, le: Order, fuel: nat, s: MachineState, w: nat)
    requires (op == And || op == Or) && w > 0 && SoundUpTo(le, fuel, s) && AllHave(terms, s, w) && i <= |terms|
    ensures var r := Absorbers(Opposite(op), terms, canonical, i, le, fuel);
      r.Done? && AllHold(r.obligations, s) ==> AbsorbersOkFrom(op, terms, canonical, r.value, i, s, w)
    decreases |terms| - i
  {
    var r := Absorbers(Opposite(op), terms, canonical, i, le, fuel);
    if i < |terms| && r.Done? && AllHold(r.obligations, s) {
      AbsorbersSound(op, terms, canonical, i + 1, le, fuel, s, w);
      assert Has(terms[i], s, w);
      FirstAbsorberSound(op, terms[i], canonical, i, 0, le, fuel, s, w);
      var rest := Absorbers(Opposite(op), terms, canonical, i + 1, le, fuel).value;
      assert AbsorberOk(op, terms[i], canonical, r.value[0], s, w);
      assert r.value[1..] == rest;
      PrependAbsorber(op, terms, canonical, r.value, i, s, w);
    }
  }

  lemma PrependAbsorber(
    op: BinOp, terms: seq<Expr>, canonical: seq<Expr>, absorbers: seq<Option<nat>>, i: nat, s: MachineState, w: nat)
    requires (op == And || op == Or) && w > 0 && i < |terms| && |absorbers| == |terms| - i
    requires AbsorberOk(op, terms[i], canonical, absorbers[0], s, w)
    requires AbsorbersOkFrom(op, terms, canonical, absorbers[1..], i + 1, s, w)
    ensures AbsorbersOkFrom(op, terms, canonical, absorbers, i, s, w)
  {
    forall k | i <= k < |terms| ensures AbsorberOk(op, terms[k], canonical, absorbers[k - i], s, w) {
      if k > i { assert absorbers[k - i] == absorbers[1..][k - (i + 1)]; }
    }
  }

  ghost predicate AllAbsorbersOk(op: BinOp, terms: seq<Expr>, absorbers: seq<Option<nat>>, s: MachineState, w: nat)
    requires (op == And || op == Or) && w > 0
  {
    |absorbers| == |terms| &&
    forall i | 0 <= i < |terms| :: AbsorberOk(op, terms[i], terms, absorbers[i], s, w)
  }

  /** Following absorbers to a kept term, that term absorbs the one the chain started from. */
  lemma {:induction false} ChainAbsorbs(
    op: BinOp, terms: seq<Expr>, absorbers: seq<Option<nat>>, i: nat, steps: nat, s: MachineState, w: nat)
    returns (k: nat)
    requires (op == And || op == Or) && w > 0 && AllHave(terms, s, w)
    requires AllAbsorbersOk(op, terms, absorbers, s, w) && ReachesKept(absorbers, i, steps)
    ensures k < |terms| && absorbers[k].None? && AbsorbsValue(op, Val(terms[k], s), Val(terms[i], s), w)
    decreases steps
  {
    assert Has(terms[i], s, w);
    if absorbers[i].None? {
      k := i;
      Repeats(op, Val(terms[i], s), w);
    } else {
      assert AbsorberOk(op, terms[i], terms, absorbers[i], s, w);
      k := ChainAbsorbs(op, terms, absorbers, absorbers[i].value, steps - 1, s, w);
      AbsorbsTrans(op, Val(terms[k], s), Val(terms[absorbers[i].value], s), Val(terms[i], s), w);
    }
  }

  lemma {:induction false} RetainMembers(terms: seq<Expr>, absorbers: seq<Option<nat>>)
    requires |terms| == |absorbers|
    ensures forall t | t in Retain(terms, absorbers) :: t in terms
    ensures forall i | 0 <= i < |terms| && absorbers[i].None? :: terms[i] in Retain(terms, absorbers)
  {
    if terms != [] {
      RetainMembers(terms[1..], absorbers[1..]);
      forall i | 0 <= i < |terms| && absorbers[i].None? ensures terms[i] in Retain(terms, absorbers) {
        if i > 0 { assert terms[i] == terms[1..][i - 1] && absorbers[i] == absorbers[1..][i - 1]; }
      }
    }
  }

  lemma {:induction false} FoldAbsorbed(op: BinOp, v: nat, terms: seq<Expr>, s: MachineState, w: nat)
    requires (op == And || op == Or) && w > 0 && Fits(v, w) && AllHave(terms, s, w)
    requires forall t | t in terms :: AbsorbsValue(op, v, Val(t, s), w)
    ensures BinVal(op, v, Fold(op, terms, s, w), w) == v
  {
    if terms == [] {
      UnitLaw(op, v, w);
    } else {
      assert Has(terms[0], s, w) && AbsorbsValue(op, v, Val(terms[0], s), w);
      FoldAbsorbed(op, v, terms[1..], s, w);
      Associates(op, v, Val(terms[0], s), Fold(op, terms[1..], s, w), w);
    }
  }

  /** The terms that are dropped although no chain of absorbers leads from them to a kept term have
      values the kept terms absorb all the same. */
  ghost predicate LosesNothing(op: BinOp, terms: seq<Expr>, absorbers: seq<Option<nat>>, s: MachineState, w: nat)
    requires (op == And || op == Or) && w > 0 && |terms| == |absorbers| && AllHave(terms, s, w)
  {
    RetainMembers(terms, absorbers);
    forall i | 0 <= i < |terms| && !ReachesKept(absorbers, i, |absorbers|) ::
      AbsorbsValue(op, Fold(op, Retain(terms, absorbers), s, w), Val(terms[i], s), w)
  }

  lemma KeptAbsorbs(op: BinOp, terms: seq<Expr>, absorbers: seq<Option<nat>>, i: nat, s: MachineState, w: nat)
    requires (op == And || op == Or) && w > 0 && AllHave(terms, s, w) && AllAbsorbersOk(op, terms, absorbers, s, w)
    requires AllHave(Retain(terms, absorbers), s, w) && i < |terms| && ReachesKept(absorbers, i, |absorbers|)
    ensures AbsorbsValue(op, Fold(op, Retain(terms, absorbers), s, w), Val(terms[i], s), w)
  {
    var kept := Retain(terms, absorbers);
    RetainMembers(terms, absorbers);
    var k := ChainAbsorbs(op, terms, absorbers, i, |absorbers|, s, w);
    var m :| 0 <= m < |kept| && kept[m] == terms[k];
    FoldContains(op, kept, m, s, w);
    assert Has(terms[i], s, w);
    AbsorbsTrans(op, Fold(op, kept, s, w), Val(terms[k], s), Val(terms[i], s), w);
  }

  /** If the kept terms absorb every term, they combine to the same value. */
  lemma SameFold(op: BinOp, terms: seq<Expr>, kept: seq<Expr>, s: MachineState, w: nat)
    requires (op == And || op == Or) && w > 0 && AllHave(terms, s, w) && AllHave(kept, s, w)
    requires forall t | t in kept :: t in terms
    requires forall t | t in terms :: AbsorbsValue(op, Fold(op, kept, s, w), Val(t, s), w)
    ensures Fold(op, kept, s, w) == Fold(op, terms, s, w)
  {
    var all, some := Fold(op, terms, s, w), Fold(op, kept, s, w);
    FoldAbsorbed(op, some, terms, s, w);
    forall t | t in kept ensures AbsorbsValue(op, all, Val(t, s), w) {
      var i :| 0 <= i < |terms| && terms[i] == t;
      FoldContains(op, terms, i, s, w);
    }
    FoldAbsorbed(op, all, kept, s, w);
    Commutes(op, all, some, w);
  }

  /** Dropping the absorbed terms keeps the combined value if and only if nothing is lost by it. */
  lemma RetainExact(op: BinOp, terms: seq<Expr>, absorbers: seq<Option<nat>>, s: MachineState, w: nat)
    requires (op == And || op == Or) && w > 0 && AllHave(terms, s, w) && AllAbsorbersOk(op, terms, absorbers, s, w)
    ensures AllHave(Retain(terms, absorbers), s, w)
    ensures Fold(op, Retain(terms, absorbers), s, w) == Fold(op, terms, s, w)
            <==> LosesNothing(op, terms, absorbers, s, w)
  {
    var kept := Retain(terms, absorbers);
    RetainMembers(terms, absorbers);
    if LosesNothing(op, terms, absorbers, s, w) {
      forall t | t in terms ensures AbsorbsValue(op, Fold(op, kept, s, w), Val(t, s), w) {
        var i :| 0 <= i < |terms| && terms[i] == t;
        if ReachesKept(absorbers, i, |absorbers|) { KeptAbsorbs(op, terms, absorbers, i, s, w); }
      }
      SameFold(op, terms, kept, s, w);
    }
    if Fold(op, kept, s, w) == Fold(op, terms, s, w) {
      forall i | 0 <= i < |terms| ensures AbsorbsValue(op, Fold(op, kept, s, w), Val(terms[i], s), w) {
        FoldContains(op, terms, i, s, w);
      }
    }
  }

  /** Dropping absorbed terms keeps the combined value when every chain ends at a kept term. */
  lemma RetainMeaning(op: BinOp, terms: seq<Expr>, absorbers: seq<Option<nat>>, s: MachineState, w: nat)
    requires (op == And || op == Or) && w > 0 && AllHave(terms, s, w)
    requires AllAbsorbersOk(op, terms, absorbers, s, w) && AllAnchored(absorbers)
    ensures AllHave(Retain(terms, absorbers), s, w) && Fold(op, Retain(terms, absorbers), s, w) == Fold(op, terms, s, w)
  {
    RetainExact(op, terms, absorbers, s, w);
    assert forall i: nat | i < |absorbers| :: ReachesKept(absorbers, i, |absorbers|);
  }

  /** The table the pass computes names, for every dropped term, a term that absorbs it. */
  lemma TableSound(op: BinOp, terms: seq<Expr>, le: Order, fuel: nat, s: MachineState, w: nat)
    requires (op == And || op == Or) && w > 0 && SoundUpTo(le, fuel, s) && AllHave(terms, s, w)
    ensures var c := CanonicalizeAll(terms, le, fuel);
      c.Done? && AllHold(c.obligations, s) ==>
        var a := Absorbers(Opposite(op), terms, c.value, 0, le, fuel);
        a.Done? && AllHold(a.obligations, s) ==> AllAbsorbersOk(op, terms, a.value, s, w)
  {
    var c := CanonicalizeAll(terms, le, fuel);
    CanonicalizeAllSound(terms, le, fuel, s);
    if c.Done? && AllHold(c.obligations, s) {
      var a := Absorbers(Opposite(op), terms, c.value, 0, le, fuel);
      AbsorbersSound(op, terms, c.value, 0, le, fuel, s, w);
      if a.Done? && AllHold(a.obligations, s) { AbsorbersOfTerms(op, terms, c.value, a.value, s, w); }
    }
  }

  lemma RemoveAbsorbedSound(op: BinOp, terms: seq<Expr>, le: Order, fuel: nat, s: MachineState, w: nat)
    requires IsAssocComm(op) && w > 0 && SoundUpTo(le, fuel, s) && AllHave(terms, s, w)
    ensures var r := RemoveAbsorbed(op, terms, le, fuel);
      r.Done? && AllHold(r.obligations, s) ==>
        AllHave(r.value, s, w) && Fold(op, r.value, s, w) == Fold(op, terms, s, w)
  {
    var r := RemoveAbsorbed(op, terms, le, fuel);
    if (op == And || op == Or) && r.Done? && AllHold(r.obligations, s) {
      var c := CanonicalizeAll(terms, le, fuel);
      var a := Absorbers(Opposite(op), terms, c.value, 0, le, fuel);
      TableSound(op, terms, le, fuel, s, w);
      assert Holds(Absorption(op, terms, a.value), s);
      RetainExact(op, terms, a.value, s, w);
    }
  }

  lemma AbsorbersOfTerms(
    op: BinOp, terms: seq<Expr>, canonical: seq<Expr>, absorbers: seq<Option<nat>>, s: MachineState, w: nat)
    requires (op == And || op == Or) && w > 0 && AllHave(terms, s, w) && SameValues(terms, canonical, s)
    requires |absorbers| == |terms| && AbsorbersOkFrom(op, terms, canonical, absorbers, 0, s, w)
    ensures AllAbsorbersOk(op, terms, absorbers, s, w)
  {
    forall i | 0 <= i < |terms| ensures AbsorberOk(op, terms[i], terms, absorbers[i], s, w) {
      assert AbsorberOk(op, terms[i], canonical, absorbers[i - 0], s, w);
      if absorbers[i].Some? { assert Has(terms[absorbers[i].value], s, w); }
    }
  }

  lemma AssocCommSound(op: BinOp, lhs: Expr, rhs: Expr, le: Order, fuel: nat, s: MachineState)
    requires IsAssocComm(op) && SoundUpTo(le, fuel, s) && MemoryWellFormed(s)
    ensures SoundAt(Bin(op, lhs, rhs), CanonicalizeAssocComm(op, lhs, rhs, le, fuel), s)
  {
    var e, r := Bin(op, lhs, rhs), CanonicalizeAssocComm(op, lhs, rhs, le, fuel);
    if r.Done? && AllHold(r.obligations, s) && Eval(e, s).Some? {
      var w := Eval(e, s).value.width;
      var terms := Flatten(op, lhs) + Flatten(op, rhs);
      assert terms == Flatten(op, e);
      FlattenMeaning(op, e, s, w);
      var kept := RemoveAbsorbed(op, terms, le, fuel);
      RemoveAbsorbedSound(op, terms, le, fuel, s, w);
      var canonical := CanonicalizeAll(kept.value, le, fuel);
      CanonicalizeAllSound(kept.value, le, fuel, s);
      SameValuesFold(op, kept.value, canonical.value, s, w);
      FlattenAllMeaning(op, canonical.value, s, w);
      NothingToCombine(op, le);
      CombineMeaning(op, FlattenAll(op, canonical.value), le, s, w);
    }
  }

  /** An operation left without terms is the panic of its own. */
  lemma NothingToCombine(op: BinOp, le: Order)
    requires IsAssocComm(op)
    ensures CombineTerms(op, [], le) == NoTerms({})
  {
    var none: seq<Expr> := [];
    assert NonConstants(none) == none && Sort(none, le) == none && FoldConstants(op, none, NoConst) == NoConst;
    assert ReduceTerms(op, none, le) == (none, NoConst);
  }

  // ----- lowering and multiplication -----

  lemma LowerOrMeaning(lhs: Expr, rhs: Expr, s: MachineState)
    ensures Eval(Bin(Or, lhs, rhs), s).Some? ==> Eval(LowerOr(lhs, rhs), s) == Eval(Bin(Or, lhs, rhs), s)
  {
    if Eval(Bin(Or, lhs, rhs), s).Some? {
      var w := Eval(lhs, s).value.width;
      BinValue(Or, lhs, rhs, s, w);
      NotValue(lhs, s, w);
      NotValue(rhs, s, w);
      BinValue(And, Not(lhs), Not(rhs), s, w);
      NotValue(Bin(And, Not(lhs), Not(rhs)), s, w);
      DeMorgan(Val(lhs, s), Val(rhs, s), w);
    }
  }

  lemma LowerXorMeaning(lhs: Expr, rhs: Expr, s: MachineState)
    ensures Eval(Bin(Xor, lhs, rhs), s).Some? ==> Eval(LowerXor(lhs, rhs), s) == Eval(Bin(Xor, lhs, rhs), s)
  {
    if Eval(Bin(Xor, lhs, rhs), s).Some? {
      var w := Eval(lhs, s).value.width;
      BinValue(Xor, lhs, rhs, s, w);
      NotValue(lhs, s, w);
      NotValue(rhs, s, w);
      BinValue(And, lhs, Not(rhs), s, w);
      BinValue(And, Not(lhs), rhs, s, w);
      BinValue(Or, Bin(And, lhs, Not(rhs)), Bin(And, Not(lhs), rhs), s, w);
      XorExpansion(Val(lhs, s), Val(rhs, s), w);
    }
  }

  lemma LowerSelectMeaning(c: Expr, t: Expr, f: Expr, width: nat, s: MachineState)
    requires Eval(Select(c, t, f), s).Some? && width == Eval(t, s).value.width
    ensures Eval(LowerSelect(c, t, f, width), s) == Eval(Select(c, t, f), s)
  {
    var mask := Extend(SignExtend, c, width);
    assert Pow2(1) == 2 * Pow2(0);
    assert Has(c, s, 1) && Has(mask, s, width) && Val(mask, s) == ExtendVal(SignExtend, Val(c, s), 1, width);
    var a, b := Bin(And, Not(mask), f), Bin(And, mask, t);
    NotValue(mask, s, width);
    BinValue(And, Not(mask), f, s, width);
    BinValue(And, mask, t, s, width);
    NotValue(a, s, width);
    NotValue(b, s, width);
    BinValue(And, Not(a), Not(b), s, width);
    NotValue(Bin(And, Not(a), Not(b)), s, width);
    SelectByMask(Val(c, s), Val(t, s), Val(f, s), width);
  }

  lemma LowerOperatorsSound(e: Expr, le: Order, fuel: nat, s: MachineState)
    requires SoundUpTo(le, fuel, s) && MemoryWellFormed(s)
    ensures SoundAt(e, LowerOperators(e, le, fuel), s)
  {
    if e.Bin? && e.op == Or {
      LowerOrMeaning(e.lhs, e.rhs, s);
      assert SoundAt(LowerOr(e.lhs, e.rhs), Canonicalize(LowerOr(e.lhs, e.rhs), le, fuel), s);
    } else if e.Bin? && e.op == Xor {
      LowerXorMeaning(e.lhs, e.rhs, s);
      assert SoundAt(LowerXor(e.lhs, e.rhs), Canonicalize(LowerXor(e.lhs, e.rhs), le, fuel), s);
    } else if e.Select? && LowerOperators(e, le, fuel).Done? && Eval(e, s).Some? {
      EvalHasStaticWidth(e.whenTrue, s);
      var width := ExprWidth(e.whenTrue).value;
      LowerSelectMeaning(e.condition, e.whenTrue, e.whenFalse, width, s);
      var l := LowerSelect(e.condition, e.whenTrue, e.whenFalse, width);
      assert SoundAt(l, Canonicalize(l, le, fuel), s);
    }
  }

  lemma MulToShiftAddSound(variable: Expr, factor: nat, w: nat, le: Order, fuel: nat, s: MachineState)
    requires SoundUpTo(le, fuel, s) && w > 0 && Has(variable, s, w) && factor < Pow2(w)
    ensures SoundAt(Bin(Mul, variable, Const(factor, w)), MulToShiftAdd(variable, factor, w, le, fuel), s)
  {
    var r := MulToShiftAdd(variable, factor, w, le, fuel);
    if r.Done? && AllHold(r.obligations, s) {
      var terms := ShiftAddTerms(variable, factor, Const(0, w), w);
      assert SoundAt(terms, Canonicalize(terms, le, fuel), s);
      var o := ShiftRoom(variable, factor, w);
      assert o in r.obligations && Holds(o, s);
      MulToShiftAddExact(variable, factor, s, w);
      SmallMod(ShiftAmount(variable, s), Pow2(w));
      SmallMod(factor, Pow2(w));
    }
  }

  /** Constants that carry no bits beyond their width. */
  predicate Reduced(e: Expr)
  {
    e.Const? ==> e.width > 0 && e.value < Pow2(e.width)
  }

  lemma MulSwap(lhs: Expr, rhs: Expr, s: MachineState)
    ensures Eval(Bin(Mul, lhs, rhs), s) == Eval(Bin(Mul, rhs, lhs), s)
  {
    if Eval(lhs, s).Some? && Eval(rhs, s).Some? {
      MulCommutes(Val(lhs, s), Val(rhs, s));
    }
  }

  lemma CanonicalizeMulSound(e: Expr, le: Order, fuel: nat, s: MachineState)
    requires SoundUpTo(le, fuel, s) && MemoryWellFormed(s)
    requires e.Bin? && e.op == Mul ==> Reduced(e.lhs) && Reduced(e.rhs)
    ensures SoundAt(e, CanonicalizeMul(e, le, fuel), s)
  {
    var r := CanonicalizeMul(e, le, fuel);
    if r.Done? && e.Bin? && e.op == Mul && AllHold(r.obligations, s) && Eval(e, s).Some? {
      EvalHasStaticWidth(e, s);
      var w := ExprWidth(e).value;
      if e.lhs.Const? && e.rhs.Const? {
        SmallMod(e.lhs.value, Pow2(w));
        SmallMod(e.rhs.value, Pow2(w));
        SmallMod((e.lhs.value * e.rhs.value) % Pow2(w), Pow2(w));
      } else if e.lhs.Const? {
        MulToShiftAddSound(e.rhs, e.lhs.value, w, le, fuel, s);
        MulSwap(e.lhs, e.rhs, s);
      } else if e.rhs.Const? {
        MulToShiftAddSound(e.lhs, e.rhs.value, w, le, fuel, s);
      }
    }
  }

  // ----- the remaining nodes -----

  lemma ConstMeaning(value: nat, width: nat, s: MachineState)
    requires width > 0
    ensures Eval(Const(value % Pow2(width), width), s) == Eval(Const(value, width), s)
  {
    SmallMod(value % Pow2(width), Pow2(width));
  }

  lemma NotTwice(v: nat, w: nat)
    requires Fits(v, w)
    ensures NotVal(NotVal(v, w), w) == v
  {
  }

  lemma NotMeaning(value: Expr, s: MachineState)
    ensures SoundAt(Not(value), CanonicalNot(value), s)
  {
    match value
    case Const(v, w) =>
      if w > 0 { SmallMod(NotVal(v % Pow2(w), w), Pow2(w)); }
    case Not(inner) =>
      if Eval(inner, s).Some? { NotTwice(Val(inner, s), Eval(inner, s).value.width); }
    case _ =>
  }

  lemma ShiftByZero(op: BinOp, v: nat, w: nat)
    requires op == ShiftLeft || op == LogicalShiftRight || op == ArithmeticShiftRight || op == RotateRight
    requires w > 0 && Fits(v, w)
    ensures BinVal(op, v, 0, w) == v
  {
    assert v * Pow2(0) == v && v / Pow2(0) == v;
    SmallMod(v, Pow2(w));
    if op == ArithmeticShiftRight {
      SignedRange(v, w);
      assert Signed(v, w) / Pow2(0) == Signed(v, w);
    }
  }

  lemma ShiftOfZero(op: BinOp, n: nat, w: nat)
    requires op == ShiftLeft || op == LogicalShiftRight || op == ArithmeticShiftRight || op == RotateRight
    requires w > 0 && Fits(n, w)
    ensures BinVal(op, 0, n, w) == 0
  {
    ZeroBit(w - 1);
    ZeroDivided(Pow2(n));
    SmallMod(0, Pow2(w));
    if op == RotateRight {
      var k := n % w;
      ZeroDivided(Pow2(k));
      BitwiseUnit(LogicOr, 0, w);
    }
  }

  lemma ZeroDivided(p: nat)
    requires p > 0
    ensures 0 / p == 0 && 0 * p == 0
  {
  }

  lemma ShiftMeaning(op: BinOp, value: Expr, amount: Expr, s: MachineState)
    requires op == ShiftLeft || op == LogicalShiftRight || op == ArithmeticShiftRight || op == RotateRight
    ensures SoundAt(Bin(op, value, amount), CanonicalShift(op, value, amount), s)
  {
    if Eval(Bin(op, value, amount), s).Some? {
      var w := Eval(value, s).value.width;
      ShiftByZero(op, Val(value, s), w);
      ShiftOfZero(op, Val(amount, s), w);
      SmallMod(0, Pow2(w));
    }
  }

  lemma ComparisonMeaning(op: BinOp, lhs: Expr, rhs: Expr, le: Order, s: MachineState)
    requires IsComparison(op)
    ensures Eval(Bin(op, lhs, rhs), s).Some? ==>
              Eval(CanonicalComparison(op, lhs, rhs, le), s) == Eval(Bin(op, lhs, rhs), s)
  {
    assert Pow2(1) == 2 * Pow2(0);
    SmallMod(0, Pow2(1));
    SmallMod(1, Pow2(1));
  }

  lemma SliceMeaning(value: Expr, high: nat, low: nat, s: MachineState)
    requires low <= high && MemoryWellFormed(s)
    ensures SoundAt(Slice(value, high, low), CanonicalSlice(value, high, low), s)
  {
    EvalHasStaticWidth(value, s);
    if Eval(value, s).Some? && low == 0 {
      assert Val(value, s) / Pow2(0) == Val(value, s);
      SmallMod(Val(value, s), Pow2(Eval(value, s).value.width));
    }
  }

  lemma ExtensionMeaning(kind: ExtendOp, value: Expr, toWidth: nat, s: MachineState)
    requires MemoryWellFormed(s)
    ensures SoundAt(Extend(kind, value, toWidth), CanonicalExtension(kind, value, toWidth), s)
  {
    EvalHasStaticWidth(value, s);
    if Eval(Extend(kind, value, toWidth), s).Some? {
      var v, w := Val(value, s), Eval(value, s).value.width;
      if w == toWidth {
        ExtendToSameWidth(kind, v, w);
      } else if value.Extend? && value.kind == kind {
        ExtendAgain(kind, Val(value.operand, s), Eval(value.operand, s).value.width, w, toWidth);
      }
    }
  }

  lemma FlagMeaning(flag: FlagOp, lhs: Expr, rhs: Expr, flagIn: Expr, width: nat, s: MachineState)
    ensures var e := Flag(flag, lhs, rhs, flagIn, width);
      Eval(e, s).Some?
      ==> Eval(Flag(AddFlag(flag), lhs, FlagOperand(flag, rhs), FlagOperand(flag, flagIn), width), s) == Eval(e, s)
  {
    var e := Flag(flag, lhs, rhs, flagIn, width);
    if Eval(e, s).Some? && AddFlag(flag) != flag {
      assert Pow2(1) == 2 * Pow2(0);
      SubFlagsAsAddFlags(Val(lhs, s), Val(rhs, s), Val(flagIn, s), width);
    }
  }

  lemma ConcatIsSum(high: RawWord, low: Word)
    requires high.value < Pow2(high.width)
    ensures ApplyConcat(high, low).value == high.value * Pow2(low.width) + low.value
  {
    JoinFits(high.value, high.width, low.width);
    JoinIsSum(high.value, low.value, low.width, high.width + low.width);
  }

  /** Joining a constant below another before or after appending gives the same word. */
  lemma ConcatAssociates(high: RawWord, mid: Word, low: Word)
    requires high.value < Pow2(high.width)
    ensures ApplyConcat(ApplyConcat(high, mid), low) == ApplyConcat(high, ApplyConcat(mid, low))
  {
    ConcatIsSum(high, mid);
    ConcatIsSum(ApplyConcat(high, mid), low);
    ConcatIsSum(mid, low);
    ConcatIsSum(high, ApplyConcat(mid, low));
    Pow2Add(mid.width, low.width);
    JoinSums(high.value, mid.value, low.value, Pow2(mid.width), Pow2(low.width));
  }

  lemma JoinSums(h: int, m: int, l: int, pm: int, pl: int)
    ensures (h * pm + m) * pl + l == h * (pm * pl) + (m * pl + l)
  {
    MulAssoc(h, pm, pl);
  }

  lemma {:induction false} MergeChunksMeaning(parts: seq<Expr>, s: MachineState)
    ensures var m := MergeChunks(parts);
      m.Some? && EvalParts(parts, s).Some? ==> EvalParts(m.value, s) == EvalParts(parts, s)
  {
    hide Eval, Bitwise;
    if MergeChunks(parts).Some? && EvalParts(parts, s).Some? && parts != [] {
      var init, last := parts[..|parts| - 1], parts[|parts| - 1];
      MergeChunksMeaning(init, s);
      var merged := MergeChunks(init).value;
      AppendPart(merged, last, s);
      if last.Const? {
        ConstMeaning(last.value, last.width, s);
        if merged != [] && merged[|merged| - 1].Const? {
          var prefix, previous := merged[..|merged| - 1], merged[|merged| - 1];
          var joined := MergeChunks(parts).value[|prefix|];
          assert merged == prefix + [previous] && MergeChunks(parts).value == prefix + [joined];
          MergeConstants(prefix, previous, last, joined, s);
        } else {
          AppendPart(merged, Const(last.value % Pow2(last.width), last.width), s);
        }
      }
    }
  }

  lemma MergeConstants(prefix: seq<Expr>, previous: Expr, last: Expr, joined: Expr, s: MachineState)
    requires previous.Const? && last.Const? && joined.Const? && EvalParts(prefix + [previous], s).Some?
             && Eval(last, s).Some?
    requires joined.width == previous.width + last.width
    requires joined.value == Bitwise(LogicOr, (previous.value % Pow2(previous.width)) * Pow2(last.width),
                                     last.value % Pow2(last.width), joined.width)
    ensures EvalParts(prefix + [joined], s).Some?
    ensures EvalParts(prefix + [joined], s).value
            == ApplyConcat(EvalParts(prefix + [previous], s).value, Eval(last, s).value)
  {
    AppendPart(prefix, previous, s);
    AppendPart(prefix, joined, s);
    SmallMod(joined.value, Pow2(joined.width));
    ConcatAssociates(EvalParts(prefix, s).value, Eval(previous, s).value, Eval(last, s).value);
  }

  lemma AppendPart(parts: seq<Expr>, last: Expr, s: MachineState)
    ensures EvalParts(parts + [last], s).Some? <==> EvalParts(parts, s).Some? && Eval(last, s).Some?
    ensures EvalParts(parts + [last], s).Some? ==>
              EvalParts(parts + [last], s).value == ApplyConcat(EvalParts(parts, s).value, Eval(last, s).value)
  {
    assert (parts + [last])[..|parts|] == parts;
  }

  lemma OnePart(e: Expr, s: MachineState)
    ensures Eval(e, s).Some? <==> EvalParts([e], s).Some?
    ensures Eval(e, s).Some? ==> EvalParts([e], s).value == Eval(e, s).value
  {
    assert [e] == [] + [e];
    AppendPart([], e, s);
    if Eval(e, s).Some? {
      var v, w := Val(e, s), Eval(e, s).value.width;
      ZeroDivided(Pow2(w));
      BitwiseCommutes(LogicOr, 0, v, w);
      BitwiseUnit(LogicOr, v, w);
    }
  }

  lemma ConcatMeaning(parts: seq<Expr>, s: MachineState)
    ensures SoundAt(Concat(parts), RebuildConcat(parts), s)
  {
    MergeChunksMeaning(parts, s);
    var m := MergeChunks(parts);
    if m.Some? && |m.value| == 1 {
      OnePart(m.value[0], s);
      assert m.value == [m.value[0]];
    }
  }

  lemma {:induction false} SameParts(parts: seq<Expr>, canonical: seq<Expr>, s: MachineState)
    requires SameValues(parts, canonical, s)
    ensures EvalParts(parts, s).Some? ==> EvalParts(canonical, s) == EvalParts(parts, s)
  {
    if parts != [] && EvalParts(parts, s).Some? {
      SameParts(parts[..|parts| - 1], canonical[..|parts| - 1], s);
      assert Eval(parts[|parts| - 1], s).Some?;
    }
  }
}
