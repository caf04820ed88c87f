/** The shape of the list a program folds into: one entry for each destination it names, none of them switched off. */
module EffectListShape {
  import opened Exprs
  import opened Effects
  import opened Canonicalizer
  import opened EffectSequence
  import opened EffectSequenceTheorems
  import opened EffectSequenceLimits

  /** No entry has a guard that is constantly false. */
  ghost predicate SwitchedOn(list: seq<Effect>)
  {
    forall x | x in list :: x.guard != Const(0, 1)
  }

  /** Some entry writes the destination of the effect. */
  ghost predicate Writes(list: seq<Effect>, e: Effect)
  {
    exists x :: x in list && SameDestination(x, e)
  }

  lemma CombinedDestination(first: Effect, second: Effect)
    requires CombineEffects(first, second).Some?
    ensures var c := CombineEffects(first, second).value;
      && (c.Some? <==> SameDestination(first, second))
      && (c.Some? ==>
            SameDestination(c.value, first) && (first.guard != Const(0, 1) ==> c.value.guard != Const(0, 1)))
  {
  }

  lemma WritesSplits(list: seq<Effect>, x: Effect)
    requires list != []
    ensures Writes(list, x) <==> SameDestination(list[0], x) || Writes(list[1..], x)
  {
    if y :| y in list && SameDestination(y, x) && y != list[0] { assert y in list[1..]; }
    if y :| y in list[1..] && SameDestination(y, x) { assert y in list; }
  }

  /** Merging keeps the destinations of before, and adds that of the new write unless the write is switched off. */
  lemma {:induction false} MergeWrites(list: seq<Effect>, e: Effect)
    requires MergeEffect(list, e).Some? && SwitchedOn(list)
    ensures var r := MergeEffect(list, e).value;
      && SwitchedOn(r)
      && forall x :: Writes(r, x) <==> Writes(list, x) || (e.guard != Const(0, 1) && SameDestination(e, x))
  {
    hide Writes, SwitchedOn, CombineEffects;
    if list == [] {
      NothingWritten();
      OneWritten(e);
    } else {
      var rest, r := list[1..], MergeEffect(list, e).value;
      HeadIsOn(list);
      CombinedDestination(list[0], e);
      forall x
        ensures Writes(list, x) <==> SameDestination(list[0], x) || Writes(rest, x)
        ensures Writes(r, x) <==> SameDestination(r[0], x) || Writes(r[1..], x)
      {
        WritesSplits(list, x);
        WritesSplits(r, x);
      }
      if SameDestination(list[0], e) {
        assert r[1..] == rest;
      } else {
        MergeWrites(rest, e);
        assert r[1..] == MergeEffect(rest, e).value;
      }
      PrependOn(r[0], r[1..]);
      assert r == [r[0]] + r[1..];
    }
  }

  lemma NothingWritten()
    ensures SwitchedOn([]) && DistinctDestinations([]) && forall x :: !Writes([], x)
  {
  }

  lemma OneWritten(e: Effect)
    ensures (e.guard != Const(0, 1) ==> SwitchedOn([e])) && forall x :: Writes([e], x) <==> SameDestination(e, x)
  {
    assert e in [e];
  }

  lemma HeadIsOn(list: seq<Effect>)
    requires SwitchedOn(list) && list != []
    ensures SwitchedOn(list[1..]) && list[0].guard != Const(0, 1)
  {
    assert list[0] in list;
  }

  lemma PrependOn(first: Effect, rest: seq<Effect>)
    requires SwitchedOn(rest) && first.guard != Const(0, 1)
    ensures SwitchedOn([first] + rest)
  {
  }

  lemma {:induction false} MergeAllKeepsShape(list: seq<Effect>, effects: seq<Effect>)
    requires MergeAll(list, effects).Some? && DistinctDestinations(list) && SwitchedOn(list)
    ensures DistinctDestinations(MergeAll(list, effects).value) && SwitchedOn(MergeAll(list, effects).value)
  {
    hide DistinctDestinations, SwitchedOn, MergeEffect;
    if effects != [] {
      var earlier := MergeAll(list, effects[..|effects| - 1]).value;
      MergeAllKeepsShape(list, effects[..|effects| - 1]);
      MergeStaysDistinct(earlier, effects[|effects| - 1]);
      MergeWrites(earlier, effects[|effects| - 1]);
    }
  }

  /** The list a program folds into has one entry for each destination, and none that is switched off. */
  lemma {:induction false} SequenceIsDistinct(program: seq<seq<Effect>>, le: Order, fuel: nat)
    requires SequenceEffects(program, le, fuel).Done?
    ensures var list := SequenceEffects(program, le, fuel).value; DistinctDestinations(list) && SwitchedOn(list)
  {
    hide DistinctDestinations, SwitchedOn, MergeAll, LowerInstruction;
    if program == [] {
      NothingWritten();
    } else {
      var init := program[..|program| - 1];
      SequenceIsDistinct(init, le, fuel);
      var list := SequenceEffects(init, le, fuel).value;
      MergeAllKeepsShape(list, LowerInstruction(program[|program| - 1], list, le, fuel).value);
    }
  }
}
