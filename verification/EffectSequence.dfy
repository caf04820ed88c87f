/** Folding a program into one list of effects over its start state. */
module EffectSequence {
  import opened Words
  import opened Exprs
  import opened Effects
  import opened ByteMemory
  import opened Canonicalizer

  // ----- forwarding earlier writes into reads -----

  function Forwarded(guard: Expr, destination: Expr, wanted: Expr, value: Expr, otherwise: Expr): Expr
  {
    Select(Bin(And, guard, Bin(Equal, wanted, destination)), value, otherwise)
  }

  /** Latest-write-wins chain over the earlier register writes of the read's width. */
  function ForwardRegister(register: Expr, width: nat, previous: seq<Effect>): Expr
  {
    if previous == [] then ReadRegister(register, width)
    else
      var earlier, e := ForwardRegister(register, width, previous[..|previous| - 1]), previous[|previous| - 1];
      if e.WriteRegister? && ExprWidth(e.value) == Some(width)
      then Forwarded(e.guard, e.register, register, e.value, earlier)
      else earlier
  }

  function ForwardMemory(address: Expr, width: nat, previous: seq<Effect>): Expr
  {
    if previous == [] then ReadMemory(address, width)
    else
      var earlier, e := ForwardMemory(address, width, previous[..|previous| - 1]), previous[|previous| - 1];
      if e.WriteMemory? && e.width == width
      then Forwarded(e.guard, e.address, address, e.value, earlier)
      else earlier
  }

  function Substitute(e: Expr, previous: seq<Effect>): Expr
    decreases e, 1
  {
    match e
    case ReadRegister(register, width) => ForwardRegister(Substitute(register, previous), width, previous)
    case ReadMemory(address, width) => ForwardMemory(Substitute(address, previous), width, previous)
    case Bin(op, lhs, rhs) => Bin(op, Substitute(lhs, previous), Substitute(rhs, previous))
    case Not(operand) => Not(Substitute(operand, previous))
    case CountOnes(operand) => CountOnes(Substitute(operand, previous))
    case Slice(operand, high, low) => Slice(Substitute(operand, previous), high, low)
    case Concat(parts) => Concat(SubstituteAll(parts, previous))
    case Extend(kind, operand, toWidth) => Extend(kind, Substitute(operand, previous), toWidth)
    case Flag(flag, lhs, rhs, flagIn, width) =>
      Flag(flag, Substitute(lhs, previous), Substitute(rhs, previous), Substitute(flagIn, previous), width)
    case Select(condition, whenTrue, whenFalse) =>
      Select(Substitute(condition, previous), Substitute(whenTrue, previous), Substitute(whenFalse, previous))
    case _ => e
  }

  function SubstituteAll(parts: seq<Expr>, previous: seq<Effect>): (r: seq<Expr>)
    ensures |r| == |parts|
    decreases parts, 0
  {
    if parts == [] then []
    else SubstituteAll(parts[..|parts| - 1], previous) + [Substitute(parts[|parts| - 1], previous)]
  }

  // ----- lowering one instruction -----

  /** Lowers one expression of an effect; guards and destinations are canonicalized, values are not. */
  function LowerPart(e: Expr, previous: seq<Effect>, canonical: bool, le: Order, fuel: nat): Outcome<Expr>
  {
    var lowered := LowerReads(e);
    if lowered.None? then Panic
    else
      var x := Substitute(lowered.value, previous);
      if canonical then Canonicalize(x, le, fuel) else Done(x, {})
  }

  /** The store of byte `n` of a wide store. */
  function ByteStore(guard: Expr, address: Expr, value: Expr, n: nat, addressWidth: nat): Effect
  {
    WriteMemory(guard, ByteAddressExpr(address, n, addressWidth), Slice(value, 8 * n + 7, 8 * n), 8)
  }

  /** One byte store per byte of a wide store. */
  function SplitStore(guard: Expr, address: Expr, value: Expr, count: nat, addressWidth: nat): seq<Effect>
  {
    if count == 0 then []
    else
      SplitStore(guard, address, value, count - 1, addressWidth)
      + [ByteStore(guard, address, value, count - 1, addressWidth)]
  }

  function LowerEffect(e: Effect, previous: seq<Effect>, le: Order, fuel: nat): Outcome<seq<Effect>>
  {
    var (guard, o1) :- LowerPart(e.guard, previous, true, le, fuel);
    var (destination, o2) :- LowerPart(e.Destination(), previous, true, le, fuel);
    var (value, o3) :- LowerPart(e.value, previous, false, le, fuel);
    var obligations := o1 + o2 + o3;
    match e
    case WriteRegister(_, _, _) => Done([WriteRegister(guard, destination, value)], obligations)
    case WriteMemory(_, _, _, width) =>
      if width == 8 then Done([WriteMemory(guard, destination, value, 8)], obligations)
      else if width % 8 != 0 || ExprWidth(destination).None? then Panic
      else Done(SplitStore(guard, destination, value, width / 8, ExprWidth(destination).value), obligations)
  }

  function LowerInstruction(effects: seq<Effect>, previous: seq<Effect>, le: Order, fuel: nat): Outcome<seq<Effect>>
  {
    if effects == [] then Done([], {})
    else
      var (earlier, o1) :- LowerInstruction(effects[..|effects| - 1], previous, le, fuel);
      var (last, o2) :- LowerEffect(effects[|effects| - 1], previous, le, fuel);
      Done(earlier + last, o1 + o2)
  }

  // ----- merging into the list -----

  function WithParts(e: Effect, guard: Expr, value: Expr): Effect
  {
    match e
    case WriteRegister(_, register, _) => WriteRegister(guard, register, value)
    case WriteMemory(_, address, _, width) => WriteMemory(guard, address, value, width)
  }

  function StoredWidth(e: Effect): Option<nat>
  {
    if e.WriteRegister? then ExprWidth(e.value) else Some(e.width)
  }

  /** Combines two writes to the same place, `second` being the later one: `Some(None)` if the places
      differ, `None` for a panic on missing or different widths. */
  function CombineEffects(first: Effect, second: Effect): Option<Option<Effect>>
  {
    if StoredWidth(first).None? then None
    else if first.WriteRegister? != second.WriteRegister? || first.Destination() != second.Destination() then Some(None)
    else if StoredWidth(second) != StoredWidth(first) then None
    else if second.guard == Const(1, 1) then Some(Some(second))
    else if second.guard == Const(0, 1) then Some(Some(first))
    else if first.guard == second.guard then Some(Some(second))
    else Some(Some(WithParts(first, Bin(Or, first.guard, second.guard),
                             Select(second.guard, second.value, first.value))))
  }

  /** Replaces the first entry for the same place, or appends unless the guard is constantly false. */
  function MergeEffect(list: seq<Effect>, e: Effect): Option<seq<Effect>>
  {
    if list == [] then Some(if e.guard == Const(0, 1) then [] else [e])
    else
      var combined :- CombineEffects(list[0], e);
      if combined.Some? then Some([combined.value] + list[1..])
      else
        var rest :- MergeEffect(list[1..], e);
        Some([list[0]] + rest)
  }

  function MergeAll(list: seq<Effect>, effects: seq<Effect>): Option<seq<Effect>>
  {
    if effects == [] then Some(list)
    else
      var earlier :- MergeAll(list, effects[..|effects| - 1]);
      MergeEffect(earlier, effects[|effects| - 1])
  }

  /** The whole program as one list of effects over its start state. */
  function SequenceEffects(program: seq<seq<Effect>>, le: Order, fuel: nat): Outcome<seq<Effect>>
  {
    if program == [] then Done([], {})
    else
      var (list, o1) :- SequenceEffects(program[..|program| - 1], le, fuel);
      var (lowered, o2) :- LowerInstruction(program[|program| - 1], list, le, fuel);
      var merged := MergeAll(list, lowered);
      if merged.None? then Panic else Done(merged.value, o1 + o2)
  }

  // ----- the same fold as a program that updates the list in place -----

  function Prepend(front: seq<Effect>, r: Option<seq<Effect>>): Option<seq<Effect>>
  {
    if r.None? then None else Some(front + r.value)
  }

  lemma MergeSkips(list: seq<Effect>, i: nat, e: Effect)
    requires i < |list| && CombineEffects(list[i], e) == Some(None)
    ensures Prepend(list[..i], MergeEffect(list[i..], e)) == Prepend(list[..i + 1], MergeEffect(list[i + 1..], e))
  {
    assert list[i..][1..] == list[i + 1..];
    var rest := MergeEffect(list[i + 1..], e);
    if rest.Some? { assert list[..i] + ([list[i]] + rest.value) == list[..i + 1] + rest.value; }
  }

  lemma MergeHits(list: seq<Effect>, i: nat, e: Effect)
    requires i < |list| && CombineEffects(list[i], e).Some? && CombineEffects(list[i], e).value.Some?
    ensures Prepend(list[..i], MergeEffect(list[i..], e)) == Some(list[i := CombineEffects(list[i], e).value.value])
  {
    var combined := CombineEffects(list[i], e).value.value;
    assert list[i..][0] == list[i] && list[i..][1..] == list[i + 1..];
    assert list[i := combined] == list[..i] + ([combined] + list[i + 1..]);
  }

  /** Merges one effect into the list, scanning for an entry to overwrite. */
  method MergeInPlace(list: seq<Effect>, e: Effect) returns (r: Option<seq<Effect>>)
    ensures r == MergeEffect(list, e)
  {
    var updated, i := list, 0;
    assert list[..0] == [] && list[0..] == list;
    assert MergeEffect(list, e).Some? ==> [] + MergeEffect(list, e).value == MergeEffect(list, e).value;
    while i < |list|
      invariant 0 <= i <= |list| && updated == list
      invariant MergeEffect(list, e) == Prepend(list[..i], MergeEffect(list[i..], e))
    {
      var combined := CombineEffects(updated[i], e);
      if combined.None? {
        assert list[i..][0] == list[i];
        return None;
      }
      if combined.value.Some? {
        updated := updated[i := combined.value.value];
        MergeHits(list, i, e);
        return Some(updated);
      }
      MergeSkips(list, i, e);
      i := i + 1;
    }
    assert list[..i] == list;
    if e.guard != Const(0, 1) {
      updated := updated + [e];
    }
    assert list + [] == list;
    r := Some(updated);
  }

  method MergeAllInPlace(list: seq<Effect>, effects: seq<Effect>) returns (r: Option<seq<Effect>>)
    ensures r == MergeAll(list, effects)
  {
    var updated := list;
    for j := 0 to |effects|
      invariant MergeAll(list, effects[..j]) == Some(updated)
    {
      assert effects[..j + 1][..j] == effects[..j];
      var merged := MergeInPlace(updated, effects[j]);
      if merged.None? {
        MergePrefixFails(list, effects, j + 1);
        return None;
      }
      updated := merged.value;
    }
    assert effects[..|effects|] == effects;
    r := Some(updated);
  }

  method SequenceInPlace(program: seq<seq<Effect>>, le: Order, fuel: nat) returns (r: Outcome<seq<Effect>>)
    ensures r == SequenceEffects(program, le, fuel)
  {
    var list: seq<Effect> := [];
    var obligations: set<Obligation> := {};
    for i := 0 to |program|
      invariant SequenceEffects(program[..i], le, fuel) == Done(list, obligations)
    {
      assert program[..i + 1][..i] == program[..i];
      var lowered := LowerInstruction(program[i], list, le, fuel);
      if !lowered.Done? {
        PrefixFails(program, i + 1, le, fuel);
        return lowered.PropagateFailure();
      }
      var merged := MergeAllInPlace(list, lowered.value);
      if merged.None? {
        PrefixFails(program, i + 1, le, fuel);
        return Panic;
      }
      list, obligations := merged.value, obligations + lowered.obligations;
    }
    assert program[..|program|] == program;
    r := Done(list, obligations);
  }

  lemma {:induction false} PrefixFails(program: seq<seq<Effect>>, i: nat, le: Order, fuel: nat)
    requires i <= |program| && !SequenceEffects(program[..i], le, fuel).Done?
    ensures SequenceEffects(program, le, fuel) == SequenceEffects(program[..i], le, fuel)
    decreases |program|
  {
    if i < |program| {
      assert program[..|program| - 1][..i] == program[..i];
      PrefixFails(program[..|program| - 1], i, le, fuel);
    } else {
      assert program[..i] == program;
    }
  }

  lemma {:induction false} MergePrefixFails(list: seq<Effect>, effects: seq<Effect>, j: nat)
    requires j <= |effects| && MergeAll(list, effects[..j]).None?
    ensures MergeAll(list, effects).None?
    decreases |effects|
  {
    if j < |effects| {
      assert effects[..|effects| - 1][..j] == effects[..j];
      MergePrefixFails(list, effects[..|effects| - 1], j);
    } else {
      assert effects[..j] == effects;
    }
  }
}
