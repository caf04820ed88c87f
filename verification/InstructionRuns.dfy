/** Programs of decoded instructions.

    Resolving the fields and derived values of every instruction first, and lowering the effects of every
    instruction on their own, runs as reading the effects in the environment of their instruction does. */
module InstructionRuns {
  import opened Words
  import opened Exprs
  import opened Effects
  import opened Typing
  import opened Canonicalizer
  import opened CanonicalizerSound
  import opened EffectSequence
  import opened Forwarding
  import opened EffectSequenceTheorems
  import opened Collapse
  import opened RegisterUse
  import opened Liveness

  /** The effects of an instruction as its form describes them, and what it was decoded with. */
  datatype Described = Described(instruction: Instruction, effects: seq<Effect>)

  // ----- reading effects in the environment of an instruction -----

  predicate FiresIn(guard: Expr, i: Instruction, depth: nat, s: MachineState)
  {
    EvalIn(guard, i, depth, s).Some? && EvalIn(guard, i, depth, s).value.value != 0
  }

  function RegisterWritesIn(effects: seq<Effect>, i: Instruction, depth: nat, s: MachineState): seq<RegisterWrite>
  {
    if effects == [] then []
    else
      var earlier, e := RegisterWritesIn(effects[..|effects| - 1], i, depth, s), effects[|effects| - 1];
      if e.WriteRegister? && FiresIn(e.guard, i, depth, s) && EvalIn(e.register, i, depth, s).Some?
         && EvalIn(e.value, i, depth, s).Some?
      then earlier + [(EvalIn(e.register, i, depth, s).value.value, EvalIn(e.value, i, depth, s).value)]
      else earlier
  }

  function MemoryWritesIn(effects: seq<Effect>, i: Instruction, depth: nat, s: MachineState): seq<MemoryWrite>
  {
    if effects == [] then []
    else
      var earlier, e := MemoryWritesIn(effects[..|effects| - 1], i, depth, s), effects[|effects| - 1];
      if e.WriteMemory? && FiresIn(e.guard, i, depth, s) && EvalIn(e.address, i, depth, s).Some?
         && EvalIn(e.value, i, depth, s).Some?
      then earlier + StoreWrites(EvalIn(e.address, i, depth, s).value, EvalIn(e.value, i, depth, s).value, e.width)
      else earlier
  }

  function UpdateIn(d: Described, depth: nat, s: MachineState): MachineState
  {
    MachineState(InsertAll(s.registers, RegisterWritesIn(d.effects, d.instruction, depth, s)),
                 InsertAll(s.memory, MemoryWritesIn(d.effects, d.instruction, depth, s)))
  }

  function RunIn(program: seq<Described>, depth: nat, s: MachineState): MachineState
  {
    if program == [] then s
    else UpdateIn(program[|program| - 1], depth, RunIn(program[..|program| - 1], depth, s))
  }

  /** Every part of the effect has a value. */
  ghost predicate EffectReadyIn(e: Effect, i: Instruction, depth: nat, s: MachineState)
  {
    EvalIn(e.guard, i, depth, s).Some? && EvalIn(e.Destination(), i, depth, s).Some?
    && EvalIn(e.value, i, depth, s).Some?
  }

  /** Every part of every effect has a value when its instruction is reached. */
  ghost predicate ReadyRun(program: seq<Described>, depth: nat, s: MachineState)
  {
    program == [] ||
    var init, last := program[..|program| - 1], program[|program| - 1];
    && ReadyRun(init, depth, s)
    && forall e | e in last.effects :: EffectReadyIn(e, last.instruction, depth, RunIn(init, depth, s))
  }

  // ----- resolving fields first -----

  function CollapseEffect(e: Effect, i: Instruction, depth: nat): Outcome<Effect>
  {
    var (guard, _) :- Collapse.Collapse(e.guard, i, depth);
    var (destination, _) :- Collapse.Collapse(e.Destination(), i, depth);
    var (value, _) :- Collapse.Collapse(e.value, i, depth);
    Done(match e
         case WriteRegister(_, _, _) => WriteRegister(guard, destination, value)
         case WriteMemory(_, _, _, width) => WriteMemory(guard, destination, value, width), {})
  }

  function CollapseEffects(effects: seq<Effect>, i: Instruction, depth: nat): Outcome<seq<Effect>>
  {
    if effects == [] then Done([], {})
    else
      var (init, _) :- CollapseEffects(effects[..|effects| - 1], i, depth);
      var (last, _) :- CollapseEffect(effects[|effects| - 1], i, depth);
      Done(init + [last], {})
  }

  function CollapseProgram(program: seq<Described>, depth: nat): Outcome<seq<seq<Effect>>>
  {
    if program == [] then Done([], {})
    else
      var (init, _) :- CollapseProgram(program[..|program| - 1], depth);
      var (last, _) :- CollapseEffects(program[|program| - 1].effects, program[|program| - 1].instruction, depth);
      Done(init + [last], {})
  }

  /** What collapsing one effect delivers. */
  ghost predicate CollapsedAs(c: Effect, e: Effect, i: Instruction, depth: nat, s: MachineState)
  {
    && c.WriteRegister? == e.WriteRegister? && (e.WriteMemory? ==> c.width == e.width)
    && Eval(c.guard, s) == EvalIn(e.guard, i, depth, s)
    && Eval(c.Destination(), s) == EvalIn(e.Destination(), i, depth, s)
    && Eval(c.value, s) == EvalIn(e.value, i, depth, s)
  }

  lemma CollapseEffectMeaning(e: Effect, i: Instruction, depth: nat, s: MachineState)
    requires EffectReadyIn(e, i, depth, s)
    ensures var r := CollapseEffect(e, i, depth); r.Done? && CollapsedAs(r.value, e, i, depth, s)
  {
    hide EvalIn, Eval;
    CollapseMeaning(e.guard, i, depth, s);
    CollapseMeaning(e.Destination(), i, depth, s);
    CollapseMeaning(e.value, i, depth, s);
  }

  lemma {:induction false} CollapsedWrites(effects: seq<Effect>, i: Instruction, depth: nat, s: MachineState)
    requires forall e | e in effects :: EffectReadyIn(e, i, depth, s)
    ensures var r := CollapseEffects(effects, i, depth);
      && r.Done? && RegisterWrites(r.value, s) == RegisterWritesIn(effects, i, depth, s)
      && MemoryWrites(r.value, s) == MemoryWritesIn(effects, i, depth, s)
  {
    hide EvalIn, Eval, CollapseEffect;
    if effects != [] {
      var init, last := effects[..|effects| - 1], effects[|effects| - 1];
      CollapsedWrites(init, i, depth, s);
      CollapseEffectMeaning(last, i, depth, s);
      var r := CollapseEffects(effects, i, depth).value;
      assert r[..|r| - 1] == CollapseEffects(init, i, depth).value;
    }
  }

  /** Resolving the fields of all instructions before running them changes nothing: no panic, and the run of the
      resolved effects is the run read in the environments of the instructions. */
  lemma {:induction false} CollapsedRun(program: seq<Described>, depth: nat, s: MachineState)
    requires ReadyRun(program, depth, s)
    ensures var r := CollapseProgram(program, depth); r.Done? && Run(r.value, s) == RunIn(program, depth, s)
  {
    hide CollapseEffects, RegisterWrites, RegisterWritesIn, MemoryWrites, MemoryWritesIn;
    if program != [] {
      var init, last := program[..|program| - 1], program[|program| - 1];
      CollapsedRun(init, depth, s);
      CollapsedWrites(last.effects, last.instruction, depth, RunIn(init, depth, s));
      var r := CollapseProgram(program, depth).value;
      assert r[..|r| - 1] == CollapseProgram(init, depth).value;
    }
  }

  /** The list that the resolved program folds into leaves what running the decoded instructions leaves. */
  lemma DecodedSequenceIsRun(program: seq<Described>, depth: nat, le: Order, fuel: nat, s: MachineState, g: Shape)
    requires ReadyRun(program, depth, s) && Total(s, g)
    requires var c := CollapseProgram(program, depth); c.Done? ==>
      && TypedProgram(c.value, g)
      && var r := SequenceEffects(c.value, le, fuel);
         r.Done? && AllHold(r.obligations, s) && FoldUndisturbed(c.value, le, fuel, s)
    ensures var c := CollapseProgram(program, depth);
      c.Done? && Update(SequenceEffects(c.value, le, fuel).value, s) == RunIn(program, depth, s)
  {
    CollapsedRun(program, depth, s);
    SequenceIsRun(CollapseProgram(program, depth).value, le, fuel, s, g);
  }

  // ----- the effects that liveness reads -----

  /** Every instruction's effects, lowered on their own. */
  ghost predicate LoweredEach(program: seq<seq<Effect>>, lowered: seq<seq<Effect>>, le: Order, fuel: nat)
  {
    |lowered| == |program| && forall k | 0 <= k < |program| :: LoweredFrom(program[k], lowered[k], le, fuel)
  }

  ghost predicate LoweredFrom(effects: seq<Effect>, lowered: seq<Effect>, le: Order, fuel: nat)
  {
    var r := LowerInstruction(effects, [], le, fuel); r.Done? && r.value == lowered
  }

  /** What lowering an instruction reports holds whenever the run reaches it. */
  ghost predicate HoldsAlong(program: seq<seq<Effect>>, le: Order, fuel: nat, s: MachineState)
  {
    program == [] ||
    var init, r := program[..|program| - 1], LowerInstruction(program[|program| - 1], [], le, fuel);
    HoldsAlong(init, le, fuel, s) && (r.Done? ==> AllHold(r.obligations, Run(init, s)))
  }

  lemma LoweredUpdate(effects: seq<Effect>, lowered: seq<Effect>, le: Order, fuel: nat, s: MachineState, g: Shape)
    requires Total(s, g) && TypedEffects(effects, g) && LoweredFrom(effects, lowered, le, fuel)
    requires AllHold(LowerInstruction(effects, [], le, fuel).obligations, s)
    ensures Update(lowered, s) == Update(effects, s)
  {
    hide LowerInstruction;
    var none: seq<Effect> := [];
    assert Lowered(none, s, g) && Update(none, s) == s;
    LowerInstructionMeaning(effects, none, le, fuel, s, g);
  }

  /** Lowering every instruction on its own does not change the run. */
  lemma {:induction false} LoweredRun(
    program: seq<seq<Effect>>, lowered: seq<seq<Effect>>, le: Order, fuel: nat, s: MachineState, g: Shape)
    requires Total(s, g) && TypedProgram(program, g) && LoweredEach(program, lowered, le, fuel)
             && HoldsAlong(program, le, fuel, s)
    ensures Run(lowered, s) == Run(program, s)
  {
    hide LowerInstruction, Update, TypedEffects;
    if program != [] {
      var n := |program| - 1;
      assert LoweredFrom(program[n], lowered[n], le, fuel) && TypedEffects(program[n], g);
      forall k | 0 <= k < n ensures LoweredFrom(program[..n][k], lowered[..n][k], le, fuel) {
        assert LoweredFrom(program[k], lowered[k], le, fuel);
      }
      LoweredRun(program[..n], lowered[..n], le, fuel, s, g);
      RunKeepsTotal(program[..n], s, g);
      LoweredUpdate(program[n], lowered[n], le, fuel, Run(program[..n], s), g);
    }
  }

  /** The analysed blocks hold the lowered effects of the blocks as they are executed. */
  ghost predicate LoweredBlocks(executed: Blocks, blocks: Blocks, le: Order, fuel: nat, g: Shape)
  {
    |executed| == |blocks| && forall b | 0 <= b < |blocks| ::
      TypedProgram(executed[b].instructions, g)
      && LoweredEach(executed[b].instructions, blocks[b].instructions, le, fuel)
  }

  ghost predicate HoldsAlongPath(executed: Blocks, path: seq<nat>, le: Order, fuel: nat, s: MachineState)
    requires forall i | 0 <= i < |path| :: path[i] < |executed|
  {
    path == [] ||
    var n := |path| - 1;
    && HoldsAlongPath(executed, path[..n], le, fuel, s)
    && HoldsAlong(executed[path[n]].instructions, le, fuel, RunPath(executed, path[..n], s))
  }

  lemma {:induction false} LoweredPath(
    executed: Blocks, blocks: Blocks, path: seq<nat>, le: Order, fuel: nat, s: MachineState, g: Shape)
    requires LoweredBlocks(executed, blocks, le, fuel, g) && Total(s, g)
    requires (forall i | 0 <= i < |path| :: path[i] < |blocks|) && HoldsAlongPath(executed, path, le, fuel, s)
    ensures RunPath(executed, path, s) == RunPath(blocks, path, s) && Total(RunPath(executed, path, s), g)
  {
    hide Run, HoldsAlong, LoweredEach, TypedProgram;
    if path != [] {
      var n := |path| - 1;
      LoweredPath(executed, blocks, path[..n], le, fuel, s, g);
      var t := RunPath(executed, path[..n], s);
      LoweredRun(executed[path[n]].instructions, blocks[path[n]].instructions, le, fuel, t, g);
      RunKeepsTotal(executed[path[n]].instructions, t, g);
    }
  }

  /** Liveness computed from lowered effects speaks of the run: executing the instructions along any path from
      states that agree on memory and on what is live in leaves states that agree on what is live out. */
  lemma ExecutionKeepsLiveAgreement(
    executed: Blocks, blocks: Blocks, path: seq<nat>, le: Order, fuel: nat, s: MachineState, t: MachineState, g: Shape)
    requires Analysed(blocks, g) && LoweredBlocks(executed, blocks, le, fuel, g) && IsPath(blocks, path)
    requires Total(s, g) && Total(t, g) && AgreeOn(s, t, blocks[path[0]].liveIn)
    requires HoldsAlongPath(executed, path, le, fuel, s) && HoldsAlongPath(executed, path, le, fuel, t)
    ensures AgreeOn(RunPath(executed, path, s), RunPath(executed, path, t), blocks[path[|path| - 1]].liveOut)
  {
    LoweredPath(executed, blocks, path, le, fuel, s, g);
    LoweredPath(executed, blocks, path, le, fuel, t, g);
    PathKeepsLiveAgreement(blocks, path, s, t, g);
  }
}
