/** Backward liveness over basic blocks: the fixed point, its paths and what it means for execution. */
module Liveness {
  import opened Exprs
  import opened Effects
  import opened Typing
  import opened VariablePool
  import opened RegisterUse

  datatype BasicBlock = BasicBlock(
    start: nat, readRegs: set<Register>, consumed: set<Register>,
    liveIn: set<Register>, liveOut: set<Register>, next: seq<nat>, instructions: seq<seq<Effect>>)

  type Blocks = seq<BasicBlock>

  ghost predicate EdgesOk(blocks: Blocks)
  {
    forall b, k | 0 <= b < |blocks| && 0 <= k < |blocks[b].next| :: blocks[b].next[k] < |blocks|
  }

  /** The blocks differ in their live sets only. */
  ghost predicate SameGraph(blocks: Blocks, later: Blocks)
  {
    |later| == |blocks| && forall b | 0 <= b < |blocks| ::
      later[b] == blocks[b].(liveIn := later[b].liveIn, liveOut := later[b].liveOut)
  }

  // ----- what a fixed point is -----

  /** Live sets for every block: an upper bound of the blocks' own, closed under the two flow rules. */
  ghost predicate Closed(blocks: Blocks, ins: seq<set<Register>>, outs: seq<set<Register>>)
    requires EdgesOk(blocks)
  {
    && |ins| == |outs| == |blocks|
    && forall b | 0 <= b < |blocks| :: ClosedAt(blocks, ins, outs, b)
  }

  ghost predicate ClosedAt(blocks: Blocks, ins: seq<set<Register>>, outs: seq<set<Register>>, b: nat)
    requires EdgesOk(blocks) && |ins| == |outs| == |blocks| && b < |blocks|
  {
    && blocks[b].liveIn <= ins[b] && blocks[b].liveOut <= outs[b]
    && outs[b] - blocks[b].consumed <= ins[b]
    && forall k | 0 <= k < |blocks[b].next| :: ins[blocks[b].next[k]] <= outs[b]
  }

  ghost predicate Below(blocks: Blocks, ins: seq<set<Register>>, outs: seq<set<Register>>)
    requires |ins| == |outs| == |blocks|
  {
    forall b | 0 <= b < |blocks| :: blocks[b].liveIn <= ins[b] && blocks[b].liveOut <= outs[b]
  }

  ghost function Ins(blocks: Blocks): (s: seq<set<Register>>)
    ensures |s| == |blocks| && forall b | 0 <= b < |blocks| :: s[b] == blocks[b].liveIn
  {
    seq(|blocks|, b requires 0 <= b < |blocks| => blocks[b].liveIn)
  }

  ghost function Outs(blocks: Blocks): (s: seq<set<Register>>)
    ensures |s| == |blocks| && forall b | 0 <= b < |blocks| :: s[b] == blocks[b].liveOut
  {
    seq(|blocks|, b requires 0 <= b < |blocks| => blocks[b].liveOut)
  }

  // ----- one block visited -----

  function SuccessorsLive(blocks: Blocks, next: seq<nat>): set<Register>
    requires forall k | 0 <= k < |next| :: next[k] < |blocks|
  {
    if next == [] then {} else SuccessorsLive(blocks, next[..|next| - 1]) + blocks[next[|next| - 1]].liveIn
  }

  lemma {:induction false} SuccessorIsLive(blocks: Blocks, next: seq<nat>, k: nat)
    requires (forall k | 0 <= k < |next| :: next[k] < |blocks|) && k < |next|
    ensures blocks[next[k]].liveIn <= SuccessorsLive(blocks, next)
  {
    if k < |next| - 1 { SuccessorIsLive(blocks, next[..|next| - 1], k); }
  }

  lemma {:induction false} SuccessorsBelow(blocks: Blocks, next: seq<nat>, bound: set<Register>)
    requires forall k | 0 <= k < |next| :: next[k] < |blocks| && blocks[next[k]].liveIn <= bound
    ensures SuccessorsLive(blocks, next) <= bound
  {
    if next != [] { SuccessorsBelow(blocks, next[..|next| - 1], bound); }
  }

  /** The block after a visit: reads the old live-out, then adds what the successors need. */
  function Visited(blocks: Blocks, b: nat): BasicBlock
    requires b < |blocks| && forall k | 0 <= k < |blocks[b].next| :: blocks[b].next[k] < |blocks|
  {
    var block := blocks[b];
    block.(liveIn := block.liveIn + (block.liveOut - block.consumed),
           liveOut := block.liveOut + SuccessorsLive(blocks, block.next))
  }

  // ----- the measure -----

  /** How far the block's live sets are from holding everything. */
  function Gap(block: BasicBlock, universe: set<Register>): nat
  {
    |universe - block.liveIn| + |universe - block.liveOut|
  }

  function Missing(blocks: Blocks, universe: set<Register>): nat
  {
    if blocks == [] then 0
    else Missing(blocks[..|blocks| - 1], universe) + Gap(blocks[|blocks| - 1], universe)
  }

  ghost predicate Within(blocks: Blocks, universe: set<Register>)
  {
    forall b | 0 <= b < |blocks| :: blocks[b].liveIn <= universe && blocks[b].liveOut <= universe
  }

  lemma SetShrinks(universe: set<Register>, a: set<Register>, b: set<Register>)
    requires a <= b <= universe
    ensures |universe - b| <= |universe - a|
    ensures |b| != |a| ==> |universe - b| < |universe - a|
    ensures |b| == |a| ==> a == b
  {
    assert universe - a == (universe - b) + (b - a);
    assert b == a + (b - a);
  }

  /** Neither live set lost anything, and one of them is larger. */
  predicate Grew(before: BasicBlock, after: BasicBlock)
  {
    |after.liveIn| != |before.liveIn| || |after.liveOut| != |before.liveOut|
  }

  lemma GapShrinks(before: BasicBlock, after: BasicBlock, universe: set<Register>)
    requires before.liveIn <= after.liveIn <= universe && before.liveOut <= after.liveOut <= universe
    ensures Gap(after, universe) <= Gap(before, universe)
    ensures Grew(before, after) ==> Gap(after, universe) < Gap(before, universe)
    ensures !Grew(before, after) ==> after.liveIn == before.liveIn && after.liveOut == before.liveOut
  {
    SetShrinks(universe, before.liveIn, after.liveIn);
    SetShrinks(universe, before.liveOut, after.liveOut);
  }

  lemma {:induction false} MissingChanges(blocks: Blocks, b: nat, block: BasicBlock, universe: set<Register>)
    requires b < |blocks|
    ensures Missing(blocks[b := block], universe) - Missing(blocks, universe)
            == Gap(block, universe) - Gap(blocks[b], universe)
  {
    var later, n := blocks[b := block], |blocks| - 1;
    if b == n {
      assert later[..n] == blocks[..n];
    } else {
      assert later[..n] == blocks[..n][b := block];
      MissingChanges(blocks[..n], b, block, universe);
    }
  }

  /** All registers mentioned by the blocks' own live sets. */
  function Universe(blocks: Blocks): set<Register>
  {
    if blocks == [] then {}
    else Universe(blocks[..|blocks| - 1]) + blocks[|blocks| - 1].liveIn + blocks[|blocks| - 1].liveOut
  }

  lemma {:induction false} InUniverse(blocks: Blocks, b: nat)
    requires b < |blocks|
    ensures blocks[b].liveIn <= Universe(blocks) && blocks[b].liveOut <= Universe(blocks)
  {
    if b < |blocks| - 1 { InUniverse(blocks[..|blocks| - 1], b); }
  }

  lemma VisitedWithin(blocks: Blocks, b: nat, universe: set<Register>)
    requires EdgesOk(blocks) && b < |blocks| && Within(blocks, universe)
    ensures Visited(blocks, b).liveIn <= universe && Visited(blocks, b).liveOut <= universe
  {
    SuccessorsBelow(blocks, blocks[b].next, universe);
  }

  /** A visit stays below every closed assignment of live sets. */
  lemma VisitedBelow(start: Blocks, blocks: Blocks, b: nat, ins: seq<set<Register>>, outs: seq<set<Register>>)
    requires EdgesOk(start) && SameGraph(start, blocks) && Closed(start, ins, outs) && Below(blocks, ins, outs)
             && b < |blocks|
    ensures blocks[b].next == start[b].next
    ensures Below(blocks[b := Visited(blocks, b)], ins, outs)
  {
    assert ClosedAt(start, ins, outs, b);
    SuccessorsBelow(blocks, blocks[b].next, outs[b]);
  }

  /** A visit that changes nothing shows that the flow rules hold at the block. */
  lemma UnchangedIsClosed(start: Blocks, blocks: Blocks, b: nat)
    requires EdgesOk(start) && SameGraph(start, blocks) && Below(start, Ins(blocks), Outs(blocks)) && b < |blocks|
    requires blocks[b].next == start[b].next && Visited(blocks, b) == blocks[b]
    ensures ClosedAt(start, Ins(blocks), Outs(blocks), b)
  {
    forall k | 0 <= k < |start[b].next| ensures Ins(blocks)[start[b].next[k]] <= Outs(blocks)[b] {
      SuccessorIsLive(blocks, blocks[b].next, k);
    }
  }

  /** The state of the iteration: bounded by every fixed point and by the registers in play. */
  ghost predicate Between(start: Blocks, blocks: Blocks)
  {
    && EdgesOk(start) && EdgesOk(blocks) && SameGraph(start, blocks) && Within(blocks, Universe(start))
    && Below(start, Ins(blocks), Outs(blocks))
    && forall ins, outs | Closed(start, ins, outs) :: Below(blocks, ins, outs)
  }

  lemma StartIsBetween(start: Blocks)
    requires EdgesOk(start)
    ensures Between(start, start)
  {
    forall b | 0 <= b < |start| ensures start[b].liveIn <= Universe(start) && start[b].liveOut <= Universe(start) {
      InUniverse(start, b);
    }
    forall ins, outs | Closed(start, ins, outs) ensures Below(start, ins, outs) {
      forall b | 0 <= b < |start| ensures start[b].liveIn <= ins[b] && start[b].liveOut <= outs[b] {
        assert ClosedAt(start, ins, outs, b);
      }
    }
  }

  lemma VisitKeepsBetween(start: Blocks, blocks: Blocks, b: nat)
    requires Between(start, blocks) && b < |blocks|
    ensures Between(start, blocks[b := Visited(blocks, b)])
  {
    var later := blocks[b := Visited(blocks, b)];
    VisitedWithin(blocks, b, Universe(start));
    forall ins, outs | Closed(start, ins, outs) ensures Below(later, ins, outs) {
      VisitedBelow(start, blocks, b, ins, outs);
    }
  }

  /** A visit that enlarges a live set brings the measure down; any other shows the block is settled. */
  lemma VisitProgress(start: Blocks, blocks: Blocks, b: nat)
    requires Between(start, blocks) && b < |blocks|
    ensures var later, grew := blocks[b := Visited(blocks, b)], Grew(blocks[b], Visited(blocks, b));
      && Missing(later, Universe(start)) <= Missing(blocks, Universe(start))
      && (grew ==> Missing(later, Universe(start)) < Missing(blocks, Universe(start)))
      && (!grew ==> later == blocks && ClosedAt(start, Ins(blocks), Outs(blocks), b))
  {
    VisitedWithin(blocks, b, Universe(start));
    GapShrinks(blocks[b], Visited(blocks, b), Universe(start));
    MissingChanges(blocks, b, Visited(blocks, b), Universe(start));
    assert blocks[b].next == start[b].next;
    if !Grew(blocks[b], Visited(blocks, b)) { UnchangedIsClosed(start, blocks, b); }
  }

  /** The flow rules hold at the first `n` blocks. */
  ghost predicate SettledTo(start: Blocks, blocks: Blocks, n: nat)
    requires EdgesOk(start) && |blocks| == |start|
  {
    forall j | 0 <= j < n && j < |blocks| :: ClosedAt(start, Ins(blocks), Outs(blocks), j)
  }

  /** The analysed program, whose live sets the analysis fills in. */
  class ProgramAnalysis {
    var program: Blocks

    constructor (program: Blocks)
      ensures this.program == program
    {
      this.program := program;
    }

    /** Visits one block and reports whether a live set grew. */
    method VisitBlock(b: nat) returns (grew: bool)
      requires EdgesOk(program) && b < |program|
      modifies this
      ensures program == old(program)[b := Visited(old(program), b)]
      ensures grew == Grew(old(program)[b], program[b])
    {
      var block := program[b];
      var newLiveOut: set<Register> := {};
      for k := 0 to |block.next|
        invariant program == old(program)
        invariant newLiveOut == SuccessorsLive(program, block.next[..k])
      {
        assert block.next[..k + 1][..k] == block.next[..k];
        newLiveOut := newLiveOut + program[block.next[k]].liveIn;
      }
      assert block.next[..|block.next|] == block.next;
      var updated := block.(liveIn := block.liveIn + (block.liveOut - block.consumed),
                            liveOut := block.liveOut + newLiveOut);
      program := program[b := updated];
      grew := |updated.liveIn| != |block.liveIn| || |updated.liveOut| != |block.liveOut|;
    }

    /** Visits every block once. */
    method Pass(ghost start: Blocks) returns (changed: bool)
      requires Between(start, program)
      modifies this
      ensures Between(start, program)
      ensures changed ==> Missing(program, Universe(start)) < Missing(old(program), Universe(start))
      ensures !changed ==> SettledTo(start, program, |program|) && program == old(program)
    {
      changed := false;
      for b := 0 to |program|
        invariant Between(start, program) && |program| == |old(program)|
        invariant Missing(program, Universe(start)) <= Missing(old(program), Universe(start))
        invariant changed ==> Missing(program, Universe(start)) < Missing(old(program), Universe(start))
        invariant !changed ==> program == old(program) && SettledTo(start, program, b)
      {
        VisitKeepsBetween(start, program, b);
        VisitProgress(start, program, b);
        var grew := VisitBlock(b);
        if grew { changed := true; }
      }
    }

    /** Iterates to the least fixed point. */
    method ComputeLiveliness()
      requires EdgesOk(program)
      modifies this
      ensures SameGraph(old(program), program)
      ensures Closed(old(program), Ins(program), Outs(program))
      ensures forall ins, outs | Closed(old(program), ins, outs) :: Below(program, ins, outs)
    {
      ghost var start := program;
      StartIsBetween(start);
      var changed := true;
      while changed
        invariant Between(start, program)
        invariant !changed ==> SettledTo(start, program, |program|)
        decreases Missing(program, Universe(start)), changed
      {
        changed := Pass(start);
      }
    }
  }

  // ----- paths -----

  /** A walk along edges of the graph. */
  ghost predicate IsPath(blocks: Blocks, path: seq<nat>)
  {
    && path != [] && (forall i | 0 <= i < |path| :: path[i] < |blocks|)
    && forall i | 0 <= i < |path| - 1 :: path[i + 1] in blocks[path[i]].next
  }

  /** No block strictly inside the walk surely overwrites the register. */
  ghost predicate Survives(blocks: Blocks, path: seq<nat>, r: Register, upTo: nat)
    requires IsPath(blocks, path) && upTo <= |path|
  {
    forall i | 0 < i < upTo :: r !in blocks[path[i]].consumed
  }

  /** The walk leaves its first block and ends where the register is read, or at the seeded exit of a
      block, with no unconditional overwrite in between. */
  ghost predicate Needs(blocks: Blocks, path: seq<nat>, r: Register)
  {
    && IsPath(blocks, path)
    && var last := path[|path| - 1];
       || (|path| > 1 && r in blocks[last].liveIn && Survives(blocks, path, r, |path| - 1))
       || (r in blocks[last].liveOut && Survives(blocks, path, r, |path|))
  }

  ghost predicate NeededAfter(blocks: Blocks, b: nat, r: Register)
  {
    exists path :: Needs(blocks, path, r) && path[0] == b
  }

  lemma PrependPath(blocks: Blocks, b: nat, path: seq<nat>, r: Register)
    requires Needs(blocks, path, r) && b < |blocks| && path[0] in blocks[b].next && r !in blocks[path[0]].consumed
    ensures NeededAfter(blocks, b, r)
  {
    var longer := [b] + path;
    forall i | 0 <= i < |longer| - 1 ensures longer[i + 1] in blocks[longer[i]].next {
      if i > 0 { assert path[i - 1 + 1] in blocks[path[i - 1]].next; }
    }
    assert IsPath(blocks, longer);
    forall i | 0 < i < |longer| && Survives(blocks, path, r, |path|) ensures r !in blocks[longer[i]].consumed {
      assert longer[i] == path[i - 1];
    }
    forall i | 0 < i < |longer| - 1 && |path| > 1 && Survives(blocks, path, r, |path| - 1)
      ensures r !in blocks[longer[i]].consumed
    {
      assert longer[i] == path[i - 1];
    }
    assert Needs(blocks, longer, r) && longer[0] == b;
  }

  /** Every closed assignment has the register live wherever a path needs it. */
  lemma {:induction false} NeededIsLive(
    blocks: Blocks, path: seq<nat>, r: Register, ins: seq<set<Register>>, outs: seq<set<Register>>)
    requires EdgesOk(blocks) && Closed(blocks, ins, outs) && Needs(blocks, path, r)
    ensures r in outs[path[0]]
    decreases |path|
  {
    var b := path[0];
    assert ClosedAt(blocks, ins, outs, b);
    if |path| > 1 {
      var n, rest := path[1], path[1..];
      assert n in blocks[b].next by { assert path[0 + 1] in blocks[path[0]].next; }
      var k :| 0 <= k < |blocks[b].next| && blocks[b].next[k] == n;
      assert ClosedAt(blocks, ins, outs, n);
      if |path| == 2 && r in blocks[n].liveIn {
      } else {
        forall i | 0 <= i < |rest| - 1 ensures rest[i + 1] in blocks[rest[i]].next {
          assert path[i + 1 + 1] in blocks[path[i + 1]].next;
        }
        assert r !in blocks[path[1]].consumed;
        forall i | 0 < i < |rest| ensures rest[i] == path[i + 1] {}
        assert Needs(blocks, rest, r);
        NeededIsLive(blocks, rest, r, ins, outs);
      }
    }
  }

  /** The registers that some path needs, block by block, form a closed assignment. */
  ghost function NeededOut(blocks: Blocks, b: nat, universe: set<Register>): set<Register>
  {
    set r | r in universe && NeededAfter(blocks, b, r)
  }

  ghost function NeededIn(blocks: Blocks, b: nat, universe: set<Register>): set<Register>
    requires b < |blocks|
  {
    blocks[b].liveIn + (NeededOut(blocks, b, universe) - blocks[b].consumed)
  }

  lemma NeededIsClosed(blocks: Blocks, ins: seq<set<Register>>, outs: seq<set<Register>>)
    requires EdgesOk(blocks) && |ins| == |outs| == |blocks|
    requires forall b | 0 <= b < |blocks| ::
      ins[b] == NeededIn(blocks, b, Universe(blocks)) && outs[b] == NeededOut(blocks, b, Universe(blocks))
    ensures Closed(blocks, ins, outs)
  {
    forall b | 0 <= b < |blocks| ensures ClosedAt(blocks, ins, outs, b) {
      InUniverse(blocks, b);
      forall r | r in blocks[b].liveOut ensures r in outs[b] {
        assert Needs(blocks, [b], r) && [b][0] == b;
      }
      forall k, r | 0 <= k < |blocks[b].next| && r in ins[blocks[b].next[k]] ensures r in outs[b] {
        NeededThrough(blocks, b, k, r);
      }
    }
  }

  lemma NeededThrough(blocks: Blocks, b: nat, k: nat, r: Register)
    requires EdgesOk(blocks) && b < |blocks| && k < |blocks[b].next|
    requires r in NeededIn(blocks, blocks[b].next[k], Universe(blocks))
    ensures r in NeededOut(blocks, b, Universe(blocks))
  {
    var n := blocks[b].next[k];
    InUniverse(blocks, n);
    if r in blocks[n].liveIn {
      var path := [b, n];
      assert IsPath(blocks, path);
      assert Needs(blocks, path, r) && path[0] == b;
    } else {
      assert NeededAfter(blocks, n, r);
      var path :| Needs(blocks, path, r) && path[0] == n;
      PrependPath(blocks, b, path, r);
    }
  }

  /** At the least fixed point a register is live out of a block exactly when some path needs it. */
  lemma LiveOutIsNeeded(start: Blocks, blocks: Blocks, b: nat, r: Register)
    requires EdgesOk(start) && SameGraph(start, blocks) && b < |blocks|
    requires Closed(start, Ins(blocks), Outs(blocks))
    requires forall ins, outs | Closed(start, ins, outs) :: Below(blocks, ins, outs)
    ensures r in blocks[b].liveOut <==> NeededAfter(start, b, r)
  {
    if path :| Needs(start, path, r) && path[0] == b {
      NeededIsLive(start, path, r, Ins(blocks), Outs(blocks));
    }
    if r in blocks[b].liveOut {
      var universe := Universe(start);
      var ins := seq(|start|, i requires 0 <= i < |start| => NeededIn(start, i, universe));
      var outs := seq(|start|, i requires 0 <= i < |start| => NeededOut(start, i, universe));
      NeededIsClosed(start, ins, outs);
      assert Below(blocks, ins, outs);
    }
  }

  // ----- execution -----

  /** The blocks' sets come from their instructions, and the flow rules hold. */
  ghost predicate Analysed(blocks: Blocks, g: Shape)
  {
    && EdgesOk(blocks)
    && forall b | 0 <= b < |blocks| :: AnalysedBlock(blocks[b], g) && FlowsAt(blocks, b)
  }

  ghost predicate AnalysedBlock(block: BasicBlock, g: Shape)
  {
    && BlockOk(block.instructions, g)
    && UpwardReads(block.instructions).value <= block.liveIn && block.consumed == Consumed(block.instructions).value
  }

  ghost predicate FlowsAt(blocks: Blocks, b: nat)
    requires b < |blocks|
  {
    && blocks[b].liveOut - blocks[b].consumed <= blocks[b].liveIn
    && forall k | 0 <= k < |blocks[b].next| && blocks[b].next[k] < |blocks| ::
         blocks[blocks[b].next[k]].liveIn <= blocks[b].liveOut
  }

  /** A block carries agreement on what is live into it to agreement on what is live out of it. */
  lemma BlockKeepsLiveAgreement(block: BasicBlock, s: MachineState, t: MachineState, g: Shape)
    requires AnalysedBlock(block, g) && block.liveOut - block.consumed <= block.liveIn
    requires Total(s, g) && Total(t, g) && AgreeOn(s, t, block.liveIn)
    ensures AgreeOn(Run(block.instructions, s), Run(block.instructions, t), block.liveOut)
  {
    BlockKeepsAgreement(block.instructions, s, t, g, block.liveIn);
    forall r | r in block.liveOut ensures r in block.liveIn + block.consumed {}
  }

  /** The state after running the blocks of a path one after the other. */
  ghost function RunPath(blocks: Blocks, path: seq<nat>, s: MachineState): MachineState
    requires forall i | 0 <= i < |path| :: path[i] < |blocks|
  {
    if path == [] then s
    else Run(blocks[path[|path| - 1]].instructions, RunPath(blocks, path[..|path| - 1], s))
  }

  ghost predicate AgreeAfter(blocks: Blocks, path: seq<nat>, s: MachineState, t: MachineState, g: Shape)
    requires IsPath(blocks, path)
  {
    var x, y := RunPath(blocks, path, s), RunPath(blocks, path, t);
    Total(x, g) && Total(y, g) && AgreeOn(x, y, blocks[path[|path| - 1]].liveOut)
  }

  /** Along every path of any length, states that agree on memory and on the registers live into its
      first block still agree on memory and on the registers live out of its last one. */
  lemma {:induction false} PathKeepsLiveAgreement(
    blocks: Blocks, path: seq<nat>, s: MachineState, t: MachineState, g: Shape)
    requires Analysed(blocks, g) && IsPath(blocks, path)
    requires Total(s, g) && Total(t, g) && AgreeOn(s, t, blocks[path[0]].liveIn)
    ensures AgreeAfter(blocks, path, s, t, g)
    decreases |path|
  {
    var n := |path| - 1;
    var last := path[n];
    assert AnalysedBlock(blocks[last], g) && FlowsAt(blocks, last);
    if n == 0 {
      assert path[..n] == [];
      StepAgrees(blocks[last], s, t, g);
    } else {
      PathPrefix(blocks, path);
      PathKeepsLiveAgreement(blocks, path[..n], s, t, g);
      EdgeKeepsLive(blocks, path[n - 1], last, g);
      StepAgrees(blocks[last], RunPath(blocks, path[..n], s), RunPath(blocks, path[..n], t), g);
    }
  }

  lemma PathPrefix(blocks: Blocks, path: seq<nat>)
    requires IsPath(blocks, path) && |path| > 1
    ensures IsPath(blocks, path[..|path| - 1]) && path[|path| - 1] in blocks[path[|path| - 2]].next
  {
    var init := path[..|path| - 1];
    forall i | 0 <= i < |init| - 1 ensures init[i + 1] in blocks[init[i]].next {
      assert path[i + 1] in blocks[path[i]].next;
    }
    assert path[|path| - 2 + 1] in blocks[path[|path| - 2]].next;
  }

  /** What is live into a successor is live out of the block. */
  lemma EdgeKeepsLive(blocks: Blocks, from: nat, to: nat, g: Shape)
    requires Analysed(blocks, g) && from < |blocks| && to in blocks[from].next
    ensures to < |blocks| && blocks[to].liveIn <= blocks[from].liveOut
  {
    assert FlowsAt(blocks, from);
    var k :| 0 <= k < |blocks[from].next| && blocks[from].next[k] == to;
  }

  lemma StepAgrees(block: BasicBlock, s: MachineState, t: MachineState, g: Shape)
    requires AnalysedBlock(block, g) && block.liveOut - block.consumed <= block.liveIn
    requires Total(s, g) && Total(t, g) && AgreeOn(s, t, block.liveIn)
    ensures AgreeOn(Run(block.instructions, s), Run(block.instructions, t), block.liveOut)
    ensures Total(Run(block.instructions, s), g) && Total(Run(block.instructions, t), g)
  {
    BlockKeepsLiveAgreement(block, s, t, g);
    RunKeepsTotal(block.instructions, s, g);
    RunKeepsTotal(block.instructions, t, g);
  }
}
