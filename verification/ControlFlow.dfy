/** Cutting a program into basic blocks. */
module ControlFlow {
  import opened Words
  import opened Exprs
  import opened Effects
  import opened Typing
  import opened VariablePool
  import opened RegisterUse
  import opened Liveness

  /** A relative branch adds a signed offset to its own address; a register branch may go anywhere. */
  datatype Branch = NoBranch | PcRelative(offset: nat, width: nat) | ToRegister

  datatype Instruction = Instruction(effects: seq<Effect>, branch: Branch, address: nat, isStatic: bool)

  type Program = seq<Instruction>

  // ----- branch targets -----

  function TargetAddress(i: Instruction): nat
    requires i.branch.PcRelative?
  {
    var p := Pow2(i.branch.width);
    (i.address % p + i.branch.offset % p) % p
  }

  /** The signed distance a relative branch jumps. */
  function Distance(i: Instruction): int
    requires i.branch.PcRelative?
  {
    var w := i.branch.width;
    if w == 0 then 0 else Signed(i.branch.offset % Pow2(w), w)
  }

  /** The target is the address plus the signed distance, modulo the width of the address; it is that sum where
      the sum neither wraps nor goes below zero. */
  lemma TargetIsSum(i: Instruction)
    requires i.branch.PcRelative?
    ensures TargetAddress(i) == (i.address + Distance(i)) % Pow2(i.branch.width)
    ensures 0 <= i.address + Distance(i) < Pow2(i.branch.width) ==> TargetAddress(i) == i.address + Distance(i)
  {
    var p, w := Pow2(i.branch.width), i.branch.width;
    var o := i.branch.offset % p;
    if w > 0 { SignedRange(o, w); }
    assert Distance(i) % p == o;
    AddModulo(i.address, Distance(i), p);
    if 0 <= i.address + Distance(i) < p { ModUnique(i.address + Distance(i), 0, i.address + Distance(i), p); }
  }

  lemma AddModulo(a: int, d: int, p: int)
    requires p > 0
    ensures (a + d) % p == (a % p + d % p) % p
  {
    var s := a % p + d % p;
    var q := a / p + d / p;
    assert a + d == q * p + s;
    ModUnique(a + d, q + s / p, s % p, p);
  }

  /** The first instruction at an address, or the program's size. */
  function IndexByAddress(program: Program, address: nat): (k: nat)
    ensures k <= |program|
    ensures k < |program| ==> program[k].address == address
    ensures forall j | 0 <= j < k :: program[j].address != address
  {
    if program == [] then 0
    else if program[0].address == address then 0
    else 1 + IndexByAddress(program[1..], address)
  }

  function Target(program: Program, i: nat): nat
    requires i < |program| && program[i].branch.PcRelative?
  {
    IndexByAddress(program, TargetAddress(program[i]))
  }

  /** Instruction `k` is the first at the address that the branch at `i` adds up to. */
  ghost predicate BranchesTo(program: Program, i: nat, k: nat)
    requires i < |program|
  {
    && program[i].branch.PcRelative? && k < |program|
    && var sum := (program[i].address + Distance(program[i])) % Pow2(program[i].branch.width);
    && program[k].address == sum && forall j | 0 <= j < k :: program[j].address != sum
  }

  lemma TargetExactly(program: Program, i: nat, k: nat)
    requires i < |program| && program[i].branch.PcRelative?
    ensures k < |program| ==> (k == Target(program, i) <==> BranchesTo(program, i, k))
  {
    TargetIsSum(program[i]);
  }

  /** What the analysis asserts of its input: targets are instructions and written widths are known. */
  ghost predicate ProgramOk(program: Program)
  {
    && (forall i | 0 <= i < |program| && program[i].branch.PcRelative? :: Target(program, i) < |program|)
    && (forall i | 0 <= i < |program| :: InstructionWrites(program[i].effects).Some?)
  }

  // ----- boundaries -----

  /** Instruction `i` puts a boundary at `k`. */
  ghost predicate CutsAt(program: Program, i: nat, k: nat)
    requires i < |program|
  {
    || (program[i].isStatic && (k == i || k == i + 1))
    || (program[i].branch != NoBranch && k == i + 1)
    || BranchesTo(program, i, k)
  }

  ghost predicate IsBoundary(program: Program, k: nat)
  {
    k == 0 || k == |program| || exists i :: 0 <= i < |program| && CutsAt(program, i, k)
  }

  method Boundaries(program: Program) returns (boundaries: set<nat>)
    requires ProgramOk(program)
    ensures forall k: nat :: k in boundaries <==> IsBoundary(program, k)
    ensures forall k | k in boundaries :: k <= |program|
  {
    hide Target;
    boundaries := {0, |program|};
    for i := 0 to |program|
      invariant forall k: nat ::
                  k in boundaries <==> k == 0 || k == |program| || exists j :: 0 <= j < i && CutsAt(program, j, k)
      invariant forall k | k in boundaries :: k <= |program|
    {
      ghost var before := boundaries;
      if program[i].isStatic {
        boundaries := boundaries + {i, i + 1};
      }
      match program[i].branch {
        case NoBranch =>
        case PcRelative(_, _) =>
          if i + 1 != |program| { boundaries := boundaries + {i + 1}; }
          boundaries := boundaries + {Target(program, i)};
        case ToRegister =>
          if i + 1 != |program| { boundaries := boundaries + {i + 1}; }
      }
      if program[i].branch.PcRelative? {
        forall k: nat | k < |program| ensures k == Target(program, i) <==> BranchesTo(program, i, k) {
          TargetExactly(program, i, k);
        }
      }
      assert forall k: nat :: k in boundaries <==> k in before || CutsAt(program, i, k);
    }
  }

  ghost predicate Increasing(s: seq<nat>)
  {
    forall i, j | 0 <= i < j < |s| :: s[i] < s[j]
  }

  method Sorted(boundaries: set<nat>, last: nat) returns (starts: seq<nat>)
    requires forall k | k in boundaries :: k <= last
    ensures Increasing(starts) && forall k: nat :: k in starts <==> k in boundaries
  {
    starts := [];
    for k := 0 to last + 1
      invariant Increasing(starts) && forall i | 0 <= i < |starts| :: starts[i] < k
      invariant forall j: nat :: j in starts <==> j in boundaries && j < k
    {
      if k in boundaries { starts := starts + [k]; }
    }
  }

  // ----- one block -----

  function EffectsOf(program: Program): (r: seq<seq<Effect>>)
    ensures |r| == |program| && forall i | 0 <= i < |program| :: r[i] == program[i].effects
  {
    seq(|program|, i requires 0 <= i < |program| => program[i].effects)
  }

  /** The instruction indices a stretch can continue at: the next instruction and a branch target. */
  ghost function Continuations(program: Program, start: nat, end: nat): seq<nat>
    requires start < end <= |program|
  {
    (if end == |program| then [] else [end])
    + (if program[end - 1].branch.PcRelative? then [Target(program, end - 1)] else [])
  }

  /** A stretch without a branch before its last instruction. */
  ghost predicate BranchesLast(program: Program, start: nat, end: nat)
    requires end <= |program|
  {
    forall i | start <= i < end - 1 :: program[i].branch == NoBranch
  }

  lemma {:induction false} WritesGiveConsumed(instructions: seq<seq<Effect>>)
    requires forall i | i in instructions :: InstructionWrites(i).Some?
    ensures Consumed(instructions).Some? && UpwardReads(instructions).Some?
  {
    if instructions != [] {
      assert instructions[|instructions| - 1] in instructions;
      WritesGiveConsumed(instructions[..|instructions| - 1]);
    }
  }

  /** What a scanned stretch must come to, with continuations still as instruction indices. */
  ghost predicate Scanned(block: BasicBlock, program: Program, start: nat, end: nat, registers: set<Register>)
    requires start < end <= |program|
  {
    && block.start == start
    && block.instructions == EffectsOf(program[start..end])
    && UpwardReads(block.instructions) == Some(block.readRegs) && block.liveIn == block.readRegs
    && Consumed(block.instructions) == Some(block.consumed)
    && block.liveOut == (if program[end - 1].branch.ToRegister? then registers else {})
    && block.next == Continuations(program, start, end)
  }

  /** The sets for the part of a stretch scanned so far. */
  ghost predicate ScannedTo(
    program: Program, start: nat, i: nat, instructions: seq<seq<Effect>>, liveIn: set<Register>,
    consumed: set<Register>)
    requires start <= i <= |program|
  {
    && instructions == EffectsOf(program[start..i])
    && UpwardReads(instructions) == Some(liveIn) && Consumed(instructions) == Some(consumed)
  }

  lemma ScanStep(
    program: Program, start: nat, i: nat, instructions: seq<seq<Effect>>, liveIn: set<Register>,
    consumed: set<Register>)
    requires ProgramOk(program) && start <= i < |program|
             && ScannedTo(program, start, i, instructions, liveIn, consumed)
    ensures var effects := program[i].effects;
      ScannedTo(program, start, i + 1, instructions + [effects],
                liveIn + (InstructionReads(effects) - consumed), consumed + InstructionWrites(effects).value)
  {
    var longer := instructions + [program[i].effects];
    assert longer[..|longer| - 1] == instructions;
    assert longer == EffectsOf(program[start..i + 1]);
  }

  /** What the branch at the end of a stretch, if there is one, adds to its continuations and live-out. */
  method BranchOut(program: Program, i: nat, fall: seq<nat>, registers: set<Register>)
    returns (next: seq<nat>, liveOut: set<Register>)
    requires ProgramOk(program) && i < |program|
    ensures next == fall + if program[i].branch.PcRelative? then [Target(program, i)] else []
    ensures liveOut == if program[i].branch.ToRegister? then registers else {}
  {
    next, liveOut := fall, {};
    match program[i].branch {
      case NoBranch =>
      case PcRelative(_, _) => next := fall + [Target(program, i)];
      case ToRegister => liveOut := registers;
    }
  }

  /** The state of the scan at instruction `i`. */
  ghost predicate ScanAt(block: BasicBlock, program: Program, start: nat, end: nat, i: nat, registers: set<Register>)
    requires start <= i <= end <= |program| && start < end
  {
    && block.start == start && ScannedTo(program, start, i, block.instructions, block.liveIn, block.consumed)
    && block.next == (if i < end then Falls(program, end) else Continuations(program, start, end))
    && block.liveOut == (if i == end && program[end - 1].branch.ToRegister? then registers else {})
  }

  function Falls(program: Program, end: nat): seq<nat> { if end == |program| then [] else [end] }

  method ScanInstruction(block: BasicBlock, program: Program, start: nat, end: nat, i: nat, registers: set<Register>)
    returns (next: BasicBlock)
    requires ProgramOk(program) && start <= i < end <= |program| && BranchesLast(program, start, end)
    requires ScanAt(block, program, start, end, i, registers)
    ensures ScanAt(next, program, start, end, i + 1, registers)
  {
    var edges, liveOut := BranchOut(program, i, block.next, registers);
    var effects := program[i].effects;
    ScanStep(program, start, i, block.instructions, block.liveIn, block.consumed);
    next := BasicBlock(start, {}, block.consumed + InstructionWrites(effects).value,
                       block.liveIn + (InstructionReads(effects) - block.consumed), liveOut, edges,
                       block.instructions + [effects]);
  }

  /** Scans one stretch, assuming reads happen before writes. */
  method ScanBlock(program: Program, start: nat, end: nat, registers: set<Register>) returns (block: BasicBlock)
    requires ProgramOk(program) && start < end <= |program| && BranchesLast(program, start, end)
    ensures Scanned(block, program, start, end, registers)
  {
    block := BasicBlock(start, {}, {}, {}, {}, Falls(program, end), []);
    for i := start to end
      invariant ScanAt(block, program, start, end, i, registers)
    {
      block := ScanInstruction(block, program, start, end, i, registers);
    }
    block := block.(readRegs := block.liveIn);
  }

  // ----- all blocks -----

  /** Between neighbouring boundaries only the last instruction branches. */
  lemma BranchEndsStretch(program: Program, starts: seq<nat>, b: nat)
    requires ProgramOk(program) && Increasing(starts) && b + 1 < |starts|
    requires forall k: nat | k in starts :: k <= |program|
    requires forall i | 0 <= i < |program| && program[i].branch != NoBranch :: i + 1 in starts
    ensures starts[b] < starts[b + 1] <= |program| && BranchesLast(program, starts[b], starts[b + 1])
  {
    assert starts[b + 1] in starts;
    forall i | starts[b] <= i < starts[b + 1] - 1 ensures program[i].branch == NoBranch {
      if program[i].branch != NoBranch {
        var j :| 0 <= j < |starts| && starts[j] == i + 1;
        NoneBetween(starts, b, j);
      }
    }
  }

  lemma NoneBetween(starts: seq<nat>, b: nat, j: nat)
    requires Increasing(starts) && b + 1 < |starts| && j < |starts|
    ensures starts[j] <= starts[b] || starts[j] >= starts[b + 1]
  {
  }

  /** Where the blocks begin: block `b` runs from `starts[b]` to `starts[b + 1]`, and every boundary is a start. */
  ghost predicate Cut(program: Program, starts: seq<nat>)
  {
    && |starts| > 0 && Increasing(starts) && starts[0] == 0 && starts[|starts| - 1] == |program|
    && forall k: nat :: k in starts <==> IsBoundary(program, k)
  }

  lemma CutAtBranches(program: Program, starts: seq<nat>)
    requires ProgramOk(program) && Cut(program, starts)
    ensures forall k: nat | k in starts :: k <= |program|
    ensures forall i | 0 <= i < |program| && program[i].branch != NoBranch :: i + 1 in starts
    ensures forall i | 0 <= i < |program| && program[i].branch.PcRelative? :: Target(program, i) in starts
  {
    forall i | 0 <= i < |program| && program[i].branch != NoBranch ensures i + 1 in starts {
      assert CutsAt(program, i, i + 1) && IsBoundary(program, i + 1);
    }
    forall i | 0 <= i < |program| && program[i].branch.PcRelative? ensures Target(program, i) in starts {
      TargetExactly(program, i, Target(program, i));
      assert CutsAt(program, i, Target(program, i)) && IsBoundary(program, Target(program, i));
    }
  }

  /** The finished blocks: each is its stretch, and its edges lead to the blocks that begin at the
      instructions it can continue at. */
  ghost predicate IsControlFlow(blocks: Blocks, program: Program, starts: seq<nat>, registers: set<Register>)
  {
    && Cut(program, starts) && |blocks| == |starts| - 1 && EdgesOk(blocks)
    && forall b | 0 <= b < |blocks| :: IsBlock(blocks, b, program, starts, registers)
  }

  ghost predicate IsBlock(blocks: Blocks, b: nat, program: Program, starts: seq<nat>, registers: set<Register>)
    requires b < |blocks| && |blocks| == |starts| - 1 && EdgesOk(blocks)
  {
    && starts[b] < starts[b + 1] <= |program| && BranchesLast(program, starts[b], starts[b + 1])
    && |blocks[b].next| == |Continuations(program, starts[b], starts[b + 1])|
    && (forall k | 0 <= k < |blocks[b].next| ::
          starts[blocks[b].next[k]] == Continuations(program, starts[b], starts[b + 1])[k])
    && Scanned(blocks[b].(next := Continuations(program, starts[b], starts[b + 1])), program, starts[b],
               starts[b + 1], registers)
  }

  lemma StartsAreCut(program: Program, boundaries: set<nat>, starts: seq<nat>)
    requires Increasing(starts) && forall k: nat :: k in starts <==> k in boundaries
    requires forall k: nat :: k in boundaries <==> IsBoundary(program, k)
    requires forall k | k in boundaries :: k <= |program|
    ensures Cut(program, starts)
  {
    assert 0 in boundaries && |program| in boundaries;
    var first :| 0 <= first < |starts| && starts[first] == 0;
    var last :| 0 <= last < |starts| && starts[last] == |program|;
    assert starts[|starts| - 1] in boundaries;
  }

  lemma ContinuationBelow(program: Program, start: nat, end: nat, k: nat)
    requires ProgramOk(program) && start < end <= |program| && k < |Continuations(program, start, end)|
    ensures Continuations(program, start, end)[k] < |program|
  {
    hide Target;
    if program[end - 1].branch.PcRelative? { assert Target(program, end - 1) < |program|; }
  }

  /** An instruction a block can continue at begins a block. */
  lemma ContinuationStarts(program: Program, starts: seq<nat>, b: nat, k: nat)
    requires ProgramOk(program) && Cut(program, starts) && b + 1 < |starts| && starts[b] < starts[b + 1] <= |program|
    requires k < |Continuations(program, starts[b], starts[b + 1])|
    ensures exists m :: 0 <= m < |starts| - 1 && starts[m] == Continuations(program, starts[b], starts[b + 1])[k]
  {
    hide Target, IsBoundary, Increasing, ProgramOk;
    var c := Continuations(program, starts[b], starts[b + 1])[k];
    CutAtBranches(program, starts);
    ContinuationBelow(program, starts[b], starts[b + 1], k);
    assert starts[b + 1] in starts;
    assert c in starts && c < |program|;
    var m :| 0 <= m < |starts| && starts[m] == c;
    assert m < |starts| - 1;
  }

  /** Replaces instruction indices by the indices of the blocks that begin there. */
  method ResolveEdges(next: seq<nat>, starts: seq<nat>) returns (edges: seq<nat>)
    requires |starts| > 0 && Increasing(starts)
    requires forall k | 0 <= k < |next| :: exists m :: 0 <= m < |starts| - 1 && starts[m] == next[k]
    ensures |edges| == |next|
    ensures forall k | 0 <= k < |edges| :: edges[k] < |starts| - 1 && starts[edges[k]] == next[k]
  {
    var indexByStart: map<nat, nat> := map m: nat | m < |starts| - 1 :: starts[m] := m;
    edges := [];
    for k := 0 to |next|
      invariant |edges| == k
      invariant forall j | 0 <= j < k :: edges[j] < |starts| - 1 && starts[edges[j]] == next[j]
    {
      edges := edges + [indexByStart[next[k]]];
    }
  }

  /** Block `b` is its stretch, with its continuations resolved to blocks. */
  ghost predicate Resolved(block: BasicBlock, program: Program, starts: seq<nat>, b: nat, registers: set<Register>)
  {
    && b + 1 < |starts| && starts[b] < starts[b + 1] <= |program| && BranchesLast(program, starts[b], starts[b + 1])
    && var continuations := Continuations(program, starts[b], starts[b + 1]);
    && |block.next| == |continuations|
    && (forall k | 0 <= k < |block.next| :: block.next[k] < |starts| - 1 && starts[block.next[k]] == continuations[k])
    && Scanned(block.(next := continuations), program, starts[b], starts[b + 1], registers)
  }

  method BuildBlock(program: Program, registers: set<Register>, starts: seq<nat>, b: nat) returns (block: BasicBlock)
    requires ProgramOk(program) && Cut(program, starts) && b + 1 < |starts|
    ensures Resolved(block, program, starts, b, registers)
  {
    CutAtBranches(program, starts);
    BranchEndsStretch(program, starts, b);
    var scanned := ScanBlock(program, starts[b], starts[b + 1], registers);
    forall k | 0 <= k < |scanned.next| ensures exists m :: 0 <= m < |starts| - 1 && starts[m] == scanned.next[k] {
      ContinuationStarts(program, starts, b, k);
    }
    var edges := ResolveEdges(scanned.next, starts);
    block := scanned.(next := edges);
    assert block.(next := scanned.next) == scanned;
  }

  method FromBoundaries(program: Program, registers: set<Register>, starts: seq<nat>) returns (blocks: Blocks)
    requires ProgramOk(program) && Cut(program, starts)
    ensures IsControlFlow(blocks, program, starts, registers)
  {
    blocks := [];
    for b := 0 to |starts| - 1
      invariant |blocks| == b
      invariant forall j | 0 <= j < b :: Resolved(blocks[j], program, starts, j, registers)
    {
      var block := BuildBlock(program, registers, starts, b);
      blocks := blocks + [block];
    }
    ResolvedIsControlFlow(blocks, program, starts, registers);
  }

  lemma ResolvedIsControlFlow(blocks: Blocks, program: Program, starts: seq<nat>, registers: set<Register>)
    requires Cut(program, starts) && |blocks| == |starts| - 1
    requires forall j | 0 <= j < |blocks| :: Resolved(blocks[j], program, starts, j, registers)
    ensures IsControlFlow(blocks, program, starts, registers)
  {
    forall b, k | 0 <= b < |blocks| && 0 <= k < |blocks[b].next| ensures blocks[b].next[k] < |blocks| {
      assert Resolved(blocks[b], program, starts, b, registers);
    }
    forall b | 0 <= b < |blocks| ensures IsBlock(blocks, b, program, starts, registers) {
      assert Resolved(blocks[b], program, starts, b, registers);
    }
  }

  /** The control-flow graph of a program. */
  method FromProgram(program: Program, registers: set<Register>) returns (blocks: Blocks, ghost starts: seq<nat>)
    requires ProgramOk(program)
    ensures IsControlFlow(blocks, program, starts, registers)
  {
    var boundaries := Boundaries(program);
    var sorted := Sorted(boundaries, |program|);
    StartsAreCut(program, boundaries, sorted);
    blocks := FromBoundaries(program, registers, sorted);
    starts := sorted;
  }

  // ----- what the graph says about control transfers -----

  /** Control can pass from instruction `i` to instruction `j`. */
  ghost predicate Passes(program: Program, i: nat, j: nat)
    requires i < |program|
  {
    (j == i + 1 && j < |program|) || BranchesTo(program, i, j)
  }

  /** Every transfer of control that a program can make statically either stays inside a block, going to
      the next instruction, or follows an edge from a block's end to a block's start. */
  lemma TransfersFollowEdges(
    blocks: Blocks, program: Program, starts: seq<nat>, registers: set<Register>, b: nat, i: nat, j: nat)
    requires ProgramOk(program) && IsControlFlow(blocks, program, starts, registers)
    requires b < |blocks| && starts[b] <= i < starts[b + 1] && i < |program| && Passes(program, i, j)
    ensures i + 1 < starts[b + 1] ==> j == i + 1
    ensures i + 1 == starts[b + 1] ==> exists k :: 0 <= k < |blocks[b].next| && starts[blocks[b].next[k]] == j
  {
    assert IsBlock(blocks, b, program, starts, registers);
    var continuations := Continuations(program, starts[b], starts[b + 1]);
    if program[i].branch.PcRelative? { TargetExactly(program, i, j); }
    if i + 1 == starts[b + 1] {
      assert j in continuations;
      var k :| 0 <= k < |continuations| && continuations[k] == j;
      assert starts[blocks[b].next[k]] == j;
    }
  }

  /** Every edge is such a transfer, from the last instruction of its block. */
  lemma EdgesAreTransfers(
    blocks: Blocks, program: Program, starts: seq<nat>, registers: set<Register>, b: nat, k: nat)
    requires ProgramOk(program) && IsControlFlow(blocks, program, starts, registers)
    requires b < |blocks| && k < |blocks[b].next|
    ensures starts[b] < starts[b + 1] <= |program|
    ensures Passes(program, starts[b + 1] - 1, starts[blocks[b].next[k]])
  {
    hide BranchesTo, Scanned, Cut, IsBoundary;
    assert IsBlock(blocks, b, program, starts, registers);
    ContinuationPasses(program, starts[b], starts[b + 1], k);
  }

  lemma ContinuationPasses(program: Program, start: nat, end: nat, k: nat)
    requires ProgramOk(program) && start < end <= |program| && k < |Continuations(program, start, end)|
    ensures Passes(program, end - 1, Continuations(program, start, end)[k])
  {
    hide BranchesTo, TargetAddress;
    if program[end - 1].branch.PcRelative? { TargetExactly(program, end - 1, Target(program, end - 1)); }
  }

  // ----- the whole analysis -----

  /** The live sets of the blocks are the least ones closed under the flow rules over the given graph. */
  ghost predicate LeastLive(graph: Blocks, blocks: Blocks)
  {
    && EdgesOk(graph) && SameGraph(graph, blocks) && Closed(graph, Ins(blocks), Outs(blocks))
    && forall ins, outs | Closed(graph, ins, outs) :: Below(blocks, ins, outs)
  }

  /** The block starts out with the registers its instructions read before surely overwriting them, and with those
      they surely overwrite. */
  ghost predicate UsesExactly(block: BasicBlock)
  {
    forall r ::
      && (r in block.readRegs <==> exists k: nat :: ExposedAt(block.instructions, k, r))
      && (r in block.consumed <==>
            exists j :: 0 <= j < |block.instructions| && SomeOverwrites(block.instructions[j], r))
  }

  lemma GraphUsesExactly(
    blocks: Blocks, program: Program, starts: seq<nat>, registers: set<Register>, b: nat)
    requires IsControlFlow(blocks, program, starts, registers) && b < |blocks|
    ensures UsesExactly(blocks[b])
  {
    assert IsBlock(blocks, b, program, starts, registers);
    var instructions := blocks[b].instructions;
    forall r
      ensures r in blocks[b].readRegs <==> exists k: nat :: ExposedAt(instructions, k, r)
      ensures r in blocks[b].consumed <==> exists j :: 0 <= j < |instructions| && SomeOverwrites(instructions[j], r)
    {
      UpwardReadsExactly(instructions, r);
      ConsumedExactly(instructions, r);
    }
  }

  /** Builds the graph of the program and computes liveness over it.  The blocks of the graph use exactly the
      registers their instructions use, and those of the result have the least live sets, so a register is live out
      of a block exactly when some path needs it, and agreement on what is live carries along every path. */
  method Analyse(program: Program, registers: set<Register>, ghost g: Shape)
    returns (analysis: ProgramAnalysis, ghost graph: Blocks, ghost starts: seq<nat>)
    requires ProgramOk(program)
    requires forall i | 0 <= i < |program| :: TypedEffects(program[i].effects, g) && FixedEffects(program[i].effects)
    ensures fresh(analysis) && IsControlFlow(graph, program, starts, registers) && LeastLive(graph, analysis.program)
    ensures forall b | 0 <= b < |graph| :: UsesExactly(graph[b])
    ensures forall b, r | 0 <= b < |graph| :: r in analysis.program[b].liveOut <==> NeededAfter(graph, b, r)
    ensures Analysed(analysis.program, g)
  {
    var blocks;
    blocks, starts := FromProgram(program, registers);
    graph := blocks;
    analysis := new ProgramAnalysis(blocks);
    analysis.ComputeLiveliness();
    LeastIsAnalysed(graph, analysis.program, program, starts, registers, g);
    forall b | 0 <= b < |graph| ensures UsesExactly(graph[b]) {
      GraphUsesExactly(graph, program, starts, registers, b);
    }
  }

  lemma LeastIsAnalysed(
    graph: Blocks, blocks: Blocks, program: Program, starts: seq<nat>, registers: set<Register>, g: Shape)
    requires IsControlFlow(graph, program, starts, registers) && LeastLive(graph, blocks)
    requires forall i | 0 <= i < |program| :: TypedEffects(program[i].effects, g) && FixedEffects(program[i].effects)
    ensures Analysed(blocks, g)
    ensures forall b, r | 0 <= b < |graph| :: r in blocks[b].liveOut <==> NeededAfter(graph, b, r)
  {
    forall b | 0 <= b < |blocks| ensures AnalysedBlock(blocks[b], g) && FlowsAt(blocks, b) {
      FinishedBlock(graph, blocks, program, starts, registers, b, g);
    }
    forall b | 0 <= b < |blocks| ensures blocks[b].next == graph[b].next {}
    forall b, r | 0 <= b < |graph| ensures r in blocks[b].liveOut <==> NeededAfter(graph, b, r) {
      LiveOutIsNeeded(graph, blocks, b, r);
    }
  }

  lemma FinishedBlock(
    start: Blocks, blocks: Blocks, program: Program, starts: seq<nat>, registers: set<Register>, b: nat, g: Shape)
    requires IsControlFlow(start, program, starts, registers) && SameGraph(start, blocks) && b < |blocks|
    requires Closed(start, Ins(blocks), Outs(blocks))
    requires forall i | 0 <= i < |program| :: TypedEffects(program[i].effects, g) && FixedEffects(program[i].effects)
    ensures AnalysedBlock(blocks[b], g) && FlowsAt(blocks, b)
  {
    assert IsBlock(start, b, program, starts, registers);
    assert ClosedAt(start, Ins(blocks), Outs(blocks), b);
    var stretch := program[starts[b]..starts[b + 1]];
    forall i | i in EffectsOf(stretch) ensures TypedEffects(i, g) && FixedEffects(i) {
      var k :| 0 <= k < |stretch| && EffectsOf(stretch)[k] == i;
      assert stretch[k] == program[starts[b] + k];
    }
    assert blocks[b].instructions == start[b].instructions && blocks[b].consumed == start[b].consumed;
    forall k | 0 <= k < |blocks[b].next|
      ensures blocks[b].next[k] < |blocks| && blocks[blocks[b].next[k]].liveIn <= blocks[b].liveOut
    {
      assert blocks[b].next == start[b].next;
      assert Ins(blocks)[start[b].next[k]] <= Outs(blocks)[b];
    }
  }
}
