# A verified model of the instruction-set shrinker

The program takes a processor's instruction set and a program for it, and looks for a smaller
instruction set that still runs the program. Three parts of it carry the correctness of the result,
and this project models them in Dafny and proves what they promise.

**Symbolic semantics.** Instructions are lists of guarded writes whose parts are bit-vector
expressions. `Exprs.dfy` holds the expression language and the reference evaluator; a value of width
`w` is a natural number below `2^w`, and every operator is written out on such numbers in `Words.dfy`.
On top of it the project models and relates to the evaluator

- the canonicalizer (`Canonicalizer*.dfy`, `ShiftAdd*.dfy`, `AbsorptionLimits.dfy`) and its normal form
  (`TreeShapes.dfy`, `TermOrder.dfy`, `Canonical*.dfy`, `AssocCommTrees.dfy`),
- resolution of instruction fields and constant folding (`ConstantFolds.dfy`, `Collapse.dfy`,
  `CollapsedForm.dfy`, `InstructionRuns.dfy`),
- byte lowering of memory accesses (`ByteMemory.dfy`),
- the folding of a whole program into one simultaneous update, against the step-by-step machine
  (`Effects.dfy`, `EffectSequence*.dfy`, `EffectListShape.dfy`, `Forwarding.dfy`, `Typing.dfy`),
- the bit circuits and the manager that decides equivalence of expressions with decision diagrams
  (`BddWords.dfy`, `Shifters.dfy`, `Circuits.dfy`, `Read*.dfy`, `VariablePool.dfy`, `Bdd*.dfy`),
- the checker that puts all of these together to decide whether one program can replace another
  (`CanonicalizerTyping.dfy`, `SequenceTyping.dfy`, `PlainEffects.dfy`, `EffectComparison.dfy`,
  `PreparationFuel.dfy`, `PlainPrograms.dfy`, `EquivalenceManager.dfy`).

Their common result is `EquivalenceManagers.ComparePrograms`: the symbolic verdict on two programs speaks of
their step-by-step runs, state by state. For sort keys that tell expressions apart the canonicalizer is a
projection onto a normal form: `CanonicalFixpoint.NormalExactly` says which expressions are canonical,
`CanonicalizeTwice` that they stay as they are, and `AssocCommTrees.TreesAgree` that grouping and order of
terms do not matter.

**Patterns and encodings.** A set of ternary patterns denotes a set of concrete words. `Cubes.dfy` and
`FieldMerge.dfy` cover the sharp product and the merging of patterns, `Encodings.dfy` the expansion of field
values to encodings and the validator it must agree with, `FieldMutation.dfy`, `Candidates.dfy`,
`CandidateGrowth.dfy` and `CandidateBuilder.dfy` the restricted instruction sets the search starts from and
one step of its mutation.

**Liveness.** `ControlFlow.dfy` cuts a program into basic blocks, `Liveness.dfy` computes the backward
fixed point and says what it means, along paths and for execution; `RegisterUse.dfy` relates the
collected register uses to the machine.

Where the code updates objects, lists or sets in place the model is a class or a method with loops,
proved against a specification function; the properties are then proved of that function.

Some behaviours hold only under a condition. For those the project states the exact condition and a
concrete input that fails it:

- an operation is left without terms, and canonicalizing it panics, exactly when every one of its terms is
  absorbed by another (`CanonicalizerPanics.LeftWithoutTermsExactly`, `ConjunctionPanicsExactly`;
  `AbsorptionLimits.MutualAbsorptionPanics`); that never happens inside a plain expression
  (`CanonicalizerPanics.PlainFinishes`), and not to a conjunction of plain terms unless its own terms do it
  (`CanonicalizerPanics.PlainConjunctionEnds`). Expressions with an exclusive or, whose lowering
  makes two conjunctions under one disjunction, or with a disjunction of three or more terms are outside that
  class: for them it is the report of the run that says whether it panicked (`CanonicalizerPanics.PanicsExactly`);
- dropping absorbed terms is right in a state exactly when the kept terms absorb those that no chain of
  absorbers connects to them (`AbsorptionLimits.RemovalExact`), and in every state when no terms absorb
  one another in a circle (`AbsorptionLimits.NoCircleIsAnchored`;
  `AbsorptionLimits.MutualAbsorptionLosesTerms`);
- expanding a constant multiplication into shifts is right exactly when the shift amount has room
  (`ShiftAdd.MulToShiftAddExact`; `ShiftAddLimits.WrapRun`);
- overwriting an older write in the list is right exactly when nothing behind it leaves another value
  at the same place (`EffectSequenceTheorems.MergeExact`;
  `EffectSequenceLimits.AliasedStoresLoseTheirOrder`);
- an instruction for which any form will do ends up with an encoding exactly when the form that is
  picked for repair, or one already in use, has one (`CandidateBuilder.ISACandidate.RepairSome`;
  `CandidateBuilder.UnsatisfiableFirstForm`);
- the encodings and the validator agree on an equality clause exactly when the value is concrete or does not
  fit the field (`Encodings.FieldEqExact`; `Encodings.EncodeFreeEquality`).

For programs of unconditional writes of plain expressions to registers named outright no such condition is
left: `PlainPrograms.FixedPlainProgramsAreExact` says from the programs alone when the comparison is
prepared, and that its verdict is then about the runs.

`dafny verify dfyconfig.toml` checks the project.

## Model

| member | source | states |
|---|---|---|
| `Words.FromToBits` | src/semantic_matching.rs:2656-2671 | Reading a word bit by bit, least significant first, and putting the bits together again returns the word. |
| `Words.BitExtensionality` | src/semantic_matching.rs:1146-1161 | Two values of one width with the same bits are the same value. |
| `Words.SignedRange` | src/semantic_matching.rs:1517-1528 | The signed reading of a word of width `w` lies between `-2^(w-1)` and `2^(w-1) - 1` and is congruent to the word modulo `2^w`. |
| `Words.ShiftDownBit` | src/instruction_semantics.rs:430-438 | Dividing by `2^k` moves every bit down by `k` places. |
| `Words.TruncateBit` | src/instruction_semantics.rs:343-346 | Masking to a width keeps exactly the bits below it. |
| `WordLaws.SubFlagsAsAddFlags` | src/instruction_semantics.rs:837-848 | Carry and overflow of a subtraction with borrow are carry and overflow of the addition of complements, for every width and borrow. |
| `Exprs.EvalHasStaticWidth` | src/instruction_semantics.rs:691-756 | An expression that has a value has a static width, and it is the width of the value. |
| `CanonicalizerTheorems.CanonicalizePreservesMeaning` | src/instruction_semantics.rs:1496-1682 | In every state where the evaluator gives an expression a value, a finished canonicalization has that same value, provided the reported instances of absorption and of shift-amount growth are valid in the state; all operators, all widths, any sort order. `PlainFinishes` gives a class of expressions for which both a result and the conditions are certain. |
| `CanonicalizerTheorems.SubMeaning` | src/instruction_semantics.rs:1511-1540 | `x - y` and `(x + !y) + 1` have the same value at every width. |
| `CanonicalizerForm.CanonicalizeForm` | src/instruction_semantics.rs:1069-1107 | Whatever the comparison of sort keys, canonical output contains no subtraction, disjunction, exclusive or, select or subtraction flag, its constants fit their widths, and no product keeps a constant factor. |
| `CanonicalNormal.CanonicalizeNormal` | src/instruction_semantics.rs:1496-1682 | Every finished canonicalization is in normal form, in all its parts: conjunctions, sums and products are left-associated over terms in the order of their keys, with at most one constant, at the end, that is neither identity nor annihilator; the terms of a conjunction are pairwise different, and no two are complements where a width is known; comparisons have different operands, in order for equality; no shift of or by a zero constant, no double complement, no slice of everything, no extension that adds nothing or repeats one of its kind, no neighbouring constant chunks. |
| `CanonicalFixpoint.NormalIsFixed` | src/instruction_semantics.rs:1496-1682 | An expression in normal form is its own canonical form. |
| `CanonicalFixpoint.CanonicalizeTwice` | src/instruction_semantics.rs:1496-1682 | Canonicalizing the result of a canonicalization gives that very expression again. |
| `CanonicalFixpoint.NormalExactly` | src/instruction_semantics.rs:1496-1682 | An expression is the canonical form of something if and only if it is in normal form. |
| `AssocCommTrees.TreesAgree` | src/instruction_semantics.rs:1172-1299 | Two expressions with the same terms under an associative and commutative operator, grouped and ordered in whatever way, have the same canonical form whenever both have one, absorption included. |
| `AssocCommTrees.OperandsCommute` | src/instruction_semantics.rs:1172-1299 | Exchanging the operands of such an operator does not change the canonical form. |
| `AssocCommTrees.RemovalPermuted` | src/instruction_semantics.rs:1109-1170 | The terms that the absorption pass leaves do not depend on the order of the terms. |
| `TermOrder.CombinePermuted` | src/instruction_semantics.rs:1172-1299 | Permutations of one list of terms combine to the same outcome. |
| `TermOrder.FoldPermuted` | src/instruction_semantics.rs:1172-1206 | The folded constant, or the panic over different widths, does not depend on the order of the terms. |
| `TermOrder.DedupDistinct` | src/instruction_semantics.rs:1208-1213 | Of sorted terms every one is left exactly once. |
| `TermOrder.CancelCounts` | src/instruction_semantics.rs:1214-1247 | Of equal terms of an exclusive or one is left if their number is odd; an even number leaves none, or two if the width is not known. |
| `CanonicalizerTermination.CanonicalizeTerminates` | src/instruction_semantics.rs:1496-1682 | On every expression without multiplication, canonicalization ends within the expression's measure although it re-canonicalizes terms it has built, and its output never has a larger measure. |
| `CanonicalizerTermination.LowerXorShrinks` | src/instruction_semantics.rs:1072-1076 | Lowering an exclusive or, which duplicates both operands, still yields a strictly smaller measure. |
| `CanonicalizerTermination.LowerSelectShrinks` | src/instruction_semantics.rs:1077-1104 | Lowering a select, which duplicates its condition, yields a strictly smaller measure. |
| `CanonicalizerTermination.SortWeight` | src/instruction_semantics.rs:1208 | The measure of a list of terms does not depend on their order. |
| `CanonicalizerTermination.CancelWeight` | src/instruction_semantics.rs:1213-1247 | Cancelling equal terms of an exclusive or never makes the list heavier. |
| `CanonicalizerTermination.RemoveAbsorbedBounded` | src/instruction_semantics.rs:1129-1163 | The absorption pass never exhausts its fuel and never makes the term list heavier. |
| `CanonicalizerFuel.FuelIsIrrelevant` | src/instruction_semantics.rs:1496-1682 | A run that ends gives the same outcome and the same obligations with any larger amount of fuel, so the bound is not part of the meaning. |
| `CanonicalizerPanics.LeftWithoutTermsExactly` | src/instruction_semantics.rs:1172-1299 | Combining a conjunction or disjunction whose absorbed terms could be removed ends in the panic of an operation without terms if and only if every one of its flattened terms is a tree of the opposite operator with a leaf of the canonical form of another term. |
| `CanonicalizerPanics.ConjunctionPanicsExactly` | src/instruction_semantics.rs:1534 | Canonicalizing a conjunction, once the absorption pass over its terms has finished, panics for want of a term if and only if every flattened term is absorbed by another one. |
| `CanonicalizerPanics.PlainConjunctionEnds` | src/instruction_semantics.rs:1172-1299 | A well-formed conjunction of plain terms, with any number of disjunctions among them, is canonicalized to a result unless every term is absorbed by another one, and then panics; nothing is assumed of the run. |
| `CanonicalizerPanics.PlainFinishes` | src/instruction_semantics.rs:1496-1682 | A well-formed plain expression is always canonicalized to a result, and the result has the value of the expression in every state where it has one, with no condition on the run. Plain means: no exclusive or and no multiplication, disjunctions of two terms, and no two terms of a conjunction or disjunction that are both trees of the opposite operator; selects, flags, subtractions and reads are unrestricted. |
| `CanonicalizerPanics.CanonicalizeAgain` | src/instruction_semantics.rs:1496-1682 | Canonicalizing the canonical form of a well-formed expression without multiplication never fails, and keeps type and value, whatever the comparison of sort keys. |
| `AbsorptionLimits.TableExact` | src/instruction_semantics.rs:1139-1155 | An entry of the table the pass computes names an absorber if and only if some other term absorbs the term, that is, has the canonical form of one of the leaves of its tree of the opposite operator. |
| `AbsorptionLimits.NothingLeftExactly` | src/instruction_semantics.rs:1129-1163 | When the pass finishes, it leaves no term if and only if every term is absorbed by another one. |
| `AbsorptionLimits.RetainsNothing` | src/instruction_semantics.rs:1145-1162 | The absorption pass keeps no term if and only if every term has an absorber. |
| `CanonicalizerPanics.CombineHasTerms` | src/instruction_semantics.rs:1172-1299 | Combining at least one term, however constants fold and equal terms cancel, never ends in the panic of an operation without terms. |
| `CanonicalizerMeaning.AssembleMeaning` | src/instruction_semantics.rs:1269-1299 | Folded constant and remaining terms, assembled with identities and annihilators removed, have the value of the operator applied to all of them. |
| `CanonicalizerSound.RetainExact` | src/instruction_semantics.rs:1129-1163 | For terms and a table that names an absorber for every dropped term, dropping them keeps the value of the operation in a state if and only if the kept terms absorb every dropped one whose chain of absorbers reaches no kept term. |
| `CanonicalizerSound.TableSound` | src/instruction_semantics.rs:1139-1155 | The table the pass computes names, for every term it drops, a term whose value absorbs the value of the dropped one. |
| `CanonicalizerSound.RetainMeaning` | src/instruction_semantics.rs:1129-1163 | Dropping terms along an anchored table of absorbers keeps the value of the operation. |
| `CanonicalizerSound.MergeChunksMeaning` | src/instruction_semantics.rs:767-798 | Merging adjacent constant chunks of a concatenation keeps its value. |
| `CanonicalizerSound.ContainsSound` | src/instruction_semantics.rs:1110-1122 | If the search finds a term in a tree of the opposite operator, the term's value is one of the values the tree combines, so it absorbs or is absorbed. |
| `ShiftAdd.MulToShiftAddExact` | src/instruction_semantics.rs:1408-1433 | The shift-and-add expansion of `variable * factor` has the value of the product if and only if the part of the factor that overshoots the room left for the shift amount contributes nothing. |
| `ShiftAdd.SmallAmountLeavesRoom` | src/instruction_semantics.rs:1427-1431 | Shift amounts that stay below `2^w` for every bit of the factor always leave that room. |
| `ShiftAddLimits.WrapRun` | src/instruction_semantics.rs:1408-1433 | Canonicalizing `(x << 3) * 2` at width two finishes, with any sort order, in an expression of value one in a state where `x` is one and the product is zero, and reports the expansion. |
| `AbsorptionLimits.AnchoringExact` | src/instruction_semantics.rs:1139-1162 | For a table of absorbers, dropping the absorbed terms keeps the value for every fitting list of terms if and only if every chain of absorbers ends at a kept term. |
| `AbsorptionLimits.RemovalExact` | src/instruction_semantics.rs:1129-1163 | For a list of terms and the table the pass itself computes for it, the pass keeps the value in a state if and only if the absorption it reports holds there. |
| `AbsorptionLimits.AnchoredIffNoCircle` | src/instruction_semantics.rs:1145-1162 | Every chain of a table of absorbers ends at a kept term if and only if no terms absorb one another in a circle. |
| `AbsorptionLimits.NoCircleIsAnchored` | src/instruction_semantics.rs:1110-1155 | If no terms of the list absorb one another in a circle, where a term is absorbed by another whose canonical form is a leaf of its tree, every chain of the computed table ends at a kept term. |
| `AbsorptionLimits.OneTreeIsAnchored` | src/instruction_semantics.rs:1139-1155 | A list with at most one tree of the opposite operator is anchored. |
| `AbsorptionLimits.AnchoredHolds` | src/instruction_semantics.rs:1129-1163 | An anchored absorption meets its obligation in every state. |
| `AbsorptionLimits.MutualAbsorptionLosesTerms` | src/instruction_semantics.rs:1145-1155 | `(a | 0) & (a | 0) & b` canonicalizes to `b`, and the run reports that the first two terms, which absorb each other, were dropped. |
| `AbsorptionLimits.MutualAbsorptionPanics` | src/instruction_semantics.rs:1269-1273 | `(a | 0) & (a | 0)` has a value in every state with register `a`, yet canonicalizing it ends in the panic of an operation without terms, the only panic a well-formed expression can meet. |
| `CanonicalizerLoops.FlattenInto` | src/instruction_semantics.rs:516-528 | Flattening pushes the leaves of the operator tree onto the list from left to right. |
| `CanonicalizerLoops.CanonicalizeAssocCommInPlace` | src/instruction_semantics.rs:1172-1299 | The pass with its list updates and loops returns what the specification function returns, about which the theorems on value, order, repeats and permutations are proved. |
| `CanonicalizerLoops.CancelRunsInPlace` | src/instruction_semantics.rs:1213-1247 | The counting loop keeps one term of each odd run, drops even runs of known width and remembers the last such width. |
| `CanonicalizerLoops.RemoveAbsorbedInPlace` | src/instruction_semantics.rs:1129-1163 | The marking loops and the retain pass agree with the specified table of absorbers, panics and obligations included. |
| `CanonicalizerLoops.FindComplementaryPair` | src/instruction_semantics.rs:1250-1256 | The search answers yes exactly when some term is the complement of another. |
| `CanonicalizerLoops.MergeChunksInPlace` | src/instruction_semantics.rs:767-798 | The loop that widens the last constant chunk in place merges every run of constant chunks, and fails on a zero width. |
| `Effects.Machine.constructor` | src/semantic_matching.rs:3322-3340 | A machine starts in the given state. |
| `Effects.Machine.Step` | src/semantic_matching.rs:3342-3405 | One instruction reads everything in the state before it and then performs all enabled writes, later ones winning. |
| `Effects.Machine.Execute` | src/semantic_matching.rs:3342-3405 | Executing a program is the composition of the simultaneous updates of its instructions, in order. |
| `Effects.Machine.InsertWrites` | src/semantic_matching.rs:3395-3400 | Collected writes are inserted in order, so the last write to a place wins. |
| `Effects.CollectMemoryWrites` | src/semantic_matching.rs:3449-3466 | A store of one byte keeps its address; a wider one is split into one write per byte, in order. |
| `ByteMemory.StoreThenRead` | src/semantic_matching.rs:1830-1851 | A value of any byte-multiple width reads back unchanged after a store, also when the byte addresses wrap, as long as its bytes fit the address space. |
| `ByteMemory.StoreFrame` | src/semantic_matching.rs:1830-1851 | A store leaves every byte outside its range as it was. |
| `ByteMemory.LowerReadsMeaning` | src/semantic_matching.rs:3709-3735 | Replacing wide reads by concatenated byte reads keeps the value of every expression that has one. |
| `ByteMemory.LoweredReadsAreBytes` | src/semantic_matching.rs:3709-3735 | A lowered expression reads memory one byte at a time only. |
| `ByteMemory.WideReadMeaning` | src/semantic_matching.rs:1810-1828 | A wide little-endian read and the concatenation of its bytes, most significant first, have the same value. |
| `ByteMemory.ByteAddressesDiffer` | src/semantic_matching.rs:3729-3735 | Distinct byte indices within the address space have distinct wrapped addresses. |
| `Typing.TypedHasValue` | src/semantic_matching.rs:1538-1808 | A well-formed expression has a value of its type in every total state. |
| `Typing.UpdateKeepsTotal` | src/semantic_matching.rs:3342-3405 | Applying well-formed effects leaves every register and byte with a value of its width. |
| `Typing.RunKeepsTotal` | src/semantic_matching.rs:3342-3405 | Running a well-formed program keeps the state total. |
| `EffectSequence.MergeInPlace` | src/semantic_matching.rs:3268-3279 | The scan that overwrites the first entry for the same place, or appends, computes the specified merge. |
| `EffectSequence.MergeAllInPlace` | src/semantic_matching.rs:3262-3284 | Merging the effects of one instruction one after the other computes the specified fold. |
| `EffectSequence.SequenceInPlace` | src/semantic_matching.rs:3239-3303 | The loop over the program, which updates the list in place, computes the specified fold or panics where it does. |
| `Forwarding.ForwardRegisterMeaning` | src/instruction_semantics.rs:1331-1350 | A register read replaced by the chain of earlier register writes has the value the register holds after them. |
| `Forwarding.ForwardMemoryMeaning` | src/instruction_semantics.rs:1351-1379 | A byte read replaced by the chain of earlier byte stores has the value the byte holds after them, guards and symbolic aliases included. |
| `Forwarding.SubstituteMeaning` | src/instruction_semantics.rs:1331-1379 | A substituted expression has in the start state the value the original has in the state the earlier effects leave. |
| `Forwarding.LowerReadsKeepsType` | src/semantic_matching.rs:3709-3735 | Byte lowering of a well-formed expression never panics and keeps its type. |
| `EffectSequenceTheorems.LowerInstructionMeaning` | src/semantic_matching.rs:3468-3618 | The effects of an instruction, lowered against the list so far, make in the start state the writes the instruction makes after the list. |
| `EffectSequenceTheorems.SplitStoreMeaning` | src/semantic_matching.rs:3537-3571 | The byte stores a wide store is split into write exactly its bytes. |
| `EffectSequenceTheorems.CombineMeaning` | src/semantic_matching.rs:3743-3885 | Two writes combine exactly when their destinations are syntactically equal, without a panic, into one write that leaves what both leave. |
| `EffectSequenceTheorems.MergeExact` | src/semantic_matching.rs:3268-3279 | Overwriting the older entry in place equals appending the write if and only if no entry behind the overwritten one leaves a different value at the same place. |
| `EffectSequenceTheorems.UpdateByPlaces` | src/semantic_matching.rs:3342-3405 | Two lists update a state alike if and only if they leave the same value at every register and byte. |
| `EffectSequenceTheorems.SequenceIsRun` | src/semantic_matching.rs:3239-3303 | For every program and total start state in which no merge is disturbed, guards taken into account, one simultaneous update by the final list leaves the registers and memory that running the program instruction by instruction leaves. |
| `EffectSequenceTheorems.SeparatedIsRun` | src/semantic_matching.rs:3239-3303 | If the entries of the final list write distinct places in the start state, no merge of the fold was disturbed, and the list and the run agree. |
| `EffectListShape.SequenceIsDistinct` | src/semantic_matching.rs:3239-3303 | The folded list has one entry for each destination it names, and none with a guard that is constantly false. |
| `EffectListShape.MergeWrites` | src/semantic_matching.rs:3743-3885 | Merging keeps the destinations of the list and adds that of the new write, unless the write is switched off for good. |
| `EffectSequenceLimits.FixedRegistersFold` | src/semantic_matching.rs:3239-3303 | A program that only writes registers it names outright needs no assumption on aliasing: its list and its run agree from every total state. |
| `EffectSequenceLimits.AliasedStoresLoseTheirOrder` | src/semantic_matching.rs:3268-3279 | For three stores through registers 0, 1 and 0, the list and the run agree if and only if the registers differ or the last two stored bytes are equal. |
| `Collapse.CollapseMeaning` | src/instruction_semantics.rs:1692-1955 | Whenever an expression read in the instruction's environment has a value, collapsing does not panic and the collapsed expression has that value, for every operator and width. |
| `CollapsedForm.CollapseIsCollapsed` | src/instruction_semantics.rs:1692-1955 | Whatever collapsing returns is resolved and folded throughout: no instruction field or derived value is left, no operation has only constant operands, trees of an associative and commutative operator keep at most one constant, one that has an effect, and concatenations no neighbouring ones. |
| `CollapsedForm.ClosedIsConstant` | src/instruction_semantics.rs:1692-1955 | An expression over constants, immediate fields and derived values alone collapses to a constant wherever it has a value in the environment of the instruction. |
| `Collapse.AcyclicResolves` | src/instruction_semantics.rs:1692-1955 | When no derived value refers back to itself, resolution ends within the rank of the expression and no larger bound changes its result. |
| `ConstantFolds.SignFillMeaning` | src/instruction_semantics.rs:404-419 | Filling the high bits with ones is sign extension, for every pair of widths. |
| `ConstantFolds.FoldBinIsBinVal` | src/instruction_semantics.rs:421-458 | Shifts, rotations, subtraction and signed comparison of constants, computed on wider host integers with masked sign bits and spilled high bits, give the values the evaluator gives, at every width. |
| `ConstantFolds.FoldFlagIsFlagVal` | src/instruction_semantics.rs:460-500 | Carry and overflow of constants, computed by two wrapping host steps and by exclusive-or of sign bits, are the flags the evaluator computes, at every width including that of the host. |
| `Collapse.CollapseFlagMeaning` | src/instruction_semantics.rs:850-895 | Folding a flag over constants by its own host arithmetic gives the value the evaluator gives the flag expression. |
| `Collapse.SplitConstants` | src/instruction_semantics.rs:575-612 | One walk folds the constants and keeps the other terms in their order, stopping at operands of different widths. |
| `Collapse.CollapseTermsInPlace` | src/instruction_semantics.rs:575-629 | The loop that folds constants and rebuilds the operation computes the specified result. |
| `InstructionRuns.CollapsedRun` | src/semantic_matching.rs:3326-3405 | Resolving fields and derived values of all instructions before running them does not panic, and the run is the one that reads every effect in the environment of its instruction. |
| `InstructionRuns.DecodedSequenceIsRun` | src/semantic_matching.rs:3239-3303 | The list the resolved program folds into, applied at once, leaves what running the decoded instructions in their environments leaves. |
| `InstructionRuns.LoweredRun` | src/semantic_matching.rs:3305-3311 | Lowering the effects of every instruction on their own does not change what a program does. |
| `Shifters.BarrelShifter` | src/semantic_matching.rs:2919-2943 | One stage per amount bit shifts every bit by the amount's value, saturating past the width, for logical and arithmetic shifts. |
| `Shifters.BarrelRotator` | src/semantic_matching.rs:2982-3002 | Rotating by `2^n mod w` for each set amount bit rotates by the amount, for widths that are no power of two as well. |
| `Shifters.RotateShiftForBit` | src/semantic_matching.rs:2945-2954 | Repeated doubling modulo the width gives `2^n mod w`. |
| `Shifters.ShiftedNumber` | src/semantic_matching.rs:1595-1645 | Shifted and rotated bits read as the number the evaluator computes, negative arithmetic shifts included. |
| `Circuits.FullAdder` | src/semantic_matching.rs:2752-2767 | Sum and carry of three bits add up to the number of set bits. |
| `Circuits.Adder` | src/semantic_matching.rs:2769-2790 | Sum bits and final carry together are the exact sum of the operands and the carry in. |
| `Circuits.LowerAdd` | src/semantic_matching.rs:2792-2800 | The result reads as the sum modulo `2^w`. |
| `Circuits.LowerMul` | src/semantic_matching.rs:2883-2902 | The sum of shifted multiplicands reads as the product modulo `2^w`. |
| `Circuits.LowerCountOnes` | src/semantic_matching.rs:3124-3140 | The counter, no wider than the word, reads as the number of set bits. |
| `Circuits.LowerAnd` | src/semantic_matching.rs:2904-2907 | The result reads as the bitwise conjunction. |
| `Circuits.LowerNot` | src/semantic_matching.rs:2909-2917 | The result reads as the complement within the width. |
| `Circuits.LowerEqual` | src/semantic_matching.rs:3004-3014 | One bit that is set exactly when the numbers are equal. |
| `Circuits.LowerUnsignedLess` | src/semantic_matching.rs:3016-3045 | One bit that is set exactly when the first number is smaller. |
| `Circuits.LowerSignedLess` | src/semantic_matching.rs:3047-3083 | One bit that is set exactly when the first signed reading is smaller. |
| `Circuits.LowerCarryOut` | src/semantic_matching.rs:3142-3155 | One bit that is set exactly when the sum with carry exceeds the largest word. |
| `Circuits.LowerOverflow` | src/semantic_matching.rs:3157-3180 | One bit that is set exactly when the signed sum with carry overflows. |
| `Circuits.LowerConstant` | src/semantic_matching.rs:2656-2671 | The word reads as the constant reduced to the width. |
| `Circuits.LowerSlice` | src/semantic_matching.rs:3085-3090 | The selected bits read as the slice of the number. |
| `Circuits.LowerZeroExtend` | src/semantic_matching.rs:3102-3110 | The wider word reads as the same number. |
| `Circuits.LowerSignExtend` | src/semantic_matching.rs:3112-3122 | The wider word reads as the sign extension. |
| `Circuits.SelectEntry` | src/semantic_matching.rs:2721-2750 | The tree of multiplexers selects the table entry whose index the selector reads as. |
| `ReadViews.ViewOfState` | src/semantic_matching.rs:1538-1808 | With every memory read answered by its value in a state, an expression has its value in that state. |
| `ReadViews.StateForView` | src/semantic_matching.rs:2411-2453 | In a state that holds every read's value at the address the read has, an expression has its value under the free reads, however deep reads are nested in addresses. |
| `ReadViews.CanonicalIsLowerable` | src/semantic_matching.rs:2499-2654 | Canonical well-formed expressions over byte reads contain only operators that lowering accepts. |
| `ReadViews.ExtendsKeepsValue` | src/semantic_matching.rs:1810-1828 | Adding registers or bytes to a state changes no value an expression over byte reads already had. |
| `VariablePool.NewVariable` | src/semantic_matching.rs:1876-1897 | A new variable takes a free position of the pool or a new one, and no other variable moves. |
| `ReadCollection.CollectMeaning` | src/semantic_matching.rs:2095-2160 | Walking an expression enters each of its reads once, at least as deep as it occurs, and reads nested in an address deeper than the read that uses them. |
| `ReadAllocation.AllocateReads` | src/semantic_matching.rs:2141-2206 | Every bit of every read gets a variable of its own, deeper reads get smaller identifiers, and nothing else in the pool moves. |
| `ReadAllocation.FinishedIsOk` | src/semantic_matching.rs:2141-2206 | The finished table lists exactly the expression's reads, with distinct identifiers and nested reads first. |
| `BddLowering.LowerExpression` | src/semantic_matching.rs:2499-2654 | Under every assignment the bits built for a canonical expression read as its value. |
| `BddLowering.LowerRegisterRead` | src/semantic_matching.rs:2693-2750 | The bits read as the register that the selector names. |
| `BddEquivalence.StateAgrees` | src/semantic_matching.rs:2295-2349 | The assignment that a machine state stands for meets the memory constraint. |
| `BddEquivalence.StateValue` | src/semantic_matching.rs:2411-2453 | In the state read back from an assignment that meets the constraint, each side has the number its word reads as. |
| `BddEquivalence.NoAssignmentNoState` | src/semantic_matching.rs:2459-2491 | If no assignment meets the constraint and tells the two words apart, no machine state tells the expressions apart. |
| `BddEquivalence.SeparatedIsInequivalent` | src/semantic_matching.rs:2459-2491 | A partial state that separates the expressions extends to a total one that does. |
| `BddSides.RegisterVariables` | src/semantic_matching.rs:2004-2040 | Every register bit gets one variable, interleaved bit by bit, and nothing else does. |
| `BddSides.MemoryConstraint` | src/semantic_matching.rs:2295-2349 | The conjunction over pairs of reads holds under an assignment exactly when reads of equal addresses have equal values. |
| `BddSides.WordDifference` | src/semantic_matching.rs:2351-2366 | The difference function holds exactly under the assignments where the words read as different numbers. |
| `BddSides.LowerAddresses` | src/semantic_matching.rs:2260-2293 | After lowering every address word denotes its address expression and no value word changes. |
| `BddSides.SideKept` | src/semantic_matching.rs:2216-2258 | What is known about one side survives any change to the pool that leaves its variables in place. |
| `BddCounterexample.ReadRegisters` | src/semantic_matching.rs:2412-2429 | Bit by bit, the registers of the counterexample are those the assignment gives. |
| `BddCounterexample.ReadMemories` | src/semantic_matching.rs:2431-2452 | Writing every read's value at its address gives a memory that holds all of them, since equal addresses have equal values. |
| `BddManagers.BddManager.constructor` | src/semantic_matching.rs:1982-2067 | A new manager is in a valid state for the two expressions: its variables, read tables and registers fit together. |
| `BddManagers.BddManager.Compare` | src/semantic_matching.rs:2459-2491 | The verdict is equal if and only if no total machine state gives the expressions different values; the state returned otherwise gives both a value and different ones, nested reads included. |
| `BddManagers.BddManager.CounterexampleState` | src/semantic_matching.rs:2411-2453 | The state built from a satisfying cube holds the registers and the bytes the cube stands for. |
| `BddManagers.BddManager.ReplaceRightExpr` | src/semantic_matching.rs:2216-2258 | Replacing the right expression keeps the manager valid and leaves the left side, lowered parts included, untouched. |
| `BddManagers.BddManager.RightVariableIsUnused` | src/semantic_matching.rs:1945-1980 | After the right side is cleared no live function depends on a right variable, so the release assertion never fails. |
| `BddManagers.BddManager.ReleaseVariable` | src/semantic_matching.rs:1945-1980 | Releasing frees exactly one position of the pool. |
| `BddManagers.BddManager.ReleaseRightVariables` | src/semantic_matching.rs:2216-2258 | All variables of the right side are released, and the left side survives. |
| `BddManagers.BddManager.LiveReadsAreApart` | src/semantic_matching.rs:2078-2207 | Bits of different live reads never share a variable, and nested reads have smaller identifiers than the reads that use them. |
| `BddManagers.CompareIsHistoryIndependent` | src/semantic_matching.rs:2216-2258 | Whatever a manager compared and replaced before, its next verdict is that of a fresh manager on the same pair. |
| `Cubes.CubeSubtract` | src/bit.rs:252-285 | The sharp product ends without its panic and returns pairwise disjoint cubes that denote exactly the words of the first pattern outside the second, as many as there are bits that the second fixes and the first leaves free, or the first pattern itself if they have no word in common. |
| `Cubes.CanMergeWith` | src/bit.rs:178-198 | True exactly when the patterns differ in one bit, low in one and high in the other. |
| `Cubes.MergeFrees` | src/bit.rs:211-231 | A merge frees the one bit in which the two patterns differ. |
| `Cubes.MatchesPrefix` | src/bit.rs:135-160 | True exactly when the prefix is no longer than the pattern and its bits are covered. |
| `Cubes.CoversByWords` | src/bit.rs:200-209 | Covering is inclusion of the sets of concrete words. |
| `Cubes.DisjointByWords` | src/bit.rs:288-294 | Disjoint patterns are those without a common concrete word. |
| `FieldMerge.MergePatterns` | src/isa_specification.rs:697-748 | Merging ends; it keeps the denoted words, ends in an antichain without a mergeable pair, and returns the one set that the rounds lead to, whatever the order of iteration; from concrete patterns that is exactly the prime implicants. |
| `FieldMerge.MergesToOne` | src/isa_specification.rs:697-748 | From any patterns merging has only one possible result, whatever the order of iteration. |
| `FieldMerge.MergeRound` | src/isa_specification.rs:716-742 | One round over the patterns in any order combines every mergeable pair, keeps the unused patterns and drops subsumed ones. |
| `FieldMerge.RoundChanges` | src/isa_specification.rs:697-748 | A round changes an antichain exactly when two of its patterns merge, and then the number of covered cubes grows strictly. |
| `FieldMerge.RoundKeeps` | src/isa_specification.rs:716-742 | A round never loses a covered cube and yields an antichain. |
| `FieldMerge.NextStage` | src/isa_specification.rs:716-742 | After round `k` the set holds all implicants with `k` free bits and all primes with fewer. |
| `FieldMerge.LastStage` | src/isa_specification.rs:743-748 | When a round repeats the set, it consists of exactly the prime implicants. |
| `Encodings.FieldsToEncodings` | src/isa_specification.rs:401-533 | A concrete word is covered by one of the encodings exactly when it matches the form's constant fields and its decoded fields satisfy the predicate and the allowed uses; and the encodings are exactly the concatenations of one choice for each field, a choice being one of the patterns that the predicate leaves of a pattern of the field. |
| `Encodings.UnconstrainedChoices` | src/isa_specification.rs:397-408 | Without a predicate the choices for a field are its patterns: free bits are not expanded. |
| `Encodings.Encoder.Expand` | src/isa_specification.rs:411-520 | The recursive walk appends exactly the encodings that continue the one under construction with one choice for each later field, covering exactly the words that continue it, and restores it. |
| `Encodings.ApplyConstraints` | src/isa_specification.rs:541-663 | Constraining the patterns of a field keeps exactly the values that meet what the predicate asks of that field, through nested conjunctions; each clause fixes no more than it asks for, and only the choices of a membership clause are merged. |
| `Encodings.ConstrainPattern` | src/isa_specification.rs:549-565 | The intersection of two patterns, or nothing if and only if they have no word in common or differ in width. |
| `Encodings.CheckIsLocal` | src/isa_specification.rs:881-895 | The predicate holds of a decoded word exactly when every field meets the predicate's demands on that field. |
| `Encodings.InstructionValid` | src/isa_specification.rs:244-287 | The validator accepts exactly the decoded instructions whose predicate holds and whose named fields are all allowed. |
| `Encodings.FieldEqNeedsConcrete` | src/isa_specification.rs:549-565 | Comparing a field for equality and intersecting with the value agree on every word if and only if the value is concrete. |
| `Encodings.FieldEqExact` | src/isa_specification.rs:585-683 | For an equality clause about a field of a form, what the encoder asks of the field and what the validator checks agree on every word of the form if and only if the value is concrete or has another width than the field. |
| `Encodings.EncodeFreeEquality` | src/isa_specification.rs:401-540 | The encodings of a form of one free bit that is compared with a free bit cover the word `1`, which the validator rejects. |
| `FieldMutation.UncoveredPatterns` | src/isa_optimization.rs:1135-1154 | Pairwise disjoint patterns for exactly the words that no given pattern covers. |
| `FieldMutation.WordCount` | src/isa_optimization.rs:1088-1093 | A pattern with `k` free bits denotes `2^k` words. |
| `FieldMutation.WeightCounts` | src/isa_optimization.rs:1088-1093 | Over disjoint patterns the weights add up to the number of denoted words. |
| `FieldMutation.UncoveredWeight` | src/isa_optimization.rs:1088-1093 | The weight of adding a value is exactly the number of uncovered words. |
| `FieldMutation.DrawsExactly` | src/isa_optimization.rs:1071-1119 | The two-stage choice, of a pattern or the uncovered rest by weight and then of the free bits, reaches exactly the possible draws, in whatever order the sets are listed. |
| `FieldMutation.MutateUses` | src/isa_optimization.rs:1057-1131 | For every possible draw the accepted values change by at most one word: one uncovered word is added, or no more than the chosen point is removed; the result is merged as far as possible. |
| `FieldMutation.MutateByWeight` | src/isa_optimization.rs:1057-1179 | For every outcome of the weighted choices and of the random bits the choices are well defined and amount to a possible draw, the accepted values change by at most its word, and the result is merged as far as possible. |
| `Candidates.WidenInPlace` | src/isa_optimization.rs:1264-1271 | Freeing every differing bit in place gives the smallest pattern that covers both values. |
| `Candidates.Observe` | src/isa_optimization.rs:1228-1273 | Entering one observed value keeps the table explained by the values observed so far. |
| `Candidates.ExplainedIsLeast` | src/isa_optimization.rs:1213-1288 | Any table that accepts the observed values accepts whatever the explained table accepts. |
| `Candidates.MergeEntries` | src/isa_optimization.rs:1277-1280 | Merging the patterns of every entry changes no accepted value and leaves no patterns that merge any further. |
| `Candidates.WiderSupports` | src/isa_optimization.rs:1206-1211 | A candidate that accepts more still supports every instruction. |
| `CandidateBuilder.ISACandidate.FromProgram` | src/isa_optimization.rs:1213-1288 | The candidate built from a program supports every instruction of it, its forms are exactly the forms used, its patterns merge no further, and any candidate that supports the program accepts at least its field values. |
| `CandidateBuilder.AcceptedByFields` | src/isa_optimization.rs:591-630 | Field values allowed one by one, each meeting the predicate's demands on its field, make a word the form accepts. |
| `CandidateBuilder.ISACandidate.RepairForm` | src/isa_optimization.rs:591-630 | A repaired form has an encoding if the largest candidate has one; exactly one form is switched on; and the fields grow by nothing but one value each, taken from a word that the largest candidate accepts. |
| `CandidateBuilder.MergeRepair` | src/isa_optimization.rs:665-702 | The entry of a field grows by the repair value and by nothing else: listed patterns gain it, a single pattern becomes the least one that covers it too. |
| `CandidateGrowth.GrownTwice` | src/isa_optimization.rs:665-702 | Growing by some values and then by others is growing by all of them, in every entry. |
| `CandidateGrowth.GrownStays` | src/isa_optimization.rs:591-630 | An entry that no repair value is for stays as it is. |
| `CandidateBuilder.ISACandidate.RepairSome` | src/isa_optimization.rs:528-549 | For an instruction with no form named some form is usable afterwards if one was, or if the form that is picked, the first active one or else the first, has an encoding; with distinct form names, only then. No form but the picked one is repaired, and that only if none was usable. |
| `CandidateBuilder.UnsatisfiableFirstForm` | src/isa_optimization.rs:528-549 | An instruction whose first form no word satisfies and whose second every word satisfies, none of them active, cannot be repaired. |
| `CandidateBuilder.EncodableIsSatisfiable` | src/isa_specification.rs:401-520 | Under uses that name every field of a form and allow all its values, the form has an encoding if and only if some concrete word matches its constants and meets its predicate. |
| `CandidateBuilder.ISACandidate.RepairMandatoryForms` | src/isa_optimization.rs:523-573 | Afterwards every named mandatory form that the largest candidate can encode is usable, and so is some form of each instruction without named ones that was repairable before the pass; nothing is repaired but mandatory forms that were not usable before the pass, and the candidate grows by those repairs only. |
| `CandidateBuilder.ISACandidate.RestoreUnrestricted` | src/isa_optimization.rs:721-738 | Fields of unrestricted forms have their largest uses, every other entry stays, and exactly the unrestricted forms are switched on in addition. |
| `CandidateBuilder.ISACandidate.RestoreUnmutable` | src/isa_optimization.rs:787-806 | Exactly the fields the search may not touch allow every value of their width; every other entry stays, and no name is added or lost. |
| `CandidateBuilder.ISACandidate.MinimumFeatures` | src/isa_optimization.rs:209-217 | The smallest feature set supports every instruction of the program, and meets the mandatory forms: named ones that the largest candidate can encode have an encoding, and so has some form of each instruction without named ones that could be repaired in the candidate built from the program. Its fields are those of that candidate grown by the repairs, then overridden by the largest uses of unrestricted fields and by everything for fixed ones; its forms are exactly the program's, the repaired and the unrestricted ones. |
| `CandidateBuilder.OtherFieldsAsBuilt` | src/isa_optimization.rs:209-217 | A field that is neither fixed nor unrestricted, and that no repaired form has, allows a value if and only if the candidate built from the program allows it. |
| `CandidateBuilder.RepairedTwice` | src/isa_optimization.rs:523-573 | One pass of repairs after another switches on and grows by exactly what the two passes do. |
| `RegisterUse.SameValue` | src/program_analysis.rs:356-400 | An expression has the same value in states that agree on memory and on the registers the collector finds in it. |
| `RegisterUse.OnlyUnconditionalWrites` | src/program_analysis.rs:323-340 | A register counts as overwritten only if some write of it has a guard that is constantly true. |
| `RegisterUse.ReadsExactly` | src/program_analysis.rs:356-400 | The collector finds a register in an expression if and only if some part of the expression reads it by a fixed identifier, at that width. |
| `RegisterUse.InstructionReadsExactly` | src/program_analysis.rs:287-321 | An instruction reads a register if and only if the guard, destination or value of some effect whose guard is not constantly false does. |
| `RegisterUse.InstructionWritesExactly` | src/program_analysis.rs:323-340 | An instruction surely overwrites a register if and only if some write of it has a guard that is constantly true. |
| `RegisterUse.ConstGuards` | src/program_analysis.rs:342-354 | A constant guard of one bit counts as false, or as true, exactly when the write it guards does not happen, or happens. |
| `RegisterUse.UpwardReadsExactly` | src/program_analysis.rs:185-199 | A register is an upward-exposed read of a block if and only if some instruction of it reads the register and none before it surely overwrites it. |
| `RegisterUse.InstructionKeepsAgreement` | src/program_analysis.rs:287-340 | Agreement on what an instruction reads carries over it and grows by what it surely overwrites. |
| `RegisterUse.BlockKeepsAgreement` | src/program_analysis.rs:153-199 | A block carries agreement on its upward-exposed reads to agreement on those and on all it surely overwrites. |
| `Liveness.ProgramAnalysis.VisitBlock` | src/program_analysis.rs:246-270 | A visit adds to the live sets only, and reports whether it added anything. |
| `Liveness.ProgramAnalysis.Pass` | src/program_analysis.rs:246-272 | A pass keeps the live sets below every closed assignment; one that changes nothing leaves them closed. |
| `Liveness.ProgramAnalysis.ComputeLiveliness` | src/program_analysis.rs:243-275 | The loop ends, at the least assignment of live sets closed under the two flow rules. |
| `Liveness.LiveOutIsNeeded` | src/program_analysis.rs:243-275 | A register is live out of a block exactly when some path from it reaches a read of the register, or an exit seeded by a register branch, with no unconditional overwrite in between. |
| `Liveness.PathKeepsLiveAgreement` | src/program_analysis.rs:153-199 | Two states that agree on memory and on the registers live into a block still agree on memory and on the live-out registers after every path of any length from it. |
| `InstructionRuns.ExecutionKeepsLiveAgreement` | src/program_analysis.rs:186-199 | Liveness computed from lowered effects speaks of execution: running the instructions along any path from states that agree on memory and on what is live in leaves states that agree on what is live out. |
| `ControlFlow.Boundaries` | src/program_analysis.rs:60-118 | Blocks begin at the start, after every branch and at every branch target, and nowhere else. |
| `ControlFlow.TargetIsSum` | src/program_analysis.rs:90-99 | A relative branch leads to the address plus the signed offset, modulo the width of the offset, and to that very sum where it neither wraps nor goes below zero. |
| `ControlFlow.ScanBlock` | src/program_analysis.rs:153-199 | Scanning a stretch collects its upward-exposed reads, its sure overwrites and its continuations; `GraphUsesExactly` says register by register which reads and overwrites those are. |
| `ControlFlow.FromProgram` | src/program_analysis.rs:60-241 | The blocks are the stretches between neighbouring boundaries, all of them and no others, and their edges lead to the blocks that begin where they can continue. |
| `ControlFlow.TransfersFollowEdges` | src/program_analysis.rs:200-241 | Every static transfer of control, to the next instruction or to the first one at the address that a branch adds up to, stays inside a block or follows an edge from a block's end to a block's start. |
| `ControlFlow.EdgesAreTransfers` | src/program_analysis.rs:200-241 | Every edge is a static transfer of control from the last instruction of its block. |
| `ControlFlow.GraphUsesExactly` | src/program_analysis.rs:153-199 | In every block of the graph a register is an upward-exposed read if and only if an instruction reads it before the block surely overwrites it, and is overwritten if and only if some instruction surely overwrites it. |
| `ControlFlow.Analyse` | src/program_analysis.rs:60-275 | The analysis of a program is the graph of that program with the least live sets closed under the flow rules; a register is live out of a block exactly when some path needs it, and what a block reads and overwrites is said register by register. |
| `CanonicalizerTyping.CanonicalizeKeepsType` | src/instruction_semantics.rs:1496-1682 | Canonicalizing a well-formed expression never fails over a width; a finished result has the same type, reads memory byte by byte if the expression did, and is nothing wider than the host integers allow. |
| `CanonicalizerTyping.CanonicalizeIsLowerable` | src/semantic_matching.rs:2499-2654 | Whatever canonicalization returns for a well-formed expression is accepted by the lowering to bits. |
| `CanonicalizerTyping.TypeIsWidth` | src/instruction_semantics.rs:691-756 | The static width of a well-formed expression is its type. |
| `SequenceTyping.SubstituteGood` | src/instruction_semantics.rs:1331-1379 | Forwarding earlier writes into an expression keeps its type and its byte reads. |
| `SequenceTyping.SequenceGood` | src/semantic_matching.rs:3239-3303 | Folding a well-formed program never fails over a width or a mismatch of writes, and the list is well-formed and stores single bytes only. |
| `PlainEffects.SubstitutePlain` | src/instruction_semantics.rs:1331-1379 | Forwarding unconditional plain writes into a plain expression keeps its trees of binary operators and leaves it plain. |
| `PlainEffects.SequencePlain` | src/semantic_matching.rs:3239-3303 | A program of unconditional writes of plain expressions folds into a list of such writes. |
| `EffectComparison.CanonicalListMeaning` | src/instruction_semantics.rs:2092-2115 | Canonicalizing guard, destination and value of every effect keeps what the list does. |
| `EffectComparison.MatchingEffect` | src/semantic_matching.rs:262-293 | The match is the first write of the same kind with the syntactically same destination, and there is none if and only if there is no such write. |
| `EffectComparison.PrepareItself` | src/semantic_matching.rs:139-169 | Comparing a program with itself never panics for want of a counterpart. |
| `EffectComparison.ComparedIsLeft` | src/semantic_matching.rs:215-253 | The guarded value of a write, or the current value where the guard fails, evaluates in the start state to what the whole list leaves at the destination. |
| `EffectComparison.PairMeaning` | src/semantic_matching.rs:262-313 | The two expressions of a pair have, in every total state, the values the two lists leave at the destination. |
| `EffectComparison.PairComparable` | src/semantic_matching.rs:147-163 | Both expressions of a pair can be lowered and have the same width, so building a manager for them does not panic. |
| `EffectComparison.PairsDecide` | src/semantic_matching.rs:128-209 | In every total state in which the rewrites are valid and distinct writes separate, the two expressions of every pair have equal values if and only if running the two programs from it leaves the same value at every place the left one writes. |
| `PreparationFuel.PrepareStable` | src/semantic_matching.rs:139-169 | Preparing a comparison does not depend on how much fuel there is beyond enough. |
| `PreparationFuel.PreparationEnds` | src/semantic_matching.rs:139-169 | For two programs without multiplication some amount of fuel is enough to fold, canonicalize and pair them, and every larger amount gives the same outcome. |
| `PlainPrograms.PlainProgramsPrepare` | src/semantic_matching.rs:139-169 | For programs of unconditional writes of plain expressions, preparing the comparison ends in a panic exactly if a write of the left list has no counterpart on the right, and otherwise with rewrites that are valid in every state; nothing is assumed of the run. |
| `PlainPrograms.SequenceNames` | src/semantic_matching.rs:3239-3303 | The folded list of such a program over named registers writes exactly the registers the program writes. |
| `PlainPrograms.FixedPlainProgramsAreExact` | src/semantic_matching.rs:128-209 | If such programs write only registers they name outright, the comparison is prepared if and only if the right program writes every register the left one writes, and it is then exact in every total state. |
| `EffectComparison.FixedProgramsAreExact` | src/semantic_matching.rs:3239-3303 | For programs that only write registers they name outright, the symbolic comparison needs no assumption on aliasing. |
| `EquivalenceManagers.EquivalenceManager.FromInstructions` | src/semantic_matching.rs:139-169 | A new checker holds the canonical effects of both programs and one manager for each write of the left one. |
| `EquivalenceManagers.EquivalenceManager.ReplaceRightInstruction` | src/semantic_matching.rs:175-197 | Replacing the right program keeps every left expression and gives every manager the right expression of the new program. |
| `EquivalenceManagers.EquivalenceManager.CompareInstructions` | src/semantic_matching.rs:199-209 | The verdict is equal if and only if every pair is equivalent; otherwise the returned state separates some pair. |
| `EquivalenceManagers.ComparePrograms` | src/semantic_matching.rs:128-209 | If the verdict is equal, both programs, run step by step, leave the same values wherever the left one writes, from every total state in which the rewrites are valid and distinct writes separate; otherwise the returned state can be completed, and from every such completion they do not. Where these conditions hold in every state, the verdict is equal if and only if the programs agree from every state. |

## Left out

What the program does that the model does not:

- The 128-bit cap on widths and the panics it brings: values are unbounded naturals below `2^w`.
- The Z3-backed checker (src/semantic_matching.rs:320-1094) and the internals of the decision-diagram library: a diagram is the function it denotes, and finding a satisfying cube is a parameter of `Compare`.
- The profiling counters and timers of the sequence folding, which carry no meaning.
- The textual sort key (src/instruction_semantics.rs:758-765): any comparison is allowed in its place. The theorems on the normal form, and they alone, assume of it what comparing texts gives: it is total and transitive, and different expressions have different keys.
- Update in place inside `canonicalize`, `collapse` and `substitute`: these recursive functions are modelled on values, with a fuel bound where the recursion is not structural; their list-updating passes are also given as loops in `CanonicalizerLoops.dfy` and `Collapse.dfy`. Termination is proved for expressions without multiplication.
- The depth to which derived values are unfolded is bounded; `AcyclicResolves` says when the bound does not matter.
- The cost of `MachineState::compare` and the stack-scratch policy: tuning of the search, not semantics.
- `Bit::Test` and the lookup tables of src/bit.rs:303-480: case tables.
- Parsing, decoding of binary programs and `find_match`: text and file input.
- The netlist side, program rewriting, the genetic search driver, fitness, crossover and restriction of forms: floating point, processes and randomness. Random choices are parameters of `MutateByWeight`, and the order in which a hash set is walked is arbitrary.
- The `VariableBits` branch of `mutate_field` (src/isa_optimization.rs:1010-1056): a case table over single bits.
- The second copy of a read's variables (`value_variables`), which always equals its value.
- Splitting a program after every instruction (src/program_analysis.rs:120-126) and collapsing branch offsets: liveness takes the offset of each branch as given, and the effects as lowered (`ExecutionKeepsLiveAgreement` relates them to the run).

What the statements assume:

- CanonicalizePreservesMeaning: speaks of runs that finish and of states in which what they report holds; `PlainFinishes` and `PlainConjunctionEnds` are conditions on the input for that, `RemovalExact` and `MulToShiftAddExact` say that the reported conditions are exact.
- PanicsExactly: its condition, like that of FinishesExactly, SequenceAccounted and PrepareExactly, is read off the report of the run. They cover the expressions outside the plain ones: exclusive or, disjunctions of three and more terms, several trees of the opposite operator below the root, and multiplication. Conditions on the input are `LeftWithoutTermsExactly`, `PlainConjunctionEnds`, `PlainFinishes` and `PlainProgramsPrepare`.
- PlainProgramsPrepare: assumes unconditional writes; merging conditional ones builds a disjunction of their guards, which a third write makes longer than two terms.
- PreparationEnds: assumes programs without multiplication, for which termination is proved.
- SequenceIsRun: assumes a total start state and that no merge is disturbed, as overwriting in place requires; `MergeExact` says the condition is exact for each merge, `AliasedStoresLoseTheirOrder` that it is needed, `SeparatedIsRun` and `FixedRegistersFold` when it holds.
- Compare: assumes byte-wide reads, one address width, and register identifiers of one width that fit it; the memory constraint pairs bits up and missing registers read as zero in the code (src/semantic_matching.rs:2324-2333, 2699-2708).
- TreesAgree: compares runs that finish; for a conjunction or disjunction one order of the terms could exhaust the fuel of an absorption search that the other order ends early.
- CompareIsHistoryIndependent: compares verdicts; the separating states may differ with the choice of cube.
- ComparePrograms: assumes that folding and canonicalizing both programs finishes, which `FixedPlainProgramsAreExact` decides from the programs of its class, and speaks of the total states in which the reported rewrites are valid and distinct writes separate; like the code it compares only the places the left program writes.
- FieldsToEncodings: assumes a form with at least one field (the predicate of an empty form is never looked at), field names unique in it, predicates that name fields and bits of the form, and concrete values in equality clauses, where it speaks of the validator; `FieldEqExact` shows why. What the encoder asks of each field it says for every predicate.
- MinimumFeatures: which fields are fixed and which are unrestricted are parameters. What it says of instructions without named forms is about the first instruction of a name, and one way only: a form can also become usable because a later pass, or the repair of another instruction, widens the fields it uses. Of an instruction that shares its name with an earlier one it does not say which form is picked.
- CollapsedRun: assumes that every part of every effect has a value when its instruction is reached.
- FromProgram: is least among the candidates that keep a field a single pattern where this one does.
- PathKeepsLiveAgreement: assumes that instructions name registers by fixed identifiers.
