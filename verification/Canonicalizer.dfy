/** The canonical form of an expression.

    `Canonicalize` re-canonicalizes terms it has built itself, so it is not structurally
    recursive; the model carries a fuel argument and tells an exhausted fuel apart from a panic.
    The textual sort key is an arbitrary comparison `le`.  Two rewrites are not valid for every
    operand; a run reports, as obligations, the instances of them it relied on. */
module Canonicalizer {
  import opened Words
  import opened Exprs

  type Order = (Expr, Expr) -> bool

  datatype Obligation =
    /** Of the terms of an operation, those with an absorber were dropped. */
    | Absorption(op: BinOp, terms: seq<Expr>, absorbers: seq<Option<nat>>)
    /** Multiplying `variable` by `factor` was expanded into shifts and adds. */
    | ShiftRoom(variable: Expr, factor: nat, width: nat)

  datatype Outcome<+T> =
    | Done(value: T, obligations: set<Obligation>)
    /** A panic because an operation was left without a term. */
    | NoTerms(obligations: set<Obligation>)
    /** Any other panic: a width that is zero, missing or does not fit. */
    | Panic
    | OutOfFuel
  {
    predicate IsFailure() { !Done? }
    function PropagateFailure<U>(): Outcome<U>
      requires !Done?
    {
      if NoTerms? then NoTerms(obligations) else if Panic? then Panic else OutOfFuel
    }
    function Extract(): (T, set<Obligation>) requires Done? { (value, obligations) }

    function With(more: set<Obligation>): Outcome<T>
    {
      if Done? then Done(value, obligations + more)
      else if NoTerms? then NoTerms(obligations + more) else this
    }
  }

  // ----- associative-commutative terms -----

  function Flatten(op: BinOp, e: Expr): (terms: seq<Expr>)
    ensures terms != []
    decreases e
  {
    match e
    case Bin(o, lhs, rhs) => if o == op then Flatten(op, lhs) + Flatten(op, rhs) else [e]
    case _ => [e]
  }

  function FlattenAll(op: BinOp, terms: seq<Expr>): seq<Expr>
  {
    if terms == [] then [] else Flatten(op, terms[0]) + FlattenAll(op, terms[1..])
  }

  /** Left-associated tree over the terms in order. */
  function Rebuild(op: BinOp, terms: seq<Expr>): Expr
    requires terms != []
  {
    if |terms| == 1 then terms[0]
    else Bin(op, Rebuild(op, terms[..|terms| - 1]), terms[|terms| - 1])
  }

  function Insert(t: Expr, sorted: seq<Expr>, le: Order): seq<Expr>
  {
    if sorted == [] || le(t, sorted[0]) then [t] + sorted
    else [sorted[0]] + Insert(t, sorted[1..], le)
  }

  /** Stable sort by the comparison. */
  function Sort(terms: seq<Expr>, le: Order): seq<Expr>
  {
    if terms == [] then [] else Insert(terms[0], Sort(terms[1..], le), le)
  }

  function Dedup(terms: seq<Expr>): seq<Expr>
  {
    if |terms| <= 1 then terms
    else if terms[0] == terms[1] then Dedup(terms[1..])
    else [terms[0]] + Dedup(terms[1..])
  }

  function RunLength(terms: seq<Expr>): (n: nat)
    requires terms != []
    ensures 1 <= n <= |terms|
  {
    if |terms| > 1 && terms[1] == terms[0] then 1 + RunLength(terms[1..]) else 1
  }

  /** What a run of `n` equal terms leaves, and the width it is remembered by. */
  function RunKept(t: Expr, n: nat): seq<Expr>
  {
    if n % 2 == 1 then [t] else if ExprWidth(t).Some? then [] else [t, t]
  }

  function RunWidth(t: Expr, n: nat, cancelled: Option<nat>): Option<nat>
  {
    if n % 2 == 0 && ExprWidth(t).Some? then ExprWidth(t) else cancelled
  }

  /** Cancels runs of even length; `cancelled` remembers a width for an empty result. */
  function CancelRuns(terms: seq<Expr>, cancelled: Option<nat>): (seq<Expr>, Option<nat>)
    decreases |terms|
  {
    if terms == [] then ([], cancelled)
    else
      var n, t := RunLength(terms), terms[0];
      var (rest, width) := CancelRuns(terms[n..], RunWidth(t, n, cancelled));
      (RunKept(t, n) + rest, width)
  }

  function NonConstants(terms: seq<Expr>): seq<Expr>
  {
    if terms == [] then []
    else (if terms[0].Const? then [] else [terms[0]]) + NonConstants(terms[1..])
  }

  /** The folded constant so far, or a panic on operands of different or zero width. */
  datatype Folded = NoConst | Folded(value: nat, width: nat) | BadWidth

  function FoldConstant(op: BinOp, acc: Folded, value: nat, width: nat): Folded
    requires IsAssocComm(op)
  {
    if width == 0 then BadWidth
    else match acc
      case NoConst => Folded(value % Pow2(width), width)
      case BadWidth => BadWidth
      case Folded(v, w) =>
        if w != width then BadWidth
        else Folded(BinVal(op, v % Pow2(width), value % Pow2(width), width), width)
  }

  function FoldConstants(op: BinOp, terms: seq<Expr>, acc: Folded): Folded
    requires IsAssocComm(op)
  {
    if terms == [] then acc
    else FoldConstants(op, terms[1..],
                       if terms[0].Const? then FoldConstant(op, acc, terms[0].value, terms[0].width) else acc)
  }

  predicate IsIdentity(op: BinOp, value: nat, width: nat)
  {
    match op
    case Mul => value == 1
    case And => value == Mask(width)
    case _ => value == 0
  }

  predicate IsAnnihilator(op: BinOp, value: nat, width: nat)
  {
    match op
    case Mul => value == 0
    case And => value == 0
    case Or => value == Mask(width)
    case _ => false
  }

  predicate Complementary(a: Expr, b: Expr)
  {
    a == Not(b) || b == Not(a)
  }

  predicate HasComplementaryPair(terms: seq<Expr>)
  {
    exists i, j :: 0 <= i < j < |terms| && Complementary(terms[i], terms[j])
  }

  function FirstWidth(terms: seq<Expr>): Option<nat>
  {
    if terms == [] then None
    else if ExprWidth(terms[0]).Some? then ExprWidth(terms[0])
    else FirstWidth(terms[1..])
  }

  /** The non-constant terms after sorting and removal of repeats, and the folded constant. */
  function ReduceTerms(op: BinOp, terms: seq<Expr>, le: Order): (seq<Expr>, Folded)
    requires IsAssocComm(op)
  {
    var folded := FoldConstants(op, terms, NoConst);
    var sorted := Sort(NonConstants(terms), le);
    if op == And || op == Or then (Dedup(sorted), folded)
    else if op == Xor then
      var (kept, cancelled) := CancelRuns(sorted, if folded.Folded? then Some(folded.width) else None);
      (kept, if folded.NoConst? && kept == [] && cancelled.Some? then Folded(0, cancelled.value) else folded)
    else (sorted, folded)
  }

  /** The expression for reduced terms and a folded constant. */
  function AssembleTerms(op: BinOp, terms: seq<Expr>, folded: Folded): Outcome<Expr>
    requires IsAssocComm(op)
  {
    match folded
    case BadWidth => Panic
    case NoConst => if terms == [] then NoTerms({}) else Done(Rebuild(op, terms), {})
    case Folded(value, width) =>
      if width == 0 then Panic
      else if IsAnnihilator(op, value, width) then Done(Const(value, width), {})
      else if !IsIdentity(op, value, width) || terms == [] then
        Done(Rebuild(op, terms + [Const(value, width)]), {})
      else Done(Rebuild(op, terms), {})
  }

  /** Combines canonical terms, already flattened, into one canonical operation. */
  function CombineTerms(op: BinOp, terms: seq<Expr>, le: Order): Outcome<Expr>
    requires IsAssocComm(op)
  {
    var (reduced, folded) := ReduceTerms(op, terms, le);
    if folded.BadWidth? then Panic
    else
      var width := if FirstWidth(reduced).Some? then FirstWidth(reduced)
                   else if folded.Folded? then Some(folded.width) else None;
      if (op == And || op == Or) && HasComplementaryPair(reduced) && width.Some? then
        if width.value == 0 then Panic
        else Done(Const(if op == And then 0 else Mask(width.value), width.value), {})
      else AssembleTerms(op, reduced, folded)
  }

  function Opposite(op: BinOp): BinOp
  {
    if op == And then Or else And
  }

  // ----- absorption -----

  /** Whether a leaf of the `op` tree has the canonical form `needle`; stops at the first hit. */
  function ContainsTerm(op: BinOp, e: Expr, needle: Expr, le: Order, fuel: nat): Outcome<bool>
    decreases fuel, 1, e
  {
    if e.Bin? && e.op == op then
      var (left, o1) :- ContainsTerm(op, e.lhs, needle, le, fuel);
      if left then Done(true, o1)
      else ContainsTerm(op, e.rhs, needle, le, fuel).With(o1)
    else
      var (c, o) :- Canonicalize(e, le, fuel);
      Done(c == needle, o)
  }

  /** The right subtree counts only if the left one has no hit. */
  function EitherHit(left: Outcome<bool>, right: Outcome<bool>): Outcome<bool>
  {
    if !left.Done? || left.value then left else right.With(left.obligations)
  }

  lemma ContainsUnfolds(op: BinOp, e: Expr, needle: Expr, le: Order, fuel: nat)
    requires e.Bin? && e.op == op
    ensures ContainsTerm(op, e, needle, le, fuel)
            == EitherHit(ContainsTerm(op, e.lhs, needle, le, fuel), ContainsTerm(op, e.rhs, needle, le, fuel))
  {
  }

  lemma ContainsAtLeaf(op: BinOp, e: Expr, needle: Expr, le: Order, fuel: nat)
    requires !(e.Bin? && e.op == op)
    ensures var c := Canonicalize(e, le, fuel);
      ContainsTerm(op, e, needle, le, fuel)
      == if c.Done? then Done(c.value == needle, c.obligations) else c.PropagateFailure()
  {
    hide Canonicalize;
  }

  /** The first term from index `j` on, other than `i`, that absorbs the candidate. */
  function FirstAbsorber(op: BinOp, candidate: Expr, canonical: seq<Expr>, i: nat, j: nat, le: Order, fuel: nat)
    : Outcome<Option<nat>>
    requires j <= |canonical|
    decreases fuel, 2, |canonical| - j
  {
    if j == |canonical| then Done(None, {})
    else if j == i then FirstAbsorber(op, candidate, canonical, i, j + 1, le, fuel)
    else
      var (hit, o) :- ContainsTerm(op, candidate, canonical[j], le, fuel);
      if hit then Done(Some(j), o)
      else FirstAbsorber(op, candidate, canonical, i, j + 1, le, fuel).With(o)
  }

  /** For every term from index `i` on, the index of the term that absorbs it, if any. */
  function Absorbers(op: BinOp, terms: seq<Expr>, canonical: seq<Expr>, i: nat, le: Order, fuel: nat)
    : (r: Outcome<seq<Option<nat>>>)
    requires i <= |terms|
    ensures r.Done? ==> |r.value| == |terms| - i
    decreases fuel, 3, |terms| - i
  {
    if i == |terms| then Done([], {})
    else if !(terms[i].Bin? && terms[i].op == op) then
      var (rest, o) :- Absorbers(op, terms, canonical, i + 1, le, fuel);
      Done([None] + rest, o)
    else
      var (first, o1) :- FirstAbsorber(op, terms[i], canonical, i, 0, le, fuel);
      var (rest, o2) :- Absorbers(op, terms, canonical, i + 1, le, fuel);
      Done([first] + rest, o1 + o2)
  }

  /** Following absorbers from `i` reaches a kept term within `steps` steps. */
  predicate ReachesKept(absorbers: seq<Option<nat>>, i: nat, steps: nat)
    decreases steps
  {
    i < |absorbers| &&
    (absorbers[i].None? || (steps > 0 && ReachesKept(absorbers, absorbers[i].value, steps - 1)))
  }

  predicate AllAnchored(absorbers: seq<Option<nat>>)
  {
    forall i: nat | i < |absorbers| :: ReachesKept(absorbers, i, |absorbers|)
  }

  function Retain(terms: seq<Expr>, absorbers: seq<Option<nat>>): seq<Expr>
    requires |terms| == |absorbers|
  {
    if terms == [] then []
    else (if absorbers[0].None? then [terms[0]] else []) + Retain(terms[1..], absorbers[1..])
  }

  function RemoveAbsorbed(op: BinOp, terms: seq<Expr>, le: Order, fuel: nat): Outcome<seq<Expr>>
    decreases fuel, 4
  {
    if op != And && op != Or then Done(terms, {})
    else
      var (canonical, o1) :- CanonicalizeAll(terms, le, fuel);
      var (absorbers, o2) :- Absorbers(Opposite(op), terms, canonical, 0, le, fuel);
      Done(Retain(terms, absorbers), o1 + o2 + {Absorption(op, terms, absorbers)})
  }

  function CanonicalizeAll(terms: seq<Expr>, le: Order, fuel: nat): Outcome<seq<Expr>>
    decreases fuel, 1, |terms|
  {
    if terms == [] then Done([], {})
    else
      var (first, o1) :- Canonicalize(terms[0], le, fuel);
      var (rest, o2) :- CanonicalizeAll(terms[1..], le, fuel);
      Done([first] + rest, o1 + o2)
  }

  function CanonicalizeAssocComm(op: BinOp, lhs: Expr, rhs: Expr, le: Order, fuel: nat): Outcome<Expr>
    requires IsAssocComm(op)
    decreases fuel, 5
  {
    var (terms, o1) :- RemoveAbsorbed(op, Flatten(op, lhs) + Flatten(op, rhs), le, fuel);
    var (canonical, o2) :- CanonicalizeAll(terms, le, fuel);
    CombineTerms(op, FlattenAll(op, canonical), le).With(o1 + o2)
  }

  // ----- lowering of Or, Xor and Select -----

  function LowerOr(lhs: Expr, rhs: Expr): Expr
  {
    Not(Bin(And, Not(lhs), Not(rhs)))
  }

  function LowerXor(lhs: Expr, rhs: Expr): Expr
  {
    Bin(Or, Bin(And, lhs, Not(rhs)), Bin(And, Not(lhs), rhs))
  }

  function LowerSelect(condition: Expr, whenTrue: Expr, whenFalse: Expr, width: nat): Expr
  {
    var mask := Extend(SignExtend, condition, width);
    Not(Bin(And, Not(Bin(And, Not(mask), whenFalse)), Not(Bin(And, mask, whenTrue))))
  }

  function LowerOperators(e: Expr, le: Order, fuel: nat): Outcome<Expr>
    decreases fuel, 1, 0
  {
    if e.Bin? && e.op == Or then Canonicalize(LowerOr(e.lhs, e.rhs), le, fuel)
    else if e.Bin? && e.op == Xor then Canonicalize(LowerXor(e.lhs, e.rhs), le, fuel)
    else if e.Select? then
      var t, f := ExprWidth(e.whenTrue), ExprWidth(e.whenFalse);
      if ExprWidth(e.condition).Some? && ExprWidth(e.condition).value != 1 then Panic
      else if t.None? || f.None? || t != f then Panic
      else Canonicalize(LowerSelect(e.condition, e.whenTrue, e.whenFalse, t.value), le, fuel)
    else Done(e, {})
  }

  // ----- multiplication by a constant -----

  /** Shifts the variable term one further, reusing a shift it already carries. */
  function Doubled(variable: Expr, width: nat): Expr
  {
    if variable.Bin? && variable.op == ShiftLeft
    then Bin(ShiftLeft, variable.lhs, Bin(Add, variable.rhs, Const(1, width)))
    else Bin(ShiftLeft, variable, Const(1, width))
  }

  function ShiftAddTerms(variable: Expr, factor: nat, accumulator: Expr, width: nat): Expr
    decreases factor
  {
    if factor == 0 then accumulator
    else ShiftAddTerms(Doubled(variable, width), factor / 2,
                       if factor % 2 == 1 then Bin(Add, accumulator, variable) else accumulator, width)
  }

  function MulToShiftAdd(variable: Expr, factor: nat, width: nat, le: Order, fuel: nat): Outcome<Expr>
    decreases fuel, 1, 0
  {
    Canonicalize(ShiftAddTerms(variable, factor, Const(0, width), width), le, fuel)
      .With({ShiftRoom(variable, factor, width)})
  }

  function CanonicalizeMul(e: Expr, le: Order, fuel: nat): Outcome<Expr>
    decreases fuel, 2
  {
    var width := ExprWidth(e);
    if width.None? then Panic
    else if !(e.Bin? && e.op == Mul) then Done(e, {})
    else if e.lhs.Const? && e.rhs.Const? then
      if width.value == 0 then Panic
      else Done(Const((e.lhs.value * e.rhs.value) % Pow2(width.value), width.value), {})
    else if e.lhs.Const? then MulToShiftAdd(e.rhs, e.lhs.value, width.value, le, fuel)
    else if e.rhs.Const? then MulToShiftAdd(e.lhs, e.rhs.value, width.value, le, fuel)
    else Done(e, {})
  }

  // ----- the remaining nodes, over canonical children -----

  function CanonicalNot(value: Expr): Outcome<Expr>
  {
    match value
    case Const(v, w) => if w == 0 then Panic else Done(Const(NotVal(v % Pow2(w), w), w), {})
    case Not(inner) => Done(inner, {})
    case _ => Done(Not(value), {})
  }

  function CanonicalShift(op: BinOp, value: Expr, amount: Expr): Outcome<Expr>
  {
    if amount.Const? && amount.width == 0 then Panic
    else if amount.Const? && amount.value % Pow2(amount.width) == 0 then Done(value, {})
    else if value.Const? && value.width == 0 then Panic
    else if value.Const? && value.value % Pow2(value.width) == 0 then Done(Const(0, value.width), {})
    else Done(Bin(op, value, amount), {})
  }

  function CanonicalComparison(op: BinOp, lhs: Expr, rhs: Expr, le: Order): Expr
  {
    if lhs == rhs then Const(BoolVal(op == Equal), 1)
    else if op == Equal && !le(lhs, rhs) then Bin(op, rhs, lhs)
    else Bin(op, lhs, rhs)
  }

  function CanonicalSlice(value: Expr, high: nat, low: nat): Outcome<Expr>
    requires low <= high
  {
    var width := ExprWidth(value);
    if width.Some? && high >= width.value then Panic
    else if width.Some? && low == 0 && high - low + 1 == width.value then Done(value, {})
    else Done(Slice(value, high, low), {})
  }

  function StripNested(kind: ExtendOp, value: Expr): Expr
  {
    if value.Extend? && value.kind == kind then value.operand else value
  }

  function CanonicalExtension(kind: ExtendOp, value: Expr, toWidth: nat): Outcome<Expr>
  {
    var width := ExprWidth(value);
    if width.Some? && width.value > toWidth then Panic
    else if width.Some? && width.value == toWidth then Done(value, {})
    else Done(Extend(kind, StripNested(kind, value), toWidth), {})
  }

  /** Merges adjacent constant chunks, most significant chunk first; `None` is a zero width. */
  function MergeChunks(parts: seq<Expr>): Option<seq<Expr>>
  {
    if parts == [] then Some([])
    else
      var merged :- MergeChunks(parts[..|parts| - 1]);
      var last := parts[|parts| - 1];
      if !last.Const? then Some(merged + [last])
      else if last.width == 0 then None
      else if merged != [] && merged[|merged| - 1].Const? then
        var previous := merged[|merged| - 1];
        var width := previous.width + last.width;
        Some(merged[..|merged| - 1] +
             [Const(Bitwise(LogicOr, (previous.value % Pow2(previous.width)) * Pow2(last.width),
                            last.value % Pow2(last.width), width), width)])
      else Some(merged + [Const(last.value % Pow2(last.width), last.width)])
  }

  function RebuildConcat(parts: seq<Expr>): Outcome<Expr>
  {
    var merged := MergeChunks(parts);
    if merged.None? then Panic
    else if |merged.value| == 1 then Done(merged.value[0], {})
    else Done(Concat(merged.value), {})
  }

  /** Subtraction flags become addition flags with complemented operands. */
  function AddFlag(flag: FlagOp): FlagOp
  {
    match flag
    case SubCarryOut => AddCarryOut
    case SubOverflow => AddOverflow
    case _ => flag
  }

  function FlagOperand(flag: FlagOp, operand: Expr): Expr
  {
    if AddFlag(flag) == flag then operand else Not(operand)
  }

  // ----- the canonicalizer -----

  function CanonicalizeBin(op: BinOp, lhs: Expr, rhs: Expr, le: Order, fuel: nat): Outcome<Expr>
    decreases fuel, 6
  {
    if IsAssocComm(op) then
      var (c, o) :- CanonicalizeAssocComm(op, lhs, rhs, le, fuel);
      FinishTree(op, c, le, fuel).With(o)
    else
      var (l, o1) :- Canonicalize(lhs, le, fuel);
      var (r, o2) :- Canonicalize(rhs, le, fuel);
      CanonicalizeOperands(op, l, r, le, fuel).With(o1 + o2)
  }

  /** What is left to do with a combined tree. */
  function FinishTree(op: BinOp, tree: Expr, le: Order, fuel: nat): Outcome<Expr>
    requires IsAssocComm(op)
    decreases fuel, 3
  {
    if op == Add || op == Mul then CanonicalizeMul(tree, le, fuel)
    else if op == And then Done(tree, {})
    else LowerOperators(tree, le, fuel)
  }

  lemma TreeUnfolds(op: BinOp, lhs: Expr, rhs: Expr, le: Order, fuel: nat)
    requires IsAssocComm(op)
    ensures var c := CanonicalizeAssocComm(op, lhs, rhs, le, fuel);
      CanonicalizeBin(op, lhs, rhs, le, fuel)
      == if c.Done? then FinishTree(op, c.value, le, fuel).With(c.obligations) else c
  {
    hide CanonicalizeAssocComm, FinishTree;
  }

  lemma PlainUnfolds(op: BinOp, lhs: Expr, rhs: Expr, le: Order, fuel: nat)
    requires !IsAssocComm(op)
    ensures var l, r := Canonicalize(lhs, le, fuel), Canonicalize(rhs, le, fuel);
      CanonicalizeBin(op, lhs, rhs, le, fuel)
      == if !l.Done? then l else if !r.Done? then r
         else CanonicalizeOperands(op, l.value, r.value, le, fuel).With(l.obligations + r.obligations)
  {
    hide Canonicalize, CanonicalizeOperands;
  }

  /** A subtraction, comparison, shift or rotation of canonical operands. */
  function CanonicalizeOperands(op: BinOp, lhs: Expr, rhs: Expr, le: Order, fuel: nat): Outcome<Expr>
    requires !IsAssocComm(op)
    decreases fuel, 2
  {
    if op == Sub then CanonicalizeSub(lhs, rhs, le, fuel)
    else if IsComparison(op) then Done(CanonicalComparison(op, lhs, rhs, le), {})
    else CanonicalShift(op, lhs, rhs)
  }

  lemma OperandsAre(op: BinOp, l: Expr, r: Expr, le: Order, fuel: nat)
    requires !IsAssocComm(op)
    ensures CanonicalizeOperands(op, l, r, le, fuel)
            == if op == Sub then CanonicalizeSub(l, r, le, fuel)
               else if IsComparison(op) then Done(CanonicalComparison(op, l, r, le), {})
               else CanonicalShift(op, l, r)
  {
    hide CanonicalizeSub, CanonicalComparison, CanonicalShift;
  }

  /** Subtraction of canonical operands. */
  function CanonicalizeSub(lhs: Expr, rhs: Expr, le: Order, fuel: nat): Outcome<Expr>
    decreases fuel, 1, 0
  {
    var width := ExprWidth(lhs);
    if rhs.Const? && rhs.width == 0 then Panic
    else if rhs.Const? && rhs.value % Pow2(rhs.width) == 0 then Done(lhs, {})
    else if width.None? then Panic
    else if lhs == rhs then (if width.value == 0 then Panic else Done(Const(0, width.value), {}))
    else Canonicalize(Bin(Add, Bin(Add, lhs, Not(rhs)), Const(1, width.value)), le, fuel)
  }

  function CanonicalizeFlag(
    flag: FlagOp, lhs: Expr, rhs: Expr, flagIn: Expr, width: nat, le: Order, fuel: nat): Outcome<Expr>
    decreases fuel, 1, 0
  {
    var (l, o1) :- Canonicalize(lhs, le, fuel);
    var (r, o2) :- Canonicalize(FlagOperand(flag, rhs), le, fuel);
    var (c, o3) :- Canonicalize(FlagOperand(flag, flagIn), le, fuel);
    Done(Flag(AddFlag(flag), l, r, c, width), o1 + o2 + o3)
  }

  lemma FlagUnfolds(flag: FlagOp, lhs: Expr, rhs: Expr, flagIn: Expr, width: nat, le: Order, fuel: nat)
    ensures var l, r, c := Canonicalize(lhs, le, fuel), Canonicalize(FlagOperand(flag, rhs), le, fuel),
                           Canonicalize(FlagOperand(flag, flagIn), le, fuel);
      CanonicalizeFlag(flag, lhs, rhs, flagIn, width, le, fuel)
      == if !l.Done? then l else if !r.Done? then r else if !c.Done? then c
         else Done(Flag(AddFlag(flag), l.value, r.value, c.value, width), l.obligations + r.obligations + c.obligations)
  {
    hide Canonicalize, FlagOperand, AddFlag;
  }

  function CanonicalizeChoice(condition: Expr, whenTrue: Expr, whenFalse: Expr, le: Order, fuel: nat): Outcome<Expr>
    decreases fuel, 3
  {
    var (c, o1) :- Canonicalize(condition, le, fuel);
    var (t, o2) :- Canonicalize(whenTrue, le, fuel);
    var (f, o3) :- Canonicalize(whenFalse, le, fuel);
    CanonicalizeSelect(c, t, f, le, fuel).With(o1 + o2 + o3)
  }

  /** A select over canonical children. */
  function CanonicalizeSelect(condition: Expr, whenTrue: Expr, whenFalse: Expr, le: Order, fuel: nat): Outcome<Expr>
    decreases fuel, 2
  {
    if condition.Const? then
      if condition.width != 1 then Panic
      else Done(if condition.value % 2 == 1 then whenTrue else whenFalse, {})
    else if whenTrue == whenFalse then Done(whenTrue, {})
    else LowerOperators(Select(condition, whenTrue, whenFalse), le, fuel)
  }

  function Canonicalize(e: Expr, le: Order, fuel: nat): Outcome<Expr>
    decreases fuel, 0
  {
    if fuel == 0 then OutOfFuel
    else
      match e
      case Const(value, width) =>
        if width == 0 then Panic else Done(Const(value % Pow2(width), width), {})
      case RegisterField(_) => Done(e, {})
      case ImmediateField(_) => Done(e, {})
      case DerivedValue(_) => Done(e, {})
      case ReadRegister(register, width) =>
        var (c, o) :- Canonicalize(register, le, fuel - 1);
        Done(ReadRegister(c, width), o)
      case ReadMemory(address, width) =>
        var (c, o) :- Canonicalize(address, le, fuel - 1);
        Done(ReadMemory(c, width), o)
      case Bin(op, lhs, rhs) => CanonicalizeBin(op, lhs, rhs, le, fuel - 1)
      case Not(operand) =>
        var (c, o) :- Canonicalize(operand, le, fuel - 1);
        CanonicalNot(c).With(o)
      case CountOnes(operand) =>
        var (c, o) :- Canonicalize(operand, le, fuel - 1);
        Done(CountOnes(c), o)
      case Slice(operand, high, low) =>
        if high < low then Panic
        else
          var (c, o) :- Canonicalize(operand, le, fuel - 1);
          CanonicalSlice(c, high, low).With(o)
      case Concat(parts) =>
        var (c, o) :- CanonicalizeAll(parts, le, fuel - 1);
        RebuildConcat(c).With(o)
      case Extend(kind, operand, toWidth) =>
        var (c, o) :- Canonicalize(operand, le, fuel - 1);
        CanonicalExtension(kind, c, toWidth).With(o)
      case Flag(flag, lhs, rhs, flagIn, width) => CanonicalizeFlag(flag, lhs, rhs, flagIn, width, le, fuel - 1)
      case Select(condition, whenTrue, whenFalse) => CanonicalizeChoice(condition, whenTrue, whenFalse, le, fuel - 1)
  }
}
