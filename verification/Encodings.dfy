/** Instruction forms, their predicates, and the encodings that allowed field values expand to. */
module Encodings {
  import opened Exprs
  import opened Cubes
  import opened FieldMerge

  datatype MergeMode = ByVariableBits | ByUses

  /** `None` is a constant field. */
  datatype Field = Field(name: Option<string>, pattern: Pattern, mode: MergeMode)

  datatype Predicate =
    | Always
    | Never
    | All(predicates: seq<Predicate>)
    | BitEq(index: nat, bit: Trit)
    | FieldEq(field: string, value: Pattern)
    | FieldIn(field: string, values: seq<Pattern>)

  datatype Form = Form(fields: seq<Field>, when: Predicate)

  datatype FieldUses =
    | VariableUses(pattern: Option<Pattern>, len: nat)
    | PatternUses(patterns: set<Pattern>, len: nat)

  type UseTable = map<string, FieldUses>

  /** Stands for the name of a constant field where a name is needed. */
  const CONST_NAME: string := "__const__"

  // ----- where fields lie in a word -----

  function Width(f: Field): nat { |f.pattern| }

  /** The position of field `k`. */
  function Start(fields: seq<Field>, k: nat): (n: nat)
    requires k <= |fields|
  {
    if k == 0 then 0 else Start(fields, k - 1) + Width(fields[k - 1])
  }

  function Total(form: Form): nat { Start(form.fields, |form.fields|) }

  lemma {:induction false} StartMono(fields: seq<Field>, k: nat, m: nat)
    requires k <= m <= |fields|
    ensures Start(fields, k) <= Start(fields, m)
    decreases m
  {
    if k < m { StartMono(fields, k, m - 1); }
  }

  lemma StartNext(fields: seq<Field>, k: nat)
    requires k < |fields|
    ensures Start(fields, k + 1) == Start(fields, k) + Width(fields[k])
  {
  }

  function FieldValue(form: Form, x: Pattern, k: nat): (v: Pattern)
    requires |x| == Total(form) && k < |form.fields|
    ensures |v| == Width(form.fields[k])
  {
    StartMono(form.fields, k + 1, |form.fields|);
    x[Start(form.fields, k)..Start(form.fields, k + 1)]
  }

  function NameOf(f: Field): string
  {
    if f.name.Some? then f.name.value else CONST_NAME
  }

  // ----- decoded instructions -----

  datatype DecodedField = DecodedField(name: Option<string>, value: Pattern)

  datatype Decoded = Decoded(form: Form, bits: Pattern, fields: seq<DecodedField>)

  function Decode(form: Form, x: Pattern): (d: Decoded)
    requires |x| == Total(form)
    ensures |d.fields| == |form.fields|
    ensures forall k | 0 <= k < |form.fields| ::
              d.fields[k] == DecodedField(form.fields[k].name, FieldValue(form, x, k))
  {
    Decoded(form, x, seq(|form.fields|, k requires 0 <= k < |form.fields| =>
      DecodedField(form.fields[k].name, FieldValue(form, x, k))))
  }

  /** The value of the first field with the name. */
  function Lookup(fields: seq<DecodedField>, name: string): Option<Pattern>
  {
    if fields == [] then None
    else if fields[0].name == Some(name) then Some(fields[0].value)
    else Lookup(fields[1..], name)
  }

  /** `None` is a panic: a bit index outside the word. */
  function Check(p: Predicate, d: Decoded): Option<bool>
    decreases p, 1
  {
    match p
    case Always => Some(true)
    case Never => Some(false)
    case All(predicates) => CheckAll(predicates, d)
    case BitEq(index, value) => if index < |d.bits| then Some(d.bits[index] == value) else None
    case FieldEq(field, value) => Some(Lookup(d.fields, field) == Some(value))
    case FieldIn(field, values) =>
      var v := Lookup(d.fields, field);
      Some(exists i :: 0 <= i < |values| && v.Some? && Covers(values[i], v.value))
  }

  function CheckAll(predicates: seq<Predicate>, d: Decoded): Option<bool>
    decreases predicates, 0
  {
    if predicates == [] then Some(true)
    else
      var first :- Check(predicates[0], d);
      if !first then Some(false) else CheckAll(predicates[1..], d)
  }

  /** Whether a field value is one of the allowed ones. */
  predicate UseAllows(uses: UseTable, name: string, value: Pattern)
  {
    name in uses &&
    match uses[name]
    case VariableUses(pattern, _) => pattern.Some? && Covers(pattern.value, value)
    case PatternUses(patterns, _) => exists p :: p in patterns && Covers(p, value)
  }

  /** A concrete decoded instruction is allowed: its form's predicate holds and so do its field values. */
  predicate ValidUnderUses(d: Decoded, uses: UseTable)
  {
    && Check(d.form.when, d) == Some(true)
    && AllUsesAllow(d, uses)
  }

  predicate AllUsesAllow(d: Decoded, uses: UseTable)
  {
    forall k | 0 <= k < |d.fields| && d.fields[k].name.Some? ::
      UseAllows(uses, d.fields[k].name.value, d.fields[k].value)
  }

  /** The same as a loop that stops at the first field that is not allowed. */
  method InstructionValid(d: Decoded, uses: UseTable) returns (valid: bool)
    requires forall k | 0 <= k < |d.fields| :: IsConcrete(d.fields[k].value)
    requires Check(d.form.when, d).Some?
    ensures valid <==> ValidUnderUses(d, uses)
  {
    if !Check(d.form.when, d).value { return false; }
    for k := 0 to |d.fields|
      invariant forall j | 0 <= j < k && d.fields[j].name.Some? ::
                  UseAllows(uses, d.fields[j].name.value, d.fields[j].value)
    {
      if d.fields[k].name.None? { continue; }
      var name := d.fields[k].name.value;
      if name !in uses { return false; }
      match uses[name] {
        case PatternUses(patterns, _) =>
          if !(exists p :: p in patterns && Covers(p, d.fields[k].value)) { return false; }
        case VariableUses(pattern, _) =>
          if pattern.None? { return false; }
          if !Covers(pattern.value, d.fields[k].value) { return false; }
      }
    }
    valid := true;
  }

  // ----- constraining one field's pattern -----

  /** What the predicate asks of one field: clauses about other fields ask nothing. */
  predicate Local(p: Predicate, y: Pattern, start: nat, name: string)
    decreases p
  {
    match p
    case Always => true
    case Never => false
    case All(predicates) => forall q | q in predicates :: Local(q, y, start, name)
    case BitEq(index, value) => start <= index < start + |y| ==> y[index - start] == value
    case FieldEq(field, value) => field == name ==> Covers(value, y)
    case FieldIn(field, values) => field == name ==> exists i :: 0 <= i < |values| && Covers(values[i], y)
  }

  ghost predicate AllOf(patterns: seq<Pattern>, w: nat)
  {
    forall i | 0 <= i < |patterns| :: |patterns[i]| == w
  }

  /** Some pattern of the list covers the word. */
  ghost predicate Listing(patterns: seq<Pattern>, y: Pattern)
  {
    exists i :: 0 <= i < |patterns| && Covers(patterns[i], y)
  }

  // ----- constrained patterns -----

  /** The pattern of the words that two patterns share. */
  function Meet(p: Pattern, value: Pattern): Option<Pattern>
  {
    if |p| != |value| || Disjoint(p, value) then None
    else Some(seq(|p|, i requires 0 <= i < |p| => if value[i] == Var then p[i] else value[i]))
  }

  function Elements(patterns: seq<Pattern>): set<Pattern>
  {
    set p | p in patterns
  }

  lemma ElementsConcat(a: seq<Pattern>, b: seq<Pattern>)
    ensures Elements(a + b) == Elements(a) + Elements(b)
  {
  }

  /** The meets of the patterns with a value. */
  function Meets(patterns: set<Pattern>, value: Pattern): set<Pattern>
  {
    set p | p in patterns && Meet(p, value).Some? :: Meet(p, value).value
  }

  /** The meets of the patterns with each of the values. */
  function MeetsAny(patterns: set<Pattern>, values: seq<Pattern>): set<Pattern>
  {
    if values == [] then {} else MeetsAny(patterns, values[..|values| - 1]) + Meets(patterns, values[|values| - 1])
  }

  /** The patterns that can have the bit, with the bit fixed. */
  function WithBit(patterns: set<Pattern>, index: nat, bit: Trit): set<Pattern>
  {
    set p | p in patterns && index < |p| && (p[index] == Var || p[index] == bit) :: p[index := bit]
  }

  /** What merging comes to. */
  ghost function MergeOf(patterns: set<Pattern>): set<Pattern>
  {
    if exists m :: MergesTo(patterns, m) then var m :| MergesTo(patterns, m); m else {}
  }

  lemma MergeIs(patterns: set<Pattern>, merged: set<Pattern>)
    requires MergesTo(patterns, merged)
    ensures MergeOf(patterns) == merged
  {
    hide MergesTo;
    MergesToOne(patterns, merged, MergeOf(patterns));
  }

  /** What constraining the patterns of a field comes to, clause by clause: no more is fixed than a clause asks for,
      and only the choices of a membership clause are merged. */
  ghost function ConstraintOf(
    p: Predicate, patterns: set<Pattern>, w: nat, start: nat, name: string): set<Pattern>
    decreases p, 1
  {
    match p
    case Always => patterns
    case Never => {}
    case All(predicates) => ConstraintsOf(predicates, patterns, w, start, name)
    case BitEq(index, bit) => if start <= index < start + w then WithBit(patterns, index - start, bit) else patterns
    case FieldEq(field, value) => if field == name then Meets(patterns, value) else patterns
    case FieldIn(field, values) => if field == name then MergeOf(MeetsAny(patterns, values)) else patterns
  }

  ghost function ConstraintsOf(
    predicates: seq<Predicate>, patterns: set<Pattern>, w: nat, start: nat, name: string): set<Pattern>
    decreases predicates, 0
  {
    if predicates == [] then patterns
    else
      var init, last := predicates[..|predicates| - 1], predicates[|predicates| - 1];
      ConstraintOf(last, ConstraintsOf(init, patterns, w, start, name), w, start, name)
  }

  lemma ConstraintsMore(
    predicates: seq<Predicate>, n: nat, patterns: set<Pattern>, w: nat, start: nat, name: string)
    requires n < |predicates|
    ensures ConstraintsOf(predicates[..n + 1], patterns, w, start, name)
         == ConstraintOf(predicates[n], ConstraintsOf(predicates[..n], patterns, w, start, name), w, start, name)
  {
    hide ConstraintOf;
    assert predicates[..n + 1][..n] == predicates[..n];
  }

  lemma NothingMerges()
    ensures MergeOf({}) == {}
  {
    assert RemoveSubsumed({}) == {};
    assert Merged({}) == {};
    assert Round({}) == {};
    RoundsStart({});
    assert MergesTo({}, {});
    MergeIs({}, {});
  }

  lemma {:induction false} NothingMeets(values: seq<Pattern>)
    ensures MeetsAny({}, values) == {}
  {
    if values != [] {
      NothingMeets(values[..|values| - 1]);
      assert Meets({}, values[|values| - 1]) == {};
    }
  }

  /** Nothing is constrained to nothing. */
  lemma {:induction false} NothingConstrained(p: Predicate, w: nat, start: nat, name: string)
    ensures ConstraintOf(p, {}, w, start, name) == {}
    decreases p, 1
  {
    match p
    case All(predicates) => NothingConstrainedAll(predicates, w, start, name);
    case BitEq(index, bit) => if index >= start { assert WithBit({}, index - start, bit) == {}; }
    case FieldEq(_, value) => assert Meets({}, value) == {};
    case FieldIn(_, values) =>
      NothingMeets(values);
      NothingMerges();
    case _ =>
  }

  lemma {:induction false} NothingConstrainedAll(predicates: seq<Predicate>, w: nat, start: nat, name: string)
    ensures ConstraintsOf(predicates, {}, w, start, name) == {}
    decreases predicates, 0
  {
    if predicates != [] {
      NothingConstrainedAll(predicates[..|predicates| - 1], w, start, name);
      NothingConstrained(predicates[|predicates| - 1], w, start, name);
    }
  }

  /** Once nothing is left, the remaining clauses leave nothing. */
  lemma {:induction false} NothingStays(
    predicates: seq<Predicate>, k: nat, n: nat, patterns: set<Pattern>, w: nat, start: nat, name: string)
    requires k <= n <= |predicates| && ConstraintsOf(predicates[..k], patterns, w, start, name) == {}
    ensures ConstraintsOf(predicates[..n], patterns, w, start, name) == {}
    decreases n
  {
    if k < n {
      NothingStays(predicates, k, n - 1, patterns, w, start, name);
      ConstraintsMore(predicates, n - 1, patterns, w, start, name);
      NothingConstrained(predicates[n - 1], w, start, name);
    }
  }

  /** The intersection of two patterns of one width, if they have a word in common. */
  method ConstrainPattern(p: Pattern, value: Pattern) returns (r: Option<Pattern>)
    ensures r == Meet(p, value)
    ensures r.None? ==> |p| != |value| || Disjoint(p, value)
    ensures r.Some? ==> |r.value| == |p| == |value|
    ensures r.Some? ==> forall y | IsConcrete(y) :: Covers(r.value, y) <==> Covers(p, y) && Covers(value, y)
  {
    if |p| != |value| { return None; }
    var c := p;
    for i := 0 to |p|
      invariant |c| == |p| && c[i..] == p[i..]
      invariant forall j | 0 <= j < i :: c[j] == if value[j] == Var then p[j] else value[j]
      invariant forall j | 0 <= j < i :: value[j] == Var || p[j] == Var || p[j] == value[j]
    {
      assert c[i] == c[i..][0] && p[i] == p[i..][0];
      if value[i] != Var {
        if c[i] == Var {
          c := c[i := value[i]];
        } else if c[i] != value[i] {
          assert p[i] != Var && value[i] != Var && p[i] != value[i];
          return None;
        }
      }
    }
    assert c == seq(|p|, i requires 0 <= i < |p| => if value[i] == Var then p[i] else value[i]);
    r := Some(c);
  }

  lemma NoCommonWord(p: Pattern, value: Pattern, y: Pattern)
    requires |p| != |value| || Disjoint(p, value)
    ensures !(IsConcrete(y) && Covers(p, y) && Covers(value, y))
  {
    if |p| == |value| { DisjointByWords(p, value); }
  }

  /** What a constraint step promises: the words listed before that satisfy `holds`. */
  ghost predicate Restricts(before: seq<Pattern>, after: seq<Pattern>, w: nat, p: Predicate, start: nat, name: string)
  {
    && AllOf(after, w)
    && forall y | IsConcrete(y) && |y| == w :: Listing(after, y) <==> Listing(before, y) && Local(p, y, start, name)
  }

  /** Intersects every pattern with a value and drops the empty results. */
  method ConstrainAll(patterns: seq<Pattern>, value: Pattern, w: nat) returns (r: seq<Pattern>)
    requires AllOf(patterns, w)
    ensures AllOf(r, w)
    ensures forall y | IsConcrete(y) && |y| == w :: Listing(r, y) <==> Listing(patterns, y) && Covers(value, y)
    ensures Elements(r) == Meets(Elements(patterns), value)
  {
    r := [];
    for i := 0 to |patterns|
      invariant AllOf(r, w)
      invariant Elements(r) == Meets(Elements(patterns[..i]), value)
      invariant forall y | IsConcrete(y) && |y| == w :: Listing(r, y) <==> Listing(patterns[..i], y) && Covers(value, y)
    {
      var c := ConstrainPattern(patterns[i], value);
      assert patterns[..i + 1] == patterns[..i] + [patterns[i]];
      ghost var before := r;
      if c.Some? { r := r + [c.value]; }
      MeetsMore(patterns[..i], patterns[i], value);
      if c.Some? { ElementsConcat(before, [c.value]); }
      forall y | IsConcrete(y) && |y| == w
        ensures Listing(r, y) <==> Listing(patterns[..i + 1], y) && Covers(value, y)
      {
        ListingAppend(patterns[..i], patterns[i], y);
        if c.Some? { ListingAppend(before, c.value, y); } else { NoCommonWord(patterns[i], value, y); }
      }
    }
    assert patterns[..|patterns|] == patterns;
  }

  lemma OneElement(p: Pattern)
    ensures Elements([p]) == {p}
  {
  }

  lemma MeetsMore(list: seq<Pattern>, p: Pattern, value: Pattern)
    ensures Meets(Elements(list + [p]), value)
         == Meets(Elements(list), value) + (if Meet(p, value).Some? then {Meet(p, value).value} else {})
  {
    hide Meet;
    ElementsConcat(list, [p]);
    OneElement(p);
    assert Elements(list + [p]) == Elements(list) + {p};
  }

  lemma ListingAppend(list: seq<Pattern>, p: Pattern, y: Pattern)
    ensures Listing(list + [p], y) <==> Listing(list, y) || Covers(p, y)
  {
    var longer := list + [p];
    if Listing(list, y) { var i :| 0 <= i < |list| && Covers(list[i], y); assert longer[i] == list[i]; }
    if Covers(p, y) { assert longer[|list|] == p; }
  }

  lemma ListingConcat(list: seq<Pattern>, more: seq<Pattern>, y: Pattern)
    ensures Listing(list + more, y) <==> Listing(list, y) || Listing(more, y)
  {
    var longer := list + more;
    if Listing(list, y) { var i :| 0 <= i < |list| && Covers(list[i], y); assert longer[i] == list[i]; }
    if Listing(more, y) { var i :| 0 <= i < |more| && Covers(more[i], y); assert longer[|list| + i] == more[i]; }
  }

  /** Fixes one bit, dropping patterns that have the other value there. */
  method ConstrainBit(patterns: seq<Pattern>, index: nat, value: Trit, w: nat) returns (r: seq<Pattern>)
    requires AllOf(patterns, w) && index < w && value != Var
    ensures AllOf(r, w)
    ensures forall y | IsConcrete(y) && |y| == w :: Listing(r, y) <==> Listing(patterns, y) && y[index] == value
    ensures Elements(r) == WithBit(Elements(patterns), index, value)
  {
    hide WithBit, Elements;
    NoBit(index, value);
    r := [];
    for i := 0 to |patterns|
      invariant AllOf(r, w)
      invariant Elements(r) == WithBit(Elements(patterns[..i]), index, value)
      invariant forall y | IsConcrete(y) && |y| == w ::
                  Listing(r, y) <==> Listing(patterns[..i], y) && y[index] == value
    {
      var p := patterns[i];
      assert patterns[..i + 1] == patterns[..i] + [p];
      ghost var before := r;
      if p[index] == Var {
        r := r + [p[index := value]];
      } else if p[index] == value {
        r := r + [p];
      }
      WithBitMore(patterns[..i], p, index, value);
      ElementsConcat(before, [p[index := value]]);
      OneElement(p[index := value]);
      BitStays(p, index, value);
      forall y | IsConcrete(y) && |y| == w
        ensures Listing(r, y) <==> Listing(patterns[..i + 1], y) && y[index] == value
      {
        ListingAppend(patterns[..i], p, y);
        ListingAppend(before, p[index := value], y);
        BitFixed(p, index, value, y);
      }
    }
    assert patterns[..|patterns|] == patterns;
  }

  lemma NoBit(index: nat, bit: Trit)
    ensures Elements([]) == {} && WithBit({}, index, bit) == {}
  {
  }

  lemma BitStays(p: Pattern, index: nat, value: Trit)
    requires index < |p|
    ensures p[index] == value ==> p[index := value] == p
  {
  }

  lemma WithBitMore(list: seq<Pattern>, p: Pattern, index: nat, bit: Trit)
    requires index < |p|
    ensures WithBit(Elements(list + [p]), index, bit)
         == WithBit(Elements(list), index, bit) + (if p[index] == Var || p[index] == bit then {p[index := bit]} else {})
  {
    ElementsConcat(list, [p]);
    OneElement(p);
    assert Elements(list + [p]) == Elements(list) + {p};
  }

  lemma BitFixed(p: Pattern, index: nat, value: Trit, y: Pattern)
    requires index < |p| == |y| && value != Var && IsConcrete(y)
    ensures p[index] == Var || p[index] == value
            ==> (Covers(p[index := value], y) <==> Covers(p, y) && y[index] == value)
    ensures p[index] == value ==> p[index := value] == p
    ensures p[index] != Var && p[index] != value ==> !(Covers(p, y) && y[index] == value)
  {
    var q := p[index := value];
    if Covers(q, y) { assert q[index] == y[index]; }
  }

  /** Intersects with each listed value in turn and merges what comes out. */
  method ConstrainIn(patterns: seq<Pattern>, values: seq<Pattern>, w: nat) returns (r: seq<Pattern>)
    requires AllOf(patterns, w)
    ensures AllOf(r, w)
    ensures forall y | IsConcrete(y) && |y| == w ::
      Listing(r, y) <==> Listing(patterns, y) && exists i :: 0 <= i < |values| && Covers(values[i], y)
    ensures Unmergeable(Elements(r)) && Elements(r) == MergeOf(MeetsAny(Elements(patterns), values))
  {
    hide MergeOf, Meets;
    var found: seq<Pattern> := [];
    assert Elements(found) == {};
    for k := 0 to |values|
      invariant AllOf(found, w)
      invariant Elements(found) == MeetsAny(Elements(patterns), values[..k])
      invariant forall y | IsConcrete(y) && |y| == w ::
        Listing(found, y) <==> Listing(patterns, y) && exists i :: 0 <= i < k && Covers(values[i], y)
    {
      var more := ConstrainAll(patterns, values[k], w);
      forall y | IsConcrete(y) && |y| == w
        ensures Listing(found + more, y) <==> Listing(patterns, y) && exists i :: 0 <= i < k + 1 && Covers(values[i], y)
      {
        ListingConcat(found, more, y);
      }
      ElementsConcat(found, more);
      assert values[..k + 1][..k] == values[..k];
      found := found + more;
    }
    assert values[..|values|] == values;
    var all := Elements(found);
    var merged := MergePatterns(all, w);
    r := Listed(merged);
    MergeIs(all, merged);
    assert Elements(r) == merged;
    forall y | IsConcrete(y) && |y| == w ensures Listing(r, y) <==> Listing(found, y) {
      assert Denotes(merged, y) <==> Denotes(all, y);
      if Denotes(merged, y) {
        var p :| p in merged && Covers(p, y);
        var i :| 0 <= i < |r| && r[i] == p;
      }
      if Listing(r, y) { var i :| 0 <= i < |r| && Covers(r[i], y); assert r[i] in merged; }
      if Listing(found, y) { var i :| 0 <= i < |found| && Covers(found[i], y); assert found[i] in all; }
    }
    forall i | 0 <= i < |r| ensures |r[i]| == w { assert r[i] in merged; }
  }

  /** Values compared with bits are low or high. */
  predicate BitsConcrete(p: Predicate)
    decreases p
  {
    match p
    case All(predicates) => forall q | q in predicates :: BitsConcrete(q)
    case BitEq(_, value) => value != Var
    case _ => true
  }

  /** Restricts a field's patterns to what the predicate asks of that field. */
  method ApplyConstraints(
    p: Predicate, patterns: seq<Pattern>, w: nat, start: nat, name: string) returns (r: seq<Pattern>)
    requires AllOf(patterns, w) && BitsConcrete(p)
    ensures Restricts(patterns, r, w, p, start, name)
    ensures Elements(r) == ConstraintOf(p, Elements(patterns), w, start, name)
    decreases p
  {
    hide Meets, MeetsAny, WithBit, MergeOf;
    match p {
      case Always => r := patterns;
      case Never => r := [];
      case All(predicates) =>
        r := patterns;
        for k := 0 to |predicates|
          invariant AllOf(r, w)
          invariant Elements(r) == ConstraintsOf(predicates[..k], Elements(patterns), w, start, name)
          invariant forall y | IsConcrete(y) && |y| == w ::
            Listing(r, y) <==> Listing(patterns, y) && forall j | 0 <= j < k :: Local(predicates[j], y, start, name)
        {
          r := ApplyConstraints(predicates[k], r, w, start, name);
          ConstraintsMore(predicates, k, Elements(patterns), w, start, name);
          if r == [] {
            NothingLeft(patterns, predicates, k, w, start, name);
            NothingStays(predicates, k + 1, |predicates|, Elements(patterns), w, start, name);
            assert predicates[..|predicates|] == predicates;
            return;
          }
        }
        EveryClause(patterns, r, predicates, w, start, name);
        assert predicates[..|predicates|] == predicates;
      case FieldEq(field, value) =>
        if field == name { r := ConstrainAll(patterns, value, w); } else { r := patterns; }
      case BitEq(index, value) =>
        if index < start || index >= start + w || patterns == [] {
          NothingConstrained(p, w, start, name);
          assert patterns == [] ==> Elements(patterns) == {};
          r := patterns;
        } else {
          r := ConstrainBit(patterns, index - start, value, w);
        }
      case FieldIn(field, values) =>
        if field == name { r := ConstrainIn(patterns, values, w); } else { r := patterns; }
    }
  }

  lemma EveryClause(
    patterns: seq<Pattern>, r: seq<Pattern>, predicates: seq<Predicate>, w: nat, start: nat, name: string)
    requires AllOf(r, w)
    requires forall y | IsConcrete(y) && |y| == w ::
      Listing(r, y) <==>
        Listing(patterns, y) && forall j | 0 <= j < |predicates| :: Local(predicates[j], y, start, name)
    ensures Restricts(patterns, r, w, All(predicates), start, name)
  {
    forall y | IsConcrete(y) && |y| == w
      ensures Listing(r, y) <==> Listing(patterns, y) && Local(All(predicates), y, start, name)
    {
      LocalAll(predicates, y, start, name);
    }
  }

  lemma LocalAll(predicates: seq<Predicate>, y: Pattern, start: nat, name: string)
    ensures Local(All(predicates), y, start, name)
            <==> forall j | 0 <= j < |predicates| :: Local(predicates[j], y, start, name)
  {
    if Local(All(predicates), y, start, name) {
      forall j | 0 <= j < |predicates| ensures Local(predicates[j], y, start, name) {
        assert predicates[j] in predicates;
      }
    }
  }

  lemma NothingLeft(patterns: seq<Pattern>, predicates: seq<Predicate>, k: nat, w: nat, start: nat, name: string)
    requires k < |predicates|
    requires forall y | IsConcrete(y) && |y| == w ::
      Listing([], y) <==> Listing(patterns, y) && forall j | 0 <= j < k + 1 :: Local(predicates[j], y, start, name)
    ensures Restricts(patterns, [], w, All(predicates), start, name)
  {
    forall y | IsConcrete(y) && |y| == w
      ensures Listing([], y) <==> Listing(patterns, y) && Local(All(predicates), y, start, name)
    {
      LocalAll(predicates, y, start, name);
    }
  }

  // ----- expanding a form -----

  /** What the expansion demands: constant fields are concrete, and every use fits its field. */
  ghost predicate UsesFit(form: Form, uses: UseTable)
  {
    && BitsConcrete(form.when)
    && forall k | 0 <= k < |form.fields| :: FieldFits(form.fields[k], uses)
  }

  ghost predicate FieldFits(f: Field, uses: UseTable)
  {
    match f.name
    case None => IsConcrete(f.pattern) && f.mode == ByVariableBits
    case Some(name) =>
      name in uses ==>
        match uses[name]
        case VariableUses(pattern, len) => f.mode == ByVariableBits && len == Width(f)
                                           && (pattern.Some? ==> |pattern.value| == len)
        case PatternUses(patterns, len) => f.mode == ByUses && len == Width(f) && AllWide(patterns, len)
  }

  /** A field's part of a word is allowed by its use, or is the constant. */
  ghost predicate FieldAllows(f: Field, uses: UseTable, y: Pattern)
  {
    if f.name.None? then Covers(f.pattern, y) else UseAllows(uses, f.name.value, y)
  }

  ghost predicate SliceOk(form: Form, uses: UseTable, x: Pattern, k: nat)
    requires |x| == Total(form) && k < |form.fields|
  {
    var y := FieldValue(form, x, k);
    FieldAllows(form.fields[k], uses, y) && Local(form.when, y, Start(form.fields, k), NameOf(form.fields[k]))
  }

  /** Fields `k` and later are allowed and meet the predicate. */
  ghost predicate LaterOk(form: Form, uses: UseTable, x: Pattern, k: nat)
    requires |x| == Total(form) && k <= |form.fields|
    decreases |form.fields| - k
  {
    k == |form.fields| || (SliceOk(form, uses, x, k) && LaterOk(form, uses, x, k + 1))
  }

  lemma {:induction false} LaterOkIsAll(form: Form, uses: UseTable, x: Pattern, k: nat)
    requires |x| == Total(form) && k <= |form.fields|
    ensures LaterOk(form, uses, x, k) <==> forall j | k <= j < |form.fields| :: SliceOk(form, uses, x, j)
    decreases |form.fields| - k
  {
    if k < |form.fields| { LaterOkIsAll(form, uses, x, k + 1); }
  }

  /** The word continues the encoding built so far with allowed fields. */
  ghost predicate Continues(form: Form, uses: UseTable, current: Pattern, k: nat, x: Pattern)
    requires |x| == Total(form) && k <= |form.fields| && |current| == Start(form.fields, k)
  {
    StartMono(form.fields, k, |form.fields|);
    Covers(current, x[..|current|]) && LaterOk(form, uses, x, k)
  }

  lemma CoversConcat(p: Pattern, q: Pattern, x: Pattern, y: Pattern)
    requires |p| == |x| && |q| == |y|
    ensures Covers(p + q, x + y) <==> Covers(p, x) && Covers(q, y)
  {
    var r, z := p + q, x + y;
    if Covers(r, z) {
      forall i | 0 <= i < |p| ensures p[i] == Var || p[i] == x[i] { assert r[i] == p[i] && z[i] == x[i]; }
      forall i | 0 <= i < |q| ensures q[i] == Var || q[i] == y[i] { assert r[|p| + i] == q[i] && z[|p| + i] == y[i]; }
    }
  }

  lemma PrefixWithField(form: Form, k: nat, x: Pattern)
    requires |x| == Total(form) && k < |form.fields|
    ensures Start(form.fields, k) <= Start(form.fields, k + 1) <= |x|
    ensures x[..Start(form.fields, k + 1)] == x[..Start(form.fields, k)] + FieldValue(form, x, k)
  {
    StartMono(form.fields, k + 1, |form.fields|);
  }

  /** The encodings added cover exactly the words that continue the current prefix. */
  ghost predicate Expands(form: Form, uses: UseTable, current: Pattern, k: nat, added: seq<Pattern>)
    requires k <= |form.fields| && |current| == Start(form.fields, k)
  {
    && AllOf(added, Total(form))
    && forall x | IsConcrete(x) && |x| == Total(form) :: Listing(added, x) <==> Continues(form, uses, current, k, x)
  }

  /** The word continues the prefix with `c` for field `k`. */
  ghost predicate ContinuesWith(form: Form, uses: UseTable, current: Pattern, k: nat, c: Pattern, x: Pattern)
    requires k < |form.fields| && |current| == Start(form.fields, k) && |c| == Width(form.fields[k])
             && |x| == Total(form)
  {
    Continues(form, uses, current + c, k + 1, x)
  }

  /** Continuing past field `k` with pattern `c`: the prefix still fits, `c` covers the field's value and
      the later fields are allowed. */
  lemma ContinuesStep(form: Form, uses: UseTable, current: Pattern, c: Pattern, k: nat, x: Pattern)
    requires |x| == Total(form) && k < |form.fields| && |current| == Start(form.fields, k)
             && |c| == Width(form.fields[k])
    ensures |current| <= |x|
    ensures ContinuesWith(form, uses, current, k, c, x) <==>
      Covers(current, x[..|current|]) && Covers(c, FieldValue(form, x, k)) && LaterOk(form, uses, x, k + 1)
  {
    PrefixWithField(form, k, x);
    CoversConcat(current, c, x[..|current|], FieldValue(form, x, k));
  }

  /** The word continues the prefix through some pattern of a list for field `k`. */
  ghost predicate Through(form: Form, uses: UseTable, current: Pattern, k: nat, patterns: seq<Pattern>, x: Pattern)
    requires k < |form.fields| && |current| == Start(form.fields, k) && AllOf(patterns, Width(form.fields[k]))
    requires |x| == Total(form)
  {
    exists i :: 0 <= i < |patterns| && ContinuesWith(form, uses, current, k, patterns[i], x)
  }

  ghost predicate ExpandsThrough(
    form: Form, uses: UseTable, current: Pattern, k: nat, patterns: seq<Pattern>, added: seq<Pattern>)
    requires k < |form.fields| && |current| == Start(form.fields, k) && AllOf(patterns, Width(form.fields[k]))
  {
    && AllOf(added, Total(form))
    && forall x | IsConcrete(x) && |x| == Total(form) ::
         Listing(added, x) <==> Through(form, uses, current, k, patterns, x)
  }

  lemma ThroughAppend(
    form: Form, uses: UseTable, current: Pattern, k: nat, patterns: seq<Pattern>, p: Pattern, x: Pattern)
    requires k < |form.fields| && |current| == Start(form.fields, k) && |x| == Total(form)
    requires AllOf(patterns, Width(form.fields[k])) && |p| == Width(form.fields[k])
    ensures Through(form, uses, current, k, patterns + [p], x)
      <==> Through(form, uses, current, k, patterns, x) || ContinuesWith(form, uses, current, k, p, x)
  {
    var longer := patterns + [p];
    if Through(form, uses, current, k, patterns, x) {
      var i :| 0 <= i < |patterns| && ContinuesWith(form, uses, current, k, patterns[i], x);
      assert longer[i] == patterns[i];
    }
    assert longer[|patterns|] == p;
  }

  lemma ThroughOneMore(
    form: Form, uses: UseTable, current: Pattern, k: nat, patterns: seq<Pattern>, p: Pattern, added: seq<Pattern>,
    more: seq<Pattern>)
    requires k < |form.fields| && |current| == Start(form.fields, k)
    requires AllOf(patterns, Width(form.fields[k])) && |p| == Width(form.fields[k])
    requires ExpandsThrough(form, uses, current, k, patterns, added)
    requires Expands(form, uses, current + p, k + 1, more)
    ensures ExpandsThrough(form, uses, current, k, patterns + [p], added + more)
  {
    hide Listing, Through, Continues, Start;
    StartNext(form.fields, k);
    forall x | IsConcrete(x) && |x| == Total(form)
      ensures Listing(added + more, x) <==> Through(form, uses, current, k, patterns + [p], x)
    {
      ListingConcat(added, more, x);
      ThroughAppend(form, uses, current, k, patterns, p, x);
      assert ContinuesWith(form, uses, current, k, p, x) <==> Continues(form, uses, current + p, k + 1, x);
    }
  }

  /** The list covers exactly the values of field `k` that are allowed and meet the predicate. */
  ghost predicate ListsField(form: Form, uses: UseTable, k: nat, patterns: seq<Pattern>)
    requires k < |form.fields|
  {
    forall y | IsConcrete(y) && |y| == Width(form.fields[k]) :: Listing(patterns, y) <==>
      FieldAllows(form.fields[k], uses, y) && Local(form.when, y, Start(form.fields, k), NameOf(form.fields[k]))
  }

  /** Going through such a list expands the field. */
  lemma ThroughIsExpanded(
    form: Form, uses: UseTable, current: Pattern, k: nat, patterns: seq<Pattern>, added: seq<Pattern>)
    requires k < |form.fields| && |current| == Start(form.fields, k) && AllOf(patterns, Width(form.fields[k]))
    requires ExpandsThrough(form, uses, current, k, patterns, added) && ListsField(form, uses, k, patterns)
    ensures Expands(form, uses, current, k, added)
  {
    forall x | IsConcrete(x) && |x| == Total(form) ensures Listing(added, x) <==> Continues(form, uses, current, k, x) {
      ThroughContinues(form, uses, current, k, patterns, x);
    }
  }

  lemma ThroughContinues(form: Form, uses: UseTable, current: Pattern, k: nat, patterns: seq<Pattern>, x: Pattern)
    requires k < |form.fields| && |current| == Start(form.fields, k) && AllOf(patterns, Width(form.fields[k]))
    requires ListsField(form, uses, k, patterns) && IsConcrete(x) && |x| == Total(form)
    ensures Through(form, uses, current, k, patterns, x) <==> Continues(form, uses, current, k, x)
  {
    var y := FieldValue(form, x, k);
    PrefixWithField(form, k, x);
    assert IsConcrete(y);
    assert Listing(patterns, y) <==> SliceOk(form, uses, x, k);
    if Through(form, uses, current, k, patterns, x) {
      var i :| 0 <= i < |patterns| && ContinuesWith(form, uses, current, k, patterns[i], x);
      ContinuesStep(form, uses, current, patterns[i], k, x);
    }
    if Continues(form, uses, current, k, x) {
      assert SliceOk(form, uses, x, k);
      var i :| 0 <= i < |patterns| && Covers(patterns[i], y);
      ContinuesStep(form, uses, current, patterns[i], k, x);
    }
  }

  lemma NothingExpanded(form: Form, uses: UseTable, current: Pattern, k: nat)
    requires k < |form.fields| && |current| == Start(form.fields, k)
    requires form.fields[k].name.Some?
    requires var name := form.fields[k].name.value;
      name !in uses || (uses[name].VariableUses? && uses[name].pattern.None?)
    ensures Expands(form, uses, current, k, [])
  {
    forall x | IsConcrete(x) && |x| == Total(form) ensures !Continues(form, uses, current, k, x) {
      assert !FieldAllows(form.fields[k], uses, FieldValue(form, x, k));
      assert !SliceOk(form, uses, x, k);
    }
  }

  // ----- which encodings there are -----

  /** The patterns that a field may have: the constant, or those of its use. */
  ghost predicate FieldListed(f: Field, uses: UseTable, p: Pattern)
  {
    match f.name
    case None => p == f.pattern
    case Some(name) =>
      && name in uses
      && match uses[name]
         case VariableUses(pattern, _) => pattern == Some(p)
         case PatternUses(patterns, _) => p in patterns
  }

  /** What constraining one pattern of field `k` comes to. */
  ghost function FieldConstraint(form: Form, k: nat, p: Pattern): set<Pattern>
    requires k < |form.fields|
  {
    ConstraintOf(form.when, {p}, Width(form.fields[k]), Start(form.fields, k), NameOf(form.fields[k]))
  }

  ghost predicate FieldChoice(form: Form, uses: UseTable, k: nat, c: Pattern)
    requires k < |form.fields|
  {
    exists p :: FieldListed(form.fields[k], uses, p) && c in FieldConstraint(form, k, p)
  }

  /** The encoding continues the prefix with one choice for each later field. */
  ghost predicate Product(form: Form, uses: UseTable, current: Pattern, k: nat, e: Pattern)
    requires k <= |form.fields| && |current| == Start(form.fields, k)
  {
    && |e| == Total(form) && current <= e
    && forall j | k <= j < |form.fields| :: FieldChoice(form, uses, j, FieldValue(form, e, j))
  }

  ghost predicate Products(form: Form, uses: UseTable, current: Pattern, k: nat, added: seq<Pattern>)
    requires k <= |form.fields| && |current| == Start(form.fields, k)
  {
    forall e :: e in added <==> Product(form, uses, current, k, e)
  }

  /** The encoding continues the prefix through one of the listed choices for field `k`. */
  ghost predicate ProductVia(form: Form, uses: UseTable, current: Pattern, k: nat, choices: seq<Pattern>, e: Pattern)
    requires k < |form.fields| && |current| == Start(form.fields, k) && AllOf(choices, Width(form.fields[k]))
  {
    exists i :: 0 <= i < |choices| && Product(form, uses, current + choices[i], k + 1, e)
  }

  ghost predicate ProductsVia(
    form: Form, uses: UseTable, current: Pattern, k: nat, choices: seq<Pattern>, added: seq<Pattern>)
    requires k < |form.fields| && |current| == Start(form.fields, k) && AllOf(choices, Width(form.fields[k]))
  {
    forall e :: e in added <==> ProductVia(form, uses, current, k, choices, e)
  }

  lemma ViaOneMore(
    form: Form, uses: UseTable, current: Pattern, k: nat, choices: seq<Pattern>, c: Pattern, added: seq<Pattern>,
    more: seq<Pattern>)
    requires k < |form.fields| && |current| == Start(form.fields, k)
    requires AllOf(choices, Width(form.fields[k])) && |c| == Width(form.fields[k])
    requires ProductsVia(form, uses, current, k, choices, added) && Products(form, uses, current + c, k + 1, more)
    ensures ProductsVia(form, uses, current, k, choices + [c], added + more)
  {
    hide Product, ProductVia;
    forall e ensures e in added + more <==> ProductVia(form, uses, current, k, choices + [c], e) {
      assert e in added + more <==> e in added || e in more;
      ViaAppend(form, uses, current, k, choices, c, e);
    }
  }

  lemma ViaAppend(form: Form, uses: UseTable, current: Pattern, k: nat, choices: seq<Pattern>, c: Pattern, e: Pattern)
    requires k < |form.fields| && |current| == Start(form.fields, k)
    requires AllOf(choices, Width(form.fields[k])) && |c| == Width(form.fields[k])
    ensures ProductVia(form, uses, current, k, choices + [c], e)
            <==> ProductVia(form, uses, current, k, choices, e) || Product(form, uses, current + c, k + 1, e)
  {
    hide Product, Start, Width;
    StartNext(form.fields, k);
    var all := choices + [c];
    if ProductVia(form, uses, current, k, choices, e) {
      var i :| 0 <= i < |choices| && Product(form, uses, current + choices[i], k + 1, e);
      assert all[i] == choices[i];
    }
    assert all[|choices|] == c;
  }

  lemma PrefixOfField(form: Form, current: Pattern, k: nat, c: Pattern, e: Pattern)
    requires k < |form.fields| && |current| == Start(form.fields, k) && |c| == Width(form.fields[k])
    requires |e| == Total(form)
    ensures current + c <= e <==> current <= e && c == FieldValue(form, e, k)
  {
    PrefixWithField(form, k, e);
    var at, end := Start(form.fields, k), Start(form.fields, k + 1);
    assert current <= e <==> e[..at] == current;
    assert current + c <= e <==> e[..end] == current + c;
    if e[..at] + FieldValue(form, e, k) == current + c {
      assert e[..at] == (e[..at] + FieldValue(form, e, k))[..at] == (current + c)[..at] == current;
      assert FieldValue(form, e, k) == (e[..at] + FieldValue(form, e, k))[at..] == (current + c)[at..] == c;
    }
  }

  /** Continuing through a choice for field `k` that the encoding has. */
  lemma ProductStep(form: Form, uses: UseTable, current: Pattern, k: nat, c: Pattern, e: Pattern)
    requires k < |form.fields| && |current| == Start(form.fields, k) && |c| == Width(form.fields[k])
    requires |e| == Total(form)
    ensures Product(form, uses, current + c, k + 1, e) && FieldChoice(form, uses, k, c) ==>
              Product(form, uses, current, k, e)
    ensures Product(form, uses, current, k, e) && c == FieldValue(form, e, k) ==>
              Product(form, uses, current + c, k + 1, e)
  {
    hide FieldChoice, FieldValue;
    PrefixOfField(form, current, k, c, e);
  }

  lemma ProductHasWidth(form: Form, uses: UseTable, current: Pattern, k: nat, e: Pattern)
    requires k <= |form.fields| && |current| == Start(form.fields, k)
    ensures Product(form, uses, current, k, e) ==> |e| == Total(form)
  {
  }

  /** Going through exactly the choices for field `k` gives exactly the products. */
  lemma ViaIsProducts(
    form: Form, uses: UseTable, current: Pattern, k: nat, choices: seq<Pattern>, added: seq<Pattern>)
    requires k < |form.fields| && |current| == Start(form.fields, k) && AllOf(choices, Width(form.fields[k]))
    requires ProductsVia(form, uses, current, k, choices, added)
    requires forall c :: c in choices <==> FieldChoice(form, uses, k, c)
    ensures Products(form, uses, current, k, added)
  {
    hide Product, ProductVia, FieldChoice;
    forall e ensures e in added <==> Product(form, uses, current, k, e) {
      ViaIsProduct(form, uses, current, k, choices, e);
    }
  }

  lemma ViaIsProduct(form: Form, uses: UseTable, current: Pattern, k: nat, choices: seq<Pattern>, e: Pattern)
    requires k < |form.fields| && |current| == Start(form.fields, k) && AllOf(choices, Width(form.fields[k]))
    requires forall c :: c in choices <==> FieldChoice(form, uses, k, c)
    ensures ProductVia(form, uses, current, k, choices, e) <==> Product(form, uses, current, k, e)
  {
    hide Product, FieldChoice, FieldValue, Start;
    StartNext(form.fields, k);
    if ProductVia(form, uses, current, k, choices, e) {
      var i :| 0 <= i < |choices| && Product(form, uses, current + choices[i], k + 1, e);
      assert choices[i] in choices;
      ProductHasWidth(form, uses, current + choices[i], k + 1, e);
      ProductStep(form, uses, current, k, choices[i], e);
    }
    if Product(form, uses, current, k, e) { ProductGoesVia(form, uses, current, k, choices, e); }
  }

  lemma ProductGoesVia(form: Form, uses: UseTable, current: Pattern, k: nat, choices: seq<Pattern>, e: Pattern)
    requires k < |form.fields| && |current| == Start(form.fields, k) && AllOf(choices, Width(form.fields[k]))
    requires forall c :: FieldChoice(form, uses, k, c) ==> c in choices
    requires Product(form, uses, current, k, e)
    ensures ProductVia(form, uses, current, k, choices, e)
  {
    hide Product, FieldChoice, FieldValue, Start;
    StartNext(form.fields, k);
    ProductHasWidth(form, uses, current, k, e);
    var c := FieldValue(form, e, k);
    ProductStep(form, uses, current, k, c, e);
    ProductHasChoice(form, uses, current, k, e);
    var i :| 0 <= i < |choices| && choices[i] == c;
    assert Product(form, uses, current + choices[i], k + 1, e);
  }

  lemma ProductHasChoice(form: Form, uses: UseTable, current: Pattern, k: nat, e: Pattern)
    requires k < |form.fields| && |current| == Start(form.fields, k) && Product(form, uses, current, k, e)
    ensures FieldChoice(form, uses, k, FieldValue(form, e, k))
  {
  }

  /** The constraints of the first patterns of a field. */
  ghost predicate ChoicesOf(form: Form, k: nat, patterns: seq<Pattern>, choices: seq<Pattern>)
    requires k < |form.fields|
  {
    forall c :: c in choices <==> exists i :: 0 <= i < |patterns| && c in FieldConstraint(form, k, patterns[i])
  }

  lemma OneMoreChoice(
    form: Form, k: nat, patterns: seq<Pattern>, i: nat, choices: seq<Pattern>, constrained: seq<Pattern>)
    requires k < |form.fields| && i < |patterns| && ChoicesOf(form, k, patterns[..i], choices)
    requires Elements(constrained) == FieldConstraint(form, k, patterns[i])
    ensures ChoicesOf(form, k, patterns[..i + 1], choices + constrained)
  {
    hide FieldConstraint;
    var longer := patterns[..i + 1];
    forall c
      ensures c in choices + constrained
              <==> exists j :: 0 <= j < |longer| && c in FieldConstraint(form, k, longer[j])
    {
      assert c in choices + constrained <==> c in choices || c in constrained;
      assert c in constrained <==> c in Elements(constrained);
      assert longer[i] == patterns[i];
      if j :| 0 <= j < i && c in FieldConstraint(form, k, patterns[..i][j]) { assert longer[j] == patterns[..i][j]; }
      if j :| 0 <= j < |longer| && c in FieldConstraint(form, k, longer[j]) {
        if j < i { assert longer[j] == patterns[..i][j]; }
      }
    }
  }

  lemma AllChoices(form: Form, uses: UseTable, k: nat, patterns: seq<Pattern>, choices: seq<Pattern>)
    requires k < |form.fields| && ChoicesOf(form, k, patterns, choices)
    requires forall p :: p in patterns <==> FieldListed(form.fields[k], uses, p)
    ensures forall c :: c in choices <==> FieldChoice(form, uses, k, c)
  {
    hide FieldConstraint, FieldListed;
    forall c ensures c in choices <==> FieldChoice(form, uses, k, c) {
      if i :| 0 <= i < |patterns| && c in FieldConstraint(form, k, patterns[i]) { assert patterns[i] in patterns; }
      if p :| FieldListed(form.fields[k], uses, p) && c in FieldConstraint(form, k, p) {
        var i :| 0 <= i < |patterns| && patterns[i] == p;
      }
    }
  }

  /** Where a field has no pattern there is no product. */
  lemma NoProduct(form: Form, uses: UseTable, current: Pattern, k: nat)
    requires k < |form.fields| && |current| == Start(form.fields, k)
    requires forall p :: !FieldListed(form.fields[k], uses, p)
    ensures Products(form, uses, current, k, [])
  {
    hide FieldListed;
    forall e ensures !Product(form, uses, current, k, e) {
      if |e| == Total(form) { assert !FieldChoice(form, uses, k, FieldValue(form, e, k)); }
    }
  }

  /** Without a predicate the choices for a field are its patterns, and nothing is expanded. */
  lemma UnconstrainedChoices(form: Form, uses: UseTable, k: nat, c: Pattern)
    requires k < |form.fields| && form.when.Always?
    ensures FieldChoice(form, uses, k, c) <==> FieldListed(form.fields[k], uses, c)
  {
    hide FieldListed;
    if FieldListed(form.fields[k], uses, c) { assert c in FieldConstraint(form, k, c); }
  }

  /** The recursive walk over the fields, with the encoding under construction and the results as state. */
  class Encoder {
    const form: Form
    const uses: UseTable
    var current: Pattern
    var encodings: seq<Pattern>

    constructor (form: Form, uses: UseTable)
      ensures this.form == form && this.uses == uses && current == [] && encodings == []
    {
      this.form, this.uses, this.current, this.encodings := form, uses, [], [];
    }

    /** Expands field `k` and all later ones. */
    method Expand(k: nat)
      requires k <= |form.fields| && |current| == Start(form.fields, k) && UsesFit(form, uses)
      modifies this
      ensures current == old(current) && old(encodings) <= encodings
      ensures Expands(form, uses, current, k, encodings[|old(encodings)|..])
      ensures Products(form, uses, current, k, encodings[|old(encodings)|..])
      decreases |form.fields| - k, 1
    {
      hide Products, Product;
      if k == |form.fields| {
        encodings := encodings + [current];
        LastField();
        assert encodings[|old(encodings)|..] == [current];
        return;
      }
      var field := form.fields[k];
      assert FieldFits(field, uses);
      if field.name.Some? && field.name.value !in uses {
        NothingExpanded(form, uses, current, k);
        NoProduct(form, uses, current, k);
        assert encodings[|old(encodings)|..] == [];
        return;
      }
      if field.name.None? {
        OnePattern(field.pattern);
        ExpandPatterns(k, [field.pattern]);
        return;
      }
      match uses[field.name.value] {
        case VariableUses(pattern, _) =>
          if pattern.None? {
            NothingExpanded(form, uses, current, k);
            NoProduct(form, uses, current, k);
            assert encodings[|old(encodings)|..] == [];
            return;
          }
          OnePattern(pattern.value);
          ExpandPatterns(k, [pattern.value]);
        case PatternUses(patterns, _) =>
          var list := Listed(patterns);
          forall y ensures Listing(list, y) <==> exists p :: p in patterns && Covers(p, y) {
            ListedSet(list, patterns, y);
          }
          forall i | 0 <= i < |list| ensures |list[i]| == Width(field) { assert list[i] in patterns; }
          ExpandPatterns(k, list);
      }
    }

    lemma LastField()
      requires |current| == Start(form.fields, |form.fields|)
      ensures Expands(form, uses, current, |form.fields|, [current])
      ensures Products(form, uses, current, |form.fields|, [current])
    {
      forall e ensures e in [current] <==> Product(form, uses, current, |form.fields|, e) {
        if current <= e && |e| == |current| { assert e == e[..|current|] == current; }
      }
      forall x | IsConcrete(x) && |x| == Total(form)
        ensures Listing([current], x) <==> Continues(form, uses, current, |form.fields|, x)
      {
        assert x[..|current|] == x && [current][0] == current;
      }
    }

    /** Expands field `k` through each of its allowed patterns in turn. */
    method ExpandPatterns(k: nat, patterns: seq<Pattern>)
      requires k < |form.fields| && |current| == Start(form.fields, k) && UsesFit(form, uses)
      requires AllOf(patterns, Width(form.fields[k]))
      requires forall y | IsConcrete(y) && |y| == Width(form.fields[k]) ::
        Listing(patterns, y) <==> FieldAllows(form.fields[k], uses, y)
      requires forall p :: p in patterns <==> FieldListed(form.fields[k], uses, p)
      modifies this
      ensures current == old(current) && old(encodings) <= encodings
      ensures Expands(form, uses, current, k, encodings[|old(encodings)|..])
      ensures Products(form, uses, current, k, encodings[|old(encodings)|..])
      decreases |form.fields| - k, 0
    {
      hide Products, ProductVia, FieldListed, FieldConstraint, ConstraintOf;
      var field := form.fields[k];
      ghost var all: seq<Pattern> := [];
      ghost var before := |encodings|;
      assert encodings[before..] == [];
      assert ProductsVia(form, uses, current, k, all, []) by { NothingVia(form, uses, current, k); }
      for i := 0 to |patterns|
        invariant current == old(current) && old(encodings) <= encodings && before == |old(encodings)|
        invariant AllOf(all, Width(field)) && Constrained(form, k, patterns[..i], all)
        invariant ExpandsThrough(form, uses, current, k, all, encodings[before..])
        invariant ChoicesOf(form, k, patterns[..i], all)
        invariant ProductsVia(form, uses, current, k, all, encodings[before..])
      {
        var constrained := ApplyConstraints(form.when, [patterns[i]], Width(field), |current|, NameOf(field));
        OneMoreConstrained(form, k, patterns, i, all, constrained);
        ConstrainedField(form, k, patterns[i], constrained);
        OneMoreChoice(form, k, patterns, i, all, constrained);
        all := ExpandConstrained(k, constrained, all, before);
      }
      assert patterns[..|patterns|] == patterns;
      ThroughIsExpanded(form, uses, current, k, all, encodings[before..]);
      AllChoices(form, uses, k, patterns, all);
      ViaIsProducts(form, uses, current, k, all, encodings[before..]);
    }

    /** Appends each constrained pattern, walks the later fields and takes the pattern off again. */
    method ExpandConstrained(k: nat, constrained: seq<Pattern>, ghost done: seq<Pattern>, ghost before: nat)
      returns (ghost all: seq<Pattern>)
      requires k < |form.fields| && |current| == Start(form.fields, k) && UsesFit(form, uses)
      requires AllOf(constrained, Width(form.fields[k])) && AllOf(done, Width(form.fields[k]))
      requires before <= |encodings| && ExpandsThrough(form, uses, current, k, done, encodings[before..])
      requires ProductsVia(form, uses, current, k, done, encodings[before..])
      modifies this
      ensures current == old(current) && old(encodings) <= encodings
      ensures all == done + constrained && AllOf(all, Width(form.fields[k]))
      ensures ExpandsThrough(form, uses, current, k, all, encodings[before..])
      ensures ProductsVia(form, uses, current, k, all, encodings[before..])
      decreases |form.fields| - k - 1, 3
    {
      hide ProductsVia, ExpandsThrough;
      all := done;
      assert constrained[..0] == [];
      for i := 0 to |constrained|
        invariant current == old(current) && old(encodings) <= encodings
        invariant all == done + constrained[..i] && AllOf(all, Width(form.fields[k]))
        invariant ExpandsThrough(form, uses, current, k, all, encodings[before..])
        invariant ProductsVia(form, uses, current, k, all, encodings[before..])
      {
        all := ExpandOne(k, constrained[i], all, before);
        assert constrained[..i + 1] == constrained[..i] + [constrained[i]];
      }
      assert constrained[..|constrained|] == constrained;
    }

    method ExpandOne(k: nat, c: Pattern, ghost done: seq<Pattern>, ghost before: nat) returns (ghost all: seq<Pattern>)
      requires k < |form.fields| && |current| == Start(form.fields, k) && UsesFit(form, uses)
      requires |c| == Width(form.fields[k]) && AllOf(done, Width(form.fields[k]))
      requires before <= |encodings| && ExpandsThrough(form, uses, current, k, done, encodings[before..])
      requires ProductsVia(form, uses, current, k, done, encodings[before..])
      modifies this
      ensures current == old(current) && old(encodings) <= encodings
      ensures all == done + [c] && ExpandsThrough(form, uses, current, k, all, encodings[before..])
      ensures ProductsVia(form, uses, current, k, all, encodings[before..])
      decreases |form.fields| - k - 1, 2
    {
      hide ProductsVia, Products, ExpandsThrough, Expands;
      ghost var added, at, prefix := encodings[before..], |encodings|, current;
      var start := |current|;
      current := current + c;
      Expand(k + 1);
      current := current[..start];
      assert current == prefix;
      all := done + [c];
      assert encodings[before..] == added + encodings[at..];
      ThroughOneMore(form, uses, current, k, done, c, added, encodings[at..]);
      ViaOneMore(form, uses, current, k, done, c, added, encodings[at..]);
    }
  }

  lemma NothingVia(form: Form, uses: UseTable, current: Pattern, k: nat)
    requires k < |form.fields| && |current| == Start(form.fields, k)
    ensures ProductsVia(form, uses, current, k, [], []) && ChoicesOf(form, k, [], [])
  {
  }

  lemma ConstrainedField(form: Form, k: nat, p: Pattern, constrained: seq<Pattern>)
    requires k < |form.fields|
    requires Elements(constrained) == ConstraintOf(form.when, Elements([p]), Width(form.fields[k]),
                                                   Start(form.fields, k), NameOf(form.fields[k]))
    ensures Elements(constrained) == FieldConstraint(form, k, p)
  {
    OneElement(p);
  }

  lemma OnePattern(p: Pattern)
    ensures forall y :: Listing([p], y) <==> Covers(p, y)
  {
    forall y ensures Listing([p], y) <==> Covers(p, y) {
      ListingAppend([], p, y);
      assert [] + [p] == [p];
    }
  }

  /** The list holds the given patterns' values that meet the predicate. */
  ghost predicate Constrained(form: Form, k: nat, patterns: seq<Pattern>, all: seq<Pattern>)
    requires k < |form.fields|
  {
    forall y | IsConcrete(y) && |y| == Width(form.fields[k]) :: Listing(all, y) <==>
      Listing(patterns, y) && Local(form.when, y, Start(form.fields, k), NameOf(form.fields[k]))
  }

  lemma OneMoreListed(
    before: seq<Pattern>, p: Pattern, all: seq<Pattern>, constrained: seq<Pattern>, y: Pattern, keep: bool)
    requires Listing(all, y) <==> Listing(before, y) && keep
    requires Listing(constrained, y) <==> Listing([p], y) && keep
    ensures Listing(all + constrained, y) <==> Listing(before + [p], y) && keep
  {
    OnePattern(p);
    ListingConcat(all, constrained, y);
    ListingAppend(before, p, y);
  }

  lemma TakeOneMore<T>(s: seq<T>, i: nat)
    requires i < |s|
    ensures s[..i + 1] == s[..i] + [s[i]]
  {
  }

  lemma OneMoreConstrained(
    form: Form, k: nat, patterns: seq<Pattern>, i: nat, all: seq<Pattern>, constrained: seq<Pattern>)
    requires k < |form.fields| && i < |patterns| && Constrained(form, k, patterns[..i], all)
    requires Restricts([patterns[i]], constrained, Width(form.fields[k]), form.when, Start(form.fields, k),
                       NameOf(form.fields[k]))
    ensures Constrained(form, k, patterns[..i + 1], all + constrained)
  {
    TakeOneMore(patterns, i);
    forall y | IsConcrete(y) && |y| == Width(form.fields[k])
      ensures Listing(all + constrained, y) <==>
        Listing(patterns[..i + 1], y) && Local(form.when, y, Start(form.fields, k), NameOf(form.fields[k]))
    {
      var keep := Local(form.when, y, Start(form.fields, k), NameOf(form.fields[k]));
      OneMoreListed(patterns[..i], patterns[i], all, constrained, y, keep);
    }
  }

  lemma ListedSet(list: seq<Pattern>, patterns: set<Pattern>, y: Pattern)
    requires forall p :: p in list <==> p in patterns
    ensures Listing(list, y) <==> exists p :: p in patterns && Covers(p, y)
  {
    if Listing(list, y) { var i :| 0 <= i < |list| && Covers(list[i], y); assert list[i] in patterns; }
    if p :| p in patterns && Covers(p, y) { var i :| 0 <= i < |list| && list[i] == p; }
  }

  /** Keeps the first of equal encodings. */
  method RemoveDuplicates(list: seq<Pattern>) returns (kept: seq<Pattern>)
    ensures forall p :: p in kept <==> p in list
    ensures forall i, j | 0 <= i < j < |kept| :: kept[i] != kept[j]
  {
    kept := [];
    var seen: set<Pattern> := {};
    for k := 0 to |list|
      invariant forall p :: p in kept <==> p in list[..k]
      invariant forall p :: p in seen <==> p in kept
      invariant forall i, j | 0 <= i < j < |kept| :: kept[i] != kept[j]
    {
      assert list[..k + 1] == list[..k] + [list[k]];
      if list[k] !in seen {
        kept, seen := kept + [list[k]], seen + {list[k]};
      }
    }
    assert list[..|list|] == list;
  }

  // ----- the predicate as a whole -----

  /** Names are those of the form's fields, values compared for equality are concrete, bits lie in the word. */
  ghost predicate PredicateFits(p: Predicate, form: Form)
    decreases p
  {
    match p
    case All(predicates) => forall q | q in predicates :: PredicateFits(q, form)
    case BitEq(index, _) => index < Total(form)
    case FieldEq(field, value) => IsConcrete(value) && HasField(form, field)
    case FieldIn(field, _) => HasField(form, field)
    case _ => true
  }

  ghost predicate HasField(form: Form, name: string)
  {
    name != CONST_NAME && exists k :: 0 <= k < |form.fields| && form.fields[k].name == Some(name)
  }

  ghost predicate NamesDistinct(form: Form)
  {
    forall j, k | 0 <= j < k < |form.fields| && form.fields[j].name.Some? :: form.fields[j].name != form.fields[k].name
  }

  ghost predicate FormOk(form: Form)
  {
    |form.fields| > 0 && PredicateFits(form.when, form) && NamesDistinct(form)
  }

  lemma {:induction false} LookupIs(fields: seq<DecodedField>, k: nat, name: string)
    requires k < |fields| && fields[k].name == Some(name) && forall j | 0 <= j < k :: fields[j].name != Some(name)
    ensures Lookup(fields, name) == Some(fields[k].value)
    decreases k
  {
    if k > 0 { LookupIs(fields[1..], k - 1, name); }
  }

  /** The field a name belongs to, and what looking the name up gives. */
  lemma FieldNamed(form: Form, name: string, x: Pattern) returns (k: nat)
    requires NamesDistinct(form) && HasField(form, name) && |x| == Total(form)
    ensures k < |form.fields| && form.fields[k].name == Some(name)
    ensures forall j | 0 <= j < |form.fields| && j != k :: NameOf(form.fields[j]) != name
    ensures Lookup(Decode(form, x).fields, name) == Some(FieldValue(form, x, k))
  {
    k :| 0 <= k < |form.fields| && form.fields[k].name == Some(name);
    forall j | 0 <= j < |form.fields| && j != k ensures form.fields[j].name != Some(name) {
      if j < k { assert form.fields[j].name.Some? ==> form.fields[j].name != form.fields[k].name; }
    }
    LookupIs(Decode(form, x).fields, k, name);
  }

  /** The field a bit position lies in. */
  lemma {:induction false} FieldAt(fields: seq<Field>, index: nat, n: nat) returns (k: nat)
    requires n <= |fields| && index < Start(fields, n)
    ensures k < n && Start(fields, k) <= index < Start(fields, k + 1)
  {
    if index >= Start(fields, n - 1) { k := n - 1; } else { k := FieldAt(fields, index, n - 1); }
  }

  ghost predicate LocalEverywhere(p: Predicate, form: Form, x: Pattern)
    requires |x| == Total(form)
  {
    forall k | 0 <= k < |form.fields| :: Local(p, FieldValue(form, x, k), Start(form.fields, k), NameOf(form.fields[k]))
  }

  lemma BitEverywhere(index: nat, value: Trit, form: Form, x: Pattern)
    requires |x| == Total(form) && index < |x|
    ensures LocalEverywhere(BitEq(index, value), form, x) <==> x[index] == value
  {
    var p := BitEq(index, value);
    var k := FieldAt(form.fields, index, |form.fields|);
    PrefixWithField(form, k, x);
    assert FieldValue(form, x, k)[index - Start(form.fields, k)] == x[index];
    if x[index] == value {
      forall j | 0 <= j < |form.fields|
        ensures Local(p, FieldValue(form, x, j), Start(form.fields, j), NameOf(form.fields[j]))
      {
        StartMono(form.fields, j + 1, |form.fields|);
      }
    } else {
      assert !Local(p, FieldValue(form, x, k), Start(form.fields, k), NameOf(form.fields[k]));
    }
  }

  lemma FieldEqEverywhere(field: string, value: Pattern, form: Form, x: Pattern)
    requires FormOk(form) && HasField(form, field) && IsConcrete(value) && |x| == Total(form)
    ensures LocalEverywhere(FieldEq(field, value), form, x) <==> Lookup(Decode(form, x).fields, field) == Some(value)
  {
    var k := FieldNamed(form, field, x);
    LocalAtOne(FieldEq(field, value), form, x, k);
    ConcreteCovers(value, FieldValue(form, x, k));
  }

  lemma ConcreteCovers(value: Pattern, y: Pattern)
    requires IsConcrete(value)
    ensures Covers(value, y) <==> value == y
  {
  }

  lemma CheckIn(field: string, values: seq<Pattern>, d: Decoded, v: Pattern)
    requires Lookup(d.fields, field) == Some(v)
    ensures Check(FieldIn(field, values), d) == Some(exists i :: 0 <= i < |values| && Covers(values[i], v))
  {
  }

  /** A clause about field `k` holds everywhere exactly when it holds there. */
  lemma LocalAtOne(p: Predicate, form: Form, x: Pattern, k: nat)
    requires (p.FieldEq? || p.FieldIn?) && |x| == Total(form) && k < |form.fields|
    requires NameOf(form.fields[k]) == p.field
    requires forall j | 0 <= j < |form.fields| && j != k :: NameOf(form.fields[j]) != p.field
    ensures LocalEverywhere(p, form, x) <==>
      if p.FieldEq? then Covers(p.value, FieldValue(form, x, k))
      else exists i :: 0 <= i < |p.values| && Covers(p.values[i], FieldValue(form, x, k))
  {
    var here := Local(p, FieldValue(form, x, k), Start(form.fields, k), NameOf(form.fields[k]));
    forall j | 0 <= j < |form.fields| && j != k
      ensures Local(p, FieldValue(form, x, j), Start(form.fields, j), NameOf(form.fields[j]))
    {
    }
  }

  lemma FieldInEverywhere(field: string, values: seq<Pattern>, form: Form, x: Pattern)
    requires FormOk(form) && HasField(form, field) && |x| == Total(form)
    ensures Check(FieldIn(field, values), Decode(form, x)) == Some(LocalEverywhere(FieldIn(field, values), form, x))
  {
    var k := FieldNamed(form, field, x);
    LocalAtOne(FieldIn(field, values), form, x, k);
    CheckIn(field, values, Decode(form, x), FieldValue(form, x, k));
  }

  /** The predicate holds of a word exactly when every field meets what it asks of that field. */
  lemma {:induction false} CheckIsLocal(p: Predicate, form: Form, x: Pattern)
    requires FormOk(form) && PredicateFits(p, form) && |x| == Total(form) && IsConcrete(x)
    ensures Check(p, Decode(form, x)) == Some(LocalEverywhere(p, form, x))
    decreases p, 1
  {
    match p
    case Always =>
    case Never => assert !Local(p, FieldValue(form, x, 0), Start(form.fields, 0), NameOf(form.fields[0]));
    case All(predicates) => CheckAllIsLocal(predicates, form, x); AllEverywhere(predicates, form, x);
    case BitEq(index, value) => BitEverywhere(index, value, form, x);
    case FieldEq(field, value) => FieldEqEverywhere(field, value, form, x);
    case FieldIn(field, values) => FieldInEverywhere(field, values, form, x);
  }

  lemma {:induction false} CheckAllIsLocal(predicates: seq<Predicate>, form: Form, x: Pattern)
    requires FormOk(form) && |x| == Total(form) && IsConcrete(x)
    requires forall q | q in predicates :: PredicateFits(q, form)
    ensures CheckAll(predicates, Decode(form, x)) == Some(forall q | q in predicates :: LocalEverywhere(q, form, x))
    decreases predicates, 0
  {
    if predicates != [] {
      var first, rest := predicates[0], predicates[1..];
      CheckIsLocal(first, form, x);
      CheckAllIsLocal(rest, form, x);
      assert forall q :: q in predicates <==> q == first || q in rest;
    }
  }

  lemma AllEverywhere(predicates: seq<Predicate>, form: Form, x: Pattern)
    requires |x| == Total(form)
    ensures LocalEverywhere(All(predicates), form, x) <==> forall q | q in predicates :: LocalEverywhere(q, form, x)
  {
    if LocalEverywhere(All(predicates), form, x) {
      forall q | q in predicates ensures LocalEverywhere(q, form, x) {
        forall k | 0 <= k < |form.fields|
          ensures Local(q, FieldValue(form, x, k), Start(form.fields, k), NameOf(form.fields[k]))
        {
          assert Local(All(predicates), FieldValue(form, x, k), Start(form.fields, k), NameOf(form.fields[k]));
        }
      }
    }
  }

  /** A word matches the form's constant fields. */
  ghost predicate ConstantsMatch(form: Form, x: Pattern)
    requires |x| == Total(form)
  {
    forall k | 0 <= k < |form.fields| && form.fields[k].name.None? ::
      Covers(form.fields[k].pattern, FieldValue(form, x, k))
  }

  lemma AcceptedWords(form: Form, uses: UseTable, x: Pattern)
    requires FormOk(form) && |x| == Total(form) && IsConcrete(x)
    ensures Continues(form, uses, [], 0, x) <==> ConstantsMatch(form, x) && ValidUnderUses(Decode(form, x), uses)
  {
    CheckIsLocal(form.when, form, x);
    LaterOkIsAll(form, uses, x, 0);
    AllSlices(form, uses, x);
  }

  /** All slices together: constants, allowed values and the predicate's local demands. */
  lemma AllSlices(form: Form, uses: UseTable, x: Pattern)
    requires |x| == Total(form)
    ensures (forall j | 0 <= j < |form.fields| :: SliceOk(form, uses, x, j)) <==>
      && ConstantsMatch(form, x) && LocalEverywhere(form.when, form, x)
      && AllUsesAllow(Decode(form, x), uses)
  {
    var d := Decode(form, x);
    if forall j | 0 <= j < |form.fields| :: SliceOk(form, uses, x, j) {
      forall k | 0 <= k < |form.fields|
        ensures FieldAllows(form.fields[k], uses, FieldValue(form, x, k))
        ensures Local(form.when, FieldValue(form, x, k), Start(form.fields, k), NameOf(form.fields[k]))
      {
        assert SliceOk(form, uses, x, k);
      }
    }
    if ConstantsMatch(form, x) && LocalEverywhere(form.when, form, x) && AllUsesAllow(d, uses) {
      forall k | 0 <= k < |form.fields| ensures SliceOk(form, uses, x, k) {
        assert d.fields[k].name == form.fields[k].name;
      }
    }
  }

  /** The encodings of a form under allowed field values.  A concrete word is covered by one of them exactly when
      every field is allowed and meets what the predicate asks of it; for a well-formed predicate that is when the
      word matches the constant fields and its decoded fields pass the validator. */
  method FieldsToEncodings(form: Form, uses: UseTable) returns (encodings: seq<Pattern>)
    requires UsesFit(form, uses)
    ensures AllOf(encodings, Total(form))
    ensures forall i, j | 0 <= i < j < |encodings| :: encodings[i] != encodings[j]
    ensures forall x | IsConcrete(x) && |x| == Total(form) :: Listing(encodings, x) <==> LaterOk(form, uses, x, 0)
    ensures FormOk(form) ==> forall x | IsConcrete(x) && |x| == Total(form) ::
      Listing(encodings, x) <==> ConstantsMatch(form, x) && ValidUnderUses(Decode(form, x), uses)
    ensures Products(form, uses, [], 0, encodings)
  {
    hide Product;
    var encoder := new Encoder(form, uses);
    encoder.Expand(0);
    assert encoder.encodings[0..] == encoder.encodings;
    encodings := RemoveDuplicates(encoder.encodings);
    forall i | 0 <= i < |encodings| ensures |encodings[i]| == Total(form) { assert encodings[i] in encoder.encodings; }
    forall x | IsConcrete(x) && |x| == Total(form)
      ensures Listing(encodings, x) <==> LaterOk(form, uses, x, 0)
      ensures FormOk(form)
              ==> (Listing(encodings, x) <==> ConstantsMatch(form, x) && ValidUnderUses(Decode(form, x), uses))
    {
      SameListing(encodings, encoder.encodings, x);
      assert Continues(form, uses, [], 0, x) <==> LaterOk(form, uses, x, 0);
      if FormOk(form) { AcceptedWords(form, uses, x); }
    }
  }

  lemma SameListing(a: seq<Pattern>, b: seq<Pattern>, x: Pattern)
    requires forall p :: p in a <==> p in b
    ensures Listing(a, x) <==> Listing(b, x)
  {
    if Listing(a, x) { var i :| 0 <= i < |a| && Covers(a[i], x); assert a[i] in b; }
    if Listing(b, x) { var i :| 0 <= i < |b| && Covers(b[i], x); assert b[i] in a; }
  }

  // ----- equality with a value that has free bits -----

  /** Comparing for equality and intersecting agree on every word exactly when the value is concrete. */
  lemma FieldEqNeedsConcrete(value: Pattern)
    ensures (forall y | IsConcrete(y) :: Covers(value, y) <==> y == value) <==> IsConcrete(value)
  {
    if !IsConcrete(value) { assert Covers(value, Lowest(value)); }
  }

  /** The word with the given value in field `k` and low bits elsewhere. */
  function WordWith(form: Form, k: nat, y: Pattern): (x: Pattern)
    requires k < |form.fields| && |y| == Width(form.fields[k])
    ensures |x| == Total(form) && FieldValue(form, x, k) == y && (IsConcrete(y) ==> IsConcrete(x))
  {
    StartMono(form.fields, k + 1, |form.fields|);
    var low, high := Start(form.fields, k), Total(form) - Start(form.fields, k + 1);
    seq(low, _ => Low) + y + seq(high, _ => Low)
  }

  lemma CheckEquality(d: Decoded, name: string, v: Pattern, value: Pattern)
    requires Lookup(d.fields, name) == Some(v)
    ensures Check(FieldEq(name, value), d) == Some(v == value)
  {
  }

  /** What the validator checks and the encoder asks for an equality clause. */
  lemma EqualityAt(form: Form, k: nat, value: Pattern, x: Pattern)
    requires NamesDistinct(form) && k < |form.fields| && form.fields[k].name.Some?
    requires form.fields[k].name.value != CONST_NAME && |x| == Total(form)
    ensures var p := FieldEq(form.fields[k].name.value, value);
      && Check(p, Decode(form, x)) == Some(FieldValue(form, x, k) == value)
      && (LocalEverywhere(p, form, x) <==> Covers(value, FieldValue(form, x, k)))
  {
    hide Covers, LocalEverywhere, Check, Lookup;
    var name := form.fields[k].name.value;
    assert HasField(form, name);
    var j := FieldNamed(form, name, x);
    assert j == k;
    LocalAtOne(FieldEq(name, value), form, x, k);
    CheckEquality(Decode(form, x), name, FieldValue(form, x, k), value);
  }

  /** An equality clause is checked and encoded alike for the word. */
  ghost predicate EqualityAgrees(form: Form, name: string, value: Pattern, x: Pattern)
    requires |x| == Total(form)
  {
    Check(FieldEq(name, value), Decode(form, x)) == Some(LocalEverywhere(FieldEq(name, value), form, x))
  }

  lemma EqualityAgreesAt(form: Form, k: nat, value: Pattern, x: Pattern)
    requires NamesDistinct(form) && k < |form.fields| && form.fields[k].name.Some?
    requires form.fields[k].name.value != CONST_NAME && |x| == Total(form)
    ensures EqualityAgrees(form, form.fields[k].name.value, value, x)
      <==> (Covers(value, FieldValue(form, x, k)) <==> FieldValue(form, x, k) == value)
  {
    hide Covers, LocalEverywhere, Check, Decode;
    EqualityAt(form, k, value, x);
  }

  /** For an equality clause about a field, what the encoder asks of that field and what the validator checks agree
      on every word exactly when the value is concrete or has another width than the field. */
  lemma FieldEqExact(form: Form, k: nat, value: Pattern)
    requires NamesDistinct(form) && k < |form.fields| && form.fields[k].name.Some?
    requires form.fields[k].name.value != CONST_NAME
    ensures (forall x | IsConcrete(x) && |x| == Total(form) ::
               EqualityAgrees(form, form.fields[k].name.value, value, x))
      <==> IsConcrete(value) || |value| != Width(form.fields[k])
  {
    hide EqualityAgrees;
    if IsConcrete(value) || |value| != Width(form.fields[k]) {
      forall x | IsConcrete(x) && |x| == Total(form) ensures EqualityAgrees(form, form.fields[k].name.value, value, x) {
        EqualityAgreesAt(form, k, value, x);
        if IsConcrete(value) { ConcreteCovers(value, FieldValue(form, x, k)); }
      }
    } else {
      var x := WordWith(form, k, Lowest(value));
      EqualityAgreesAt(form, k, value, x);
      assert Covers(value, FieldValue(form, x, k)) && FieldValue(form, x, k) != value;
    }
  }

  /** One field of one bit, compared with a free bit. */
  function FreeForm(): (form: Form)
    ensures |form.fields| == 1 && Start(form.fields, 0) == 0 && Total(form) == Start(form.fields, 1) == 1
  {
    Form([Field(Some("f"), [Var], ByVariableBits)], FieldEq("f", [Var]))
  }

  function FreeUses(): UseTable { map["f" := VariableUses(Some([Var]), 1)] }

  /** The encodings of that form cover the word `1`, which the validator rejects. */
  method EncodeFreeEquality() returns (encodings: seq<Pattern>)
    ensures Listing(encodings, [High]) && !ValidUnderUses(Decode(FreeForm(), [High]), FreeUses())
  {
    var form, uses := FreeForm(), FreeUses();
    encodings := FieldsToEncodings(form, uses);
    var d := Decode(form, [High]);
    assert FieldValue(form, [High], 0) == [High];
    assert d.fields[0] == DecodedField(Some("f"), [High]);
    assert Lookup(d.fields, "f") == Some([High]);
    assert [High][0] != [Var][0];
    assert SliceOk(form, uses, [High], 0);
    assert LaterOk(form, uses, [High], 1);
  }
}
