/** Restricted instruction sets: the least one that supports a program, and the passes that widen it. */
module Candidates {
  import opened Exprs
  import opened Cubes
  import opened FieldMerge
  import opened Encodings

  // ----- programs and schemas -----

  /** A decoded instruction, by its names, its form and its bits. */
  datatype ProgramInstruction = ProgramInstruction(name: string, formName: string, form: Form, bits: Pattern)

  /** Merge mode and width of every field name. */
  type Schema = map<string, (MergeMode, nat)>

  ghost predicate FormFollows(form: Form, schema: Schema)
  {
    FormOk(form) && BitsConcrete(form.when) && forall k | 0 <= k < |form.fields| :: FieldFollows(form.fields[k], schema)
  }

  ghost predicate FieldFollows(f: Field, schema: Schema)
  {
    match f.name
    case None => IsConcrete(f.pattern) && f.mode == ByVariableBits
    case Some(name) => name in schema && schema[name] == (f.mode, Width(f))
  }

  ghost predicate UseFollows(u: FieldUses, entry: (MergeMode, nat))
  {
    match u
    case VariableUses(pattern, len) => entry == (ByVariableBits, len) && (pattern.Some? ==> |pattern.value| == len)
    case PatternUses(patterns, len) => entry == (ByUses, len) && AllWide(patterns, len)
  }

  ghost predicate UsesFollow(uses: UseTable, schema: Schema)
  {
    forall name | name in uses :: name in schema && UseFollows(uses[name], schema[name])
  }

  lemma FollowingFits(form: Form, uses: UseTable, schema: Schema)
    requires FormFollows(form, schema) && UsesFollow(uses, schema)
    ensures UsesFit(form, uses)
  {
    forall k | 0 <= k < |form.fields| ensures FieldFits(form.fields[k], uses) {
      assert FieldFollows(form.fields[k], schema);
    }
  }

  /** An instruction as decoding produces it: constants match and the form's predicate holds. */
  ghost predicate InstructionOk(i: ProgramInstruction, schema: Schema)
  {
    && FormFollows(i.form, schema) && |i.bits| == Total(i.form) && IsConcrete(i.bits)
    && Check(i.form.when, Decode(i.form, i.bits)) == Some(true)
  }

  // ----- what candidates accept -----

  /** Whatever value the first table allows, the second allows. */
  ghost predicate Wider(uses: UseTable, wider: UseTable)
  {
    forall name, y | IsConcrete(y) && UseAllows(uses, name, y) :: UseAllows(wider, name, y)
  }

  ghost predicate WiderForms(forms: map<string, set<string>>, wider: map<string, set<string>>)
  {
    forall name | name in forms :: name in wider && forms[name] <= wider[name]
  }

  predicate SupportedBy(i: ProgramInstruction, uses: UseTable, forms: map<string, set<string>>)
    requires |i.bits| == Total(i.form)
  {
    i.name in forms && i.formName in forms[i.name] && ValidUnderUses(Decode(i.form, i.bits), uses)
  }

  lemma ConcreteField(form: Form, x: Pattern, k: nat)
    requires |x| == Total(form) && IsConcrete(x) && k < |form.fields|
    ensures IsConcrete(FieldValue(form, x, k))
  {
    PrefixWithField(form, k, x);
  }

  /** Widening keeps support. */
  lemma WiderSupports(i: ProgramInstruction, schema: Schema, uses: UseTable, wider: UseTable,
                      forms: map<string, set<string>>, widerForms: map<string, set<string>>)
    requires InstructionOk(i, schema) && SupportedBy(i, uses, forms) && Wider(uses, wider)
             && WiderForms(forms, widerForms)
    ensures SupportedBy(i, wider, widerForms)
  {
    WiderAccepts(i.form, i.bits, uses, wider);
  }

  lemma WiderAccepts(form: Form, x: Pattern, uses: UseTable, wider: UseTable)
    requires |x| == Total(form) && IsConcrete(x) && Wider(uses, wider) && ValidUnderUses(Decode(form, x), uses)
    ensures ValidUnderUses(Decode(form, x), wider)
  {
    var d := Decode(form, x);
    forall k | 0 <= k < |d.fields| && d.fields[k].name.Some?
      ensures UseAllows(wider, d.fields[k].name.value, d.fields[k].value)
    {
      ConcreteField(form, x, k);
      assert UseAllows(uses, d.fields[k].name.value, d.fields[k].value);
    }
  }

  /** Some word of the form is accepted under the uses. */
  ghost predicate HasEncoding(form: Form, uses: UseTable)
  {
    exists x :: AcceptedWord(form, uses, x)
  }

  ghost predicate AcceptedWord(form: Form, uses: UseTable, x: Pattern)
  {
    |x| == Total(form) && IsConcrete(x) && ConstantsMatch(form, x) && ValidUnderUses(Decode(form, x), uses)
  }

  lemma WiderHasEncoding(form: Form, uses: UseTable, wider: UseTable)
    requires HasEncoding(form, uses) && Wider(uses, wider)
    ensures HasEncoding(form, wider)
  {
    var x :| AcceptedWord(form, uses, x);
    WiderAccepts(form, x, uses, wider);
    assert AcceptedWord(form, wider, x);
  }

  // ----- observing values -----

  datatype Observation = Observation(name: string, mode: MergeMode, value: Pattern)

  /** The smallest pattern that covers both. */
  function Widen(p: Pattern, v: Pattern): (r: Pattern)
    requires |p| == |v|
    ensures |r| == |p|
  {
    seq(|p|, i requires 0 <= i < |p| => if p[i] == v[i] then p[i] else Var)
  }

  lemma WidenIsJoin(p: Pattern, v: Pattern)
    requires |p| == |v|
    ensures Covers(Widen(p, v), p) && Covers(Widen(p, v), v)
    ensures forall c | Covers(c, p) && Covers(c, v) :: Covers(c, Widen(p, v))
  {
  }

  /** Widening bit by bit in place. */
  method WidenInPlace(p: Pattern, v: Pattern) returns (r: Pattern)
    requires |p| == |v|
    ensures r == Widen(p, v)
  {
    r := p;
    for i := 0 to |p|
      invariant |r| == |p| && forall j | 0 <= j < |p| :: r[j] == if j < i && p[j] != v[j] then Var else p[j]
    {
      if r[i] != v[i] { r := r[i := Var]; }
    }
  }

  /** What a field's entry says after the observations: all observed values, or their join. */
  ghost predicate Explains(u: FieldUses, observed: seq<Observation>, name: string)
  {
    match u
    case PatternUses(patterns, _) =>
      forall v :: v in patterns <==> exists o :: o in observed && o.name == name && o.value == v
    case VariableUses(pattern, _) =>
      && pattern.Some?
      && (forall o | o in observed && o.name == name :: Covers(pattern.value, o.value))
      && forall c | (forall o | o in observed && o.name == name :: Covers(c, o.value)) :: Covers(c, pattern.value)
  }

  ghost predicate AllExplained(table: UseTable, observed: seq<Observation>)
  {
    && (forall name | name in table :: Explains(table[name], observed, name))
    && (forall name :: name in table <==> exists o :: o in observed && o.name == name)
  }

  ghost predicate ObservationFollows(o: Observation, schema: Schema)
  {
    IsConcrete(o.value) && o.name in schema && schema[o.name] == (o.mode, |o.value|)
  }

  lemma ExplainsMore(u: FieldUses, observed: seq<Observation>, o: Observation, name: string)
    requires Explains(u, observed, name) && o.name != name
    ensures Explains(u, observed + [o], name)
  {
    forall x ensures x in observed + [o] && x.name == name <==> x in observed && x.name == name {}
    if u.PatternUses? {
      forall v ensures v in u.patterns <==> exists x :: x in observed + [o] && x.name == name && x.value == v {
        if v in u.patterns { var x :| x in observed && x.name == name && x.value == v; assert x in observed + [o]; }
      }
    }
  }

  lemma ExplainsFirst(o: Observation, observed: seq<Observation>)
    requires forall x | x in observed :: x.name != o.name
    ensures Explains(if o.mode == ByUses then PatternUses({o.value}, |o.value|)
                     else VariableUses(Some(o.value), |o.value|),
                     observed + [o], o.name)
  {
    assert o in observed + [o] && Covers(o.value, o.value);
  }

  lemma ExplainsPattern(patterns: set<Pattern>, len: nat, observed: seq<Observation>, o: Observation)
    requires Explains(PatternUses(patterns, len), observed, o.name)
    ensures Explains(PatternUses(patterns + {o.value}, len), observed + [o], o.name)
  {
    forall v
      ensures v in patterns + {o.value} <==> exists x :: x in observed + [o] && x.name == o.name && x.value == v
    {
      if v in patterns { var x :| x in observed && x.name == o.name && x.value == v; assert x in observed + [o]; }
      if v == o.value { assert o in observed + [o]; }
    }
  }

  lemma ExplainsVariable(p: Pattern, len: nat, observed: seq<Observation>, o: Observation)
    requires |p| == |o.value| && Explains(VariableUses(Some(p), len), observed, o.name)
    ensures Explains(VariableUses(Some(Widen(p, o.value)), len), observed + [o], o.name)
  {
    WidenIsJoin(p, o.value);
    forall x | x in observed + [o] && x.name == o.name ensures Covers(Widen(p, o.value), x.value) {
      if x in observed { CoversTrans(Widen(p, o.value), p, x.value); }
    }
    forall c | forall x | x in observed + [o] && x.name == o.name :: Covers(c, x.value)
      ensures Covers(c, Widen(p, o.value))
    {
      assert o in observed + [o];
      forall x | x in observed && x.name == o.name ensures Covers(c, x.value) { assert x in observed + [o]; }
    }
  }

  /** Enters one observed value. */
  method Observe(
    table: UseTable, o: Observation, ghost observed: seq<Observation>, ghost schema: Schema) returns (next: UseTable)
    requires UsesFollow(table, schema) && AllExplained(table, observed) && ObservationFollows(o, schema)
    ensures UsesFollow(next, schema) && AllExplained(next, observed + [o])
  {
    hide Widen;
    var entry;
    if o.name !in table {
      entry := if o.mode == ByUses then PatternUses({o.value}, |o.value|) else VariableUses(Some(o.value), |o.value|);
      ExplainsFirst(o, observed);
    } else {
      assert UseFollows(table[o.name], schema[o.name]);
      match table[o.name] {
        case PatternUses(patterns, len) =>
          entry := PatternUses(patterns + {o.value}, len);
          ExplainsPattern(patterns, len, observed, o);
        case VariableUses(pattern, len) =>
          var widened := WidenInPlace(pattern.value, o.value);
          entry := VariableUses(Some(widened), len);
          ExplainsVariable(pattern.value, len, observed, o);
      }
    }
    next := table[o.name := entry];
    EntryExplained(table, next, observed, o);
  }

  lemma EntryExplained(table: UseTable, next: UseTable, observed: seq<Observation>, o: Observation)
    requires AllExplained(table, observed) && o.name in next && next == table[o.name := next[o.name]]
    requires Explains(next[o.name], observed + [o], o.name)
    ensures AllExplained(next, observed + [o])
  {
    forall name | name in next ensures Explains(next[name], observed + [o], name) {
      if name != o.name { ExplainsMore(next[name], observed, o, name); }
    }
    forall name ensures name in next <==> exists x :: x in observed + [o] && x.name == name {
      if name in table { var x :| x in observed && x.name == name; assert x in observed + [o]; }
      assert o in observed + [o];
    }
  }

  /** The named fields of an instruction, with their values. */
  ghost predicate Observes(observed: seq<Observation>, i: ProgramInstruction, k: nat)
  {
    && |i.bits| == Total(i.form) && k <= |i.form.fields|
    && forall j | 0 <= j < k && i.form.fields[j].name.Some? :: FieldObservation(i, j) in observed
  }

  /** What field `j` of an instruction shows. */
  function FieldObservation(i: ProgramInstruction, j: nat): Observation
    requires |i.bits| == Total(i.form) && j < |i.form.fields| && i.form.fields[j].name.Some?
  {
    Observation(i.form.fields[j].name.value, i.form.fields[j].mode, FieldValue(i.form, i.bits, j))
  }

  /** Every observation comes from a field of some instruction of the program. */
  ghost predicate FromInstructions(observed: seq<Observation>, program: seq<ProgramInstruction>)
  {
    forall o | o in observed :: exists i, j :: 0 <= i < |program| && Shows(program[i], j, o)
  }

  ghost predicate Shows(i: ProgramInstruction, j: nat, o: Observation)
  {
    && |i.bits| == Total(i.form) && j < |i.form.fields|
    && i.form.fields[j].name == Some(o.name) && o.value == FieldValue(i.form, i.bits, j)
  }

  /** What a candidate must at least accept: the values of the program's fields. */
  ghost predicate AcceptsObservations(observed: seq<Observation>, uses: UseTable)
  {
    forall o | o in observed :: UseAllows(uses, o.name, o.value)
  }

  lemma ExplainedAccepts(table: UseTable, observed: seq<Observation>, schema: Schema)
    requires AllExplained(table, observed) && forall o | o in observed :: ObservationFollows(o, schema)
    ensures AcceptsObservations(observed, table)
  {
    forall o | o in observed ensures UseAllows(table, o.name, o.value) {
      assert Explains(table[o.name], observed, o.name);
      if table[o.name].PatternUses? { assert o.value in table[o.name].patterns && Covers(o.value, o.value); }
    }
  }

  /** Other tables that treat a name as one pattern where this one does. */
  ghost predicate SameKinds(table: UseTable, other: UseTable)
  {
    forall name | name in table && name in other && table[name].VariableUses? :: other[name].VariableUses?
  }

  /** Any table that accepts the observations accepts whatever the explained table accepts. */
  lemma ExplainedIsLeast(table: UseTable, observed: seq<Observation>, other: UseTable, schema: Schema)
    requires AllExplained(table, observed) && AcceptsObservations(observed, other) && SameKinds(table, other)
    requires forall o | o in observed :: ObservationFollows(o, schema)
    ensures Wider(table, other)
  {
    forall name, y | IsConcrete(y) && UseAllows(table, name, y) ensures UseAllows(other, name, y) {
      assert Explains(table[name], observed, name);
      var o :| o in observed && o.name == name;
      assert UseAllows(other, name, o.value);
      if table[name].PatternUses? {
        var p :| p in table[name].patterns && Covers(p, y);
        var x :| x in observed && x.name == name && x.value == p;
        assert p == y;
      } else {
        var c := other[name].pattern.value;
        forall x | x in observed && x.name == name ensures Covers(c, x.value) {
          assert UseAllows(other, name, x.value);
        }
        CoversTrans(c, table[name].pattern.value, y);
      }
    }
  }

  ghost predicate SameAllowed(a: UseTable, b: UseTable)
  {
    Wider(a, b) && Wider(b, a)
  }

  /** Merges the patterns of every entry. */
  method MergeEntries(table: UseTable, ghost schema: Schema) returns (merged: UseTable)
    requires UsesFollow(table, schema)
    ensures UsesFollow(merged, schema) && merged.Keys == table.Keys && SameAllowed(table, merged)
            && SameKinds(table, merged)
    ensures forall name | name in table :: EntryMerged(table[name], merged[name])
  {
    merged := table;
    var rest := table.Keys;
    while rest != {}
      invariant rest <= table.Keys && merged.Keys == table.Keys && UsesFollow(merged, schema)
      invariant forall name | name in rest :: merged[name] == table[name]
      invariant forall name | name in table && name !in rest :: EntryMerged(table[name], merged[name])
    {
      var name :| name in rest;
      assert UseFollows(merged[name], schema[name]);
      if merged[name].PatternUses? {
        var patterns := MergePatterns(merged[name].patterns, merged[name].len);
        merged := merged[name := PatternUses(patterns, merged[name].len)];
      }
      rest := rest - {name};
    }
    forall name, y | IsConcrete(y) ensures UseAllows(table, name, y) <==> UseAllows(merged, name, y) {
      if name in table { assert EntryMerged(table[name], merged[name]); MergedAllows(table, merged, name, y); }
    }
    forall name | name in merged && table[name].VariableUses? ensures merged[name].VariableUses? {
      assert EntryMerged(table[name], merged[name]);
    }
  }

  /** Listed patterns are merged as far as possible; a single pattern stays. */
  ghost predicate EntryMerged(u: FieldUses, m: FieldUses)
  {
    match u
    case VariableUses(_, _) => m == u
    case PatternUses(patterns, len) => 
      && m.PatternUses? && m.len == len && SameWords(m.patterns, patterns)
      && Unmergeable(m.patterns) && MergesTo(patterns, m.patterns)
  }

  lemma MergedAllows(table: UseTable, merged: UseTable, name: string, y: Pattern)
    requires name in table && name in merged && EntryMerged(table[name], merged[name]) && IsConcrete(y)
    ensures UseAllows(table, name, y) <==> UseAllows(merged, name, y)
  {
    if table[name].PatternUses? {
      assert Denotes(merged[name].patterns, y) <==> Denotes(table[name].patterns, y);
    }
  }
}
