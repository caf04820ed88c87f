/** Building the least candidate for a program and widening it where mandatory forms need it. */
module CandidateBuilder {
  import opened Exprs
  import opened Cubes
  import opened FieldMerge
  import opened Encodings
  import opened Candidates
  import opened CandidateGrowth

  type FormTable = map<string, set<string>>

  ghost predicate ProgramFollows(program: seq<ProgramInstruction>, schema: Schema)
  {
    forall k | 0 <= k < |program| :: InstructionOk(program[k], schema)
  }

  ghost predicate SupportsAll(program: seq<ProgramInstruction>, uses: UseTable, forms: FormTable)
  {
    forall k | 0 <= k < |program| :: |program[k].bits| == Total(program[k].form) && SupportedBy(program[k], uses, forms)
  }

  // ----- observing a program -----

  /** The table says what the observations show. */
  ghost predicate TableState(table: UseTable, observed: seq<Observation>, schema: Schema)
  {
    UsesFollow(table, schema) && AllExplained(table, observed)
    && forall o | o in observed :: ObservationFollows(o, schema)
  }

  /** The observations are those of the first `n` instructions and of `k` fields of the next one. */
  ghost predicate Seen(observed: seq<Observation>, program: seq<ProgramInstruction>, n: nat, k: nat)
  {
    && n <= |program| && FromInstructions(observed, program)
    && (forall i | 0 <= i < n :: Observes(observed, program[i], |program[i].form.fields|))
    && (n < |program| ==> Observes(observed, program[n], k))
  }

  lemma ObservesMore(observed: seq<Observation>, o: Observation, i: ProgramInstruction, k: nat)
    requires Observes(observed, i, k)
    ensures Observes(observed + [o], i, k)
  {
  }

  lemma SeenField(observed: seq<Observation>, program: seq<ProgramInstruction>, n: nat, k: nat)
    requires Seen(observed, program, n, k) && n < |program| && k < |program[n].form.fields|
    requires program[n].form.fields[k].name.Some?
    ensures Seen(observed + [FieldObservation(program[n], k)], program, n, k + 1)
  {
    var o := FieldObservation(program[n], k);
    var more := observed + [o];
    assert Shows(program[n], k, o);
    forall x | x in more ensures exists a, b :: 0 <= a < |program| && Shows(program[a], b, x) {
      if x != o { assert x in observed; }
    }
    forall j | 0 <= j < n ensures Observes(more, program[j], |program[j].form.fields|) {
      ObservesMore(observed, o, program[j], |program[j].form.fields|);
    }
    ObservesMore(observed, o, program[n], k);
  }

  lemma SeenConstant(observed: seq<Observation>, program: seq<ProgramInstruction>, n: nat, k: nat)
    requires Seen(observed, program, n, k) && n < |program| && k < |program[n].form.fields|
    requires program[n].form.fields[k].name.None?
    ensures Seen(observed, program, n, k + 1)
  {
  }

  lemma SeenInstruction(observed: seq<Observation>, program: seq<ProgramInstruction>, n: nat, schema: Schema)
    requires ProgramFollows(program, schema) && n < |program| && Seen(observed, program, n, |program[n].form.fields|)
    ensures Seen(observed, program, n + 1, 0)
  {
    if n + 1 < |program| { assert InstructionOk(program[n + 1], schema); }
  }

  lemma FieldFollowsSchema(program: seq<ProgramInstruction>, n: nat, k: nat, schema: Schema)
    requires ProgramFollows(program, schema) && n < |program| && k < |program[n].form.fields|
    requires program[n].form.fields[k].name.Some?
    ensures |program[n].bits| == Total(program[n].form) && ObservationFollows(FieldObservation(program[n], k), schema)
  {
    ConcreteField(program[n].form, program[n].bits, k);
    assert FieldFollows(program[n].form.fields[k], schema);
  }

  method ObserveField(
    table: UseTable, program: seq<ProgramInstruction>, n: nat, k: nat, ghost observed: seq<Observation>,
    ghost schema: Schema)
    returns (next: UseTable, ghost more: seq<Observation>)
    requires ProgramFollows(program, schema) && n < |program| && k < |program[n].form.fields|
    requires TableState(table, observed, schema) && Seen(observed, program, n, k)
    ensures TableState(next, more, schema) && Seen(more, program, n, k + 1)
  {
    next, more := table, observed;
    if program[n].form.fields[k].name.Some? {
      FieldFollowsSchema(program, n, k, schema);
      var o := FieldObservation(program[n], k);
      next := Observe(table, o, observed, schema);
      more := observed + [o];
      SeenField(observed, program, n, k);
    } else {
      SeenConstant(observed, program, n, k);
    }
  }

  method ObserveProgram(program: seq<ProgramInstruction>, ghost schema: Schema)
    returns (table: UseTable, ghost observed: seq<Observation>)
    requires ProgramFollows(program, schema)
    ensures TableState(table, observed, schema) && Seen(observed, program, |program|, 0)
  {
    table, observed := map[], [];
    if program != [] { assert InstructionOk(program[0], schema); }
    for n := 0 to |program|
      invariant TableState(table, observed, schema) && Seen(observed, program, n, 0)
    {
      for k := 0 to |program[n].form.fields|
        invariant TableState(table, observed, schema) && Seen(observed, program, n, k)
      {
        table, observed := ObserveField(table, program, n, k, observed, schema);
      }
      SeenInstruction(observed, program, n, schema);
    }
  }

  /** A table that accepts the observations accepts the program's fields. */
  lemma ObservedSupports(
    program: seq<ProgramInstruction>, observed: seq<Observation>, uses: UseTable, schema: Schema, n: nat)
    requires ProgramFollows(program, schema) && n < |program| && AcceptsObservations(observed, uses)
    requires Observes(observed, program[n], |program[n].form.fields|)
    ensures ValidUnderUses(Decode(program[n].form, program[n].bits), uses)
  {
    var i := program[n];
    assert InstructionOk(i, schema);
    var d := Decode(i.form, i.bits);
    forall k | 0 <= k < |d.fields| && d.fields[k].name.Some?
      ensures UseAllows(uses, d.fields[k].name.value, d.fields[k].value)
    {
      assert FieldObservation(i, k) in observed;
    }
  }

  lemma ShownIsAllowed(i: ProgramInstruction, j: nat, o: Observation, uses: UseTable)
    requires Shows(i, j, o) && ValidUnderUses(Decode(i.form, i.bits), uses)
    ensures UseAllows(uses, o.name, o.value)
  {
    var d := Decode(i.form, i.bits);
    assert d.fields[j] == DecodedField(Some(o.name), o.value);
  }

  /** A candidate that supports the program accepts the observations. */
  lemma SupportAccepts(program: seq<ProgramInstruction>, observed: seq<Observation>, uses: UseTable, forms: FormTable)
    requires FromInstructions(observed, program) && SupportsAll(program, uses, forms)
    ensures AcceptsObservations(observed, uses)
  {
    forall o | o in observed ensures UseAllows(uses, o.name, o.value) {
      var i, j :| 0 <= i < |program| && Shows(program[i], j, o);
      assert SupportedBy(program[i], uses, forms);
      ShownIsAllowed(program[i], j, o, uses);
    }
  }

  ghost predicate AllowsNothing(uses: UseTable)
  {
    forall name, y :: !UseAllows(uses, name, y)
  }

  // ----- a word from values of its fields -----

  ghost predicate ValuesFit(form: Form, values: seq<Pattern>)
  {
    |values| == |form.fields|
    && forall k | 0 <= k < |values| :: |values[k]| == Width(form.fields[k]) && IsConcrete(values[k])
  }

  function Join(values: seq<Pattern>): Pattern
  {
    if values == [] then [] else Join(values[..|values| - 1]) + values[|values| - 1]
  }

  lemma {:induction false} JoinPrefix(form: Form, values: seq<Pattern>, n: nat)
    requires ValuesFit(form, values) && n <= |values|
    ensures |Join(values[..n])| == Start(form.fields, n) && IsConcrete(Join(values[..n]))
  {
    if n > 0 {
      JoinPrefix(form, values, n - 1);
      assert values[..n][..n - 1] == values[..n - 1];
    }
  }

  lemma {:induction false} JoinValue(form: Form, values: seq<Pattern>, n: nat, k: nat)
    requires ValuesFit(form, values) && k < n <= |values|
    ensures Start(form.fields, k + 1) <= |Join(values[..n])|
    ensures Start(form.fields, k) <= Start(form.fields, k + 1)
    ensures Join(values[..n])[Start(form.fields, k)..Start(form.fields, k + 1)] == values[k]
    decreases n
  {
    JoinPrefix(form, values, n);
    JoinPrefix(form, values, n - 1);
    assert values[..n][..n - 1] == values[..n - 1];
    StartMono(form.fields, k + 1, n);
    if k < n - 1 { JoinValue(form, values, n - 1, k); }
  }

  /** Field values that are allowed one by one, and meet the predicate one by one, make an accepted word. */
  lemma AcceptedByFields(form: Form, uses: UseTable, values: seq<Pattern>)
    requires FormOk(form) && ValuesFit(form, values)
    requires forall k | 0 <= k < |values| :: FieldRepaired(form, k, values[k], uses)
    ensures HasEncoding(form, uses)
  {
    var x := Join(values);
    assert values[..|values|] == values;
    JoinPrefix(form, values, |values|);
    forall k | 0 <= k < |form.fields| ensures SliceOk(form, uses, x, k) {
      JoinValue(form, values, |values|, k);
      assert FieldValue(form, x, k) == values[k];
    }
    LaterOkIsAll(form, uses, x, 0);
    AcceptedWords(form, uses, x);
    assert AcceptedWord(form, uses, x);
  }

  /** A word an encoding covers, field by field. */
  lemma EncodingFields(form: Form, uses: UseTable, encodings: seq<Pattern>, k: nat)
    requires FormOk(form) && encodings != [] && AllOf(encodings, Total(form)) && k < |form.fields|
    requires forall x | IsConcrete(x) && |x| == Total(form) ::
      Listing(encodings, x) <==> ConstantsMatch(form, x) && ValidUnderUses(Decode(form, x), uses)
    ensures var x := Lowest(encodings[0]);
      && AcceptedWord(form, uses, x) && SliceOk(form, uses, x, k) && IsConcrete(FieldValue(form, x, k))
  {
    var x := Lowest(encodings[0]);
    assert Listing(encodings, x);
    AcceptedWords(form, uses, x);
    LaterOkIsAll(form, uses, x, 0);
    ConcreteField(form, x, k);
  }

  /** Encodings exist exactly when some word is accepted. */
  lemma EncodingsExist(form: Form, uses: UseTable, encodings: seq<Pattern>)
    requires FormOk(form) && AllOf(encodings, Total(form))
    requires forall x | IsConcrete(x) && |x| == Total(form) ::
      Listing(encodings, x) <==> ConstantsMatch(form, x) && ValidUnderUses(Decode(form, x), uses)
    ensures encodings != [] <==> HasEncoding(form, uses)
  {
    if encodings != [] {
      EncodingFields(form, uses, encodings, 0);
    }
    if HasEncoding(form, uses) {
      var x :| AcceptedWord(form, uses, x);
      assert Listing(encodings, x);
    }
  }

  // ----- instruction sets -----

  datatype IsaInstruction = IsaInstruction(name: string, forms: seq<(string, Form)>)

  ghost predicate IsaFollows(isa: seq<IsaInstruction>, schema: Schema)
  {
    forall n, k | 0 <= n < |isa| && 0 <= k < |isa[n].forms| :: FormFollows(isa[n].forms[k].1, schema)
  }

  predicate Active(forms: FormTable, name: string, formName: string)
  {
    name in forms && formName in forms[name]
  }

  /** The first active form, or the number of forms. */
  function FirstActive(name: string, all: seq<(string, Form)>, forms: FormTable): (k: nat)
    ensures k <= |all|
    ensures k < |all| ==> Active(forms, name, all[k].0)
    ensures forall j | 0 <= j < k :: !Active(forms, name, all[j].0)
  {
    if all == [] || Active(forms, name, all[0].0) then 0 else 1 + FirstActive(name, all[1..], forms)
  }

  /** The form that is repaired when any form will do: the first active one, or else the first. */
  function Pick(i: IsaInstruction, forms: FormTable): (k: nat)
    requires i.forms != []
    ensures k < |i.forms|
  {
    var k := FirstActive(i.name, i.forms, forms);
    if k < |i.forms| then k else 0
  }

  /** No other name gained or lost a form. */
  ghost predicate OthersStay(forms: FormTable, later: FormTable, name: string)
  {
    forall other, formName | other != name :: Active(forms, other, formName) <==> Active(later, other, formName)
  }

  lemma OthersTrans(a: FormTable, b: FormTable, c: FormTable, name: string)
    requires OthersStay(a, b, name) && OthersStay(b, c, name)
    ensures OthersStay(a, c, name)
  {
  }

  /** The form is switched on and some word of it is accepted. */
  ghost predicate Usable(name: string, form: (string, Form), uses: UseTable, forms: FormTable)
  {
    Active(forms, name, form.0) && HasEncoding(form.1, uses)
  }

  lemma UsableStays(
    name: string, form: (string, Form), uses: UseTable, forms: FormTable, wider: UseTable, widerForms: FormTable)
    requires Usable(name, form, uses, forms) && Wider(uses, wider) && WiderForms(forms, widerForms)
    ensures Usable(name, form, wider, widerForms)
  {
    WiderHasEncoding(form.1, uses, wider);
  }

  lemma WiderTrans(a: UseTable, b: UseTable, c: UseTable)
    requires Wider(a, b) && Wider(b, c)
    ensures Wider(a, c)
  {
  }

  /** A use that accepts every value of its width. */
  ghost predicate AllowsAll(u: FieldUses)
  {
    match u
    case VariableUses(pattern, len) => pattern.Some? && forall y | |y| == len :: Covers(pattern.value, y)
    case PatternUses(patterns, len) => forall y | |y| == len :: exists p :: p in patterns && Covers(p, y)
  }

  /** Changing one entry to a wider one widens the table. */
  lemma EntryWidens(uses: UseTable, name: string, u: FieldUses)
    requires forall y | IsConcrete(y) && UseAllows(uses, name, y) :: UseAllows(map[name := u], name, y)
    ensures Wider(uses, uses[name := u])
  {
    forall n, y | IsConcrete(y) && UseAllows(uses, n, y) ensures UseAllows(uses[name := u], n, y) {
      if n == name { assert UseAllows(map[name := u], name, y); }
    }
  }

  lemma AllowedHasWidth(uses: UseTable, schema: Schema, name: string, y: Pattern)
    requires UsesFollow(uses, schema) && UseAllows(uses, name, y)
    ensures name in schema && |y| == schema[name].1
  {
    assert UseFollows(uses[name], schema[name]);
  }

  /** The entry widened by one value. */
  method MergeRepair(uses: UseTable, name: string, value: Pattern, mode: MergeMode, ghost schema: Schema)
    returns (next: UseTable)
    requires UsesFollow(uses, schema) && name in schema && schema[name] == (mode, |value|) && IsConcrete(value)
    ensures UsesFollow(next, schema) && Wider(uses, next) && UseAllows(next, name, value)
    ensures GrownBy(uses, next, {(name, value)})
  {
    var entry;
    if name !in uses {
      entry := if mode == ByUses then PatternUses({value}, |value|) else VariableUses(Some(value), |value|);
    } else {
      assert UseFollows(uses[name], schema[name]);
      match uses[name] {
        case PatternUses(patterns, len) => entry := PatternUses(patterns + {value}, len);
        case VariableUses(pattern, len) =>
          if pattern.None? {
            entry := VariableUses(Some(value), len);
          } else {
            var widened := WidenInPlace(pattern.value, value);
            WidenIsJoin(pattern.value, value);
            entry := VariableUses(Some(widened), len);
          }
      }
    }
    next := uses[name := entry];
    RepairedEntry(uses, name, value, entry);
    EnteredIsGrown(uses, name, value, entry);
    GrownByOne(uses, name, value, entry);
  }

  lemma RepairedEntry(uses: UseTable, name: string, value: Pattern, entry: FieldUses)
    requires name !in uses ==> entry == PatternUses({value}, |value|) || entry == VariableUses(Some(value), |value|)
    requires name in uses ==>
      match uses[name]
      case PatternUses(patterns, len) => entry == PatternUses(patterns + {value}, len)
      case VariableUses(pattern, len) =>
        (entry == VariableUses(Some(value), len) && pattern.None?)
        || (pattern.Some? && entry.VariableUses? && entry.pattern.Some?
            && Covers(entry.pattern.value, pattern.value) && Covers(entry.pattern.value, value))
    ensures Wider(uses, uses[name := entry]) && UseAllows(uses[name := entry], name, value)
  {
    assert Covers(value, value);
    if entry.PatternUses? { assert value in entry.patterns; }
    forall y | IsConcrete(y) && UseAllows(uses, name, y) ensures UseAllows(map[name := entry], name, y) {
      match uses[name]
      case PatternUses(patterns, _) =>
        var p :| p in patterns && Covers(p, y);
        assert p in entry.patterns;
      case VariableUses(pattern, _) => CoversTrans(entry.pattern.value, pattern.value, y);
    }
    EntryWidens(uses, name, entry);
  }

  /** The use of the same kind and width that allows every value. */
  function Everything(u: FieldUses): FieldUses
  {
    var everything := seq(u.len, _ => Var);
    if u.PatternUses? then PatternUses({everything}, u.len) else VariableUses(Some(everything), u.len)
  }

  /** The entries of fixed names allow everything, the others stay. */
  function Freed(uses: UseTable, fixed: set<string>): UseTable
  {
    map name | name in uses :: if name in fixed then Everything(uses[name]) else uses[name]
  }

  /** The largest uses of the named fields. */
  function Largest(maxUses: UseTable, names: set<string>): UseTable
  {
    map name | name in names && name in maxUses :: maxUses[name]
  }

  /** The entry of a name replaced by one that allows every value of its width. */
  method AllowEverything(uses: UseTable, name: string, ghost schema: Schema) returns (next: UseTable)
    requires UsesFollow(uses, schema) && name in uses
    ensures next == uses[name := Everything(uses[name])]
    ensures UsesFollow(next, schema) && Wider(uses, next) && AllowsAll(next[name])
  {
    hide AllowsAll, Wider, UsesFollow;
    var everything := Everything(uses[name]);
    EverythingFollows(uses, name, schema);
    EverythingAllows(uses[name]);
    EverythingWidens(uses, name, everything, schema);
    next := uses[name := everything];
  }

  lemma EverythingFollows(uses: UseTable, name: string, schema: Schema)
    requires UsesFollow(uses, schema) && name in uses
    ensures UsesFollow(uses[name := Everything(uses[name])], schema)
  {
    assert UseFollows(uses[name], schema[name]);
    assert UseFollows(Everything(uses[name]), schema[name]);
  }

  /** The forms the program uses, by instruction name. */
  ghost predicate FormsFrom(forms: FormTable, program: seq<ProgramInstruction>, n: nat)
    requires n <= |program|
  {
    && (forall k | 0 <= k < n :: program[k].name in forms && program[k].formName in forms[program[k].name])
    && forall name, f | name in forms && f in forms[name] :: UsedForm(program, n, name, f)
  }

  /** The candidate built from the program: it supports the program, its forms are the program's, no listed patterns
      of a field merge any further, and it accepts least among the candidates of its kinds that support the
      program. */
  ghost predicate BuiltFrom(program: seq<ProgramInstruction>, uses: UseTable, forms: FormTable)
  {
    && SupportsAll(program, uses, forms) && FormsFrom(forms, program, |program|) && AllMerged(uses)
    && forall other: UseTable, otherForms: FormTable | SupportsAll(program, other, otherForms)
         && SameKinds(uses, other) ::
         Wider(uses, other)
  }

  ghost predicate AllMerged(uses: UseTable)
  {
    forall name | name in uses && uses[name].PatternUses? :: Unmergeable(uses[name].patterns)
  }

  lemma MergedOverEmpty(emptyUses: UseTable, table: UseTable, merged: UseTable)
    requires AllowsNothing(emptyUses) && merged.Keys == table.Keys
    requires forall name | name in table :: EntryMerged(table[name], merged[name])
    ensures AllMerged(emptyUses + merged)
  {
    hide Unmergeable;
    NothingUnmergeable();
    forall name | name in emptyUses && emptyUses[name].PatternUses? ensures emptyUses[name].patterns == {} {
      forall p | p in emptyUses[name].patterns ensures UseAllows(emptyUses, name, p) { CoversItself(p); }
      assert forall y :: !UseAllows(emptyUses, name, y);
    }
    forall name | name in merged && merged[name].PatternUses? ensures Unmergeable(merged[name].patterns) {
      assert EntryMerged(table[name], merged[name]);
    }
  }

  lemma NothingUnmergeable()
    ensures Unmergeable({})
  {
  }

  ghost predicate UsedForm(program: seq<ProgramInstruction>, n: nat, name: string, f: string)
    requires n <= |program|
  {
    exists k :: 0 <= k < n && program[k].name == name && program[k].formName == f
  }

  lemma FormsFromMore(forms: FormTable, program: seq<ProgramInstruction>, n: nat)
    requires n < |program| && FormsFrom(forms, program, n)
    ensures var i := program[n];
      FormsFrom(forms[i.name := (if i.name in forms then forms[i.name] else {}) + {i.formName}], program, n + 1)
  {
    var i := program[n];
    var more := forms[i.name := (if i.name in forms then forms[i.name] else {}) + {i.formName}];
    forall name, f | name in more && f in more[name] ensures UsedForm(program, n + 1, name, f) {
      if name in forms && f in forms[name] {
        assert UsedForm(program, n, name, f);
      } else {
        assert program[n].name == name && program[n].formName == f;
      }
    }
  }

  method ActiveForms(instructionNames: set<string>, program: seq<ProgramInstruction>) returns (forms: FormTable)
    ensures FormsFrom(forms, program, |program|)
  {
    forms := map name | name in instructionNames :: {};
    for n := 0 to |program|
      invariant FormsFrom(forms, program, n)
    {
      FormsFromMore(forms, program, n);
      var i := program[n];
      var active := if i.name in forms then forms[i.name] else {};
      forms := forms[i.name := active + {i.formName}];
    }
  }

  /** The observed uses, merged, over the uses that allow nothing. */
  method LeastUses(emptyUses: UseTable, program: seq<ProgramInstruction>, ghost schema: Schema)
    returns (uses: UseTable, ghost observed: seq<Observation>)
    requires ProgramFollows(program, schema) && UsesFollow(emptyUses, schema) && AllowsNothing(emptyUses)
    ensures UsesFollow(uses, schema) && AcceptsObservations(observed, uses) && Seen(observed, program, |program|, 0)
    ensures AllMerged(uses)
    ensures forall other: UseTable, forms: FormTable | SupportsAll(program, other, forms)
              && SameKinds(uses, other) :: Wider(uses, other)
  {
    var table;
    table, observed := ObserveProgram(program, schema);
    var merged := MergeEntries(table, schema);
    uses := emptyUses + merged;
    ExplainedAccepts(table, observed, schema);
    OverEmpty(emptyUses, merged, schema);
    MergedOverEmpty(emptyUses, table, merged);
    forall o | o in observed ensures UseAllows(uses, o.name, o.value) {
      assert ObservationFollows(o, schema) && UseAllows(table, o.name, o.value) && UseAllows(merged, o.name, o.value);
    }
    forall other: UseTable, forms: FormTable | SupportsAll(program, other, forms) && SameKinds(uses, other)
      ensures Wider(uses, other)
    {
      SupportAccepts(program, observed, other, forms);
      LeastTable(uses, table, merged, observed, other, schema);
    }
  }

  lemma SupportsObserved(
    program: seq<ProgramInstruction>, observed: seq<Observation>, uses: UseTable, forms: FormTable, schema: Schema)
    requires ProgramFollows(program, schema) && AcceptsObservations(observed, uses)
    requires Seen(observed, program, |program|, 0) && FormsFrom(forms, program, |program|)
    ensures SupportsAll(program, uses, forms)
  {
    forall k | 0 <= k < |program|
      ensures |program[k].bits| == Total(program[k].form) && SupportedBy(program[k], uses, forms)
    {
      assert InstructionOk(program[k], schema);
      ObservedSupports(program, observed, uses, schema, k);
    }
  }

  /** A restricted instruction set under construction. */
  class ISACandidate {
    var uses: UseTable
    var forms: FormTable

    /** What every pass promises: nothing accepted before is lost. */
    twostate predicate Widened()
      reads this
    {
      Wider(old(uses), uses) && WiderForms(old(forms), forms)
    }

    /** The least candidate that supports the program. */
    constructor FromProgram(
      instructionNames: set<string>, emptyUses: UseTable, program: seq<ProgramInstruction>, ghost schema: Schema)
      requires ProgramFollows(program, schema) && UsesFollow(emptyUses, schema) && AllowsNothing(emptyUses)
      ensures UsesFollow(uses, schema) && BuiltFrom(program, uses, forms)
    {
      var observedUses;
      ghost var observed;
      observedUses, observed := LeastUses(emptyUses, program, schema);
      var active := ActiveForms(instructionNames, program);
      SupportsObserved(program, observed, observedUses, active, schema);
      uses, forms := observedUses, active;
    }

    /** Switches a form on and lets every field take the value it has in some encoding of the largest candidate. */
    method RepairForm(name: string, form: (string, Form), maxUses: UseTable, ghost schema: Schema)
      returns (ghost repair: FormRepair)
      requires FormFollows(form.1, schema) && UsesFollow(uses, schema) && UsesFollow(maxUses, schema)
      modifies this
      ensures Widened() && UsesFollow(uses, schema)
      ensures OthersStay(old(forms), forms, name)
      ensures forall formName ::
                Active(forms, name, formName) <==> Active(old(forms), name, formName) || formName == form.0
      ensures if HasEncoding(form.1, maxUses) then HasEncoding(form.1, uses) else uses == old(uses)
      ensures repair.name == name && repair.form == form && ValuesOfForm(form.1, maxUses, repair.values)
      ensures GrownBy(old(uses), uses, repair.values)
    {
      hide GrownBy, ValuesOfForm, HasEncoding, UsesFollow, FormFollows, Wider;
      var active := if name in forms then forms[name] else {};
      forms := forms[name := active + {form.0}];
      ghost var values := RepairFields(form.1, maxUses, schema);
      repair := FormRepair(name, form, values);
    }

    method RepairFields(form: Form, maxUses: UseTable, ghost schema: Schema) returns (ghost repairs: Repairs)
      requires FormFollows(form, schema) && UsesFollow(uses, schema) && UsesFollow(maxUses, schema)
      modifies this`uses
      ensures Wider(old(uses), uses) && UsesFollow(uses, schema)
      ensures if HasEncoding(form, maxUses) then HasEncoding(form, uses) else uses == old(uses)
      ensures ValuesOfForm(form, maxUses, repairs) && GrownBy(old(uses), uses, repairs)
    {
      hide GrownBy, TakenValues, RepairedTo, FieldRepaired, FieldTakes, HasEncoding, UsesFollow, Wider;
      FollowingFits(form, maxUses, schema);
      ghost var values: seq<Pattern> := [];
      ghost var encodable := HasEncoding(form, maxUses);
      NoValuesYet(form, maxUses, uses);
      for k := 0 to |form.fields|
        invariant Wider(old(uses), uses) && UsesFollow(uses, schema)
        invariant if encodable then RepairedTo(form, k, values, uses) else uses == old(uses)
        invariant |values| == k
        invariant encodable ==> TakenValues(form, maxUses, values)
        invariant encodable ==> GrownBy(old(uses), uses, NamedValues(form, values))
      {
        ghost var before := uses;
        ghost var value := RepairField(form, k, maxUses, schema);
        WiderTrans(old(uses), before, uses);
        if encodable {
          RepairedMore(form, k, values, value, before, uses);
          NamedValuesMore(form, values, value);
          TakenMore(form, maxUses, values, value);
          GrownTwice(old(uses), before, uses, NamedValues(form, values), NamedValue(form.fields[k], value));
        }
        values := values + [value];
      }
      if encodable { RepairedHasEncoding(form, values, uses); } else { NotGrown(uses); }
      repairs := if encodable then NamedValues(form, values) else {};
    }

    method RepairField(form: Form, k: nat, maxUses: UseTable, ghost schema: Schema) returns (ghost value: Pattern)
      requires FormFollows(form, schema) && UsesFollow(uses, schema) && UsesFollow(maxUses, schema)
      requires k < |form.fields| && UsesFit(form, maxUses)
      modifies this`uses
      ensures Wider(old(uses), uses) && UsesFollow(uses, schema)
      ensures if HasEncoding(form, maxUses) then FieldRepaired(form, k, value, uses) else uses == old(uses)
      ensures HasEncoding(form, maxUses) ==> FieldTakes(form, maxUses, k, value)
      ensures HasEncoding(form, maxUses) ==> GrownBy(old(uses), uses, NamedValue(form.fields[k], value))
    {
      var field := form.fields[k];
      var encodings := FieldsToEncodings(form, maxUses);
      EncodingsExist(form, maxUses, encodings);
      value := [];
      if encodings == [] { return; }
      EncodingFields(form, maxUses, encodings, k);
      assert FieldFollows(field, schema);
      var repair := FieldValue(form, Lowest(encodings[0]), k);
      value := repair;
      if field.name.None? {
        NotGrown(uses);
        return;
      }
      uses := MergeRepair(uses, field.name.value, repair, field.mode, schema);
    }

    /** Makes mandatory forms usable where they are not. */
    method RepairMandatoryForms(isa: seq<IsaInstruction>, mandatory: FormTable, maxUses: UseTable, ghost schema: Schema)
      returns (ghost repairs: set<FormRepair>)
      requires IsaFollows(isa, schema) && UsesFollow(uses, schema) && UsesFollow(maxUses, schema)
      modifies this
      ensures Widened() && UsesFollow(uses, schema)
      ensures MandatoryUsable(isa, |isa|, mandatory, maxUses, old(uses), old(forms), uses, forms)
      ensures RepairedBy(old(uses), old(forms), maxUses, repairs, uses, forms)
      ensures forall r | r in repairs :: Called(isa, mandatory, old(uses), old(forms), r)
    {
      hide RepairedBy, MandatoryUsable, LaterUntouched, Called, CalledAt, Repairable, SomeUsable, Usable, NamedUsable;
      ghost var start, startForms := uses, forms;
      repairs := {};
      NothingRepaired(uses, forms, maxUses);
      NothingAsked(isa, mandatory, maxUses, start, startForms);
      for n := 0 to |isa|
        invariant Widened() && UsesFollow(uses, schema)
        invariant LaterUntouched(isa, n, startForms, forms)
        invariant MandatoryUsable(isa, n, mandatory, maxUses, start, startForms, uses, forms)
        invariant RepairedBy(start, startForms, maxUses, repairs, uses, forms)
        invariant forall r | r in repairs :: Called(isa, mandatory, start, startForms, r)
      {
        ghost var before, beforeForms := uses, forms;
        ghost var more := RepairInstruction(isa, n, mandatory, maxUses, schema);
        StartedAlike(isa, n, maxUses, start, startForms, before, beforeForms);
        RepairedTwice(start, startForms, maxUses, repairs, before, beforeForms, more, uses, forms);
        forall r | r in more ensures Called(isa, mandatory, start, startForms, r) {
          CalledEarlier(isa, n, mandatory, start, startForms, before, beforeForms, r);
        }
        repairs := repairs + more;
        MandatoryStays(isa, n, mandatory, maxUses, start, startForms, before, beforeForms, uses, forms);
        LaterStaysUntouched(isa, n, startForms, beforeForms, forms);
        WiderTrans(start, before, uses);
      }
    }

    /** Repairs what is mandatory of one instruction. */
    method RepairInstruction(
      isa: seq<IsaInstruction>, n: nat, mandatory: FormTable, maxUses: UseTable, ghost schema: Schema)
      returns (ghost repairs: set<FormRepair>)
      requires n < |isa| && IsaFollows(isa, schema) && UsesFollow(uses, schema) && UsesFollow(maxUses, schema)
      modifies this
      ensures Widened() && UsesFollow(uses, schema) && OthersStay(old(forms), forms, isa[n].name)
      ensures AskedNow(isa[n], mandatory, maxUses, old(uses), old(forms), uses, forms)
      ensures RepairedBy(old(uses), old(forms), maxUses, repairs, uses, forms)
      ensures forall r | r in repairs :: CalledAt(isa[n], mandatory, old(uses), old(forms), r)
    {
      hide RepairedBy, Repairable, SomeUsable, Usable, NamedUsable, FindForm, Pick, UsesFollow, FormFollows;
      repairs := {};
      if isa[n].name !in mandatory {
        NothingRepaired(uses, forms, maxUses);
      } else if mandatory[isa[n].name] == {} {
        repairs := RepairSome(isa[n], maxUses, schema);
      } else {
        repairs := RepairNamed(isa[n], mandatory[isa[n].name], maxUses, schema);
      }
    }

    /** Repairs every named form that has no encoding yet. */
    method RepairNamed(instruction: IsaInstruction, names: set<string>, maxUses: UseTable, ghost schema: Schema)
      returns (ghost repairs: set<FormRepair>)
      requires forall k | 0 <= k < |instruction.forms| :: FormFollows(instruction.forms[k].1, schema)
      requires UsesFollow(uses, schema) && UsesFollow(maxUses, schema)
      modifies this
      ensures Widened() && UsesFollow(uses, schema) && OthersStay(old(forms), forms, instruction.name)
      ensures forall formName | formName in names :: NamedUsable(instruction, formName, maxUses, uses, forms)
      ensures RepairedBy(old(uses), old(forms), maxUses, repairs, uses, forms)
      ensures forall r | r in repairs :: NamedRepair(instruction, names, old(uses), old(forms), r)
    {
      hide RepairedBy, NamedUsable, NamedRepair, Usable, UsesFollow, FormFollows;
      var rest := names;
      repairs := {};
      NothingRepaired(uses, forms, maxUses);
      while rest != {}
        invariant rest <= names && Widened() && UsesFollow(uses, schema)
                  && OthersStay(old(forms), forms, instruction.name)
        invariant forall formName | formName in names - rest :: NamedUsable(instruction, formName, maxUses, uses, forms)
        invariant RepairedBy(old(uses), old(forms), maxUses, repairs, uses, forms)
        invariant forall r | r in repairs :: NamedRepair(instruction, names, old(uses), old(forms), r)
      {
        var formName :| formName in rest;
        ghost var before, beforeForms := uses, forms;
        ghost var more := RepairOneNamed(instruction, names, formName, maxUses, schema);
        RepairedTwice(old(uses), old(forms), maxUses, repairs, before, beforeForms, more, uses, forms);
        forall r | r in more ensures NamedRepair(instruction, names, old(uses), old(forms), r) {
          NamedEarlier(instruction, names, old(uses), old(forms), before, beforeForms, r);
        }
        repairs := repairs + more;
        forall other | other in names - rest ensures NamedUsable(instruction, other, maxUses, uses, forms) {
          NamedStays(instruction, other, maxUses, before, beforeForms, uses, forms);
        }
        WiderTrans(old(uses), before, uses);
        OthersTrans(old(forms), beforeForms, forms, instruction.name);
        rest := rest - {formName};
      }
    }

    method RepairOneNamed(
      instruction: IsaInstruction, ghost names: set<string>, formName: string, maxUses: UseTable, ghost schema: Schema)
      returns (ghost repairs: set<FormRepair>)
      requires forall k | 0 <= k < |instruction.forms| :: FormFollows(instruction.forms[k].1, schema)
      requires UsesFollow(uses, schema) && UsesFollow(maxUses, schema) && formName in names
      modifies this
      ensures Widened() && UsesFollow(uses, schema) && OthersStay(old(forms), forms, instruction.name)
      ensures NamedUsable(instruction, formName, maxUses, uses, forms)
      ensures RepairedBy(old(uses), old(forms), maxUses, repairs, uses, forms)
      ensures forall r | r in repairs :: NamedRepair(instruction, names, old(uses), old(forms), r)
    {
      hide RepairedBy, Usable, UsesFollow, FormFollows;
      repairs := {};
      var k := FindForm(instruction.forms, formName);
      if k < |instruction.forms| {
        repairs := RepairIfUnusable(instruction.name, instruction.forms[k], maxUses, schema);
      } else {
        NothingRepaired(uses, forms, maxUses);
      }
    }

    method RepairIfUnusable(name: string, form: (string, Form), maxUses: UseTable, ghost schema: Schema)
      returns (ghost repairs: set<FormRepair>)
      requires FormFollows(form.1, schema) && UsesFollow(uses, schema) && UsesFollow(maxUses, schema)
      modifies this
      ensures Widened() && UsesFollow(uses, schema) && OthersStay(old(forms), forms, name)
      ensures HasEncoding(form.1, maxUses) ==> Usable(name, form, uses, forms)
      ensures RepairedBy(old(uses), old(forms), maxUses, repairs, uses, forms)
      ensures forall r | r in repairs :: r.name == name && r.form == form && !Usable(name, form, old(uses), old(forms))
    {
      hide RepairedBy, UsesFollow, FormFollows;
      var usable := IsUsable(name, form, schema);
      repairs := {};
      if usable {
        NothingRepaired(uses, forms, maxUses);
      } else {
        ghost var repair := RepairForm(name, form, maxUses, schema);
        repairs := {repair};
        OneRepaired(old(uses), old(forms), maxUses, repair, uses, forms);
      }
    }

    /** Whether the form is active and has an encoding. */
    method IsUsable(name: string, form: (string, Form), ghost schema: Schema) returns (usable: bool)
      requires FormFollows(form.1, schema) && UsesFollow(uses, schema)
      ensures usable <==> Usable(name, form, uses, forms)
    {
      if !Active(forms, name, form.0) { return false; }
      FollowingFits(form.1, uses, schema);
      var encodings := FieldsToEncodings(form.1, uses);
      EncodingsExist(form.1, uses, encodings);
      usable := encodings != [];
    }

    /** Whether some active form has an encoding. */
    method HasActiveEncoding(instruction: IsaInstruction, ghost schema: Schema) returns (found: bool)
      requires forall k | 0 <= k < |instruction.forms| :: FormFollows(instruction.forms[k].1, schema)
      requires UsesFollow(uses, schema)
      ensures found <==> SomeUsable(instruction, uses, forms)
    {
      hide FormFollows, Usable, UsesFollow;
      for k := 0 to |instruction.forms|
        invariant forall j | 0 <= j < k :: !Usable(instruction.name, instruction.forms[j], uses, forms)
      {
        var usable := IsUsable(instruction.name, instruction.forms[k], schema);
        if usable { return true; }
      }
      return false;
    }

    /** With no form named, any usable one will do; otherwise the first active one, or the first, is repaired.
        Afterwards some form is usable if and only if one was, or the picked form has an encoding. */
    method RepairSome(instruction: IsaInstruction, maxUses: UseTable, ghost schema: Schema)
      returns (ghost repairs: set<FormRepair>)
      requires forall k | 0 <= k < |instruction.forms| :: FormFollows(instruction.forms[k].1, schema)
      requires UsesFollow(uses, schema) && UsesFollow(maxUses, schema)
      modifies this
      ensures Widened() && UsesFollow(uses, schema) && OthersStay(old(forms), forms, instruction.name)
      ensures Repairable(instruction, maxUses, old(uses), old(forms)) ==> SomeUsable(instruction, uses, forms)
      ensures DistinctForms(instruction) && SomeUsable(instruction, uses, forms) ==>
                Repairable(instruction, maxUses, old(uses), old(forms))
      ensures RepairedBy(old(uses), old(forms), maxUses, repairs, uses, forms)
      ensures forall r | r in repairs :: PickedRepair(instruction, old(uses), old(forms), r)
    {
      hide RepairedBy, SomeUsable, UsesFollow, FormFollows;
      ghost var before, beforeForms := uses, forms;
      repairs := {};
      var found := HasActiveEncoding(instruction, schema);
      if found || instruction.forms == [] {
        NothingRepaired(uses, forms, maxUses);
        if instruction.forms == [] { NoFormsNotUsable(instruction, uses, forms); }
        return;
      }
      var k := 0;
      assert instruction.forms[0..] == instruction.forms;
      while k < |instruction.forms| && !Active(forms, instruction.name, instruction.forms[k].0)
        invariant k <= |instruction.forms|
        invariant FirstActive(instruction.name, instruction.forms, forms)
               == k + FirstActive(instruction.name, instruction.forms[k..], forms)
      {
        assert instruction.forms[k..][1..] == instruction.forms[k + 1..];
        k := k + 1;
      }
      var chosen := if k < |instruction.forms| then k else 0;
      assert chosen == Pick(instruction, beforeForms);
      ghost var repair := RepairForm(instruction.name, instruction.forms[chosen], maxUses, schema);
      repairs := {repair};
      OneRepaired(before, beforeForms, maxUses, repair, uses, forms);
      RepairedPick(instruction, maxUses, before, beforeForms, uses, forms);
    }

    /** Gives the fields of unrestricted forms their largest uses and switches those forms on. */
    method RestoreUnrestricted(names: set<string>, maxUses: UseTable, unrestricted: FormTable, ghost schema: Schema)
      requires UsesFollow(uses, schema) && UsesFollow(maxUses, schema)
      requires forall name | name in maxUses :: AllowsAll(maxUses[name])
      modifies this
      ensures Widened() && UsesFollow(uses, schema)
      ensures uses == old(uses) + Largest(maxUses, names)
      ensures forall name, f ::
                Active(forms, name, f) <==> Active(old(forms), name, f) || Active(unrestricted, name, f)
    {
      var rest := names;
      while rest != {}
        invariant rest <= names && Wider(old(uses), uses) && UsesFollow(uses, schema) && forms == old(forms)
        invariant uses == old(uses) + Largest(maxUses, names - rest)
      {
        var name :| name in rest;
        if name in maxUses {
          LargestWidens(uses, maxUses, name, schema);
          WiderTrans(old(uses), uses, uses[name := maxUses[name]]);
          uses := uses[name := maxUses[name]];
        }
        LargestMore(old(uses), maxUses, names - rest, name);
        assert names - (rest - {name}) == names - rest + {name};
        rest := rest - {name};
      }
      assert names - rest == names;
      var left := unrestricted.Keys;
      while left != {}
        invariant left <= unrestricted.Keys && WiderForms(old(forms), forms)
        invariant Wider(old(uses), uses) && UsesFollow(uses, schema)
        invariant uses == old(uses) + Largest(maxUses, names)
        invariant forall name, f ::
            Active(forms, name, f)
            <==> Active(old(forms), name, f) || (name !in left && Active(unrestricted, name, f))
      {
        var name :| name in left;
        var active := if name in forms then forms[name] else {};
        forms := forms[name := active + unrestricted[name]];
        left := left - {name};
      }
    }

    /** Gives the fields the search may not touch their largest uses. */
    method RestoreUnmutable(fixed: set<string>, ghost schema: Schema)
      requires UsesFollow(uses, schema)
      modifies this`uses
      ensures Wider(old(uses), uses) && UsesFollow(uses, schema)
      ensures uses == Freed(old(uses), fixed)
    {
      var rest := uses.Keys;
      while rest != {}
        invariant rest <= uses.Keys && Wider(old(uses), uses) && UsesFollow(uses, schema)
        invariant uses == Freed(old(uses), fixed - rest)
      {
        var name :| name in rest;
        if name in fixed {
          var next := AllowEverything(uses, name, schema);
          WiderTrans(old(uses), uses, next);
          uses := next;
        }
        rest := rest - {name};
      }
    }

    /** The smallest feature set for a program: it supports every instruction of the program, mandatory forms that
        the largest candidate can encode have an encoding, and so does some form of each mandatory instruction that
        could be repaired in the candidate built from the program. */
    constructor MinimumFeatures(
      isa: seq<IsaInstruction>, emptyUses: UseTable, program: seq<ProgramInstruction>, mandatory: FormTable,
      unrestrictedFields: set<string>, unrestricted: FormTable, maxUses: UseTable, fixed: set<string>,
      ghost schema: Schema)
      requires ProgramFollows(program, schema) && IsaFollows(isa, schema)
      requires UsesFollow(emptyUses, schema) && AllowsNothing(emptyUses)
      requires UsesFollow(maxUses, schema) && forall name | name in maxUses :: AllowsAll(maxUses[name])
      ensures UsesFollow(uses, schema) && SupportsAll(program, uses, forms)
      ensures exists m: Making ::
                Made(m, isa, program, mandatory, maxUses)
                && MandatoryUsable(isa, |isa|, mandatory, maxUses, m.start, m.startForms, uses, forms)
                && uses == Freed(m.grown + Largest(maxUses, unrestrictedFields), fixed)
                && forall name, f :: Active(forms, name, f) <==> MadeActive(m, program, unrestricted, name, f)
      ensures MandatoryMet(isa, program, mandatory, maxUses, uses, forms)
    {
      hide BuiltFrom, MandatoryUsable, MandatoryMet, RepairedBy, Called, Made, MadeActive, SupportsAll, UsesFollow;
      var least := new ISACandidate.FromProgram(set n | 0 <= n < |isa| :: isa[n].name, emptyUses, program, schema);
      ghost var firstUses, firstForms := least.uses, least.forms;
      ghost var repairs := least.RepairMandatoryForms(isa, mandatory, maxUses, schema);
      ghost var repaired, repairedForms := least.uses, least.forms;
      assert Wider(firstUses, repaired) && WiderForms(firstForms, repairedForms);
      least.RestoreUnrestricted(unrestrictedFields, maxUses, unrestricted, schema);
      ghost var restored, restoredForms := least.uses, least.forms;
      assert Wider(repaired, restored) && WiderForms(repairedForms, restoredForms);
      least.RestoreUnmutable(fixed, schema);
      assert Wider(restored, least.uses) && least.forms == restoredForms;
      WiderTrans(repaired, restored, least.uses);
      WiderTrans(firstUses, repaired, least.uses);
      SupportsStay(program, schema, firstUses, firstForms, least.uses, least.forms);
      AllMandatoryStay(isa, |isa|, mandatory, maxUses, firstUses, firstForms, repaired, repairedForms, least.uses,
                       least.forms);
      MandatoryFromProgram(isa, program, mandatory, maxUses, firstUses, firstForms, least.uses, least.forms, schema);
      ghost var m := Making(firstUses, firstForms, repairs, repaired);
      IsMade(m, isa, program, mandatory, maxUses, repairedForms);
      forall name, f ensures Active(least.forms, name, f) <==> MadeActive(m, program, unrestricted, name, f) {
        ActiveIsMade(m, program, maxUses, repairedForms, unrestricted, name, f);
      }
      uses, forms := least.uses, least.forms;
    }
  }

  // ----- what the repairs come to -----

  ghost predicate Switched(repairs: set<FormRepair>, name: string, f: string)
  {
    exists r :: r in repairs && r.name == name && r.form.0 == f
  }

  /** The candidate has grown by the repairs: by values their forms take in words the largest candidate accepts, and
      by their forms. */
  ghost predicate RepairedBy(
    before: UseTable, beforeForms: FormTable, maxUses: UseTable, repairs: set<FormRepair>, uses: UseTable,
    forms: FormTable)
  {
    && GrownBy(before, uses, AllValues(repairs))
    && (forall name, f ::
          Active(forms, name, f) <==> Active(beforeForms, name, f) || Switched(repairs, name, f))
    && forall r | r in repairs :: ValuesOfForm(r.form.1, maxUses, r.values)
  }

  lemma NothingRepaired(uses: UseTable, forms: FormTable, maxUses: UseTable)
    ensures RepairedBy(uses, forms, maxUses, {}, uses, forms)
  {
    NotGrown(uses);
    assert AllValues({}) == {};
  }

  lemma OneRepaired(
    before: UseTable, beforeForms: FormTable, maxUses: UseTable, r: FormRepair, uses: UseTable, forms: FormTable)
    requires GrownBy(before, uses, r.values) && ValuesOfForm(r.form.1, maxUses, r.values)
    requires OthersStay(beforeForms, forms, r.name)
    requires forall f :: Active(forms, r.name, f) <==> Active(beforeForms, r.name, f) || f == r.form.0
    ensures RepairedBy(before, beforeForms, maxUses, {r}, uses, forms)
  {
    hide GrownBy;
    AllValuesOne(r);
    forall name, f ensures Switched({r}, name, f) <==> name == r.name && f == r.form.0 { assert r in {r}; }
  }

  lemma RepairedTwice(
    start: UseTable, startForms: FormTable, maxUses: UseTable, a: set<FormRepair>, before: UseTable,
    beforeForms: FormTable, b: set<FormRepair>, uses: UseTable, forms: FormTable)
    requires RepairedBy(start, startForms, maxUses, a, before, beforeForms)
    requires RepairedBy(before, beforeForms, maxUses, b, uses, forms)
    ensures RepairedBy(start, startForms, maxUses, a + b, uses, forms)
  {
    hide GrownBy, Active, ValuesOfForm;
    AllValuesUnion(a, b);
    GrownTwice(start, before, uses, AllValues(a), AllValues(b));
    forall name, f ensures Switched(a + b, name, f) <==> Switched(a, name, f) || Switched(b, name, f) {
      if r :| r in a && r.name == name && r.form.0 == f { assert r in a + b; }
      if r :| r in b && r.name == name && r.form.0 == f { assert r in a + b; }
    }
  }

  /** A named form of the instruction that was not usable. */
  ghost predicate NamedRepair(
    i: IsaInstruction, names: set<string>, uses: UseTable, forms: FormTable, r: FormRepair)
  {
    var k := FindForm(i.forms, r.form.0);
    && r.name == i.name && r.form.0 in names && k < |i.forms| && r.form == i.forms[k]
    && !Usable(i.name, r.form, uses, forms)
  }

  /** The picked form of an instruction that had no usable one. */
  ghost predicate PickedRepair(i: IsaInstruction, uses: UseTable, forms: FormTable, r: FormRepair)
  {
    && r.name == i.name && i.forms != [] && !SomeUsable(i, uses, forms)
    && r.form == i.forms[Pick(i, forms)]
  }

  /** The repair is one that the instruction calls for. */
  ghost predicate CalledAt(i: IsaInstruction, mandatory: FormTable, uses: UseTable, forms: FormTable, r: FormRepair)
  {
    && i.name in mandatory
    && if mandatory[i.name] == {} then PickedRepair(i, uses, forms, r)
       else NamedRepair(i, mandatory[i.name], uses, forms, r)
  }

  /** Some instruction calls for the repair, as the candidate was before the whole pass. An instruction that shares
      its name with an earlier one may by then lead to another of its forms. */
  ghost predicate Called(
    isa: seq<IsaInstruction>, mandatory: FormTable, start: UseTable, startForms: FormTable, r: FormRepair)
  {
    exists n :: 0 <= n < |isa| && CalledFirst(isa, n, mandatory, start, startForms, r)
  }

  ghost predicate CalledFirst(
    isa: seq<IsaInstruction>, n: nat, mandatory: FormTable, start: UseTable, startForms: FormTable, r: FormRepair)
    requires n < |isa|
  {
    var i := isa[n];
    && i.name in mandatory
    && if mandatory[i.name] != {} then NamedRepair(i, mandatory[i.name], start, startForms, r)
       else if FirstOfName(isa, n) then PickedRepair(i, start, startForms, r)
       else r.name == i.name && !SomeUsable(i, start, startForms) && r.form in i.forms
  }

  lemma NamedEarlier(
    i: IsaInstruction, names: set<string>, start: UseTable, startForms: FormTable, uses: UseTable, forms: FormTable,
    r: FormRepair)
    requires NamedRepair(i, names, uses, forms, r) && Wider(start, uses) && WiderForms(startForms, forms)
    ensures NamedRepair(i, names, start, startForms, r)
  {
    if Usable(i.name, r.form, start, startForms) { UsableStays(i.name, r.form, start, startForms, uses, forms); }
  }

  lemma CalledEarlier(
    isa: seq<IsaInstruction>, n: nat, mandatory: FormTable, start: UseTable, startForms: FormTable, uses: UseTable,
    forms: FormTable, r: FormRepair)
    requires n < |isa| && CalledAt(isa[n], mandatory, uses, forms, r)
    requires Wider(start, uses) && WiderForms(startForms, forms) && LaterUntouched(isa, n, startForms, forms)
    ensures Called(isa, mandatory, start, startForms, r)
  {
    hide Wider, WiderForms, SomeUsable, Usable, FindForm, NamedRepair;
    var i := isa[n];
    if mandatory[i.name] == {} {
      SomeStays(i, start, startForms, uses, forms);
      if FirstOfName(isa, n) { SameFirstActive(i.name, i.forms, startForms, forms); }
    } else {
      NamedEarlier(i, mandatory[i.name], start, startForms, uses, forms, r);
    }
    assert CalledFirst(isa, n, mandatory, start, startForms, r);
  }

  lemma NoValuesYet(form: Form, maxUses: UseTable, uses: UseTable)
    ensures TakenValues(form, maxUses, []) && GrownBy(uses, uses, NamedValues(form, []))
    ensures RepairedTo(form, 0, [], uses) && Wider(uses, uses)
  {
    assert NamedValues(form, []) == {};
    NotGrown(uses);
  }

  lemma LargestMore(uses: UseTable, maxUses: UseTable, names: set<string>, name: string)
    ensures uses + Largest(maxUses, names + {name})
         == if name in maxUses then (uses + Largest(maxUses, names))[name := maxUses[name]]
            else uses + Largest(maxUses, names)
  {
  }

  /** How the smallest feature set is made before fields are restored: the candidate built from the program, the
      repairs, and the uses grown by them. */
  datatype Making = Making(start: UseTable, startForms: FormTable, repairs: set<FormRepair>, grown: UseTable)

  ghost predicate Made(
    m: Making, isa: seq<IsaInstruction>, program: seq<ProgramInstruction>, mandatory: FormTable, maxUses: UseTable)
  {
    && BuiltFrom(program, m.start, m.startForms) && GrownBy(m.start, m.grown, AllValues(m.repairs))
    && forall r | r in m.repairs ::
         Called(isa, mandatory, m.start, m.startForms, r) && ValuesOfForm(r.form.1, maxUses, r.values)
  }

  /** The forms of the program, the repaired and the unrestricted ones. */
  ghost predicate MadeActive(
    m: Making, program: seq<ProgramInstruction>, unrestricted: FormTable, name: string, f: string)
  {
    UsedForm(program, |program|, name, f) || Switched(m.repairs, name, f) || Active(unrestricted, name, f)
  }

  lemma IsMade(
    m: Making, isa: seq<IsaInstruction>, program: seq<ProgramInstruction>, mandatory: FormTable, maxUses: UseTable,
    forms: FormTable)
    requires BuiltFrom(program, m.start, m.startForms)
    requires RepairedBy(m.start, m.startForms, maxUses, m.repairs, m.grown, forms)
    requires forall r | r in m.repairs :: Called(isa, mandatory, m.start, m.startForms, r)
    ensures Made(m, isa, program, mandatory, maxUses)
  {
    hide BuiltFrom, Called, GrownBy;
  }

  lemma ActiveIsMade(
    m: Making, program: seq<ProgramInstruction>, maxUses: UseTable, forms: FormTable, unrestricted: FormTable,
    name: string, f: string)
    requires BuiltFrom(program, m.start, m.startForms)
    requires RepairedBy(m.start, m.startForms, maxUses, m.repairs, m.grown, forms)
    ensures Active(forms, name, f) || Active(unrestricted, name, f) <==> MadeActive(m, program, unrestricted, name, f)
  {
    assert Active(m.startForms, name, f) <==> UsedForm(program, |program|, name, f);
  }

  /** A field that is neither fixed nor unrestricted, and that no repaired form has, allows what the candidate built
      from the program allows, and nothing else. */
  lemma OtherFieldsAsBuilt(
    m: Making, isa: seq<IsaInstruction>, program: seq<ProgramInstruction>, mandatory: FormTable, maxUses: UseTable,
    unrestrictedFields: set<string>, fixed: set<string>, name: string, y: Pattern)
    requires Made(m, isa, program, mandatory, maxUses) && name !in fixed && name !in unrestrictedFields
    requires forall r, k | r in m.repairs && 0 <= k < |r.form.1.fields| :: r.form.1.fields[k].name != Some(name)
    ensures UseAllows(Freed(m.grown + Largest(maxUses, unrestrictedFields), fixed), name, y)
            <==> UseAllows(m.start, name, y)
  {
    NoFormNoValue(m.repairs, maxUses, name);
    GrowsLikeItself(m.start, m.grown, AllValues(m.repairs), name, y);
  }

  // ----- what the passes establish -----

  /** The value meets the predicate's demand on the field, and the field is constant or allows it. */
  ghost predicate FieldRepaired(form: Form, k: nat, value: Pattern, uses: UseTable)
  {
    && k < |form.fields| && |value| == Width(form.fields[k]) && IsConcrete(value)
    && FieldAllows(form.fields[k], uses, value)
    && Local(form.when, value, Start(form.fields, k), NameOf(form.fields[k]))
  }

  /** The first `k` fields have repaired values. */
  ghost predicate RepairedTo(form: Form, k: nat, values: seq<Pattern>, uses: UseTable)
  {
    |values| == k && forall j | 0 <= j < k :: FieldRepaired(form, j, values[j], uses)
  }

  lemma RepairedStays(form: Form, k: nat, values: seq<Pattern>, uses: UseTable, wider: UseTable)
    requires Wider(uses, wider)
    ensures RepairedTo(form, k, values, uses) ==> RepairedTo(form, k, values, wider)
  {
    if RepairedTo(form, k, values, uses) {
      forall j | 0 <= j < k ensures FieldRepaired(form, j, values[j], wider) {
        assert FieldRepaired(form, j, values[j], uses);
      }
    }
  }

  lemma RepairedMore(form: Form, k: nat, values: seq<Pattern>, value: Pattern, uses: UseTable, wider: UseTable)
    requires Wider(uses, wider) && RepairedTo(form, k, values, uses) && FieldRepaired(form, k, value, wider)
    ensures RepairedTo(form, k + 1, values + [value], wider)
  {
    RepairedStays(form, k, values, uses, wider);
  }

  lemma RepairedHasEncoding(form: Form, values: seq<Pattern>, uses: UseTable)
    requires FormOk(form) && RepairedTo(form, |form.fields|, values, uses)
    ensures HasEncoding(form, uses)
  {
    AcceptedByFields(form, uses, values);
  }

  function FindForm(forms: seq<(string, Form)>, name: string): (k: nat)
    ensures k <= |forms|
    ensures k < |forms| ==> forms[k].0 == name
  {
    if forms == [] then 0
    else if forms[0].0 == name then 0
    else 1 + FindForm(forms[1..], name)
  }

  /** The instruction's form of that name is usable, if the largest candidate can encode it at all. */
  ghost predicate NamedUsable(
    instruction: IsaInstruction, name: string, maxUses: UseTable, uses: UseTable, forms: FormTable)
  {
    var k := FindForm(instruction.forms, name);
    k < |instruction.forms| && HasEncoding(instruction.forms[k].1, maxUses) ==>
      Usable(instruction.name, instruction.forms[k], uses, forms)
  }

  ghost predicate SomeUsable(i: IsaInstruction, uses: UseTable, forms: FormTable)
  {
    exists k :: 0 <= k < |i.forms| && Usable(i.name, i.forms[k], uses, forms)
  }

  ghost predicate DistinctForms(i: IsaInstruction)
  {
    forall j, k | 0 <= j < k < |i.forms| :: i.forms[j].0 != i.forms[k].0
  }

  /** Some form is usable, or the form that would be repaired has an encoding. */
  ghost predicate Repairable(i: IsaInstruction, maxUses: UseTable, uses: UseTable, forms: FormTable)
  {
    || SomeUsable(i, uses, forms)
    || (i.forms != [] && var form := i.forms[Pick(i, forms)].1; HasEncoding(form, maxUses) || HasEncoding(form, uses))
  }

  lemma NoFormsNotUsable(i: IsaInstruction, uses: UseTable, forms: FormTable)
    requires i.forms == []
    ensures !SomeUsable(i, uses, forms)
  {
  }

  /** What repairing the picked form, with no form usable before, comes to. */
  lemma RepairedPick(
    i: IsaInstruction, maxUses: UseTable, before: UseTable, beforeForms: FormTable, uses: UseTable, forms: FormTable)
    requires i.forms != [] && !SomeUsable(i, before, beforeForms) && Wider(before, uses)
    requires var form := i.forms[Pick(i, beforeForms)];
      && (forall name :: Active(forms, i.name, name) <==> Active(beforeForms, i.name, name) || name == form.0)
      && if HasEncoding(form.1, maxUses) then HasEncoding(form.1, uses) else uses == before
    ensures Repairable(i, maxUses, before, beforeForms) ==> SomeUsable(i, uses, forms)
    ensures DistinctForms(i) && SomeUsable(i, uses, forms) ==> Repairable(i, maxUses, before, beforeForms)
  {
    var k := Pick(i, beforeForms);
    var form := i.forms[k];
    if HasEncoding(form.1, before) { WiderHasEncoding(form.1, before, uses); }
    if HasEncoding(form.1, uses) { assert Usable(i.name, i.forms[k], uses, forms); }
    if DistinctForms(i) && !HasEncoding(form.1, maxUses) && SomeUsable(i, uses, forms) {
      var j :| 0 <= j < |i.forms| && Usable(i.name, i.forms[j], uses, forms);
      assert !Usable(i.name, i.forms[j], before, beforeForms);
      assert j == k;
    }
  }

  /** Without an active form the first one decides, whatever the others could encode. */
  lemma FirstFormDecides(i: IsaInstruction, maxUses: UseTable, uses: UseTable, forms: FormTable)
    requires i.forms != [] && forall k | 0 <= k < |i.forms| :: !Active(forms, i.name, i.forms[k].0)
    ensures Repairable(i, maxUses, uses, forms)
            <==> HasEncoding(i.forms[0].1, maxUses) || HasEncoding(i.forms[0].1, uses)
  {
  }

  /** A first form that no word satisfies leaves the instruction without an encoding, next to a second form that
      every word satisfies. */
  lemma UnsatisfiableFirstForm(bit: Field, maxUses: UseTable, uses: UseTable, name: string)
    requires bit.name.None? && bit.pattern == [High]
    ensures var i := IsaInstruction(name, [("first", Form([bit], Never)), ("second", Form([bit], Always))]);
      && DistinctForms(i) && HasEncoding(i.forms[1].1, maxUses)
      && !Repairable(i, maxUses, uses, map[])
  {
    var i := IsaInstruction(name, [("first", Form([bit], Never)), ("second", Form([bit], Always))]);
    FirstFormDecides(i, maxUses, uses, map[]);
    var second := i.forms[1].1;
    assert Start(second.fields, 1) == Start(second.fields, 0) + 1;
    assert AcceptedWord(second, maxUses, [High]);
  }

  /** Some concrete word matches the constants of the form and meets its predicate. */
  ghost predicate Satisfiable(form: Form)
  {
    exists x :: SatisfyingWord(form, x)
  }

  ghost predicate SatisfyingWord(form: Form, x: Pattern)
  {
    |x| == Total(form) && IsConcrete(x) && ConstantsMatch(form, x) && Check(form.when, Decode(form, x)) == Some(true)
  }

  /** The table names every field of the form and allows all its values. */
  ghost predicate AllowsForm(form: Form, uses: UseTable)
  {
    forall k | 0 <= k < |form.fields| && form.fields[k].name.Some? ::
      var name := form.fields[k].name.value;
      name in uses && uses[name].len == Width(form.fields[k]) && AllowsAll(uses[name])
  }

  /** Under uses that allow everything a form has an encoding if and only if some word satisfies it. */
  lemma EncodableIsSatisfiable(form: Form, uses: UseTable)
    requires AllowsForm(form, uses)
    ensures HasEncoding(form, uses) <==> Satisfiable(form)
  {
    if HasEncoding(form, uses) {
      var x :| AcceptedWord(form, uses, x);
      assert SatisfyingWord(form, x);
    }
    if Satisfiable(form) {
      var x :| SatisfyingWord(form, x);
      var d := Decode(form, x);
      forall k | 0 <= k < |d.fields| && d.fields[k].name.Some?
        ensures UseAllows(uses, d.fields[k].name.value, d.fields[k].value)
      {
        assert d.fields[k] == DecodedField(form.fields[k].name, FieldValue(form, x, k));
        var u := uses[form.fields[k].name.value];
        assert |d.fields[k].value| == u.len;
      }
      assert AcceptedWord(form, uses, x);
    }
  }

  /** No earlier instruction has the name. */
  ghost predicate FirstOfName(isa: seq<IsaInstruction>, n: nat)
    requires n < |isa|
  {
    forall j | 0 <= j < n :: isa[j].name != isa[n].name
  }

  /** What is asked of instruction `n`, given the candidate before the pass. */
  ghost predicate InstructionUsable(
    isa: seq<IsaInstruction>, n: nat, mandatory: FormTable, maxUses: UseTable, start: UseTable, startForms: FormTable,
    uses: UseTable, forms: FormTable)
    requires n < |isa|
  {
    var i := isa[n];
    i.name in mandatory ==>
      if mandatory[i.name] == {}
      then FirstOfName(isa, n) && Repairable(i, maxUses, start, startForms) ==> SomeUsable(i, uses, forms)
      else forall name | name in mandatory[i.name] :: NamedUsable(i, name, maxUses, uses, forms)
  }

  /** What is asked of the first `n` instructions. */
  ghost predicate MandatoryUsable(
    isa: seq<IsaInstruction>, n: nat, mandatory: FormTable, maxUses: UseTable, start: UseTable, startForms: FormTable,
    uses: UseTable, forms: FormTable)
    requires n <= |isa|
  {
    forall k | 0 <= k < n :: InstructionUsable(isa, k, mandatory, maxUses, start, startForms, uses, forms)
  }

  /** Names that no instruction before `n` has still have the forms they had. */
  ghost predicate LaterUntouched(isa: seq<IsaInstruction>, n: nat, startForms: FormTable, forms: FormTable)
    requires n <= |isa|
  {
    forall name, formName | (forall j | 0 <= j < n :: isa[j].name != name) ::
      Active(startForms, name, formName) <==> Active(forms, name, formName)
  }

  /** What is asked of an instruction, given the candidate at the time. */
  ghost predicate AskedNow(
    i: IsaInstruction, mandatory: FormTable, maxUses: UseTable, before: UseTable, beforeForms: FormTable,
    uses: UseTable, forms: FormTable)
  {
    i.name in mandatory ==>
      if mandatory[i.name] == {} then Repairable(i, maxUses, before, beforeForms) ==> SomeUsable(i, uses, forms)
      else forall name | name in mandatory[i.name] :: NamedUsable(i, name, maxUses, uses, forms)
  }

  lemma NothingAsked(
    isa: seq<IsaInstruction>, mandatory: FormTable, maxUses: UseTable, start: UseTable, startForms: FormTable)
    ensures MandatoryUsable(isa, 0, mandatory, maxUses, start, startForms, start, startForms)
    ensures LaterUntouched(isa, 0, startForms, startForms)
  {
  }

  lemma LaterStaysUntouched(
    isa: seq<IsaInstruction>, n: nat, startForms: FormTable, before: FormTable, forms: FormTable)
    requires n < |isa| && LaterUntouched(isa, n, startForms, before) && OthersStay(before, forms, isa[n].name)
    ensures LaterUntouched(isa, n + 1, startForms, forms)
  {
    forall name, formName | (forall j | 0 <= j < n + 1 :: isa[j].name != name)
      ensures Active(startForms, name, formName) <==> Active(forms, name, formName)
    {
      assert isa[n].name != name;
    }
  }

  lemma {:induction false} SameFirstActive(name: string, all: seq<(string, Form)>, a: FormTable, b: FormTable)
    requires forall formName :: Active(a, name, formName) <==> Active(b, name, formName)
    ensures FirstActive(name, all, a) == FirstActive(name, all, b)
  {
    if all != [] { SameFirstActive(name, all[1..], a, b); }
  }

  /** What could be repaired before the pass can be repaired when the pass reaches the instruction. */
  lemma StartedAlike(
    isa: seq<IsaInstruction>, n: nat, maxUses: UseTable, start: UseTable, startForms: FormTable, uses: UseTable,
    forms: FormTable)
    requires n < |isa| && LaterUntouched(isa, n, startForms, forms) && Wider(start, uses)
    ensures FirstOfName(isa, n) && Repairable(isa[n], maxUses, start, startForms)
            ==> Repairable(isa[n], maxUses, uses, forms)
  {
    var i := isa[n];
    if FirstOfName(isa, n) && Repairable(i, maxUses, start, startForms) {
      SameFirstActive(i.name, i.forms, startForms, forms);
      if k :| 0 <= k < |i.forms| && Usable(i.name, i.forms[k], start, startForms) {
        WiderHasEncoding(i.forms[k].1, start, uses);
        assert Usable(i.name, i.forms[k], uses, forms);
      } else {
        var form := i.forms[Pick(i, startForms)].1;
        if HasEncoding(form, start) { WiderHasEncoding(form, start, uses); }
      }
    }
  }

  // ----- what a program asks for -----

  /** An instruction of the program uses the form. */
  ghost predicate FormUsed(program: seq<ProgramInstruction>, i: IsaInstruction, j: nat)
    requires j < |i.forms|
  {
    exists k :: 0 <= k < |program| && UsesForm(program[k], i.name, i.forms[j])
  }

  ghost predicate UsesForm(p: ProgramInstruction, name: string, form: (string, Form))
  {
    p.name == name && p.formName == form.0 && p.form == form.1 && |p.bits| == Total(p.form)
    && ConstantsMatch(p.form, p.bits)
  }

  /** The first of the forms that the program uses, by name, or the first one at all. */
  ghost function FirstUsed(program: seq<ProgramInstruction>, name: string, all: seq<(string, Form)>): (k: nat)
    ensures k <= |all|
  {
    if all == [] || UsedForm(program, |program|, name, all[0].0) then 0 else 1 + FirstUsed(program, name, all[1..])
  }

  lemma {:induction false} FirstUsedIsActive(
    program: seq<ProgramInstruction>, name: string, all: seq<(string, Form)>, forms: FormTable)
    requires FormsFrom(forms, program, |program|)
    ensures FirstUsed(program, name, all) == FirstActive(name, all, forms)
  {
    if all != [] {
      assert Active(forms, name, all[0].0) <==> UsedForm(program, |program|, name, all[0].0);
      FirstUsedIsActive(program, name, all[1..], forms);
    }
  }

  /** The program uses a form of the instruction, or the form it leads to can be encoded. */
  ghost predicate Encodable(program: seq<ProgramInstruction>, i: IsaInstruction, maxUses: UseTable)
  {
    || (exists j :: 0 <= j < |i.forms| && FormUsed(program, i, j))
    || (i.forms != [] &&
        var k := FirstUsed(program, i.name, i.forms);
        HasEncoding(i.forms[if k < |i.forms| then k else 0].1, maxUses))
  }

  /** Mandatory forms have encodings: named ones that the largest candidate can encode, and some form of each
      instruction for which none is named, if the program uses one or the form it leads to can be encoded. */
  ghost predicate MandatoryMet(
    isa: seq<IsaInstruction>, program: seq<ProgramInstruction>, mandatory: FormTable, maxUses: UseTable,
    uses: UseTable, forms: FormTable)
  {
    forall n | 0 <= n < |isa| && isa[n].name in mandatory ::
      if mandatory[isa[n].name] == {}
      then FirstOfName(isa, n) && Encodable(program, isa[n], maxUses) ==> SomeUsable(isa[n], uses, forms)
      else forall name | name in mandatory[isa[n].name] :: NamedUsable(isa[n], name, maxUses, uses, forms)
  }

  lemma EncodableIsRepairable(
    program: seq<ProgramInstruction>, i: IsaInstruction, maxUses: UseTable, uses: UseTable, forms: FormTable,
    schema: Schema)
    requires ProgramFollows(program, schema) && SupportsAll(program, uses, forms)
             && FormsFrom(forms, program, |program|)
    requires Encodable(program, i, maxUses)
    ensures Repairable(i, maxUses, uses, forms)
  {
    if j :| 0 <= j < |i.forms| && FormUsed(program, i, j) {
      var k :| 0 <= k < |program| && UsesForm(program[k], i.name, i.forms[j]);
      assert SupportedBy(program[k], uses, forms) && InstructionOk(program[k], schema);
      assert AcceptedWord(i.forms[j].1, uses, program[k].bits);
      assert Usable(i.name, i.forms[j], uses, forms);
    } else {
      FirstUsedIsActive(program, i.name, i.forms, forms);
    }
  }

  lemma MandatoryFromProgram(
    isa: seq<IsaInstruction>, program: seq<ProgramInstruction>, mandatory: FormTable, maxUses: UseTable,
    start: UseTable, startForms: FormTable, uses: UseTable, forms: FormTable, schema: Schema)
    requires ProgramFollows(program, schema) && SupportsAll(program, start, startForms)
             && FormsFrom(startForms, program, |program|)
    requires MandatoryUsable(isa, |isa|, mandatory, maxUses, start, startForms, uses, forms)
    ensures MandatoryMet(isa, program, mandatory, maxUses, uses, forms)
  {
    forall n | 0 <= n < |isa| && isa[n].name in mandatory && mandatory[isa[n].name] == {}
      ensures FirstOfName(isa, n) && Encodable(program, isa[n], maxUses) ==> SomeUsable(isa[n], uses, forms)
    {
      assert InstructionUsable(isa, n, mandatory, maxUses, start, startForms, uses, forms);
      if Encodable(program, isa[n], maxUses) {
        EncodableIsRepairable(program, isa[n], maxUses, start, startForms, schema);
      }
    }
    forall n | 0 <= n < |isa| && isa[n].name in mandatory && mandatory[isa[n].name] != {}
      ensures forall name | name in mandatory[isa[n].name] :: NamedUsable(isa[n], name, maxUses, uses, forms)
    {
      assert InstructionUsable(isa, n, mandatory, maxUses, start, startForms, uses, forms);
    }
  }

  lemma NamedStays(
    i: IsaInstruction, name: string, maxUses: UseTable, uses: UseTable, forms: FormTable, wider: UseTable,
    widerForms: FormTable)
    requires Wider(uses, wider) && WiderForms(forms, widerForms)
    ensures NamedUsable(i, name, maxUses, uses, forms) ==> NamedUsable(i, name, maxUses, wider, widerForms)
  {
    var k := FindForm(i.forms, name);
    if k < |i.forms| && Usable(i.name, i.forms[k], uses, forms) {
      UsableStays(i.name, i.forms[k], uses, forms, wider, widerForms);
    }
  }

  lemma SomeStays(i: IsaInstruction, uses: UseTable, forms: FormTable, wider: UseTable, widerForms: FormTable)
    requires Wider(uses, wider) && WiderForms(forms, widerForms)
    ensures SomeUsable(i, uses, forms) ==> SomeUsable(i, wider, widerForms)
  {
    if k :| 0 <= k < |i.forms| && Usable(i.name, i.forms[k], uses, forms) {
      UsableStays(i.name, i.forms[k], uses, forms, wider, widerForms);
    }
  }

  lemma InstructionStays(
    isa: seq<IsaInstruction>, n: nat, mandatory: FormTable, maxUses: UseTable, start: UseTable, startForms: FormTable,
    uses: UseTable, forms: FormTable, wider: UseTable, widerForms: FormTable)
    requires n < |isa| && Wider(uses, wider) && WiderForms(forms, widerForms)
    requires InstructionUsable(isa, n, mandatory, maxUses, start, startForms, uses, forms)
    ensures InstructionUsable(isa, n, mandatory, maxUses, start, startForms, wider, widerForms)
  {
    var i := isa[n];
    if i.name in mandatory {
      SomeStays(i, uses, forms, wider, widerForms);
      forall name | name in mandatory[i.name]
        ensures NamedUsable(i, name, maxUses, uses, forms) ==> NamedUsable(i, name, maxUses, wider, widerForms)
      {
        NamedStays(i, name, maxUses, uses, forms, wider, widerForms);
      }
    }
  }

  lemma AllMandatoryStay(
    isa: seq<IsaInstruction>, n: nat, mandatory: FormTable, maxUses: UseTable, start: UseTable, startForms: FormTable,
    uses: UseTable, forms: FormTable, wider: UseTable, widerForms: FormTable)
    requires n <= |isa| && Wider(uses, wider) && WiderForms(forms, widerForms)
    requires MandatoryUsable(isa, n, mandatory, maxUses, start, startForms, uses, forms)
    ensures MandatoryUsable(isa, n, mandatory, maxUses, start, startForms, wider, widerForms)
  {
    forall k | 0 <= k < n ensures InstructionUsable(isa, k, mandatory, maxUses, start, startForms, wider, widerForms) {
      InstructionStays(isa, k, mandatory, maxUses, start, startForms, uses, forms, wider, widerForms);
    }
  }

  lemma MandatoryStays(
    isa: seq<IsaInstruction>, n: nat, mandatory: FormTable, maxUses: UseTable, start: UseTable, startForms: FormTable,
    uses: UseTable, forms: FormTable, wider: UseTable, widerForms: FormTable)
    requires n < |isa| && Wider(uses, wider) && WiderForms(forms, widerForms)
    requires MandatoryUsable(isa, n, mandatory, maxUses, start, startForms, uses, forms)
    requires InstructionUsable(isa, n, mandatory, maxUses, start, startForms, wider, widerForms)
    ensures MandatoryUsable(isa, n + 1, mandatory, maxUses, start, startForms, wider, widerForms)
  {
    AllMandatoryStay(isa, n, mandatory, maxUses, start, startForms, uses, forms, wider, widerForms);
  }

  lemma SupportsStay(
    program: seq<ProgramInstruction>, schema: Schema, uses: UseTable, forms: FormTable, wider: UseTable,
    widerForms: FormTable)
    requires ProgramFollows(program, schema) && SupportsAll(program, uses, forms)
    requires Wider(uses, wider) && WiderForms(forms, widerForms)
    ensures SupportsAll(program, wider, widerForms)
  {
    forall k | 0 <= k < |program| ensures SupportedBy(program[k], wider, widerForms) {
      WiderSupports(program[k], schema, uses, wider, forms, widerForms);
    }
  }

  lemma AllAllowed(u: FieldUses, name: string, y: Pattern)
    requires AllowsAll(u) && |y| == u.len
    ensures UseAllows(map[name := u], name, y)
  {
    hide Covers;
  }

  lemma LargestWidens(uses: UseTable, maxUses: UseTable, name: string, schema: Schema)
    requires UsesFollow(uses, schema) && UsesFollow(maxUses, schema) && name in maxUses && AllowsAll(maxUses[name])
    ensures Wider(uses, uses[name := maxUses[name]])
  {
    var u := maxUses[name];
    assert UseFollows(u, schema[name]);
    forall y | IsConcrete(y) && UseAllows(uses, name, y) ensures UseAllows(map[name := u], name, y) {
      AllowedHasWidth(uses, schema, name, y);
      AllAllowed(u, name, y);
    }
    EntryWidens(uses, name, u);
  }

  lemma EverythingAllows(u: FieldUses)
    ensures AllowsAll(Everything(u))
  {
    var entry := Everything(u);
    var everything: Pattern := seq(u.len, _ => Var);
    forall y | |y| == u.len ensures Covers(everything, y) {}
    if entry.PatternUses? { assert everything in entry.patterns; }
  }

  lemma EverythingWidens(uses: UseTable, name: string, entry: FieldUses, schema: Schema)
    requires UsesFollow(uses, schema) && name in uses && AllowsAll(entry) && entry.len == uses[name].len
    ensures Wider(uses, uses[name := entry])
  {
    assert UseFollows(uses[name], schema[name]);
    forall y | IsConcrete(y) && UseAllows(uses, name, y) ensures UseAllows(map[name := entry], name, y) {
      AllowedHasWidth(uses, schema, name, y);
      AllAllowed(entry, name, y);
    }
    EntryWidens(uses, name, entry);
  }

  /** Uses that allow nothing add nothing. */
  lemma OverEmpty(emptyUses: UseTable, merged: UseTable, schema: Schema)
    requires UsesFollow(emptyUses, schema) && AllowsNothing(emptyUses) && UsesFollow(merged, schema)
    ensures UsesFollow(emptyUses + merged, schema)
    ensures forall name, y :: UseAllows(emptyUses + merged, name, y) <==> UseAllows(merged, name, y)
  {
    forall name, y ensures UseAllows(emptyUses + merged, name, y) <==> UseAllows(merged, name, y) {
      if name !in merged { assert !UseAllows(emptyUses, name, y); }
    }
  }

  /** No table that accepts the observations accepts less than the merged ones. */
  lemma LeastTable(
    uses: UseTable, table: UseTable, merged: UseTable, observed: seq<Observation>, other: UseTable, schema: Schema)
    requires TableState(table, observed, schema) && AcceptsObservations(observed, other) && SameKinds(uses, other)
    requires merged.Keys == table.Keys && SameAllowed(table, merged)
    requires forall name | name in merged :: name in uses && uses[name] == merged[name]
    requires forall name | name in table && name in merged && table[name].VariableUses? :: merged[name].VariableUses?
    requires forall name, y :: UseAllows(uses, name, y) <==> UseAllows(merged, name, y)
    ensures Wider(uses, other)
  {
    forall name | name in table && name in other && table[name].VariableUses? ensures other[name].VariableUses? {
      assert uses[name] == merged[name];
    }
    ExplainedIsLeast(table, observed, other, schema);
    WiderTrans(merged, table, other);
  }
}
