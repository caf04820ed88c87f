/** How far a table of allowed field values grows: by given values and no further. */
module CandidateGrowth {
  import opened Exprs
  import opened Cubes
  import opened FieldMerge
  import opened Encodings
  import opened Candidates

  /** A value for a field. */
  type Repairs = set<(string, Pattern)>

  function ValuesFor(repairs: Repairs, name: string): set<Pattern>
  {
    set r | r in repairs && r.0 == name :: r.1
  }

  /** The pattern a name has before, if it has one. */
  function Before(table: UseTable, name: string): Option<Pattern>
  {
    if name in table && table[name].VariableUses? then table[name].pattern else None
  }

  function PatternsBefore(table: UseTable, name: string): set<Pattern>
  {
    if name in table && table[name].PatternUses? then table[name].patterns else {}
  }

  /** The pattern covers the earlier one and all the values, and no more than any such pattern. */
  ghost predicate LeastCover(pattern: Option<Pattern>, earlier: Option<Pattern>, values: set<Pattern>)
  {
    && (pattern.None? <==> earlier.None? && values == {})
    && (pattern.Some? ==> CoversBoth(pattern.value, earlier, values)
                          && forall q | CoversBoth(q, earlier, values) :: Covers(q, pattern.value))
  }

  ghost predicate CoversBoth(q: Pattern, earlier: Option<Pattern>, values: set<Pattern>)
  {
    (earlier.Some? ==> Covers(q, earlier.value)) && forall v | v in values :: Covers(q, v)
  }

  /** The entry is the earlier one with the values added: listed one by one, or covered by one pattern. */
  ghost predicate EntryGrown(table: UseTable, u: FieldUses, name: string, repairs: Repairs)
  {
    && (name in table ==> table[name].PatternUses? == u.PatternUses? && table[name].len == u.len)
    && match u
       case PatternUses(patterns, _) => patterns == PatternsBefore(table, name) + ValuesFor(repairs, name)
       case VariableUses(pattern, _) => LeastCover(pattern, Before(table, name), ValuesFor(repairs, name))
  }

  /** The table has grown by the values: no other name, and no entry by anything else. */
  ghost predicate GrownBy(table: UseTable, grown: UseTable, repairs: Repairs)
  {
    && (forall name :: name in grown <==> name in table || ValuesFor(repairs, name) != {})
    && forall name | name in grown :: EntryGrown(table, grown[name], name, repairs)
  }

  /** Entries without a value among the repairs stay as they are. */
  lemma GrownStays(table: UseTable, grown: UseTable, repairs: Repairs, name: string)
    requires GrownBy(table, grown, repairs) && ValuesFor(repairs, name) == {}
    ensures name in grown <==> name in table
    ensures name in grown ==> SameEntry(grown[name], table[name])
  {
    if name in grown && grown[name].VariableUses? && grown[name].pattern.Some? {
      var p, q := grown[name].pattern.value, table[name].pattern.value;
      assert CoversBoth(q, Before(table, name), {}) by { CoversItself(q); }
      CoversBack(p, q);
    }
  }

  ghost predicate SameEntry(a: FieldUses, b: FieldUses)
  {
    a == b
  }

  lemma CoversItself(p: Pattern)
    ensures Covers(p, p)
  {
  }

  lemma CoversBack(p: Pattern, q: Pattern)
    requires Covers(p, q) && Covers(q, p)
    ensures p == q
  {
  }

  lemma NotGrown(table: UseTable)
    ensures GrownBy(table, table, {})
  {
    forall name | name in table ensures EntryGrown(table, table[name], name, {}) {
      if table[name].VariableUses? && table[name].pattern.Some? { CoversItself(table[name].pattern.value); }
    }
  }

  lemma ValuesUnion(a: Repairs, b: Repairs, name: string)
    ensures ValuesFor(a + b, name) == ValuesFor(a, name) + ValuesFor(b, name)
  {
  }

  lemma CoverTwice(
    first: Option<Pattern>, second: Option<Pattern>, earlier: Option<Pattern>, a: set<Pattern>, b: set<Pattern>)
    requires LeastCover(first, earlier, a) && LeastCover(second, first, b)
    ensures LeastCover(second, earlier, a + b)
  {
    if second.Some? {
      if first.Some? {
        if earlier.Some? { CoversTrans(second.value, first.value, earlier.value); }
        forall v | v in a ensures Covers(second.value, v) { CoversTrans(second.value, first.value, v); }
      }
      forall q | CoversBoth(q, earlier, a + b) ensures Covers(q, second.value) {
        assert CoversBoth(q, earlier, a);
        assert CoversBoth(q, first, b);
      }
    }
  }

  /** Growing twice is growing by all values. */
  lemma GrownTwice(table: UseTable, middle: UseTable, grown: UseTable, a: Repairs, b: Repairs)
    requires GrownBy(table, middle, a) && GrownBy(middle, grown, b)
    ensures GrownBy(table, grown, a + b)
  {
    hide EntryGrown, ValuesFor;
    forall name ensures name in grown <==> name in table || ValuesFor(a + b, name) != {} { ValuesUnion(a, b, name); }
    forall name | name in grown ensures EntryGrown(table, grown[name], name, a + b) {
      EntryGrownTwice(table, middle, grown[name], name, a, b);
    }
  }

  lemma EntryGrownTwice(table: UseTable, middle: UseTable, u: FieldUses, name: string, a: Repairs, b: Repairs)
    requires EntryGrown(middle, u, name, b)
    requires name in middle <==> name in table || ValuesFor(a, name) != {}
    requires name in middle ==> EntryGrown(table, middle[name], name, a)
    ensures EntryGrown(table, u, name, a + b)
  {
    hide ValuesFor, LeastCover;
    ValuesUnion(a, b, name);
    var earlier, values := Before(table, name), ValuesFor(a, name);
    if u.VariableUses? {
      if name !in middle { NothingCovered(); assert values == {}; }
      CoverTwice(Before(middle, name), u.pattern, earlier, values, ValuesFor(b, name));
    }
  }

  lemma NothingCovered()
    ensures LeastCover(None, None, {})
  {
  }

  /** Entering one value grows the table by it. */
  lemma GrownByOne(table: UseTable, name: string, value: Pattern, u: FieldUses)
    requires EntryGrown(table, u, name, {(name, value)})
    ensures GrownBy(table, table[name := u], {(name, value)})
  {
    var one: Repairs := {(name, value)};
    assert value in ValuesFor(one, name) by { assert (name, value) in one; }
    forall other | other in table && other != name ensures EntryGrown(table, table[other], other, one) {
      assert ValuesFor(one, other) == {};
      if table[other].VariableUses? && table[other].pattern.Some? { CoversItself(table[other].pattern.value); }
    }
  }

  lemma OneValue(name: string, value: Pattern)
    ensures ValuesFor({(name, value)}, name) == {value}
  {
    var one: Repairs := {(name, value)};
    assert (name, value) in one;
  }

  /** The entry that a value is entered into. */
  lemma EnteredIsGrown(table: UseTable, name: string, value: Pattern, u: FieldUses)
    requires name !in table ==> u == PatternUses({value}, |value|) || u == VariableUses(Some(value), |value|)
    requires name in table ==>
      match table[name]
      case PatternUses(patterns, len) => u == PatternUses(patterns + {value}, len)
      case VariableUses(pattern, len) =>
        if pattern.None? then u == VariableUses(Some(value), len)
        else |pattern.value| == |value| && u == VariableUses(Some(Widen(pattern.value, value)), len)
    ensures EntryGrown(table, u, name, {(name, value)})
  {
    OneValue(name, value);
    if u.VariableUses? {
      var earlier := Before(table, name);
      CoversItself(value);
      if earlier.Some? { WidenIsJoin(earlier.value, value); }
    }
  }

  // ----- the values of a repaired form -----

  /** In some word that the uses accept the field has the value. */
  ghost predicate FieldTakes(form: Form, uses: UseTable, k: nat, value: Pattern)
    requires k < |form.fields|
  {
    exists x :: AcceptedWord(form, uses, x) && FieldValue(form, x, k) == value
  }

  /** The value, if the field has a name. */
  function NamedValue(f: Field, value: Pattern): Repairs
  {
    if f.name.Some? then {(f.name.value, value)} else {}
  }

  /** The values of the named ones among the first fields. */
  function NamedValues(form: Form, values: seq<Pattern>): Repairs
    requires |values| <= |form.fields|
  {
    set k | 0 <= k < |values| && form.fields[k].name.Some? :: (form.fields[k].name.value, values[k])
  }

  lemma NamedValuesMore(form: Form, values: seq<Pattern>, value: Pattern)
    requires |values| < |form.fields|
    ensures NamedValues(form, values + [value])
         == NamedValues(form, values) + NamedValue(form.fields[|values|], value)
  {
    var more, k := values + [value], |values|;
    if form.fields[k].name.Some? {
      assert (form.fields[k].name.value, more[k]) in NamedValues(form, more);
    }
    forall r | r in NamedValues(form, values) ensures r in NamedValues(form, more) {
      var j :| 0 <= j < |values| && form.fields[j].name.Some? && r == (form.fields[j].name.value, values[j]);
      assert r == (form.fields[j].name.value, more[j]);
    }
  }

  /** Every value is one that its field takes in some accepted word. */
  ghost predicate TakenValues(form: Form, uses: UseTable, values: seq<Pattern>)
  {
    |values| <= |form.fields| && forall k | 0 <= k < |values| :: FieldTakes(form, uses, k, values[k])
  }

  lemma TakenMore(form: Form, uses: UseTable, values: seq<Pattern>, value: Pattern)
    requires |values| < |form.fields| && TakenValues(form, uses, values) && FieldTakes(form, uses, |values|, value)
    ensures TakenValues(form, uses, values + [value])
  {
    hide FieldTakes;
    var more := values + [value];
    forall k | 0 <= k < |more| ensures FieldTakes(form, uses, k, more[k]) {
      if k < |values| { assert FieldTakes(form, uses, k, values[k]); }
    }
  }

  /** One value for each named field of the form, taken from accepted words; none at all if no word is accepted. */
  ghost predicate ValuesOfForm(form: Form, uses: UseTable, repairs: Repairs)
  {
    if HasEncoding(form, uses)
    then exists values :: |values| == |form.fields| && TakenValues(form, uses, values)
                          && repairs == NamedValues(form, values)
    else repairs == {}
  }

  /** A form that was switched on, with the values its fields were given. */
  datatype FormRepair = FormRepair(name: string, form: (string, Form), values: Repairs)

  function AllValues(repairs: set<FormRepair>): Repairs
  {
    set r, v | r in repairs && v in r.values :: v
  }

  lemma AllValuesUnion(a: set<FormRepair>, b: set<FormRepair>)
    ensures AllValues(a + b) == AllValues(a) + AllValues(b)
  {
  }

  lemma AllValuesOne(r: FormRepair)
    ensures AllValues({r}) == r.values
  {
    assert r in {r};
  }

  /** A field that no repaired form has gets no value. */
  lemma NoFormNoValue(repairs: set<FormRepair>, uses: UseTable, name: string)
    requires forall r | r in repairs :: ValuesOfForm(r.form.1, uses, r.values)
    requires forall r, k | r in repairs && 0 <= k < |r.form.1.fields| :: r.form.1.fields[k].name != Some(name)
    ensures ValuesFor(AllValues(repairs), name) == {}
  {
    forall r, v | r in repairs && v in r.values ensures v.0 != name {
      assert ValuesOfForm(r.form.1, uses, r.values);
      var values :| |values| == |r.form.1.fields| && TakenValues(r.form.1, uses, values)
                    && r.values == NamedValues(r.form.1, values);
    }
  }

  lemma GrowsLikeItself(table: UseTable, grown: UseTable, repairs: Repairs, name: string, y: Pattern)
    requires GrownBy(table, grown, repairs) && ValuesFor(repairs, name) == {}
    ensures UseAllows(grown, name, y) <==> UseAllows(table, name, y)
  {
    GrownStays(table, grown, repairs, name);
  }
}
