/** The behaviour of the code the configuration library's derive macro
    generates for a settings struct (config-parser-macro,
    `generator_functions.rs`): binding a parsed configuration onto the
    struct's fields, the aggregated diagnostics, `default()` and the
    conversion of style fields to escape sequences. A struct is described
    by an explicit schema: its fields in declaration order, each with its
    attributes and its type. */
module Binder {
  import opened Results
  import opened Text
  import opened Numbers
  import StyleFormat

  /** `ConfigElement`: the text of a setting, or a nested table. */
  datatype Element = Setting(text: string) | Nested(table: map<string, Element>)

  /** The field types whose `FromStr` the model spells out. */
  datatype ScalarType = StringType | BoolType | UnsignedType(max: nat)

  datatype Scalar = Text(text: string) | Flag(flag: bool) | Number(number: nat)

  predicate HasType(x: Scalar, ty: ScalarType) {
    match ty
    case StringType => x.Text?
    case BoolType => x.Flag?
    case UnsignedType(max) => x.Number? && x.number <= max
  }

  /** `str::parse` for the field type: total for `String`, exactly `true`
      or `false` for `bool`, decimal digits after an optional `+` and no
      overflow for the unsigned integers. */
  function ParseScalar(ty: ScalarType, s: string): (r: Option<Scalar>)
    ensures r.Some? ==> HasType(r.value, ty)
    ensures ty.StringType? ==> r == Some(Text(s))
    ensures ty.BoolType? ==> (r.Some? <==> s == "true" || s == "false")
    ensures ty.UnsignedType? ==> r.Some? ==> |s| > 0 && s[0] != '-'
    ensures ty.UnsignedType? ==>
      (r.Some? <==> (&& |Unsigned(s)| > 0 && AllDigits(Unsigned(s), 10)
                     && Positional(Unsigned(s), 10) <= ty.max))
    ensures ty.UnsignedType? && r.Some? ==> r.value == Number(Positional(Unsigned(s), 10))
  {
    match ty
    case StringType => Some(Text(s))
    case BoolType => if s == "true" then Some(Flag(true)) else if s == "false" then Some(Flag(false)) else None
    case UnsignedType(max) =>
      match ParseUnsigned(s, 10, max)
      case Some(n) => Some(Number(n))
      case None => None
  }

  /** The first path segment of an attribute: one of the identifiers the
      generator compares against, or any other identifier. */
  datatype AttrName = NestedConfig | NoConfig | StyleConfig | DefaultValue | OtherName(ident: string)

  /** A field attribute: a bare marker such as `#[nested_config]`, a list
      such as `#[default_value("x")]` carrying a literal, or anything else
      (doc comments and the like). */
  datatype Attr = Marker(name: AttrName) | Listed(name: AttrName, literal: Scalar) | OtherAttr

  datatype FieldType = Leaf(scalar: ScalarType) | Struct(fields: seq<Field>)

  datatype Field = Field(name: string, attrs: seq<Attr>, ty: FieldType)

  /** The value of a field: a scalar, or the values of a nested struct's fields. */
  datatype Value = Plain(scalar: Scalar) | Record(values: seq<Value>)

  /** How the generated assignments treat a field. */
  datatype Role = BindSetting | BindTable | Skip

  /** The first bare marker named `nested_config` or `no_config` decides;
      without one the field is a setting. */
  function RoleOf(attrs: seq<Attr>): Role
  {
    if |attrs| == 0 then BindSetting
    else if attrs[0] == Marker(NestedConfig) then BindTable
    else if attrs[0] == Marker(NoConfig) then Skip
    else RoleOf(attrs[1..])
  }

  /** What the generated code reports, one entry per pushed message. */
  datatype Diag =
    | ParseFailed(name: string)
    | SettingIsTable(name: string)
    | NotFound(name: string)
    | TableIsSetting(name: string)
    | NoTable(name: string)
    | NestedFailed(inner: seq<Diag>)
    | Unrecognised(keys: set<string>)
    | ParserMessage(text: string)

  /** The state the generated code threads through the fields: the field
      values, the remaining map and the messages so far. */
  datatype Binding = Binding(values: seq<Value>, config: map<string, Element>, output: seq<Diag>)

  /** What binding one field yields: its new value and the messages it adds. */
  datatype FieldOutcome = FieldOutcome(value: Value, output: seq<Diag>)

  function Lookup(m: map<string, Element>, k: string): Option<Element>
  {
    if k in m then Some(m[k]) else None
  }

  /** Parsing a setting's text into a field of type `ty`; a struct type has
      no `FromStr` here. */
  function ParseField(ty: FieldType, text: string): Option<Scalar>
  {
    if ty.Leaf? then ParseScalar(ty.scalar, text) else None
  }

  /** The generated assignment for one field, given what the map held
      under its name. */
  function BindField(f: Field, v: Value, e: Option<Element>): (r: FieldOutcome)
    ensures |r.output| <= 1
    ensures RoleOf(f.attrs).Skip? ==> r == FieldOutcome(v, [])
    ensures RoleOf(f.attrs).BindSetting? ==>
              (r.output == [] <==> e.Some? && e.value.Setting? && ParseField(f.ty, e.value.text).Some?)
    ensures RoleOf(f.attrs).BindSetting? && r.output == [] ==>
              r.value == Plain(ParseField(f.ty, e.value.text).value)
    ensures RoleOf(f.attrs).BindSetting? && r.output != [] ==>
              && r.value == v
              && r.output == [if e.None? then NotFound(f.name)
                              else if e.value.Nested? then SettingIsTable(f.name)
                              else ParseFailed(f.name)]
    ensures RoleOf(f.attrs).BindTable? && !(e.Some? && e.value.Nested?) ==>
              r == FieldOutcome(v, [if e.None? then NoTable(f.name) else TableIsSetting(f.name)])
    ensures RoleOf(f.attrs).BindTable? && e.Some? && e.value.Nested? && f.ty.Struct? && v.Record? ==>
              r.value.Record? && |r.value.values| == |v.values|
    decreases f, 0
  {
    match RoleOf(f.attrs)
    case Skip => FieldOutcome(v, [])
    case BindSetting =>
      (match e
       case None => FieldOutcome(v, [NotFound(f.name)])
       case Some(Nested(_)) => FieldOutcome(v, [SettingIsTable(f.name)])
       case Some(Setting(text)) =>
         match ParseField(f.ty, text)
         case Some(x) => FieldOutcome(Plain(x), [])
         case None => FieldOutcome(v, [ParseFailed(f.name)]))
    case BindTable =>
      (match e
       case None => FieldOutcome(v, [NoTable(f.name)])
       case Some(Setting(_)) => FieldOutcome(v, [TableIsSetting(f.name)])
       case Some(Nested(t)) =>
         if f.ty.Struct? && v.Record? && |v.values| == |f.ty.fields| then
           var sub := ParseFromMap(f.ty.fields, v.values, t);
           FieldOutcome(Record(sub.values), if |sub.output| == 0 then [] else [NestedFailed(sub.output)])
         else FieldOutcome(v, []))
  }

  /** The generated assignments from field `i` on, in declaration order,
      with no early exit: every field that is not skipped has its key
      removed from the map whatever the outcome. */
  function BindFields(fields: seq<Field>, i: nat, b: Binding): (r: Binding)
    requires i <= |fields| && |b.values| == |fields|
    ensures |r.values| == |fields|
    decreases fields, 1, |fields| - i
  {
    if i == |fields| then b
    else
      var f := fields[i];
      if RoleOf(f.attrs).Skip? then BindFields(fields, i + 1, b)
      else
        var o := BindField(f, b.values[i], Lookup(b.config, f.name));
        BindFields(fields, i + 1, Binding(b.values[i := o.value], b.config - {f.name}, b.output + o.output))
  }

  /** The assignments followed by the leftover check: keys still in the
      map are reported in one message. */
  function Run(fields: seq<Field>, values: seq<Value>, table: map<string, Element>, initial: seq<Diag>): (r: Binding)
    requires |values| == |fields|
    ensures |r.values| == |fields|
    decreases fields, 2
  {
    var b := BindFields(fields, 0, Binding(values, table, initial));
    if |b.config| == 0 then b else Binding(b.values, b.config, b.output + [Unrecognised(b.config.Keys)])
  }

  /** `parse_from_map`: starts with no messages. */
  function ParseFromMap(fields: seq<Field>, values: seq<Value>, table: map<string, Element>): (r: Binding)
    requires |values| == |fields|
    ensures |r.values| == |fields|
    decreases fields, 3
  {
    Run(fields, values, table, [])
  }

  /** `parse_from_string`, given what the file reader returned: the map and
      the reader's own messages, which come first. */
  function ParseFromString(fields: seq<Field>, values: seq<Value>, parsed: (map<string, Element>, seq<string>)): (r: Binding)
    requires |values| == |fields|
    ensures |r.values| == |fields|
  {
    var (table, messages) := parsed;
    Run(fields, values, table, seq(|messages|, i requires 0 <= i < |messages| => ParserMessage(messages[i])))
  }

  // ---------------------------------------------------------------------
  // The assignments, field by field

  /** Rust field names are unique within a struct. */
  predicate DistinctNames(fields: seq<Field>) {
    forall i, j :: 0 <= i < j < |fields| ==> fields[i].name != fields[j].name
  }

  /** The names of the fields from `i` on that are not skipped. */
  function BoundNames(fields: seq<Field>, i: nat): set<string>
    decreases |fields| - i
  {
    if i >= |fields| then {}
    else (if RoleOf(fields[i].attrs).Skip? then {} else {fields[i].name}) + BoundNames(fields, i + 1)
  }

  lemma {:induction false} BoundNamesMembership(fields: seq<Field>, i: nat, k: string)
    ensures k in BoundNames(fields, i) <==>
              exists j :: i <= j < |fields| && !RoleOf(fields[j].attrs).Skip? && fields[j].name == k
    decreases |fields| - i
  {
    if i < |fields| {
      BoundNamesMembership(fields, i + 1, k);
    }
  }

  /** Field `j` bound on its own against the original map. */
  function Outcome(fields: seq<Field>, values: seq<Value>, table: map<string, Element>, j: nat): FieldOutcome
    requires j < |fields| && |values| == |fields|
  {
    BindField(fields[j], values[j], Lookup(table, fields[j].name))
  }

  /** The messages of the fields from `i` on, each bound on its own, in
      declaration order. */
  function OutputsFrom(fields: seq<Field>, values: seq<Value>, table: map<string, Element>, i: nat): seq<Diag>
    requires i <= |fields| && |values| == |fields|
    decreases |fields| - i
  {
    if i == |fields| then [] else Outcome(fields, values, table, i).output + OutputsFrom(fields, values, table, i + 1)
  }

  lemma {:induction false} OutputsFromEmpty(fields: seq<Field>, values: seq<Value>, table: map<string, Element>, i: nat)
    requires i <= |fields| && |values| == |fields|
    ensures OutputsFrom(fields, values, table, i) == [] <==>
              forall j :: i <= j < |fields| ==> Outcome(fields, values, table, j).output == []
    decreases |fields| - i
  {
    if i < |fields| {
      OutputsFromEmpty(fields, values, table, i + 1);
    }
  }

  /** Only a field's own value and its own key matter to its outcome. */
  lemma {:induction false} OutputsFromFrame(fields: seq<Field>, v1: seq<Value>, c1: map<string, Element>,
                                            v2: seq<Value>, c2: map<string, Element>, i: nat)
    requires i <= |fields| && |v1| == |fields| && |v2| == |fields|
    requires forall j :: i <= j < |fields| ==> v1[j] == v2[j] && Lookup(c1, fields[j].name) == Lookup(c2, fields[j].name)
    ensures OutputsFrom(fields, v1, c1, i) == OutputsFrom(fields, v2, c2, i)
    decreases |fields| - i
  {
    if i < |fields| {
      OutputsFromFrame(fields, v1, c1, v2, c2, i + 1);
    }
  }

  /** One step of the assignments. */
  lemma BindFieldsStep(fields: seq<Field>, i: nat, b: Binding)
    requires i < |fields| && |b.values| == |fields|
    ensures var f := fields[i];
            var o := Outcome(fields, b.values, b.config, i);
            BindFields(fields, i, b) ==
              if RoleOf(f.attrs).Skip? then BindFields(fields, i + 1, b)
              else BindFields(fields, i + 1, Binding(b.values[i := o.value], b.config - {f.name}, b.output + o.output))
  {
  }

  /** The keys of the bound fields, and only those, are removed. */
  lemma {:induction false} BindFieldsConfig(fields: seq<Field>, i: nat, b: Binding)
    requires i <= |fields| && |b.values| == |fields|
    ensures BindFields(fields, i, b).config == b.config - BoundNames(fields, i)
    decreases |fields| - i
  {
    if i < |fields| {
      var f := fields[i];
      var o := Outcome(fields, b.values, b.config, i);
      BindFieldsStep(fields, i, b);
      if RoleOf(f.attrs).Skip? {
        BindFieldsConfig(fields, i + 1, b);
      } else {
        BindFieldsConfig(fields, i + 1, Binding(b.values[i := o.value], b.config - {f.name}, b.output + o.output));
      }
    }
  }

  /** With unique names, every field from `i` on gets the value it gets when
      bound on its own against the map as it was; earlier fields are untouched. */
  lemma {:induction false} BindFieldsValues(fields: seq<Field>, i: nat, b: Binding)
    requires i <= |fields| && |b.values| == |fields| && DistinctNames(fields)
    ensures var r := BindFields(fields, i, b);
            && (forall j :: 0 <= j < i ==> r.values[j] == b.values[j])
            && (forall j :: i <= j < |fields| ==> r.values[j] == Outcome(fields, b.values, b.config, j).value)
    decreases |fields| - i
  {
    if i < |fields| {
      var f := fields[i];
      var o := Outcome(fields, b.values, b.config, i);
      BindFieldsStep(fields, i, b);
      var b' := if RoleOf(f.attrs).Skip? then b
                else Binding(b.values[i := o.value], b.config - {f.name}, b.output + o.output);
      BindFieldsValues(fields, i + 1, b');
      if RoleOf(f.attrs).Skip? {
        assert o.value == b.values[i];
      }
      forall j | i + 1 <= j < |fields|
        ensures Outcome(fields, b'.values, b'.config, j) == Outcome(fields, b.values, b.config, j)
      {
        assert fields[j].name != f.name;
        assert Lookup(b'.config, fields[j].name) == Lookup(b.config, fields[j].name);
      }
    }
  }

  /** With unique names, the messages are those of the fields bound one by
      one against the map as it was, in declaration order. */
  lemma {:induction false} BindFieldsOutput(fields: seq<Field>, i: nat, b: Binding)
    requires i <= |fields| && |b.values| == |fields| && DistinctNames(fields)
    ensures BindFields(fields, i, b).output == b.output + OutputsFrom(fields, b.values, b.config, i)
    decreases |fields| - i
  {
    if i < |fields| {
      var f := fields[i];
      var o := Outcome(fields, b.values, b.config, i);
      BindFieldsStep(fields, i, b);
      var b' := if RoleOf(f.attrs).Skip? then b
                else Binding(b.values[i := o.value], b.config - {f.name}, b.output + o.output);
      BindFieldsOutput(fields, i + 1, b');
      forall j | i + 1 <= j < |fields|
        ensures b'.values[j] == b.values[j] && Lookup(b'.config, fields[j].name) == Lookup(b.config, fields[j].name)
      {
        assert fields[j].name != f.name;
      }
      OutputsFromFrame(fields, b'.values, b'.config, b.values, b.config, i + 1);
      if RoleOf(f.attrs).Skip? {
        assert o.output == [];
        assert b.output + OutputsFrom(fields, b.values, b.config, i) == b.output + OutputsFrom(fields, b.values, b.config, i + 1);
      } else {
        assert b'.output + OutputsFrom(fields, b.values, b.config, i + 1) == b.output + OutputsFrom(fields, b.values, b.config, i);
      }
    }
  }

  /** `parse_from_map` and `parse_from_string` as a whole: every field gets
      the value it gets when bound on its own; the map keeps exactly the keys
      no bound field claims; the messages are the initial ones, then each
      field's in declaration order, then one message listing the leftover
      keys if there are any. */
  lemma RunMeaning(fields: seq<Field>, values: seq<Value>, table: map<string, Element>, initial: seq<Diag>)
    requires |values| == |fields| && DistinctNames(fields)
    ensures var r := Run(fields, values, table, initial);
            var leftover := table.Keys - BoundNames(fields, 0);
            && r.config.Keys == leftover
            && (forall j :: 0 <= j < |fields| ==> r.values[j] == Outcome(fields, values, table, j).value)
            && r.output == initial + OutputsFrom(fields, values, table, 0)
                           + (if leftover == {} then [] else [Unrecognised(leftover)])
  {
    var b := Binding(values, table, initial);
    BindFieldsConfig(fields, 0, b);
    BindFieldsValues(fields, 0, b);
    BindFieldsOutput(fields, 0, b);
    var c := BindFields(fields, 0, b).config;
    assert c.Keys == table.Keys - BoundNames(fields, 0);
    assert |c| == 0 <==> c.Keys == {} by {
      if c.Keys == {} { assert c == map[]; }
      if |c| == 0 { assert c == map[]; }
    }
  }

  /** A `nested_config` field with a table entry: each of its struct's
      fields gets the value it gets when bound on its own against that
      table, and the field adds nothing when the nested binding succeeds,
      otherwise one message carrying everything the nested binding
      reported. */
  lemma NestedFieldMeaning(f: Field, v: Value, t: map<string, Element>)
    requires RoleOf(f.attrs).BindTable? && f.ty.Struct? && DistinctNames(f.ty.fields)
    requires v.Record? && |v.values| == |f.ty.fields|
    ensures var r := BindField(f, v, Some(Nested(t)));
            var fs := f.ty.fields;
            var leftover := t.Keys - BoundNames(fs, 0);
            var inner := OutputsFrom(fs, v.values, t, 0) + (if leftover == {} then [] else [Unrecognised(leftover)]);
            && r.value.Record? && |r.value.values| == |fs|
            && (forall j :: 0 <= j < |fs| ==> r.value.values[j] == Outcome(fs, v.values, t, j).value)
            && (r.output == [] <==> (forall j :: 0 <= j < |fs| ==> Outcome(fs, v.values, t, j).output == []) && t.Keys <= BoundNames(fs, 0))
            && (r.output != [] ==> r.output == [NestedFailed(inner)])
  {
    var fs := f.ty.fields;
    RunMeaning(fs, v.values, t, []);
    ParseFromMapSucceeds(fs, v.values, t);
    assert [] + OutputsFrom(fs, v.values, t, 0) == OutputsFrom(fs, v.values, t, 0);
  }

  /** `parse_from_map` succeeds exactly when every field succeeds on its own
      and every key of the table belongs to a bound field. */
  lemma ParseFromMapSucceeds(fields: seq<Field>, values: seq<Value>, table: map<string, Element>)
    requires |values| == |fields| && DistinctNames(fields)
    ensures ParseFromMap(fields, values, table).output == [] <==>
              && (forall j :: 0 <= j < |fields| ==> Outcome(fields, values, table, j).output == [])
              && table.Keys <= BoundNames(fields, 0)
  {
    RunMeaning(fields, values, table, []);
    OutputsFromEmpty(fields, values, table, 0);
    var leftover := table.Keys - BoundNames(fields, 0);
    assert leftover == {} <==> table.Keys <= BoundNames(fields, 0);
  }

  /** A `no_config` field keeps its value, and a key of its name stays in
      the map and is reported as not recognised. */
  lemma SkippedFieldReported(fields: seq<Field>, values: seq<Value>, table: map<string, Element>, j: nat)
    requires |values| == |fields| && DistinctNames(fields)
    requires j < |fields| && RoleOf(fields[j].attrs).Skip? && fields[j].name in table
    ensures var r := ParseFromMap(fields, values, table);
            && r.values[j] == values[j]
            && fields[j].name in r.config
            && |r.output| > 0 && r.output[|r.output| - 1].Unrecognised? && fields[j].name in r.output[|r.output| - 1].keys
  {
    RunMeaning(fields, values, table, []);
    BoundNamesMembership(fields, 0, fields[j].name);
    if fields[j].name in BoundNames(fields, 0) {
      var i :| 0 <= i < |fields| && !RoleOf(fields[i].attrs).Skip? && fields[i].name == fields[j].name;
      assert false;
    }
  }

  /** The message a bound field gets when the map lacks its key. */
  function MissingDiag(f: Field): Diag
  {
    if RoleOf(f.attrs).BindTable? then NoTable(f.name) else NotFound(f.name)
  }

  /** One message per bound field from `i` on, reporting it missing. */
  function MissingFrom(fields: seq<Field>, i: nat): seq<Diag>
    requires i <= |fields|
    decreases |fields| - i
  {
    if i == |fields| then []
    else (if RoleOf(fields[i].attrs).Skip? then [] else [MissingDiag(fields[i])]) + MissingFrom(fields, i + 1)
  }

  lemma {:induction false} OutputsFromEmptyTable(fields: seq<Field>, values: seq<Value>, i: nat)
    requires i <= |fields| && |values| == |fields|
    ensures OutputsFrom(fields, values, map[], i) == MissingFrom(fields, i)
    ensures forall j :: i <= j < |fields| ==> Outcome(fields, values, map[], j).value == values[j]
    decreases |fields| - i
  {
    if i < |fields| {
      OutputsFromEmptyTable(fields, values, i + 1);
    }
  }

  /** Binding an empty table changes no field and reports every bound
      field missing, in declaration order. */
  lemma EmptyTable(fields: seq<Field>, values: seq<Value>)
    requires |values| == |fields| && DistinctNames(fields)
    ensures ParseFromMap(fields, values, map[]) == Binding(values, map[], MissingFrom(fields, 0))
  {
    RunMeaning(fields, values, map[], []);
    OutputsFromEmptyTable(fields, values, 0);
    var r := Run(fields, values, map[], []);
    var none: map<string, Element> := map[];
    assert none.Keys - BoundNames(fields, 0) == {};
    assert r.output == MissingFrom(fields, 0) by {
      assert r.output == [] + OutputsFrom(fields, values, none, 0) + [];
    }
    assert r.values == values;
    assert r.config == map[];
  }

  /** Messages already present do not influence the assignments: they stay
      in front of whatever the fields report. */
  lemma {:induction false} BindFieldsPrefix(fields: seq<Field>, i: nat, v: seq<Value>, c: map<string, Element>, o: seq<Diag>, p: seq<Diag>)
    requires i <= |fields| && |v| == |fields|
    ensures var x := BindFields(fields, i, Binding(v, c, p));
            BindFields(fields, i, Binding(v, c, o + p)) == Binding(x.values, x.config, o + x.output)
    decreases |fields| - i
  {
    if i < |fields| {
      var f := fields[i];
      if RoleOf(f.attrs).Skip? {
        BindFieldsPrefix(fields, i + 1, v, c, o, p);
      } else {
        var e := BindField(f, v[i], Lookup(c, f.name));
        BindFieldsPrefix(fields, i + 1, v[i := e.value], c - {f.name}, o, p + e.output);
        assert (o + p) + e.output == o + (p + e.output);
      }
    }
  }

  /** Reading a file adds its reader's messages in front of what
      `parse_from_map` reports, and changes nothing else. */
  lemma ParseFromStringIsParseFromMap(fields: seq<Field>, values: seq<Value>, table: map<string, Element>, messages: seq<string>)
    requires |values| == |fields|
    ensures var r := ParseFromString(fields, values, (table, messages));
            var q := ParseFromMap(fields, values, table);
            && r.values == q.values && r.config == q.config
            && |r.output| == |messages| + |q.output|
            && (forall i :: 0 <= i < |messages| ==> r.output[i] == ParserMessage(messages[i]))
            && r.output[|messages|..] == q.output
  {
    var initial := seq(|messages|, i requires 0 <= i < |messages| => ParserMessage(messages[i]));
    BindFieldsPrefix(fields, 0, values, table, initial, []);
    assert initial + [] == initial;
    var x := BindFields(fields, 0, Binding(values, table, []));
    var r := Run(fields, values, table, initial);
    if |x.config| != 0 {
      assert r.output == initial + (x.output + [Unrecognised(x.config.Keys)]);
    }
  }

  // ---------------------------------------------------------------------
  // Values keep the shape of their schema

  /** A value fits a field type: a scalar of the leaf's type, or one value
      per field of the struct. */
  predicate Typed(v: Value, ty: FieldType)
    decreases ty
  {
    match ty
    case Leaf(st) => v.Plain? && HasType(v.scalar, st)
    case Struct(fs) => v.Record? && |v.values| == |fs| && forall j :: 0 <= j < |fs| ==> Typed(v.values[j], fs[j].ty)
  }

  predicate AllTyped(values: seq<Value>, fields: seq<Field>) {
    |values| == |fields| && forall j :: 0 <= j < |fields| ==> Typed(values[j], fields[j].ty)
  }

  /** The schemas the derive macro accepts: a `nested_config` field has a
      struct type whose own fields are well formed, and a field bound as a
      setting has a type with `FromStr`. */
  predicate WellFormed(fields: seq<Field>)
    decreases fields
  {
    forall j :: 0 <= j < |fields| ==> WellFormedField(fields[j])
  }

  predicate WellFormedField(f: Field)
    decreases f
  {
    match RoleOf(f.attrs)
    case BindTable => f.ty.Struct? && WellFormed(f.ty.fields)
    case BindSetting => f.ty.Leaf?
    case Skip => true
  }

  /** Binding never gives a field a value of the wrong shape. */
  lemma {:induction false} BindFieldTyped(f: Field, v: Value, e: Option<Element>)
    requires WellFormedField(f) && Typed(v, f.ty)
    ensures Typed(BindField(f, v, e).value, f.ty)
    decreases f, 0
  {
    if RoleOf(f.attrs).BindTable? && e.Some? && e.value.Nested? {
      var fs := f.ty.fields;
      RunTyped(fs, v.values, e.value.table, []);
    }
  }

  lemma {:induction false} BindFieldsTyped(fields: seq<Field>, i: nat, b: Binding)
    requires i <= |fields| && WellFormed(fields) && AllTyped(b.values, fields)
    ensures AllTyped(BindFields(fields, i, b).values, fields)
    decreases fields, 1, |fields| - i
  {
    if i < |fields| {
      var f := fields[i];
      if RoleOf(f.attrs).Skip? {
        BindFieldsTyped(fields, i + 1, b);
      } else {
        var o := BindField(f, b.values[i], Lookup(b.config, f.name));
        BindFieldTyped(f, b.values[i], Lookup(b.config, f.name));
        var b' := Binding(b.values[i := o.value], b.config - {f.name}, b.output + o.output);
        assert AllTyped(b'.values, fields);
        BindFieldsTyped(fields, i + 1, b');
      }
    }
  }

  lemma {:induction false} RunTyped(fields: seq<Field>, values: seq<Value>, table: map<string, Element>, initial: seq<Diag>)
    requires WellFormed(fields) && AllTyped(values, fields)
    ensures AllTyped(Run(fields, values, table, initial).values, fields)
    decreases fields, 2
  {
    BindFieldsTyped(fields, 0, Binding(values, table, initial));
  }
}
