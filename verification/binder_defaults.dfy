/** The generated `default()` (config-parser-macro,
    `generator_functions.rs`): a struct literal with one initialiser per
    attribute that names a default, `T::default()` for `#[nested_config]`
    and the literal of `#[default_value(..)]` converted with `into()`. */
module BinderDefaults {
  import opened Binder

  /** An attribute that yields an initialiser. */
  predicate IsSource(a: Attr) {
    a == Marker(NestedConfig) || (a.Listed? && a.name == DefaultValue)
  }

  /** The initialisers one field's attributes yield, in attribute order. */
  function Sources(attrs: seq<Attr>): (r: seq<Attr>)
    ensures forall i :: 0 <= i < |r| ==> IsSource(r[i])
  {
    if |attrs| == 0 then []
    else (if IsSource(attrs[0]) then [attrs[0]] else []) + Sources(attrs[1..])
  }

  /** The struct literal compiles: each field gets exactly one initialiser,
      a nested struct's own defaults compile, and a literal converts into
      the field's type. */
  predicate HasDefault(f: Field)
    decreases f
  {
    var src := Sources(f.attrs);
    && |src| == 1
    && if src[0].Listed? then f.ty.Leaf? && HasType(src[0].literal, f.ty.scalar)
       else f.ty.Struct? && AllHaveDefaults(f.ty.fields)
  }

  predicate AllHaveDefaults(fields: seq<Field>)
    decreases fields
  {
    forall j :: 0 <= j < |fields| ==> HasDefault(fields[j])
  }

  /** The value `default()` gives one field; it fits the field's type. */
  function FieldDefault(f: Field): (v: Value)
    requires HasDefault(f)
    ensures Typed(v, f.ty)
    decreases f, 0
  {
    var src := Sources(f.attrs)[0];
    if src.Listed? then Plain(src.literal) else Record(Defaults(f.ty.fields))
  }

  /** `default()`: one value per field, each of its field's type. */
  function Defaults(fields: seq<Field>): (vs: seq<Value>)
    requires AllHaveDefaults(fields)
    ensures AllTyped(vs, fields)
    decreases fields, 1
  {
    DefaultsFrom(fields, 0)
  }

  function DefaultsFrom(fields: seq<Field>, i: nat): (vs: seq<Value>)
    requires i <= |fields| && AllHaveDefaults(fields)
    ensures |vs| == |fields| - i
    ensures forall j :: 0 <= j < |vs| ==> vs[j] == FieldDefault(fields[i + j])
    decreases fields, 0, |fields| - i
  {
    if i == |fields| then [] else [FieldDefault(fields[i])] + DefaultsFrom(fields, i + 1)
  }

  /** A `default_value` literal is what the field starts with. */
  lemma DefaultIsLiteral(fields: seq<Field>, j: nat, lit: Scalar)
    requires AllHaveDefaults(fields) && j < |fields|
    requires Listed(DefaultValue, lit) in fields[j].attrs
    ensures Defaults(fields)[j] == Plain(lit)
  {
    var f := fields[j];
    assert HasDefault(f);
    SourcesContain(f.attrs, Listed(DefaultValue, lit));
    assert Sources(f.attrs)[0] == Listed(DefaultValue, lit);
    assert FieldDefault(f) == Plain(lit);
    assert Defaults(fields)[j] == FieldDefault(fields[0 + j]);
  }

  /** A `nested_config` field starts with its struct's own defaults. */
  lemma DefaultIsNested(fields: seq<Field>, j: nat)
    requires AllHaveDefaults(fields) && j < |fields|
    requires Marker(NestedConfig) in fields[j].attrs
    ensures fields[j].ty.Struct? && AllHaveDefaults(fields[j].ty.fields)
    ensures Defaults(fields)[j] == Record(Defaults(fields[j].ty.fields))
  {
    SourcesContain(fields[j].attrs, Marker(NestedConfig));
  }

  lemma {:induction false} SourcesContain(attrs: seq<Attr>, a: Attr)
    requires IsSource(a) && a in attrs
    ensures a in Sources(attrs)
  {
    if attrs[0] != a {
      assert a in attrs[1..];
      SourcesContain(attrs[1..], a);
    }
  }

  /** Binding an empty table onto the defaults keeps them and reports every
      bound field missing. */
  lemma DefaultsOnEmptyTable(fields: seq<Field>)
    requires AllHaveDefaults(fields) && DistinctNames(fields)
    ensures ParseFromMap(fields, Defaults(fields), map[]) == Binding(Defaults(fields), map[], MissingFrom(fields, 0))
  {
    EmptyTable(fields, Defaults(fields));
  }
}
