/** The generated `to_ansi_sequences` (config-parser-macro,
    `generator_functions.rs`): every field marked `style_config` is replaced
    by the escape sequences its descriptor compiles to, every field marked
    `nested_config` is converted recursively, and the first failure ends the
    conversion with an error. */
module AnsiConversion {
  import opened Results
  import opened Binder
  import StyleFormat

  const StyleMarker: Attr := Marker(StyleConfig)
  const NestedMarker: Attr := Marker(NestedConfig)

  /** One field's value after its attributes were processed, and the error
      that stopped the processing, if any. */
  datatype Converted = Converted(value: Value, failure: Option<string>)

  /** All fields' values, and the error that stopped the conversion, if any. */
  datatype Conversion = Conversion(values: seq<Value>, failure: Option<string>)

  function ConvertFailedMessage(previous: string): string
  {
    "failed to convert '" + previous + "' to ansi escape sequence"
  }

  /** The descriptor compiler the statements call; `to_ansi_sequences`
      uses `parse_style`. */
  type Compiler = string -> Result<string>

  /** The statements generated for one field, one per attribute from `k`
      on, in attribute order. A `style_config` statement on a value that is
      not a string, or a `nested_config` statement on one that is not a
      struct of the declared shape, would not compile; they do nothing
      here. */
  function ConvertAttrs(compile: Compiler, f: Field, v: Value, k: nat): (r: Converted)
    requires k <= |f.attrs|
    ensures (forall q :: k <= q < |f.attrs| ==> Inert(f.attrs[q])) ==> r == Converted(v, None)
    ensures v.Plain? && v.scalar.Text? ==> r.value.Plain? && r.value.scalar.Text?
    ensures v.Plain? && !v.scalar.Text? ==> r == Converted(v, None)
    ensures v.Record? ==> r.value.Record?
    ensures v.Plain? && r.failure.Some? ==>
              r.value.scalar.Text? && r.failure.value == ConvertFailedMessage(r.value.scalar.text)
    decreases f, |f.attrs| - k
  {
    if k == |f.attrs| then Converted(v, None)
    else if f.attrs[k] == StyleMarker && v.Plain? && v.scalar.Text? then
      match compile(v.scalar.text)
      case Ok(x) => ConvertAttrs(compile, f, Plain(Text(x)), k + 1)
      case Err(_) => Converted(v, Some(ConvertFailedMessage(v.scalar.text)))
    else if f.attrs[k] == NestedMarker && f.ty.Struct? && v.Record? && |v.values| == |f.ty.fields| then
      var sub := ConvertFields(compile, f.ty.fields, v.values, 0);
      if sub.failure.Some? then Converted(Record(sub.values), sub.failure)
      else ConvertAttrs(compile, f, Record(sub.values), k + 1)
    else ConvertAttrs(compile, f, v, k + 1)
  }

  /** The statements for the fields from `i` on, in declaration order; a
      failure returns at once with the values as they stand. */
  function ConvertFields(compile: Compiler, fields: seq<Field>, values: seq<Value>, i: nat): (r: Conversion)
    requires i <= |fields| && |values| == |fields|
    ensures |r.values| == |fields|
    ensures (forall j :: i <= j < |fields| ==> NoStatements(fields[j])) ==> r == Conversion(values, None)
    decreases fields, |fields| - i
  {
    if i == |fields| then Conversion(values, None)
    else
      var c := ConvertAttrs(compile, fields[i], values[i], 0);
      if c.failure.Some? then Conversion(values[i := c.value], c.failure)
      else ConvertFields(compile, fields, values[i := c.value], i + 1)
  }

  /** `to_ansi_sequences`: `Ok(())` when `failure` is `None`. */
  function ToAnsiSequences(fields: seq<Field>, values: seq<Value>): (r: Conversion)
    requires |values| == |fields|
    ensures |r.values| == |fields|
    ensures (forall j :: 0 <= j < |fields| ==> NoStatements(fields[j])) ==> r == Conversion(values, None)
  {
    ConvertFields(StyleFormat.ParseStyle, fields, values, 0)
  }

  // ---------------------------------------------------------------------
  // Field by field

  /** Field `j` converted on its own. */
  function Each(compile: Compiler, fields: seq<Field>, values: seq<Value>, j: nat): Converted
    requires j < |fields| && |values| == |fields|
  {
    ConvertAttrs(compile, fields[j], values[j], 0)
  }

  /** The first field from `i` on whose conversion fails, or the number of
      fields when none does. */
  function FirstFailure(compile: Compiler, fields: seq<Field>, values: seq<Value>, i: nat): (k: nat)
    requires i <= |fields| && |values| == |fields|
    ensures i <= k <= |fields|
    decreases |fields| - i
  {
    if i == |fields| then |fields|
    else if Each(compile, fields, values, i).failure.Some? then i
    else FirstFailure(compile, fields, values, i + 1)
  }

  /** The first failure depends only on the values it looks at. */
  lemma {:induction false} FirstFailureFrame(compile: Compiler, fields: seq<Field>, values: seq<Value>, values': seq<Value>, i: nat)
    requires i <= |fields| && |values| == |fields| && |values'| == |fields|
    requires forall j :: i <= j < |fields| ==> values'[j] == values[j]
    ensures FirstFailure(compile, fields, values', i) == FirstFailure(compile, fields, values, i)
    decreases |fields| - i
  {
    if i < |fields| {
      FirstFailureFrame(compile, fields, values, values', i + 1);
    }
  }

  /** The conversion from field `i` on: the fields before the first failing
      one are converted, the failing one holds what its conversion left,
      the later ones are untouched, and the error is the failing field's. */
  lemma {:induction false} ConvertFieldsMeaning(compile: Compiler, fields: seq<Field>, values: seq<Value>, i: nat)
    requires i <= |fields| && |values| == |fields|
    ensures var r := ConvertFields(compile, fields, values, i);
            var k := FirstFailure(compile, fields, values, i);
            && (forall j :: 0 <= j < i ==> r.values[j] == values[j])
            && (forall j :: i <= j < |fields| ==>
                  r.values[j] == if j <= k then Each(compile, fields, values, j).value else values[j])
            && r.failure == if k < |fields| then Each(compile, fields, values, k).failure else None
    decreases |fields| - i
  {
    if i < |fields| {
      var c := Each(compile, fields, values, i);
      if c.failure.None? {
        var vs := values[i := c.value];
        ConvertFieldsMeaning(compile, fields, vs, i + 1);
        FirstFailureFrame(compile, fields, values, vs, i + 1);
        assert forall j :: i < j < |fields| ==> Each(compile, fields, vs, j) == Each(compile, fields, values, j);
      }
    }
  }

  /** `to_ansi_sequences` succeeds exactly when every field converts on its
      own, and then every field holds its own conversion. */
  lemma ToAnsiSequencesOk(fields: seq<Field>, values: seq<Value>)
    requires |values| == |fields|
    ensures var r := ToAnsiSequences(fields, values);
            && (r.failure.None? <==> forall j :: 0 <= j < |fields| ==> Each(StyleFormat.ParseStyle, fields, values, j).failure.None?)
            && (r.failure.None? ==> forall j :: 0 <= j < |fields| ==> r.values[j] == Each(StyleFormat.ParseStyle, fields, values, j).value)
  {
    ConvertFieldsMeaning(StyleFormat.ParseStyle, fields, values, 0);
    FirstFailureNone(StyleFormat.ParseStyle, fields, values, 0);
  }

  lemma {:induction false} FirstFailureNone(compile: Compiler, fields: seq<Field>, values: seq<Value>, i: nat)
    requires i <= |fields| && |values| == |fields|
    ensures FirstFailure(compile, fields, values, i) == |fields| <==>
              forall j :: i <= j < |fields| ==> Each(compile, fields, values, j).failure.None?
    ensures FirstFailure(compile, fields, values, i) < |fields| ==>
              Each(compile, fields, values, FirstFailure(compile, fields, values, i)).failure.Some?
    decreases |fields| - i
  {
    if i < |fields| {
      FirstFailureNone(compile, fields, values, i + 1);
    }
  }

  // ---------------------------------------------------------------------
  // One attribute at a time

  /** Attributes that generate no statement. */
  predicate Inert(a: Attr) {
    a != StyleMarker && a != NestedMarker
  }

  /** A field none of whose attributes generates a statement. */
  predicate NoStatements(f: Field) {
    forall q :: 0 <= q < |f.attrs| ==> Inert(f.attrs[q])
  }

  /** Attributes that generate nothing are passed over. */
  lemma {:induction false} SkipInert(compile: Compiler, f: Field, v: Value, k: nat, p: nat)
    requires k <= p <= |f.attrs|
    requires forall q :: k <= q < p ==> Inert(f.attrs[q])
    ensures ConvertAttrs(compile, f, v, k) == ConvertAttrs(compile, f, v, p)
    decreases p - k
  {
    if k < p {
      SkipInert(compile, f, v, k + 1, p);
    }
  }

  /** A string field with a single `style_config` marker and no
      `nested_config` marker becomes the compiled descriptor, or keeps its
      text and fails with a message quoting it. */
  lemma StyleField(compile: Compiler, f: Field, s: string, p: nat)
    requires p < |f.attrs| && f.attrs[p] == StyleMarker
    requires forall q :: 0 <= q < |f.attrs| && q != p ==> Inert(f.attrs[q])
    ensures ConvertAttrs(compile, f, Plain(Text(s)), 0) ==
              match compile(s)
              case Ok(x) => Converted(Plain(Text(x)), None)
              case Err(_) => Converted(Plain(Text(s)), Some(ConvertFailedMessage(s)))
  {
    SkipInert(compile, f, Plain(Text(s)), 0, p);
    match compile(s)
    case Ok(x) => SkipInert(compile, f, Plain(Text(x)), p + 1, |f.attrs|);
    case Err(_) =>
  }

  /** A struct field with a single `nested_config` marker and no
      `style_config` marker holds its struct's conversion: the nested fields
      up to the first failing one are converted, the later ones keep their
      values, and the failure is that field's. */
  lemma NestedField(compile: Compiler, f: Field, v: Value, p: nat)
    requires p < |f.attrs| && f.attrs[p] == NestedMarker
    requires forall q :: 0 <= q < |f.attrs| && q != p ==> Inert(f.attrs[q])
    requires f.ty.Struct? && v.Record? && |v.values| == |f.ty.fields|
    ensures var r := ConvertAttrs(compile, f, v, 0);
            var fs := f.ty.fields;
            var k := FirstFailure(compile, fs, v.values, 0);
            && r.value.Record? && |r.value.values| == |fs|
            && (forall j :: 0 <= j < |fs| ==>
                  r.value.values[j] == if j <= k then Each(compile, fs, v.values, j).value else v.values[j])
            && r.failure == if k < |fs| then Each(compile, fs, v.values, k).failure else None
  {
    var sub := ConvertFields(compile, f.ty.fields, v.values, 0);
    SkipInert(compile, f, v, 0, p);
    ConvertFieldsMeaning(compile, f.ty.fields, v.values, 0);
    if sub.failure.None? {
      SkipInert(compile, f, Record(sub.values), p + 1, |f.attrs|);
    }
  }

  /** A field without `style_config` or `nested_config` is left alone. */
  lemma InertField(compile: Compiler, f: Field, v: Value)
    requires forall q :: 0 <= q < |f.attrs| ==> Inert(f.attrs[q])
    ensures ConvertAttrs(compile, f, v, 0) == Converted(v, None)
  {
    SkipInert(compile, f, v, 0, |f.attrs|);
  }

  /** Conversion keeps every value in the shape of its schema. */
  lemma {:induction false} ConvertAttrsTyped(compile: Compiler, f: Field, v: Value, k: nat)
    requires k <= |f.attrs| && Typed(v, f.ty)
    ensures Typed(ConvertAttrs(compile, f, v, k).value, f.ty)
    decreases f, |f.attrs| - k
  {
    if k < |f.attrs| {
      if f.attrs[k] == StyleMarker && v.Plain? && v.scalar.Text? {
        match compile(v.scalar.text)
        case Ok(x) => ConvertAttrsTyped(compile, f, Plain(Text(x)), k + 1);
        case Err(_) =>
      } else if f.attrs[k] == NestedMarker && f.ty.Struct? && v.Record? && |v.values| == |f.ty.fields| {
        var sub := ConvertFields(compile, f.ty.fields, v.values, 0);
        ConvertFieldsTyped(compile, f.ty.fields, v.values, 0);
        if sub.failure.None? {
          ConvertAttrsTyped(compile, f, Record(sub.values), k + 1);
        }
      } else {
        ConvertAttrsTyped(compile, f, v, k + 1);
      }
    }
  }

  lemma {:induction false} ConvertFieldsTyped(compile: Compiler, fields: seq<Field>, values: seq<Value>, i: nat)
    requires i <= |fields| && AllTyped(values, fields)
    ensures AllTyped(ConvertFields(compile, fields, values, i).values, fields)
    decreases fields, |fields| - i
  {
    if i < |fields| {
      var c := ConvertAttrs(compile, fields[i], values[i], 0);
      ConvertAttrsTyped(compile, fields[i], values[i], 0);
      var vs := values[i := c.value];
      assert AllTyped(vs, fields);
      if c.failure.None? {
        ConvertFieldsTyped(compile, fields, vs, i + 1);
      }
    }
  }
}
