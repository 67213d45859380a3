/** The older derive macro (`config_parser`, `lib.rs` and `common.rs`):
    a flat map of strings read from the file, and generated assignments
    that take a field's key out of the map only when its value parses.
    Nested structs read from the same flat map. */
module LegacyConfigParser {
  import opened Results
  import opened Text
  import opened Binder
  import FlatParser
  import BinderMessages

  // ---------------------------------------------------------------------
  // `parse_config_file`

  /** The lines of the file read as entries, quotes left in place. */
  function RawEntries(input: string): (es: seq<FlatParser.Entry>)
    ensures |es| == |Lines(input)|
    ensures forall i :: 0 <= i < |es| ==> es[i] == FlatParser.LineEntry(Lines(input)[i])
  {
    var ls := Lines(input);
    seq(|ls|, i requires 0 <= i < |ls| => FlatParser.LineEntry(ls[i]))
  }

  /** The older `parse_config_file`: the same line rules as the library's
      reader, without removing quotes from values. */
  function ParseConfigFile(input: string): (r: Result<map<string, string>>)
    ensures r.Ok?
  {
    Ok(FlatParser.Collect(RawEntries(input), map[]))
  }

  function UnquoteAll(es: seq<FlatParser.Entry>): (r: seq<FlatParser.Entry>)
    ensures |r| == |es|
    ensures forall i :: 0 <= i < |es| ==> r[i] == FlatParser.Unquote(es[i])
  {
    if |es| == 0 then [] else [FlatParser.Unquote(es[0])] + UnquoteAll(es[1..])
  }

  /** Every value with its quotes removed. */
  function UnquoteMap(m: map<string, string>): (r: map<string, string>)
    ensures r.Keys == m.Keys
  {
    map k | k in m :: RemoveChars(m[k], FlatParser.Quotes)
  }

  lemma {:induction false} CollectUnquote(es: seq<FlatParser.Entry>, m: map<string, string>)
    ensures FlatParser.Collect(UnquoteAll(es), UnquoteMap(m)) == UnquoteMap(FlatParser.Collect(es, m))
    decreases |es|
  {
    if |es| > 0 {
      var e := es[0];
      var m' := if e.Pair? then m[e.key := e.value] else m;
      var u := FlatParser.Unquote(e);
      var um' := if u.Pair? then UnquoteMap(m)[u.key := u.value] else UnquoteMap(m);
      assert um' == UnquoteMap(m') by {
        if e.Pair? { UnquoteMapUpdate(m, e.key, e.value); }
      }
      assert FlatParser.Collect(UnquoteAll(es), UnquoteMap(m)) == FlatParser.Collect(UnquoteAll(es[1..]), um') by {
        assert UnquoteAll(es)[0] == u && UnquoteAll(es)[1..] == UnquoteAll(es[1..]);
      }
      assert FlatParser.Collect(es, m) == FlatParser.Collect(es[1..], m');
      CollectUnquote(es[1..], m');
    }
  }

  lemma UnquoteMapUpdate(m: map<string, string>, k: string, v: string)
    ensures UnquoteMap(m)[k := RemoveChars(v, FlatParser.Quotes)] == UnquoteMap(m[k := v])
  {
  }

  /** The two readers keep the same keys; the library's reader holds the
      older one's values with quotes removed. */
  lemma ReadersAgree(input: string)
    ensures FlatParser.ParseConfigFile(input) == Ok(UnquoteMap(ParseConfigFile(input).value))
  {
    var raw := RawEntries(input);
    assert FlatParser.Entries(input) == UnquoteAll(raw);
    assert UnquoteMap(map[]) == map[];
    CollectUnquote(raw, map[]);
  }

  // ---------------------------------------------------------------------
  // The generated assignments

  /** The fields' values and the shared map. */
  datatype State = State(values: seq<Value>, config: map<string, string>)

  /** The assignment for one field. A setting field whose key is present
      and parses takes the parsed value and its key is removed; otherwise
      nothing changes. A `nested_config` field runs its struct's
      assignments on the same map. */
  function AssignField(f: Field, v: Value, m: map<string, string>): (r: (Value, map<string, string>))
    ensures RoleOf(f.attrs).Skip? ==> r == (v, m)
    ensures RoleOf(f.attrs).BindSetting? && f.name in m && ParseField(f.ty, m[f.name]).Some? ==>
              r == (Plain(ParseField(f.ty, m[f.name]).value), m - {f.name}) && f.name !in r.1
    ensures RoleOf(f.attrs).BindSetting? && !(f.name in m && ParseField(f.ty, m[f.name]).Some?) ==> r == (v, m)
    ensures RoleOf(f.attrs).BindTable? && !(f.ty.Struct? && v.Record? && |v.values| == |f.ty.fields|) ==> r == (v, m)
    ensures RoleOf(f.attrs).BindTable? && f.ty.Struct? && v.Record? && |v.values| == |f.ty.fields| ==>
              r.0.Record? && |r.0.values| == |f.ty.fields|
    decreases f, 0
  {
    match RoleOf(f.attrs)
    case Skip => (v, m)
    case BindTable =>
      if f.ty.Struct? && v.Record? && |v.values| == |f.ty.fields| then
        var s := Assign(f.ty.fields, State(v.values, m), 0);
        (Record(s.values), s.config)
      else (v, m)
    case BindSetting =>
      if f.name in m then
        match ParseField(f.ty, m[f.name])
        case Some(x) => (Plain(x), m - {f.name})
        case None => (v, m)
      else (v, m)
  }

  /** The assignments from field `i` on, in declaration order. */
  function Assign(fields: seq<Field>, s: State, i: nat): (r: State)
    requires i <= |fields| && |s.values| == |fields|
    ensures |r.values| == |fields|
    decreases fields, 1, |fields| - i
  {
    if i == |fields| then s
    else
      var (v, m) := AssignField(fields[i], s.values[i], s.config);
      Assign(fields, State(s.values[i := v], m), i + 1)
  }

  /** `parse_from_map`: the assignments on the caller's map, which they
      change in place; the Rust result is always `Ok(())`. */
  function ParseFromMap(fields: seq<Field>, values: seq<Value>, m: map<string, string>): (r: State)
    requires |values| == |fields|
    ensures |r.values| == |fields|
    ensures SubMap(r.config, m)
  {
    AssignSubMap(fields, State(values, m), 0);
    Assign(fields, State(values, m), 0)
  }

  /** What `parse_from_string` leaves and returns. */
  datatype Loaded = Loaded(values: seq<Value>, config: map<string, string>, status: Result<()>)

  function LeftoverMessage(keys: seq<string>): string
  {
    "the following settings were not recognised: " + BinderMessages.PrettyList(keys)
  }

  /** `parse_from_string`: reads the file, runs the assignments and fails
      with the list of keys left in the map, in the order `order` gives. */
  function ParseFromString(fields: seq<Field>, values: seq<Value>, input: string, order: set<string> -> seq<string>): (r: Loaded)
    requires |values| == |fields| && ListsKeys(order)
    ensures |r.values| == |fields|
    ensures r.status.Ok? <==> r.config == map[]
    ensures r.status.Err? ==> r.status.message == LeftoverMessage(order(r.config.Keys))
    ensures r.status.Err? ==> Enumerates(order(r.config.Keys), r.config.Keys)
  {
    var s := ParseFromMap(fields, values, ParseConfigFile(input).value);
    if |s.config| == 0 then Loaded(s.values, s.config, Ok(()))
    else
      assert s.config != map[];
      Loaded(s.values, s.config, Err(LeftoverMessage(order(s.config.Keys))))
  }

  /** `write_default_config` writes nothing and succeeds. */
  function WriteDefaultConfig(fields: seq<Field>, values: seq<Value>): (r: Result<()>)
    ensures r == Ok(())
  {
    Ok(())
  }

  // ---------------------------------------------------------------------
  // Properties

  /** `a` holds some of `b`'s keys, with `b`'s values. */
  predicate SubMap(a: map<string, string>, b: map<string, string>) {
    forall k :: k in a ==> k in b && a[k] == b[k]
  }

  /** The assignments only ever remove keys. */
  lemma {:induction false} AssignFieldSubMap(f: Field, v: Value, m: map<string, string>)
    ensures SubMap(AssignField(f, v, m).1, m)
    decreases f, 0
  {
    if RoleOf(f.attrs).BindTable? && f.ty.Struct? && v.Record? && |v.values| == |f.ty.fields| {
      AssignSubMap(f.ty.fields, State(v.values, m), 0);
    }
  }

  lemma {:induction false} AssignSubMap(fields: seq<Field>, s: State, i: nat)
    requires i <= |fields| && |s.values| == |fields|
    ensures SubMap(Assign(fields, s, i).config, s.config)
    decreases fields, 1, |fields| - i
  {
    if i < |fields| {
      var (v, m) := AssignField(fields[i], s.values[i], s.config);
      AssignFieldSubMap(fields[i], s.values[i], s.config);
      AssignSubMap(fields, State(s.values[i := v], m), i + 1);
    }
  }

  /** The assignments never give a field a value of the wrong shape. */
  lemma {:induction false} AssignFieldTyped(f: Field, v: Value, m: map<string, string>)
    requires Typed(v, f.ty)
    ensures Typed(AssignField(f, v, m).0, f.ty)
    decreases f, 0
  {
    if RoleOf(f.attrs).BindTable? && f.ty.Struct? && v.Record? && |v.values| == |f.ty.fields| {
      AssignTyped(f.ty.fields, State(v.values, m), 0);
    }
  }

  lemma {:induction false} AssignTyped(fields: seq<Field>, s: State, i: nat)
    requires i <= |fields| && AllTyped(s.values, fields)
    ensures AllTyped(Assign(fields, s, i).values, fields)
    decreases fields, 1, |fields| - i
  {
    if i < |fields| {
      var (v, m) := AssignField(fields[i], s.values[i], s.config);
      AssignFieldTyped(fields[i], s.values[i], s.config);
      var s' := State(s.values[i := v], m);
      assert AllTyped(s'.values, fields);
      AssignTyped(fields, s', i + 1);
    }
  }

  // ---------------------------------------------------------------------
  // Structs without nested fields

  /** No field reads a nested struct. */
  predicate Flat(fields: seq<Field>) {
    forall j :: 0 <= j < |fields| ==> !RoleOf(fields[j].attrs).BindTable?
  }

  /** Field `j` is a setting whose key `m` holds with a value that parses. */
  predicate Parses(fields: seq<Field>, m: map<string, string>, j: nat)
    requires j < |fields|
  {
    var f := fields[j];
    RoleOf(f.attrs).BindSetting? && f.name in m && ParseField(f.ty, m[f.name]).Some?
  }

  /** The keys of the fields from `i` on whose values parse. */
  function Consumed(fields: seq<Field>, m: map<string, string>, i: nat): set<string>
    requires i <= |fields|
    decreases |fields| - i
  {
    if i == |fields| then {}
    else (if Parses(fields, m, i) then {fields[i].name} else {}) + Consumed(fields, m, i + 1)
  }

  lemma {:induction false} ConsumedMembership(fields: seq<Field>, m: map<string, string>, i: nat, k: string)
    requires i <= |fields|
    ensures k in Consumed(fields, m, i) <==> exists j :: i <= j < |fields| && Parses(fields, m, j) && fields[j].name == k
    decreases |fields| - i
  {
    if i < |fields| {
      ConsumedMembership(fields, m, i + 1, k);
    }
  }

  /** In a flat struct with distinct field names, each setting takes its
      parsed value exactly when its key holds a value that parses, and the
      map loses exactly those keys. */
  lemma {:induction false} AssignFlat(fields: seq<Field>, vs: seq<Value>, c: map<string, string>, m: map<string, string>, i: nat)
    requires Flat(fields) && DistinctNames(fields)
    requires i <= |fields| && |vs| == |fields|
    requires forall j :: i <= j < |fields| ==>
               (fields[j].name in c <==> fields[j].name in m) &&
               (fields[j].name in c ==> c[fields[j].name] == m[fields[j].name])
    ensures var r := Assign(fields, State(vs, c), i);
            && r.config == c - Consumed(fields, m, i)
            && (forall j :: 0 <= j < i ==> r.values[j] == vs[j])
            && (forall j :: i <= j < |fields| ==>
                  r.values[j] == if Parses(fields, m, j) then Plain(ParseField(fields[j].ty, m[fields[j].name]).value) else vs[j])
    decreases |fields| - i
  {
    if i < |fields| {
      var f := fields[i];
      var (v, c') := AssignField(f, vs[i], c);
      var vs' := vs[i := v];
      FlatFieldStep(fields, vs[i], c, m, i);
      FrameAfterStep(fields, c, c', m, i);
      AssignFlat(fields, vs', c', m, i + 1);
      var r := Assign(fields, State(vs', c'), i + 1);
      assert r == Assign(fields, State(vs, c), i);
      assert r.config == c - Consumed(fields, m, i) by {
        assert Consumed(fields, m, i) == (if Parses(fields, m, i) then {f.name} else {}) + Consumed(fields, m, i + 1);
      }
    }
  }

  /** One step of a flat struct: a setting whose value parses takes it and
      drops its key; anything else is left as it is. */
  lemma FlatFieldStep(fields: seq<Field>, v: Value, c: map<string, string>, m: map<string, string>, i: nat)
    requires Flat(fields) && i < |fields|
    requires fields[i].name in c <==> fields[i].name in m
    requires fields[i].name in c ==> c[fields[i].name] == m[fields[i].name]
    ensures AssignField(fields[i], v, c) ==
              if Parses(fields, m, i) then (Plain(ParseField(fields[i].ty, m[fields[i].name]).value), c - {fields[i].name})
              else (v, c)
  {
    assert !RoleOf(fields[i].attrs).BindTable?;
  }

  /** Dropping field `i`'s key keeps the later fields' entries. */
  lemma FrameAfterStep(fields: seq<Field>, c: map<string, string>, c': map<string, string>, m: map<string, string>, i: nat)
    requires DistinctNames(fields) && i < |fields|
    requires c' == c || c' == c - {fields[i].name}
    requires forall j :: i <= j < |fields| ==>
               (fields[j].name in c <==> fields[j].name in m) &&
               (fields[j].name in c ==> c[fields[j].name] == m[fields[j].name])
    ensures forall j :: i + 1 <= j < |fields| ==>
              (fields[j].name in c' <==> fields[j].name in m) &&
              (fields[j].name in c' ==> c'[fields[j].name] == m[fields[j].name])
  {
    forall j | i + 1 <= j < |fields|
      ensures fields[j].name in c' <==> fields[j].name in m
      ensures fields[j].name in c' ==> c'[fields[j].name] == m[fields[j].name]
    {
      assert fields[j].name != fields[i].name;
    }
  }

  /** A `nested_config` field whose struct is flat reads its settings from
      the map the outer struct reads: each nested setting takes its parsed
      value exactly when that map holds a value for its name that parses,
      and the map loses exactly those keys. */
  lemma NestedFlatField(f: Field, v: Value, m: map<string, string>)
    requires RoleOf(f.attrs).BindTable? && f.ty.Struct? && Flat(f.ty.fields) && DistinctNames(f.ty.fields)
    requires v.Record? && |v.values| == |f.ty.fields|
    ensures var r := AssignField(f, v, m);
            var fs := f.ty.fields;
            && r.1 == m - Consumed(fs, m, 0)
            && r.0.Record? && |r.0.values| == |fs|
            && (forall j :: 0 <= j < |fs| ==>
                  r.0.values[j] == if Parses(fs, m, j) then Plain(ParseField(fs[j].ty, m[fs[j].name]).value) else v.values[j])
  {
    AssignFlat(f.ty.fields, v.values, m, m, 0);
  }

  /** A flat struct's `parse_from_string` fails exactly when the file
      holds a key that no setting consumed, and a setting whose value does
      not parse is listed among the leftovers. */
  lemma UnparsedIsLeftover(fields: seq<Field>, values: seq<Value>, input: string, order: set<string> -> seq<string>, j: nat)
    requires Flat(fields) && DistinctNames(fields) && |values| == |fields| && ListsKeys(order)
    requires j < |fields| && RoleOf(fields[j].attrs).BindSetting?
    requires var m := ParseConfigFile(input).value;
             fields[j].name in m && ParseField(fields[j].ty, m[fields[j].name]).None?
    ensures var r := ParseFromString(fields, values, input, order);
            && r.status.Err?
            && fields[j].name in r.config
            && fields[j].name in order(r.config.Keys)
            && r.values[j] == values[j]
  {
    var m := ParseConfigFile(input).value;
    var k := fields[j].name;
    ParseFromStringFlat(fields, values, input, order);
    assert !Parses(fields, m, j);
    assert k !in Consumed(fields, m, 0) by {
      ConsumedMembership(fields, m, 0, k);
    }
  }

  /** A flat struct's `parse_from_string`: the settings whose values parse
      are assigned and the rest keep their values; it succeeds exactly when
      every key of the file was consumed that way. */
  lemma ParseFromStringFlat(fields: seq<Field>, values: seq<Value>, input: string, order: set<string> -> seq<string>)
    requires Flat(fields) && DistinctNames(fields) && |values| == |fields| && ListsKeys(order)
    ensures var m := ParseConfigFile(input).value;
            var r := ParseFromString(fields, values, input, order);
            && r.config == m - Consumed(fields, m, 0)
            && (r.status.Ok? <==> m.Keys <= Consumed(fields, m, 0))
            && (forall j :: 0 <= j < |fields| ==>
                  r.values[j] == if Parses(fields, m, j) then Plain(ParseField(fields[j].ty, m[fields[j].name]).value) else values[j])
  {
    var m := ParseConfigFile(input).value;
    AssignFlat(fields, values, m, m, 0);
    EmptyDifference(m, Consumed(fields, m, 0));
  }

  /** Removing keys empties a map exactly when they cover its keys. */
  lemma EmptyDifference(m: map<string, string>, ks: set<string>)
    ensures m - ks == map[] <==> m.Keys <= ks
  {
    if m.Keys <= ks {
      assert (m - ks).Keys == {};
    }
    if m - ks == map[] {
      forall k | k in m
        ensures k in ks
      {
        assert k !in m - ks;
      }
    }
  }
}
