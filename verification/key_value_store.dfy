/** The experimental key/value configuration (`src/test_config.rs`): a
    table of settings built from fixed `name=value` texts, updated from the
    lines of a file and written back as one `name=value` line per entry.
    Reading and writing the file itself are not modelled: the file's text
    is a parameter and the written text a result. */
module KeyValueStore {
  import opened Results
  import opened Text

  /** One built-in setting as the source spells it, `name=value`. */
  function Item(name: string, value: string): string
  {
    name + "=" + value
  }

  /** The table `Config::new` builds from texts: each text must split on
      `=` into exactly two pieces (otherwise it panics, here `None`), and
      a later name overwrites an earlier one. */
  function BuildTable(items: seq<string>, m: map<string, string>): (r: Option<map<string, string>>)
    ensures r.Some? ==> m.Keys <= r.value.Keys
    decreases |items|
  {
    if |items| == 0 then Some(m)
    else
      var ts := Split(items[0], {'='});
      if |ts| != 2 then None
      else BuildTable(items[1..], m[ts[0] := ts[|ts| - 1]])
  }

  /** A text with one `=` splits into the name and the value. */
  lemma SplitItem(name: string, value: string)
    requires NoneOf(name, {'='}) && NoneOf(value, {'='})
    ensures Split(Item(name, value), {'='}) == [name, value]
  {
    assert Item(name, value) == name + ['='] + value;
    SplitAt(name, '=', value, {'='});
    SplitNone(value, {'='});
  }

  /** A name and a value that can be written as one line of `name=value`. */
  predicate PlainPair(name: string, value: string) {
    NoneOf(name, {'=', '\n'}) && NoneOf(value, {'=', '\n'})
  }

  /** The table built from well-formed texts: each name with the value of
      its last text. */
  function Insert(pairs: seq<(string, string)>, m: map<string, string>): map<string, string>
    decreases |pairs|
  {
    if |pairs| == 0 then m else Insert(pairs[1..], m[pairs[0].0 := pairs[0].1])
  }

  function Items(pairs: seq<(string, string)>): (r: seq<string>)
    ensures |r| == |pairs|
    ensures forall i :: 0 <= i < |pairs| ==> r[i] == Item(pairs[i].0, pairs[i].1)
  {
    if |pairs| == 0 then [] else [Item(pairs[0].0, pairs[0].1)] + Items(pairs[1..])
  }

  /** Texts with exactly one `=` never panic, and build the table that
      inserting their pairs in order builds. */
  lemma {:induction false} BuildTableOfItems(pairs: seq<(string, string)>, m: map<string, string>)
    requires forall i :: 0 <= i < |pairs| ==> NoneOf(pairs[i].0, {'='}) && NoneOf(pairs[i].1, {'='})
    ensures BuildTable(Items(pairs), m) == Some(Insert(pairs, m))
    decreases |pairs|
  {
    if |pairs| > 0 {
      SplitItem(pairs[0].0, pairs[0].1);
      assert Items(pairs)[1..] == Items(pairs[1..]);
      BuildTableOfItems(pairs[1..], m[pairs[0].0 := pairs[0].1]);
    }
  }

  /** The construction panics exactly when some text does not split on `=`
      into exactly two pieces. */
  lemma {:induction false} BuildTablePanics(items: seq<string>, m: map<string, string>)
    ensures BuildTable(items, m).None? <==> exists i :: 0 <= i < |items| && |Split(items[i], {'='})| != 2
    decreases |items|
  {
    if |items| > 0 {
      var ts := Split(items[0], {'='});
      if |ts| == 2 {
        var rest := items[1..];
        BuildTablePanics(rest, m[ts[0] := ts[|ts| - 1]]);
        if i :| 0 <= i < |items| && |Split(items[i], {'='})| != 2 {
          assert i > 0 && rest[i - 1] == items[i];
        }
        if i :| 0 <= i < |rest| && |Split(rest[i], {'='})| != 2 {
          assert items[i + 1] == rest[i];
        }
      }
    }
  }

  /** A text with no `=` at all makes the construction panic. */
  lemma MalformedItemPanics(item: string, rest: seq<string>, m: map<string, string>)
    requires NoneOf(item, {'='})
    ensures BuildTable([item] + rest, m).None?
  {
    SplitNone(item, {'='});
    assert ([item] + rest)[0] == item;
  }

  /** A text with two `=` splits into three pieces and makes the
      construction panic too. */
  lemma DoubleEqualsPanics(a: string, b: string, c: string, rest: seq<string>, m: map<string, string>)
    requires NoneOf(a, {'='}) && NoneOf(b, {'='}) && NoneOf(c, {'='})
    ensures Split(a + "=" + b + "=" + c, {'='}) == [a, b, c]
    ensures BuildTable([a + "=" + b + "=" + c] + rest, m).None?
  {
    var item := a + "=" + b + "=" + c;
    assert item == a + ['='] + (b + ['='] + c);
    SplitAt(a, '=', b + ['='] + c, {'='});
    SplitAt(b, '=', c, {'='});
    SplitNone(c, {'='});
    assert ([item] + rest)[0] == item;
  }

  const DefaultPairs: seq<(string, string)> := [
    ("show_stack_on_push", "false"),
    ("show_stack_on_pop", "false"),
    ("show_stack_on_bookmark", "false"),
    ("stack_separator", " - "),
    ("bookmark_separator", " - "),
    ("stack_number", "default, bold"),
    ("stack_separator", "cyan"),
    ("stack_path", "default"),
    ("bookmark_name", "default"),
    ("bookmark_separator", "cyan"),
    ("bookmark_path", "default")
  ]

  /** The built-in settings as `name=value` texts, in the source's order;
      two names occur twice. */
  const DefaultSettings: seq<string> := Items(DefaultPairs)

  /** The keys of a built table: the starting keys and every inserted one. */
  lemma {:induction false} InsertKeys(pairs: seq<(string, string)>, m: map<string, string>)
    ensures Insert(pairs, m).Keys == m.Keys + (set i | 0 <= i < |pairs| :: pairs[i].0)
    decreases |pairs|
  {
    if |pairs| > 0 {
      InsertKeys(pairs[1..], m[pairs[0].0 := pairs[0].1]);
      var here := set i | 0 <= i < |pairs| :: pairs[i].0;
      var later := set i | 0 <= i < |pairs[1..]| :: pairs[1..][i].0;
      assert here == {pairs[0].0} + later by {
        forall k | k in here
          ensures k in {pairs[0].0} + later
        {
          var i :| 0 <= i < |pairs| && pairs[i].0 == k;
          if i > 0 {
            assert pairs[1..][i - 1].0 == k;
          }
        }
        forall k | k in later
          ensures k in here
        {
          var i :| 0 <= i < |pairs[1..]| && pairs[1..][i].0 == k;
          assert pairs[i + 1].0 == k;
        }
      }
    }
  }

  /** A name takes the value of its last pair. */
  lemma {:induction false} InsertLast(pairs: seq<(string, string)>, m: map<string, string>, i: nat)
    requires i < |pairs| && forall j :: i < j < |pairs| ==> pairs[j].0 != pairs[i].0
    ensures pairs[i].0 in Insert(pairs, m) && Insert(pairs, m)[pairs[i].0] == pairs[i].1
    decreases |pairs|
  {
    var m' := m[pairs[0].0 := pairs[0].1];
    if i > 0 {
      InsertLast(pairs[1..], m', i - 1);
    } else {
      InsertKeep(pairs[1..], m', pairs[0].0);
    }
  }

  /** A name no later pair mentions keeps its value. */
  lemma {:induction false} InsertKeep(pairs: seq<(string, string)>, m: map<string, string>, k: string)
    requires k in m && forall j :: 0 <= j < |pairs| ==> pairs[j].0 != k
    ensures k in Insert(pairs, m) && Insert(pairs, m)[k] == m[k]
    decreases |pairs|
  {
    if |pairs| > 0 {
      InsertKeep(pairs[1..], m[pairs[0].0 := pairs[0].1], k);
    }
  }

  lemma DefaultPairsPlain()
    ensures forall i :: 0 <= i < |DefaultPairs| ==> NoneOf(DefaultPairs[i].0, {'='}) && NoneOf(DefaultPairs[i].1, {'='})
  {
    ValuesPlain();
    NamesPlain();
  }

  lemma ValuesPlain()
    ensures NoneOf("false", {'='}) && NoneOf(" - ", {'='}) && NoneOf("default, bold", {'='})
    ensures NoneOf("cyan", {'='}) && NoneOf("default", {'='})
  {
  }

  lemma NamesPlain()
    ensures NoneOf("show_stack_on_push", {'='}) && NoneOf("show_stack_on_pop", {'='})
    ensures NoneOf("show_stack_on_bookmark", {'='})
    ensures NoneOf("stack_separator", {'='}) && NoneOf("stack_number", {'='}) && NoneOf("stack_path", {'='})
    ensures NoneOf("bookmark_separator", {'='}) && NoneOf("bookmark_name", {'='}) && NoneOf("bookmark_path", {'='})
  {
    ShowNamesPlain();
  }

  lemma ShowNamesPlain()
    ensures NoneOf("show_stack_on_push", {'='}) && NoneOf("show_stack_on_pop", {'='})
    ensures NoneOf("show_stack_on_bookmark", {'='})
  {
  }

  /** The built-in texts do not panic, and build the table of their pairs. */
  lemma DefaultBuilds()
    ensures BuildTable(DefaultSettings, map[]) == Some(Insert(DefaultPairs, map[]))
  {
    DefaultPairsPlain();
    BuildTableOfItems(DefaultPairs, map[]);
  }

  /** That table has one entry per name. */
  lemma DefaultKeys()
    ensures Insert(DefaultPairs, map[]).Keys == (set i | 0 <= i < |DefaultPairs| :: DefaultPairs[i].0)
  {
    InsertKeys(DefaultPairs, map[]);
  }

  /** The duplicated stack separator ends with its later value, `cyan`. */
  lemma DefaultStackSeparator()
    ensures var t := Insert(DefaultPairs, map[]);
            "stack_separator" in t && t["stack_separator"] == "cyan"
  {
    LaterStackSeparator();
    InsertLast(DefaultPairs, map[], 6);
  }

  /** The duplicated bookmark separator ends with its later value, `cyan`. */
  lemma DefaultBookmarkSeparator()
    ensures var t := Insert(DefaultPairs, map[]);
            "bookmark_separator" in t && t["bookmark_separator"] == "cyan"
  {
    LaterBookmarkSeparator();
    InsertLast(DefaultPairs, map[], 9);
  }

  /** The second stack separator pair is the last one naming it. */
  lemma LaterStackSeparator()
    ensures DefaultPairs[6] == ("stack_separator", "cyan")
    ensures forall j :: 6 < j < |DefaultPairs| ==> DefaultPairs[j].0 != DefaultPairs[6].0
  {
    assert |DefaultPairs[7].0| != |DefaultPairs[6].0|;
    assert |DefaultPairs[8].0| != |DefaultPairs[6].0|;
    assert |DefaultPairs[9].0| != |DefaultPairs[6].0|;
    assert |DefaultPairs[10].0| != |DefaultPairs[6].0|;
  }

  /** The second bookmark separator pair is the last one naming it. */
  lemma LaterBookmarkSeparator()
    ensures DefaultPairs[9] == ("bookmark_separator", "cyan")
    ensures forall j :: 9 < j < |DefaultPairs| ==> DefaultPairs[j].0 != DefaultPairs[9].0
  {
    assert |DefaultPairs[10].0| != |DefaultPairs[9].0|;
  }

  // ---------------------------------------------------------------------
  // `parse_config`

  predicate IsComment(line: string) {
    |line| > 0 && line[0] == '#'
  }

  /** The key is the first `=`-piece and the value the last, untrimmed;
      a line without `=` is both. */
  function KeyValue(line: string): (kv: (string, string))
    ensures NoneOf(kv.0, {'='}) && NoneOf(kv.1, {'='})
  {
    var ts := Split(line, {'='});
    (ts[0], ts[|ts| - 1])
  }

  /** The loop over the lines: comments are skipped, a line whose key is
      in the table sets it, any other line is ignored. */
  function Update(lines: seq<string>, m: map<string, string>): (r: map<string, string>)
    ensures r.Keys == m.Keys
    decreases |lines|
  {
    if |lines| == 0 then m
    else
      var line := lines[0];
      var kv := KeyValue(line);
      var m' := if !IsComment(line) && kv.0 in m then m[kv.0 := kv.1] else m;
      Update(lines[1..], m')
  }

  /** `parse_config` on the file's text: only keys already in the table are
      set, so the set of keys never changes. */
  function ParseConfig(text: string, m: map<string, string>): (r: Result<map<string, string>>)
    ensures r.Ok? && r.value.Keys == m.Keys
  {
    Ok(Update(Lines(text), m))
  }

  /** Line `line` sets key `k`. */
  predicate Assigns(line: string, k: string) {
    !IsComment(line) && KeyValue(line).0 == k
  }

  predicate LastAssign(lines: seq<string>, i: int, k: string) {
    0 <= i < |lines| && Assigns(lines[i], k) && forall j :: i < j < |lines| ==> !Assigns(lines[j], k)
  }

  /** Each key of the table ends with the value of the last line that sets
      it, or keeps its value when no line does. */
  lemma {:induction false} UpdateMeaning(lines: seq<string>, m: map<string, string>)
    ensures forall k, i :: k in m && LastAssign(lines, i, k) ==> Update(lines, m)[k] == KeyValue(lines[i]).1
    ensures forall k :: k in m && (forall i :: 0 <= i < |lines| ==> !Assigns(lines[i], k)) ==> Update(lines, m)[k] == m[k]
    decreases |lines|
  {
    if |lines| > 0 {
      var line := lines[0];
      var kv := KeyValue(line);
      var m' := if !IsComment(line) && kv.0 in m then m[kv.0 := kv.1] else m;
      var rest := lines[1..];
      UpdateMeaning(rest, m');
      forall k, i | k in m && LastAssign(lines, i, k)
        ensures Update(lines, m)[k] == KeyValue(lines[i]).1
      {
        if i > 0 {
          assert LastAssign(rest, i - 1, k);
        } else {
          forall j | 0 <= j < |rest|
            ensures !Assigns(rest[j], k)
          {
            assert !Assigns(lines[j + 1], k);
          }
        }
      }
      forall k | k in m && (forall i :: 0 <= i < |lines| ==> !Assigns(lines[i], k))
        ensures Update(lines, m)[k] == m[k]
      {
        assert !Assigns(lines[0], k);
        forall j | 0 <= j < |rest|
          ensures !Assigns(rest[j], k)
        {
          assert !Assigns(lines[j + 1], k);
        }
      }
    }
  }

  /** `a=b=c` sets `a` to `c`; a line without `=` uses itself as key and value. */
  lemma KeyValueShapes(a: string, b: string, c: string)
    requires NoneOf(a, {'='}) && NoneOf(b, {'='}) && NoneOf(c, {'='})
    ensures KeyValue(a + "=" + b + "=" + c) == (a, c)
    ensures KeyValue(a) == (a, a)
  {
    assert a + "=" + b + "=" + c == a + ['='] + (b + ['='] + c);
    SplitAt(a, '=', b + ['='] + c, {'='});
    SplitAt(b, '=', c, {'='});
    SplitNone(c, {'='});
    SplitNone(a, {'='});
  }

  // ---------------------------------------------------------------------
  // `write_config`

  const Header: string := "# `navigate` settings"

  /** One `name=value` line per entry, in the order the map's iterator
      happens to yield them. */
  function EntryLines(m: map<string, string>, order: seq<string>): (r: string)
    requires forall i :: 0 <= i < |order| ==> order[i] in m
  {
    if |order| == 0 then "" else Item(order[0], m[order[0]]) + "\n" + EntryLines(m, order[1..])
  }

  /** `write_config`'s text: a comment line, the entries, an empty line.
      `order` is the map's iteration order, which lists every key once. */
  function WriteConfig(m: map<string, string>, order: seq<string>): (r: string)
    requires IteratesKeys(order, m)
    ensures |r| > |Header| && r[..|Header| + 1] == Header + "\n" && r[|r| - 1] == '\n'
  {
    EnumeratedKeys(m, order);
    Header + "\n" + EntryLines(m, order) + "\n"
  }

  /** `order` is an iteration order of `m`: every key, each once. */
  ghost predicate IteratesKeys(order: seq<string>, m: map<string, string>) {
    Distinct(order) && forall k :: k in order <==> k in m
  }

  /** An iteration order lists the map's keys in the sense of `Enumerates`. */
  lemma IteratesKeysEnumerates(order: seq<string>, m: map<string, string>)
    ensures IteratesKeys(order, m) <==> Enumerates(order, m.Keys)
  {
    if forall k :: k in order <==> k in m.Keys {
      EnumeratesDistinct(order, m.Keys);
    }
  }

  /** Every element of an iteration order is a key. */
  lemma EnumeratedKeys(m: map<string, string>, order: seq<string>)
    requires IteratesKeys(order, m)
    ensures forall i :: 0 <= i < |order| ==> order[i] in m
  {
    forall i | 0 <= i < |order|
      ensures order[i] in m
    {
      assert order[i] in order;
    }
  }

  /** When every entry fits on one line, the lines of the written text are
      the header, one `name=value` line per entry in `order`, and an empty
      line. */
  lemma WriteConfigLines(m: map<string, string>, order: seq<string>)
    requires Writable(m) && IteratesKeys(order, m)
    ensures Lines(WriteConfig(m, order)) == [Header] + OrderedItems(m, order) + [""]
  {
    EnumeratedKeys(m, order);
    var entries := EntryLines(m, order);
    HeaderLines(entries);
    EntriesAndBlankLine(m, order);
    ConcatAssociates([Header], OrderedItems(m, order), [""]);
  }

  lemma HeaderLines(entries: string)
    ensures Lines(Header + "\n" + entries + "\n") == [Header] + Lines(entries + "\n")
  {
    assert Header + "\n" + entries + "\n" == Header + "\n" + (entries + "\n");
    HeaderIsComment();
    LinesCons(Header, entries + "\n");
  }

  lemma EntriesAndBlankLine(m: map<string, string>, order: seq<string>)
    requires Writable(m) && forall i :: 0 <= i < |order| ==> order[i] in m
    ensures Lines(EntryLines(m, order) + "\n") == OrderedItems(m, order) + [""]
  {
    EntryLinesLines(m, order, "\n");
    assert Lines("\n") == [""] by {
      assert "\n" == "" + "\n" + "";
      LinesCons("", "");
    }
  }

  /** The `name=value` line of every entry in `order`. */
  function OrderedItems(m: map<string, string>, order: seq<string>): (r: seq<string>)
    requires forall i :: 0 <= i < |order| ==> order[i] in m
    ensures |r| == |order|
    ensures forall i :: 0 <= i < |order| ==> r[i] == Item(order[i], m[order[i]])
  {
    seq(|order|, i requires 0 <= i < |order| => Item(order[i], m[order[i]]))
  }

  /** A written entry is read back as one line. */
  lemma ItemLines(k: string, v: string, tail: string)
    requires PlainPair(k, v) && '\r' !in v
    ensures Lines(Item(k, v) + "\n" + tail) == [Item(k, v)] + Lines(tail)
  {
    ItemLine(k, v);
    LinesCons(Item(k, v), tail);
  }

  lemma OrderedItemsCons(m: map<string, string>, order: seq<string>)
    requires |order| > 0 && forall i :: 0 <= i < |order| ==> order[i] in m
    ensures OrderedItems(m, order) == [Item(order[0], m[order[0]])] + OrderedItems(m, order[1..])
  {
    var a := OrderedItems(m, order);
    var b := [Item(order[0], m[order[0]])] + OrderedItems(m, order[1..]);
    assert |a| == |b|;
    forall i | 0 <= i < |a| ensures a[i] == b[i] {
      if i > 0 { assert order[1..][i - 1] == order[i]; }
    }
  }

  /** Entries that fit on one line each are read back as those lines. */
  lemma {:induction false} EntryLinesLines(m: map<string, string>, order: seq<string>, rest: string)
    requires Writable(m) && forall i :: 0 <= i < |order| ==> order[i] in m
    ensures Lines(EntryLines(m, order) + rest) == OrderedItems(m, order) + Lines(rest)
    decreases |order|
  {
    if |order| == 0 {
      assert EntryLines(m, order) + rest == rest;
      assert OrderedItems(m, order) + Lines(rest) == Lines(rest);
    } else {
      var k0 := order[0];
      var line := Item(k0, m[k0]);
      var tail := EntryLines(m, order[1..]) + rest;
      var later := OrderedItems(m, order[1..]);
      assert Lines(EntryLines(m, order) + rest) == [line] + Lines(tail) by {
        assert EntryLines(m, order) + rest == line + "\n" + tail;
        assert PlainPair(k0, m[k0]) && '\r' !in m[k0];
        ItemLines(k0, m[k0], tail);
      }
      assert Lines(tail) == later + Lines(rest) by {
        EntryLinesLines(m, order[1..], rest);
      }
      assert OrderedItems(m, order) == [line] + later by {
        OrderedItemsCons(m, order);
      }
      ConcatAssociates([line], later, Lines(rest));
    }
  }

  lemma ConcatAssociates<T>(a: seq<T>, b: seq<T>, c: seq<T>)
    ensures a + (b + c) == (a + b) + c
  {
  }

  /** Entries that survive being written as a line. */
  predicate Writable(m: map<string, string>) {
    forall k :: k in m ==> PlainPair(k, m[k]) && |k| > 0 && k[0] != '#' && '\r' !in m[k]
  }

  lemma ItemLine(k: string, v: string)
    requires PlainPair(k, v) && '\r' !in v
    ensures '\n' !in Item(k, v) && DropCarriageReturn(Item(k, v)) == Item(k, v)
    ensures KeyValue(Item(k, v)) == (k, v)
  {
    var line := Item(k, v);
    NoneOfConcat(k, "=", {'\n'});
    NoneOfConcat(k + "=", v, {'\n'});
    assert NoneOf(line, {'\n'});
    if |line| > 0 {
      assert line[|line| - 1] == if |v| > 0 then v[|v| - 1] else '=';
    }
    assert NoneOf(k, {'='}) && NoneOf(v, {'='});
    SplitItem(k, v);
  }

  /** Table `b` with every key it shares with `keys` set to its value in `m`. */
  function Overwrite(b: map<string, string>, m: map<string, string>, keys: seq<string>): (r: map<string, string>)
    requires forall i :: 0 <= i < |keys| ==> keys[i] in m
    ensures r.Keys == b.Keys
  {
    map k | k in b :: if k in keys then m[k] else b[k]
  }

  lemma OverwriteNone(b: map<string, string>, m: map<string, string>)
    ensures Overwrite(b, m, []) == b
  {
  }

  lemma OverwriteStep(b: map<string, string>, m: map<string, string>, keys: seq<string>)
    requires |keys| > 0 && forall i :: 0 <= i < |keys| ==> keys[i] in m
    ensures var b' := if keys[0] in b then b[keys[0] := m[keys[0]]] else b;
            Overwrite(b', m, keys[1..]) == Overwrite(b, m, keys)
  {
    var b' := if keys[0] in b then b[keys[0] := m[keys[0]]] else b;
    var got := Overwrite(b', m, keys[1..]);
    var want := Overwrite(b, m, keys);
    forall k | k in got
      ensures got[k] == want[k]
    {
      if k != keys[0] {
        assert k in keys <==> k in keys[1..];
      }
    }
  }

  /** One written line in front of the rest sets its key, if the table has it. */
  lemma UpdateItem(k: string, v: string, tail: string, b: map<string, string>)
    requires PlainPair(k, v) && |k| > 0 && k[0] != '#' && '\r' !in v
    ensures Update(Lines(Item(k, v) + "\n" + tail), b) ==
              Update(Lines(tail), if k in b then b[k := v] else b)
  {
    var line := Item(k, v);
    ItemLine(k, v);
    LinesCons(line, tail);
    assert !IsComment(line) by {
      assert line[0] == k[0];
    }
  }

  /** Updating a table with the written entries overwrites exactly the
      written keys it has. */
  lemma {:induction false} UpdateEntries(m: map<string, string>, order: seq<string>, b: map<string, string>, rest: string)
    requires Writable(m) && forall i :: 0 <= i < |order| ==> order[i] in m
    ensures Update(Lines(EntryLines(m, order) + rest), b) == Update(Lines(rest), Overwrite(b, m, order))
    decreases |order|
  {
    if |order| == 0 {
      assert EntryLines(m, order) + rest == rest;
      OverwriteNone(b, m);
    } else {
      var k0 := order[0];
      var tail := EntryLines(m, order[1..]) + rest;
      assert EntryLines(m, order) + rest == Item(k0, m[k0]) + "\n" + tail;
      UpdateItem(k0, m[k0], tail, b);
      var b' := if k0 in b then b[k0 := m[k0]] else b;
      UpdateEntries(m, order[1..], b', rest);
      OverwriteStep(b, m, order);
    }
  }

  /** The final empty line sets nothing unless the table has the empty key. */
  lemma UpdateFinalLine(b: map<string, string>)
    requires "" !in b
    ensures Update(Lines("\n"), b) == b
  {
    assert "\n" == "" + "\n" + "";
    LinesCons("", "");
    SplitNone("", {'='});
  }

  /** The header is one comment line. */
  lemma HeaderIsComment()
    ensures '\n' !in Header && IsComment(DropCarriageReturn(Header))
  {
    assert Header[0] == '#';
  }

  /** Reading back a written table: every key of the table being read into
      that was written takes the written value, every other key keeps its
      value. */
  lemma ReadBackWritten(m: map<string, string>, order: seq<string>, b: map<string, string>)
    requires Writable(m) && IteratesKeys(order, m)
    requires "" !in b
    ensures ParseConfig(WriteConfig(m, order), b) == Ok(Overwrite(b, m, order))
  {
    EnumeratedKeys(m, order);
    ReadBackEntries(m, order, b);
  }

  /** The file `write_config` writes, read back entry by entry. */
  lemma ReadBackEntries(m: map<string, string>, order: seq<string>, b: map<string, string>)
    requires Writable(m) && forall i :: 0 <= i < |order| ==> order[i] in m
    requires "" !in b
    ensures ParseConfig(Header + "\n" + EntryLines(m, order) + "\n", b) == Ok(Overwrite(b, m, order))
  {
    assert Header + "\n" + EntryLines(m, order) + "\n" == Header + "\n" + (EntryLines(m, order) + "\n");
    HeaderIsComment();
    LinesCons(Header, EntryLines(m, order) + "\n");
    UpdateEntries(m, order, b, "\n");
    UpdateFinalLine(Overwrite(b, m, order));
  }

  /** Writing the settings and reading the file back into a table with
      the same keys, whatever their values, gives the written settings. */
  lemma RoundTrip(m: map<string, string>, order: seq<string>, b: map<string, string>)
    requires Writable(m) && IteratesKeys(order, m)
    requires b.Keys == m.Keys
    ensures ParseConfig(WriteConfig(m, order), b) == Ok(m)
  {
    ReadBackWritten(m, order, b);
    EnumeratedKeys(m, order);
    var r := Overwrite(b, m, order);
    forall k | k in r
      ensures k in order && r[k] == m[k]
    {
      assert k in m.Keys;
    }
    assert r == m;
  }
}
