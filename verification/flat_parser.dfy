/** `parse_config_file` of the configuration library (config-parser-common,
    `common.rs`): a flat reader of `key = value` lines into a map, one
    setting per line, the last assignment of a key winning. */
module FlatParser {
  import opened Results
  import opened Text

  /** The characters stripped from every value. */
  const Quotes: set<char> := {'"', '\''}

  /** What one line of the file amounts to. Table headers and malformed
      lines are recognised but contribute nothing. */
  datatype Entry = Blank | Table | Malformed | Pair(key: string, value: string)

  /** The pieces of a setting line: split on every `=`, each piece trimmed,
      the empty ones dropped. */
  function Pieces(line: string): (ps: seq<string>)
    ensures forall i :: 0 <= i < |ps| ==> |ps[i]| > 0 && IsTrimmed(ps[i]) && NoneOf(ps[i], {'='})
  {
    var split := Split(line, {'='});
    var trimmed := TrimAll(split);
    forall i | 0 <= i < |trimmed|
      ensures IsTrimmed(trimmed[i]) && NoneOf(trimmed[i], {'='})
    {
      TrimKeepsAbsence(split[i], {'='});
    }
    DropEmpty(trimmed)
  }

  /** What a stretch of a line without `=` contributes to the pieces:
      itself trimmed, or nothing when that leaves it empty. */
  function Piece(p: string): seq<string> {
    if Trim(p) == "" then [] else [Trim(p)]
  }

  /** A line without `=` is one piece, trimmed. */
  lemma PiecesNoEquals(p: string)
    requires NoneOf(p, {'='})
    ensures Pieces(p) == Piece(p)
  {
    SplitNone(p, {'='});
    assert TrimAll([p]) == [Trim(p)];
    DropEmptyOne(Trim(p));
  }

  /** The pieces on either side of an `=` are found independently. */
  lemma PiecesConcat(a: string, b: string)
    ensures Pieces(a + "=" + b) == Pieces(a) + Pieces(b)
  {
    SplitConcat(a, '=', b, {'='});
    TrimAllConcat(Split(a, {'='}), Split(b, {'='}));
    DropEmptyConcat(TrimAll(Split(a, {'='})), TrimAll(Split(b, {'='})));
  }

  /** The reading of one line, before quote removal: blank, a table header
      (starts with `[`), a pair when exactly two pieces remain, otherwise
      malformed. */
  function LineEntry(line: string): (e: Entry)
    ensures e.Blank? <==> Trim(line) == ""
    ensures e.Table? <==> Trim(line) != "" && Trim(line)[0] == '['
    ensures e.Pair? ==> |e.key| > 0 && IsTrimmed(e.key) && NoneOf(e.key, {'='})
    ensures e.Pair? ==> |e.value| > 0 && IsTrimmed(e.value) && NoneOf(e.value, {'='})
    ensures e.Pair? <==> Trim(line) != "" && Trim(line)[0] != '[' && |Pieces(Trim(line))| == 2
    ensures e.Pair? ==> e == Pair(Pieces(Trim(line))[0], Pieces(Trim(line))[1])
  {
    var t := Trim(line);
    if t == "" then Blank
    else if t[0] == '[' then Table
    else
      var ps := Pieces(t);
      if |ps| != 2 then Malformed else Pair(ps[0], ps[1])
  }

  /** Every `"` and `'` removed from the value of a pair. */
  function Unquote(e: Entry): (u: Entry)
    ensures u.Pair? <==> e.Pair?
    ensures u.Pair? ==> u.key == e.key && NoneOf(u.value, Quotes)
    ensures u.Pair? ==> forall c :: c in u.value <==> c in e.value && c != '"' && c != '\''
    ensures u.Pair? && NoneOf(e.value, {'='}) ==> NoneOf(u.value, {'='})
    ensures !e.Pair? ==> u == e
  {
    match e
    case Pair(k, v) =>
      RemoveCharsKeepsAbsence(v, Quotes, {'='});
      Pair(k, RemoveChars(v, Quotes))
    case _ => e
  }

  /** The loop over the lines: every pair overwrites its key. */
  function Collect(es: seq<Entry>, m: map<string, string>): map<string, string>
    decreases |es|
  {
    if |es| == 0 then m
    else
      var m' := if es[0].Pair? then m[es[0].key := es[0].value] else m;
      Collect(es[1..], m')
  }

  /** `e` assigns key `k`. */
  predicate Writes(e: Entry, k: string) {
    e.Pair? && e.key == k
  }

  /** Entry `i` is the last one assigning `k`. */
  predicate LastWrite(es: seq<Entry>, i: int, k: string) {
    0 <= i < |es| && Writes(es[i], k) && forall j :: i < j < |es| ==> !Writes(es[j], k)
  }

  /** The fold keeps exactly the keys some entry assigns (besides those it
      started with), each with the value of its last assignment. */
  lemma {:induction false} CollectMeaning(es: seq<Entry>, m: map<string, string>)
    ensures forall k :: k in Collect(es, m) <==> k in m || exists i :: 0 <= i < |es| && Writes(es[i], k)
    ensures forall k, i :: LastWrite(es, i, k) ==> k in Collect(es, m) && Collect(es, m)[k] == es[i].value
    ensures forall k :: k in m && (forall i :: 0 <= i < |es| ==> !Writes(es[i], k)) ==> Collect(es, m)[k] == m[k]
    decreases |es|
  {
    if |es| > 0 {
      var m' := if es[0].Pair? then m[es[0].key := es[0].value] else m;
      var rest := es[1..];
      CollectMeaning(rest, m');
      assert Collect(es, m) == Collect(rest, m');
      forall k
        ensures k in Collect(es, m) <==> k in m || exists i :: 0 <= i < |es| && Writes(es[i], k)
      {
        if exists i :: 0 <= i < |rest| && Writes(rest[i], k) {
          var i :| 0 <= i < |rest| && Writes(rest[i], k);
          assert Writes(es[i + 1], k);
        }
        if exists i :: 0 <= i < |es| && Writes(es[i], k) {
          var i :| 0 <= i < |es| && Writes(es[i], k);
          if i > 0 { assert Writes(rest[i - 1], k); }
        }
      }
      forall k, i | LastWrite(es, i, k)
        ensures k in Collect(es, m) && Collect(es, m)[k] == es[i].value
      {
        if i > 0 {
          assert LastWrite(rest, i - 1, k);
        } else {
          forall j | 0 <= j < |rest|
            ensures !Writes(rest[j], k)
          {
            assert !Writes(es[j + 1], k);
          }
        }
      }
      forall k | k in m && (forall i :: 0 <= i < |es| ==> !Writes(es[i], k))
        ensures Collect(es, m)[k] == m[k]
      {
        assert !Writes(es[0], k);
        forall j | 0 <= j < |rest|
          ensures !Writes(rest[j], k)
        {
          assert !Writes(es[j + 1], k);
        }
      }
    }
  }

  /** The entries of all lines of `input`, quotes removed from values. */
  function Entries(input: string): (es: seq<Entry>)
    ensures |es| == |Lines(input)|
    ensures forall i :: 0 <= i < |es| ==> es[i] == Unquote(LineEntry(Lines(input)[i]))
  {
    var ls := Lines(input);
    seq(|ls|, i requires 0 <= i < |ls| => Unquote(LineEntry(ls[i])))
  }

  /** A key some entry assigns has a last assignment. */
  lemma {:induction false} LastWriteExists(es: seq<Entry>, k: string, i: int)
    requires 0 <= i < |es| && Writes(es[i], k)
    ensures exists j :: LastWrite(es, j, k)
    decreases |es| - i
  {
    if !LastWrite(es, i, k) {
      var j :| i < j < |es| && Writes(es[j], k);
      LastWriteExists(es, k, j);
    }
  }

  /** Every key and value of a fold over shaped entries keeps the shape. */
  lemma CollectShape(es: seq<Entry>)
    requires forall i :: 0 <= i < |es| ==> es[i].Pair? ==>
               |es[i].key| > 0 && IsTrimmed(es[i].key) && NoneOf(es[i].key, {'='})
               && NoneOf(es[i].value, Quotes) && NoneOf(es[i].value, {'='})
    ensures var m := Collect(es, map[]);
            forall k :: k in m ==> |k| > 0 && IsTrimmed(k) && NoneOf(k, {'='}) && NoneOf(m[k], Quotes) && NoneOf(m[k], {'='})
  {
    var m := Collect(es, map[]);
    CollectMeaning(es, map[]);
    forall k | k in m
      ensures |k| > 0 && IsTrimmed(k) && NoneOf(k, {'='}) && NoneOf(m[k], Quotes) && NoneOf(m[k], {'='})
    {
      var i :| 0 <= i < |es| && Writes(es[i], k);
      LastWriteExists(es, k, i);
      var j :| LastWrite(es, j, k);
    }
  }

  /** `parse_config_file`: never fails; every key is non-empty, trimmed and
      free of `=`, every value free of `=` and of quotes. */
  function ParseConfigFile(input: string): (r: Result<map<string, string>>)
    ensures r.Ok?
    ensures forall k :: k in r.value ==> |k| > 0 && IsTrimmed(k) && NoneOf(k, {'='})
    ensures forall k :: k in r.value ==> NoneOf(r.value[k], Quotes) && NoneOf(r.value[k], {'='})
  {
    var es := Entries(input);
    CollectShape(es);
    Ok(Collect(es, map[]))
  }

  /** A key and a value that survive being written as `key=value`: both
      non-empty, trimmed, free of `=` and of line breaks, the key not
      starting a table header. */
  predicate PlainSetting(k: string, v: string) {
    && |k| > 0 && |v| > 0 && IsTrimmed(k) && IsTrimmed(v)
    && NoneOf(k, {'=', '\n'}) && NoneOf(v, {'=', '\n'}) && k[0] != '['
  }

  lemma PlainPieces(k: string, v: string)
    requires PlainSetting(k, v)
    ensures NoneOf(k, {'='}) && NoneOf(v, {'='}) && Trim(k) == k && Trim(v) == v
  {
    TrimmedIsFixpoint(k);
    TrimmedIsFixpoint(v);
  }

  /** The pieces of a trimmed line whose `=`-separated parts are `ps`. */
  lemma PiecesOfParts(line: string, ps: seq<string>, kept: seq<string>)
    requires IsTrimmed(line) && Split(line, {'='}) == ps
    requires forall i :: 0 <= i < |ps| ==> IsTrimmed(ps[i])
    requires DropEmpty(ps) == kept
    ensures Trim(line) == line && Pieces(line) == kept
  {
    TrimmedIsFixpoint(line);
    TrimAllTrimmed(ps);
  }

  /** `key=value` reads back as the pair. */
  lemma SettingLineEntry(k: string, v: string)
    requires PlainSetting(k, v)
    ensures LineEntry(k + "=" + v) == Pair(k, v)
  {
    var line := k + "=" + v;
    PlainPieces(k, v);
    SplitAt(k, '=', v, {'='});
    SplitNone(v, {'='});
    DropEmptyNone([k, v]);
    PiecesOfParts(line, [k, v], [k, v]);
  }

  /** Whitespace around the `=` of a setting line is not part of the key
      or the value: `key = value` reads as the pair. */
  lemma SpacedSettingEntry(k: string, v: string, before: string, after: string)
    requires |k| > 0 && |v| > 0 && IsTrimmed(k) && IsTrimmed(v) && k[0] != '['
    requires NoneOf(k, {'='}) && NoneOf(v, {'='})
    requires forall i :: 0 <= i < |before| ==> IsWhitespace(before[i])
    requires forall i :: 0 <= i < |after| ==> IsWhitespace(after[i])
    ensures LineEntry(k + before + "=" + after + v) == Pair(k, v)
  {
    var line := k + before + "=" + after + v;
    SpacedLineTrimmed(k, v, before, after);
    SpacedPieces(k, v, before, after);
  }

  lemma SpacedLineTrimmed(k: string, v: string, before: string, after: string)
    requires |k| > 0 && |v| > 0 && IsTrimmed(k) && IsTrimmed(v)
    ensures Trim(k + before + "=" + after + v) == k + before + "=" + after + v
    ensures (k + before + "=" + after + v)[0] == k[0]
  {
    var line := k + before + "=" + after + v;
    Framed(k, before + "=" + after, v);
    assert k + (before + "=" + after) + v == line;
    TrimmedIsFixpoint(line);
  }

  lemma SpacedPieces(k: string, v: string, before: string, after: string)
    requires |k| > 0 && |v| > 0 && IsTrimmed(k) && IsTrimmed(v)
    requires NoneOf(k, {'='}) && NoneOf(v, {'='})
    requires forall i :: 0 <= i < |before| ==> IsWhitespace(before[i])
    requires forall i :: 0 <= i < |after| ==> IsWhitespace(after[i])
    ensures Pieces(k + before + "=" + after + v) == [k, v]
  {
    assert k + before + "=" + after + v == (k + before) + "=" + (after + v);
    TrimSpacedEnd(k, before);
    TrimSpacedStart(after, v);
    PiecesNoEquals(k + before);
    PiecesNoEquals(after + v);
    PiecesConcat(k + before, after + v);
  }

  lemma TrimSpacedEnd(k: string, before: string)
    requires |k| > 0 && IsTrimmed(k) && NoneOf(k, {'='})
    requires forall i :: 0 <= i < |before| ==> IsWhitespace(before[i])
    ensures Trim(k + before) == k && NoneOf(k + before, {'='})
  {
    assert (k + before)[0..|k|] == k;
    TrimUnique(k + before, 0, |k|);
  }

  lemma TrimSpacedStart(after: string, v: string)
    requires |v| > 0 && IsTrimmed(v) && NoneOf(v, {'='})
    requires forall i :: 0 <= i < |after| ==> IsWhitespace(after[i])
    ensures Trim(after + v) == v && NoneOf(after + v, {'='})
  {
    assert (after + v)[|after|..|after + v|] == v;
    TrimUnique(after + v, |after|, |after + v|);
  }

  /** An empty piece between two `=` is dropped: `key==value` is the pair too. */
  lemma DoubledEqualsEntry(k: string, v: string)
    requires PlainSetting(k, v)
    ensures LineEntry(k + "==" + v) == Pair(k, v)
  {
    var line := k + "==" + v;
    var ps := [k, "", v];
    DoubledEqualsPieces(k, v);
    assert DropEmpty(ps) == [k, v] by {
      assert ps[1..] == ["", v] && ps[1..][1..] == [v];
      DropEmptyNone([v]);
    }
    Framed(k, "==", v);
    PiecesOfParts(line, ps, [k, v]);
  }

  /** Text between two trimmed non-empty strings leaves the whole trimmed. */
  lemma Framed(a: string, mid: string, b: string)
    requires |a| > 0 && |b| > 0 && IsTrimmed(a) && IsTrimmed(b)
    ensures IsTrimmed(a + mid + b) && (a + mid + b)[0] == a[0]
  {
    var s := a + mid + b;
    assert s[|s| - 1] == b[|b| - 1];
  }

  lemma DoubledEqualsPieces(k: string, v: string)
    requires PlainSetting(k, v)
    ensures Split(k + "==" + v, {'='}) == [k, "", v]
  {
    PlainPieces(k, v);
    assert k + "==" + v == k + "=" + ("" + "=" + v);
    SplitAt("", '=', v, {'='});
    SplitAt(k, '=', "" + "=" + v, {'='});
    SplitNone(v, {'='});
  }

  /** Three non-empty pieces make the line malformed: `a=b=c` is dropped. */
  lemma ThreePiecesEntry(a: string, b: string, c: string)
    requires PlainSetting(a, b) && PlainSetting(b, c)
    ensures LineEntry(a + "=" + b + "=" + c) == Malformed
  {
    var line := a + "=" + b + "=" + c;
    ThreePieces(a, b, c);
    DropEmptyNone([a, b, c]);
    Framed(a, "=", b);
    Framed(a + "=" + b, "=", c);
    PiecesOfParts(line, [a, b, c], [a, b, c]);
  }

  lemma ThreePieces(a: string, b: string, c: string)
    requires PlainSetting(a, b) && PlainSetting(b, c)
    ensures Split(a + "=" + b + "=" + c, {'='}) == [a, b, c]
  {
    PlainPieces(a, b);
    PlainPieces(b, c);
    assert a + "=" + b + "=" + c == a + "=" + (b + "=" + c);
    SplitAt(b, '=', c, {'='});
    SplitAt(a, '=', b + "=" + c, {'='});
    SplitNone(c, {'='});
  }

  lemma PlainExample()
    ensures PlainSetting("a", "b") && PlainSetting("b", "c")
  {
  }

  lemma ThreePiecesExample()
    ensures LineEntry("a=b=c") == Malformed
  {
    assert PlainSetting("a", "b") && PlainSetting("b", "c");
    ThreePiecesEntry("a", "b", "c");
    assert "a" + "=" + "b" + "=" + "c" == "a=b=c";
  }

  lemma SpacedExample()
    ensures LineEntry("a = b") == Pair("a", "b")
  {
    assert "a = b" == "a" + " " + "=" + " " + "b";
    assert IsWhitespace(' ');
    SpacedSettingEntry("a", "b", " ", " ");
  }

  lemma DoubledEqualsExample()
    ensures LineEntry("a==b") == Pair("a", "b")
  {
    assert "a==b" == "a" + "==" + "b";
    PlainExample();
    DoubledEqualsEntry("a", "b");
  }

  /** The entries of a text that starts with one complete line. */
  lemma EntriesCons(line: string, rest: string)
    requires '\n' !in line
    ensures Entries(line + "\n" + rest) == [Unquote(LineEntry(DropCarriageReturn(line)))] + Entries(rest)
  {
    LinesCons(line, rest);
  }

  /** A line that is not a pair — blank, a table header or malformed —
      leaves the result as if it were absent. */
  lemma IgnoredLine(line: string, rest: string)
    requires '\n' !in line && !LineEntry(DropCarriageReturn(line)).Pair?
    ensures ParseConfigFile(line + "\n" + rest) == ParseConfigFile(rest)
  {
    EntriesCons(line, rest);
    var es := Entries(line + "\n" + rest);
    assert es[1..] == Entries(rest);
  }

  /** The text a writer produces for a list of settings: one `key=value`
      line each. */
  function Render(pairs: seq<(string, string)>): string
  {
    if |pairs| == 0 then "" else pairs[0].0 + "=" + pairs[0].1 + "\n" + Render(pairs[1..])
  }

  /** One rendered line has no line break in it and no `\r` at its end. */
  lemma RenderedLineBreaks(k: string, v: string)
    requires PlainSetting(k, v)
    ensures var line := k + "=" + v;
            '\n' !in line && DropCarriageReturn(line) == line
  {
    var line := k + "=" + v;
    assert NoneOf(k, {'\n'}) && NoneOf(v, {'\n'}) && NoneOf("=", {'\n'});
    NoneOfConcat(k, "=", {'\n'});
    NoneOfConcat(k + "=", v, {'\n'});
    assert NoneOf(line, {'\n'});
    assert line[|line| - 1] == v[|v| - 1];
  }

  /** One rendered line reads back as its pair. */
  lemma RenderedLine(k: string, v: string)
    requires PlainSetting(k, v) && NoneOf(v, Quotes)
    ensures Unquote(LineEntry(k + "=" + v)) == Pair(k, v)
  {
    SettingLineEntry(k, v);
    RemoveCharsAbsent(v, Quotes);
  }

  /** The lines of rendered plain settings are the `key=value` lines. */
  lemma {:induction false} LinesOfRender(pairs: seq<(string, string)>)
    requires forall i :: 0 <= i < |pairs| ==> PlainSetting(pairs[i].0, pairs[i].1)
    ensures var ls := Lines(Render(pairs));
            |ls| == |pairs| && forall i :: 0 <= i < |pairs| ==> ls[i] == pairs[i].0 + "=" + pairs[i].1
    decreases |pairs|
  {
    if |pairs| > 0 {
      var k, v := pairs[0].0, pairs[0].1;
      var line := k + "=" + v;
      RenderedLineBreaks(k, v);
      var rest := Render(pairs[1..]);
      assert Render(pairs) == line + "\n" + rest;
      LinesCons(line, rest);
      assert forall i :: 0 <= i < |pairs[1..]| ==> pairs[1..][i] == pairs[i + 1];
      LinesOfRender(pairs[1..]);
      var ls := Lines(Render(pairs));
      assert ls == [line] + Lines(rest);
      forall i | 0 <= i < |pairs|
        ensures ls[i] == pairs[i].0 + "=" + pairs[i].1
      {
        if i > 0 { assert ls[i] == Lines(rest)[i - 1]; }
      }
    }
  }

  /** Rendered plain, quote-free settings read back as one pair per line. */
  lemma EntriesOfRender(pairs: seq<(string, string)>)
    requires forall i :: 0 <= i < |pairs| ==> PlainSetting(pairs[i].0, pairs[i].1) && NoneOf(pairs[i].1, Quotes)
    ensures var es := Entries(Render(pairs));
            |es| == |pairs| && forall i :: 0 <= i < |pairs| ==> es[i] == Pair(pairs[i].0, pairs[i].1)
  {
    LinesOfRender(pairs);
    var es := Entries(Render(pairs));
    forall i | 0 <= i < |pairs|
      ensures es[i] == Pair(pairs[i].0, pairs[i].1)
    {
      RenderedLine(pairs[i].0, pairs[i].1);
    }
  }

  /** Round trip: a map written as one `key=value` line per key, in any
      order, reads back as the same map. */
  lemma ParseRenderedMap(m: map<string, string>, order: seq<string>)
    requires forall k :: k in m <==> k in order
    requires forall i, j :: 0 <= i < j < |order| ==> order[i] != order[j]
    requires forall k :: k in m ==> PlainSetting(k, m[k]) && NoneOf(m[k], Quotes)
    ensures var pairs := seq(|order|, i requires 0 <= i < |order| => (order[i], m[order[i]]));
            ParseConfigFile(Render(pairs)) == Ok(m)
  {
    var pairs := seq(|order|, i requires 0 <= i < |order| => (order[i], m[order[i]]));
    EntriesOfRender(pairs);
    var es := Entries(Render(pairs));
    assert forall i :: 0 <= i < |es| ==> es[i] == Pair(order[i], m[order[i]]);
    CollectUnique(es, order, m);
  }

  /** Entries that assign every key of `m` exactly once collect to `m`. */
  lemma CollectUnique(es: seq<Entry>, order: seq<string>, m: map<string, string>)
    requires |es| == |order|
    requires forall k :: k in m <==> k in order
    requires forall i, j :: 0 <= i < j < |order| ==> order[i] != order[j]
    requires forall i :: 0 <= i < |es| ==> order[i] in m && es[i] == Pair(order[i], m[order[i]])
    ensures Collect(es, map[]) == m
  {
    var r := Collect(es, map[]);
    CollectMeaning(es, map[]);
    forall k | k in m
      ensures k in r && r[k] == m[k]
    {
      var i :| 0 <= i < |order| && order[i] == k;
      assert LastWrite(es, i, k);
    }
    forall k | k in r
      ensures k in m
    {
      var i :| 0 <= i < |es| && Writes(es[i], k);
    }
  }
}
