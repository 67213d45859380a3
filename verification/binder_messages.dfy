/** The text of the diagnostics the generated `parse_from_map` and
    `parse_from_string` report (config-parser-macro,
    `generator_functions.rs`), and their overall result: `Ok(())` when
    nothing was reported, otherwise one error whose text is the messages
    joined by line breaks. */
module BinderMessages {
  import opened Results
  import opened Text
  import opened Binder

  // ---------------------------------------------------------------------
  // `{:?}` of a string

  function HexDigit(d: nat): char
    requires d < 16
  {
    "0123456789abcdef"[d]
  }

  function HexValue(c: char): nat
  {
    if '0' <= c <= '9' then c as nat - '0' as nat
    else if 'a' <= c <= 'f' then c as nat - 'a' as nat + 10
    else 0
  }

  /** Lower-case hexadecimal without leading zeros, for one byte. */
  function Hex(n: nat): (r: string)
    requires n < 256
    ensures 1 <= |r| <= 2
  {
    if n < 16 then [HexDigit(n)] else [HexDigit(n / 16), HexDigit(n % 16)]
  }

  /** The ASCII control characters, which `Debug` writes as `\u{..}`. */
  predicate IsControl(c: char) {
    c < ' ' || c == '\U{7f}'
  }

  /** `char::escape_debug` as `Debug` for `str` uses it: the usual
      backslash escapes, `\u{..}` for the other control characters, and
      every other character as itself (single quotes are not escaped inside
      a string). */
  function EscapeChar(c: char): (r: string)
    ensures '\n' !in r
    ensures |r| > 0
  {
    if c == '\0' then "\\0"
    else if c == '\t' then "\\t"
    else if c == '\r' then "\\r"
    else if c == '\n' then "\\n"
    else if c == '\\' then "\\\\"
    else if c == '"' then "\\\""
    else if IsControl(c) then "\\u{" + Hex(c as nat) + "}"
    else [c]
  }

  function Escape(s: string): (r: string)
    ensures '\n' !in r
  {
    if |s| == 0 then "" else EscapeChar(s[0]) + Escape(s[1..])
  }

  /** The character a one-letter escape stands for. */
  function UnescapeLetter(c: char): char
  {
    if c == '0' then '\0'
    else if c == 't' then '\t'
    else if c == 'r' then '\r'
    else if c == 'n' then '\n'
    else c
  }

  /** Reads back the escapes `Escape` writes. */
  function Unescape(t: string): string
    decreases |t|
  {
    if |t| == 0 then ""
    else if t[0] != '\\' || |t| == 1 then [t[0]] + Unescape(t[1..])
    else if t[1] == 'u' && |t| >= 5 && t[2] == '{' && t[4] == '}' then
      [HexValue(t[3]) as char] + Unescape(t[5..])
    else if t[1] == 'u' && |t| >= 6 && t[2] == '{' && t[5] == '}' then
      [(16 * HexValue(t[3]) + HexValue(t[4])) as char] + Unescape(t[6..])
    else [UnescapeLetter(t[1])] + Unescape(t[2..])
  }

  lemma HexValueDigit(d: nat)
    requires d < 16
    ensures HexValue(HexDigit(d)) == d
    ensures HexDigit(d) != '}'
  {
    var ds := "0123456789abcdef";
    assert ds[0] == '0' && ds[1] == '1' && ds[2] == '2' && ds[3] == '3';
    assert ds[4] == '4' && ds[5] == '5' && ds[6] == '6' && ds[7] == '7';
    assert ds[8] == '8' && ds[9] == '9' && ds[10] == 'a' && ds[11] == 'b';
    assert ds[12] == 'c' && ds[13] == 'd' && ds[14] == 'e' && ds[15] == 'f';
  }

  /** One escaped character is read back as that character, whatever
      follows it. */
  lemma UnescapeEscapeChar(c: char, rest: string)
    ensures Unescape(EscapeChar(c) + rest) == [c] + Unescape(rest)
  {
    if IsControl(c) && c != '\0' && c != '\t' && c != '\r' && c != '\n' {
      if (c as nat) < 16 {
        UnescapeOneDigit(c, rest);
      } else {
        UnescapeTwoDigits(c, rest);
      }
    } else if c == '\0' || c == '\t' || c == '\r' || c == '\n' || c == '\\' || c == '"' {
      var t := EscapeChar(c) + rest;
      assert t[2..] == rest;
    } else {
      var t := EscapeChar(c) + rest;
      assert t[1..] == rest;
    }
  }

  lemma UnescapeOneDigit(c: char, rest: string)
    requires IsControl(c) && c != '\0' && c != '\t' && c != '\r' && c != '\n' && (c as nat) < 16
    ensures Unescape(EscapeChar(c) + rest) == [c] + Unescape(rest)
  {
    var n := c as nat;
    HexValueDigit(n);
    var t := EscapeChar(c) + rest;
    assert t == ['\\', 'u', '{', HexDigit(n), '}'] + rest;
    assert t[5..] == rest;
  }

  lemma UnescapeTwoDigits(c: char, rest: string)
    requires IsControl(c) && (c as nat) >= 16
    ensures Unescape(EscapeChar(c) + rest) == [c] + Unescape(rest)
  {
    var n := c as nat;
    HexValueDigit(n / 16);
    HexValueDigit(n % 16);
    var t := EscapeChar(c) + rest;
    assert t == ['\\', 'u', '{', HexDigit(n / 16), HexDigit(n % 16), '}'] + rest;
    assert t[6..] == rest;
  }

  /** `Debug` output of a string is unambiguous: it reads back to the string. */
  lemma {:induction false} UnescapeEscape(s: string)
    ensures Unescape(Escape(s)) == s
    decreases |s|
  {
    if |s| > 0 {
      UnescapeEscapeChar(s[0], Escape(s[1..]));
      UnescapeEscape(s[1..]);
      assert s == [s[0]] + s[1..];
    }
  }

  // ---------------------------------------------------------------------
  // `{:#?}` of the leftover keys

  /** One line of the pretty listing: four spaces, the quoted key, a comma. */
  function ItemLine(k: string): (r: string)
    ensures '\n' !in r
  {
    "    \"" + Escape(k) + "\","
  }

  function ItemLines(items: seq<string>): (r: seq<string>)
    ensures |r| == |items|
    ensures forall i :: 0 <= i < |items| ==> r[i] == ItemLine(items[i])
  {
    if |items| == 0 then [] else [ItemLine(items[0])] + ItemLines(items[1..])
  }

  /** `{:#?}` of a `Vec<String>`: `[]` when empty, otherwise an opening
      bracket, one indented line per item and a closing bracket. */
  function PrettyList(items: seq<string>): string
  {
    if |items| == 0 then "[]" else Join(["["] + ItemLines(items) + ["]"], "\n")
  }

  /** Recovers the items from a pretty listing. */
  function ReadList(text: string): seq<string>
  {
    var lines := Split(text, {'\n'});
    if |lines| < 2 then []
    else seq(|lines| - 2, i requires 0 <= i < |lines| - 2 => ReadItem(lines[i + 1]))
  }

  function ReadItem(line: string): string
  {
    if |line| >= 7 then Unescape(line[5..|line| - 2]) else ""
  }

  /** The listing in the "not recognised" message names every leftover key
      exactly: reading it back gives the keys in the order listed. */
  lemma ReadPrettyList(items: seq<string>)
    requires |items| > 0
    ensures ReadList(PrettyList(items)) == items
  {
    var lines := ["["] + ItemLines(items) + ["]"];
    forall i | 0 <= i < |lines|
      ensures NoneOf(lines[i], {'\n'})
    {
    }
    SplitJoin(lines, '\n');
    var r := ReadList(PrettyList(items));
    assert |r| == |items|;
    forall i | 0 <= i < |items|
      ensures r[i] == items[i]
    {
      var l := ItemLine(items[i]);
      assert lines[i + 1] == l;
      assert r[i] == ReadItem(l);
      if |Escape(items[i])| == 0 {
        UnescapeEscape(items[i]);
        assert items[i] == "";
      }
      assert l[5..|l| - 2] == Escape(items[i]);
      UnescapeEscape(items[i]);
    }
  }

  // ---------------------------------------------------------------------
  // Messages

  /** The text of one message. Nested failures carry the nested error's
      text, which is its own messages joined by line breaks; `order` is the
      order in which the map's iterator happens to list a set of keys. */
  function Message(d: Diag, order: set<string> -> seq<string>): string
    decreases d, 0
  {
    match d
    case ParseFailed(n) => "failed to parse value found for `" + n + "`"
    case SettingIsTable(n) =>
      "`" + n + "` is a setting element, but the configuration file defines it as a nested element (Table)"
    case NotFound(n) => "could not find `" + n + "` in config file"
    case TableIsSetting(n) =>
      "`" + n + "` is defined as a nested element, but the configuration file defines it a setting element"
    case NoTable(n) => "no table `" + n + "` found in config file"
    case NestedFailed(inner) => Messages(inner, order)
    case Unrecognised(keys) => "the following settings were not recognised: " + PrettyList(order(keys))
    case ParserMessage(t) => t
  }

  function MessageList(ds: seq<Diag>, order: set<string> -> seq<string>): (r: seq<string>)
    ensures |r| == |ds|
    ensures forall i :: 0 <= i < |ds| ==> r[i] == Message(ds[i], order)
    decreases ds, 1
  {
    seq(|ds|, i requires 0 <= i < |ds| => Message(ds[i], order))
  }

  /** The messages joined by line breaks. */
  function Messages(ds: seq<Diag>, order: set<string> -> seq<string>): string
    decreases ds, 2
  {
    Join(MessageList(ds, order), "\n")
  }

  /** The generated function's result. */
  function Status(b: Binding, order: set<string> -> seq<string>): (r: Result<()>)
    ensures r.Ok? <==> b.output == []
    ensures r.Err? ==> r.message == Messages(b.output, order)
  {
    if |b.output| == 0 then Ok(()) else Err(Messages(b.output, order))
  }

  /** `parse_from_map` returns `Ok` exactly when every field binds cleanly
      on its own and the table holds no key outside the bound fields. */
  lemma ParseFromMapOk(fields: seq<Field>, values: seq<Value>, table: map<string, Element>, order: set<string> -> seq<string>)
    requires |values| == |fields| && DistinctNames(fields)
    ensures Status(ParseFromMap(fields, values, table), order).Ok? <==>
              && (forall j :: 0 <= j < |fields| ==> Outcome(fields, values, table, j).output == [])
              && table.Keys <= BoundNames(fields, 0)
  {
    ParseFromMapSucceeds(fields, values, table);
  }

  /** When the table has a key no field binds, the error text ends with the
      listing of every such key, and that listing reads back as each of
      them exactly once. */
  lemma LeftoverMessageLast(fields: seq<Field>, values: seq<Value>, table: map<string, Element>, order: set<string> -> seq<string>)
    requires |values| == |fields| && DistinctNames(fields) && ListsKeys(order)
    requires !(table.Keys <= BoundNames(fields, 0))
    ensures var r := Status(ParseFromMap(fields, values, table), order);
            var leftover := table.Keys - BoundNames(fields, 0);
            var listing := PrettyList(order(leftover));
            var tail := "the following settings were not recognised: " + listing;
            && r.Err?
            && |r.message| >= |tail|
            && r.message[|r.message| - |tail|..] == tail
            && Enumerates(ReadList(listing), leftover)
  {
    var leftover := table.Keys - BoundNames(fields, 0);
    StatusEndsWithLeftover(fields, values, table, order);
    ListingReadsBack(order, leftover);
  }

  /** With leftover keys, the error text ends with their message. */
  lemma StatusEndsWithLeftover(fields: seq<Field>, values: seq<Value>, table: map<string, Element>, order: set<string> -> seq<string>)
    requires |values| == |fields| && DistinctNames(fields)
    requires !(table.Keys <= BoundNames(fields, 0))
    ensures var r := Status(ParseFromMap(fields, values, table), order);
            var tail := Message(Unrecognised(table.Keys - BoundNames(fields, 0)), order);
            && r.Err?
            && |r.message| >= |tail|
            && r.message[|r.message| - |tail|..] == tail
  {
    var leftover := table.Keys - BoundNames(fields, 0);
    var front := OutputsFrom(fields, values, table, 0);
    LeftoverIsLast(fields, values, table);
    MessagesEndWith(front, Unrecognised(leftover), order);
  }

  /** The listing of a non-empty set of keys reads back as each key once. */
  lemma ListingReadsBack(order: set<string> -> seq<string>, keys: set<string>)
    requires ListsKeys(order) && keys != {}
    ensures Enumerates(ReadList(PrettyList(order(keys))), keys)
  {
    assert Enumerates(order(keys), keys);
    var k :| k in keys;
    assert k in order(keys);
    ReadPrettyList(order(keys));
  }

  /** With leftover keys, the last diagnostic lists them. */
  lemma LeftoverIsLast(fields: seq<Field>, values: seq<Value>, table: map<string, Element>)
    requires |values| == |fields| && DistinctNames(fields)
    requires !(table.Keys <= BoundNames(fields, 0))
    ensures ParseFromMap(fields, values, table).output ==
              OutputsFrom(fields, values, table, 0) + [Unrecognised(table.Keys - BoundNames(fields, 0))]
  {
    RunMeaning(fields, values, table, []);
  }

  /** The joined messages end with the last diagnostic's message. */
  lemma MessagesEndWith(ds: seq<Diag>, d: Diag, order: set<string> -> seq<string>)
    ensures var m := Messages(ds + [d], order);
            var tail := Message(d, order);
            |m| >= |tail| && m[|m| - |tail|..] == tail
  {
    var es := ds + [d];
    var ps := MessageList(es, order);
    assert es[|ds|] == d;
    assert ps == ps[..|ds|] + [Message(d, order)];
    JoinLast(ps[..|ds|], Message(d, order), "\n");
  }

  /** Joining ends with the last piece. */
  lemma {:induction false} JoinLast(ps: seq<string>, p: string, sep: string)
    ensures var j := Join(ps + [p], sep);
            |j| >= |p| && j[|j| - |p|..] == p
    decreases |ps|
  {
    if |ps| == 0 {
      assert ps + [p] == [p];
    } else {
      assert (ps + [p])[1..] == ps[1..] + [p];
      JoinLast(ps[1..], p, sep);
    }
  }
}
