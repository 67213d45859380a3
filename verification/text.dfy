/** The pieces of Rust's `str` API the configuration code relies on:
    `trim`, `split` on a set of characters, `join`, `lines`,
    `replace` of characters by nothing, and ASCII lower-casing. */
module Text {
  import opened Results

  /** Rust's `char::is_whitespace`: the Unicode White_Space property. */
  predicate IsWhitespace(c: char) {
    || c == ' '
    || ('\t' <= c <= '\r')
    || c == '\U{0085}' || c == '\U{00A0}' || c == '\U{1680}'
    || ('\U{2000}' <= c <= '\U{200A}')
    || c == '\U{2028}' || c == '\U{2029}' || c == '\U{202F}' || c == '\U{205F}' || c == '\U{3000}'
  }

  /** No character of `s` is in `cs`. */
  predicate NoneOf(s: string, cs: set<char>) {
    forall j :: 0 <= j < |s| ==> s[j] !in cs
  }

  lemma NoneOfConcat(a: string, b: string, cs: set<char>)
    requires NoneOf(a, cs) && NoneOf(b, cs)
    ensures NoneOf(a + b, cs)
  {
    forall j | 0 <= j < |a + b|
      ensures (a + b)[j] !in cs
    {
      if j >= |a| { assert (a + b)[j] == b[j - |a|]; }
    }
  }

  /** Neither end of `s` is whitespace. */
  predicate IsTrimmed(s: string) {
    |s| == 0 || (!IsWhitespace(s[0]) && !IsWhitespace(s[|s| - 1]))
  }

  /** `str::trim_start`: the longest suffix of `s` that does not start with whitespace. */
  function TrimStart(s: string): (r: string)
    ensures |r| <= |s| && r == s[|s| - |r|..]
    ensures |r| == 0 || !IsWhitespace(r[0])
    ensures forall i :: 0 <= i < |s| - |r| ==> IsWhitespace(s[i])
  {
    if |s| > 0 && IsWhitespace(s[0]) then TrimStart(s[1..]) else s
  }

  /** `str::trim_end`: the longest prefix of `s` that does not end with whitespace. */
  function TrimEnd(s: string): (r: string)
    ensures |r| <= |s| && r == s[..|r|]
    ensures |r| == 0 || !IsWhitespace(r[|r| - 1])
    ensures forall i :: |r| <= i < |s| ==> IsWhitespace(s[i])
  {
    if |s| > 0 && IsWhitespace(s[|s| - 1]) then TrimEnd(s[..|s| - 1]) else s
  }

  /** `str::trim`: whitespace removed from both ends, nothing else touched. */
  function Trim(s: string): (r: string)
    ensures IsTrimmed(r)
    ensures |r| <= |s|
    ensures forall cs :: NoneOf(s, cs) ==> NoneOf(r, cs)
  {
    var t := TrimStart(s);
    TrimEnd(t)
  }

  /** Number of whitespace characters `trim` cuts from the front of `s`. */
  function LeadingWhitespace(s: string): (n: nat)
    ensures n <= |s|
    ensures forall i :: 0 <= i < n ==> IsWhitespace(s[i])
    ensures n < |s| ==> !IsWhitespace(s[n])
  {
    |s| - |TrimStart(s)|
  }

  /** What `trim` keeps is the infix of `s` after the leading whitespace,
      and everything it cuts from either end is whitespace. */
  lemma {:induction false} TrimInfix(s: string)
    ensures LeadingWhitespace(s) + |Trim(s)| <= |s|
    ensures Trim(s) == s[LeadingWhitespace(s)..LeadingWhitespace(s) + |Trim(s)|]
    ensures forall i :: LeadingWhitespace(s) + |Trim(s)| <= i < |s| ==> IsWhitespace(s[i])
  {
    TrimIsInfix(s);
    TrimTail(s);
  }

  lemma TrimIsInfix(s: string)
    ensures LeadingWhitespace(s) + |Trim(s)| <= |s|
    ensures Trim(s) == s[LeadingWhitespace(s)..LeadingWhitespace(s) + |Trim(s)|]
  {
    var a := LeadingWhitespace(s);
    TrimOfSuffix(s);
    TrimEndInfix(s[a..], s, a);
  }

  lemma TrimTail(s: string)
    ensures forall i :: LeadingWhitespace(s) + |Trim(s)| <= i < |s| ==> IsWhitespace(s[i])
  {
    var a := LeadingWhitespace(s);
    TrimOfSuffix(s);
    TrimEndInfix(s[a..], s, a);
  }

  /** `trim` is `trim_end` of what follows the leading whitespace. */
  lemma TrimOfSuffix(s: string)
    ensures LeadingWhitespace(s) <= |s| && Trim(s) == TrimEnd(s[LeadingWhitespace(s)..])
  {
    assert TrimStart(s) == s[LeadingWhitespace(s)..];
  }

  /** `trim_end` of a suffix of `s` is an infix of `s` followed only by whitespace. */
  lemma TrimEndInfix(t: string, s: string, a: nat)
    requires a <= |s| && t == s[a..]
    ensures a + |TrimEnd(t)| <= |s|
    ensures TrimEnd(t) == s[a..a + |TrimEnd(t)|]
    ensures forall i :: a + |TrimEnd(t)| <= i < |s| ==> IsWhitespace(s[i])
  {
    var r := TrimEnd(t);
    assert r == t[..|r|];
    forall i | a + |r| <= i < |s|
      ensures IsWhitespace(s[i])
    {
      assert s[i] == t[i - a];
    }
  }

  /** `trim` is the only way to cut a trimmed infix out of `s` with
      nothing but whitespace on either side. */
  lemma TrimUnique(s: string, a: nat, b: nat)
    requires a <= b <= |s| && IsTrimmed(s[a..b])
    requires forall i :: 0 <= i < a ==> IsWhitespace(s[i])
    requires forall i :: b <= i < |s| ==> IsWhitespace(s[i])
    ensures Trim(s) == s[a..b]
  {
    TrimInfix(s);
    if a < b {
      assert !IsWhitespace(s[a]) && !IsWhitespace(s[b - 1]);
    }
  }

  /** Trimming a string whose ends are not whitespace changes nothing. */
  lemma TrimmedIsFixpoint(s: string)
    requires IsTrimmed(s)
    ensures Trim(s) == s
  {
  }

  /** Trimming never introduces a character that was absent. */
  lemma TrimKeepsAbsence(s: string, cs: set<char>)
    requires NoneOf(s, cs)
    ensures NoneOf(Trim(s), cs)
  {
  }

  /** `trim` is idempotent. */
  lemma TrimIdempotent(s: string)
    ensures Trim(Trim(s)) == Trim(s)
  {
    TrimmedIsFixpoint(Trim(s));
  }

  /** Rust's `str::split` with a set of separator characters: the pieces
      between separators, in order, including empty ones. */
  function Split(s: string, seps: set<char>): (r: seq<string>)
    ensures |r| >= 1
    ensures forall i :: 0 <= i < |r| ==> NoneOf(r[i], seps)
    decreases |s|
  {
    if |s| == 0 then [""]
    else
      var rest := Split(s[1..], seps);
      if s[0] in seps then [""] + rest
      else [[s[0]] + rest[0]] + rest[1..]
  }

  /** `join`: the pieces with `sep` between consecutive ones. */
  function Join(ps: seq<string>, sep: string): string
  {
    if |ps| == 0 then ""
    else if |ps| == 1 then ps[0]
    else ps[0] + sep + Join(ps[1..], sep)
  }

  /** Concatenation of all pieces (`join("")`). */
  function Concat(ps: seq<string>): string
  {
    if |ps| == 0 then "" else ps[0] + Concat(ps[1..])
  }

  lemma ConcatAppend(a: seq<string>, b: seq<string>)
    ensures Concat(a + b) == Concat(a) + Concat(b)
  {
    if |a| == 0 {
      assert a + b == b;
    } else {
      assert (a + b)[0] == a[0];
      assert (a + b)[1..] == a[1..] + b;
      ConcatAppend(a[1..], b);
    }
  }

  /** A separator-free prefix extends the first piece. */
  lemma {:induction false} SplitPrefix(p: string, t: string, seps: set<char>)
    requires NoneOf(p, seps)
    ensures Split(p + t, seps) == [p + Split(t, seps)[0]] + Split(t, seps)[1..]
    decreases |p|
  {
    if |p| == 0 {
      var r := Split(t, seps);
      assert p + t == t && p + r[0] == r[0];
      assert r == [r[0]] + r[1..];
    } else {
      assert (p + t)[0] == p[0] && p[0] !in seps;
      assert (p + t)[1..] == p[1..] + t;
      SplitPrefix(p[1..], t, seps);
      assert [p[0]] + (p[1..] + Split(t, seps)[0]) == p + Split(t, seps)[0];
    }
  }

  /** A string without separators is one piece. */
  lemma SplitNone(p: string, seps: set<char>)
    requires NoneOf(p, seps)
    ensures Split(p, seps) == [p]
  {
    SplitPrefix(p, "", seps);
    assert p + "" == p;
  }

  /** A separator-free prefix followed by a separator is one whole piece. */
  lemma SplitAt(p: string, c: char, t: string, seps: set<char>)
    requires NoneOf(p, seps) && c in seps
    ensures Split(p + [c] + t, seps) == [p] + Split(t, seps)
  {
    SplitPrefix(p, [c] + t, seps);
    assert p + [c] + t == p + ([c] + t);
    assert ([c] + t)[0] == c && ([c] + t)[1..] == t;
    assert Split([c] + t, seps) == [""] + Split(t, seps);
    assert p + "" == p;
  }

  /** Splitting at a separator splits the two sides independently. */
  lemma {:induction false} SplitConcat(a: string, c: char, b: string, seps: set<char>)
    requires c in seps
    ensures Split(a + [c] + b, seps) == Split(a, seps) + Split(b, seps)
    decreases |a|
  {
    if |a| == 0 {
      assert a + [c] + b == [c] + b;
      assert ([c] + b)[1..] == b;
    } else {
      var s := a + [c] + b;
      assert s[0] == a[0] && s[1..] == a[1..] + [c] + b;
      SplitConcat(a[1..], c, b, seps);
      var ra := Split(a[1..], seps);
      var rest := Split(s[1..], seps);
      assert rest == ra + Split(b, seps);
      if a[0] !in seps {
        assert rest[0] == ra[0] && rest[1..] == ra[1..] + Split(b, seps);
      }
    }
  }

  /** Splitting on one character and joining with it again gives back the input. */
  lemma {:induction false} JoinSplit(s: string, c: char)
    ensures Join(Split(s, {c}), [c]) == s
    decreases |s|
  {
    if |s| > 0 {
      JoinSplit(s[1..], c);
      var rest := Split(s[1..], {c});
      if s[0] != c && |rest| > 1 {
        var ps := Split(s, {c});
        assert ps[1..] == rest[1..];
        assert Join(ps, [c]) == [s[0]] + rest[0] + [c] + Join(rest[1..], [c]);
      }
    }
  }

  /** Joining separator-free pieces with one character and splitting on it
      again gives back the pieces. */
  lemma {:induction false} SplitJoin(ps: seq<string>, c: char)
    requires |ps| >= 1
    requires forall i :: 0 <= i < |ps| ==> NoneOf(ps[i], {c})
    ensures Split(Join(ps, [c]), {c}) == ps
    decreases |ps|
  {
    SplitPrefix(ps[0], "", {c});
    assert ps[0] + "" == ps[0];
    if |ps| > 1 {
      SplitJoin(ps[1..], c);
      var t := [c] + Join(ps[1..], [c]);
      assert Join(ps, [c]) == ps[0] + t;
      SplitPrefix(ps[0], t, {c});
      assert t[1..] == Join(ps[1..], [c]);
    }
  }

  /** Position of the first `c` in `s`, or `|s|` when there is none. */
  function IndexOf(s: string, c: char): (i: nat)
    ensures i <= |s|
    ensures i < |s| ==> s[i] == c
    ensures forall j :: 0 <= j < i ==> s[j] != c
  {
    if |s| == 0 then 0 else if s[0] == c then 0 else 1 + IndexOf(s[1..], c)
  }

  /** The line terminator rule of `str::lines`: a `\r` right before the `\n` goes too. */
  function DropCarriageReturn(line: string): string
  {
    if |line| > 0 && line[|line| - 1] == '\r' then line[..|line| - 1] else line
  }

  /** Rust's `str::lines`: split after every `\n`, drop the `\n` and a `\r`
      right before it; a final line without `\n` is kept as it is, and a
      final `\n` does not start an empty line. */
  function Lines(s: string): (r: seq<string>)
    ensures forall i :: 0 <= i < |r| ==> '\n' !in r[i]
    decreases |s|
  {
    if |s| == 0 then []
    else
      var i := IndexOf(s, '\n');
      if i == |s| then [s]
      else [DropCarriageReturn(s[..i])] + Lines(s[i + 1..])
  }

  /** A line followed by `\n` contributes exactly that line. */
  lemma LinesCons(line: string, rest: string)
    requires '\n' !in line
    ensures Lines(line + "\n" + rest) == [DropCarriageReturn(line)] + Lines(rest)
  {
    var s := line + "\n" + rest;
    assert s[|line|] == '\n';
    assert forall j :: 0 <= j < |line| ==> s[j] == line[j];
    assert IndexOf(s, '\n') == |line|;
    assert s[..|line|] == line;
    assert s[|line| + 1..] == rest;
  }

  /** `xs` lists every element of `s` once: what iterating over a map's
      keys yields, in whatever order the map's iterator chooses. */
  ghost predicate Enumerates(xs: seq<string>, s: set<string>) {
    |xs| == |s| && forall k :: k in xs <==> k in s
  }

  /** No element of `xs` occurs twice. */
  predicate Distinct(xs: seq<string>) {
    forall i, j :: 0 <= i < j < |xs| ==> xs[i] != xs[j]
  }

  /** The elements of a sequence. */
  function Elements(xs: seq<string>): set<string> {
    set k | k in xs
  }

  /** A sequence has at least as many positions as elements, and exactly as
      many when no element repeats. */
  lemma {:induction false} ElementsCount(xs: seq<string>)
    ensures |Elements(xs)| <= |xs|
    ensures |Elements(xs)| == |xs| <==> Distinct(xs)
    decreases |xs|
  {
    if |xs| > 0 {
      var rest := xs[1..];
      ElementsCount(rest);
      ElementsCons(xs);
      if xs[0] in rest {
        var i :| 0 <= i < |rest| && rest[i] == xs[0];
        assert xs[i + 1] == xs[0];
        assert Elements(xs) == Elements(rest);
      } else {
        DistinctCons(xs);
      }
    }
  }

  lemma ElementsCons(xs: seq<string>)
    requires |xs| > 0
    ensures Elements(xs) == {xs[0]} + Elements(xs[1..])
  {
    forall k | k in Elements(xs) && k != xs[0]
      ensures k in Elements(xs[1..])
    {
      var i :| 0 <= i < |xs| && xs[i] == k;
      assert xs[1..][i - 1] == k;
    }
  }

  /** A first element that does not recur leaves distinctness to the rest. */
  lemma DistinctCons(xs: seq<string>)
    requires |xs| > 0 && xs[0] !in xs[1..]
    ensures Distinct(xs) <==> Distinct(xs[1..])
  {
    var rest := xs[1..];
    if Distinct(rest) {
      forall i, j | 0 <= i < j < |xs|
        ensures xs[i] != xs[j]
      {
        assert xs[j] == rest[j - 1];
        if i > 0 {
          assert xs[i] == rest[i - 1];
        }
      }
    }
    if Distinct(xs) {
      forall i, j | 0 <= i < j < |rest|
        ensures rest[i] != rest[j]
      {
        assert rest[i] == xs[i + 1] && rest[j] == xs[j + 1];
      }
    }
  }

  /** A sequence holding exactly the members of `s` lists each of them once
      exactly when it repeats none. */
  lemma EnumeratesDistinct(xs: seq<string>, s: set<string>)
    requires forall k :: k in xs <==> k in s
    ensures Enumerates(xs, s) <==> Distinct(xs)
  {
    ElementsCount(xs);
    assert Elements(xs) == s;
  }

  /** `order` stands for a map's key iterator: every set of keys it is given
      comes back listed completely, each key once. */
  ghost predicate ListsKeys(order: set<string> -> seq<string>) {
    forall s :: Enumerates(order(s), s)
  }

  /** `str::replace` of every character in `cs` by nothing. */
  function RemoveChars(s: string, cs: set<char>): (r: string)
    ensures NoneOf(r, cs)
    ensures |r| <= |s|
    ensures forall c :: c in r <==> c in s && c !in cs
  {
    if |s| == 0 then ""
    else if s[0] in cs then RemoveChars(s[1..], cs)
    else [s[0]] + RemoveChars(s[1..], cs)
  }

  /** Removing characters never introduces one that was absent. */
  lemma RemoveCharsKeepsAbsence(s: string, cs: set<char>, d: set<char>)
    ensures NoneOf(s, d) ==> NoneOf(RemoveChars(s, cs), d)
  {
    if |s| > 0 {
      RemoveCharsKeepsAbsence(s[1..], cs, d);
    }
  }

  /** Removing characters that do not occur changes nothing. */
  lemma RemoveCharsAbsent(s: string, cs: set<char>)
    requires NoneOf(s, cs)
    ensures RemoveChars(s, cs) == s
  {
    if |s| > 0 {
      RemoveCharsAbsent(s[1..], cs);
    }
  }

  /** Removing characters from a concatenation removes them from each part. */
  lemma {:induction false} RemoveCharsConcat(a: string, b: string, cs: set<char>)
    ensures RemoveChars(a + b, cs) == RemoveChars(a, cs) + RemoveChars(b, cs)
    decreases |a|
  {
    if |a| == 0 {
      assert a + b == b;
    } else {
      assert (a + b)[0] == a[0] && (a + b)[1..] == a[1..] + b;
      RemoveCharsConcat(a[1..], b, cs);
    }
  }

  /** One character is removed exactly when it is in `cs`. */
  lemma RemoveCharsOne(c: char, cs: set<char>)
    ensures RemoveChars([c], cs) == if c in cs then "" else [c]
  {
    assert [c][1..] == "";
  }

  /** Lower-casing of one character; only ASCII letters change. */
  function LowerChar(c: char): char
  {
    if 'A' <= c <= 'Z' then (c as int + 32) as char else c
  }

  /** `to_lowercase`, restricted to ASCII letters. */
  function Lower(s: string): (r: string)
    ensures |r| == |s|
    ensures forall i {:trigger r[i]} :: 0 <= i < |s| ==> r[i] == LowerChar(s[i])
  {
    if |s| == 0 then "" else [LowerChar(s[0])] + Lower(s[1..])
  }

  /** Lower-casing works character by character. */
  lemma LowerConcat(a: string, b: string)
    ensures Lower(a + b) == Lower(a) + Lower(b)
  {
    assert |Lower(a + b)| == |Lower(a) + Lower(b)|;
    forall i | 0 <= i < |a + b|
      ensures Lower(a + b)[i] == (Lower(a) + Lower(b))[i]
    {
      if i >= |a| { assert (a + b)[i] == b[i - |a|]; }
    }
  }

  /** Lower-casing twice is lower-casing once. */
  lemma LowerIdempotent(s: string)
    ensures Lower(Lower(s)) == Lower(s)
  {
    assert forall i :: 0 <= i < |s| ==> Lower(Lower(s))[i] == Lower(s)[i];
  }

  /** A character is whitespace exactly when its lower-case form is. */
  lemma LowerCharWhitespace(c: char)
    ensures IsWhitespace(LowerChar(c)) <==> IsWhitespace(c)
  {
  }

  /** Lower-casing a trimmed string leaves it trimmed. */
  lemma LowerTrimmed(t: string)
    requires IsTrimmed(t)
    ensures IsTrimmed(Lower(t))
  {
    if |t| > 0 {
      LowerCharWhitespace(t[0]);
      LowerCharWhitespace(t[|t| - 1]);
    }
  }

  /** Lower-casing and trimming can be done in either order. */
  lemma TrimLower(s: string)
    ensures Trim(Lower(s)) == Lower(Trim(s))
  {
    TrimInfix(s);
    var a := LeadingWhitespace(s);
    var t := Trim(s);
    var b := a + |t|;
    assert t == s[a..b];
    assert IsTrimmed(s[a..b]);
    assert forall i :: 0 <= i < a ==> IsWhitespace(s[i]);
    assert forall i :: b <= i < |s| ==> IsWhitespace(s[i]);
    TrimLowerAt(s, a, b);
  }

  /** The lower-cased form of a trimmed infix with whitespace around it
      is what `trim` keeps of the lower-cased string. */
  lemma TrimLowerAt(s: string, a: nat, b: nat)
    requires a <= b <= |s| && IsTrimmed(s[a..b])
    requires forall i :: 0 <= i < a ==> IsWhitespace(s[i])
    requires forall i :: b <= i < |s| ==> IsWhitespace(s[i])
    ensures Trim(Lower(s)) == Lower(s[a..b])
  {
    LowerSlice(s, a, b);
    LowerTrimmed(s[a..b]);
    LowerFlanks(s, a, b);
    TrimUnique(Lower(s), a, b);
  }

  /** Lower-casing commutes with taking an infix. */
  lemma LowerSlice(s: string, a: nat, b: nat)
    requires a <= b <= |s|
    ensures Lower(s)[a..b] == Lower(s[a..b])
  {
    var x := Lower(s)[a..b];
    var y := Lower(s[a..b]);
    assert |x| == |y|;
    forall i | 0 <= i < |x|
      ensures x[i] == y[i]
    {
      assert x[i] == Lower(s)[a + i] == LowerChar(s[a + i]);
      assert y[i] == LowerChar(s[a..b][i]);
    }
  }

  /** Lower-casing keeps whitespace around an infix whitespace. */
  lemma LowerFlanks(s: string, a: nat, b: nat)
    requires a <= b <= |s|
    requires forall i :: 0 <= i < a ==> IsWhitespace(s[i])
    requires forall i :: b <= i < |s| ==> IsWhitespace(s[i])
    ensures forall i :: 0 <= i < a ==> IsWhitespace(Lower(s)[i])
    ensures forall i :: b <= i < |s| ==> IsWhitespace(Lower(s)[i])
  {
    forall i | 0 <= i < |s|
      ensures IsWhitespace(Lower(s)[i]) <==> IsWhitespace(s[i])
    {
      LowerCharWhitespace(s[i]);
    }
  }

  /** Every string of `ps` lower-cased. */
  function LowerAll(ps: seq<string>): (r: seq<string>)
    ensures |r| == |ps|
    ensures forall i :: 0 <= i < |ps| ==> r[i] == Lower(ps[i])
  {
    if |ps| == 0 then [] else [Lower(ps[0])] + LowerAll(ps[1..])
  }

  /** No ASCII letter is a separator. */
  predicate LetterFree(seps: set<char>) {
    forall c :: c in seps ==> !('A' <= c <= 'Z') && !('a' <= c <= 'z')
  }

  /** Splitting on letter-free separators commutes with lower-casing. */
  lemma {:induction false} SplitLower(s: string, seps: set<char>)
    requires LetterFree(seps)
    ensures Split(Lower(s), seps) == LowerAll(Split(s, seps))
    decreases |s|
  {
    if |s| > 0 {
      var l := Lower(s);
      assert l[0] == LowerChar(s[0]) && l[1..] == Lower(s[1..]);
      assert l[0] in seps <==> s[0] in seps;
      SplitLower(s[1..], seps);
      var rest := Split(s[1..], seps);
      if s[0] !in seps {
        LowerConcat([s[0]], rest[0]);
        assert LowerAll([[s[0]] + rest[0]] + rest[1..]) == [Lower([s[0]] + rest[0])] + LowerAll(rest[1..]);
      } else {
        assert LowerAll([""] + rest) == [""] + LowerAll(rest);
      }
    } else {
      assert Lower(s) == "";
    }
  }

  /** Keeps the non-empty strings, in order (`retain(|e| !e.is_empty())`). */
  function DropEmpty(ps: seq<string>): (r: seq<string>)
    ensures |r| <= |ps|
    ensures forall i :: 0 <= i < |r| ==> |r[i]| > 0 && r[i] in ps
  {
    if |ps| == 0 then []
    else if |ps[0]| == 0 then DropEmpty(ps[1..])
    else [ps[0]] + DropEmpty(ps[1..])
  }

  /** Dropping the empty strings of a concatenation drops them from each part. */
  lemma {:induction false} DropEmptyConcat(a: seq<string>, b: seq<string>)
    ensures DropEmpty(a + b) == DropEmpty(a) + DropEmpty(b)
    decreases |a|
  {
    if |a| == 0 {
      assert a + b == b;
    } else {
      assert (a + b)[0] == a[0] && (a + b)[1..] == a[1..] + b;
      DropEmptyConcat(a[1..], b);
    }
  }

  /** One string is dropped exactly when it is empty. */
  lemma DropEmptyOne(p: string)
    ensures DropEmpty([p]) == if p == "" then [] else [p]
  {
    assert [p][1..] == [];
  }

  /** Without empty pieces there is nothing to drop. */
  lemma DropEmptyNone(ps: seq<string>)
    requires forall i :: 0 <= i < |ps| ==> |ps[i]| > 0
    ensures DropEmpty(ps) == ps
  {
    if |ps| > 0 {
      DropEmptyNone(ps[1..]);
      assert ps == [ps[0]] + ps[1..];
    }
  }

  /** Every piece trimmed (`map(|e| e.trim())`). */
  function TrimAll(ps: seq<string>): (r: seq<string>)
    ensures |r| == |ps|
    ensures forall i :: 0 <= i < |ps| ==> r[i] == Trim(ps[i])
  {
    if |ps| == 0 then [] else [Trim(ps[0])] + TrimAll(ps[1..])
  }
  lemma {:induction false} TrimAllConcat(a: seq<string>, b: seq<string>)
    ensures TrimAll(a + b) == TrimAll(a) + TrimAll(b)
    decreases |a|
  {
    if |a| == 0 {
      assert a + b == b;
    } else {
      assert (a + b)[0] == a[0] && (a + b)[1..] == a[1..] + b;
      TrimAllConcat(a[1..], b);
    }
  }

  /** Trimming pieces that are already trimmed changes nothing. */
  lemma TrimAllTrimmed(ps: seq<string>)
    requires forall i :: 0 <= i < |ps| ==> IsTrimmed(ps[i])
    ensures TrimAll(ps) == ps
  {
    forall i | 0 <= i < |ps|
      ensures TrimAll(ps)[i] == ps[i]
    {
      TrimmedIsFixpoint(ps[i]);
    }
  }

  /** Number of bytes of `c` in UTF-8. */
  function Utf8Width(c: char): (w: nat)
    ensures 1 <= w <= 4
  {
    if c as int < 0x80 then 1
    else if c as int < 0x800 then 2
    else if c as int < 0x10000 then 3
    else 4
  }

  /** `str::len`: the length of `s` in bytes of UTF-8. */
  function ByteLength(s: string): (n: nat)
    ensures n >= |s|
  {
    if |s| == 0 then 0 else Utf8Width(s[0]) + ByteLength(s[1..])
  }

  /** Every character of `s` is ASCII. */
  predicate IsAscii(s: string) {
    forall i :: 0 <= i < |s| ==> s[i] as int < 0x80
  }

  lemma ByteLengthAppend(a: string, b: string)
    ensures ByteLength(a + b) == ByteLength(a) + ByteLength(b)
  {
    if |a| == 0 {
      assert a + b == b;
    } else {
      assert (a + b)[0] == a[0] && (a + b)[1..] == a[1..] + b;
      ByteLengthAppend(a[1..], b);
    }
  }

  /** An ASCII string has one byte per character, and only an ASCII string does. */
  lemma ByteLengthAscii(s: string)
    ensures ByteLength(s) == |s| <==> IsAscii(s)
  {
    if |s| > 0 {
      ByteLengthAscii(s[1..]);
      assert IsAscii(s) <==> s[0] as int < 0x80 && IsAscii(s[1..]);
    }
  }

  /** The character index at which byte offset `k` of `s` starts, or None
      when `k` falls inside a character or past the end. */
  function CharIndexAtByte(s: string, k: nat): (r: Option<nat>)
    ensures r.Some? ==> r.value <= |s| && ByteLength(s[..r.value]) == k
    decreases |s|
  {
    if k == 0 then Some(0)
    else if |s| == 0 then None
    else if k < Utf8Width(s[0]) then None
    else
      match CharIndexAtByte(s[1..], k - Utf8Width(s[0]))
      case None => None
      case Some(j) =>
        assert s[..j + 1][1..] == s[1..][..j];
        Some(j + 1)
  }

  /** In an ASCII string every byte offset up to the end starts a character. */
  lemma CharIndexAtByteAscii(s: string, k: nat)
    requires IsAscii(s) && k <= |s|
    ensures CharIndexAtByte(s, k) == Some(k)
  {
    if k > 0 {
      CharIndexAtByteAscii(s[1..], k - 1);
    }
  }

  /** `&s[a..b]` on byte offsets; None where Rust panics because an offset
      is not on a character boundary or lies past the end. */
  function ByteSlice(s: string, a: nat, b: nat): (r: Option<string>)
    ensures r.Some? ==> ByteLength(r.value) == b - a
    ensures r.Some? <==> (&& CharIndexAtByte(s, a).Some? && CharIndexAtByte(s, b).Some?
                          && CharIndexAtByte(s, a).value <= CharIndexAtByte(s, b).value)
    ensures r.Some? ==> r.value == s[CharIndexAtByte(s, a).value..CharIndexAtByte(s, b).value]
  {
    match (CharIndexAtByte(s, a), CharIndexAtByte(s, b))
    case (Some(i), Some(j)) =>
      if i <= j then
        assert s[..j] == s[..i] + s[i..j];
        ByteLengthAppend(s[..i], s[i..j]);
        Some(s[i..j])
      else None
    case _ => None
  }
}
