/** `to_rooted` (`src/util.rs`): a lexical absolute form of a path. The
    path is taken apart into its components as `Path::components` does on
    Unix, and the components are replayed onto the current directory (or
    onto nothing, for an absolute path): `.` is dropped, `..` removes the
    last name, everything else is appended. Links are not resolved. The
    current directory is a parameter; failing to read it is an error the
    function passes on. */
module Paths {
  import opened Results
  import opened Text

  datatype Component = RootDir | CurDir | ParentDir | Normal(name: string)

  /** A name `components` can yield as `Normal`. */
  predicate ValidName(n: string) {
    |n| > 0 && '/' !in n && n != "." && n != ".."
  }

  predicate AllValid(names: seq<string>) {
    forall i :: 0 <= i < |names| ==> ValidName(names[i])
  }

  /** A `PathBuf` as the loop builds it: whether it starts at the root, and
      its names. */
  datatype Buf = Buf(rooted: bool, names: seq<string>)

  predicate IsAbsolute(p: string) {
    |p| > 0 && p[0] == '/'
  }

  /** One piece between separators: empty pieces and `.` vanish, `..` is
      the parent, anything else a name. */
  function PieceComponents(piece: string): (r: seq<Component>)
    requires '/' !in piece
    ensures forall i :: 0 <= i < |r| ==> r[i] == ParentDir || (r[i].Normal? && ValidName(r[i].name))
  {
    if piece == "" || piece == "." then []
    else if piece == ".." then [ParentDir]
    else [Normal(piece)]
  }

  function Body(pieces: seq<string>): (r: seq<Component>)
    requires forall i :: 0 <= i < |pieces| ==> '/' !in pieces[i]
    ensures forall i :: 0 <= i < |r| ==> r[i] == ParentDir || (r[i].Normal? && ValidName(r[i].name))
  {
    if |pieces| == 0 then [] else PieceComponents(pieces[0]) + Body(pieces[1..])
  }

  /** `Path::components` on Unix: the root first when the path starts with
      `/`, a leading `.` kept as the current directory only when it is the
      path's first piece, then the pieces between separators. */
  function Components(p: string): (r: seq<Component>)
    ensures forall i :: 0 <= i < |r| ==> (r[i] == RootDir || r[i] == CurDir) ==> i == 0
    ensures forall i :: 0 <= i < |r| ==> r[i].Normal? ==> ValidName(r[i].name)
    ensures |r| > 0 && r[0] == RootDir <==> IsAbsolute(p)
  {
    var pieces := Split(p, {'/'});
    var body := Body(pieces);
    if IsAbsolute(p) then [RootDir] + body
    else if pieces[0] == "." then [CurDir] + body
    else body
  }

  /** `PathBuf::pop`: drops the last name; nothing to drop at the root or
      in an empty path. */
  function Pop(b: Buf): (r: Buf)
    ensures r.rooted == b.rooted
    ensures |b.names| > 0 ==> r.names + [b.names[|b.names| - 1]] == b.names
    ensures |b.names| == 0 ==> r == b
  {
    if |b.names| > 0 then Buf(b.rooted, b.names[..|b.names| - 1]) else b
  }

  /** One turn of the loop. Pushing the root replaces the buffer. */
  function Step(b: Buf, c: Component): Buf
  {
    match c
    case RootDir => Buf(true, [])
    case CurDir => b
    case ParentDir => Pop(b)
    case Normal(n) => Buf(b.rooted, b.names + [n])
  }

  function Apply(cs: seq<Component>, b: Buf): (r: Buf)
    ensures (b.rooted || RootDir in cs) ==> r.rooted
    ensures AllValid(b.names) && (forall i :: 0 <= i < |cs| ==> cs[i].Normal? ==> ValidName(cs[i].name)) ==> AllValid(r.names)
    decreases |cs|
  {
    if |cs| == 0 then b
    else
      var b' := Step(b, cs[0]);
      assert AllValid(b.names) && (cs[0].Normal? ==> ValidName(cs[0].name)) ==> AllValid(b'.names);
      assert RootDir in cs ==> cs[0] == RootDir || RootDir in cs[1..];
      Apply(cs[1..], b')
  }

  /** `to_rooted`: an absolute path rebuilt from nothing, a relative one on
      top of the current directory. The result is rooted, and when the
      current directory is made of proper names, so is the result: no `.`
      or `..` is left. */
  function ToRooted(p: string, cwd: Result<seq<string>>): (r: Result<Buf>)
    ensures IsAbsolute(p) ==> r.Ok?
    ensures !IsAbsolute(p) ==> (r.Ok? <==> cwd.Ok?)
    ensures r.Ok? ==> r.value.rooted
    ensures r.Ok? && (IsAbsolute(p) || AllValid(cwd.value)) ==> AllValid(r.value.names)
  {
    var cs := Components(p);
    if IsAbsolute(p) then Ok(Apply(cs, Buf(false, [])))
    else
      match cwd
      case Err(e) => Err(e)
      case Ok(names) => Ok(Apply(cs, Buf(true, names)))
  }

  /** The path as text. */
  function Render(b: Buf): string
  {
    (if b.rooted then "/" else "") + Join(b.names, "/")
  }

  // ---------------------------------------------------------------------
  // Properties

  /** The components of consecutive pieces are those of each piece, in order. */
  lemma {:induction false} BodyAppend(xs: seq<string>, ys: seq<string>)
    requires forall i :: 0 <= i < |xs| ==> '/' !in xs[i]
    requires forall i :: 0 <= i < |ys| ==> '/' !in ys[i]
    ensures Body(xs + ys) == Body(xs) + Body(ys)
    decreases |xs|
  {
    if |xs| == 0 {
      assert xs + ys == ys;
    } else {
      assert (xs + ys)[1..] == xs[1..] + ys;
      BodyAppend(xs[1..], ys);
    }
  }

  lemma {:induction false} ApplyAppend(xs: seq<Component>, ys: seq<Component>, b: Buf)
    ensures Apply(xs + ys, b) == Apply(ys, Apply(xs, b))
    decreases |xs|
  {
    if |xs| == 0 {
      assert xs + ys == ys;
    } else {
      assert (xs + ys)[1..] == xs[1..] + ys;
      ApplyAppend(xs[1..], ys, Step(b, xs[0]));
    }
  }

  function Normals(names: seq<string>): (r: seq<Component>)
    ensures |r| == |names|
    ensures forall i :: 0 <= i < |names| ==> r[i] == Normal(names[i])
  {
    if |names| == 0 then [] else [Normal(names[0])] + Normals(names[1..])
  }

  /** Proper names read back as themselves. */
  lemma {:induction false} BodyOfNames(names: seq<string>)
    requires AllValid(names)
    ensures Body(names) == Normals(names)
    decreases |names|
  {
    if |names| > 0 {
      BodyOfNames(names[1..]);
    }
  }

  /** Appending proper names extends the buffer by them. */
  lemma {:induction false} ApplyNormals(names: seq<string>, b: Buf)
    ensures Apply(Normals(names), b) == Buf(b.rooted, b.names + names)
    decreases |names|
  {
    if |names| == 0 {
      assert b.names + names == b.names;
    } else {
      assert Normals(names)[1..] == Normals(names[1..]);
      ApplyNormals(names[1..], Buf(b.rooted, b.names + [names[0]]));
      assert b.names + [names[0]] + names[1..] == b.names + names;
    }
  }

  /** The pieces of a rendered rooted path: an empty one before the root's
      separator, then the names. */
  lemma SplitRendered(names: seq<string>)
    requires AllValid(names)
    ensures Body(Split(Render(Buf(true, names)), {'/'})) == Normals(names)
  {
    var t := Join(names, "/");
    assert Render(Buf(true, names)) == [] + ['/'] + t;
    SplitConcat([], '/', t, {'/'});
    assert Split([], {'/'}) == [""];
    if |names| == 0 {
      assert Split(t, {'/'}) == [""];
    } else {
      forall i | 0 <= i < |names|
        ensures NoneOf(names[i], {'/'})
      {
      }
      SplitJoin(names, '/');
      assert [""] + names == [""] + Split(t, {'/'});
    }
    BodyAppend([""], Split(t, {'/'}));
    if |names| > 0 {
      BodyOfNames(Split(t, {'/'}));
    }
  }

  /** Reading the rendered form of a rooted buffer of proper names rebuilds
      the buffer. */
  lemma ComponentsOfRendered(names: seq<string>)
    requires AllValid(names)
    ensures Components(Render(Buf(true, names))) == [RootDir] + Normals(names)
  {
    SplitRendered(names);
  }

  /** `to_rooted` is idempotent: its output, written out and normalised
      again, comes back unchanged, whatever the current directory. */
  lemma Idempotent(p: string, cwd: Result<seq<string>>, cwd2: Result<seq<string>>)
    requires ToRooted(p, cwd).Ok?
    requires IsAbsolute(p) || AllValid(cwd.value)
    ensures ToRooted(Render(ToRooted(p, cwd).value), cwd2) == ToRooted(p, cwd)
  {
    RenderedIsNormal(ToRooted(p, cwd).value.names, cwd2);
  }

  /** A relative path is normalised as the current directory followed by
      a separator and the path, read as an absolute path; the result no
      longer depends on the current directory. */
  lemma RelativeIsJoined(p: string, cwd: seq<string>, other: Result<seq<string>>)
    requires !IsAbsolute(p) && AllValid(cwd)
    ensures ToRooted(Render(Buf(true, cwd)) + "/" + p, other) == ToRooted(p, Ok(cwd))
  {
    var base := Render(Buf(true, cwd));
    RenderedIsNormal(cwd, other);
    AbsoluteAppend(base, p, other);
    var ps := Split(p, {'/'});
    if ps[0] == "." {
      ApplyAppend([CurDir], Body(ps), Buf(true, cwd));
    }
  }

  /** A rendered rooted buffer of proper names normalises to itself. */
  lemma RenderedIsNormal(names: seq<string>, cwd: Result<seq<string>>)
    requires AllValid(names)
    ensures IsAbsolute(Render(Buf(true, names)))
    ensures ToRooted(Render(Buf(true, names)), cwd) == Ok(Buf(true, names))
  {
    ComponentsOfRendered(names);
    ApplyAppend([RootDir], Normals(names), Buf(false, []));
    ApplyNormals(names, Buf(true, []));
    assert [] + names == names;
  }

  /** Appending to an absolute path replays the appended pieces onto its
      normal form. */
  lemma AbsoluteAppend(p: string, q: string, cwd: Result<seq<string>>)
    requires IsAbsolute(p)
    ensures ToRooted(p + "/" + q, cwd) == Ok(Apply(Body(Split(q, {'/'})), ToRooted(p, cwd).value))
  {
    var pq := p + "/" + q;
    assert pq == p + ['/'] + q;
    assert pq[0] == p[0];
    SplitConcat(p, '/', q, {'/'});
    var xs := Split(p, {'/'});
    var ys := Split(q, {'/'});
    BodyAppend(xs, ys);
    assert Components(pq) == ([RootDir] + Body(xs)) + Body(ys);
    ApplyAppend([RootDir] + Body(xs), Body(ys), Buf(false, []));
  }

  /** An absolute path is replayed from the root: the current directory,
      and whether it could be read, play no part. */
  lemma AbsoluteFromRoot(p: string, cwd: Result<seq<string>>)
    requires IsAbsolute(p)
    ensures ToRooted(p, cwd) == Ok(Apply(Body(Split(p, {'/'})), Buf(true, [])))
  {
  }

  /** Resolving an absolute path gives the same result whatever the
      working directory is, and whether or not it could be read. */
  lemma AbsoluteIgnoresCwd(p: string, cwd: Result<seq<string>>, other: Result<seq<string>>)
    requires IsAbsolute(p)
    ensures ToRooted(p, cwd) == ToRooted(p, other)
  {
    AbsoluteFromRoot(p, cwd);
    AbsoluteFromRoot(p, other);
  }

  /** `..` at the root stays at the root. */
  lemma ParentOfRoot(cwd: Result<seq<string>>)
    ensures ToRooted("/" + "..", cwd) == Ok(Buf(true, []))
  {
    var p := "/" + "..";
    assert p == [] + ['/'] + "..";
    SplitConcat([], '/', "..", {'/'});
    SplitNone("..", {'/'});
    assert Split([], {'/'}) == [""];
    var ps := ["", ".."];
    assert Split(p, {'/'}) == ps;
    ParentPiece();
    assert ps[1..] == [".."];
    assert Body(ps) == [] + Body(ps[1..]);
    var cs := [RootDir, ParentDir];
    assert Components(p) == cs;
    assert cs[1..] == [ParentDir] && cs[1..][1..] == [];
    assert Apply(cs, Buf(false, [])) == Apply([ParentDir], Buf(true, []));
    assert Apply([ParentDir], Buf(true, [])) == Apply([], Buf(true, []));
  }

  lemma ParentPiece()
    ensures Body([".."]) == [ParentDir]
  {
    assert ".." != "" && ".." != ".";
    assert PieceComponents("..") == [ParentDir];
    assert [".."][1..] == [];
  }

  /** A name followed by `..` cancels out. */
  lemma ParentCancels(p: string, n: string, cwd: Result<seq<string>>)
    requires IsAbsolute(p) && ValidName(n)
    ensures ToRooted(p + "/" + n + "/" + "..", cwd) == ToRooted(p, cwd)
  {
    var q := n + "/" + "..";
    assert p + "/" + n + "/" + ".." == p + "/" + q;
    AbsoluteAppend(p, q, cwd);
    NameThenParent(n);
    EnterLeave(ToRooted(p, cwd).value, n);
  }

  /** `n/..` reads as entering `n` and leaving it again. */
  lemma NameThenParent(n: string)
    requires ValidName(n)
    ensures Body(Split(n + "/" + "..", {'/'})) == [Normal(n), ParentDir]
  {
    var q := n + "/" + "..";
    assert q == n + ['/'] + "..";
    SplitAt(n, '/', "..", {'/'});
    SplitNone("..", {'/'});
    var ps := [n, ".."];
    assert Split(q, {'/'}) == ps;
    ParentPiece();
    assert ps[1..] == [".."];
    assert Body(ps) == [Normal(n)] + Body(ps[1..]);
  }

  /** Entering a directory and leaving it again returns to the start. */
  lemma EnterLeave(b: Buf, n: string)
    ensures Apply([Normal(n), ParentDir], b) == b
  {
    var cs := [Normal(n), ParentDir];
    assert cs[1..] == [ParentDir] && cs[1..][1..] == [];
    var b' := Buf(b.rooted, b.names + [n]);
    assert Apply(cs, b) == Apply([ParentDir], b');
    assert Apply([ParentDir], b') == Apply([], Pop(b'));
    assert Pop(b') == b;
  }

  /** A `.` component changes nothing. */
  lemma DotIgnored(p: string, cwd: Result<seq<string>>)
    requires IsAbsolute(p)
    ensures ToRooted(p + "/" + ".", cwd) == ToRooted(p, cwd)
  {
    AbsoluteAppend(p, ".", cwd);
    SplitNone(".", {'/'});
    assert Body(["."]) == [];
  }
}
