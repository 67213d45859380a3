/** The older copy of the escape-sequence builders in the application itself
    (`src/format.rs`). The application keeps its own code tables,
    `apply_format` and `make_padding_string`, which agree with the library
    copy's; of the three sequence builders, two differ from the library's. */
module LegacyFormat {
  import opened Results
  import opened Text
  import opened Numbers
  import Sgr
  import StyleFormat

  /** `[a] + rest` joins as `a`, the separator, and the join of `rest`. */
  lemma JoinCons(a: string, rest: seq<string>, sep: string)
    requires |rest| > 0
    ensures Join([a] + rest, sep) == a + sep + Join(rest, sep)
  {
    assert ([a] + rest)[1..] == rest;
  }

  /** `RESET_SEQ` of the application. */
  const ResetSeq: string := "\U{1b}[0m"

  /** The application's `apply_format`: the style, the input unchanged, then
      the reset sequence; the same text as the library's. */
  function ApplyFormat(input: string, style: string): (r: string)
    ensures |r| == |style| + |input| + |ResetSeq|
    ensures r[..|style|] == style
    ensures r[|style|..|style| + |input|] == input
    ensures r[|style| + |input|..] == ResetSeq
    ensures r == StyleFormat.ApplyFormat(input, style)
  {
    style + input + ResetSeq
  }

  /** The application's `make_padding_string`: `len` spaces, the same text
      as the library's. */
  function MakePaddingString(len: nat): (r: string)
    ensures |r| == len
    ensures forall i :: 0 <= i < len ==> r[i] == ' '
    ensures r == StyleFormat.MakePaddingString(len)
  {
    seq(len, _ => ' ')
  }

  /** The arguments given to the older `generate_style_sequence`: every style
      code of the list, then the foreground, then the background code. */
  function Arguments(style: Option<seq<string>>, foreground: Option<string>, background: Option<string>): (ps: seq<string>)
    ensures |ps| == (if style.Some? then |style.value| else 0)
                    + (if foreground.Some? then 1 else 0) + (if background.Some? then 1 else 0)
  {
    (if style.Some? then style.value else [])
    + (if foreground.Some? then [foreground.value] else [])
    + (if background.Some? then [background.value] else [])
  }

  /** The older `generate_style_sequence`, which takes a list of style codes;
      an empty argument list is a panic. */
  function GenerateStyleSequence(style: Option<seq<string>>, foreground: Option<string>, background: Option<string>): (r: string)
    requires |Arguments(style, foreground, background)| > 0
    ensures |r| >= |StyleFormat.Prefix| + 1 && r[..|StyleFormat.Prefix|] == StyleFormat.Prefix && r[|r| - 1] == 'm'
    ensures var ps := Arguments(style, foreground, background);
            (forall i :: 0 <= i < |ps| ==> NoneOf(ps[i], {';'})) ==> Sgr.Parameters(r) == Some(ps)
  {
    var arguments := Arguments(style, foreground, background);
    Sgr.ParametersOfBuilt(arguments);
    StyleFormat.Prefix + Join(arguments, ";") + StyleFormat.Termination
  }

  /** With at most one style code, the older builder gives what the library's
      builder gives for that code. */
  lemma StyleSequenceAgrees(style: Option<string>, foreground: Option<string>, background: Option<string>)
    requires style.Some? || foreground.Some? || background.Some?
    ensures var list := if style.Some? then Some([style.value]) else None;
            GenerateStyleSequence(list, foreground, background)
              == StyleFormat.GenerateStyleSequence(style, foreground, background)
  {
    var list := if style.Some? then Some([style.value]) else None;
    assert Arguments(list, foreground, background) == StyleFormat.Present(style, foreground, background);
  }

  /** The older `generate_256color_sequence`, which has no special case for the
      16 basic colours: from index 16 on it writes what the library version
      writes, and below it the library version writes nothing while this one
      still writes a sequence. */
  function Generate256ColorSequence(ctx: StyleFormat.ColorContext, color: Byte): (r: string)
    ensures Sgr.Parameters(r).Some?
    ensures var ps := Sgr.Parameters(r).value;
            && |ps| == 3 && ps[0] == StyleFormat.ExtendedCode(ctx) && ps[1] == "5"
            && ps[2] == Decimal(color) && IsCanonicalDecimal(ps[2]) && ParseByte(ps[2]) == Some(color)
    ensures color >= 16 ==> r == StyleFormat.Generate256ColorSequence(ctx, color)
    ensures color < 16 ==> r != StyleFormat.Generate256ColorSequence(ctx, color) == ""
  {
    var ext := StyleFormat.ExtendedCode(ctx);
    IndexArguments(ext, Decimal(color));
    IndexParameters(ctx, color);
    StyleFormat.Prefix + (ext + ";5;" + Decimal(color)) + StyleFormat.Termination
  }

  /** The format string's arguments are the library's parameters joined by `;`. */
  lemma IndexArguments(ext: string, d: string)
    ensures ext + ";5;" + d == Join([ext, "5", d], ";")
  {
    JoinCons(ext, ["5", d], ";");
    JoinCons("5", [d], ";");
    assert ";5;" == ";" + "5" + ";";
  }

  /** The parameters of an indexed-colour sequence read back. */
  lemma IndexParameters(ctx: StyleFormat.ColorContext, color: Byte)
    ensures var ps := [StyleFormat.ExtendedCode(ctx), "5", Decimal(color)];
            && Sgr.Parameters(StyleFormat.Prefix + Join(ps, ";") + StyleFormat.Termination) == Some(ps)
            && ParseByte(Decimal(color)) == Some(color)
  {
    var ps := [StyleFormat.ExtendedCode(ctx), "5", Decimal(color)];
    assert NoneOf(Decimal(color), {';'});
    Sgr.ParametersOfBuilt(ps);
    ParseByteDecimal(color);
  }

  /** The older `generate_rgb_sequence` writes the same text as the library's. */
  function GenerateRgbSequence(ctx: StyleFormat.ColorContext, red: Byte, green: Byte, blue: Byte): (r: string)
    ensures r == StyleFormat.GenerateRgbSequence(ctx, red, green, blue)
  {
    var ext := StyleFormat.ExtendedCode(ctx);
    var (dr, dg, db) := (Decimal(red), Decimal(green), Decimal(blue));
    RgbArguments(ext, dr, dg, db);
    StyleFormat.Prefix + (ext + ";2;" + dr + ";" + dg + ";" + db) + StyleFormat.Termination
  }

  /** The format string's arguments are the library's parameters joined by `;`. */
  lemma RgbArguments(ext: string, dr: string, dg: string, db: string)
    ensures ext + ";2;" + dr + ";" + dg + ";" + db == Join([ext, "2", dr, dg, db], ";")
  {
    JoinCons(dg, [db], ";");
    JoinCons(dr, [dg, db], ";");
    JoinCons("2", [dr, dg, db], ";");
    JoinCons(ext, ["2", dr, dg, db], ";");
    assert Join([db], ";") == db;
    var tail := dr + ";" + dg + ";" + db;
    assert Join([dr, dg, db], ";") == tail;
    assert Join(["2", dr, dg, db], ";") == "2" + ";" + tail;
    assert ";2;" == ";" + "2" + ";";
    assert ext + ";2;" + dr + ";" + dg + ";" + db == ext + ";2;" + tail;
  }

  // ---------------------------------------------------------------------
  // The application's own code tables

  /** The styles under the field names of the application's `StyleCodes`. */
  datatype Style = Bold | Dim | Italic | Underline | Blink | Reverse | Invisible | Strikethrough

  /** `STYLES.set` of the application. */
  function SetCode(s: Style): string
  {
    match s
    case Bold => "1"
    case Dim => "2"
    case Italic => "3"
    case Underline => "4"
    case Blink => "5"
    case Reverse => "7"
    case Invisible => "8"
    case Strikethrough => "9"
  }

  /** `STYLES.reset` of the application. */
  function ResetCode(s: Style): string
  {
    match s
    case Bold => "22"
    case Dim => "22"
    case Italic => "23"
    case Underline => "24"
    case Blink => "25"
    case Reverse => "27"
    case Invisible => "28"
    case Strikethrough => "29"
  }

  /** `COLORS.fg` and `COLORS.bg` of the application. */
  function ColorCode(ctx: StyleFormat.ColorContext, c: StyleFormat.ColorName): string
  {
    match ctx
    case Foreground =>
      (match c
       case Black => "30" case Red => "31" case Green => "32" case Yellow => "33"
       case Blue => "34" case Magenta => "35" case Cyan => "36" case White => "37"
       case Extended => "38" case Default => "39")
    case Background =>
      (match c
       case Black => "40" case Red => "41" case Green => "42" case Yellow => "43"
       case Blue => "44" case Magenta => "45" case Cyan => "46" case White => "47"
       case Extended => "48" case Default => "49")
  }

  /** The library's name for each of the application's style fields. */
  function LibraryStyle(s: Style): StyleFormat.StyleName
  {
    match s
    case Bold => StyleFormat.Bold
    case Dim => StyleFormat.Dim
    case Italic => StyleFormat.Italic
    case Underline => StyleFormat.Underlined
    case Blink => StyleFormat.Blinking
    case Reverse => StyleFormat.Reversed
    case Invisible => StyleFormat.Invisible
    case Strikethrough => StyleFormat.Strikethrough
  }

  /** The application's field name for each of the library's styles. */
  function ApplicationStyle(n: StyleFormat.StyleName): Style
  {
    match n
    case Bold => Bold
    case Dim => Dim
    case Italic => Italic
    case Underlined => Underline
    case Blinking => Blink
    case Reversed => Reverse
    case Invisible => Invisible
    case Strikethrough => Strikethrough
  }

  /** The renaming of the style fields is one to one. */
  lemma StyleNamesCorrespond(s: Style, n: StyleFormat.StyleName)
    ensures ApplicationStyle(LibraryStyle(s)) == s
    ensures LibraryStyle(ApplicationStyle(n)) == n
  {
    match s
    case Bold => case Dim => case Italic => case Underline =>
    case Blink => case Reverse => case Invisible => case Strikethrough =>
  }

  /** Every style keeps its set and reset code under its library name. */
  lemma StyleCodesAgree(s: Style)
    ensures SetCode(s) == StyleFormat.SetCode(LibraryStyle(s))
    ensures ResetCode(s) == StyleFormat.ResetCode(LibraryStyle(s))
  {
    match s
    case Bold => case Dim => case Italic => case Underline =>
    case Blink => case Reverse => case Invisible => case Strikethrough =>
  }

  /** The two copies of the colour tables are equal. */
  lemma ColorCodesAgree(ctx: StyleFormat.ColorContext, c: StyleFormat.ColorName)
    ensures ColorCode(ctx, c) == StyleFormat.ColorCode(ctx, c)
  {
    match ctx
    case Foreground =>
    case Background =>
  }

  /** Every background colour code is its foreground code plus ten. */
  lemma BackgroundIsForegroundPlusTen(c: StyleFormat.ColorName)
    ensures ParseByte(ColorCode(StyleFormat.Foreground, c)).Some?
    ensures ParseByte(ColorCode(StyleFormat.Background, c))
              == Some(ParseByte(ColorCode(StyleFormat.Foreground, c)).value + 10)
  {
    var f := ColorCode(StyleFormat.Foreground, c);
    var b := ColorCode(StyleFormat.Background, c);
    assert f == ['3', f[1]] && b == ['4', f[1]] && '0' <= f[1] <= '9';
    TwoDigits('3', f[1]);
    TwoDigits('4', f[1]);
  }

  /** Two decimal digits read as a byte. */
  lemma TwoDigits(a: char, b: char)
    requires '0' <= a <= '9' && '0' <= b <= '9'
    ensures ParseByte([a, b]) == Some((a as int - '0' as int) * 10 + (b as int - '0' as int))
  {
    assert [a, b][..1] == [a] && [a][..0] == [];
    assert DigitsValue([a], 10) == Some(a as int - '0' as int);
    assert DigitsValue([a, b], 10) == Some((a as int - '0' as int) * 10 + (b as int - '0' as int));
  }

  /** Every reset code is `2` followed by the set code, except that bold is
      switched off by 22, the same code as dim. */
  lemma ResetCodes(s: Style)
    ensures s != Bold ==> ResetCode(s) == "2" + SetCode(s)
    ensures ResetCode(Bold) == ResetCode(Dim)
  {
  }
}
