/** The style compiler and escape-sequence builders of the configuration
    library (config-parser-common, `format.rs`): fixed code tables, the
    generators of single SGR sequences, and `parse_style`, which turns a
    descriptor such as `bold, #ff00ff` into escape sequences. */
module StyleFormat {
  import opened Results
  import opened Text
  import opened Numbers
  import Sgr

  const Esc: string := "\U{1b}"
  const Prefix: string := "\U{1b}["
  const ResetArg: string := "0"
  const Termination: string := "m"
  const ResetSeq: string := "\U{1b}[0m"

  datatype ColorContext = Foreground | Background

  datatype StyleName = Bold | Dim | Italic | Underlined | Blinking | Reversed | Invisible | Strikethrough

  datatype ColorName = Black | Red | Green | Yellow | Blue | Magenta | Cyan | White | Extended | Default

  /** `STYLES.set`: the code that switches a style on. */
  function SetCode(s: StyleName): string
  {
    match s
    case Bold => "1"
    case Dim => "2"
    case Italic => "3"
    case Underlined => "4"
    case Blinking => "5"
    case Reversed => "7"
    case Invisible => "8"
    case Strikethrough => "9"
  }

  /** `STYLES.reset`: the code that switches a style off. */
  function ResetCode(s: StyleName): string
  {
    match s
    case Bold => "22"
    case Dim => "22"
    case Italic => "23"
    case Underlined => "24"
    case Blinking => "25"
    case Reversed => "27"
    case Invisible => "28"
    case Strikethrough => "29"
  }

  /** `COLORS.fg` and `COLORS.bg`. */
  function ColorCode(ctx: ColorContext, c: ColorName): string
  {
    match ctx
    case Foreground =>
      (match c
       case Black => "30" case Red => "31" case Green => "32" case Yellow => "33"
       case Blue => "34" case Magenta => "35" case Cyan => "36" case White => "37"
       case Extended => "38" case Default => "39")
    case Background =>
      (match c
       case Black => "40" case Red => "41" case Green => "42" case Yellow => "43"
       case Blue => "44" case Magenta => "45" case Cyan => "46" case White => "47"
       case Extended => "48" case Default => "49")
  }

  /** `apply_format`: the text wrapped in its style and a closing reset. */
  function ApplyFormat(input: string, style: string): (r: string)
    ensures |r| == |style| + |input| + |ResetSeq|
    ensures r[..|style|] == style
    ensures r[|style|..|style| + |input|] == input
    ensures r[|style| + |input|..] == ResetSeq
  {
    style + input + ResetSeq
  }

  /** The arguments given, in the order style, foreground, background. */
  function Present(style: Option<string>, foreground: Option<string>, background: Option<string>): seq<string>
  {
    (if style.Some? then [style.value] else [])
    + (if foreground.Some? then [foreground.value] else [])
    + (if background.Some? then [background.value] else [])
  }

  /** `generate_style_sequence`: one SGR sequence carrying the given codes;
      calling it with no code at all is a programming error (a panic). */
  function GenerateStyleSequence(style: Option<string>, foreground: Option<string>, background: Option<string>): (r: string)
    requires style.Some? || foreground.Some? || background.Some?
    ensures |r| >= |Prefix| + 1 && r[..|Prefix|] == Prefix && r[|r| - 1] == 'm'
    ensures var ps := Present(style, foreground, background);
            (forall i :: 0 <= i < |ps| ==> NoneOf(ps[i], {';'})) ==> Sgr.Parameters(r) == Some(ps)
  {
    var arguments := Present(style, foreground, background);
    var r := Prefix + Join(arguments, ";") + Termination;
    Sgr.ParametersOfBuilt(arguments);
    r
  }

  /** The code that selects an extended colour for `ctx` (38 or 48). */
  function ExtendedCode(ctx: ColorContext): string
  {
    ColorCode(ctx, Extended)
  }

  /** `generate_256color_sequence`: nothing for the 16 basic colours,
      otherwise an SGR sequence `<38|48>;5;<n>` whose index reads back as `color`. */
  function Generate256ColorSequence(ctx: ColorContext, color: Byte): (r: string)
    ensures color < 16 <==> r == ""
    ensures color >= 16 ==>
              && Sgr.Parameters(r).Some?
              && var ps := Sgr.Parameters(r).value;
                 && |ps| == 3 && ps[0] == ExtendedCode(ctx) && ps[1] == "5"
                 && ps[2] == Decimal(color) && IsCanonicalDecimal(ps[2]) && ParseByte(ps[2]) == Some(color)
  {
    if color < 16 then ""
    else
      var ps := [ExtendedCode(ctx), "5", Decimal(color)];
      Sgr.ParametersOfBuilt(ps);
      ParseByteDecimal(color);
      Prefix + Join(ps, ";") + Termination
  }

  /** `generate_rgb_sequence`: an SGR sequence `<38|48>;2;<r>;<g>;<b>` whose
      channels read back as the three given values. */
  function GenerateRgbSequence(ctx: ColorContext, red: Byte, green: Byte, blue: Byte): (r: string)
    ensures Sgr.Parameters(r).Some?
    ensures var ps := Sgr.Parameters(r).value;
            && |ps| == 5 && ps[0] == ExtendedCode(ctx) && ps[1] == "2"
            && ps[2] == Decimal(red) && ps[3] == Decimal(green) && ps[4] == Decimal(blue)
            && IsCanonicalDecimal(ps[2]) && IsCanonicalDecimal(ps[3]) && IsCanonicalDecimal(ps[4])
            && ParseByte(ps[2]) == Some(red) && ParseByte(ps[3]) == Some(green) && ParseByte(ps[4]) == Some(blue)
  {
    var ps := [ExtendedCode(ctx), "2", Decimal(red), Decimal(green), Decimal(blue)];
    RgbParametersRead(ps);
    RgbChannelsRead(red, green, blue);
    Prefix + Join(ps, ";") + Termination
  }

  lemma RgbChannelsRead(red: Byte, green: Byte, blue: Byte)
    ensures ParseByte(Decimal(red)) == Some(red) && ParseByte(Decimal(green)) == Some(green)
    ensures ParseByte(Decimal(blue)) == Some(blue)
  {
    ParseByteDecimal(red);
    ParseByteDecimal(green);
    ParseByteDecimal(blue);
  }

  /** Parameters that are all digits are read back from the sequence that
      joins them. */
  lemma RgbParametersRead(ps: seq<string>)
    requires |ps| == 5 && ps[1] == "2"
    requires ps[0] == "38" || ps[0] == "48"
    requires forall i :: 2 <= i < 5 ==> forall j :: 0 <= j < |ps[i]| ==> '0' <= ps[i][j] <= '9'
    ensures Sgr.Parameters(Prefix + Join(ps, ";") + Termination) == Some(ps)
  {
    forall i | 0 <= i < 5
      ensures NoneOf(ps[i], {';'})
    {
      if i < 2 {
        assert |ps[i]| <= 2 && forall j :: 0 <= j < |ps[i]| ==> ps[i][j] != ';';
      }
    }
    Sgr.ParametersOfBuilt(ps);
  }

  /** `make_padding_string`: `len` spaces. */
  function MakePaddingString(len: nat): (r: string)
    ensures |r| == len
    ensures forall i :: 0 <= i < len ==> r[i] == ' '
  {
    seq(len, _ => ' ')
  }

  // ---------------------------------------------------------------------
  // parse_style

  /** The characters a descriptor is split on. */
  const Separators: set<char> := {' ', ',', '"', '\''}

  /** Tokenising of `parse_style`: split on the separators, trim and
      lower-case every piece, drop the empty ones. */
  function Tokens(arg: string): (ts: seq<string>)
    ensures forall i :: 0 <= i < |ts| ==> |ts[i]| > 0 && NoneOf(ts[i], Separators)
    ensures forall i :: 0 <= i < |ts| ==> Lower(ts[i]) == ts[i]
  {
    var pieces := Split(arg, Separators);
    var lowered := CleanPieces(pieces);
    forall i | 0 <= i < |lowered|
      ensures NoneOf(lowered[i], Separators) && Lower(lowered[i]) == lowered[i]
    {
      TokenPieceShape(pieces[i]);
    }
    DropEmpty(lowered)
  }

  /** Every piece trimmed, then lower-cased. */
  function CleanPieces(pieces: seq<string>): (r: seq<string>)
    ensures |r| == |pieces|
    ensures forall i :: 0 <= i < |pieces| ==> r[i] == Lower(Trim(pieces[i]))
  {
    seq(|pieces|, i requires 0 <= i < |pieces| => Lower(Trim(pieces[i])))
  }

  lemma TokenPieceShape(piece: string)
    requires NoneOf(piece, Separators)
    ensures NoneOf(Lower(Trim(piece)), Separators)
    ensures Lower(Lower(Trim(piece))) == Lower(Trim(piece))
  {
    var t := Trim(piece);
    assert NoneOf(t, Separators);
    var l := Lower(t);
    forall j | 0 <= j < |l|
      ensures l[j] !in Separators && LowerChar(l[j]) == l[j]
    {
      assert l[j] == LowerChar(t[j]);
      LowerCharShape(t[j]);
    }
    assert NoneOf(l, Separators);
    assert Lower(l) == l by {
      assert |Lower(l)| == |l|;
      forall j | 0 <= j < |l|
        ensures Lower(l)[j] == l[j]
      {
      }
    }
  }

  /** Lower-casing keeps a character out of the separators, and is done once. */
  lemma LowerCharShape(c: char)
    requires c !in Separators
    ensures LowerChar(c) !in Separators && LowerChar(LowerChar(c)) == LowerChar(c)
  {
  }

  /** Tokens do not depend on case: the descriptor is lower-cased piece by
      piece, and no separator is a letter. */
  lemma TokensIgnoreCase(arg: string)
    ensures Tokens(Lower(arg)) == Tokens(arg)
  {
    var ps := Split(arg, Separators);
    SeparatorsLetterFree();
    SplitLower(arg, Separators);
    CleanLowered(ps);
    assert Tokens(Lower(arg)) == DropEmpty(CleanPieces(LowerAll(ps)));
  }

  lemma SeparatorsLetterFree()
    ensures LetterFree(Separators)
  {
  }

  /** Cleaning a lower-cased piece gives what cleaning the piece gives. */
  lemma CleanLowered(ps: seq<string>)
    ensures CleanPieces(LowerAll(ps)) == CleanPieces(ps)
  {
    forall i | 0 <= i < |ps|
      ensures Lower(Trim(Lower(ps[i]))) == Lower(Trim(ps[i]))
    {
      TrimLower(ps[i]);
      LowerIdempotent(Trim(ps[i]));
    }
  }

  /** A trimmed word without separators is one token, lower-cased. */
  lemma TokensOfWord(w: string)
    requires |w| > 0 && NoneOf(w, Separators) && IsTrimmed(w)
    ensures Tokens(w) == [Lower(w)]
  {
    SplitNone(w, Separators);
    TrimmedIsFixpoint(w);
    assert CleanPieces([w]) == [Lower(w)];
    DropEmptyOne(Lower(w));
  }

  /** Cleaning pieces works piece by piece. */
  lemma CleanPiecesConcat(a: seq<string>, b: seq<string>)
    ensures CleanPieces(a + b) == CleanPieces(a) + CleanPieces(b)
  {
    forall i | 0 <= i < |a + b|
      ensures CleanPieces(a + b)[i] == (CleanPieces(a) + CleanPieces(b))[i]
    {
      if i >= |a| { assert (a + b)[i] == b[i - |a|]; }
    }
  }

  /** The tokens on either side of a separator are tokenised independently. */
  lemma TokensConcat(a: string, sep: char, b: string)
    requires sep in Separators
    ensures Tokens(a + [sep] + b) == Tokens(a) + Tokens(b)
  {
    var pa := Split(a, Separators);
    var pb := Split(b, Separators);
    SplitConcat(a, sep, b, Separators);
    CleanPiecesConcat(pa, pb);
    DropEmptyConcat(CleanPieces(pa), CleanPieces(pb));
  }

  /** The style keywords `parse_style` knows. */
  function StyleKeyword(t: string): Option<StyleName>
  {
    if t == "bold" then Some(Bold)
    else if t == "dim" then Some(Dim)
    else if t == "italic" then Some(Italic)
    else if t == "underlined" then Some(Underlined)
    else if t == "blinking" then Some(Blinking)
    else if t == "reversed" then Some(Reversed)
    else if t == "invisible" then Some(Invisible)
    else if t == "strikethrough" then Some(Strikethrough)
    else None
  }

  /** The colour names `parse_style` knows (`extended` is not one of them). */
  function ColorKeyword(t: string): Option<ColorName>
  {
    if t == "black" then Some(Black)
    else if t == "red" then Some(Red)
    else if t == "green" then Some(Green)
    else if t == "yellow" then Some(Yellow)
    else if t == "blue" then Some(Blue)
    else if t == "magenta" then Some(Magenta)
    else if t == "cyan" then Some(Cyan)
    else if t == "white" then Some(White)
    else if t == "default" then Some(Default)
    else None
  }

  /** `parse_numbered_color`: a token that reads as a `u8` is a palette index. */
  function ParseNumberedColor(s: string): (r: Result<string>)
    ensures r.Ok? <==> ParseByte(s).Some?
    ensures r.Ok? ==> r.value == Generate256ColorSequence(Foreground, ParseByte(s).value)
  {
    match ParseByte(s)
    case Some(n) => Ok(Generate256ColorSequence(Foreground, n))
    case None => Err("no numbered color found in '" + s + "'")
  }

  function RgbFailedMessage(s: string): string
  {
    "-- failed to parse rgb color `" + s + "` in config file"
  }

  function NoRgbMessage(s: string): string
  {
    "no rgb color found in '" + s + "'"
  }

  /** What `parse_rgb_color` can do as written: return a sequence, return an
      error, or panic on a byte range that splits a character. */
  datatype RgbOutcome = RgbSequence(sequence: string) | RgbError(message: string) | SlicePanic

  /** `parse_rgb_color` exactly as written: the length test and the three
      channel slices count BYTES of UTF-8 (`len()`, `&string[1..=2]`, ...),
      and slicing through the middle of a character panics. */
  function ParseRgbColorAsWritten(s: string): (r: RgbOutcome)
    requires |s| > 0
    ensures r.RgbSequence? ==> s[0] == '#' && ByteLength(s) == 7
  {
    if s[0] == '#' && ByteLength(s) == 7 then
      match ByteSlice(s, 1, 3)
      case None => SlicePanic
      case Some(rs) =>
        match ParseHexByte(rs)
        case None => RgbError(RgbFailedMessage(s))
        case Some(red) =>
          match ByteSlice(s, 3, 5)
          case None => SlicePanic
          case Some(gs) =>
            match ParseHexByte(gs)
            case None => RgbError(RgbFailedMessage(s))
            case Some(green) =>
              match ByteSlice(s, 5, 7)
              case None => SlicePanic
              case Some(bs) =>
                match ParseHexByte(bs)
                case None => RgbError(RgbFailedMessage(s))
                case Some(blue) => RgbSequence(GenerateRgbSequence(Foreground, red, green, blue))
    else RgbError(NoRgbMessage(s))
  }

  /** `parse_rgb_color` with the slicing made total: a byte range that splits
      a character means the token is not an rgb colour, as any other
      malformed `#` token. */
  function ParseRgbColor(s: string): (r: Result<string>)
    requires |s| > 0
    ensures r.Ok? ==> s[0] == '#' && ByteLength(s) == 7
    ensures r.Err? && s[0] == '#' && ByteLength(s) == 7 ==> r.message == RgbFailedMessage(s)
    ensures r.Err? && !(s[0] == '#' && ByteLength(s) == 7) ==> r.message == NoRgbMessage(s)
  {
    if s[0] == '#' && ByteLength(s) == 7 then
      match ByteSlice(s, 1, 3)
      case None => Err(RgbFailedMessage(s))
      case Some(rs) =>
        match ParseHexByte(rs)
        case None => Err(RgbFailedMessage(s))
        case Some(red) =>
          match ByteSlice(s, 3, 5)
          case None => Err(RgbFailedMessage(s))
          case Some(gs) =>
            match ParseHexByte(gs)
            case None => Err(RgbFailedMessage(s))
            case Some(green) =>
              match ByteSlice(s, 5, 7)
              case None => Err(RgbFailedMessage(s))
              case Some(bs) =>
                match ParseHexByte(bs)
                case None => Err(RgbFailedMessage(s))
                case Some(blue) => Ok(GenerateRgbSequence(Foreground, red, green, blue))
    else Err(NoRgbMessage(s))
  }

  /** `#` followed by three two-character channels that `from_str_radix(.., 16)` accepts. */
  predicate IsHexColor(s: string) {
    && |s| == 7 && s[0] == '#'
    && ParseHexByte(s[1..3]).Some? && ParseHexByte(s[3..5]).Some? && ParseHexByte(s[5..7]).Some?
  }

  lemma HexChannelIsAscii(x: string)
    requires ParseHexByte(x).Some?
    ensures IsAscii(x)
  {
    ParsedIsAscii(x, 16, 255);
  }

  /** The corrected parser accepts exactly `#` plus three hex channels, counted in
      characters, and renders them as a foreground truecolour sequence. */
  lemma ParseRgbColorIsHexColor(s: string)
    requires |s| > 0
    ensures ParseRgbColor(s).Ok? <==> IsHexColor(s)
    ensures IsHexColor(s) ==>
              ParseRgbColor(s) == Ok(GenerateRgbSequence(Foreground, ParseHexByte(s[1..3]).value,
                                                         ParseHexByte(s[3..5]).value, ParseHexByte(s[5..7]).value))
  {
    if IsHexColor(s) {
      HexColorParses(s);
    }
    if ParseRgbColor(s).Ok? {
      ParsedIsHexColor(s);
    }
  }

  /** A hex colour is all ASCII, so its byte offsets are character offsets. */
  lemma HexColorParses(s: string)
    requires IsHexColor(s)
    ensures ParseRgbColor(s) == Ok(GenerateRgbSequence(Foreground, ParseHexByte(s[1..3]).value,
                                                       ParseHexByte(s[3..5]).value, ParseHexByte(s[5..7]).value))
  {
    HexColorIsAscii(s);
    ByteLengthAscii(s);
    CharIndexAtByteAscii(s, 1);
    CharIndexAtByteAscii(s, 3);
    CharIndexAtByteAscii(s, 5);
    CharIndexAtByteAscii(s, 7);
  }

  /** A hex colour is plain ASCII. */
  lemma HexColorIsAscii(s: string)
    requires IsHexColor(s)
    ensures IsAscii(s)
  {
    HexChannelIsAscii(s[1..3]);
    HexChannelIsAscii(s[3..5]);
    HexChannelIsAscii(s[5..7]);
    forall i | 0 <= i < |s|
      ensures s[i] as int < 0x80
    {
      if 1 <= i < 3 { assert s[i] == s[1..3][i - 1]; }
      else if 3 <= i < 5 { assert s[i] == s[3..5][i - 3]; }
      else if 5 <= i < 7 { assert s[i] == s[5..7][i - 5]; }
    }
  }

  /** Each accepted channel is two ASCII characters, so an accepted colour
      is seven characters long and a hex colour. */
  lemma ParsedIsHexColor(s: string)
    requires |s| > 0 && ParseRgbColor(s).Ok?
    ensures IsHexColor(s)
  {
    assert s[0] == '#' && ByteLength(s) == 7;
    assert CharIndexAtByte(s, 1) == Some(1);
    assert ByteSlice(s, 1, 3).Some? && ParseHexByte(ByteSlice(s, 1, 3).value).Some?;
    ChannelEnd(s, 1);
    assert ByteSlice(s, 3, 5).Some? && ParseHexByte(ByteSlice(s, 3, 5).value).Some?;
    ChannelEnd(s, 3);
    assert ByteSlice(s, 5, 7).Some? && ParseHexByte(ByteSlice(s, 5, 7).value).Some?;
    ChannelEnd(s, 5);
    assert |s| == 7 by {
      assert s == s[..7] + s[7..];
      ByteLengthAppend(s[..7], s[7..]);
    }
  }

  /** A channel that parses, sliced from a character boundary at byte `a`,
      is the two characters from `a` on, and ends on a boundary too. */
  lemma ChannelEnd(s: string, a: nat)
    requires CharIndexAtByte(s, a) == Some(a)
    requires ByteSlice(s, a, a + 2).Some? && ParseHexByte(ByteSlice(s, a, a + 2).value).Some?
    ensures a + 2 <= |s| && CharIndexAtByte(s, a + 2) == Some(a + 2)
    ensures ByteSlice(s, a, a + 2).value == s[a..a + 2]
  {
    var x := ByteSlice(s, a, a + 2).value;
    HexChannelIsAscii(x);
    ByteLengthAscii(x);
  }

  /** Wherever the code as written does not panic, the corrected parser
      gives the same answer. */
  lemma RgbCorrectionAgrees(s: string)
    requires |s| > 0
    requires !ParseRgbColorAsWritten(s).SlicePanic?
    ensures ParseRgbColorAsWritten(s).RgbSequence? ==> ParseRgbColor(s) == Ok(ParseRgbColorAsWritten(s).sequence)
    ensures ParseRgbColorAsWritten(s).RgbError? ==> ParseRgbColor(s) == Err(ParseRgbColorAsWritten(s).message)
  {
  }

  /** The panic needs a character wider than one byte. */
  lemma SlicePanicNeedsNonAscii(s: string)
    requires |s| > 0
    requires ParseRgbColorAsWritten(s).SlicePanic?
    ensures !IsAscii(s)
  {
    if IsAscii(s) {
      ByteLengthAscii(s);
      CharIndexAtByteAscii(s, 1);
      CharIndexAtByteAscii(s, 3);
      CharIndexAtByteAscii(s, 5);
      CharIndexAtByteAscii(s, 7);
      assert false;
    }
  }

  /** `#aé123` is seven bytes long, and the red channel `&s[1..=2]` ends inside
      the two-byte `é`, so the code as written panics on it. */
  lemma RgbSliceSplitsCharacter()
    ensures ParseRgbColorAsWritten("#a\U{e9}123") == SlicePanic
    ensures ParseRgbColor("#a\U{e9}123") == Err(RgbFailedMessage("#a\U{e9}123"))
  {
    var s := "#a\U{e9}123";
    assert Utf8Width('\U{e9}') == 2;
    assert ByteLength(s) == 7 by {
      assert s[1..][1..][1..][1..][1..][1..] == [];
    }
    assert CharIndexAtByte(s[1..][1..], 1) == None;
    assert CharIndexAtByte(s, 3) == None;
  }

  /** What one token of a descriptor contributes. */
  datatype Token = StyleToken(sequence: string) | ColorToken(sequence: string) | Unrecognised

  /** The classification of `parse_style`, tried in this order: a palette
      index, a `#RRGGBB` colour, a style keyword, a colour name. */
  function Classify(t: string): (k: Token)
    requires |t| > 0
    ensures ParseByte(t).Some? ==> k == ColorToken(Generate256ColorSequence(Foreground, ParseByte(t).value))
    ensures ParseByte(t).None? && IsHexColor(t) ==>
              k == ColorToken(GenerateRgbSequence(Foreground, ParseHexByte(t[1..3]).value,
                                                  ParseHexByte(t[3..5]).value, ParseHexByte(t[5..7]).value))
    ensures ParseByte(t).None? && !IsHexColor(t) ==> k == KeywordClass(t)
  {
    ParseRgbColorIsHexColor(t);
    match ParseNumberedColor(t)
    case Ok(sequence) => ColorToken(sequence)
    case Err(_) =>
      match ParseRgbColor(t)
      case Ok(sequence) => ColorToken(sequence)
      case Err(_) => KeywordClass(t)
  }

  /** The last two classes: a style keyword, else a colour name, else nothing. */
  function KeywordClass(t: string): (k: Token)
    ensures k.StyleToken? <==> StyleKeyword(t).Some?
    ensures k.ColorToken? <==> StyleKeyword(t).None? && ColorKeyword(t).Some?
    ensures k.StyleToken? ==> k.sequence == Prefix + SetCode(StyleKeyword(t).value) + Termination
    ensures k.ColorToken? ==> k.sequence == Prefix + ColorCode(Foreground, ColorKeyword(t).value) + Termination
  {
    match StyleKeyword(t)
    case Some(style) =>
      OneCodeSequence(SetCode(style));
      StyleToken(GenerateStyleSequence(Some(SetCode(style)), None, None))
    case None =>
      match ColorKeyword(t)
      case Some(color) =>
        OneCodeSequence(ColorCode(Foreground, color));
        ColorToken(GenerateStyleSequence(None, Some(ColorCode(Foreground, color)), None))
      case None => Unrecognised
  }

  /** A sequence carrying one code. */
  lemma OneCodeSequence(code: string)
    ensures GenerateStyleSequence(Some(code), None, None) == Prefix + code + Termination
    ensures GenerateStyleSequence(None, Some(code), None) == Prefix + code + Termination
  {
    assert Present(Some(code), None, None) == [code];
    assert Present(None, Some(code), None) == [code];
  }

  /** `parse_rgb_color` panics on `t` before any keyword is tried. */
  predicate RgbPanics(t: string)
    requires |t| > 0
  {
    ParseNumberedColor(t).Err? && ParseRgbColorAsWritten(t).SlicePanic?
  }

  /** `Classify` over `parse_rgb_color` as written: None where it panics. */
  function ClassifyAsWritten(t: string): Option<Token>
    requires |t| > 0
  {
    match ParseNumberedColor(t)
    case Ok(sequence) => Some(ColorToken(sequence))
    case Err(_) =>
      match ParseRgbColorAsWritten(t)
      case SlicePanic => None
      case RgbSequence(sequence) => Some(ColorToken(sequence))
      case RgbError(_) => Some(KeywordClass(t))
  }

  /** The code as written classifies every token the corrected code does,
      except that it panics instead of reporting a token whose channel
      slices split a character. */
  lemma ClassifyAsWrittenAgrees(t: string)
    requires |t| > 0
    ensures ClassifyAsWritten(t) == if RgbPanics(t) then None else Some(Classify(t))
    ensures RgbPanics(t) ==> Classify(t) == Unrecognised
  {
    if RgbPanics(t) {
      PanicIsUnrecognised(t);
    } else if ParseNumberedColor(t).Err? {
      RgbCorrectionAgrees(t);
    }
  }

  /** A token the code as written panics on is one the corrected code
      does not recognise: it is no number, and it is not ASCII, so it is
      no hex colour, and it starts with `#`, so it is no keyword. */
  lemma PanicIsUnrecognised(t: string)
    requires |t| > 0 && RgbPanics(t)
    ensures Classify(t) == Unrecognised
  {
    assert ParseByte(t).None?;
    SlicePanicNeedsNonAscii(t);
    if IsHexColor(t) { HexColorIsAscii(t); }
    assert t[0] == '#';
    HashIsNoKeyword(t);
  }

  /** Every keyword starts with a letter. */
  lemma HashIsNoKeyword(t: string)
    requires |t| > 0 && t[0] == '#'
    ensures KeywordClass(t) == Unrecognised
  {
    assert StyleKeyword(t).None? && ColorKeyword(t).None?;
  }

  function UnknownTokenMessage(t: string): string
  {
    "-- could not parse style token `" + t + "` in config file"
  }

  function TooManyColorsMessage(arg: string): string
  {
    "-- too many colors found in setting <" + arg + ">"
  }

  predicate NonEmptyTokens(ts: seq<string>) {
    forall i :: 0 <= i < |ts| ==> |ts[i]| > 0
  }

  /** The class of every token, in order. */
  function Classified(ts: seq<string>): (ks: seq<Token>)
    requires NonEmptyTokens(ts)
    ensures |ks| == |ts|
    ensures forall i :: 0 <= i < |ts| ==> ks[i] == Classify(ts[i])
  {
    seq(|ts|, i requires 0 <= i < |ts| => Classify(ts[i]))
  }

  /** Position of the first token no class accepts, or the number of tokens. */
  function FirstUnrecognised(ks: seq<Token>): (i: nat)
    ensures i <= |ks|
    ensures forall j :: 0 <= j < i ==> !ks[j].Unrecognised?
    ensures i < |ks| ==> ks[i].Unrecognised?
  {
    if |ks| == 0 then 0
    else if ks[0].Unrecognised? then 0
    else 1 + FirstUnrecognised(ks[1..])
  }

  /** The sequences of the style tokens, in token order. */
  function StyleSequences(ks: seq<Token>): seq<string>
  {
    if |ks| == 0 then []
    else (if ks[0].StyleToken? then [ks[0].sequence] else []) + StyleSequences(ks[1..])
  }

  /** The sequences of the colour tokens, in token order. */
  function ColorSequences(ks: seq<Token>): seq<string>
  {
    if |ks| == 0 then []
    else (if ks[0].ColorToken? then [ks[0].sequence] else []) + ColorSequences(ks[1..])
  }

  /** The loop of `parse_style` over the classified tokens: collects style and
      colour sequences in token order and stops at the first token it cannot
      classify, whose text the error names. */
  function CollectTokens(ts: seq<string>, ks: seq<Token>, styles: seq<string>, colors: seq<string>): Result<(seq<string>, seq<string>)>
    requires |ks| == |ts|
    decreases |ks|
  {
    if |ks| == 0 then Ok((styles, colors))
    else
      match ks[0]
      case Unrecognised => Err(UnknownTokenMessage(ts[0]))
      case StyleToken(sequence) => CollectTokens(ts[1..], ks[1..], styles + [sequence], colors)
      case ColorToken(sequence) => CollectTokens(ts[1..], ks[1..], styles, colors + [sequence])
  }

  /** The loop reports the first token no class accepts. */
  lemma {:induction false} CollectTokensStopsAtUnknown(ts: seq<string>, ks: seq<Token>, styles: seq<string>, colors: seq<string>)
    requires |ks| == |ts|
    requires FirstUnrecognised(ks) < |ks|
    ensures CollectTokens(ts, ks, styles, colors) == Err(UnknownTokenMessage(ts[FirstUnrecognised(ks)]))
    decreases |ks|
  {
    if !ks[0].Unrecognised? {
      var styles' := if ks[0].StyleToken? then styles + [ks[0].sequence] else styles;
      var colors' := if ks[0].ColorToken? then colors + [ks[0].sequence] else colors;
      assert CollectTokens(ts, ks, styles, colors) == CollectTokens(ts[1..], ks[1..], styles', colors');
      assert FirstUnrecognised(ks) == 1 + FirstUnrecognised(ks[1..]);
      CollectTokensStopsAtUnknown(ts[1..], ks[1..], styles', colors');
    }
  }

  /** When every token is known, the loop appends every style and every
      colour sequence, in token order. */
  lemma {:induction false} CollectTokensKeepsOrder(ts: seq<string>, ks: seq<Token>, styles: seq<string>, colors: seq<string>)
    requires |ks| == |ts|
    requires FirstUnrecognised(ks) == |ks|
    ensures CollectTokens(ts, ks, styles, colors) == Ok((styles + StyleSequences(ks), colors + ColorSequences(ks)))
    decreases |ks|
  {
    if |ks| == 0 {
      assert styles + StyleSequences(ks) == styles && colors + ColorSequences(ks) == colors;
    } else {
      assert FirstUnrecognised(ks) == 1 + FirstUnrecognised(ks[1..]);
      var restStyles := StyleSequences(ks[1..]);
      var restColors := ColorSequences(ks[1..]);
      match ks[0]
      case StyleToken(x) =>
        CollectTokensKeepsOrder(ts[1..], ks[1..], styles + [x], colors);
        assert StyleSequences(ks) == [x] + restStyles;
        assert ColorSequences(ks) == [] + restColors == restColors;
        assert (styles + [x]) + restStyles == styles + ([x] + restStyles);
      case ColorToken(x) =>
        CollectTokensKeepsOrder(ts[1..], ks[1..], styles, colors + [x]);
        assert StyleSequences(ks) == [] + restStyles == restStyles;
        assert ColorSequences(ks) == [x] + restColors;
        assert (colors + [x]) + restColors == colors + ([x] + restColors);
    }
  }

  /** From empty lists, the loop fails exactly when some token is not
      recognised, and otherwise yields the style and colour sequences. */
  lemma CollectTokensOutcome(ts: seq<string>, ks: seq<Token>)
    requires |ks| == |ts|
    ensures CollectTokens(ts, ks, [], []).Err? <==> FirstUnrecognised(ks) < |ks|
    ensures CollectTokens(ts, ks, [], []).Ok? ==>
              CollectTokens(ts, ks, [], []).value == (StyleSequences(ks), ColorSequences(ks))
  {
    if FirstUnrecognised(ks) < |ks| {
      CollectTokensStopsAtUnknown(ts, ks, [], []);
    } else {
      CollectTokensKeepsOrder(ts, ks, [], []);
      assert [] + StyleSequences(ks) == StyleSequences(ks);
      assert [] + ColorSequences(ks) == ColorSequences(ks);
    }
  }

  /** `parse_style`: succeeds only when every token is recognised and at
      most one of them is a colour; an empty descriptor is the empty style. */
  function ParseStyle(arg: string): (r: Result<string>)
    ensures Tokens(arg) == [] ==> r == Ok("")
    ensures r.Ok? ==> (&& FirstUnrecognised(Classified(Tokens(arg))) == |Tokens(arg)|
                       && |ColorSequences(Classified(Tokens(arg)))| <= 1)
    ensures r.Err? ==> (|| r.message == TooManyColorsMessage(arg)
                        || FirstUnrecognised(Classified(Tokens(arg))) < |Tokens(arg)|)
  {
    var ts := Tokens(arg);
    var ks := Classified(ts);
    CollectTokensOutcome(ts, ks);
    match CollectTokens(ts, ks, [], [])
    case Err(message) => Err(message)
    case Ok((styles, colors)) =>
      if |colors| > 1 then Err(TooManyColorsMessage(arg))
      else Ok(Concat(styles + colors))
  }

  /** The meaning of `parse_style`: the first unknown token is an error naming
      it; otherwise a second colour is an error; otherwise the result is the
      style sequences in token order followed by the one colour sequence. */
  lemma ParseStyleMeaning(arg: string)
    ensures var ts := Tokens(arg); var ks := Classified(ts);
            FirstUnrecognised(ks) < |ks| ==> ParseStyle(arg) == Err(UnknownTokenMessage(ts[FirstUnrecognised(ks)]))
    ensures var ks := Classified(Tokens(arg));
            FirstUnrecognised(ks) == |ks| && |ColorSequences(ks)| > 1 ==> ParseStyle(arg) == Err(TooManyColorsMessage(arg))
    ensures var ks := Classified(Tokens(arg));
            FirstUnrecognised(ks) == |ks| && |ColorSequences(ks)| <= 1 ==>
              ParseStyle(arg) == Ok(Concat(StyleSequences(ks)) + Concat(ColorSequences(ks)))
  {
    var ts := Tokens(arg);
    var ks := Classified(ts);
    if FirstUnrecognised(ks) < |ks| {
      CollectTokensStopsAtUnknown(ts, ks, [], []);
    } else {
      CollectTokensKeepsOrder(ts, ks, [], []);
    }
    assert [] + StyleSequences(ks) == StyleSequences(ks);
    assert [] + ColorSequences(ks) == ColorSequences(ks);
    ConcatAppend(StyleSequences(ks), ColorSequences(ks));
  }

  /** The loop of `parse_style` over `parse_rgb_color` as written: None
      where a token makes it panic. */
  function CollectAsWritten(ts: seq<string>, styles: seq<string>, colors: seq<string>): Option<Result<(seq<string>, seq<string>)>>
    requires NonEmptyTokens(ts)
    decreases |ts|
  {
    if |ts| == 0 then Some(Ok((styles, colors)))
    else
      assert NonEmptyTokens(ts[1..]) by {
        forall i | 0 <= i < |ts| - 1 ensures |ts[1..][i]| > 0 { assert ts[1..][i] == ts[i + 1]; }
      }
      match ClassifyAsWritten(ts[0])
      case None => None
      case Some(Unrecognised) => Some(Err(UnknownTokenMessage(ts[0])))
      case Some(StyleToken(sequence)) => CollectAsWritten(ts[1..], styles + [sequence], colors)
      case Some(ColorToken(sequence)) => CollectAsWritten(ts[1..], styles, colors + [sequence])
  }

  /** The loop as written panics exactly when the first token the corrected
      loop does not recognise is one whose channel slices split a
      character; otherwise both loops end alike. */
  lemma {:induction false} CollectAsWrittenAgrees(ts: seq<string>, styles: seq<string>, colors: seq<string>)
    requires NonEmptyTokens(ts)
    ensures var ks := Classified(ts); var i := FirstUnrecognised(ks);
            CollectAsWritten(ts, styles, colors)
              == if i < |ts| && RgbPanics(ts[i]) then None else Some(CollectTokens(ts, ks, styles, colors))
    decreases |ts|
  {
    if |ts| > 0 {
      var ks := Classified(ts);
      var rest := ts[1..];
      assert NonEmptyTokens(rest) by {
        forall j | 0 <= j < |rest| ensures |rest[j]| > 0 { assert rest[j] == ts[j + 1]; }
      }
      ClassifyAsWrittenAgrees(ts[0]);
      if !RgbPanics(ts[0]) && !ks[0].Unrecognised? {
        var ks' := Classified(rest);
        var styles' := if ks[0].StyleToken? then styles + [ks[0].sequence] else styles;
        var colors' := if ks[0].ColorToken? then colors + [ks[0].sequence] else colors;
        assert ks' == ks[1..];
        assert CollectAsWritten(ts, styles, colors) == CollectAsWritten(rest, styles', colors');
        assert CollectTokens(ts, ks, styles, colors) == CollectTokens(rest, ks', styles', colors');
        CollectAsWrittenAgrees(rest, styles', colors');
        FirstUnrecognisedStep(ts, ks, ks');
      } else {
        assert ks[0].Unrecognised? && FirstUnrecognised(ks) == 0;
        assert CollectTokens(ts, ks, styles, colors) == Err(UnknownTokenMessage(ts[0]));
      }
    }
  }

  /** Past a recognised first token, the first unrecognised token is the
      same token of the rest. */
  lemma FirstUnrecognisedStep(ts: seq<string>, ks: seq<Token>, ks': seq<Token>)
    requires |ks| == |ts| > 0 && !ks[0].Unrecognised? && ks' == ks[1..]
    ensures FirstUnrecognised(ks) == 1 + FirstUnrecognised(ks')
    ensures var i := FirstUnrecognised(ks);
            i < |ts| ==> ts[i] == ts[1..][i - 1]
  {
  }

  /** What `parse_style` as written does: return, or panic. */
  datatype StyleOutcome = Returned(result: Result<string>) | Panicked

  /** `parse_style` over `parse_rgb_color` as written. */
  function ParseStyleAsWritten(arg: string): StyleOutcome
  {
    var ts := Tokens(arg);
    match CollectAsWritten(ts, [], [])
    case None => Panicked
    case Some(Err(message)) => Returned(Err(message))
    case Some(Ok((styles, colors))) =>
      Returned(if |colors| > 1 then Err(TooManyColorsMessage(arg)) else Ok(Concat(styles + colors)))
  }

  /** `parse_style` as written panics exactly when the first token that no
      class accepts is a `#` token whose channel slices split a character;
      in every other case it returns what the corrected `ParseStyle` does. */
  lemma ParseStyleAsWrittenAgrees(arg: string)
    ensures var ts := Tokens(arg); var i := FirstUnrecognised(Classified(ts));
            ParseStyleAsWritten(arg) == if i < |ts| && RgbPanics(ts[i]) then Panicked else Returned(ParseStyle(arg))
  {
    var ts := Tokens(arg);
    var ks := Classified(ts);
    var i := FirstUnrecognised(ks);
    CollectAsWrittenAgrees(ts, [], []);
    if !(i < |ts| && RgbPanics(ts[i])) {
      var c := CollectTokens(ts, ks, [], []);
      assert CollectAsWritten(ts, [], []) == Some(c);
      match c
      case Err(message) =>
        assert ParseStyle(arg) == Err(message);
      case Ok((styles, colors)) =>
        assert ParseStyle(arg) == if |colors| > 1 then Err(TooManyColorsMessage(arg)) else Ok(Concat(styles + colors));
    }
  }
}
