/** Worked descriptors for `parse_style`, proved through general lemmas about
    descriptors made of plain lower-case words. */
module StyleExamples {
  import opened Results
  import opened Text
  import opened Numbers
  import opened StyleFormat

  predicate PlainWord(w: string) {
    && |w| > 0 && NoneOf(w, Separators) && IsTrimmed(w)
    && forall i :: 0 <= i < |w| ==> !('A' <= w[i] <= 'Z')
  }

  lemma PlainWordUnchanged(w: string)
    requires PlainWord(w)
    ensures Lower(Trim(w)) == w
  {
    TrimmedIsFixpoint(w);
  }

  lemma SingleToken(w: string)
    requires PlainWord(w)
    ensures Tokens(w) == [w]
  {
    TokensOfWord(w);
    PlainWordUnchanged(w);
    TrimmedIsFixpoint(w);
  }

  lemma TwoTokens(a: string, b: string)
    requires PlainWord(a) && PlainWord(b)
    ensures Tokens(a + ", " + b) == [a, b]
  {
    TwoPieces(a, b);
    CleanThree(a, b);
    DropMiddle(a, b);
  }

  lemma CleanThree(a: string, b: string)
    requires PlainWord(a) && PlainWord(b)
    ensures CleanPieces([a, "", b]) == [a, "", b]
  {
    PlainWordUnchanged(a);
    PlainWordUnchanged(b);
    assert Trim("") == "";
  }

  lemma DropMiddle(a: string, b: string)
    requires |a| > 0 && |b| > 0
    ensures DropEmpty([a, "", b]) == [a, b]
  {
    assert DropEmpty([b]) == [b] by { assert [b][1..] == []; }
    assert DropEmpty(["", b]) == [b] by { assert ["", b][1..] == [b]; }
    assert [a, "", b][1..] == ["", b];
  }

  /** `a, b` splits into `a`, the empty piece between the comma and the
      space, and `b`. */
  lemma TwoPieces(a: string, b: string)
    requires PlainWord(a) && PlainWord(b)
    ensures Split(a + ", " + b, Separators) == [a, "", b]
  {
    assert a + ", " + b == a + [','] + ([' '] + b);
    SplitAt(a, ',', [' '] + b, Separators);
    assert [' '] + b == "" + [' '] + b;
    SplitAt("", ' ', b, Separators);
    SplitNone(b, Separators);
  }

  /** A word that is neither a number nor `#...` and names a style. */
  lemma StyleWord(t: string, style: StyleName)
    requires |t| > 0 && ParseByte(t).None? && t[0] != '#' && StyleKeyword(t) == Some(style)
    ensures Classify(t) == StyleToken(Prefix + SetCode(style) + Termination)
  {
    OneCodeSequence(SetCode(style));
  }

  /** A word that is neither a number, `#...` nor a style, and names a colour. */
  lemma ColorWord(t: string, color: ColorName)
    requires |t| > 0 && ParseByte(t).None? && t[0] != '#'
    requires StyleKeyword(t).None? && ColorKeyword(t) == Some(color)
    ensures Classify(t) == ColorToken(Prefix + ColorCode(Foreground, color) + Termination)
  {
    OneCodeSequence(ColorCode(Foreground, color));
  }

  /** `bold` is the style with code 1. */
  lemma ClassifyBold()
    ensures Classify("bold") == StyleToken("\U{1b}[" + "1" + "m")
  {
    ParseByteNonDigit("bold");
    StyleWord("bold", Bold);
  }

  /** `red` is the colour with code 31. */
  lemma ClassifyRed()
    ensures Classify("red") == ColorToken("\U{1b}[" + "31" + "m")
  {
    ParseByteNonDigit("red");
    assert StyleKeyword("red").None?;
    ColorWord("red", Red);
  }

  lemma StyleThenColor(x: string, y: string)
    ensures var ks := [StyleToken(x), ColorToken(y)];
            FirstUnrecognised(ks) == 2 && StyleSequences(ks) == [x] && ColorSequences(ks) == [y]
  {
    var ks := [StyleToken(x), ColorToken(y)];
    assert ks[1..] == [ColorToken(y)] && ks[1..][1..] == [];
    assert StyleSequences(ks[1..]) == [];
    assert ColorSequences(ks[1..]) == [y];
  }

  lemma ClassifiedPair(a: string, b: string)
    requires |a| > 0 && |b| > 0
    ensures Classified([a, b]) == [Classify(a), Classify(b)]
  {
    var ts := [a, b];
    var ks := Classified(ts);
    assert ks[0] == Classify(a) by { assert ts[0] == a; }
    assert ks[1] == Classify(b) by { assert ts[1] == b; }
  }

  /** `a, b` with a style word and then a colour word compiles to the
      style sequence followed by the colour sequence. */
  lemma StyleThenColorDescriptor(a: string, b: string, x: string, y: string)
    requires PlainWord(a) && PlainWord(b)
    requires Classify(a) == StyleToken(x) && Classify(b) == ColorToken(y)
    ensures ParseStyle(a + ", " + b) == Ok(x + y)
  {
    TwoTokens(a, b);
    ClassifiedPair(a, b);
    StyleThenColorText(a + ", " + b, x, y);
  }

  /** A descriptor whose tokens are a style and then a colour. */
  lemma StyleThenColorText(arg: string, x: string, y: string)
    requires Classified(Tokens(arg)) == [StyleToken(x), ColorToken(y)]
    ensures ParseStyle(arg) == Ok(x + y)
  {
    var ks := Classified(Tokens(arg));
    assert FirstUnrecognised(ks) == |ks| && StyleSequences(ks) == [x] && ColorSequences(ks) == [y] by {
      StyleThenColor(x, y);
    }
    assert ParseStyle(arg) == Ok(Concat([x]) + Concat([y])) by {
      ParseStyleMeaning(arg);
    }
    assert Concat([x]) == x && Concat([y]) == y;
  }

  lemma PlainBoldRed()
    ensures PlainWord("bold") && PlainWord("red")
  {
  }

  /** The descriptor `bold, red`: the bold sequence, then the red one. */
  lemma BoldRed(arg: string)
    requires arg == "bold" + ", " + "red"
    ensures ParseStyle(arg) == Ok(("\U{1b}[" + "1" + "m") + ("\U{1b}[" + "31" + "m"))
  {
    ClassifyBold();
    ClassifyRed();
    PlainBoldRed();
    StyleThenColorDescriptor("bold", "red", "\U{1b}[" + "1" + "m", "\U{1b}[" + "31" + "m");
  }

  /** `blue` is the colour with code 34. */
  lemma ClassifyBlue()
    ensures Classify("blue") == ColorToken("\U{1b}[" + "34" + "m")
  {
    BlueKeywords();
    ColorWord("blue", Blue);
  }

  /** `blue` is no number and no style keyword, and it names the colour. */
  lemma BlueKeywords()
    ensures ParseByte("blue").None? && StyleKeyword("blue").None? && ColorKeyword("blue") == Some(Blue)
  {
    ParseByteNonDigit("blue");
  }

  /** `notacolor` is no number, no `#` colour, no style and no colour name. */
  lemma ClassifyNotAColor()
    ensures Classify("notacolor") == Unrecognised
  {
    var t := "notacolor";
    ParseByteNonDigit(t);
    assert ParseNumberedColor(t).Err?;
    assert t[0] != '#';
    assert ParseRgbColor(t).Err?;
    assert StyleKeyword(t) == None;
    assert ColorKeyword(t) == None;
  }

  /** Hexadecimal channel examples. */
  lemma HexChannels()
    ensures ParseHexByte("ff") == Some(255) && ParseHexByte("00") == Some(0)
  {
    assert "ff"[..1] == "f" && "f"[..0] == "" && "00"[..1] == "0" && "0"[..0] == "";
    assert DigitsValue("ff", 16) == Some(255);
    assert DigitsValue("00", 16) == Some(0);
  }

  /** Decimal rendering examples. */
  lemma DecimalExamples()
    ensures Decimal(255) == "255" && Decimal(0) == "0"
  {
    assert Decimal(2) == "2" && Decimal(25) == Decimal(2) + "5" && Decimal(255) == Decimal(25) + "5";
  }

  lemma JoinFive(a: string, b: string, c: string, d: string, e: string, sep: string)
    ensures Join([a, b, c, d, e], sep) == a + sep + b + sep + c + sep + d + sep + e
  {
    var ps := [a, b, c, d, e];
    assert Join(ps[4..], sep) == e;
    assert Join(ps[3..], sep) == d + sep + e by { assert ps[3..][1..] == ps[4..]; }
    assert Join(ps[2..], sep) == c + sep + (d + sep + e) by { assert ps[2..][1..] == ps[3..]; }
    assert Join(ps[1..], sep) == b + sep + (c + sep + (d + sep + e)) by { assert ps[1..][1..] == ps[2..]; }
  }

  /** The sequence for `#ff00ff`: extended foreground, RGB mode, 255, 0, 255. */
  const MagentaSequenceText: string := Prefix + ("38" + ";" + "2" + ";" + "255" + ";" + "0" + ";" + "255") + Termination

  lemma MagentaSequence(red: Byte, green: Byte, blue: Byte)
    requires red == 255 && green == 0 && blue == 255
    ensures GenerateRgbSequence(Foreground, red, green, blue) == MagentaSequenceText
  {
    var e, dr, dg, db := ExtendedCode(Foreground), Decimal(red), Decimal(green), Decimal(blue);
    assert GenerateRgbSequence(Foreground, red, green, blue) == Prefix + Join([e, "2", dr, dg, db], ";") + Termination;
    JoinFive(e, "2", dr, dg, db, ";");
    DecimalExamples();
    assert e == "38";
  }

  /** `#ff00ff` is a truecolour token. */
  lemma ClassifyMagenta()
    ensures Classify("#ff00ff") == ColorToken(MagentaSequenceText)
  {
    var s := "#ff00ff";
    ParseByteNonDigit(s);
    assert s[1..3] == "ff" && s[3..5] == "00" && s[5..7] == "ff";
    HexChannels();
    ParseRgbColorIsHexColor(s);
    MagentaSequence(ParseHexByte(s[1..3]).value, ParseHexByte(s[3..5]).value, ParseHexByte(s[5..7]).value);
  }

  lemma ClassifiedOne(w: string, k: Token)
    requires |w| > 0 && Classify(w) == k
    ensures Classified([w]) == [k]
  {
  }

  /** A single word no class accepts is an error naming it. */
  lemma UnknownWordDescriptor(w: string)
    requires PlainWord(w) && Classify(w).Unrecognised?
    ensures ParseStyle(w) == Err(UnknownTokenMessage(w))
  {
    SingleToken(w);
    ClassifiedOne(w, Unrecognised);
    ParseStyleMeaning(w);
  }

  lemma ColorWordClassified(w: string, y: string)
    requires PlainWord(w) && Classify(w) == ColorToken(y)
    ensures Tokens(w) == [w] && Classified(Tokens(w)) == [ColorToken(y)]
  {
    SingleToken(w);
    ClassifiedOne(w, ColorToken(y));
  }

  lemma CollectOneColor(w: string, y: string)
    ensures CollectTokens([w], [ColorToken(y)], [], []) == Ok(([], [y]))
  {
    assert [w][1..] == [] && [ColorToken(y)][1..] == [];
    assert [] + [y] == [y];
  }

  /** A single colour word compiles to its colour sequence. */
  lemma ColorWordDescriptor(w: string, y: string)
    requires PlainWord(w) && Classify(w) == ColorToken(y)
    ensures ParseStyle(w) == Ok(y)
  {
    ColorWordClassified(w, y);
    CollectOneColor(w, y);
    assert Concat([] + [y]) == y;
  }

  /** `a, b` with two colour words is the too-many-colours error. */
  lemma TwoColorsDescriptor(a: string, b: string, x: string, y: string)
    requires PlainWord(a) && PlainWord(b)
    requires Classify(a) == ColorToken(x) && Classify(b) == ColorToken(y)
    ensures ParseStyle(a + ", " + b) == Err(TooManyColorsMessage(a + ", " + b))
  {
    TwoColorsClassified(a, b, x, y);
    TwoColorTokens(x, y);
    TooManyColorsOf(a + ", " + b, [ColorToken(x), ColorToken(y)]);
  }

  lemma TwoColorsClassified(a: string, b: string, x: string, y: string)
    requires PlainWord(a) && PlainWord(b)
    requires Classify(a) == ColorToken(x) && Classify(b) == ColorToken(y)
    ensures Classified(Tokens(a + ", " + b)) == [ColorToken(x), ColorToken(y)]
  {
    TwoTokens(a, b);
    ClassifiedPair(a, b);
  }

  lemma TwoColorTokens(x: string, y: string)
    ensures var ks := [ColorToken(x), ColorToken(y)];
            FirstUnrecognised(ks) == |ks| && |ColorSequences(ks)| > 1
  {
    var ks := [ColorToken(x), ColorToken(y)];
    assert ks[1..] == [ColorToken(y)] && ks[1..][1..] == [];
    assert ColorSequences(ks[1..]) == [y];
  }

  /** Recognised tokens with more than one colour among them are the
      too-many-colours error. */
  lemma TooManyColorsOf(arg: string, ks: seq<Token>)
    requires Classified(Tokens(arg)) == ks
    requires FirstUnrecognised(ks) == |ks| && |ColorSequences(ks)| > 1
    ensures ParseStyle(arg) == Err(TooManyColorsMessage(arg))
  {
    ParseStyleMeaning(arg);
  }

  lemma PlainExamples()
    ensures PlainWord("blue") && PlainWord("notacolor") && PlainWord("#ff00ff")
  {
  }

  /** The descriptor `red, blue` names two colours, which is an error. */
  lemma RedBlue(arg: string)
    requires arg == "red" + ", " + "blue"
    ensures ParseStyle(arg) == Err(TooManyColorsMessage(arg))
  {
    ClassifyRed();
    ClassifyBlue();
    PlainBoldRed();
    PlainExamples();
    TwoColorsDescriptor("red", "blue", "\U{1b}[" + "31" + "m", "\U{1b}[" + "34" + "m");
  }

  /** The descriptor `notacolor` is an error naming the token. */
  lemma NotAColor()
    ensures ParseStyle("notacolor") == Err(UnknownTokenMessage("notacolor"))
  {
    ClassifyNotAColor();
    PlainExamples();
    UnknownWordDescriptor("notacolor");
  }

  /** The descriptor `#ff00ff` compiles to one truecolour sequence. */
  lemma Magenta()
    ensures ParseStyle("#ff00ff") == Ok(MagentaSequenceText)
  {
    ClassifyMagenta();
    PlainExamples();
    ColorWordDescriptor("#ff00ff", MagentaSequenceText);
  }

  /** The descriptor `#aé123` makes `parse_style` as written panic in its
      red channel slice; the corrected parser reports the token instead. */
  lemma SplitCharacterDescriptor()
    ensures ParseStyleAsWritten("#a\U{e9}123") == Panicked
    ensures ParseStyle("#a\U{e9}123") == Err(UnknownTokenMessage("#a\U{e9}123"))
  {
    var w := "#a\U{e9}123";
    assert PlainWord(w);
    SingleToken(w);
    ParseByteNonDigit(w);
    RgbSliceSplitsCharacter();
    assert RgbPanics(w);
    PanicIsUnrecognised(w);
    ClassifiedOne(w, Unrecognised);
    ParseStyleAsWrittenAgrees(w);
    UnknownWordDescriptor(w);
  }
}
