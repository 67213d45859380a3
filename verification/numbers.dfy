/** Decimal rendering (`format!("{}", n)`) and Rust's parsing of unsigned
    integers (`str::parse::<u8>()`, `u8::from_str_radix`). */
module Numbers {
  import opened Results

  /** A Rust `u8`. */
  type Byte = n: nat | n < 256

  /** The value of `c` as a digit in `radix` (Rust's `char::to_digit`), for radix 2..36. */
  function DigitValue(c: char, radix: nat): (d: Option<nat>)
    requires 2 <= radix <= 36
    ensures d.Some? ==> d.value < radix
  {
    var v: int :=
      if '0' <= c <= '9' then c as int - '0' as int
      else if 'a' <= c <= 'z' then c as int - 'a' as int + 10
      else if 'A' <= c <= 'Z' then c as int - 'A' as int + 10
      else 36;
    if 0 <= v < radix then Some(v) else None
  }

  /** Every character of `ds` is a digit of `radix`. */
  predicate AllDigits(ds: string, radix: nat)
    requires 2 <= radix <= 36
  {
    forall i :: 0 <= i < |ds| ==> DigitValue(ds[i], radix).Some?
  }

  function Pow(b: nat, e: nat): nat
  {
    if e == 0 then 1 else b * Pow(b, e - 1)
  }

  /** The positional value of a run of digits: each digit weighted by the
      power of `radix` given by the number of digits after it. */
  function Positional(ds: string, radix: nat): nat
    requires 2 <= radix <= 36 && AllDigits(ds, radix)
  {
    if |ds| == 0 then 0
    else
      assert AllDigits(ds[1..], radix) by {
        forall i | 0 <= i < |ds| - 1 ensures DigitValue(ds[1..][i], radix).Some? {
          assert ds[1..][i] == ds[i + 1];
        }
      }
      DigitValue(ds[0], radix).value * Pow(radix, |ds| - 1) + Positional(ds[1..], radix)
  }

  /** Appending a digit multiplies the positional value by the radix and adds the digit. */
  lemma {:induction false} PositionalSnoc(ds: string, c: char, radix: nat)
    requires 2 <= radix <= 36 && AllDigits(ds, radix) && DigitValue(c, radix).Some?
    ensures AllDigits(ds + [c], radix)
    ensures Positional(ds + [c], radix) == Positional(ds, radix) * radix + DigitValue(c, radix).value
    decreases |ds|
  {
    var e := ds + [c];
    assert AllDigits(e, radix) by {
      forall i | 0 <= i < |e| ensures DigitValue(e[i], radix).Some? {
        if i < |ds| { assert e[i] == ds[i]; } else { assert e[i] == c; }
      }
    }
    if |ds| > 0 {
      assert e[0] == ds[0] && e[1..] == ds[1..] + [c];
      PositionalSnoc(ds[1..], c, radix);
      var d0 := DigitValue(ds[0], radix).value;
      var p := Pow(radix, |ds| - 1);
      var q := Positional(ds[1..], radix);
      var d := DigitValue(c, radix).value;
      assert Positional(e, radix) == d0 * Pow(radix, |ds|) + (q * radix + d);
      assert Positional(ds, radix) == d0 * p + q;
      ShiftDigit(d0, p, q, d, radix);
    } else {
      assert e == [c] && e[1..] == "";
    }
  }

  /** The arithmetic step of `PositionalSnoc`. */
  lemma ShiftDigit(d0: nat, p: nat, q: nat, d: nat, radix: nat)
    ensures d0 * (radix * p) + (q * radix + d) == (d0 * p + q) * radix + d
  {
    calc {
      (d0 * p + q) * radix + d;
      d0 * p * radix + q * radix + d;
      { assert d0 * p * radix == d0 * (radix * p); }
      d0 * (radix * p) + q * radix + d;
    }
  }

  /** The value of a run of digits read most significant first, or None
      when some character is not a digit of `radix`; the empty run reads as 0. */
  function DigitsValue(ds: string, radix: nat): (r: Option<nat>)
    requires 2 <= radix <= 36
    ensures r.Some? <==> AllDigits(ds, radix)
    ensures r.Some? ==> r.value == Positional(ds, radix)
    decreases |ds|
  {
    if |ds| == 0 then Some(0)
    else
      var init := ds[..|ds| - 1];
      var last := ds[|ds| - 1];
      assert ds == init + [last];
      match DigitsValue(init, radix)
      case None =>
        None
      case Some(high) =>
        match DigitValue(last, radix)
        case None => None
        case Some(low) =>
          PositionalSnoc(init, last, radix);
          Some(high * radix + low)
  }

  /** What `from_str_radix` reads as digits: `s` without one leading `+`. */
  function Unsigned(s: string): (d: string)
    ensures d == s || (|s| > 0 && s[0] == '+' && d == s[1..])
  {
    if |s| > 0 && s[0] == '+' then s[1..] else s
  }

  /** Rust's `from_str_radix` for an unsigned type whose largest value is `max`:
      an optional leading `+`, then at least one digit; `-` is never accepted;
      a value above `max` is an overflow error. */
  function ParseUnsigned(s: string, radix: nat, max: nat): (r: Option<nat>)
    requires 2 <= radix <= 36
    ensures r.Some? <==> (&& |Unsigned(s)| > 0 && AllDigits(Unsigned(s), radix)
                          && Positional(Unsigned(s), radix) <= max)
    ensures r.Some? ==> r.value == Positional(Unsigned(s), radix) && r.value <= max
    ensures r.Some? ==> |s| > 0 && s[0] != '-'
  {
    if |s| == 0 then None
    else
      var digits := if s[0] == '+' then s[1..] else s;
      if |digits| == 0 then None
      else
        match DigitsValue(digits, radix)
        case None => None
        case Some(v) => if v <= max then Some(v) else None
  }

  /** `str::parse::<u8>()`. */
  function ParseByte(s: string): (r: Option<Byte>)
  {
    match ParseUnsigned(s, 10, 255)
    case None => None
    case Some(v) => Some(v)
  }

  /** `u8::from_str_radix(s, 16)`. */
  function ParseHexByte(s: string): (r: Option<Byte>)
  {
    match ParseUnsigned(s, 16, 255)
    case None => None
    case Some(v) => Some(v)
  }

  /** The decimal digit for `d`. */
  function DigitChar(d: nat): char
    requires d < 10
  {
    ('0' as int + d) as char
  }

  /** Canonical decimal text: at least one digit, no sign, and no leading
      zero unless the number is zero itself. */
  predicate IsCanonicalDecimal(t: string) {
    && |t| >= 1
    && (forall i :: 0 <= i < |t| ==> '0' <= t[i] <= '9')
    && (|t| > 1 ==> t[0] != '0')
  }

  /** `format!("{}", n)`: decimal digits, no sign and no leading zero. */
  function Decimal(n: nat): (r: string)
    ensures IsCanonicalDecimal(r)
    decreases n
  {
    if n < 10 then [DigitChar(n)] else Decimal(n / 10) + [DigitChar(n % 10)]
  }

  /** Reading back a rendered number gives the number. */
  lemma {:induction false} DigitsOfDecimal(n: nat)
    ensures DigitsValue(Decimal(n), 10) == Some(n)
    decreases n
  {
    if n >= 10 {
      DigitsOfDecimal(n / 10);
      var s := Decimal(n);
      assert s[..|s| - 1] == Decimal(n / 10);
    }
  }

  lemma PowPositive(b: nat, e: nat)
    requires b >= 1
    ensures Pow(b, e) >= 1
  {
  }

  /** A decimal digit's value is its distance from `0`. */
  lemma DecimalDigit(c: char)
    requires '0' <= c <= '9'
    ensures DigitValue(c, 10) == Some(c as int - '0' as int)
    ensures DigitChar(c as int - '0' as int) == c
  {
  }

  /** Canonical decimal text whose value is `n` is the text `format!` gives
      for `n`: the rendering is the only canonical spelling of a number. */
  lemma {:induction false} CanonicalDecimalUnique(t: string, n: nat)
    requires IsCanonicalDecimal(t) && AllDigits(t, 10) && Positional(t, 10) == n
    ensures t == Decimal(n)
    decreases |t|
  {
    var init := t[..|t| - 1];
    var last := t[|t| - 1];
    assert t == init + [last];
    DecimalDigit(last);
    var d := last as int - '0' as int;
    if |t| == 1 {
      assert init == "";
      PositionalSnoc(init, last, 10);
    } else {
      assert IsCanonicalDecimal(init) && AllDigits(init, 10) by {
        assert forall i :: 0 <= i < |init| ==> init[i] == t[i];
      }
      PositionalSnoc(init, last, 10);
      var high := Positional(init, 10);
      LeadingDigitPositive(init);
      CanonicalDecimalUnique(init, high);
      SplitLastDigit(n, high, d);
    }
  }

  /** A number written with a leading digit other than `0` is not zero. */
  lemma LeadingDigitPositive(t: string)
    requires IsCanonicalDecimal(t) && AllDigits(t, 10) && t[0] != '0'
    ensures Positional(t, 10) >= 1
  {
    DecimalDigit(t[0]);
    PowPositive(10, |t| - 1);
  }

  /** Appending digit `d` to a positive number makes the rendering of the
      number followed by `d`. */
  lemma SplitLastDigit(n: nat, high: nat, d: nat)
    requires d < 10 && high >= 1 && n == high * 10 + d
    ensures Decimal(n) == Decimal(high) + [DigitChar(d)]
  {
    assert n / 10 == high && n % 10 == d;
  }

  /** The text `format!` gives for `n` has value `n`, and no other canonical
      decimal text does. */
  lemma DecimalIsCanonical(n: nat, t: string)
    ensures DigitsValue(Decimal(n), 10) == Some(n)
    ensures IsCanonicalDecimal(t) && DigitsValue(t, 10) == Some(n) ==> t == Decimal(n)
  {
    DigitsOfDecimal(n);
    if IsCanonicalDecimal(t) && DigitsValue(t, 10) == Some(n) {
      CanonicalDecimalUnique(t, n);
    }
  }

  /** `str::parse::<u8>()` inverts `format!("{}", n)` on every `u8`. */
  lemma ParseByteDecimal(n: Byte)
    ensures ParseByte(Decimal(n)) == Some(n)
  {
    DigitsOfDecimal(n);
    assert Decimal(n)[0] != '+';
  }

  /** Leading zeros and one leading `+` are accepted, as Rust does. */
  lemma ParseByteAccepts()
    ensures ParseByte("+5") == Some(5)
    ensures ParseByte("007") == Some(7)
    ensures ParseByte("255") == Some(255)
  {
    assert "+5"[1..] == "5" && "5"[..0] == "";
    assert DigitsValue("5", 10) == Some(5);
    assert "007"[..2] == "00" && "00"[..1] == "0";
    assert DigitsValue("00", 10) == Some(0);
    assert DigitsValue("007", 10) == Some(7);
    assert "255"[..2] == "25" && "25"[..1] == "2";
    assert DigitsValue("25", 10) == Some(25);
    assert DigitsValue("255", 10) == Some(255);
  }

  /** Values past 255, a lone sign and a minus sign are refused. */
  lemma ParseByteRefuses()
    ensures ParseByte("256") == None
    ensures ParseByte("+") == None
    ensures ParseByte("-0") == None
  {
    assert "256"[..2] == "25" && "25"[..1] == "2";
    assert "+"[1..] == "";
    assert "-0"[..1] == "-";
  }

  /** A text that starts with neither `+` nor a digit is no number. */
  lemma ParseByteNonDigit(s: string)
    requires |s| > 0 && s[0] != '+' && DigitValue(s[0], 10).None?
    ensures ParseByte(s) == None
  {
    assert Unsigned(s) == s;
  }

  /** Whatever `from_str_radix` accepts is plain ASCII (a sign or digits). */
  lemma ParsedIsAscii(s: string, radix: nat, max: nat)
    requires 2 <= radix <= 36
    requires ParseUnsigned(s, radix, max).Some?
    ensures forall i :: 0 <= i < |s| ==> s[i] as int < 0x80
  {
    var digits := if s[0] == '+' then s[1..] else s;
    assert forall i :: 0 <= i < |digits| ==> DigitValue(digits[i], radix).Some?;
    forall i | 0 <= i < |s|
      ensures s[i] as int < 0x80
    {
      if s[0] == '+' && i > 0 {
        assert s[i] == digits[i - 1];
      }
    }
  }
}
