/**
 * `ParseInt` and `ParseLong` of the parameter store (ParametersTree_LOW.cs), one parser
 * parameterised by the integer width, together with the three .NET parsers they call:
 * `int.Parse`/`Int64.Parse` (decimal), `Convert.ToInt32/ToInt64(s, 16)` (hexadecimal) and the
 * `Double.Parse` fallback that accepts literals such as "4.0".
 */
module NumberParsing {
  import opened Wrappers

  /** The two widths: `int` for ParseInt and `long` for ParseLong. */
  datatype Width = Int32 | Int64 {
    function Modulus(): (m: nat)
      ensures m > 0
    {
      if Int32? then 0x1_0000_0000 else 0x1_0000_0000_0000_0000
    }

    function MinValue(): int {
      if Int32? then -0x8000_0000 else -0x8000_0000_0000_0000
    }

    function MaxValue(): int {
      if Int32? then 0x7FFF_FFFF else 0x7FFF_FFFF_FFFF_FFFF
    }

    predicate InRange(x: int) {
      MinValue() <= x <= MaxValue()
    }
  }

  /** Unchecked C# arithmetic: `x` reduced into the width's two's-complement range. */
  function Wrap(x: int, w: Width): (r: int)
    ensures w.InRange(r)
    ensures (x - r) % w.Modulus() == 0
    ensures w.InRange(x) ==> r == x
  {
    (x - w.MinValue()) % w.Modulus() + w.MinValue()
  }

  /** The exceptions the .NET parsers raise: FormatException, OverflowException and
      ArgumentException (including ArgumentOutOfRangeException). */
  datatype ParseFailure = FormatError | OverflowError | ArgumentError

  /** The value of a digit character in bases up to 16, or -1. */
  function DigitValue(c: char): (d: int)
    ensures -1 <= d < 16
  {
    if '0' <= c <= '9' then c as int - '0' as int
    else if 'a' <= c <= 'f' then c as int - 'a' as int + 10
    else if 'A' <= c <= 'F' then c as int - 'A' as int + 10
    else -1
  }

  predicate IsDigit(c: char, base: nat) {
    0 <= DigitValue(c) < base
  }

  predicate AllDigits(s: string, base: nat) {
    forall i :: 0 <= i < |s| ==> IsDigit(s[i], base)
  }

  /** The number of leading characters of `s` that are digits of `base`. */
  function LeadingDigits(s: string, base: nat): (n: nat)
    ensures n <= |s| && AllDigits(s[..n], base)
    ensures n < |s| ==> !IsDigit(s[n], base)
  {
    if s != [] && IsDigit(s[0], base) then 1 + LeadingDigits(s[1..], base) else 0
  }

  /** The value of a run of digits, most significant first. */
  function DigitsValue(s: string, base: nat): nat
    requires AllDigits(s, base)
  {
    if s == [] then 0 else DigitsValue(s[..|s| - 1], base) * base + DigitValue(s[|s| - 1])
  }

  function Pow(base: nat, e: nat): (r: nat)
    ensures base > 0 ==> r > 0
  {
    if e == 0 then 1 else base * Pow(base, e - 1)
  }

  /** `int.Parse(text)` / `Int64.Parse(text)` on trimmed text: an optional sign followed by decimal digits. */
  function ParseDecimal(text: string, w: Width): (r: Result<int, ParseFailure>)
    ensures r.Ok? ==> w.InRange(r.value)
    ensures r.Err? ==> r.error != ArgumentError
  {
    var signed := |text| > 0 && (text[0] == '-' || text[0] == '+');
    var digits := if signed then text[1..] else text;
    if |digits| == 0 || !AllDigits(digits, 10) then Err(FormatError)
    else
      var magnitude: int := DigitsValue(digits, 10);
      var v := if signed && text[0] == '-' then -magnitude else magnitude;
      if w.InRange(v) then Ok(v) else Err(OverflowError)
  }

  /** `Convert.ToInt32(s, 16)` / `Convert.ToInt64(s, 16)`: an empty string or a minus sign is an
      argument error; an optional '+' and "0x"/"0X" prefix may precede the digits; a digit run
      worth 2^width or more overflows, otherwise it is read as a two's-complement bit pattern;
      no digits, or anything after them, is a format error. */
  function ParseHex(s: string, w: Width): (r: Result<int, ParseFailure>)
    ensures r.Ok? ==> w.InRange(r.value)
  {
    if |s| == 0 || s[0] == '-' then Err(ArgumentError)
    else
      var i := if s[0] == '+' then 1 else 0;
      var j := if i + 1 < |s| && s[i] == '0' && (s[i + 1] == 'x' || s[i + 1] == 'X') then i + 2 else i;
      var run := LeadingDigits(s[j..], 16);
      if run == 0 then Err(FormatError)
      else
        var magnitude := DigitsValue(s[j..][..run], 16);
        if magnitude >= w.Modulus() then Err(OverflowError)
        else if j + run < |s| then Err(FormatError)
        else Ok(Wrap(magnitude, w))
  }

  /** A decimal floating-point literal as the `Double.Parse` fallback reads it; its value is
      exactly (-1)^negative * mantissa * 10^exponent. */
  datatype DecimalLiteral = DecimalLiteral(negative: bool, mantissa: nat, exponent: int)

  /** Reads `[+|-] digits [. digits] [(e|E) [+|-] digits]` with at least one mantissa digit. */
  function ParseDecimalLiteral(text: string): (r: Option<DecimalLiteral>)
    ensures r.Some? ==> |text| > 0 && (r.value.negative <==> text[0] == '-')
  {
    var negative := |text| > 0 && text[0] == '-';
    var rest := if |text| > 0 && (text[0] == '-' || text[0] == '+') then text[1..] else text;
    var n := LeadingDigits(rest, 10);
    var whole := rest[..n];
    var rest := rest[n..];
    var hasPoint := |rest| > 0 && rest[0] == '.';
    var rest := if hasPoint then rest[1..] else rest;
    var m := LeadingDigits(rest, 10);
    var fraction := rest[..m];
    var rest := rest[m..];
    if |whole| + |fraction| == 0 then None
    else
      var mantissa := DigitsValue(whole + fraction, 10);
      if |rest| == 0 then Some(DecimalLiteral(negative, mantissa, -|fraction|))
      else if rest[0] != 'e' && rest[0] != 'E' then None
      else
        var expText := rest[1..];
        var expNegative := |expText| > 0 && expText[0] == '-';
        var expDigits := if |expText| > 0 && (expText[0] == '-' || expText[0] == '+') then expText[1..] else expText;
        if |expDigits| == 0 || !AllDigits(expDigits, 10) then None
        else
          var e: int := DigitsValue(expDigits, 10);
          Some(DecimalLiteral(negative, mantissa, (if expNegative then -e else e) - |fraction|))
  }

  /** A plain run of decimal digits is a literal with exponent 0 whose value is the run's. */
  lemma DigitRunLiteral(s: string)
    requires |s| > 0 && AllDigits(s, 10)
    ensures ParseDecimalLiteral(s) == Some(DecimalLiteral(false, DigitsValue(s, 10), 0))
    ensures IntegralValue(DecimalLiteral(false, DigitsValue(s, 10), 0)) == Some(DigitsValue(s, 10))
  {
    LeadingDigitsOfDigits(s, 10);
    assert IsDigit(s[0], 10);
    assert s[..|s|] == s && s[|s|..] == [];
    assert s + [] == s;
    assert LeadingDigits([], 10) == 0;
  }

  /** The integer a literal denotes, when it denotes one. */
  function IntegralValue(d: DecimalLiteral): Option<int>
  {
    var magnitude :=
      if d.exponent >= 0 then Some(d.mantissa * Pow(10, d.exponent))
      else if d.mantissa % Pow(10, -d.exponent) == 0 then Some(d.mantissa / Pow(10, -d.exponent))
      else None;
    match magnitude
    case None => None
    case Some(k) => Some(if d.negative then -k else k)
  }

  /**
   * ParseInt (w == Int32) and ParseLong (w == Int64). Hexadecimal is chosen only for a leading
   * lower-case 'x': the source assigns 'x' to `c` before testing `c == 'X'`, so that test never
   * holds. Otherwise the text is decimal; when decimal parsing raises a format error, the text
   * is accepted if it is a floating-point literal equal to its integer cast, and the original
   * format error is raised otherwise. Overflow and argument errors are not caught.
   */
  function ParseInteger(text: string, w: Width): (r: Result<int, ParseFailure>)
    ensures r.Ok? ==> w.InRange(r.value)
    ensures (|text| == 0 || text[0] != 'x') ==> r.Err? ==> r.error != ArgumentError
  {
    if |text| > 0 && text[0] == 'x' then ParseHex(text[1..], w)
    else
      match ParseDecimal(text, w)
      case Ok(v) => Ok(v)
      case Err(FormatError) =>
        (match ParseDecimalLiteral(text)
         case Some(d) =>
           (match IntegralValue(d)
            case Some(v) => if w.InRange(v) then Ok(v) else Err(FormatError)
            case None => Err(FormatError))
         case None => Err(FormatError))
      case Err(e) => Err(e)
  }

  // ---------------------------------------------------------------------------------------
  // Printing, the partner of parsing: every in-range value is read back from its decimal
  // form and from the hexadecimal form of its bit pattern.

  function DigitChar(d: nat): (c: char)
    requires d < 16
    ensures DigitValue(c) == d
  {
    if d < 10 then ('0' as int + d) as char else ('a' as int + d - 10) as char
  }

  /** The two bases the store reads and prints. */
  predicate IsBase(base: nat) {
    base == 10 || base == 16
  }

  lemma DivideByBase(n: nat, base: nat)
    requires IsBase(base) && n >= base
    ensures 0 < n / base < n && n % base < base
    ensures n == n / base * base + n % base
  {
  }

  /** The shortest digit string of `n` in `base`. */
  function Digits(n: nat, base: nat): (s: string)
    requires IsBase(base)
    ensures |s| > 0 && AllDigits(s, base)
    decreases n
  {
    if n < base then [DigitChar(n)]
    else
      DivideByBase(n, base);
      Digits(n / base, base) + [DigitChar(n % base)]
  }

  /** C#'s `ToString()` of an integer. */
  function DecimalString(v: int): string {
    if v < 0 then "-" + Digits(-v, 10) else Digits(v, 10)
  }

  /** The unsigned bit pattern of `v`, as a hexadecimal string. */
  function HexString(v: int, w: Width): string {
    Digits(v % w.Modulus(), 16)
  }

  lemma {:induction false} DigitsValueOfDigits(n: nat, base: nat)
    requires IsBase(base)
    ensures DigitsValue(Digits(n, base), base) == n
    decreases n
  {
    var s := Digits(n, base);
    if n >= base {
      DivideByBase(n, base);
      DigitsValueOfDigits(n / base, base);
      assert s[..|s| - 1] == Digits(n / base, base);
    }
  }

  lemma {:induction false} ParseDecimalRoundTrip(v: int, w: Width)
    requires w.InRange(v)
    ensures ParseInteger(DecimalString(v), w) == Ok(v)
  {
    var text := DecimalString(v);
    if v < 0 {
      DigitsValueOfDigits(-v, 10);
      assert text[0] == '-' && text[1..] == Digits(-v, 10);
      assert ParseDecimal(text, w) == Ok(v);
    } else {
      DigitsValueOfDigits(v, 10);
      assert IsDigit(text[0], 10);
      assert ParseDecimal(text, w) == Ok(v);
    }
  }

  lemma WrapOfBitPattern(v: int, w: Width)
    requires w.InRange(v)
    ensures Wrap(v % w.Modulus(), w) == v
  {
    var m := w.Modulus();
    if v < 0 {
      assert v % m == v + m;
    } else {
      assert v % m == v;
    }
  }

  lemma {:induction false} LeadingDigitsOfDigits(s: string, base: nat)
    requires AllDigits(s, base)
    ensures LeadingDigits(s, base) == |s|
  {
    if s != [] {
      LeadingDigitsOfDigits(s[1..], base);
    }
  }

  /** A bare run of hexadecimal digits, worth less than 2^width, is read as its bit pattern. */
  lemma HexOfDigitRun(digits: string, w: Width)
    requires |digits| > 0 && AllDigits(digits, 16) && DigitsValue(digits, 16) < w.Modulus()
    ensures ParseHex(digits, w) == Ok(Wrap(DigitsValue(digits, 16), w))
  {
    assert IsDigit(digits[0], 16);
    assert digits[0] != '-' && digits[0] != '+';
    assert !(1 < |digits| && digits[0] == '0' && (digits[1] == 'x' || digits[1] == 'X')) by {
      if 1 < |digits| {
        assert IsDigit(digits[1], 16);
      }
    }
    LeadingDigitsOfDigits(digits, 16);
    assert digits[0..][..|digits|] == digits;
  }

  lemma {:induction false} ParseHexRoundTrip(v: int, w: Width)
    requires w.InRange(v)
    ensures ParseInteger("x" + HexString(v, w), w) == Ok(v)
  {
    var u := v % w.Modulus();
    var digits := Digits(u, 16);
    assert ("x" + digits)[1..] == digits;
    DigitsValueOfDigits(u, 16);
    HexOfDigitRun(digits, w);
    WrapOfBitPattern(v, w);
  }

  // ---------------------------------------------------------------------------------------
  // Particular inputs.

  lemma LowerXIsHex()
    ensures ParseInteger("x1A", Int32) == Ok(26)
  {
    var s := "1A";
    assert "x1A"[1..] == s;
    assert LeadingDigits(s, 16) == 2;
    assert s[0..][..2] == s;
    assert DigitsValue(s, 16) == 26 by {
      assert s[..1] == "1";
      assert "1"[..0] == [];
    }
  }

  /** An upper-case 'X' prefix is not hexadecimal: the text goes to the decimal parser. */
  lemma UpperXIsNotHex()
    ensures ParseInteger("X1A", Int32) == Err(FormatError)
  {
    var s := "X1A";
    assert !IsDigit(s[0], 10);
    assert LeadingDigits(s, 10) == 0;
    assert s[0..] == s && s[..0] == [];
  }

  // ---------------------------------------------------------------------------------------
  // The hexadecimal prefix as intended: `x` or `X`.

  /** ParseInt and ParseLong with the prefix test the code evidently means: a leading `x` or
      `X` selects hexadecimal. Every other text is read as ParseInteger reads it. */
  function ParseIntegerIntended(text: string, w: Width): (r: Result<int, ParseFailure>)
    ensures r.Ok? ==> w.InRange(r.value)
    ensures (|text| == 0 || (text[0] != 'x' && text[0] != 'X')) ==> r.Err? ==> r.error != ArgumentError
  {
    if |text| > 0 && text[0] == 'X' then ParseHex(text[1..], w) else ParseInteger(text, w)
  }

  /** The intended parse differs from the code only on texts that start with `X`. */
  lemma IntendedDiffersOnlyOnUpperX(text: string, w: Width)
    ensures ParseIntegerIntended(text, w) != ParseInteger(text, w) ==> |text| > 0 && text[0] == 'X'
    ensures ParseIntegerIntended("X1A", Int32) == Ok(26) != ParseInteger("X1A", Int32)
  {
    UpperXIsNotHex();
    LowerXIsHex();
    assert "X1A"[1..] == "x1A"[1..];
  }

  /** Every in-range integer, written as either prefix and its hexadecimal bit pattern, is
      read back by the intended parse. */
  lemma {:induction false} IntendedHexRoundTrip(v: int, w: Width, prefix: char)
    requires w.InRange(v) && (prefix == 'x' || prefix == 'X')
    ensures ParseIntegerIntended([prefix] + HexString(v, w), w) == Ok(v)
  {
    var u := v % w.Modulus();
    var digits := Digits(u, 16);
    assert ([prefix] + digits)[1..] == digits;
    DigitsValueOfDigits(u, 16);
    HexOfDigitRun(digits, w);
    WrapOfBitPattern(v, w);
  }

  /** "4.0" is not a decimal integer, but as a floating-point literal it equals its integer cast. */
  lemma IntegralFloatingLiteral()
    ensures ParseInteger("4.0", Int32) == Ok(4)
  {
    var a := "4.0";
    assert !IsDigit(a[1], 10);
    assert ParseDecimal(a, Int32) == Err(FormatError);
    assert LeadingDigits(a, 10) == 1 by {
      assert a[1..] == ".0";
    }
    assert a[..1] == "4" && a[1..] == ".0" && ".0"[1..] == "0";
    assert LeadingDigits("0", 10) == 1 && "0"[..1] == "0" && "0"[1..] == [];
    assert DigitsValue("40", 10) == 40 by {
      assert "40"[..1] == "4" && "4"[..0] == [];
    }
    assert "4" + "0" == "40";
    assert ParseDecimalLiteral(a) == Some(DecimalLiteral(false, 40, -1));
    assert IntegralValue(DecimalLiteral(false, 40, -1)) == Some(4);
  }

  /** "4.5" is a floating-point literal that does not equal its integer cast: a format error. */
  lemma FractionalFloatingLiteral()
    ensures ParseInteger("4.5", Int32) == Err(FormatError)
  {
    var b := "4.5";
    assert !IsDigit(b[1], 10);
    assert ParseDecimal(b, Int32) == Err(FormatError);
    assert LeadingDigits(b, 10) == 1 by {
      assert b[1..] == ".5";
    }
    assert b[..1] == "4" && b[1..] == ".5" && ".5"[1..] == "5";
    assert LeadingDigits("5", 10) == 1 && "5"[..1] == "5" && "5"[1..] == [];
    assert DigitsValue("45", 10) == 45 by {
      assert "45"[..1] == "4" && "4"[..0] == [];
    }
    assert "4" + "5" == "45";
    assert ParseDecimalLiteral(b) == Some(DecimalLiteral(false, 45, -1));
    assert IntegralValue(DecimalLiteral(false, 45, -1)) == None;
  }
}
