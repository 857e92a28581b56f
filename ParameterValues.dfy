/**
 * The typed accessors of the parameter store, as decisions over the looked-up value: `None`
 * is a missing parameter (the lookup yields null), `Some(s)` a present one, already trimmed.
 */
module ParameterValues {
  import opened Wrappers
  import opened Strings
  import opened NumberParsing

  /** GetInt(p) / GetLong(p): a missing parameter is a format error, a present one is parsed and
      any parse error is raised. */
  function Strict(v: Option<string>, w: Width): (r: Result<int, ParseFailure>)
    ensures v.None? ==> r == Err(FormatError)
    ensures r.Ok? ==> v.Some? && w.InRange(r.value)
  {
    match v
    case None => Err(FormatError)
    case Some(s) => ParseInteger(s, w)
  }

  /** The error value `minValue - 1` of the bounded accessors, in unchecked arithmetic. */
  function Sentinel(minValue: int, w: Width): int {
    Wrap(minValue - 1, w)
  }

  /** GetInt(p, minValue) / GetLong(p, minValue). Only format errors are caught. */
  function AtLeast(v: Option<string>, minValue: int, w: Width): (r: Result<int, ParseFailure>)
    ensures r.Ok? ==> r.value >= minValue || r.value == Sentinel(minValue, w)
    ensures r.Ok? && r.value != Sentinel(minValue, w) ==> v.Some? && r == ParseInteger(v.value, w)
    ensures r.Err? ==> v.Some? && r.error != FormatError
  {
    match v
    case None => Ok(Sentinel(minValue, w))
    case Some(s) =>
      match ParseInteger(s, w)
      case Ok(i) => if i < minValue then Ok(Sentinel(minValue, w)) else Ok(i)
      case Err(FormatError) => Ok(Sentinel(minValue, w))
      case Err(e) => Err(e)
  }

  /** GetIntWithMax / GetLongWithMax. Only format errors are caught. */
  function Within(v: Option<string>, minValue: int, maxValue: int, w: Width): (r: Result<int, ParseFailure>)
    ensures r.Ok? ==> minValue <= r.value <= maxValue || r.value == Sentinel(minValue, w)
    ensures r.Ok? && r.value != Sentinel(minValue, w) ==> v.Some? && r == ParseInteger(v.value, w)
    ensures r.Err? ==> v.Some? && r.error != FormatError
  {
    match v
    case None => Ok(Sentinel(minValue, w))
    case Some(s) =>
      match ParseInteger(s, w)
      case Ok(i) => if i < minValue || i > maxValue then Ok(Sentinel(minValue, w)) else Ok(i)
      case Err(FormatError) => Ok(Sentinel(minValue, w))
      case Err(e) => Err(e)
  }

  /** GetIntWithDefault / GetLongWithDefault. Only format errors are caught. */
  function WithDefault(v: Option<string>, defaultValue: int, w: Width): (r: Result<int, ParseFailure>)
    ensures v.None? ==> r == Ok(defaultValue)
    ensures r.Ok? && r.value != defaultValue ==> v.Some? && r == ParseInteger(v.value, w)
    ensures r.Err? ==> v.Some? && r.error != FormatError
  {
    match v
    case None => Ok(defaultValue)
    case Some(s) =>
      match ParseInteger(s, w)
      case Err(FormatError) => Ok(defaultValue)
      case r => r
  }

  /** GetBoolean: the default when missing, otherwise false exactly for "false" in any case. */
  function BooleanSetting(v: Option<string>, defaultValue: bool): (b: bool)
    ensures v.None? ==> b == defaultValue
    ensures v.Some? && !b ==> |v.value| == 5
    ensures v == Some("false") ==> !b
  {
    match v
    case None => defaultValue
    case Some(s) => ToLower(s) != "false"
  }

  /** GetStringWithDefault: the value trimmed, or the trimmed default (null stays null) when the
      value is missing or trims to nothing. */
  function StringWithDefault(v: Option<string>, defaultValue: Option<string>): (r: Option<string>)
    ensures r.Some? ==> Trim(r.value) == r.value
    ensures v.Some? && |Trim(v.value)| > 0 ==> r == Some(Trim(v.value))
    ensures r.None? ==> defaultValue.None?
    ensures v.None? || |Trim(v.value)| == 0 ==>
      r == if defaultValue.None? then None else Some(Trim(defaultValue.value))
  {
    TrimIdempotent(if v.Some? then v.value else []);
    TrimIdempotent(if defaultValue.Some? then defaultValue.value else []);
    var fallback := match defaultValue case None => None case Some(d) => Some(Trim(d));
    match v
    case None => fallback
    case Some(s) => if |Trim(s)| == 0 then fallback else Some(Trim(s))
  }

  // ---------------------------------------------------------------------------------------

  /** The defaulted accessor catches exactly the errors the strict accessor reports as format
      errors, and agrees with it everywhere else. */
  lemma DefaultCatchesFormatErrors(v: Option<string>, defaultValue: int, w: Width)
    ensures WithDefault(v, defaultValue, w) ==
      if Strict(v, w) == Err(FormatError) then Ok(defaultValue) else Strict(v, w)
  {
  }

  /**
   * When `minValue - 1` does not wrap, a result of at least `minValue` is exactly a parsed value
   * of at least `minValue`; every smaller result is the sentinel; and the accessor fails only
   * when the parser raises an overflow or argument error.
   */
  lemma AtLeastSentinel(v: Option<string>, minValue: int, w: Width)
    requires w.InRange(minValue) && minValue > w.MinValue()
    ensures var r := AtLeast(v, minValue, w);
      (r.Ok? && r.value >= minValue) <==>
      (v.Some? && ParseInteger(v.value, w).Ok? && ParseInteger(v.value, w).value >= minValue)
    ensures var r := AtLeast(v, minValue, w);
      r.Ok? && r.value >= minValue ==> r == ParseInteger(v.value, w)
    ensures var r := AtLeast(v, minValue, w);
      r.Ok? && r.value < minValue ==> r.value == minValue - 1
    ensures AtLeast(v, minValue, w).Err? <==> v.Some? && ParseInteger(v.value, w).Err? && ParseInteger(v.value, w).error != FormatError
  {
  }

  /** As AtLeastSentinel, for the accessor with both bounds. */
  lemma WithinSentinel(v: Option<string>, minValue: int, maxValue: int, w: Width)
    requires w.InRange(minValue) && minValue > w.MinValue()
    ensures var r := Within(v, minValue, maxValue, w);
      (r.Ok? && r.value >= minValue) <==>
      (v.Some? && ParseInteger(v.value, w).Ok? && minValue <= ParseInteger(v.value, w).value <= maxValue)
    ensures var r := Within(v, minValue, maxValue, w);
      r.Ok? && r.value >= minValue ==> r == ParseInteger(v.value, w) && r.value <= maxValue
    ensures var r := Within(v, minValue, maxValue, w);
      r.Ok? && r.value < minValue ==> r.value == minValue - 1
    ensures Within(v, minValue, maxValue, w).Err? <==> v.Some? && ParseInteger(v.value, w).Err? && ParseInteger(v.value, w).error != FormatError
  {
  }

  /** At the width's minimum the sentinel wraps to the maximum, so a missing parameter cannot be
      told apart from a parameter holding the maximum value. */
  lemma SentinelWrapsAtMinimum(w: Width)
    ensures AtLeast(None, w.MinValue(), w) == Ok(w.MaxValue())
    ensures AtLeast(Some(DecimalString(w.MaxValue())), w.MinValue(), w) == Ok(w.MaxValue())
  {
    var m := w.MaxValue();
    assert Sentinel(w.MinValue(), w) == m;
    ParseDecimalRoundTrip(m, w);
    ParsedAtLeast(DecimalString(m), w.MinValue(), w);
  }

  /** A parse that succeeds with at least `minValue` is what the bounded accessor returns. */
  lemma ParsedAtLeast(s: string, minValue: int, w: Width)
    requires ParseInteger(s, w).Ok? && ParseInteger(s, w).value >= minValue
    ensures AtLeast(Some(s), minValue, w) == ParseInteger(s, w)
  {
  }

  lemma BooleanSpellings()
    ensures !BooleanSetting(Some("FALSE"), true) && !BooleanSetting(Some("False"), true)
    ensures BooleanSetting(Some("no"), false) && BooleanSetting(Some("0"), false)
  {
    assert ToLower("FALSE") == "false";
    assert ToLower("False") == "false";
    assert ToLower("no")[0] == 'n';
    assert ToLower("0")[0] == '0';
  }

  /** A present value reads false exactly when it spells "false" with each letter in either case. */
  lemma BooleanSettingFalseIff(s: string, defaultValue: bool)
    ensures !BooleanSetting(Some(s), defaultValue) <==>
      |s| == 5 && forall i :: 0 <= i < 5 ==> s[i] == "false"[i] || s[i] == "FALSE"[i]
  {
  }

  /** A value that is already trimmed and non-empty is returned as it is. */
  lemma StringWithDefaultKeepsValue(s: string, defaultValue: Option<string>)
    requires |s| > 0 && Trim(s) == s
    ensures StringWithDefault(Some(s), defaultValue) == Some(s)
  {
  }
}
