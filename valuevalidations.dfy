/** The static class `ValueValidations` (src/Utils/ValueValidations.cs): a
    flag-driven check of a loosely typed value (a C# `object?`) and a search for
    markup and URL fragments that must not appear in user input. Each regular
    expression of the class is written out as a predicate over strings. */
module ValueValidations {
  import opened Outcomes

  // ---------------------------------------------------------------------------
  // Values and flags
  // ---------------------------------------------------------------------------

  /** A .NET `double`. Signed zero is not distinguished: `-0.0` equals `0.0`
      and is not negative, both under `Equals` and under `>= 0`. */
  datatype Double = Finite(r: real) | Infinity(negative: bool) | NaN

  /** The boxed value passed as `object?`. `OtherValue` stands for any object
      that is neither an `int`, a `double` nor a `string` (a `long`, a `float`,
      a list, ...); objects of that kind are equal when their ids are. */
  datatype Value =
    | Null
    | IntValue(i: int32)
    | DoubleValue(d: Double)
    | StringValue(s: string)
    | OtherValue(id: nat)

  /** The optional arguments of `Check` and `CheckGlobalCSS`. */
  datatype Flags = Flags(
    stringPercentage: bool,
    stringRem: bool,
    stringPixel: bool,
    stringInt: bool,
    stringDouble: bool,
    allowDouble: bool,
    allowInt: bool,
    allowNull: bool,
    allowNegative: bool)

  /** Every optional argument at its default, `false`. */
  const NoFlags := Flags(false, false, false, false, false, false, false, false, false)

  const NullNotAllowed: string := "Null value not allowed"
  const IntNotAllowed: string := "Int value not allowed"
  const NegativeNotAllowed: string := "Negative value not allowed"
  const DoubleNotAllowed: string := "Double value not allowed"
  const InvalidString: string := "Invalid string value"
  const InvalidType: string := "Invalid type"

  /** The CSS-wide keywords `CheckGlobalCSS` always accepts. */
  const GlobalKeywords: set<Value> :=
    {StringValue("initial"), StringValue("inherit"), StringValue("unset"),
     StringValue("revert"), StringValue("revert-layer")}

  /** `doubleValue >= 0`: false for NaN and for negative infinity. */
  predicate IsNonNegative(d: Double) {
    match d
    case Finite(r) => r >= 0.0
    case Infinity(negative) => !negative
    case NaN => false
  }

  predicate AnyStringFlag(f: Flags) {
    f.stringPixel || f.stringRem || f.stringPercentage || f.stringInt || f.stringDouble
  }

  /** Whether the double rules apply to a string: `stringInt || stringDouble`
      once percentages and rems have switched `stringDouble` on. */
  predicate DoubleRulesApply(f: Flags) {
    f.stringInt || f.stringDouble || f.stringPercentage || f.stringRem
  }

  // ---------------------------------------------------------------------------
  // String.TrimStart(char) and String.TrimEnd(char)
  // ---------------------------------------------------------------------------

  /** `s.TrimStart(c)`: every leading `c` removed. */
  function TrimStartChar(s: string, c: char): (r: string)
    ensures |r| <= |s| && r == s[|s| - |r|..]
    ensures forall i :: 0 <= i < |s| - |r| ==> s[i] == c
    ensures |r| > 0 ==> r[0] != c
    decreases |s|
  {
    if |s| > 0 && s[0] == c then TrimStartChar(s[1..], c) else s
  }

  /** `s.TrimEnd(c)`: every trailing `c` removed. */
  function TrimEndChar(s: string, c: char): (r: string)
    ensures |r| <= |s| && r == s[..|r|]
    ensures forall i :: |r| <= i < |s| ==> s[i] == c
    ensures |r| > 0 ==> r[|r| - 1] != c
    decreases |s|
  {
    if |s| > 0 && s[|s| - 1] == c then TrimEndChar(s[..|s| - 1], c) else s
  }

  /** The text the numeric patterns see: lines 78-93 of `Check`. */
  function Normalized(s: string, f: Flags): string {
    var unsigned := if f.allowNegative then TrimStartChar(s, '-') else s;
    var noPercent := if f.stringPercentage then TrimEndChar(unsigned, '%') else unsigned;
    if f.stringRem then TrimEndChar(TrimEndChar(TrimEndChar(noPercent, 'm'), 'e'), 'r') else noPercent
  }

  // ---------------------------------------------------------------------------
  // The numeric patterns
  // ---------------------------------------------------------------------------

  /** `\d`, restricted to the ASCII digits. */
  predicate IsDigit(c: char) {
    '0' <= c <= '9'
  }

  predicate IsNonZeroDigit(c: char) {
    '1' <= c <= '9'
  }

  predicate AllDigits(s: string) {
    forall i :: 0 <= i < |s| ==> IsDigit(s[i])
  }

  /** `[1-9]\d*`. */
  predicate PositiveInteger(s: string) {
    |s| > 0 && IsNonZeroDigit(s[0]) && AllDigits(s[1..])
  }

  /** `\d*[1-9]`: digits ending in a non-zero one. */
  predicate FractionDigits(s: string) {
    |s| > 0 && AllDigits(s) && IsNonZeroDigit(s[|s| - 1])
  }

  /** `\.\d*[1-9]`. */
  predicate Fraction(s: string) {
    |s| > 0 && s[0] == '.' && FractionDigits(s[1..])
  }

  /** The position of the first `c` in `s`, or `|s|`. */
  function IndexOf(s: string, c: char): (k: nat)
    ensures k <= |s|
    ensures k < |s| ==> s[k] == c
    ensures forall i :: 0 <= i < k ==> s[i] != c
    decreases |s|
  {
    if |s| == 0 then 0 else if s[0] == c then 0 else 1 + IndexOf(s[1..], c)
  }

  /** `[1-9]\d*\.\d*[1-9]`. The integer part holds no '.', so the point the
      pattern needs is the first one. */
  predicate Decimal(s: string) {
    var k := IndexOf(s, '.');
    k < |s| && PositiveInteger(s[..k]) && FractionDigits(s[k + 1..])
  }

  /** The same pattern read as "some split of `s` around a '.'". */
  ghost predicate DecimalSplit(s: string) {
    exists k :: 0 <= k < |s| && s[k] == '.' && PositiveInteger(s[..k]) && FractionDigits(s[k + 1..])
  }

  lemma DecimalIffSplit(s: string)
    ensures Decimal(s) <==> DecimalSplit(s)
  {
    var first := IndexOf(s, '.');
    if DecimalSplit(s) {
      var k :| 0 <= k < |s| && s[k] == '.' && PositiveInteger(s[..k]) && FractionDigits(s[k + 1..]);
      assert first == k;
    }
  }

  /** `$` matches at the end of the input and also before a final '\n'. */
  predicate EndsAtOrBeforeFinalNewline(s: string, m: string -> bool) {
    m(s) || (|s| > 0 && s[|s| - 1] == '\n' && m(s[..|s| - 1]))
  }

  /** `^([1-9]\d*|\d)$`. */
  predicate IntBody(s: string) {
    PositiveInteger(s) || (|s| == 1 && IsDigit(s[0]))
  }

  /** `^([1-9]\d*|([1-9]\d*\.\d*[1-9])|\.\d*[1-9])$`. */
  predicate DoubleBody(s: string) {
    PositiveInteger(s) || Decimal(s) || Fraction(s)
  }

  /** `^(([1-9]\d*\.\d*[1-9])|\.\d*[1-9])px$`. */
  predicate PixelBody(s: string) {
    |s| >= 2 && s[|s| - 2..] == "px" && (Decimal(s[..|s| - 2]) || Fraction(s[..|s| - 2]))
  }

  predicate MatchesInt(s: string) {
    EndsAtOrBeforeFinalNewline(s, IntBody)
  }

  predicate MatchesDouble(s: string) {
    EndsAtOrBeforeFinalNewline(s, DoubleBody)
  }

  predicate MatchesPixel(s: string) {
    EndsAtOrBeforeFinalNewline(s, PixelBody)
  }

  /** The integer pattern: "0", or digits without a leading zero. */
  lemma IntBodyMeaning(s: string)
    ensures IntBody(s) <==> |s| > 0 && AllDigits(s) && (|s| == 1 || s[0] != '0')
  {
    if |s| > 0 && AllDigits(s) {
      assert AllDigits(s[1..]) by {
        forall i | 0 <= i < |s| - 1 ensures IsDigit(s[1..][i]) { assert s[1..][i] == s[i + 1]; }
      }
    }
    if PositiveInteger(s) {
      forall i | 0 <= i < |s| ensures IsDigit(s[i]) {
        if i > 0 { assert s[i] == s[1..][i - 1]; }
      }
    }
  }

  /** A string the double pattern accepts either has no point, or its last
      character is a non-zero digit: "13.0", "13.10" and "13." fail. */
  lemma DoubleBodyEndsWell(s: string)
    requires DoubleBody(s)
    ensures |s| > 0 && IsDigit(s[|s| - 1])
    ensures (exists i :: 0 <= i < |s| && s[i] == '.') ==> IsNonZeroDigit(s[|s| - 1])
    ensures s[0] != '0'
  {
    if PositiveInteger(s) {
      if |s| > 1 { assert s[|s| - 1] == s[1..][|s| - 2]; }
      forall i | 0 < i < |s| ensures s[i] != '.' {
        assert s[i] == s[1..][i - 1];
      }
    } else if Decimal(s) {
      var k := IndexOf(s, '.');
      assert s[|s| - 1] == s[k + 1..][|s| - k - 2];
    } else {
      assert s[|s| - 1] == s[1..][|s| - 2];
    }
  }

  // ---------------------------------------------------------------------------
  // Check and CheckGlobalCSS
  // ---------------------------------------------------------------------------

  /** Whether a string passes the numeric patterns its flags select. */
  predicate StringAccepted(t: string, f: Flags) {
    || (f.stringPixel && MatchesPixel(t))
    || (f.stringInt && MatchesInt(t))
    || (DoubleRulesApply(f) && MatchesDouble(t))
  }

  /** What `Check` decides: the value it returns (always `true`) or the
      exception it throws, case by case in the order the method tests them. */
  function Checked(value: Value, validValues: Option<set<Value>>, f: Flags): Outcome<bool> {
    if value == Null then
      if f.allowNull then Return(true) else Throw(GeneralException(NullNotAllowed))
    else if validValues.Some? && value in validValues.value then Return(true)
    else
      match value
      case IntValue(i) =>
        if !f.allowInt && !f.allowDouble then Throw(GeneralException(IntNotAllowed))
        else if f.allowNegative || i >= 0 then Return(true)
        else Throw(GeneralException(NegativeNotAllowed))
      case DoubleValue(d) =>
        if !f.allowDouble then Throw(GeneralException(DoubleNotAllowed))
        else if f.allowNegative || IsNonNegative(d) then Return(true)
        else Throw(GeneralException(NegativeNotAllowed))
      case StringValue(s) =>
        if !AnyStringFlag(f) then Throw(GeneralException(InvalidType))
        else if StringAccepted(Normalized(s, f), f) then Return(true)
        else Throw(GeneralException(InvalidString))
      case _ => Throw(GeneralException(InvalidType))
  }

  /** `Check(value, validValues, ...)`. The locals `str` and `stringDouble` are
      reassigned the way the source reassigns them. */
  method Check(value: Value, validValues: Option<set<Value>>, f: Flags) returns (r: Outcome<bool>)
    ensures r == Checked(value, validValues, f)
  {
    if value == Null {
      if f.allowNull {
        return Return(true);
      }
      return Throw(GeneralException(NullNotAllowed));
    }
    if validValues.Some? {
      if value in validValues.value {
        return Return(true);
      }
    }
    if value.IntValue? {
      if !f.allowInt && !f.allowDouble {
        return Throw(GeneralException(IntNotAllowed));
      }
      if f.allowNegative {
        return Return(true);
      }
      if value.i >= 0 {
        return Return(true);
      }
      return Throw(GeneralException(NegativeNotAllowed));
    }
    if value.DoubleValue? {
      if !f.allowDouble {
        return Throw(GeneralException(DoubleNotAllowed));
      }
      if f.allowNegative {
        return Return(true);
      }
      if IsNonNegative(value.d) {
        return Return(true);
      }
      return Throw(GeneralException(NegativeNotAllowed));
    }
    if AnyStringFlag(f) && value.StringValue? {
      var str := value.s;
      var stringDouble := f.stringDouble;
      if f.allowNegative {
        str := TrimStartChar(str, '-');
      }
      if f.stringPercentage {
        str := TrimEndChar(str, '%');
        stringDouble := true;
      }
      if f.stringRem {
        str := TrimEndChar(TrimEndChar(TrimEndChar(str, 'm'), 'e'), 'r');
        stringDouble := true;
      }
      assert str == Normalized(value.s, f);
      assert stringDouble == (f.stringDouble || f.stringPercentage || f.stringRem);
      if f.stringPixel && MatchesPixel(str) {
        return Return(true);
      }
      if f.stringInt && MatchesInt(str) {
        return Return(true);
      }
      if (f.stringInt || stringDouble) && MatchesDouble(str) {
        return Return(true);
      }
      return Throw(GeneralException(InvalidString));
    }
    return Throw(GeneralException(InvalidType));
  }

  /** `CheckGlobalCSS(...)`: the keywords added to `validValues` with
      `UnionWith`, then `Check`. */
  method CheckGlobalCSS(value: Value, validValues: Option<set<Value>>, f: Flags) returns (r: Outcome<bool>)
    ensures r == Checked(value, Some(GlobalKeywords + if validValues.Some? then validValues.value else {}), f)
  {
    var values := GlobalKeywords;
    if validValues.Some? {
      values := values + validValues.value;
    }
    r := Check(value, Some(values), f);
  }

  // ---------------------------------------------------------------------------
  // Properties of Check
  // ---------------------------------------------------------------------------

  /** `Check` never returns `false`: every rejection is an exception. */
  lemma CheckNeverReturnsFalse(value: Value, validValues: Option<set<Value>>, f: Flags)
    ensures Checked(value, validValues, f) != Return(false)
  {
  }

  /** A null value passes exactly when `allowNull` is set. */
  lemma CheckNull(validValues: Option<set<Value>>, f: Flags)
    ensures Checked(Null, validValues, f) == Return(true) <==> f.allowNull
    ensures !f.allowNull ==> Checked(Null, validValues, f) == Throw(GeneralException(NullNotAllowed))
  {
  }

  /** A listed value passes before any type test, whatever the flags. */
  lemma CheckListedValue(value: Value, validValues: set<Value>, f: Flags)
    requires value != Null && value in validValues
    ensures Checked(value, Some(validValues), f) == Return(true)
  {
  }

  /** An unlisted int passes exactly when ints (or doubles) are allowed and it is
      non-negative or negatives are allowed; the message names the failure. */
  lemma CheckInt(i: int32, validValues: Option<set<Value>>, f: Flags)
    requires !(validValues.Some? && IntValue(i) in validValues.value)
    ensures Checked(IntValue(i), validValues, f) == Return(true) <==>
              (f.allowInt || f.allowDouble) && (f.allowNegative || i >= 0)
    ensures !f.allowInt && !f.allowDouble ==>
              Checked(IntValue(i), validValues, f) == Throw(GeneralException(IntNotAllowed))
    ensures (f.allowInt || f.allowDouble) && !f.allowNegative && i < 0 ==>
              Checked(IntValue(i), validValues, f) == Throw(GeneralException(NegativeNotAllowed))
  {
  }

  /** An unlisted double passes exactly when doubles are allowed and it is
      non-negative or negatives are allowed; NaN counts as negative. */
  lemma CheckDouble(d: Double, validValues: Option<set<Value>>, f: Flags)
    requires !(validValues.Some? && DoubleValue(d) in validValues.value)
    ensures Checked(DoubleValue(d), validValues, f) == Return(true) <==>
              f.allowDouble && (f.allowNegative || IsNonNegative(d))
    ensures !f.allowDouble ==> Checked(DoubleValue(d), validValues, f) == Throw(GeneralException(DoubleNotAllowed))
    ensures f.allowDouble && !f.allowNegative && d == NaN ==>
              Checked(DoubleValue(d), validValues, f) == Throw(GeneralException(NegativeNotAllowed))
  {
  }

  /** An unlisted string passes exactly when some string flag is set and its
      normalized text passes a selected pattern. */
  lemma CheckString(s: string, validValues: Option<set<Value>>, f: Flags)
    requires !(validValues.Some? && StringValue(s) in validValues.value)
    ensures Checked(StringValue(s), validValues, f) == Return(true) <==>
              AnyStringFlag(f) && StringAccepted(Normalized(s, f), f)
    ensures !AnyStringFlag(f) ==> Checked(StringValue(s), validValues, f) == Throw(GeneralException(InvalidType))
    ensures AnyStringFlag(f) && !StringAccepted(Normalized(s, f), f) ==>
              Checked(StringValue(s), validValues, f) == Throw(GeneralException(InvalidString))
  {
  }

  /** Anything other than null, an int, a double or a flagged string that is
      not listed is of an invalid type. */
  lemma CheckInvalidType(value: Value, validValues: Option<set<Value>>, f: Flags)
    requires value != Null && !value.IntValue? && !value.DoubleValue?
    requires !(value.StringValue? && AnyStringFlag(f))
    requires !(validValues.Some? && value in validValues.value)
    ensures Checked(value, validValues, f) == Throw(GeneralException(InvalidType))
  {
  }

  /** The keywords pass `CheckGlobalCSS` under any flags, but a flagless
      `Check` rejects them as being of an invalid type. */
  lemma GlobalKeywordsPassOnlyCheckGlobalCSS(keyword: string, validValues: Option<set<Value>>, f: Flags)
    requires StringValue(keyword) in GlobalKeywords
    ensures Checked(StringValue(keyword), Some(GlobalKeywords + if validValues.Some? then validValues.value else {}), f)
            == Return(true)
    ensures Checked(StringValue(keyword), None, NoFlags) == Throw(GeneralException(InvalidType))
  {
  }

  /** The sign is stripped only when negatives are allowed: otherwise no flag
      combination lets a string starting with '-' through, since stripping a
      suffix keeps its first character. */
  lemma NegativeStringNeedsAllowNegative(s: string, f: Flags)
    requires |s| > 0 && s[0] == '-' && !f.allowNegative
    ensures !StringAccepted(Normalized(s, f), f)
  {
    var t := Normalized(s, f);
    assert t == s[..|t|];
    if |t| > 0 {
      assert t[0] == '-';
      SignedTextMatchesNothing(t);
    } else {
      BodiesRejectSign(t);
    }
  }

  // ---------------------------------------------------------------------------
  // The unit tests' cases
  // ---------------------------------------------------------------------------

  /** Where the first point is, for the concrete cases. */
  lemma FirstPoint(s: string, k: nat)
    requires k < |s| && s[k] == '.' && forall i :: 0 <= i < k ==> s[i] != '.'
    ensures IndexOf(s, '.') == k
  {
  }

  /** A newline-free string matches `$` only at its end. */
  lemma NoFinalNewline(s: string, m: string -> bool)
    requires |s| > 0 ==> s[|s| - 1] != '\n'
    ensures EndsAtOrBeforeFinalNewline(s, m) == m(s)
  {
  }

  lemma IntPatternCases()
    ensures MatchesInt("0") && MatchesInt("1") && MatchesInt("10") && MatchesInt("201")
    ensures !MatchesInt("13.0") && !MatchesInt("13.") && !MatchesInt("-13")
  {
    assert IntBody("10") by { assert "10"[1..] == "0"; }
    assert IntBody("201") by { assert "201"[1..] == "01"; }
    assert !IntBody("13.0") by { assert "13.0"[1..][1] == '.'; }
    assert !IntBody("13.") by { assert "13."[1..][1] == '.'; }
    NoFinalNewline("13.0", IntBody);
    NoFinalNewline("13.", IntBody);
    NoFinalNewline("-13", IntBody);
  }

  /** A point between a positive integer and fraction digits is a decimal. */
  lemma DecimalOf(a: string, b: string)
    requires PositiveInteger(a) && FractionDigits(b)
    ensures Decimal(a + "." + b)
  {
    var s := a + "." + b;
    forall i | 0 <= i < |a| ensures s[i] != '.' {
      assert s[i] == a[i];
      if i > 0 { assert a[i] == a[1..][i - 1]; }
    }
    FirstPoint(s, |a|);
    assert s[..|a|] == a && s[|a| + 1..] == b;
  }

  lemma DoublePatternAccepts()
    ensures MatchesDouble("1") && MatchesDouble("10") && MatchesDouble("201") && MatchesDouble("13.12")
  {
    assert PositiveInteger("10") by { assert "10"[1..] == "0"; }
    assert PositiveInteger("201") by { assert "201"[1..] == "01"; }
    assert PositiveInteger("13") by { assert "13"[1..] == "3"; }
    DecimalOf("13", "12");
    assert "13" + "." + "12" == "13.12";
  }

  lemma DoubleRejectsZero()
    ensures !MatchesDouble("0")
  {
    assert IndexOf("0", '.') == 1;
  }

  lemma DoubleRejectsTrailingZero()
    ensures !MatchesDouble("13.0") && !MatchesDouble("13.10")
  {
    var s, t := "13.0", "13.10";
    assert !PositiveInteger(s) by { assert s[1..][1] == '.'; }
    assert !Decimal(s) by { FirstPoint(s, 2); assert s[3..] == "0"; }
    NoFinalNewline(s, DoubleBody);
    assert !PositiveInteger(t) by { assert t[1..][1] == '.'; }
    assert !Decimal(t) by { FirstPoint(t, 2); assert t[3..] == "10"; }
    NoFinalNewline(t, DoubleBody);
  }

  lemma DoubleRejectsEmptyFraction()
    ensures !MatchesDouble("13.")
  {
    var s := "13.";
    assert !PositiveInteger(s) by { assert s[1..][1] == '.'; }
    assert !Decimal(s) by { FirstPoint(s, 2); assert s[3..] == ""; }
    NoFinalNewline(s, DoubleBody);
  }

  /** Text that is empty or starts with '-' is neither an integer, a decimal
      nor a fraction. */
  lemma UnsignedPartsOnly(s: string)
    requires |s| == 0 || s[0] == '-'
    ensures !PositiveInteger(s) && !Decimal(s) && !Fraction(s)
  {
    var k := IndexOf(s, '.');
    if 0 < k < |s| { assert s[..k][0] == '-'; }
  }

  /** No pattern body matches text that is empty or starts with '-'. */
  lemma BodiesRejectSign(s: string)
    requires |s| == 0 || s[0] == '-'
    ensures !IntBody(s) && !DoubleBody(s) && !PixelBody(s)
  {
    UnsignedPartsOnly(s);
    if |s| >= 2 {
      var body := s[..|s| - 2];
      assert |body| == 0 || body[0] == '-';
      UnsignedPartsOnly(body);
    }
  }

  /** None of the three numeric patterns matches text that starts with a
      sign, with or without a final newline. */
  lemma SignedTextMatchesNothing(s: string)
    requires |s| > 0 && s[0] == '-'
    ensures !MatchesInt(s) && !MatchesDouble(s) && !MatchesPixel(s)
  {
    BodiesRejectSign(s);
    var line := s[..|s| - 1];
    assert |line| == 0 || line[0] == '-';
    BodiesRejectSign(line);
  }

  lemma PixelPatternAccepts()
    ensures MatchesPixel(".1px") && MatchesPixel("20.1px") && MatchesPixel("13.12px")
  {
    PixelAcceptsFraction();
    PixelAcceptsDecimal("20", "1");
    PixelAcceptsDecimal("13", "12");
    assert "20" + "." + "1" + "px" == "20.1px" && "13" + "." + "12" + "px" == "13.12px";
  }

  lemma PixelAcceptsFraction()
    ensures MatchesPixel(".1px")
  {
    PixelOf(".1");
    assert Fraction(".1") by { assert ".1"[1..] == "1"; }
    assert ".1" + "px" == ".1px";
  }

  lemma PixelAcceptsDecimal(a: string, b: string)
    requires PositiveInteger(a) && FractionDigits(b)
    ensures MatchesPixel(a + "." + b + "px")
  {
    DecimalOf(a, b);
    PixelOf(a + "." + b);
  }

  /** The pixel pattern reads the text before a final "px". */
  lemma PixelOf(s: string)
    ensures PixelBody(s + "px") <==> Decimal(s) || Fraction(s)
  {
    var t := s + "px";
    assert t[|t| - 2..] == "px" && t[..|t| - 2] == s;
  }

  lemma PixelRejectsIntegers()
    ensures !MatchesPixel("0px") && !MatchesPixel("0") && !MatchesPixel("1px") && !MatchesPixel("10px")
  {
    PixelOf("0");
    PixelOf("1");
    PixelOf("10");
    assert "0" + "px" == "0px" && "1" + "px" == "1px" && "10" + "px" == "10px";
    assert IndexOf("0", '.') == 1 && IndexOf("1", '.') == 1 && IndexOf("10", '.') == 2;
    NoFinalNewline("0px", PixelBody);
    NoFinalNewline("0", PixelBody);
    NoFinalNewline("1px", PixelBody);
    NoFinalNewline("10px", PixelBody);
  }

  lemma PixelRejectsLeadingZero()
    ensures !MatchesPixel("0.1px")
  {
    PixelOf("0.1");
    assert "0.1" + "px" == "0.1px";
    FirstPoint("0.1", 1);
    assert "0.1"[..1] == "0";
    NoFinalNewline("0.1px", PixelBody);
  }

  lemma PixelRejectsTrailingZero()
    ensures !MatchesPixel("13.0px") && !MatchesPixel("13.px")
  {
    PixelOf("13.0");
    PixelOf("13.");
    assert "13.0" + "px" == "13.0px" && "13." + "px" == "13.px";
    FirstPoint("13.0", 2);
    assert "13.0"[3..] == "0";
    FirstPoint("13.", 2);
    assert "13."[3..] == "";
    NoFinalNewline("13.0px", PixelBody);
    NoFinalNewline("13.px", PixelBody);
  }

  /** The trailing-newline quirk of `$`: "13\n" passes as an integer. */
  lemma IntPatternAcceptsFinalNewline()
    ensures MatchesInt("13\n")
  {
    assert "13\n"[..2] == "13" && "13"[1..] == "3";
  }

  const IntFlags := NoFlags.(stringInt := true)
  const DoubleFlags := NoFlags.(stringDouble := true)
  const PercentFlags := NoFlags.(stringPercentage := true)
  const RemFlags := NoFlags.(stringRem := true)
  const PixelFlags := NoFlags.(stringPixel := true)

  /** One trailing `c` removed from text that does not otherwise end in `c`. */
  lemma TrimOneChar(s: string, c: char)
    requires |s| > 0 && s[|s| - 1] != c
    ensures TrimEndChar(s + [c], c) == s
  {
    assert (s + [c])[..|s|] == s;
  }

  lemma RemAppend(s: string)
    ensures s + "rem" == s + ['r'] + ['e'] + ['m']
  {
  }

  /** The rem suffix removed from text that does not end in 'r'. */
  lemma TrimRemSuffix(s: string)
    requires |s| > 0 && s[|s| - 1] != 'r'
    ensures TrimEndChar(TrimEndChar(TrimEndChar(s + "rem", 'm'), 'e'), 'r') == s
  {
    var r := s + ['r'];
    var re := r + ['e'];
    RemAppend(s);
    var m := TrimEndChar(re + ['m'], 'm');
    TrimOneChar(re, 'm');
    assert m == re;
    var e := TrimEndChar(re, 'e');
    TrimOneChar(r, 'e');
    assert e == r;
    TrimOneChar(s, 'r');
  }

  /** One trailing percent sign removed from literal text. */
  lemma TrimPercentSuffix(s: string)
    requires |s| > 0 && s[|s| - 1] != '%'
    ensures TrimEndChar(s + "%", '%') == s
  {
    assert (s + "%")[..|s|] == s;
  }

  /** One leading minus sign removed from literal text. */
  lemma TrimSign(s: string)
    requires |s| > 0 && s[0] != '-'
    ensures TrimStartChar("-" + s, '-') == s
  {
    assert ("-" + s)[1..] == s;
  }

  /** `stringInt` accepts `"0"`, and `"-13"` once the sign is stripped. */
  lemma IntStringAccepts()
    ensures Checked(StringValue("0"), None, IntFlags) == Return(true)
    ensures Checked(StringValue("-13"), None, IntFlags.(allowNegative := true)) == Return(true)
  {
    IntPatternCases();
    TrimSign("13");
    assert "-" + "13" == "-13";
  }

  /** `stringInt` rejects `"13.0"`, and `"-13"` when negatives are not allowed. */
  lemma IntStringRejects()
    ensures Checked(StringValue("13.0"), None, IntFlags) == Throw(GeneralException(InvalidString))
    ensures Checked(StringValue("-13"), None, IntFlags) == Throw(GeneralException(InvalidString))
  {
    IntPatternCases();
    DoubleRejectsTrailingZero();
    NegativeStringNeedsAllowNegative("-13", IntFlags);
  }

  lemma DoubleStringCases()
    ensures Checked(StringValue("0"), None, DoubleFlags) == Throw(GeneralException(InvalidString))
    ensures Checked(StringValue("13.12"), None, DoubleFlags) == Return(true)
    ensures Checked(StringValue("-13.12"), None, DoubleFlags.(allowNegative := true)) == Return(true)
  {
    DoubleRejectsZero();
    DoublePatternAccepts();
    TrimSign("13.12");
    assert "-" + "13.12" == "-13.12";
  }

  lemma PercentStringCases()
    ensures Checked(StringValue("0%"), None, PercentFlags) == Throw(GeneralException(InvalidString))
    ensures Checked(StringValue("13.12%"), None, PercentFlags) == Return(true)
  {
    TrimPercentSuffix("0");
    assert "0" + "%" == "0%";
    DoubleRejectsZero();
    TrimPercentSuffix("13.12");
    assert "13.12" + "%" == "13.12%";
    DoublePatternAccepts();
  }

  lemma RemStringRejects()
    ensures Checked(StringValue("13.rem"), None, RemFlags) == Throw(GeneralException(InvalidString))
  {
    TrimRemSuffix("13.");
    assert "13." + "rem" == "13.rem";
    DoubleRejectsEmptyFraction();
  }

  lemma RemStringAccepts()
    ensures Checked(StringValue("13.12rem"), None, RemFlags) == Return(true)
  {
    TrimRemSuffix("13.12");
    assert "13.12" + "rem" == "13.12rem";
    DoublePatternAccepts();
  }

  lemma PixelStringCases()
    ensures Checked(StringValue("10px"), None, PixelFlags) == Throw(GeneralException(InvalidString))
    ensures Checked(StringValue("20.1px"), None, PixelFlags) == Return(true)
  {
    PixelRejectsIntegers();
    PixelPatternAccepts();
  }

  /** The unit tests' int and double cases. */
  lemma NumberTestCases()
    ensures Checked(IntValue(1), None, NoFlags) == Throw(GeneralException(IntNotAllowed))
    ensures Checked(IntValue(-1), None, NoFlags.(allowInt := true)) == Throw(GeneralException(NegativeNotAllowed))
    ensures Checked(IntValue(0), None, NoFlags.(allowDouble := true)) == Return(true)
    ensures Checked(IntValue(-1), None, NoFlags.(allowDouble := true, allowNegative := true)) == Return(true)
    ensures Checked(DoubleValue(Finite(0.1)), None, NoFlags) == Throw(GeneralException(DoubleNotAllowed))
    ensures Checked(DoubleValue(Finite(-1.1)), None, NoFlags.(allowDouble := true))
            == Throw(GeneralException(NegativeNotAllowed))
    ensures Checked(DoubleValue(Finite(0.0)), None, NoFlags.(allowDouble := true)) == Return(true)
    ensures Checked(DoubleValue(Finite(-7.1)), None, NoFlags.(allowDouble := true, allowNegative := true)) == Return(true)
  {
  }

  // ---------------------------------------------------------------------------
  // HasBannedCharacters
  // ---------------------------------------------------------------------------

  /** The characters that are banned right after a '/': `< > { } \` \`. */
  const AfterSlash: string := "<>{}`\\"

  /** The literal alternatives of the pattern, case-sensitive; the last one
      keeps the "/i" that follows "https:" in the pattern text. */
  const BannedTokens: seq<string> :=
    ["<br>", "<script", "<p", "<body", "<input", "<object", "<div", "<table", "<link",
     "<style", "<svg", "iframe=", "javascript=", "onmouseover=", "onclick=", "onload=",
     "onerror=", "background=", "size=", "rel=", "dynsrc=", "lowsrc=", "src=", "href=",
     "<import", "http:", "https:/i"]

  /** Whether an alternative of the pattern matches at position `k`. */
  predicate BannedAt(s: string, k: nat)
    requires k < |s|
  {
    || (s[k] == '/' && k + 1 < |s| && s[k + 1] in AfterSlash)
    || (exists t :: t in BannedTokens && t <= s[k..])
  }

  /** Scanning positions `k` onwards, as the regex engine does. */
  function ScanBanned(s: string, k: nat): (r: bool)
    requires k <= |s|
    ensures r <==> exists j :: k <= j < |s| && BannedAt(s, j)
    decreases |s| - k
  {
    if k == |s| then false else BannedAt(s, k) || ScanBanned(s, k + 1)
  }

  /** `HasBannedCharacters(value)`: some alternative occurs somewhere. */
  function HasBannedCharacters(value: string): (r: bool)
    ensures r <==> exists j :: 0 <= j < |value| && BannedAt(value, j)
  {
    ScanBanned(value, 0)
  }

  /** A token occurring anywhere makes the value banned. */
  lemma ContainingATokenIsBanned(a: string, t: string, b: string)
    requires t in BannedTokens
    ensures HasBannedCharacters(a + t + b)
  {
    var s := a + t + b;
    assert t <= s[|a|..] by {
      assert s[|a|..][..|t|] == t;
    }
    assert BannedAt(s, |a|);
  }

  /** A '/' followed by a bracket or a backquote or backslash is banned. */
  lemma SlashBracketIsBanned(a: string, c: char, b: string)
    requires c in AfterSlash
    ensures HasBannedCharacters(a + ['/', c] + b)
  {
    var s := a + ['/', c] + b;
    assert s[|a|] == '/' && s[|a| + 1] == c;
    assert BannedAt(s, |a|);
  }

  /** A token at position `k` fixes the characters it covers. */
  lemma TokenAt(s: string, k: nat, t: string)
    requires k < |s| && t <= s[k..]
    ensures |t| <= |s| - k
    ensures forall i :: 0 <= i < |t| ==> t[i] == s[k + i]
  {
    forall i | 0 <= i < |t| ensures t[i] == s[k + i] {
      assert t[i] == s[k..][i];
    }
  }

  /** The characters a token can begin with. */
  predicate IsTokenHead(c: char) {
    c == '<' || c == 'i' || c == 'j' || c == 'o' || c == 'b' || c == 's' || c == 'r' || c == 'd' || c == 'l' || c == 'h'
  }

  /** The characters that follow '<' in a token. */
  predicate IsTagSecond(c: char) {
    c == 'b' || c == 's' || c == 'p' || c == 'i' || c == 'o' || c == 'd' || c == 't' || c == 'l'
  }

  /** What each token begins with. */
  lemma TokenHeads(t: string)
    requires t in BannedTokens
    ensures |t| >= 2
    ensures t[0] == '<' ==> IsTagSecond(t[1])
    ensures t[0] == 'h' ==> t == "href=" || t == "http:" || t == "https:/i"
    ensures t[0] == 's' ==> t[1] == 'i' || t[1] == 'r'
    ensures IsTokenHead(t[0])
  {
    TokenStarts(t);
    TagTokens(t);
    LetterTokens(t);
  }

  /** Every token is at least two characters long and starts with a head. */
  lemma TokenStarts(t: string)
    requires t in BannedTokens
    ensures |t| >= 2 && IsTokenHead(t[0])
  {
  }

  /** The second character of every tag token. */
  lemma TagTokens(t: string)
    requires t in BannedTokens
    ensures |t| >= 2 && (t[0] == '<' ==> IsTagSecond(t[1]))
  {
  }

  /** The tokens that begin with 'h' or 's'. */
  lemma LetterTokens(t: string)
    requires t in BannedTokens
    ensures |t| >= 2
    ensures t[0] == 'h' ==> t == "href=" || t == "http:" || t == "https:/i"
    ensures t[0] == 's' ==> t[1] == 'i' || t[1] == 'r'
  {
  }

  /** A token that differs from the text at some character does not match. */
  lemma MismatchAt(s: string, k: nat, t: string, i: nat)
    requires k < |s| && i < |t|
    requires k + i >= |s| || s[k + i] != t[i]
    ensures !(t <= s[k..])
  {
    if t <= s[k..] {
      TokenAt(s, k, t);
    }
  }

  /** "https:" needs "/i" after it: an https URL passes. */
  lemma HttpsUrlPasses()
    ensures !HasBannedCharacters("https://")
  {
    var url := "https://";
    forall k, t | 0 <= k < |url| && t in BannedTokens ensures !(t <= url[k..]) {
      TokenHeads(t);
      if k == 0 && t == "href=" {
        MismatchAt(url, k, t, 1);
      } else if k == 0 && t == "http:" {
        MismatchAt(url, k, t, 4);
      } else if k == 0 && t == "https:/i" {
        MismatchAt(url, k, t, 7);
      } else if k == 4 && t[0] == 's' {
        MismatchAt(url, k, t, 1);
      } else {
        MismatchAt(url, k, t, 0);
      }
    }
    NotBannedFrom(url);
  }

  /** No token starts at a character no token begins with. */
  lemma NoTokenAt(s: string, k: nat)
    requires k < |s| && !IsTokenHead(s[k])
    ensures forall t :: t in BannedTokens ==> !(t <= s[k..])
  {
    forall t | t in BannedTokens ensures !(t <= s[k..]) {
      TokenHeads(t);
      MismatchAt(s, k, t, 0);
    }
  }

  /** No token starts at a '<' followed by a character no tag token has there. */
  lemma NoTagAt(s: string, k: nat)
    requires k + 1 < |s| && s[k] == '<' && !IsTagSecond(s[k + 1])
    ensures forall t :: t in BannedTokens ==> !(t <= s[k..])
  {
    forall t | t in BannedTokens ensures !(t <= s[k..]) {
      TokenHeads(t);
      if t[0] == '<' {
        MismatchAt(s, k, t, 1);
      } else {
        MismatchAt(s, k, t, 0);
      }
    }
  }

  /** Matching is case-sensitive: an uppercase tag passes. */
  lemma UppercaseTagPasses()
    ensures !HasBannedCharacters("<SCRIPT>")
  {
    var tag := "<SCRIPT>";
    NoTagAt(tag, 0);
    NoTokenAt(tag, 1);
    NoTokenAt(tag, 2);
    NoTokenAt(tag, 3);
    NoTokenAt(tag, 4);
    NoTokenAt(tag, 5);
    NoTokenAt(tag, 6);
    NoTokenAt(tag, 7);
    NotBannedFrom(tag);
  }

  /** A plain http URL is banned. */
  lemma HttpUrlIsBanned()
    ensures HasBannedCharacters("http://")
  {
    ContainingATokenIsBanned("", "http:", "//");
    assert "" + "http:" + "//" == "http://";
  }

  /** A string in which no alternative starts anywhere. */
  lemma NotBannedFrom(s: string)
    requires forall k :: 0 <= k < |s| ==> !(s[k] == '/' && k + 1 < |s| && s[k + 1] in AfterSlash)
    requires forall k, t :: 0 <= k < |s| && t in BannedTokens ==> !(t <= s[k..])
    ensures !HasBannedCharacters(s)
  {
  }
}
