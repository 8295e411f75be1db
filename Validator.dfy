/**
 * `validate`: presence checks, then number parsing, then at most one range check, with the
 * error messages accumulated in the order the checks run.
 */
module Validator {
  import opened Wrappers
  import opened OrderedMaps
  import opened Numbers

  /** The tolerance `EPS` of the allowed-r comparison and of the hit test. */
  const Eps: real := 0.000000001

  /** `ALLOWED_R`. */
  const AllowedR: seq<real> := [1.0, 1.5, 2.0, 2.5, 3.0]

  const XMin: Decimal := Decimal(-3, 0)
  const XMax: Decimal := Decimal(5, 0)
  const YMin: real := -5.0
  const YMax: real := 5.0

  /** The outcome: the three parsed numbers, or the non-empty list of messages. */
  datatype Validation = Valid(x: Decimal, y: Decimal, r: Decimal) | Invalid(errors: seq<string>)

  function MissingMessage(name: string): string {
    "Missing parameter: " + name
  }

  function NotANumberMessage(name: string): string {
    "Parameter " + name + " must be a number."
  }

  /** `String.format("Parameter x must be between %s and %s.", X_MIN.toPlainString(), X_MAX.toPlainString())`. */
  function XRangeMessage(): string {
    "Parameter x must be between " + ToPlainString(XMin) + " and " + ToPlainString(XMax) + "."
  }

  /** `String.format(Locale.US, "Parameter y must be between %.1f and %.1f.", Y_MIN, Y_MAX)`. */
  const YRangeMessage: string := "Parameter y must be between -5.0 and 5.0."
  const RPositiveMessage: string := "Parameter r must be positive."
  const RNotAllowedMessage: string := "Parameter r is not within the allowed set (1, 1.5, 2, 2.5, 3)."

  function Abs(v: real): real {
    if v < 0.0 then -v else v
  }

  /** `x.compareTo(X_MIN) < 0 || x.compareTo(X_MAX) > 0`, exact on decimals. */
  predicate XOutOfRange(x: Decimal) {
    Value(x) < Value(XMin) || Value(x) > Value(XMax)
  }

  /**
   * The y range check as the source writes it, `y < Y_MIN || y > Y_MAX`: both comparisons
   * are false for NaN, so NaN is let through.
   */
  predicate YOutOfRangeAsWritten(y: Double) {
    Less(y, YMin) || Greater(y, YMax)
  }

  /** The y range check as intended: anything but a number within [−5, 5] is out of range. */
  predicate YOutOfRange(y: Double) {
    !(y.Finite? && YMin <= Value(y.d) <= YMax)
  }

  /** Some allowed value lies within `EPS` of r (`Math.abs(allowed - r) < EPS`). */
  predicate InAllowedSet(r: Double) {
    r.Finite? && exists i :: 0 <= i < |AllowedR| && Abs(AllowedR[i] - Value(r.d)) < Eps
  }

  /** The loop over `ALLOWED_R` that stops at the first value close enough to r. */
  method MatchesAllowedR(r: Double) returns (matched: bool)
    ensures matched <==> InAllowedSet(r)
  {
    matched := false;
    for i := 0 to |AllowedR|
      invariant !matched <==> forall j :: 0 <= j < i ==> !(r.Finite? && Abs(AllowedR[j] - Value(r.d)) < Eps)
    {
      if r.Finite? && Abs(AllowedR[i] - Value(r.d)) < Eps {
        matched := true;
        break;
      }
    }
  }

  /** The missing-parameter messages, in the order x, y, r. */
  function MissingErrors(params: map<string, string>): seq<string> {
    (if "x" !in params then [MissingMessage("x")] else [])
    + (if "y" !in params then [MissingMessage("y")] else [])
    + (if "r" !in params then [MissingMessage("r")] else [])
  }

  /** The parse-failure messages, in the order x, y, r. */
  function ParseErrors(x: Option<Decimal>, y: Option<Double>, r: Option<Double>): seq<string> {
    (if x.None? then [NotANumberMessage("x")] else [])
    + (if y.None? then [NotANumberMessage("y")] else [])
    + (if r.None? then [NotANumberMessage("r")] else [])
  }

  /** The first range check that fails, if any: x, then y, then r's sign, then r's value. */
  function RangeError(x: Decimal, y: Double, r: Double): Option<string> {
    if XOutOfRange(x) then Some(XRangeMessage())
    else if YOutOfRange(y) then Some(YRangeMessage)
    else if AtMost(r, 0.0) then Some(RPositiveMessage)
    else if !InAllowedSet(r) then Some(RNotAllowedMessage)
    else None
  }

  /** What `validate` decides for a parameter map. */
  function ValidationOf(params: map<string, string>): (v: Validation)
    ensures v.Invalid? ==> 1 <= |v.errors| <= 3
  {
    var missing := MissingErrors(params);
    if missing != [] then Invalid(missing)
    else ParsedValidation(ParseBigDecimal(params["x"]), ParseDouble(params["y"]), ParseDouble(params["r"]))
  }

  /** What `validate` decides once all three parameters are present and parsing was tried. */
  function ParsedValidation(x: Option<Decimal>, y: Option<Double>, r: Option<Double>): (v: Validation)
    ensures v.Invalid? ==> 1 <= |v.errors| <= 3
  {
    var parse := ParseErrors(x, y, r);
    if parse != [] then Invalid(parse)
    else
      match RangeError(x.value, y.value, r.value)
      case Some(e) => Invalid([e])
      case None => Valid(x.value, y.value.d, r.value.d)
  }

  /** `validate(params)`, appending to the error list check by check. */
  method Validate(params: LinkedMap<string, string>) returns (v: Validation)
    requires params.Valid()
    ensures v == ValidationOf(params.entries)
    ensures v.Invalid? ==> |v.errors| >= 1
  {
    var errors := CheckPresence(params);
    if |errors| > 0 {
      return Invalid(errors);
    }
    var x, y, r;
    x, y, r, errors := ParseNumbers(params);
    if |errors| > 0 {
      return Invalid(errors);
    }
    errors := CheckRanges(x.value, y.value, r.value);
    if |errors| > 0 {
      return Invalid(errors);
    }
    return Valid(x.value, y.value.d, r.value.d);
  }

  /** The three `containsKey` checks. */
  method CheckPresence(params: LinkedMap<string, string>) returns (errors: seq<string>)
    requires params.Valid()
    ensures errors == MissingErrors(params.entries)
  {
    errors := [];
    if !params.ContainsKey("x") {
      errors := errors + [MissingMessage("x")];
    }
    if !params.ContainsKey("y") {
      errors := errors + [MissingMessage("y")];
    }
    if !params.ContainsKey("r") {
      errors := errors + [MissingMessage("r")];
    }
  }

  /** `new BigDecimal(x)`, `Double.parseDouble(y)`, `Double.parseDouble(r)`, each failure noted. */
  method ParseNumbers(params: LinkedMap<string, string>)
    returns (x: Option<Decimal>, y: Option<Double>, r: Option<Double>, errors: seq<string>)
    requires params.Valid() && "x" in params.entries && "y" in params.entries && "r" in params.entries
    ensures x == ParseBigDecimal(params.entries["x"])
    ensures y == ParseDouble(params.entries["y"])
    ensures r == ParseDouble(params.entries["r"])
    ensures errors == ParseErrors(x, y, r)
  {
    errors := [];
    x := ParseBigDecimal(params.Get("x").value);
    if x.None? {
      errors := errors + [NotANumberMessage("x")];
    }
    ghost var ex := errors;
    y := ParseDouble(params.Get("y").value);
    if y.None? {
      errors := errors + [NotANumberMessage("y")];
    }
    ghost var ey := errors[|ex|..];
    assert errors == ex + ey;
    r := ParseDouble(params.Get("r").value);
    if r.None? {
      errors := errors + [NotANumberMessage("r")];
    }
    ParseErrorsParts(x, y, r, ex, ey, errors[|ex| + |ey|..]);
  }

  lemma ParseErrorsParts(x: Option<Decimal>, y: Option<Double>, r: Option<Double>, ex: seq<string>, ey: seq<string>, er: seq<string>)
    requires ex == (if x.None? then [NotANumberMessage("x")] else [])
    requires ey == (if y.None? then [NotANumberMessage("y")] else [])
    requires er == (if r.None? then [NotANumberMessage("r")] else [])
    ensures ParseErrors(x, y, r) == ex + ey + er
  {
  }

  /** The range checks, each run only while no error has been recorded. */
  method CheckRanges(x: Decimal, y: Double, r: Double) returns (errors: seq<string>)
    ensures errors == if RangeError(x, y, r).Some? then [RangeError(x, y, r).value] else []
  {
    errors := [];
    if XOutOfRange(x) {
      errors := errors + [XRangeMessage()];
    }
    if |errors| == 0 && YOutOfRange(y) {
      errors := errors + [YRangeMessage];
    }
    if |errors| == 0 {
      if AtMost(r, 0.0) {
        errors := errors + [RPositiveMessage];
      } else {
        var allowedMatched := MatchesAllowedR(r);
        if !allowedMatched {
          errors := errors + [RNotAllowedMessage];
        }
      }
    }
  }

  // ---------------------------------------------------------------------------------------
  // Properties

  /** The conditions under which `validate` accepts x, y and r. */
  ghost predicate Accepts(params: map<string, string>, x: Decimal, y: Decimal, r: Decimal) {
    && "x" in params && "y" in params && "r" in params
    && AcceptsParsed(ParseBigDecimal(params["x"]), ParseDouble(params["y"]), ParseDouble(params["r"]), x, y, r)
  }

  /** The three parses succeeded with finite numbers, each within its bounds. */
  ghost predicate AcceptsParsed(xo: Option<Decimal>, yo: Option<Double>, ro: Option<Double>, x: Decimal, y: Decimal, r: Decimal) {
    && xo == Some(x) && yo == Some(Finite(y)) && ro == Some(Finite(r))
    && -3.0 <= Value(x) <= 5.0
    && -5.0 <= Value(y) <= 5.0
    && exists i :: 0 <= i < |AllowedR| && Abs(AllowedR[i] - Value(r)) < Eps
  }

  lemma XBoundsValues()
    ensures Value(XMin) == -3.0 && Value(XMax) == 5.0
  {
    assert Pow10(0) == 1;
  }

  /**
   * A request is accepted exactly when all three parameters are present and parse, x lies
   * in [−3, 5], y in [−5, 5], and r within `EPS` of an allowed radius.
   */
  lemma ValidIff(params: map<string, string>, x: Decimal, y: Decimal, r: Decimal)
    ensures ValidationOf(params) == Valid(x, y, r) <==> Accepts(params, x, y, r)
  {
    if "x" in params && "y" in params && "r" in params {
      assert MissingErrors(params) == [];
      ParsedValidIff(ParseBigDecimal(params["x"]), ParseDouble(params["y"]), ParseDouble(params["r"]), x, y, r);
    }
  }

  lemma ParsedValidIff(xo: Option<Decimal>, yo: Option<Double>, ro: Option<Double>, x: Decimal, y: Decimal, r: Decimal)
    ensures ParsedValidation(xo, yo, ro) == Valid(x, y, r) <==> AcceptsParsed(xo, yo, ro, x, y, r)
  {
    XBoundsValues();
    if AcceptsParsed(xo, yo, ro, x, y, r) {
      var i :| 0 <= i < |AllowedR| && Abs(AllowedR[i] - Value(r)) < Eps;
      assert AllowedR[i] >= 1.0;
      assert InAllowedSet(Finite(r));
    }
  }

  /** A missing parameter is reported by name, and then only the missing ones are reported. */
  lemma MissingReportedByName(params: map<string, string>, name: string)
    requires name == "x" || name == "y" || name == "r"
    requires "x" !in params || "y" !in params || "r" !in params
    ensures ValidationOf(params).Invalid?
    ensures MissingMessage(name) in ValidationOf(params).errors <==> name !in params
    ensures forall e :: e in ValidationOf(params).errors ==>
      exists n :: n in ["x", "y", "r"] && n !in params && e == MissingMessage(n)
  {
    var errs := ValidationOf(params).errors;
    assert errs == MissingErrors(params);
    MissingMessagesDistinct();
  }

  lemma MissingMessagesDistinct()
    ensures MissingMessage("x") != MissingMessage("y")
    ensures MissingMessage("x") != MissingMessage("r")
    ensures MissingMessage("y") != MissingMessage("r")
  {
    var n := |"Missing parameter: "|;
    assert MissingMessage("x")[n] == 'x';
    assert MissingMessage("y")[n] == 'y';
    assert MissingMessage("r")[n] == 'r';
  }

  /** At most one range check fails: a range message is always the only message. */
  lemma RangeErrorAlone(params: map<string, string>)
    ensures ValidationOf(params).Invalid? &&
      (RPositiveMessage in ValidationOf(params).errors || RNotAllowedMessage in ValidationOf(params).errors
       || YRangeMessage in ValidationOf(params).errors || XRangeMessage() in ValidationOf(params).errors)
      ==> |ValidationOf(params).errors| == 1
  {
    var v := ValidationOf(params);
    if v.Invalid? && |v.errors| > 1 {
      var m := MissingErrors(params);
      if m != [] {
        MissingNotRange(v.errors);
      } else {
        ParseNotRange(v.errors);
      }
    }
  }

  predicate IsRangeMessage(e: string) {
    e == RPositiveMessage || e == RNotAllowedMessage || e == YRangeMessage || e == XRangeMessage()
  }

  lemma MissingNotRange(errs: seq<string>)
    requires forall e :: e in errs ==> e in [MissingMessage("x"), MissingMessage("y"), MissingMessage("r")]
    ensures RPositiveMessage !in errs && RNotAllowedMessage !in errs && YRangeMessage !in errs && XRangeMessage() !in errs
  {
    forall e | e in [MissingMessage("x"), MissingMessage("y"), MissingMessage("r")]
      ensures !IsRangeMessage(e)
    {
      assert e[0] == 'M';
    }
  }

  lemma ParseNotRange(errs: seq<string>)
    requires forall e :: e in errs ==> e in [NotANumberMessage("x"), NotANumberMessage("y"), NotANumberMessage("r")]
    ensures RPositiveMessage !in errs && RNotAllowedMessage !in errs && YRangeMessage !in errs && XRangeMessage() !in errs
  {
    forall e | e in [NotANumberMessage("x"), NotANumberMessage("y"), NotANumberMessage("r")]
      ensures !IsRangeMessage(e)
    {
      assert e[20] == 'a';
      assert XRangeMessage()[20] == 'b';
    }
  }

  /** With x and y in range, a radius of at most 0 is reported as not positive, and only that. */
  lemma NonPositiveRadiusRejected(x: Decimal, y: Double, r: Double)
    requires !XOutOfRange(x) && !YOutOfRange(y) && AtMost(r, 0.0)
    ensures ParsedValidation(Some(x), Some(y), Some(r)) == Invalid([RPositiveMessage])
  {
  }

  /** The allowed-set message is only ever given for a radius that parsed and is not at most 0. */
  lemma NotAllowedOnlyForPositive(xo: Option<Decimal>, yo: Option<Double>, ro: Option<Double>)
    ensures var v := ParsedValidation(xo, yo, ro);
      v.Invalid? && RNotAllowedMessage in v.errors ==> ro.Some? && !AtMost(ro.value, 0.0)
  {
    var v := ParsedValidation(xo, yo, ro);
    var parse := ParseErrors(xo, yo, ro);
    if parse != [] {
      ParseNotRange(parse);
    } else {
      NotAllowedMessageDistinct();
    }
  }

  lemma NotAllowedMessageDistinct()
    ensures RNotAllowedMessage != RPositiveMessage
    ensures RNotAllowedMessage != YRangeMessage
    ensures RNotAllowedMessage != XRangeMessage()
  {
    assert |RNotAllowedMessage| == 62;
    assert XRangeMessage()[10] == 'x';
  }

  // ---------------------------------------------------------------------------------------
  // The y check and NaN

  /**
   * As written, `y < Y_MIN || y > Y_MAX` lets "NaN" through (both comparisons are false),
   * and the record it would produce cannot be printed (`BigDecimal.valueOf(NaN)` throws).
   */
  lemma NaNPassesYCheckAsWritten()
    ensures ParseDouble("NaN") == Some(NaN)
    ensures !YOutOfRangeAsWritten(NaN)
    ensures FormatDouble(NaN).None?
  {
    ParseNaN();
  }

  /** The corrected check agrees with the written one on every double except NaN. */
  lemma YChecksDifferOnlyOnNaN(y: Double)
    ensures YOutOfRangeAsWritten(y) != YOutOfRange(y) <==> y.NaN?
  {
  }

  /** With the corrected check, y = "NaN" is rejected with the y range message. */
  lemma NaNRejected()
    ensures ValidationOf(map["x" := "0", "y" := "NaN", "r" := "2"]) == Invalid([YRangeMessage])
  {
    ValidationOfPresent("0", "NaN", "2");
    OneDigitParse('0');
    ParseNaN();
    OneDigitParse('2');
    NaNRangeError();
  }

  /** With all three parameters present, only parsing and the range checks decide. */
  lemma ValidationOfPresent(x: string, y: string, r: string)
    ensures ValidationOf(map["x" := x, "y" := y, "r" := r])
         == ParsedValidation(ParseBigDecimal(x), ParseDouble(y), ParseDouble(r))
  {
    assert MissingErrors(map["x" := x, "y" := y, "r" := r]) == [];
  }

  lemma SmallDigits()
    ensures DigitsValue("0") == 0 && DigitsValue("1") == 1 && DigitsValue("2") == 2
  {
    assert "0"[..0] == "1"[..0] == "2"[..0] == "";
  }

  lemma NaNRangeError()
    ensures ParsedValidation(Some(Decimal(0, 0)), Some(NaN), Some(Finite(Decimal(2, 0)))) == Invalid([YRangeMessage])
  {
    XBoundsValues();
  }

  /** r = 1.7 is positive but more than `EPS` from every allowed radius. */
  lemma FractionalRadiusRejected()
    ensures ValidationOf(map["x" := "1", "y" := "0", "r" := "1.7"]) == Invalid([RNotAllowedMessage])
  {
    ValidationOfPresent("1", "0", "1.7");
    OneDigitParse('1');
    OneDigitParse('0');
    ParseOnePointSeven();
    OnePointSevenNotAllowed();
  }

  lemma ParseOnePointSeven()
    ensures ParseDouble("1.7") == Some(Finite(Decimal(17, 1)))
  {
    FractionParseDouble("1", "7");
    assert "1" + "." + "7" == "1.7";
    assert DigitsValue("1" + "7") == 17 by {
      assert ("1" + "7")[..1] == "1";
      SmallDigits();
    }
  }

  lemma OnePointSevenNotAllowed()
    ensures ParsedValidation(Some(Decimal(1, 0)), Some(Finite(Decimal(0, 0))), Some(Finite(Decimal(17, 1))))
      == Invalid([RNotAllowedMessage])
  {
    XBoundsValues();
    assert Pow10(1) == 10;
    assert Value(Decimal(17, 1)) == 1.7;
    assert !InAllowedSet(Finite(Decimal(17, 1)));
  }
}
