/**
 * `validateForm`: the X text is trimmed, its first comma turned into a point, and checked
 * against `^[-+]?\d+(\.\d+)?$` and the range [−3, 5]; Y must convert to a number; R must be
 * chosen and be one of the allowed texts. The messages are joined with single spaces.
 */
module ClientForm {
  import opened Wrappers
  import opened Strings
  import opened Numbers

  // ---------------------------------------------------------------------------------------
  // JavaScript strings and numbers

  /** ECMAScript WhiteSpace and LineTerminator code points, which `trim` and `Number` strip. */
  predicate JsWhitespace(c: char) {
    || c == '\t' || c == '\n' || c == '\U{B}' || c == '\U{C}' || c == '\r' || c == ' '
    || c == '\U{A0}' || c == '\U{1680}' || ('\U{2000}' <= c <= '\U{200A}')
    || c == '\U{2028}' || c == '\U{2029}' || c == '\U{202F}' || c == '\U{205F}'
    || c == '\U{3000}' || c == '\U{FEFF}'
  }

  /** `String.prototype.trim`. */
  function JsTrim(s: string): (t: string)
    ensures |t| <= |s|
    ensures |t| > 0 ==> !JsWhitespace(t[0]) && !JsWhitespace(t[|t| - 1])
  {
    if |s| > 0 && JsWhitespace(s[0]) then JsTrim(s[1..])
    else if |s| > 0 && JsWhitespace(s[|s| - 1]) then JsTrim(s[..|s| - 1])
    else s
  }

  /** `s.replace(c, t)` with a string pattern: only the first occurrence is replaced. */
  function ReplaceFirst(s: string, c: char, t: string): string {
    if c in s then
      var i := IndexOf(s, c);
      s[..i] + t + s[i + 1..]
    else s
  }

  /** A JavaScript number: NaN, an infinity, or a finite value (held exactly, unrounded). */
  datatype JsNum = NaNValue | InfinityValue(negative: bool) | FiniteValue(value: real)

  /** The value of a digit in base 2, 8 or 16, if it is one. */
  function RadixDigit(c: char, base: nat): Option<nat> {
    var d: int :=
      if '0' <= c <= '9' then c as int - '0' as int
      else if 'a' <= c <= 'f' then c as int - 'a' as int + 10
      else if 'A' <= c <= 'F' then c as int - 'A' as int + 10
      else 99;
    if 0 <= d < base then Some(d) else None
  }

  /** The value of a digit string in the given base, if every character is a digit of it. */
  function RadixValue(ds: string, base: nat): Option<nat>
    decreases |ds|
  {
    if ds == [] then Some(0)
    else match (RadixValue(ds[..|ds| - 1], base), RadixDigit(ds[|ds| - 1], base))
      case (Some(v), Some(d)) => Some(v * base + d)
      case _ => None
  }

  function RadixOf(marker: char): nat {
    if marker == 'x' || marker == 'X' then 16
    else if marker == 'o' || marker == 'O' then 8
    else if marker == 'b' || marker == 'B' then 2
    else 0
  }

  /**
   * `Number(s)`: whitespace trimmed; empty is 0; `0x`/`0o`/`0b` integers without sign;
   * otherwise an optional sign and `Infinity` or a decimal literal; anything else is NaN.
   */
  function JsToNumber(s: string): JsNum {
    var t := JsTrim(s);
    if t == "" then FiniteValue(0.0)
    else if |t| >= 2 && t[0] == '0' && RadixOf(t[1]) != 0 then
      match RadixValue(t[2..], RadixOf(t[1]))
      case Some(v) => if |t| > 2 then FiniteValue(v as real) else NaNValue
      case None => NaNValue
    else
      var neg := t[0] == '-';
      var body := if t[0] == '-' || t[0] == '+' then t[1..] else t;
      if body == "Infinity" then InfinityValue(neg)
      else match ParseUnsignedDecimal(body)
        case None => NaNValue
        case Some(d) => FiniteValue(if neg then -Value(d) else Value(d))
  }

  /** `n < c`, false for NaN. */
  predicate JsLess(n: JsNum, c: real) {
    match n
    case NaNValue => false
    case InfinityValue(neg) => neg
    case FiniteValue(v) => v < c
  }

  /** `n > c`, false for NaN. */
  predicate JsGreater(n: JsNum, c: real) {
    match n
    case NaNValue => false
    case InfinityValue(neg) => !neg
    case FiniteValue(v) => v > c
  }

  // ---------------------------------------------------------------------------------------
  // The rules

  /** `allowedR`. */
  const AllowedR: set<string> := {"1", "1.5", "2", "2.5", "3"}

  const XNotNumberMessage: string := "Введите числовое значение X."
  const XRangeMessage: string := "X должен находиться в диапазоне (-3 ... 5)."
  const YMessage: string := "Выберите допустимое значение Y."
  const RMissingMessage: string := "Выберите значение R."
  const RNotAllowedMessage: string := "Выбранное значение R недопустимо."

  /** `xInput.value.trim().replace(",", ".")`. */
  function RawX(xValue: string): string {
    ReplaceFirst(JsTrim(xValue), ',', ".")
  }

  /** The integer and fraction digits of an unsigned `\d+(\.\d+)?`, if the text is one. */
  function XDigits(body: string): Option<(string, string)> {
    if '.' in body then
      var d := IndexOf(body, '.');
      var ip, fp := body[..d], body[d + 1..];
      if |ip| >= 1 && AllDigits(ip) && |fp| >= 1 && AllDigits(fp) then Some((ip, fp)) else None
    else if |body| >= 1 && AllDigits(body) then Some((body, ""))
    else None
  }

  function Unsigned(s: string): string {
    if |s| > 0 && (s[0] == '-' || s[0] == '+') then s[1..] else s
  }

  /** `/^[-+]?\d+(\.\d+)?$/.test(s)`. */
  predicate MatchesX(s: string) {
    XDigits(Unsigned(s)).Some?
  }

  /** The decimal the digits of an unsigned match spell. */
  function PatternDecimal(body: string): Decimal
    requires XDigits(body).Some?
  {
    var (ip, fp) := XDigits(body).value;
    Decimal(DigitsValue(ip + fp), |fp|)
  }

  /** The number a matching text denotes, read off the pattern's parts. */
  function PatternValue(s: string): real
    requires MatchesX(s)
  {
    var v := Value(PatternDecimal(Unsigned(s)));
    if |s| > 0 && s[0] == '-' then -v else v
  }

  /** The X messages: not a number, else out of range, else none. */
  function XErrors(rawX: string): seq<string> {
    if rawX == "" || !MatchesX(rawX) then [XNotNumberMessage]
    else if JsLess(JsToNumber(rawX), -3.0) || JsGreater(JsToNumber(rawX), 5.0) then [XRangeMessage]
    else []
  }

  function YErrors(rawY: string): seq<string> {
    if |rawY| == 0 || JsToNumber(rawY).NaNValue? then [YMessage] else []
  }

  function RErrors(selectedR: Option<string>): seq<string> {
    (if selectedR.None? then [RMissingMessage] else [])
    + (if selectedR.Some? && selectedR.value !in AllowedR then [RNotAllowedMessage] else [])
  }

  lemma RErrorsCases(selectedR: Option<string>)
    ensures selectedR.None? ==> RErrors(selectedR) == [RMissingMessage]
    ensures selectedR.Some? ==> RErrors(selectedR) == if selectedR.value in AllowedR then [] else [RNotAllowedMessage]
  {
  }

  /** All messages `validateForm` pushes, in the order of the checks. */
  function FormErrors(xValue: string, yValue: string, selectedR: Option<string>): seq<string> {
    XErrors(RawX(xValue)) + YErrors(yValue) + RErrors(selectedR)
  }

  /** The outcome: the texts to send, or the joined messages. */
  datatype FormResult = FormValid(x: string, y: string, r: string) | FormInvalid(message: string)

  /** `validateForm()`, over the X text, the Y option's value and the checked R (if any). */
  method ValidateForm(xValue: string, yValue: string, selectedR: Option<string>) returns (result: FormResult)
    ensures result.FormValid? <==> FormErrors(xValue, yValue, selectedR) == []
    ensures result.FormValid? ==> result == FormValid(RawX(xValue), yValue, selectedR.value)
    ensures result.FormInvalid? ==> result.message == Join(FormErrors(xValue, yValue, selectedR), " ")
  {
    var errors: seq<string> := [];
    var rawX := RawX(xValue);
    var rawY := yValue;
    if rawX == "" || !MatchesX(rawX) {
      errors := errors + [XNotNumberMessage];
    } else if JsLess(JsToNumber(rawX), -3.0) || JsGreater(JsToNumber(rawX), 5.0) {
      errors := errors + [XRangeMessage];
    }
    assert errors == XErrors(rawX);
    var y := JsToNumber(rawY);
    if |rawY| == 0 || y.NaNValue? {
      errors := errors + [YMessage];
    }
    assert errors == XErrors(rawX) + YErrors(rawY);
    ghost var before := errors;
    var r: string := "";
    if selectedR.None? {
      errors := errors + [RMissingMessage];
    } else {
      r := selectedR.value;
      if r !in AllowedR {
        errors := errors + [RNotAllowedMessage];
      }
    }
    RErrorsCases(selectedR);
    assert errors == before + RErrors(selectedR);
    assert errors == FormErrors(xValue, yValue, selectedR);
    if |errors| > 0 {
      result := FormInvalid(Join(errors, " "));
    } else {
      result := FormValid(rawX, rawY, r);
    }
  }

  // ---------------------------------------------------------------------------------------
  // Properties

  /** A text matching the pattern converts to the number the pattern denotes. */
  lemma MatchedNumber(s: string)
    requires MatchesX(s)
    ensures JsToNumber(s) == FiniteValue(PatternValue(s))
  {
    var body := Unsigned(s);
    MatchedUntrimmed(s);
    UnsignedPatternParse(body);
    PatternStart(body);
    PlainNumber(s, PatternDecimal(body));
  }

  /** An unsigned match starts with a digit, followed by a digit or the point. */
  lemma PatternStart(body: string)
    requires XDigits(body).Some?
    ensures |body| >= 1 && IsDigit(body[0]) && (|body| >= 2 ==> IsDigit(body[1]) || body[1] == '.')
  {
    DigitEnds(body);
    if |body| >= 2 {
      PatternChars(body, 1);
    }
  }

  /**
   * `Number(s)` of an untrimmed text whose unsigned part starts with a decimal digit (not a
   * `0x`-style prefix) is the decimal that part spells, signed.
   */
  lemma PlainNumber(s: string, d: Decimal)
    requires JsTrim(s) == s
    requires var body := Unsigned(s);
      && |body| >= 1 && IsDigit(body[0]) && (|body| >= 2 ==> IsDigit(body[1]) || body[1] == '.')
      && ParseUnsignedDecimal(body) == Some(d)
    ensures JsToNumber(s) == FiniteValue(if s[0] == '-' then -Value(d) else Value(d))
  {
    PlainShape(s);
  }

  /** Such a text is neither `Infinity` nor a `0x`-style literal. */
  lemma PlainShape(s: string)
    requires |s| >= 1
    requires var body := Unsigned(s);
      && |body| >= 1 && IsDigit(body[0]) && (|body| >= 2 ==> IsDigit(body[1]) || body[1] == '.')
    ensures Unsigned(s) != "Infinity"
    ensures !(s[0] == '0' && |s| >= 2 && RadixOf(s[1]) != 0)
  {
    var body := Unsigned(s);
    assert body != "Infinity" by {
      assert body[0] != 'I';
    }
    if s[0] == '0' && |s| >= 2 {
      assert s[1] == body[1];
    }
  }

  lemma PatternChars(body: string, k: nat)
    requires XDigits(body).Some? && k < |body|
    ensures IsDigit(body[k]) || body[k] == '.'
  {
    if '.' in body {
      var d := IndexOf(body, '.');
      if k < d {
        assert body[k] == body[..d][k];
      } else if k > d {
        assert body[k] == body[d + 1..][k - d - 1];
      }
    }
  }

  /** A matching text has no surrounding whitespace, so trimming leaves it as it is. */
  lemma MatchedUntrimmed(s: string)
    requires MatchesX(s)
    ensures |s| >= 1 && !JsWhitespace(s[0]) && !JsWhitespace(s[|s| - 1])
    ensures JsTrim(s) == s
  {
    var body := Unsigned(s);
    DigitEnds(body);
    UnsignedEnds(s);
    DigitNotSpace(body[|body| - 1]);
    if s[0] != '-' && s[0] != '+' {
      DigitNotSpace(body[0]);
    }
    TrimUnchangedJs(s);
  }

  /** Dropping a sign keeps the last character, and the first one when there is no sign. */
  lemma UnsignedEnds(s: string)
    requires |Unsigned(s)| >= 1
    ensures |s| >= 1 && s[|s| - 1] == Unsigned(s)[|Unsigned(s)| - 1]
    ensures s[0] != '-' && s[0] != '+' ==> s[0] == Unsigned(s)[0]
  {
  }

  lemma DigitNotSpace(c: char)
    requires IsDigit(c)
    ensures !JsWhitespace(c)
  {
  }

  /** `trim` leaves a string alone when neither end is whitespace. */
  lemma TrimUnchangedJs(s: string)
    requires |s| >= 1 && !JsWhitespace(s[0]) && !JsWhitespace(s[|s| - 1])
    ensures JsTrim(s) == s
  {
  }

  /** `t` is `s[i..j]`, with only whitespace before and after it in `s`. */
  predicate JsTrimSlice(s: string, t: string, i: int, j: int) {
    && 0 <= i <= j <= |s| && t == s[i..j]
    && (forall k :: 0 <= k < i ==> JsWhitespace(s[k]))
    && (forall k :: j <= k < |s| ==> JsWhitespace(s[k]))
  }

  /**
   * `trim` removes a run of whitespace at each end and nothing else: the result is a slice of
   * `s` with only such characters before and after it.
   */
  lemma {:induction false} JsTrimSlices(s: string)
    ensures exists i, j :: JsTrimSlice(s, JsTrim(s), i, j)
    decreases |s|
  {
    if |s| > 0 && JsWhitespace(s[0]) {
      JsTrimSlices(s[1..]);
      var i, j :| JsTrimSlice(s[1..], JsTrim(s[1..]), i, j);
      JsTrimDropFirst(s, JsTrim(s[1..]), i, j);
      assert JsTrim(s) == JsTrim(s[1..]);
      assert JsTrimSlice(s, JsTrim(s), i + 1, j + 1);
    } else if |s| > 0 && JsWhitespace(s[|s| - 1]) {
      JsTrimSlices(s[..|s| - 1]);
      var i, j :| JsTrimSlice(s[..|s| - 1], JsTrim(s[..|s| - 1]), i, j);
      JsTrimDropLast(s, JsTrim(s[..|s| - 1]), i, j);
      assert JsTrim(s) == JsTrim(s[..|s| - 1]);
      assert JsTrimSlice(s, JsTrim(s), i, j);
    } else {
      assert JsTrim(s) == s && s[0..|s|] == s;
      assert JsTrimSlice(s, s, 0, |s|);
    }
  }

  lemma JsTrimDropFirst(s: string, t: string, i: int, j: int)
    requires |s| > 0 && JsWhitespace(s[0]) && JsTrimSlice(s[1..], t, i, j)
    ensures JsTrimSlice(s, t, i + 1, j + 1)
  {
    var u := s[1..];
    assert t == s[i + 1..j + 1];
    forall k | 0 <= k < i + 1
      ensures JsWhitespace(s[k])
    {
      if k > 0 {
        assert s[k] == u[k - 1];
      }
    }
    forall k | j + 1 <= k < |s|
      ensures JsWhitespace(s[k])
    {
      assert s[k] == u[k - 1];
    }
  }

  lemma JsTrimDropLast(s: string, t: string, i: int, j: int)
    requires |s| > 0 && JsWhitespace(s[|s| - 1]) && JsTrimSlice(s[..|s| - 1], t, i, j)
    ensures JsTrimSlice(s, t, i, j)
  {
    var u := s[..|s| - 1];
    assert t == s[i..j];
    forall k | 0 <= k < i
      ensures JsWhitespace(s[k])
    {
      assert s[k] == u[k];
    }
    forall k | j <= k < |s|
      ensures JsWhitespace(s[k])
    {
      if k < |s| - 1 {
        assert s[k] == u[k];
      }
    }
  }

  /** Both ends of an unsigned match are digits. */
  lemma DigitEnds(body: string)
    requires XDigits(body).Some?
    ensures |body| >= 1 && IsDigit(body[0]) && IsDigit(body[|body| - 1])
  {
    var (ip, fp) := XDigits(body).value;
    if '.' in body {
      var d := IndexOf(body, '.');
      assert body[0] == ip[0];
      assert body[|body| - 1] == fp[|fp| - 1];
    }
  }

  lemma UnsignedPatternParse(body: string)
    requires XDigits(body).Some?
    ensures ParseUnsignedDecimal(body) == Some(PatternDecimal(body))
  {
    var (ip, fp) := XDigits(body).value;
    if '.' in body {
      var d := IndexOf(body, '.');
      assert body == ip + "." + fp;
      FractionDigitsParse(ip, fp);
    } else {
      IntegerDigitsParse(ip);
      assert ip + fp == ip;
    }
  }

  /**
   * X is accepted exactly when the trimmed text, first comma made a point, matches the
   * pattern and denotes a number in [−3, 5]; a non-matching X gets only the first message.
   */
  lemma XRule(xValue: string)
    ensures XErrors(RawX(xValue)) == [] <==> MatchesX(RawX(xValue)) && -3.0 <= PatternValue(RawX(xValue)) <= 5.0
    ensures !MatchesX(RawX(xValue)) ==> XErrors(RawX(xValue)) == [XNotNumberMessage]
  {
    var s := RawX(xValue);
    if MatchesX(s) {
      MatchedNumber(s);
    }
  }

  /** Only the first comma becomes a point, so a second comma makes X fail the pattern. */
  lemma SecondCommaRejected(xValue: string)
    requires var t := JsTrim(xValue); ',' in t && ',' in t[IndexOf(t, ',') + 1..]
    ensures ',' in RawX(xValue)
    ensures XErrors(RawX(xValue)) == [XNotNumberMessage]
  {
    var t := JsTrim(xValue);
    var i := IndexOf(t, ',');
    var rest := t[i + 1..];
    var j :| 0 <= j < |rest| && rest[j] == ',';
    var s := RawX(xValue);
    assert s == t[..i] + "." + rest;
    assert s[i + 1 + j] == ',';
    if MatchesX(s) {
      NoCommaInMatch(s);
    }
  }

  lemma NoCommaInMatch(s: string)
    requires MatchesX(s)
    ensures ',' !in s
  {
    var body := Unsigned(s);
    if '.' in body {
      var d := IndexOf(body, '.');
      assert body == body[..d] + "." + body[d + 1..];
    }
    if |s| > 0 && (s[0] == '-' || s[0] == '+') {
      assert s == [s[0]] + body;
    }
  }

  /** R is accepted exactly when one is checked and its text is one of the five allowed. */
  lemma RRule(selectedR: Option<string>)
    ensures RErrors(selectedR) == [] <==> selectedR.Some? && selectedR.value in AllowedR
    ensures selectedR.None? ==> RErrors(selectedR) == [RMissingMessage]
  {
  }

  /** An empty form reports all three problems, in check order, separated by single spaces. */
  lemma EmptyForm()
    ensures FormErrors("", "", None) == [XNotNumberMessage, YMessage, RMissingMessage]
    ensures Join(FormErrors("", "", None), " ") == XNotNumberMessage + " " + YMessage + " " + RMissingMessage
  {
    assert JsTrim("") == "";
    assert RawX("") == "";
    assert FormErrors("", "", None) == [XNotNumberMessage, YMessage, RMissingMessage];
    var es := [XNotNumberMessage, YMessage, RMissingMessage];
    assert es[1..] == [YMessage, RMissingMessage];
    assert es[1..][1..] == [RMissingMessage];
  }
}
