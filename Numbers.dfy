/**
 * The numbers of the server: `java.math.BigDecimal` for x and `double` for y, r and the
 * processing time. A BigDecimal is an unscaled integer and a scale, exactly as Java keeps it,
 * so its text form and its comparisons are exact. A double is a decimal value, NaN or an
 * infinity; rounding to 53 bits is not modelled.
 */
module Numbers {
  import opened Wrappers

  predicate IsDigit(c: char) {
    '0' <= c <= '9'
  }

  predicate AllDigits(s: string) {
    forall i :: 0 <= i < |s| ==> IsDigit(s[i])
  }

  function DigitChar(n: nat): (c: char)
    requires n < 10
    ensures IsDigit(c)
  {
    ('0' as int + n) as char
  }

  /** The number a string of decimal digits denotes (leading zeros allowed). */
  function DigitsValue(ds: string): nat
    requires AllDigits(ds)
  {
    if |ds| == 0 then 0
    else DigitsValue(ds[..|ds| - 1]) * 10 + (ds[|ds| - 1] as int - '0' as int)
  }

  function Pow10(n: nat): (p: nat)
    ensures p >= 1
  {
    if n == 0 then 1 else 10 * Pow10(n - 1)
  }

  function Zeros(n: nat): (s: string)
    ensures |s| == n && AllDigits(s)
    ensures forall i :: 0 <= i < n ==> s[i] == '0'
  {
    if n == 0 then "" else Zeros(n - 1) + "0"
  }

  /** The decimal digits of `n`, without leading zeros (`Long.toString` of a non-negative value). */
  function NatString(n: nat): (s: string)
    ensures |s| >= 1 && AllDigits(s) && DigitsValue(s) == n
  {
    if n < 10 then [DigitChar(n)]
    else
      var s := NatString(n / 10) + [DigitChar(n % 10)];
      assert s[..|s| - 1] == NatString(n / 10);
      s
  }

  /** `Long.toString` / `BigInteger.toString`. */
  function IntString(i: int): string {
    if i < 0 then "-" + NatString(-i) else NatString(i)
  }

  // ---------------------------------------------------------------------------------------
  // BigDecimal

  /** A `BigDecimal`: the number `unscaled` × 10^(−`scale`). */
  datatype Decimal = Decimal(unscaled: int, scale: int)

  /** The exact value of a decimal. */
  function Value(d: Decimal): real {
    if d.scale >= 0 then d.unscaled as real / Pow10(d.scale) as real
    else (d.unscaled * Pow10(-d.scale)) as real
  }

  /** Position of the first exponent marker `e`/`E`, or |s| when there is none. */
  function ExponentMarker(s: string): (i: nat)
    ensures i <= |s|
    ensures forall k :: 0 <= k < i ==> s[k] != 'e' && s[k] != 'E'
    ensures i < |s| ==> s[i] == 'e' || s[i] == 'E'
  {
    if |s| == 0 || s[0] == 'e' || s[0] == 'E' then 0 else 1 + ExponentMarker(s[1..])
  }

  /** `IntegerPart . FractionPart?`, `. FractionPart` or `IntegerPart`: the two digit strings. */
  function ParseSignificand(m: string): (r: Option<(string, string)>)
    ensures r.Some? ==> AllDigits(r.value.0) && AllDigits(r.value.1) && |r.value.0| + |r.value.1| >= 1
  {
    if '.' in m then
      var dot := IndexOfChar(m, '.');
      var ip, fp := m[..dot], m[dot + 1..];
      if AllDigits(ip) && AllDigits(fp) && |ip| + |fp| >= 1 then Some((ip, fp)) else None
    else if AllDigits(m) && |m| >= 1 then Some((m, ""))
    else None
  }

  function IndexOfChar(s: string, c: char): (i: nat)
    requires c in s
    ensures i < |s| && s[i] == c && c !in s[..i]
  {
    if s[0] == c then 0 else 1 + IndexOfChar(s[1..], c)
  }

  /** The signed integer after an exponent marker: an optional sign and at least one digit. */
  function ParseExponent(s: string): Option<int> {
    var neg := |s| > 0 && s[0] == '-';
    var ds := if |s| > 0 && (s[0] == '-' || s[0] == '+') then s[1..] else s;
    if |ds| >= 1 && AllDigits(ds) then
      var v: int := DigitsValue(ds);
      Some(if neg then -v else v)
    else None
  }

  /** A decimal without a sign: significand, then optionally an exponent. */
  function ParseUnsignedDecimal(s: string): Option<Decimal> {
    var e := ExponentMarker(s);
    match ParseSignificand(s[..e])
    case None => None
    case Some((ip, fp)) =>
      var exp := if e == |s| then Some(0) else ParseExponent(s[e + 1..]);
      match exp
      case None => None
      case Some(x) => Some(Decimal(DigitsValue(ip + fp), |fp| - x))
  }

  function Negate(d: Decimal): Decimal {
    Decimal(-d.unscaled, d.scale)
  }

  /** The range of a Java `int`. */
  const IntMin: int := -0x8000_0000
  const IntMax: int := 0x7FFF_FFFF

  predicate IsInt(n: int) {
    IntMin <= n <= IntMax
  }

  /** The exponent written after the marker, or 0 when there is none. */
  function ExponentOf(s: string): int {
    var e := ExponentMarker(s);
    if e == |s| then 0 else ParseExponent(s[e + 1..]).GetOr(0)
  }

  /**
   * `new BigDecimal(s)`; `None` stands for the `NumberFormatException`. No trimming. Besides
   * the grammar, the exponent and the resulting scale must each fit in an `int`.
   */
  function ParseBigDecimal(s: string): (r: Option<Decimal>)
    ensures r.Some? ==> IsInt(r.value.scale)
  {
    match ParseDecimalText(s)
    case None => None
    case Some(d) => if IsInt(ExponentOf(s)) && IsInt(d.scale) then Some(d) else None
  }

  /** The grammar of `new BigDecimal(s)`, without its limits on the exponent and the scale. */
  function ParseDecimalText(s: string): Option<Decimal> {
    if |s| > 0 && (s[0] == '-' || s[0] == '+') then
      match ParseUnsignedDecimal(s[1..])
      case None => None
      case Some(d) => Some(if s[0] == '-' then Negate(d) else d)
    else ParseUnsignedDecimal(s)
  }

  /** `BigDecimal.toPlainString()`: no exponent, exactly `scale` fraction digits when scale > 0. */
  function ToPlainString(d: Decimal): string {
    if d.scale < 0 then
      if d.unscaled == 0 then "0" else IntString(d.unscaled) + Zeros(-d.scale)
    else if d.unscaled < 0 then "-" + PlainDigits(-d.unscaled, d.scale)
    else PlainDigits(d.unscaled, d.scale)
  }

  /** The digits of `u` with a decimal point inserted `scale` places from the right. */
  function PlainDigits(u: nat, scale: nat): (s: string)
    ensures |s| >= 1 && IsDigit(s[0])
  {
    var digits := NatString(u);
    if scale == 0 then digits
    else
      var point := |digits| - scale;
      if point > 0 then digits[..point] + "." + digits[point..]
      else "0." + Zeros(scale - |digits|) + digits
  }

  // ---------------------------------------------------------------------------------------
  // double

  /** A Java `double`: a finite decimal value (unrounded), NaN, or an infinity. */
  datatype Double = Finite(d: Decimal) | NaN | Infinity(negative: bool)

  /** Characters `String.trim()` removes: every char up to U+0020. */
  predicate JavaTrimmed(c: char) {
    c <= ' '
  }

  /** `String.trim()`. */
  function JavaTrim(s: string): (t: string)
    ensures |t| <= |s|
    ensures |t| > 0 ==> !JavaTrimmed(t[0]) && !JavaTrimmed(t[|t| - 1])
  {
    if |s| > 0 && JavaTrimmed(s[0]) then JavaTrim(s[1..])
    else if |s| > 0 && JavaTrimmed(s[|s| - 1]) then JavaTrim(s[..|s| - 1])
    else s
  }

  predicate IsFloatSuffix(c: char) {
    c == 'f' || c == 'F' || c == 'd' || c == 'D'
  }

  /**
   * `Double.parseDouble(s)`: trimmed, optional sign, then `NaN`, `Infinity`, or a decimal
   * with an optional exponent and one optional `f`/`F`/`d`/`D` suffix.
   */
  function ParseDouble(s: string): Option<Double> {
    var t := JavaTrim(s);
    var neg := |t| > 0 && t[0] == '-';
    var body := if |t| > 0 && (t[0] == '-' || t[0] == '+') then t[1..] else t;
    if body == "NaN" then Some(NaN)
    else if body == "Infinity" then Some(Infinity(neg))
    else
      var core := if |body| > 0 && IsFloatSuffix(body[|body| - 1]) then body[..|body| - 1] else body;
      match ParseUnsignedDecimal(core)
      case None => None
      case Some(d) => Some(Finite(if neg then Negate(d) else d))
  }

  /** `a < c` on doubles, for a finite constant `c`: false whenever `a` is NaN. */
  predicate Less(a: Double, c: real) {
    match a
    case Finite(d) => Value(d) < c
    case NaN => false
    case Infinity(neg) => neg
  }

  /** `a > c` on doubles, for a finite constant `c`: false whenever `a` is NaN. */
  predicate Greater(a: Double, c: real) {
    match a
    case Finite(d) => Value(d) > c
    case NaN => false
    case Infinity(neg) => !neg
  }

  /** `a <= c` on doubles, for a finite constant `c`: false whenever `a` is NaN. */
  predicate AtMost(a: Double, c: real) {
    match a
    case Finite(d) => Value(d) <= c
    case NaN => false
    case Infinity(neg) => neg
  }

  /** Removes trailing zero digits from the fraction. */
  function StripFractionZeros(d: Decimal): (r: Decimal)
    decreases if d.scale > 0 then d.scale else 0
  {
    if d.scale > 0 && d.unscaled % 10 == 0 then StripFractionZeros(Decimal(d.unscaled / 10, d.scale - 1))
    else d
  }

  /** `Double.toString` switches to computerized scientific notation outside [10^−3, 10^7). */
  predicate PlainRange(d: Decimal) {
    var v := Value(d);
    (0.001 <= v < 10000000.0) || (-10000000.0 < v <= -0.001)
  }

  /**
   * The decimal `BigDecimal.valueOf(v)` holds for a finite double, read back from the text
   * of `Double.toString(v)`: zero is "0.0"; in the plain range the shortest digits with at
   * least one fraction digit ("2.0", "1.5", "50.0"); outside it "d.ddd" times a power of ten,
   * so a single significant digit gains a trailing zero ("1.0E-4" is 10 × 10^−5).
   */
  function DoubleDecimal(d: Decimal): Decimal {
    var s := StripFractionZeros(d);
    if s.unscaled == 0 then Decimal(0, 1)
    else if PlainRange(d) then
      if s.scale >= 1 then s else Decimal(s.unscaled * Pow10(1 - s.scale), 1)
    else if -10 < s.unscaled < 10 then Decimal(s.unscaled * 10, s.scale + 1)
    else s
  }

  /** `formatNumber(double)`: `BigDecimal.valueOf(v).toPlainString()`; NaN and infinities throw. */
  function FormatDouble(v: Double): (r: Option<string>)
    ensures r.Some? <==> v.Finite?
  {
    match v
    case Finite(d) => Some(FormatFinite(d))
    case _ => None
  }

  /** `formatNumber(double)` for a finite double. */
  function FormatFinite(d: Decimal): string {
    ToPlainString(DoubleDecimal(d))
  }

  /** `formatNumber(BigDecimal)`. */
  function FormatDecimal(d: Decimal): string {
    ToPlainString(d)
  }

  // ---------------------------------------------------------------------------------------
  // Properties

  lemma {:induction false} DigitsValueConcat(a: string, b: string)
    requires AllDigits(a) && AllDigits(b)
    ensures AllDigits(a + b)
    ensures DigitsValue(a + b) == DigitsValue(a) * Pow10(|b|) + DigitsValue(b)
    decreases |b|
  {
    if |b| == 0 {
      assert a + b == a;
    } else {
      var b' := b[..|b| - 1];
      var c := b[|b| - 1] as int - '0' as int;
      assert (a + b)[..|a + b| - 1] == a + b';
      assert (a + b)[|a + b| - 1] == b[|b| - 1];
      DigitsValueConcat(a, b');
      assert DigitsValue(b) == DigitsValue(b') * 10 + c;
      assert Pow10(|b|) == Pow10(|b'|) * 10;
      assert DigitsValue(a + b) == DigitsValue(a + b') * 10 + c;
      ShiftDigit(DigitsValue(a), Pow10(|b'|), DigitsValue(b'), c);
    }
  }

  /** One more digit shifts both parts of the split value one place. */
  lemma ShiftDigit(va: int, p: int, vb: int, c: int)
    ensures (va * p + vb) * 10 + c == va * (p * 10) + (vb * 10 + c)
  {
  }

  lemma {:induction false} DigitsValueZeros(n: nat)
    ensures DigitsValue(Zeros(n)) == 0
  {
    if n > 0 {
      assert Zeros(n)[..n - 1] == Zeros(n - 1);
      DigitsValueZeros(n - 1);
    }
  }

  lemma LeadingZerosValue(k: nat, ds: string)
    requires AllDigits(ds)
    ensures AllDigits(Zeros(k) + ds) && DigitsValue(Zeros(k) + ds) == DigitsValue(ds)
  {
    DigitsValueConcat(Zeros(k), ds);
    DigitsValueZeros(k);
    var p := Pow10(|ds|);
    assert DigitsValue(Zeros(k)) * p == 0;
  }

  lemma ZeroPrefixValue(x: string)
    requires AllDigits(x)
    ensures AllDigits("0" + x) && DigitsValue("0" + x) == DigitsValue(x)
  {
    DigitsValueConcat("0", x);
    assert "0"[..0] == "";
    assert DigitsValue("0") == 0;
    var p := Pow10(|x|);
    assert DigitsValue("0") * p == 0;
  }

  /** A plain digit string reads back as an integer decimal with scale 0. */
  lemma IntegerDigitsParse(ds: string)
    requires |ds| >= 1 && AllDigits(ds)
    ensures ParseUnsignedDecimal(ds) == Some(Decimal(DigitsValue(ds), 0))
  {
    assert ExponentMarker(ds) == |ds|;
    assert ds[..|ds|] == ds;
    assert '.' !in ds;
    assert ds + "" == ds;
  }

  /** `ip.fp` reads back with the digits of both parts and one scale step per fraction digit. */
  lemma FractionDigitsParse(ip: string, fp: string)
    requires |ip| >= 1 && AllDigits(ip) && AllDigits(fp)
    ensures ParseUnsignedDecimal(ip + "." + fp) == Some(Decimal(DigitsValue(ip + fp), |fp|))
  {
    FractionTextParse(ip + "." + fp, ip, fp);
  }

  /** The same, for a text known only to equal `ip.fp`. */
  lemma FractionTextParse(m: string, ip: string, fp: string)
    requires |ip| >= 1 && AllDigits(ip) && AllDigits(fp)
    requires m == ip + "." + fp
    ensures ParseUnsignedDecimal(m) == Some(Decimal(DigitsValue(ip + fp), |fp|))
  {
    NoExponentMarker(ip, fp);
    assert m[..|m|] == m;
    PointAfterDigits(ip, fp);
  }

  lemma NoExponentMarker(ip: string, fp: string)
    requires AllDigits(ip) && AllDigits(fp)
    ensures ExponentMarker(ip + "." + fp) == |ip + "." + fp|
  {
    var m := ip + "." + fp;
    forall k | 0 <= k < |m| ensures m[k] != 'e' && m[k] != 'E' {
      if k < |ip| { assert m[k] == ip[k]; }
      else if k > |ip| { assert m[k] == fp[k - |ip| - 1]; }
    }
  }

  lemma PointAfterDigits(ip: string, fp: string)
    requires |ip| >= 1 && AllDigits(ip) && AllDigits(fp)
    ensures var m := ip + "." + fp;
      '.' in m && IndexOfChar(m, '.') == |ip| && m[..|ip|] == ip && m[|ip| + 1..] == fp
  {
    var m := ip + "." + fp;
    assert m[|ip|] == '.';
    assert m[..|ip|] == ip;
    assert '.' !in ip;
    assert m[|ip| + 1..] == fp;
  }

  /** `trim` leaves a string alone when neither end is a control character or space. */
  lemma TrimUnchanged(s: string)
    requires |s| > 0 && !JavaTrimmed(s[0]) && !JavaTrimmed(s[|s| - 1])
    ensures JavaTrim(s) == s
  {
  }

  /** `t` is `s[i..j]`, with only control characters and spaces before and after it in `s`. */
  predicate JavaTrimSlice(s: string, t: string, i: int, j: int) {
    && 0 <= i <= j <= |s| && t == s[i..j]
    && (forall k :: 0 <= k < i ==> JavaTrimmed(s[k]))
    && (forall k :: j <= k < |s| ==> JavaTrimmed(s[k]))
  }

  /**
   * `trim` removes a run of control characters and spaces at each end and nothing else: the result is a slice of
   * `s` with only such characters before and after it.
   */
  lemma {:induction false} JavaTrimSlices(s: string)
    ensures exists i, j :: JavaTrimSlice(s, JavaTrim(s), i, j)
    decreases |s|
  {
    if |s| > 0 && JavaTrimmed(s[0]) {
      JavaTrimSlices(s[1..]);
      var i, j :| JavaTrimSlice(s[1..], JavaTrim(s[1..]), i, j);
      JavaTrimDropFirst(s, JavaTrim(s[1..]), i, j);
      assert JavaTrim(s) == JavaTrim(s[1..]);
      assert JavaTrimSlice(s, JavaTrim(s), i + 1, j + 1);
    } else if |s| > 0 && JavaTrimmed(s[|s| - 1]) {
      JavaTrimSlices(s[..|s| - 1]);
      var i, j :| JavaTrimSlice(s[..|s| - 1], JavaTrim(s[..|s| - 1]), i, j);
      JavaTrimDropLast(s, JavaTrim(s[..|s| - 1]), i, j);
      assert JavaTrim(s) == JavaTrim(s[..|s| - 1]);
      assert JavaTrimSlice(s, JavaTrim(s), i, j);
    } else {
      assert JavaTrim(s) == s && s[0..|s|] == s;
      assert JavaTrimSlice(s, s, 0, |s|);
    }
  }

  lemma JavaTrimDropFirst(s: string, t: string, i: int, j: int)
    requires |s| > 0 && JavaTrimmed(s[0]) && JavaTrimSlice(s[1..], t, i, j)
    ensures JavaTrimSlice(s, t, i + 1, j + 1)
  {
    var u := s[1..];
    assert t == s[i + 1..j + 1];
    forall k | 0 <= k < i + 1
      ensures JavaTrimmed(s[k])
    {
      if k > 0 {
        assert s[k] == u[k - 1];
      }
    }
    forall k | j + 1 <= k < |s|
      ensures JavaTrimmed(s[k])
    {
      assert s[k] == u[k - 1];
    }
  }

  lemma JavaTrimDropLast(s: string, t: string, i: int, j: int)
    requires |s| > 0 && JavaTrimmed(s[|s| - 1]) && JavaTrimSlice(s[..|s| - 1], t, i, j)
    ensures JavaTrimSlice(s, t, i, j)
  {
    var u := s[..|s| - 1];
    assert t == s[i..j];
    forall k | 0 <= k < i
      ensures JavaTrimmed(s[k])
    {
      assert s[k] == u[k];
    }
    forall k | j <= k < |s|
      ensures JavaTrimmed(s[k])
    {
      if k < |s| - 1 {
        assert s[k] == u[k];
      }
    }
  }

  /** An unsigned decimal that starts with a digit and has no suffix parses as that double. */
  lemma PlainParseDouble(s: string, d: Decimal)
    requires |s| > 0 && IsDigit(s[0]) && (IsDigit(s[|s| - 1]) || s[|s| - 1] == '.')
    requires ParseUnsignedDecimal(s) == Some(d)
    ensures ParseDouble(s) == Some(Finite(d))
  {
    PlainDoubleShape(s);
  }

  /** Such a text is already trimmed, unsigned, neither `NaN` nor `Infinity`, and has no suffix. */
  lemma PlainDoubleShape(s: string)
    requires |s| > 0 && IsDigit(s[0]) && (IsDigit(s[|s| - 1]) || s[|s| - 1] == '.')
    ensures JavaTrim(s) == s && s[0] != '-' && s[0] != '+'
    ensures s != "NaN" && s != "Infinity" && !IsFloatSuffix(s[|s| - 1])
  {
    TrimUnchanged(s);
    assert s != "NaN" && s != "Infinity" by {
      assert IsDigit(s[0]);
    }
  }

  /** A single digit reads as that digit, both as a `BigDecimal` and as a `double`. */
  lemma OneDigitParse(c: char)
    requires IsDigit(c)
    ensures ParseBigDecimal([c]) == Some(Decimal(c as int - '0' as int, 0))
    ensures ParseDouble([c]) == Some(Finite(Decimal(c as int - '0' as int, 0)))
  {
    assert [c][..0] == [];
    DigitsParse([c]);
  }

  /** A string of digits parses as an integer, by `new BigDecimal` and `Double.parseDouble` alike. */
  lemma DigitsParse(s: string)
    requires |s| >= 1 && AllDigits(s)
    ensures ParseBigDecimal(s) == Some(Decimal(DigitsValue(s), 0))
    ensures ParseDouble(s) == Some(Finite(Decimal(DigitsValue(s), 0)))
  {
    IntegerDigitsParse(s);
    WithinLimits(s, Decimal(DigitsValue(s), 0));
    assert IsDigit(s[0]) && IsDigit(s[|s| - 1]);
    PlainParseDouble(s, Decimal(DigitsValue(s), 0));
  }

  /** `ip.fp` parses as a double with the digits of both parts. */
  lemma FractionParseDouble(ip: string, fp: string)
    requires |ip| >= 1 && AllDigits(ip) && AllDigits(fp)
    ensures ParseDouble(ip + "." + fp) == Some(Finite(Decimal(DigitsValue(ip + fp), |fp|)))
  {
    FractionDigitsParse(ip, fp);
    FractionEnds(ip, fp);
    PlainParseDouble(ip + "." + fp, Decimal(DigitsValue(ip + fp), |fp|));
  }

  lemma FractionEnds(ip: string, fp: string)
    requires |ip| >= 1 && AllDigits(ip) && AllDigits(fp)
    ensures var m := ip + "." + fp; IsDigit(m[0]) && (IsDigit(m[|m| - 1]) || m[|m| - 1] == '.')
  {
    var m := ip + "." + fp;
    assert m[0] == ip[0];
    if |fp| > 0 {
      assert m[|m| - 1] == fp[|fp| - 1];
    }
  }

  /** `Double.parseDouble("NaN")` is NaN. */
  lemma ParseNaN()
    ensures ParseDouble("NaN") == Some(NaN)
  {
    TrimUnchanged("NaN");
  }

  /** The unsigned text of `u` at scale `scale` reads back as exactly that pair. */
  lemma PlainDigitsParse(u: nat, scale: nat)
    ensures ParseUnsignedDecimal(PlainDigits(u, scale)) == Some(Decimal(u, scale))
  {
    if scale == 0 {
      IntegerDigitsParse(NatString(u));
    } else if |NatString(u)| > scale {
      PointInsideParse(u, scale);
    } else {
      PointBeforeParse(u, scale);
    }
  }

  lemma PointInsideParse(u: nat, scale: nat)
    requires 0 < scale < |NatString(u)|
    ensures ParseUnsignedDecimal(PlainDigits(u, scale)) == Some(Decimal(u, scale))
  {
    InsidePointText(u, scale);
    forall ds: string, p: nat | AllDigits(ds) && 0 < p <= |ds|
      ensures ParseUnsignedDecimal(ds[..p] + "." + ds[p..]) == Some(Decimal(DigitsValue(ds), |ds| - p))
    {
      SplitFractionParse(ds, p);
    }
  }

  lemma InsidePointText(u: nat, scale: nat)
    requires 0 < scale < |NatString(u)|
    ensures PlainDigits(u, scale)
         == NatString(u)[..|NatString(u)| - scale] + "." + NatString(u)[|NatString(u)| - scale..]
  {
  }

  lemma PointBeforeParse(u: nat, scale: nat)
    requires 0 < scale && |NatString(u)| <= scale
    ensures ParseUnsignedDecimal(PlainDigits(u, scale)) == Some(Decimal(u, scale))
  {
    var ds := NatString(u);
    var k: nat := scale - |ds|;
    PaddedPointText(u, scale);
    PaddedFractionParse(k, ds);
    assert Decimal(DigitsValue(ds), k + |ds|) == Decimal(u, scale);
  }

  lemma PaddedPointText(u: nat, scale: nat)
    requires 0 < scale && |NatString(u)| <= scale
    ensures PlainDigits(u, scale) == "0." + Zeros(scale - |NatString(u)|) + NatString(u)
  {
  }

  lemma SplitFractionParse(digits: string, point: nat)
    requires AllDigits(digits) && 0 < point <= |digits|
    ensures ParseUnsignedDecimal(digits[..point] + "." + digits[point..])
         == Some(Decimal(DigitsValue(digits), |digits| - point))
  {
    DigitsSplit(digits, point);
    forall ip: string, fp: string | |ip| >= 1 && AllDigits(ip) && AllDigits(fp)
      ensures ParseUnsignedDecimal(ip + "." + fp) == Some(Decimal(DigitsValue(ip + fp), |fp|))
    {
      FractionDigitsParse(ip, fp);
    }
  }

  lemma DigitsSplit(digits: string, point: nat)
    requires AllDigits(digits) && point <= |digits|
    ensures AllDigits(digits[..point]) && AllDigits(digits[point..])
    ensures digits[..point] + digits[point..] == digits
  {
  }

  lemma PaddedText(k: nat, digits: string)
    ensures "0." + Zeros(k) + digits == "0" + "." + (Zeros(k) + digits)
  {
  }

  lemma PaddedFractionParse(k: nat, digits: string)
    requires AllDigits(digits)
    ensures ParseUnsignedDecimal("0." + Zeros(k) + digits) == Some(Decimal(DigitsValue(digits), k + |digits|))
  {
    var fp := Zeros(k) + digits;
    PaddedText(k, digits);
    LeadingZerosValue(k, digits);
    ZeroPrefixValue(fp);
    FractionTextParse("0." + Zeros(k) + digits, "0", fp);
    assert DigitsValue("0" + fp) == DigitsValue(digits);
    assert |fp| == k + |digits|;
    assert Decimal(DigitsValue("0" + fp), |fp|) == Decimal(DigitsValue(digits), k + |digits|);
  }

  /**
   * `new BigDecimal(d.toPlainString())` gives `d` back, unscaled value and scale alike, for
   * every decimal with a non-negative scale: the text keeps the exact precision.
   */
  lemma PlainStringRoundTrip(d: Decimal)
    requires 0 <= d.scale <= IntMax
    ensures ParseBigDecimal(ToPlainString(d)) == Some(d)
  {
    if d.unscaled < 0 {
      NegativeRoundTrip(d);
    } else {
      NonNegativeRoundTrip(d);
    }
    PlainStringChars(d);
    WithinLimits(ToPlainString(d), d);
  }

  /** A text without an exponent whose scale fits in an `int` is within `BigDecimal`'s limits. */
  lemma WithinLimits(s: string, d: Decimal)
    requires ParseDecimalText(s) == Some(d) && IsInt(d.scale)
    requires forall i :: 0 <= i < |s| ==> s[i] != 'e' && s[i] != 'E'
    ensures ParseBigDecimal(s) == Some(d)
  {
    assert ExponentMarker(s) == |s|;
  }

  /** The characters `toPlainString` can write: digits, a minus sign and a decimal point. */
  predicate NumberChars(s: string) {
    forall i :: 0 <= i < |s| ==> IsDigit(s[i]) || s[i] == '-' || s[i] == '.'
  }

  /** `toPlainString` writes a non-empty text of digits, sign and point only. */
  lemma PlainStringChars(d: Decimal)
    ensures |ToPlainString(d)| > 0 && NumberChars(ToPlainString(d))
  {
    if d.scale < 0 {
      if d.unscaled != 0 {
        NumberCharsConcat(IntString(d.unscaled), Zeros(-d.scale));
      }
    } else if d.unscaled < 0 {
      PlainDigitsChars(-d.unscaled, d.scale);
      NumberCharsConcat("-", PlainDigits(-d.unscaled, d.scale));
    } else {
      PlainDigitsChars(d.unscaled, d.scale);
    }
  }

  lemma PlainDigitsChars(u: nat, scale: nat)
    ensures NumberChars(PlainDigits(u, scale))
  {
    var digits := NatString(u);
    if scale > 0 {
      var point := |digits| - scale;
      if point > 0 {
        NumberCharsConcat(digits[..point], ".");
        NumberCharsConcat(digits[..point] + ".", digits[point..]);
      } else {
        NumberCharsConcat("0.", Zeros(scale - |digits|));
        NumberCharsConcat("0." + Zeros(scale - |digits|), digits);
      }
    }
  }

  lemma NumberCharsConcat(a: string, b: string)
    requires NumberChars(a) && NumberChars(b)
    ensures NumberChars(a + b)
  {
  }

  lemma NegativeRoundTrip(d: Decimal)
    requires d.scale >= 0 && d.unscaled < 0
    ensures ParseDecimalText(ToPlainString(d)) == Some(d)
  {
    NegativeText(d);
    NegativeParse(d);
    NegateBack(d);
  }

  lemma NegateBack(d: Decimal)
    ensures Negate(Decimal(-d.unscaled, d.scale)) == d
  {
  }

  lemma NegativeText(d: Decimal)
    requires d.scale >= 0 && d.unscaled < 0
    ensures ToPlainString(d) == "-" + PlainDigits(-d.unscaled, d.scale)
  {
  }

  lemma NonNegativeRoundTrip(d: Decimal)
    requires d.scale >= 0 && d.unscaled >= 0
    ensures ParseDecimalText(ToPlainString(d)) == Some(d)
  {
    assert ToPlainString(d) == PlainDigits(d.unscaled, d.scale);
    UnsignedParse(d.unscaled, d.scale);
  }

  lemma NegativeParse(d: Decimal)
    requires d.scale >= 0 && d.unscaled < 0
    ensures ParseDecimalText("-" + PlainDigits(-d.unscaled, d.scale)) == Some(Negate(Decimal(-d.unscaled, d.scale)))
  {
    NegativeDigitsParse(d);
    MinusParse(PlainDigits(-d.unscaled, d.scale), Decimal(-d.unscaled, d.scale));
  }

  lemma NegativeDigitsParse(d: Decimal)
    requires d.scale >= 0 && d.unscaled < 0
    ensures ParseUnsignedDecimal(PlainDigits(-d.unscaled, d.scale)) == Some(Decimal(-d.unscaled, d.scale))
  {
    forall u: nat, scale: nat ensures ParseUnsignedDecimal(PlainDigits(u, scale)) == Some(Decimal(u, scale)) {
      PlainDigitsParse(u, scale);
    }
  }

  lemma MinusParse(t: string, e: Decimal)
    requires ParseUnsignedDecimal(t) == Some(e)
    ensures ParseDecimalText("-" + t) == Some(Negate(e))
  {
    assert ("-" + t)[1..] == t;
  }

  lemma UnsignedParse(u: nat, scale: nat)
    ensures ParseDecimalText(PlainDigits(u, scale)) == Some(Decimal(u, scale))
  {
    PlainDigitsParse(u, scale);
  }

  /** Dropping trailing fraction zeros changes the text, never the value. */
  lemma {:induction false} StripFractionZerosValue(d: Decimal)
    ensures Value(StripFractionZeros(d)) == Value(d)
    ensures StripFractionZeros(d).scale <= d.scale
    decreases if d.scale > 0 then d.scale else 0
  {
    if d.scale > 0 && d.unscaled % 10 == 0 {
      var d' := Decimal(d.unscaled / 10, d.scale - 1);
      StripFractionZerosValue(d');
      var p := Pow10(d'.scale) as real;
      assert d.unscaled == d'.unscaled * 10;
      assert Value(d) == (d'.unscaled * 10) as real / (10.0 * p);
      assert Value(d') == d'.unscaled as real / p;
    }
  }

  /**
   * The decimal a double is printed from has the double's value, and at least one fraction
   * digit in the plain range.
   */
  lemma DoubleDecimalValue(d: Decimal)
    ensures Value(DoubleDecimal(d)) == Value(d)
    ensures PlainRange(d) ==> DoubleDecimal(d).scale >= 1
  {
    var s := StripFractionZeros(d);
    StripFractionZerosValue(d);
    if s.unscaled == 0 {
      assert Value(s) == 0.0 by { ZeroValue(s); }
      assert Value(Decimal(0, 1)) == 0.0;
    } else if PlainRange(d) {
      if s.scale < 1 {
        ScaleUpValue(s, 1 - s.scale);
      }
    } else if -10 < s.unscaled < 10 {
      ScaleUpValue(s, 1);
    }
  }

  lemma ZeroValue(d: Decimal)
    requires d.unscaled == 0
    ensures Value(d) == 0.0
  {
  }

  /** Appending k zero digits and raising the scale by k keeps the value. */
  lemma ScaleUpValue(d: Decimal, k: nat)
    ensures Value(Decimal(d.unscaled * Pow10(k), d.scale + k)) == Value(d)
  {
    if d.scale >= 0 {
      ScaleUpNonNegative(d, k);
    } else if d.scale + k >= 0 {
      ScaleUpToNonNegative(d, k);
    } else {
      ScaleUpNegative(d, k);
    }
  }

  lemma ScaleUpNonNegative(d: Decimal, k: nat)
    requires d.scale >= 0
    ensures Value(Decimal(d.unscaled * Pow10(k), d.scale + k)) == Value(d)
  {
    var s: nat := d.scale;
    ScaleUpFraction(d.unscaled, s, k);
  }

  lemma ScaleUpToNonNegative(d: Decimal, k: nat)
    requires d.scale < 0 <= d.scale + k
    ensures Value(Decimal(d.unscaled * Pow10(k), d.scale + k)) == Value(d)
  {
    var a: nat, b: nat := -d.scale, d.scale + k;
    assert a + b == k;
    ScaleUpAcross(d.unscaled, a, b);
  }

  lemma ScaleUpNegative(d: Decimal, k: nat)
    requires d.scale + k < 0
    ensures Value(Decimal(d.unscaled * Pow10(k), d.scale + k)) == Value(d)
  {
    var a: nat := -(d.scale + k);
    ScaleUpWhole(d.unscaled, a, k);
    assert -(a as int) - k == d.scale;
  }

  lemma ScaleUpFraction(u: int, s: nat, k: nat)
    ensures Value(Decimal(u * Pow10(k), s + k)) == Value(Decimal(u, s))
  {
    var ps, pk := Pow10(s), Pow10(k);
    Pow10Add(s, k);
    CancelFactor(u, ps, pk);
    assert Value(Decimal(u * pk, s + k)) == (u * pk) as real / (ps * pk) as real;
  }

  lemma ScaleUpAcross(u: int, a: nat, b: nat)
    ensures Value(Decimal(u * Pow10(a + b), b)) == Value(Decimal(u, -(a as int)))
  {
    var pa, pb := Pow10(a), Pow10(b);
    Pow10Add(a, b);
    MulAssoc(u, pa, pb);
    CancelFactor(u * pa, 1, pb);
    assert Value(Decimal(u * (pa * pb), b)) == (u * (pa * pb)) as real / pb as real;
    assert Value(Decimal(u, -(a as int))) == (u * pa) as real;
  }

  lemma ScaleUpWhole(u: int, a: nat, k: nat)
    requires a >= 1
    ensures Value(Decimal(u * Pow10(k), -(a as int))) == Value(Decimal(u, -(a as int) - k))
  {
    var pa, pk := Pow10(a), Pow10(k);
    Pow10Add(a, k);
    assert Pow10(a + k) == pa * pk;
    MulAssoc(u, pk, pa);
    MulAssoc(u, pa, pk);
    assert pa * pk == pk * pa;
    assert u * pk * pa == u * (pa * pk);
  }

  lemma MulAssoc(a: int, b: int, c: int)
    ensures a * (b * c) == a * b * c
  {
  }

  lemma CancelFactor(u: int, p: nat, q: nat)
    requires p >= 1 && q >= 1
    ensures (u * q) as real / (p * q) as real == u as real / p as real
  {
    assert (u * q) as real == u as real * q as real;
    assert (p * q) as real == p as real * q as real;
  }

  lemma {:induction false} Pow10Add(a: nat, b: nat)
    ensures Pow10(a + b) == Pow10(a) * Pow10(b)
  {
    if b > 0 {
      Pow10Add(a, b - 1);
      assert Pow10(a + b) == 10 * Pow10(a + b - 1);
    }
  }
}
