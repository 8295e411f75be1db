/**
 * The JSON bodies: `quote`, `appendRecord`, and the comma-separated lists written by
 * `writeSuccessResponse` and `writeErrorResponse`.
 */
module Json {
  import opened Wrappers
  import opened Strings
  import opened Numbers
  import opened HistoryStore

  // ---------------------------------------------------------------------------------------
  // quote

  /** The four replacements of `quote`, backslash first. */
  function Chain(s: string): string {
    Replace(Replace(Replace(Replace(s, '\\', "\\\\"), '"', "\\\""), '\r', "\\r"), '\n', "\\n")
  }

  /** `quote(value)`: the replacements, then the surrounding quotes. */
  function Quote(value: string): string {
    "\"" + Chain(value) + "\""
  }

  /** What a single character becomes inside `quote`. */
  function EscapeChar(c: char): string {
    if c == '\\' then "\\\\"
    else if c == '"' then "\\\""
    else if c == '\r' then "\\r"
    else if c == '\n' then "\\n"
    else [c]
  }

  /** Each character escaped on its own. */
  function Escaped(s: string): string {
    if s == [] then [] else EscapeChar(s[0]) + Escaped(s[1..])
  }

  /**
   * The chained replacements act on each character independently: an inserted backslash
   * is never escaped again, because the backslash goes first.
   */
  lemma {:induction false} QuoteEscapesEachChar(value: string)
    ensures Quote(value) == "\"" + Escaped(value) + "\""
  {
    QuoteBody(value);
  }

  lemma {:induction false} QuoteBody(s: string)
    ensures Chain(s) == Escaped(s)
    decreases |s|
  {
    if s != [] {
      var c, rest := s[0], s[1..];
      assert s == [c] + rest;
      ChainConcat([c], rest);
      QuoteBody(rest);
      ChainChar(c);
    }
  }

  lemma ChainConcat(a: string, b: string)
    ensures Chain(a + b) == Chain(a) + Chain(b)
  {
    var r1a, r1b := Replace(a, '\\', "\\\\"), Replace(b, '\\', "\\\\");
    ReplaceConcat(a, b, '\\', "\\\\");
    var r2a, r2b := Replace(r1a, '"', "\\\""), Replace(r1b, '"', "\\\"");
    ReplaceConcat(r1a, r1b, '"', "\\\"");
    var r3a, r3b := Replace(r2a, '\r', "\\r"), Replace(r2b, '\r', "\\r");
    ReplaceConcat(r2a, r2b, '\r', "\\r");
    ReplaceConcat(r3a, r3b, '\n', "\\n");
  }

  lemma ChainChar(c: char)
    ensures Chain([c]) == EscapeChar(c)
  {
    ReplaceSingle(c, '\\', "\\\\");
    if c == '\\' {
      ReplaceAbsent("\\\\", '"', "\\\"");
      ReplaceAbsent("\\\\", '\r', "\\r");
      ReplaceAbsent("\\\\", '\n', "\\n");
    } else {
      ReplaceSingle(c, '"', "\\\"");
      if c == '"' {
        ReplaceAbsent("\\\"", '\r', "\\r");
        ReplaceAbsent("\\\"", '\n', "\\n");
      } else {
        ReplaceSingle(c, '\r', "\\r");
        if c == '\r' {
          ReplaceAbsent("\\r", '\n', "\\n");
        } else {
          ReplaceSingle(c, '\n', "\\n");
        }
      }
    }
  }

  /** A string with none of the four special characters is quoted unchanged. */
  lemma QuotePlain(value: string)
    requires '\\' !in value && '"' !in value && '\r' !in value && '\n' !in value
    ensures Quote(value) == "\"" + value + "\""
  {
    ReplaceAbsent(value, '\\', "\\\\");
    ReplaceAbsent(value, '"', "\\\"");
    ReplaceAbsent(value, '\r', "\\r");
    ReplaceAbsent(value, '\n', "\\n");
  }

  // ---------------------------------------------------------------------------------------
  // Reading a quoted string back

  /** The character an escape `\e` stands for. */
  function Unescape(e: char): Option<char> {
    if e == '\\' then Some('\\')
    else if e == '"' then Some('"')
    else if e == 'r' then Some('\r')
    else if e == 'n' then Some('\n')
    else None
  }

  /** The characters up to the closing quote, and what follows it. */
  function ReadBody(s: string): (r: Option<(string, string)>)
    ensures r.Some? ==> |r.value.1| < |s|
    decreases |s|
  {
    if s == [] then None
    else if s[0] == '"' then Some(([], s[1..]))
    else if s[0] == '\\' then
      if |s| < 2 || Unescape(s[1]).None? then None
      else match ReadBody(s[2..])
        case None => None
        case Some((v, rest)) => Some(([Unescape(s[1]).value] + v, rest))
    else match ReadBody(s[1..])
      case None => None
      case Some((v, rest)) => Some(([s[0]] + v, rest))
  }

  /** A JSON string literal as `quote` writes it, and what follows it. */
  function ReadQuoted(s: string): (r: Option<(string, string)>)
    ensures r.Some? ==> |r.value.1| < |s|
  {
    if |s| > 0 && s[0] == '"' then ReadBody(s[1..]) else None
  }

  lemma {:induction false} ReadEscaped(v: string, rest: string)
    ensures ReadBody(Escaped(v) + "\"" + rest) == Some((v, rest))
    decreases |v|
  {
    if v == [] {
      assert Escaped(v) + "\"" + rest == "\"" + rest;
    } else {
      ReadEscaped(v[1..], rest);
      ReadEscapedCons(v, rest);
    }
  }

  lemma ReadEscapedCons(v: string, rest: string)
    requires v != []
    requires ReadBody(Escaped(v[1..]) + "\"" + rest) == Some((v[1..], rest))
    ensures ReadBody(Escaped(v) + "\"" + rest) == Some((v, rest))
  {
    EscapedCons(v, rest);
    ReadBodyStep(v[0], Escaped(v[1..]) + "\"" + rest, v[1..], rest);
    assert [v[0]] + v[1..] == v;
  }

  lemma EscapedCons(v: string, rest: string)
    requires v != []
    ensures Escaped(v) + "\"" + rest == EscapeChar(v[0]) + (Escaped(v[1..]) + "\"" + rest)
  {
    assert Escaped(v) == EscapeChar(v[0]) + Escaped(v[1..]);
  }

  /** One escaped character in front of a readable body reads back as that character. */
  lemma ReadBodyStep(c: char, tail: string, v: string, rest: string)
    requires ReadBody(tail) == Some((v, rest))
    ensures ReadBody(EscapeChar(c) + tail) == Some(([c] + v, rest))
  {
    if c == '\\' || c == '"' || c == '\r' || c == '\n' {
      assert (EscapeChar(c) + tail)[2..] == tail;
    } else {
      assert (EscapeChar(c) + tail)[1..] == tail;
    }
  }

  /** Reading a quoted string back gives the original string and leaves what followed. */
  lemma QuoteRoundTrip(value: string, rest: string)
    ensures ReadQuoted(Quote(value) + rest) == Some((value, rest))
  {
    QuoteEscapesEachChar(value);
    ReadEscaped(value, rest);
    assert (Quote(value) + rest)[1..] == Escaped(value) + "\"" + rest;
  }

  // ---------------------------------------------------------------------------------------
  // Lists

  /** The quoted messages, comma-separated, as the error loop writes them. */
  function QuotedList(items: seq<string>): string {
    Join(QuotedAll(items), ",")
  }

  function QuotedAll(items: seq<string>): seq<string> {
    MapSeq(Quote, items)
  }


  /** Reads `"a","b",...]` up to (not past) the closing bracket. */
  function ReadStrings(s: string): Option<(seq<string>, string)>
    decreases |s|
  {
    if |s| > 0 && s[0] == ']' then Some(([], s))
    else match ReadQuoted(s)
      case None => None
      case Some((v, rest)) =>
        if |rest| > 0 && rest[0] == ']' then Some(([v], rest))
        else if |rest| > 0 && rest[0] == ',' then
          match ReadStrings(rest[1..])
          case None => None
          case Some((vs, tail)) => if vs == [] then None else Some(([v] + vs, tail))
        else None
  }

  /**
   * The written error list reads back as the same messages in the same order, stopping at
   * the closing bracket that follows it.
   */
  lemma {:induction false} QuotedListRoundTrip(items: seq<string>, rest: string)
    requires |rest| > 0 && rest[0] == ']'
    ensures ReadStrings(QuotedList(items) + rest) == Some((items, rest))
    decreases |items|
  {
    if items == [] {
      assert QuotedList(items) + rest == rest;
    } else if |items| == 1 {
      LastQuotedRoundTrip(items[0], rest);
      assert items == [items[0]];
    } else {
      QuotedListRoundTrip(items[1..], rest);
      QuotedListStep(items, rest);
    }
  }

  lemma LastQuotedRoundTrip(item: string, rest: string)
    requires |rest| > 0 && rest[0] == ']'
    ensures ReadStrings(QuotedList([item]) + rest) == Some(([item], rest))
  {
    assert QuotedList([item]) == Quote(item);
    QuoteRoundTrip(item, rest);
    QuoteStartsWithQuote(item);
  }

  lemma QuotedListStep(items: seq<string>, rest: string)
    requires |items| >= 2
    requires ReadStrings(QuotedList(items[1..]) + rest) == Some((items[1..], rest))
    ensures ReadStrings(QuotedList(items) + rest) == Some((items, rest))
  {
    QuotedListCons(items, rest);
    QuoteRoundTrip(items[0], "," + (QuotedList(items[1..]) + rest));
    QuoteStartsWithQuote(items[0]);
    ReadCommaList(Quote(items[0]), QuotedList(items[1..]), rest, items[0], items[1..]);
    assert [items[0]] + items[1..] == items;
  }

  /** A quoted string, a comma and a readable list read as one longer list. */
  lemma ReadCommaList(q: string, list: string, rest: string, v: string, vs: seq<string>)
    requires |q| > 0 && q[0] == '"'
    requires ReadQuoted(q + ("," + (list + rest))) == Some((v, "," + (list + rest)))
    requires ReadStrings(list + rest) == Some((vs, rest)) && vs != []
    ensures ReadStrings(q + ("," + (list + rest))) == Some(([v] + vs, rest))
  {
    CommaTail(list + rest);
    ReadStringsCons(q, "," + (list + rest), v, vs, rest);
  }

  lemma CommaTail(s: string)
    ensures |"," + s| > 0 && ("," + s)[0] == ',' && ("," + s)[1..] == s
  {
  }

  /** A list of two or more messages is the first one quoted, a comma, and the rest. */
  lemma QuotedListCons(items: seq<string>, rest: string)
    requires |items| >= 2
    ensures QuotedList(items) + rest == Quote(items[0]) + ("," + (QuotedList(items[1..]) + rest))
  {
    assert QuotedAll(items)[1..] == QuotedAll(items[1..]);
    assert QuotedList(items) == Quote(items[0]) + "," + QuotedList(items[1..]);
    Regroup4(Quote(items[0]), ",", QuotedList(items[1..]), rest);
  }

  lemma Regroup4(a: string, b: string, c: string, d: string)
    ensures a + b + c + d == a + (b + (c + d))
  {
  }

  lemma QuoteStartsWithQuote(value: string)
    ensures |Quote(value)| > 0 && Quote(value)[0] == '"'
  {
  }

  lemma ReadStringsCons(q: string, after: string, v: string, vs: seq<string>, t: string)
    requires |q| > 0 && q[0] == '"'
    requires ReadQuoted(q + after) == Some((v, after))
    requires |after| > 0 && after[0] == ','
    requires ReadStrings(after[1..]) == Some((vs, t)) && vs != []
    ensures ReadStrings(q + after) == Some(([v] + vs, t))
  {
    assert (q + after)[0] == q[0];
  }

  // ---------------------------------------------------------------------------------------
  // Records and bodies

  function BoolText(b: bool): string {
    if b then "true" else "false"
  }

  /** `appendRecord`: x is written as a string, y, r and the time as bare numbers. */
  function RecordJson(rec: HitRecord): string {
    RecordLayout(FormatDecimal(rec.x), FormatFinite(rec.y), FormatFinite(rec.r), rec.hit, rec.currentTime,
      FormatFinite(rec.processingTimeMs))
  }

  /** The text `appendRecord` writes around the formatted field values, piece by piece. */
  function RecordLayout(x: string, y: string, r: string, hit: bool, currentTime: string, ms: string): string {
    "{"
    + "\"x\":" + Quote(x) + ","
    + "\"y\":" + y + ","
    + "\"r\":" + r + ","
    + "\"hit\":" + BoolText(hit) + ","
    + "\"currentTime\":" + Quote(currentTime) + ","
    + "\"processingTimeMs\":" + ms
    + "}"
  }

  function RecordTexts(recs: seq<HitRecord>): seq<string> {
    MapSeq(RecordJson, recs)
  }


  /** The history records, comma-separated. */
  function RecordList(recs: seq<HitRecord>): string {
    Join(RecordTexts(recs), ",")
  }

  /** The body `writeSuccessResponse` builds. */
  function SuccessBody(current: HitRecord, history: seq<HitRecord>): string {
    "{" + "\"status\":\"ok\"," + "\"data\":" + RecordJson(current) + ","
    + "\"history\":[" + RecordList(history) + "]" + "}"
  }

  /** The body `writeErrorResponse` builds. */
  function ErrorBody(errors: seq<string>, currentTime: string, processingMs: Decimal, history: seq<HitRecord>): string {
    "{" + "\"status\":\"error\"," + "\"errors\":[" + QuotedList(errors) + "]" + ","
    + "\"currentTime\":" + Quote(currentTime) + ","
    + "\"processingTimeMs\":" + FormatFinite(processingMs) + ","
    + "\"history\":[" + RecordList(history) + "]" + "}"
  }

  /** The start of every error body, up to the first message. */
  const ErrorPrefix: string := "{\"status\":\"error\",\"errors\":["

  /** The messages of an error body read back unchanged from just after `ErrorPrefix`. */
  lemma ErrorBodyReadsBack(errors: seq<string>, currentTime: string, processingMs: Decimal, history: seq<HitRecord>)
    ensures exists rest ::
      && ErrorBody(errors, currentTime, processingMs, history) == ErrorPrefix + QuotedList(errors) + rest
      && ReadStrings(QuotedList(errors) + rest) == Some((errors, rest))
  {
    var rest := "]" + ErrorTail(currentTime, processingMs, history);
    ErrorBodySplit(errors, currentTime, processingMs, history);
    QuotedListRoundTrip(errors, rest);
  }

  /** What follows the closing bracket of the error list. */
  function ErrorTail(currentTime: string, processingMs: Decimal, history: seq<HitRecord>): string {
    "," + ("\"currentTime\":" + Quote(currentTime) + ",")
    + ("\"processingTimeMs\":" + FormatFinite(processingMs) + ",")
    + ("\"history\":[" + RecordList(history) + "]" + "}")
  }

  lemma ErrorBodySplit(errors: seq<string>, currentTime: string, processingMs: Decimal, history: seq<HitRecord>)
    ensures ErrorBody(errors, currentTime, processingMs, history)
      == ErrorPrefix + QuotedList(errors) + ("]" + ErrorTail(currentTime, processingMs, history))
  {
    assert "{" + "\"status\":\"error\"," + "\"errors\":[" == ErrorPrefix;
    ErrorBodyShape(ErrorPrefix, QuotedList(errors), "]", ",", "\"currentTime\":", Quote(currentTime), ",",
      "\"processingTimeMs\":", FormatFinite(processingMs), ",", "\"history\":[", RecordList(history), "]", "}");
  }

  lemma ErrorBodyShape(p: string, q: string, s1: string, s2: string, s3: string, s4: string, s5: string,
                       s6: string, s7: string, s8: string, s9: string, s10: string, s11: string, s12: string)
    ensures p + q + s1 + s2 + s3 + s4 + s5 + s6 + s7 + s8 + s9 + s10 + s11 + s12
      == p + q + (s1 + (s2 + (s3 + s4 + s5) + (s6 + s7 + s8) + (s9 + s10 + s11 + s12)))
  {
  }

  // ---------------------------------------------------------------------------------------
  // Reading a record back

  /** What follows the literal `lit` at the start of `s`. */
  function Expect(s: string, lit: string): (r: Option<string>)
    ensures r.Some? ==> s == lit + r.value
  {
    if |lit| <= |s| && s[..|lit|] == lit then
      assert s == s[..|lit|] + s[|lit|..];
      Some(s[|lit|..])
    else None
  }

  lemma ExpectPrefix(lit: string, t: string)
    ensures Expect(lit + t, lit) == Some(t)
  {
    assert (lit + t)[..|lit|] == lit;
    assert (lit + t)[|lit|..] == t;
  }

  /** The length of a bare JSON value: everything up to the next comma or closing brace. */
  function BareLength(s: string): (n: nat)
    ensures n <= |s|
  {
    if s == [] || s[0] == ',' || s[0] == '}' then 0 else 1 + BareLength(s[1..])
  }

  /** A bare (unquoted) value, and what follows it. */
  function ReadBare(s: string): (r: Option<(string, string)>)
    ensures r.Some? ==> r.value.0 != [] && s == r.value.0 + r.value.1
  {
    var n := BareLength(s);
    if n == 0 then None
    else
      assert s == s[..n] + s[n..];
      Some((s[..n], s[n..]))
  }

  /** A text the bare reader takes whole: non-empty, with no comma and no closing brace. */
  predicate BareText(t: string) {
    |t| > 0 && forall i :: 0 <= i < |t| ==> t[i] != ',' && t[i] != '}'
  }

  /** What can follow a bare value inside a record. */
  predicate ClosesBare(rest: string) {
    |rest| > 0 && (rest[0] == ',' || rest[0] == '}')
  }

  lemma {:induction false} BareLengthOf(t: string, rest: string)
    requires forall i :: 0 <= i < |t| ==> t[i] != ',' && t[i] != '}'
    requires ClosesBare(rest)
    ensures BareLength(t + rest) == |t|
    decreases |t|
  {
    if t == [] {
      assert t + rest == rest;
    } else {
      BareLengthOf(t[1..], rest);
      assert (t + rest)[1..] == t[1..] + rest;
    }
  }

  /** A bare value followed by a comma or a brace reads back whole. */
  lemma BareRoundTrip(t: string, rest: string)
    requires BareText(t) && ClosesBare(rest)
    ensures ReadBare(t + rest) == Some((t, rest))
  {
    BareLengthOf(t, rest);
    assert (t + rest)[..|t|] == t;
    assert (t + rest)[|t|..] == rest;
  }

  /** `toPlainString` writes text the bare reader takes whole. */
  lemma PlainIsBare(d: Decimal)
    ensures BareText(ToPlainString(d))
  {
    PlainStringChars(d);
  }

  /** A JSON boolean, and what follows it. */
  function ReadBool(s: string): Option<(bool, string)> {
    match Expect(s, "true")
    case Some(t) => Some((true, t))
    case None =>
      match Expect(s, "false")
      case Some(t) => Some((false, t))
      case None => None
  }

  lemma BoolRoundTrip(b: bool, rest: string)
    ensures ReadBool(BoolText(b) + rest) == Some((b, rest))
  {
    if b {
      ExpectPrefix("true", rest);
    } else {
      ExpectPrefix("false", rest);
      var s := "false" + rest;
      assert s[0] == 'f';
      assert Expect(s, "true").None?;
    }
  }

  /** One member of a record: separator, key, quoted value. */
  function ReadStringField(s: string, sep: string, key: string): Option<(string, string)> {
    match Expect(s, sep)
    case None => None
    case Some(s1) =>
      match Expect(s1, key)
      case None => None
      case Some(s2) => ReadQuoted(s2)
  }

  /** One member of a record: separator, key, bare number. */
  function ReadNumberField(s: string, sep: string, key: string): Option<(string, string)> {
    match Expect(s, sep)
    case None => None
    case Some(s1) =>
      match Expect(s1, key)
      case None => None
      case Some(s2) => ReadBare(s2)
  }

  /** One member of a record: separator, key, boolean. */
  function ReadBoolField(s: string, sep: string, key: string): Option<(bool, string)> {
    match Expect(s, sep)
    case None => None
    case Some(s1) =>
      match Expect(s1, key)
      case None => None
      case Some(s2) => ReadBool(s2)
  }

  lemma StringFieldRoundTrip(sep: string, key: string, v: string, rest: string)
    ensures ReadStringField(sep + (key + (Quote(v) + rest)), sep, key) == Some((v, rest))
  {
    ExpectPrefix(sep, key + (Quote(v) + rest));
    ExpectPrefix(key, Quote(v) + rest);
    QuoteRoundTrip(v, rest);
  }

  lemma NumberFieldRoundTrip(sep: string, key: string, t: string, rest: string)
    requires BareText(t) && ClosesBare(rest)
    ensures ReadNumberField(sep + (key + (t + rest)), sep, key) == Some((t, rest))
  {
    ExpectPrefix(sep, key + (t + rest));
    ExpectPrefix(key, t + rest);
    BareRoundTrip(t, rest);
  }

  lemma BoolFieldRoundTrip(sep: string, key: string, b: bool, rest: string)
    ensures ReadBoolField(sep + (key + (BoolText(b) + rest)), sep, key) == Some((b, rest))
  {
    ExpectPrefix(sep, key + (BoolText(b) + rest));
    ExpectPrefix(key, BoolText(b) + rest);
    BoolRoundTrip(b, rest);
  }

  /** The members of a record as a JSON reader sees them: strings unquoted, numbers as text. */
  datatype RecordFields = RecordFields(
    x: string, y: string, r: string, hit: bool, currentTime: string, processingTimeMs: string)

  /** The texts `appendRecord` writes for the members of `rec`. */
  function FieldsOf(rec: HitRecord): RecordFields {
    RecordFields(FormatDecimal(rec.x), FormatFinite(rec.y), FormatFinite(rec.r), rec.hit, rec.currentTime,
      FormatFinite(rec.processingTimeMs))
  }

  /** A record object with the members in the order `appendRecord` writes them. */
  function ReadRecord(s: string): Option<(RecordFields, string)> {
    match ReadStringField(s, "{", "\"x\":")
    case None => None
    case Some((x, s1)) =>
      match ReadNumberField(s1, ",", "\"y\":")
      case None => None
      case Some((y, s2)) =>
        match ReadNumberField(s2, ",", "\"r\":")
        case None => None
        case Some((r, s3)) =>
          match ReadBoolField(s3, ",", "\"hit\":")
          case None => None
          case Some((hit, s4)) =>
            match ReadStringField(s4, ",", "\"currentTime\":")
            case None => None
            case Some((currentTime, s5)) =>
              match ReadNumberField(s5, ",", "\"processingTimeMs\":")
              case None => None
              case Some((ms, s6)) =>
                match Expect(s6, "}")
                case None => None
                case Some(rest) => Some((RecordFields(x, y, r, hit, currentTime, ms), rest))
  }

  /** A laid-out record reads back member by member, whatever follows it. */
  lemma LayoutReadsBack(x: string, y: string, r: string, hit: bool, currentTime: string, ms: string, rest: string)
    requires BareText(y) && BareText(r) && BareText(ms)
    ensures ReadRecord(RecordLayout(x, y, r, hit, currentTime, ms) + rest)
      == Some((RecordFields(x, y, r, hit, currentTime, ms), rest))
  {
    var t6 := "}" + rest;
    var t5 := "," + ("\"processingTimeMs\":" + (ms + t6));
    var t4 := "," + ("\"currentTime\":" + (Quote(currentTime) + t5));
    var t3 := "," + ("\"hit\":" + (BoolText(hit) + t4));
    var t2 := "," + ("\"r\":" + (r + t3));
    var t1 := "," + ("\"y\":" + (y + t2));
    var t0 := "{" + ("\"x\":" + (Quote(x) + t1));
    RightNested("{", "\"x\":", Quote(x), ",", "\"y\":", y, ",", "\"r\":", r, ",", "\"hit\":", BoolText(hit),
      ",", "\"currentTime\":", Quote(currentTime), ",", "\"processingTimeMs\":", ms, "}", rest);
    assert RecordLayout(x, y, r, hit, currentTime, ms) + rest == t0;
    StringFieldRoundTrip("{", "\"x\":", x, t1);
    NumberFieldRoundTrip(",", "\"y\":", y, t2);
    NumberFieldRoundTrip(",", "\"r\":", r, t3);
    BoolFieldRoundTrip(",", "\"hit\":", hit, t4);
    StringFieldRoundTrip(",", "\"currentTime\":", currentTime, t5);
    NumberFieldRoundTrip(",", "\"processingTimeMs\":", ms, t6);
    ExpectPrefix("}", rest);
  }

  lemma RightNested(a1: string, a2: string, a3: string, a4: string, a5: string, a6: string, a7: string,
                    a8: string, a9: string, a10: string, a11: string, a12: string, a13: string, a14: string,
                    a15: string, a16: string, a17: string, a18: string, a19: string, rest: string)
    ensures a1 + a2 + a3 + a4 + a5 + a6 + a7 + a8 + a9 + a10 + a11 + a12 + a13 + a14 + a15 + a16 + a17 + a18
      + a19 + rest
      == a1 + (a2 + (a3 + (a4 + (a5 + (a6 + (a7 + (a8 + (a9 + (a10 + (a11 + (a12 + (a13 + (a14 + (a15
      + (a16 + (a17 + (a18 + (a19 + rest))))))))))))))))))
  {
  }

  /**
   * A record written by `appendRecord` reads back with x and the time as the strings written,
   * the hit flag as written, and y, r and the time taken as their number texts.
   */
  lemma RecordRoundTrip(rec: HitRecord, rest: string)
    ensures ReadRecord(RecordJson(rec) + rest) == Some((FieldsOf(rec), rest))
  {
    PlainIsBare(DoubleDecimal(rec.y));
    PlainIsBare(DoubleDecimal(rec.r));
    PlainIsBare(DoubleDecimal(rec.processingTimeMs));
    LayoutReadsBack(FormatDecimal(rec.x), FormatFinite(rec.y), FormatFinite(rec.r), rec.hit, rec.currentTime,
      FormatFinite(rec.processingTimeMs), rest);
  }

  /** The start of every success body, up to the current record. */
  const SuccessPrefix: string := "{\"status\":\"ok\",\"data\":"

  /** The `data` member of a success body, read back. */
  function ReadSuccessData(body: string): Option<RecordFields> {
    match Expect(body, SuccessPrefix)
    case None => None
    case Some(s) =>
      match ReadRecord(s)
      case None => None
      case Some((data, _)) => Some(data)
  }

  /** The `data` member of a success body reads back as the current record's texts and hit flag. */
  lemma SuccessDataReadsBack(current: HitRecord, history: seq<HitRecord>)
    ensures ReadSuccessData(SuccessBody(current, history)) == Some(FieldsOf(current))
  {
    var tail := "," + "\"history\":[" + RecordList(history) + "]" + "}";
    SuccessBodySplit(current, history, tail);
    ExpectPrefix(SuccessPrefix, RecordJson(current) + tail);
    RecordRoundTrip(current, tail);
  }

  lemma SuccessBodySplit(current: HitRecord, history: seq<HitRecord>, tail: string)
    requires tail == "," + "\"history\":[" + RecordList(history) + "]" + "}"
    ensures SuccessBody(current, history) == SuccessPrefix + (RecordJson(current) + tail)
  {
    assert "{" + "\"status\":\"ok\"," + "\"data\":" == SuccessPrefix;
    SuccessShape(SuccessPrefix, RecordJson(current), ",", "\"history\":[", RecordList(history), "]", "}");
  }

  lemma SuccessShape(p: string, d: string, s1: string, s2: string, s3: string, s4: string, s5: string)
    ensures p + d + s1 + s2 + s3 + s4 + s5 == p + (d + (s1 + s2 + s3 + s4 + s5))
  {
  }

  /** A response: status line parts and body. */
  datatype Response = Response(status: int, statusText: string, body: string)

  /** `appendRecord(json, record)`. */
  method AppendRecord(json: string, rec: HitRecord) returns (out: string)
    ensures out == json + RecordJson(rec)
  {
    var text := "{";
    text := text + "\"x\":" + Quote(FormatDecimal(rec.x)) + ",";
    text := text + "\"y\":" + FormatFinite(rec.y) + ",";
    text := text + "\"r\":" + FormatFinite(rec.r) + ",";
    text := text + "\"hit\":" + BoolText(rec.hit) + ",";
    text := text + "\"currentTime\":" + Quote(rec.currentTime) + ",";
    text := text + "\"processingTimeMs\":" + FormatFinite(rec.processingTimeMs);
    text := text + "}";
    out := json + text;
  }

  /** The comma the history loop writes after record i − 1: none after the last one. */
  function Separator(i: nat, n: nat): string {
    if 0 < i < n then "," else ""
  }

  /** The history loop shared by both writers: a record, then a comma unless it was the last. */
  method AppendRecords(json: string, history: seq<HitRecord>) returns (out: string)
    ensures out == json + RecordList(history)
  {
    out := json;
    for i := 0 to |history|
      invariant out == json + RecordList(history[..i]) + Separator(i, |history|)
    {
      ghost var prev := out;
      out := AppendRecord(out, history[i]);
      if i + 1 < |history| {
        out := out + ",";
      }
      AppendStep(json, history, i, prev, out);
    }
    assert history[..|history|] == history;
  }

  lemma AppendStep(json: string, history: seq<HitRecord>, i: nat, prev: string, out: string)
    requires i < |history|
    requires prev == json + RecordList(history[..i]) + Separator(i, |history|)
    requires out == prev + RecordJson(history[i]) + Separator(i + 1, |history|)
    ensures out == json + RecordList(history[..i + 1]) + Separator(i + 1, |history|)
  {
    RecordListStep(history, i);
    Regroup(json, RecordList(history[..i]), Separator(i, |history|), RecordJson(history[i]), Separator(i + 1, |history|));
  }

  lemma Regroup(a: string, b: string, c: string, d: string, e: string)
    ensures a + b + c + d + e == a + (b + c + d) + e
  {
  }

  /** One more record extends the list by a comma (unless it is the first) and its text. */
  lemma RecordListStep(recs: seq<HitRecord>, i: nat)
    requires i < |recs|
    ensures RecordList(recs[..i + 1]) == RecordList(recs[..i]) + Separator(i, |recs|) + RecordJson(recs[i])
  {
    RecordTextsPrefix(recs, i);
    if i > 0 {
      JoinAppend(RecordTexts(recs[..i]), RecordJson(recs[i]), ",");
    } else {
      assert RecordTexts(recs[..1]) == [RecordJson(recs[0])];
    }
  }

  lemma RecordTextsPrefix(recs: seq<HitRecord>, i: nat)
    requires i < |recs|
    ensures RecordTexts(recs[..i + 1]) == RecordTexts(recs[..i]) + [RecordJson(recs[i])]
  {
    MapSeqPrefix(RecordJson, recs, i);
  }

  /** `writeSuccessResponse(current, history)`. */
  method WriteSuccessResponse(current: HitRecord, history: seq<HitRecord>) returns (resp: Response)
    ensures resp == Response(200, "OK", SuccessBody(current, history))
  {
    var json := "{";
    json := json + "\"status\":\"ok\",";
    json := json + "\"data\":";
    json := AppendRecord(json, current);
    json := json + ",";
    json := json + "\"history\":[";
    json := AppendRecords(json, history);
    json := json + "]";
    json := json + "}";
    resp := Response(200, "OK", json);
  }

  /** `writeErrorResponse(status, text, errors, ms)`, with the history snapshot it takes. */
  method WriteErrorResponse(
    status: int, statusText: string, errors: seq<string>, currentTime: string, processingMs: Decimal,
    history: seq<HitRecord>)
    returns (resp: Response)
    ensures resp == Response(status, statusText, ErrorBody(errors, currentTime, processingMs, history))
  {
    var json := "{";
    json := json + "\"status\":\"error\",";
    json := json + "\"errors\":[";
    var start := json;
    for i := 0 to |errors|
      invariant json == start + QuotedList(errors[..i])
    {
      QuotedAllPrefix(errors, i);
      if i > 0 {
        json := json + ",";
        JoinAppend(QuotedAll(errors[..i]), Quote(errors[i]), ",");
      }
      json := json + Quote(errors[i]);
    }
    assert errors[..|errors|] == errors;
    json := json + "]" + ",";
    json := json + "\"currentTime\":" + Quote(currentTime) + ",";
    json := json + "\"processingTimeMs\":" + FormatFinite(processingMs) + ",";
    json := json + "\"history\":[";
    json := AppendRecords(json, history);
    json := json + "]";
    json := json + "}";
    resp := Response(status, statusText, json);
  }

  lemma QuotedAllPrefix(items: seq<string>, i: nat)
    requires i < |items|
    ensures QuotedAll(items[..i + 1]) == QuotedAll(items[..i]) + [Quote(items[i])]
  {
    MapSeqPrefix(Quote, items, i);
  }
}
