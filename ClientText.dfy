/**
 * The browser script's text helpers: `escapeHtml`, the X-input sanitiser, `formatNumber`
 * and `buildHistoryKey`, over the JSON values a history record can hold.
 */
module ClientText {
  import opened Strings

  /** A JSON value as the script sees it; a number is held as its `toString()` text. */
  datatype JsValue = JNull | JUndefined | JString(s: string) | JNumber(text: string) | JBool(b: bool)

  /** A history record as parsed from the server or the local cache (absent fields are undefined). */
  datatype JsRecord = JsRecord(
    x: JsValue, y: JsValue, r: JsValue, hit: JsValue, currentTime: JsValue, processingTimeMs: JsValue)

  // ---------------------------------------------------------------------------------------
  // escapeHtml

  /** `escapeHtml(text)`: five global replacements, `&` first. */
  function EscapeHtml(text: string): string {
    Replace(Replace(Replace(Replace(Replace(text, '&', "&amp;"), '<', "&lt;"), '>', "&gt;"), '"', "&quot;"), '\'', "&#39;")
  }

  /** What a single character becomes. */
  function EscapeHtmlChar(c: char): string {
    if c == '&' then "&amp;"
    else if c == '<' then "&lt;"
    else if c == '>' then "&gt;"
    else if c == '"' then "&quot;"
    else if c == '\'' then "&#39;"
    else [c]
  }

  function EscapedHtml(s: string): string {
    if s == [] then [] else EscapeHtmlChar(s[0]) + EscapedHtml(s[1..])
  }

  lemma EscapeHtmlConcat(a: string, b: string)
    ensures EscapeHtml(a + b) == EscapeHtml(a) + EscapeHtml(b)
  {
    var r1a, r1b := Replace(a, '&', "&amp;"), Replace(b, '&', "&amp;");
    ReplaceConcat(a, b, '&', "&amp;");
    var r2a, r2b := Replace(r1a, '<', "&lt;"), Replace(r1b, '<', "&lt;");
    ReplaceConcat(r1a, r1b, '<', "&lt;");
    var r3a, r3b := Replace(r2a, '>', "&gt;"), Replace(r2b, '>', "&gt;");
    ReplaceConcat(r2a, r2b, '>', "&gt;");
    var r4a, r4b := Replace(r3a, '"', "&quot;"), Replace(r3b, '"', "&quot;");
    ReplaceConcat(r3a, r3b, '"', "&quot;");
    ReplaceConcat(r4a, r4b, '\'', "&#39;");
  }

  /** The entity text an escape inserts contains none of the later targets. */
  lemma EscapeHtmlOneChar(c: char)
    ensures EscapeHtml([c]) == EscapeHtmlChar(c)
  {
    if c == '&' {
      EscapeAmp();
    } else if c == '<' {
      EscapeLt();
    } else if c == '>' {
      EscapeGt();
    } else if c == '"' {
      EscapeQuot();
    } else if c == '\'' {
      EscapeApos();
    } else {
      ReplaceSingle(c, '&', "&amp;");
      ReplaceSingle(c, '<', "&lt;");
      ReplaceSingle(c, '>', "&gt;");
      ReplaceSingle(c, '"', "&quot;");
      ReplaceSingle(c, '\'', "&#39;");
    }
  }

  /** `escapeHtml` through its five intermediate texts. */
  lemma EscapeSteps(t0: string, t1: string, t2: string, t3: string, t4: string, t5: string)
    requires t1 == Replace(t0, '&', "&amp;") && t2 == Replace(t1, '<', "&lt;")
    requires t3 == Replace(t2, '>', "&gt;") && t4 == Replace(t3, '"', "&quot;")
    requires t5 == Replace(t4, '\'', "&#39;")
    ensures EscapeHtml(t0) == t5
  {
  }

  lemma EscapeAmp()
    ensures EscapeHtml("&") == "&amp;"
  {
    ReplaceSingle('&', '&', "&amp;");
    AmpUntouched("&amp;");
    EscapeSteps("&", "&amp;", "&amp;", "&amp;", "&amp;", "&amp;");
  }

  /** The later four replacements leave `&amp;` alone. */
  lemma AmpUntouched(t: string)
    requires t == "&amp;"
    ensures Replace(t, '<', "&lt;") == t && Replace(t, '>', "&gt;") == t
    ensures Replace(t, '"', "&quot;") == t && Replace(t, '\'', "&#39;") == t
  {
    ReplaceAbsent(t, '<', "&lt;");
    ReplaceAbsent(t, '>', "&gt;");
    ReplaceAbsent(t, '"', "&quot;");
    ReplaceAbsent(t, '\'', "&#39;");
  }

  lemma EscapeLt()
    ensures EscapeHtml("<") == "&lt;"
  {
    ReplaceSingle('<', '&', "&amp;");
    ReplaceSingle('<', '<', "&lt;");
    ReplaceAbsent("&lt;", '>', "&gt;");
    ReplaceAbsent("&lt;", '"', "&quot;");
    ReplaceAbsent("&lt;", '\'', "&#39;");
    EscapeSteps("<", "<", "&lt;", "&lt;", "&lt;", "&lt;");
  }

  lemma EscapeGt()
    ensures EscapeHtml(">") == "&gt;"
  {
    ReplaceSingle('>', '&', "&amp;");
    ReplaceSingle('>', '<', "&lt;");
    ReplaceSingle('>', '>', "&gt;");
    ReplaceAbsent("&gt;", '"', "&quot;");
    ReplaceAbsent("&gt;", '\'', "&#39;");
    EscapeSteps(">", ">", ">", "&gt;", "&gt;", "&gt;");
  }

  lemma EscapeQuot()
    ensures EscapeHtml("\"") == "&quot;"
  {
    ReplaceSingle('"', '&', "&amp;");
    ReplaceSingle('"', '<', "&lt;");
    ReplaceSingle('"', '>', "&gt;");
    ReplaceSingle('"', '"', "&quot;");
    ReplaceAbsent("&quot;", '\'', "&#39;");
    EscapeSteps("\"", "\"", "\"", "\"", "&quot;", "&quot;");
  }

  lemma EscapeApos()
    ensures EscapeHtml("'") == "&#39;"
  {
    ReplaceSingle('\'', '&', "&amp;");
    ReplaceSingle('\'', '<', "&lt;");
    ReplaceSingle('\'', '>', "&gt;");
    ReplaceSingle('\'', '"', "&quot;");
    ReplaceSingle('\'', '\'', "&#39;");
    EscapeSteps("'", "'", "'", "'", "'", "&#39;");
  }

  /** Because `&` goes first, the replacements act on each character independently. */
  lemma {:induction false} EscapeHtmlEachChar(s: string)
    ensures EscapeHtml(s) == EscapedHtml(s)
    decreases |s|
  {
    if s != [] {
      assert s == [s[0]] + s[1..];
      EscapeHtmlConcat([s[0]], s[1..]);
      EscapeHtmlOneChar(s[0]);
      EscapeHtmlEachChar(s[1..]);
    } else {
      assert EscapeHtml(s) == [];
    }
  }

  const Entities: seq<string> := ["&amp;", "&lt;", "&gt;", "&quot;", "&#39;"]

  predicate StartsWith(s: string, p: string) {
    |p| <= |s| && s[..|p|] == p
  }

  /** Escaped text has no raw markup character, and each `&` begins one of the five entities. */
  ghost predicate HtmlSafe(s: string) {
    && (forall i :: 0 <= i < |s| ==> s[i] != '<' && s[i] != '>' && s[i] != '"' && s[i] != '\'')
    && (forall i :: 0 <= i < |s| && s[i] == '&' ==> exists e :: e in Entities && StartsWith(s[i..], e))
  }

  lemma {:induction false} EscapedHtmlSafe(s: string)
    ensures HtmlSafe(EscapedHtml(s))
    decreases |s|
  {
    if s != [] {
      EscapedHtmlSafe(s[1..]);
      var head, tail := EscapeHtmlChar(s[0]), EscapedHtml(s[1..]);
      var out := head + tail;
      assert HtmlSafe(head) by {
        forall i | 0 <= i < |head| && head[i] == '&'
          ensures exists e :: e in Entities && StartsWith(head[i..], e)
        {
          assert i == 0 && head in Entities && head[i..] == head;
        }
      }
      ConcatSafe(head, tail);
    }
  }

  lemma ConcatSafe(a: string, b: string)
    requires HtmlSafe(a) && HtmlSafe(b)
    requires forall i :: 0 <= i < |a| && a[i] == '&' ==> exists e :: e in Entities && StartsWith(a[i..], e) && i + |e| <= |a|
    ensures HtmlSafe(a + b)
  {
    var s := a + b;
    forall i | 0 <= i < |s| && s[i] == '&'
      ensures exists e :: e in Entities && StartsWith(s[i..], e)
    {
      if i < |a| {
        var e :| e in Entities && StartsWith(a[i..], e) && i + |e| <= |a|;
        assert s[i..][..|e|] == a[i..][..|e|];
      } else {
        var e :| e in Entities && StartsWith(b[i - |a|..], e);
        assert s[i..] == b[i - |a|..];
      }
    }
  }

  /** `escapeHtml` output is safe to place in markup. */
  lemma EscapeHtmlSafe(text: string)
    ensures HtmlSafe(EscapeHtml(text))
  {
    EscapeHtmlEachChar(text);
    EscapedHtmlSafe(text);
  }

  /** Decoding the five entities, left to right. */
  function UnescapeHtml(s: string): string
    decreases |s|
  {
    if s == [] then []
    else if StartsWith(s, "&amp;") then "&" + UnescapeHtml(s[5..])
    else if StartsWith(s, "&lt;") then "<" + UnescapeHtml(s[4..])
    else if StartsWith(s, "&gt;") then ">" + UnescapeHtml(s[4..])
    else if StartsWith(s, "&quot;") then "\"" + UnescapeHtml(s[6..])
    else if StartsWith(s, "&#39;") then "'" + UnescapeHtml(s[5..])
    else [s[0]] + UnescapeHtml(s[1..])
  }

  lemma {:induction false} UnescapeEscaped(s: string)
    ensures UnescapeHtml(EscapedHtml(s)) == s
    decreases |s|
  {
    if s != [] {
      UnescapeEscaped(s[1..]);
      UnescapeStep(s[0], EscapedHtml(s[1..]));
      assert [s[0]] + s[1..] == s;
    }
  }

  /** Decoding the text one character escaped to gives that character back. */
  lemma UnescapeStep(c: char, tail: string)
    ensures UnescapeHtml(EscapeHtmlChar(c) + tail) == [c] + UnescapeHtml(tail)
  {
    if c == '&' {
      UnescapeAmp(tail);
    } else if c == '<' {
      UnescapeLt(tail);
    } else if c == '>' {
      UnescapeGt(tail);
    } else if c == '"' {
      UnescapeQuot(tail);
    } else if c == '\'' {
      UnescapeApos(tail);
    } else {
      UnescapeOther(c, tail);
    }
  }

  /** A character other than `&` starts no entity and decodes as itself. */
  lemma UnescapeOther(c: char, tail: string)
    requires c != '&'
    ensures UnescapeHtml([c] + tail) == [c] + UnescapeHtml(tail)
  {
    var out := [c] + tail;
    assert out[0] == c && out[1..] == tail;
    NoEntityAt(out);
  }

  /** A text not starting with `&` starts with none of the entities. */
  lemma NoEntityAt(s: string)
    requires |s| > 0 && s[0] != '&'
    ensures !StartsWith(s, "&amp;") && !StartsWith(s, "&lt;") && !StartsWith(s, "&gt;")
    ensures !StartsWith(s, "&quot;") && !StartsWith(s, "&#39;")
  {
    forall p: string | |p| > 0 && p[0] == '&' ensures !StartsWith(s, p) {
      if |p| <= |s| {
        assert s[..|p|][0] == s[0];
      }
    }
  }

  lemma UnescapeAmp(tail: string)
    ensures UnescapeHtml("&amp;" + tail) == "&" + UnescapeHtml(tail)
  {
    var out := "&amp;" + tail;
    assert out[..5] == "&amp;" && out[5..] == tail;
  }

  lemma UnescapeLt(tail: string)
    ensures UnescapeHtml("&lt;" + tail) == "<" + UnescapeHtml(tail)
  {
    var out := "&lt;" + tail;
    assert out[..4] == "&lt;" && out[4..] == tail;
    assert out[1] == 'l';
  }

  lemma UnescapeGt(tail: string)
    ensures UnescapeHtml("&gt;" + tail) == ">" + UnescapeHtml(tail)
  {
    var out := "&gt;" + tail;
    assert out[..4] == "&gt;" && out[4..] == tail;
    assert out[1] == 'g';
  }

  lemma UnescapeQuot(tail: string)
    ensures UnescapeHtml("&quot;" + tail) == "\"" + UnescapeHtml(tail)
  {
    var out := "&quot;" + tail;
    assert out[..6] == "&quot;" && out[6..] == tail;
    assert out[1] == 'q';
  }

  lemma UnescapeApos(tail: string)
    ensures UnescapeHtml("&#39;" + tail) == "'" + UnescapeHtml(tail)
  {
    var out := "&#39;" + tail;
    assert out[..5] == "&#39;" && out[5..] == tail;
    assert out[1] == '#';
  }

  /** Unescaping recovers the text: no information is lost. */
  lemma EscapeHtmlRoundTrip(text: string)
    ensures UnescapeHtml(EscapeHtml(text)) == text
  {
    EscapeHtmlEachChar(text);
    UnescapeEscaped(text);
  }

  // ---------------------------------------------------------------------------------------
  // The X-input sanitiser

  /** The characters `/[^0-9.,\-]/g` spares. */
  predicate XChar(c: char) {
    ('0' <= c <= '9') || c == '.' || c == ',' || c == '-'
  }

  /** `value.replace(/[^0-9.,\-]/g, "")`. */
  function SanitizeX(value: string): (s: string)
    ensures |s| <= |value|
  {
    if value == [] then [] else (if XChar(value[0]) then [value[0]] else []) + SanitizeX(value[1..])
  }

  /** The sanitised text keeps only digits, `.`, `,` and `-`, and keeps every one of them. */
  lemma {:induction false} SanitizeXOnlyAllowed(value: string)
    ensures forall i :: 0 <= i < |SanitizeX(value)| ==> XChar(SanitizeX(value)[i])
    ensures forall i :: 0 <= i < |value| && XChar(value[i]) ==> value[i] in SanitizeX(value)
    decreases |value|
  {
    if value != [] {
      SanitizeXOnlyAllowed(value[1..]);
      forall i | 0 <= i < |value| && XChar(value[i]) ensures value[i] in SanitizeX(value) {
        if i > 0 {
          assert value[i] == value[1..][i - 1];
        }
      }
    }
  }

  /** A string is left unchanged exactly when it holds only allowed characters. */
  lemma {:induction false} SanitizeXFixed(value: string)
    ensures SanitizeX(value) == value <==> forall i :: 0 <= i < |value| ==> XChar(value[i])
    decreases |value|
  {
    if value != [] {
      SanitizeXFixed(value[1..]);
      if !XChar(value[0]) {
        assert |SanitizeX(value)| < |value|;
      } else {
        assert value == [value[0]] + value[1..];
        if SanitizeX(value) == value {
          assert SanitizeX(value[1..]) == value[1..];
        }
      }
    }
  }

  /** Sanitising twice is sanitising once, so the handler's write-back settles at once. */
  lemma SanitizeXIdempotent(value: string)
    ensures SanitizeX(SanitizeX(value)) == SanitizeX(value)
  {
    SanitizeXOnlyAllowed(value);
    SanitizeXFixed(SanitizeX(value));
  }

  // ---------------------------------------------------------------------------------------
  // formatNumber and buildHistoryKey

  /** `formatNumber(value)` for the values a record field holds. */
  function FormatNumber(v: JsValue): string {
    match v
    case JNull => "—"
    case JUndefined => "—"
    case JString(s) => EscapeHtml(s)
    case JNumber(text) => if text == "NaN" then EscapeHtml(text) else text
    case JBool(b) => if b then "1" else "0"
  }

  /** Missing values show as a dash, strings are always escaped, numbers show their text. */
  lemma FormatNumberCases(v: JsValue)
    ensures v.JNull? || v.JUndefined? ==> FormatNumber(v) == "—"
    ensures v.JString? ==> HtmlSafe(FormatNumber(v)) && UnescapeHtml(FormatNumber(v)) == v.s
    ensures v.JNumber? ==> FormatNumber(v) == v.text
  {
    match v {
      case JString(s) =>
        EscapeHtmlSafe(s);
        EscapeHtmlRoundTrip(s);
      case JNumber(text) =>
        if text == "NaN" {
          EscapeFree(text);
        }
      case _ =>
    }
  }

  /** Text with none of the five characters escapes to itself. */
  lemma EscapeFree(t: string)
    requires '&' !in t && '<' !in t && '>' !in t && '"' !in t && '\'' !in t
    ensures EscapeHtml(t) == t
  {
    ReplaceAbsent(t, '&', "&amp;");
    ReplaceAbsent(t, '<', "&lt;");
    ReplaceAbsent(t, '>', "&gt;");
    ReplaceAbsent(t, '"', "&quot;");
    ReplaceAbsent(t, '\'', "&#39;");
  }

  /** `` `${value ?? ''}` ``. */
  function KeyPart(v: JsValue): string {
    match v
    case JNull => ""
    case JUndefined => ""
    case JString(s) => s
    case JNumber(text) => text
    case JBool(b) => if b then "true" else "false"
  }

  function KeyParts(rec: JsRecord): (parts: seq<string>)
    ensures |parts| == 5
  {
    [KeyPart(rec.x), KeyPart(rec.y), KeyPart(rec.r), KeyPart(rec.currentTime), KeyPart(rec.processingTimeMs)]
  }

  /** `buildHistoryKey(record)`. */
  function HistoryKey(rec: JsRecord): string {
    Join(KeyParts(rec), "|")
  }

  /** With no `|` inside the fields, the key splits back into x, y, r, time and duration. */
  lemma HistoryKeySplits(rec: JsRecord)
    requires forall i :: 0 <= i < 5 ==> '|' !in KeyParts(rec)[i]
    ensures SplitOn(HistoryKey(rec), '|') == KeyParts(rec)
  {
    SplitOnJoin(KeyParts(rec), '|');
  }

  /** For such records, equal keys mean equal field texts, and conversely. */
  lemma HistoryKeyInjective(a: JsRecord, b: JsRecord)
    requires forall i :: 0 <= i < 5 ==> '|' !in KeyParts(a)[i]
    requires forall i :: 0 <= i < 5 ==> '|' !in KeyParts(b)[i]
    ensures HistoryKey(a) == HistoryKey(b) <==> KeyParts(a) == KeyParts(b)
  {
    HistoryKeySplits(a);
    HistoryKeySplits(b);
  }
}
