/**
 * Request parameters: the `application/x-www-form-urlencoded` query string and POST body
 * (section 5.1 of the WHATWG URL Standard) parsed into an insertion-ordered map, plus the
 * `CONTENT_LENGTH` reader.
 */
module FormParams {
  import opened Wrappers
  import opened Strings
  import opened OrderedMaps
  import Numbers

  // ---------------------------------------------------------------------------------------
  // URLDecoder.decode(raw, UTF_8)

  function HexDigit(c: char): Option<nat> {
    if '0' <= c <= '9' then Some(c as int - '0' as int)
    else if 'a' <= c <= 'f' then Some(c as int - 'a' as int + 10)
    else if 'A' <= c <= 'F' then Some(c as int - 'A' as int + 10)
    else None
  }

  /**
   * The byte an escape `%c1c2` denotes: `Integer.parseInt` in radix 16 over the two
   * characters, which also admits a sign in front of one digit; a negative value is refused.
   */
  function EscapeByte(c1: char, c2: char): (b: Option<nat>)
    ensures b.Some? ==> b.value < 256
    ensures c1 == '%' || c2 == '%' ==> b.None?
  {
    match (HexDigit(c1), HexDigit(c2))
    case (Some(h1), Some(h2)) => Some(16 * h1 + h2)
    case (None, Some(h2)) =>
      if c1 == '+' || (c1 == '-' && h2 == 0) then Some(h2) else None
    case _ => None
  }

  /**
   * A maximal run of `%HH` escapes at the front of `s`: the bytes and what follows. A `%`
   * with fewer than two characters after it, or a bad escape, fails the whole decode.
   */
  function EscapeRun(s: string): (r: Option<(seq<nat>, string)>)
    ensures r.Some? ==> |r.value.1| <= |s| && s[|s| - |r.value.1|..] == r.value.1
    ensures r.Some? && |s| > 0 && s[0] == '%' ==> |r.value.1| < |s|
    ensures r.Some? ==> forall i :: 0 <= i < |r.value.0| ==> r.value.0[i] < 256
    decreases |s|
  {
    if |s| == 0 || s[0] != '%' then Some(([], s))
    else if |s| < 3 then None
    else
      match EscapeByte(s[1], s[2])
      case None => None
      case Some(b) =>
        match EscapeRun(s[3..])
        case None => None
        case Some((bs, rest)) =>
          assert s[3..][|s[3..]| - |rest|..] == s[|s| - |rest|..];
          Some(([b] + bs, rest))
  }

  const Replacement: char := '\U{FFFD}'

  predicate Continuation(b: nat) {
    0x80 <= b < 0xC0
  }

  /** One UTF-8 encoded character at the front of `bs`, and how many bytes it takes. */
  function DecodeOne(bs: seq<nat>): (r: Option<(char, nat)>)
    requires |bs| > 0
    ensures r.Some? ==> 1 <= r.value.1 <= |bs|
  {
    var b0 := bs[0];
    if b0 < 0x80 then Some((b0 as char, 1))
    else if 0xC0 <= b0 < 0xE0 && |bs| >= 2 && Continuation(bs[1]) then
      var cp := (b0 - 0xC0) * 64 + (bs[1] - 0x80);
      if cp >= 0x80 then Some((cp as char, 2)) else None
    else if 0xE0 <= b0 < 0xF0 && |bs| >= 3 && Continuation(bs[1]) && Continuation(bs[2]) then
      var cp := (b0 - 0xE0) * 4096 + (bs[1] - 0x80) * 64 + (bs[2] - 0x80);
      if cp >= 0x800 && !(0xD800 <= cp < 0xE000) then Some((cp as char, 3)) else None
    else if 0xF0 <= b0 < 0xF8 && |bs| >= 4 && Continuation(bs[1]) && Continuation(bs[2]) && Continuation(bs[3]) then
      var cp := (b0 - 0xF0) * 262144 + (bs[1] - 0x80) * 4096 + (bs[2] - 0x80) * 64 + (bs[3] - 0x80);
      if 0x10000 <= cp < 0x110000 then Some((cp as char, 4)) else None
    else None
  }

  /** `new String(bytes, UTF_8)`: a byte that starts no well-formed sequence becomes U+FFFD. */
  function Utf8Decode(bs: seq<nat>): string
    decreases |bs|
  {
    if |bs| == 0 then ""
    else
      match DecodeOne(bs)
      case Some((c, n)) => [c] + Utf8Decode(bs[n..])
      case None => [Replacement] + Utf8Decode(bs[1..])
  }

  /** `URLDecoder.decode(raw, UTF_8)`; `None` stands for the `IllegalArgumentException`. */
  function UrlDecode(s: string): Option<string>
    decreases |s|
  {
    if |s| == 0 then Some("")
    else if s[0] == '%' then
      match EscapeRun(s)
      case None => None
      case Some((bytes, rest)) =>
        match UrlDecode(rest)
        case None => None
        case Some(t) => Some(Utf8Decode(bytes) + t)
    else
      match UrlDecode(s[1..])
      case None => None
      case Some(t) => Some([if s[0] == '+' then ' ' else s[0]] + t)
  }

  /** `decodeComponent`: the decoded text, or "" when the decoder rejects the component. */
  function DecodeComponent(raw: string): string {
    UrlDecode(raw).GetOr("")
  }

  // ---------------------------------------------------------------------------------------
  // parseFormEncoded

  /**
   * `data.split("&")`: the pieces between `&`s with trailing empty pieces removed, except
   * that a string without `&` comes back whole.
   */
  function JavaSplit(data: string, c: char): seq<string> {
    if c !in data then [data] else DropTrailingEmpty(SplitOn(data, c))
  }

  function DropTrailingEmpty(pieces: seq<string>): (r: seq<string>)
    ensures |r| <= |pieces| && r == pieces[..|r|]
    ensures forall i :: |r| <= i < |pieces| ==> pieces[i] == ""
  {
    if |pieces| > 0 && pieces[|pieces| - 1] == "" then DropTrailingEmpty(pieces[..|pieces| - 1])
    else pieces
  }

  /** The decoded key and value of one piece: split at the first `=`, or the whole piece as key. */
  function ParsePair(pair: string): (string, string) {
    if '=' in pair then
      var idx := IndexOf(pair, '=');
      (DecodeComponent(pair[..idx]), DecodeComponent(pair[idx + 1..]))
    else (DecodeComponent(pair), "")
  }

  /** The puts a list of pieces makes: empty pieces and empty decoded keys contribute nothing. */
  function FormEntries(pieces: seq<string>): seq<(string, string)> {
    if |pieces| == 0 then []
    else
      var init := FormEntries(pieces[..|pieces| - 1]);
      var p := pieces[|pieces| - 1];
      if p == "" then init
      else
        var kv := ParsePair(p);
        if kv.0 == "" then init else init + [kv]
  }

  /** The map after parsing `data` into `m`. */
  function ParseForm(m: OrderedMap<string, string>, data: string): OrderedMap<string, string> {
    InsertAll(m, FormEntries(JavaSplit(data, '&')))
  }

  /** `parseFormEncoded(data, target)`: puts each decoded pair into the caller's map. */
  method ParseFormEncoded(data: string, target: LinkedMap<string, string>)
    requires target.Valid()
    modifies target
    ensures target.Valid()
    ensures target.Model() == ParseForm(old(target.Model()), data)
  {
    var pairs := JavaSplit(data, '&');
    for i := 0 to |pairs|
      invariant target.Valid()
      invariant target.Model() == InsertAll(old(target.Model()), FormEntries(pairs[..i]))
    {
      assert pairs[..i + 1][..i] == pairs[..i];
      var pair := pairs[i];
      if pair != "" {
        var key, value;
        if '=' in pair {
          var idx := IndexOf(pair, '=');
          key := DecodeComponent(pair[..idx]);
          value := DecodeComponent(pair[idx + 1..]);
        } else {
          key := DecodeComponent(pair);
          value := "";
        }
        if key != "" {
          target.Put(key, value);
        }
      }
    }
    assert pairs[..|pairs|] == pairs;
  }

  // ---------------------------------------------------------------------------------------
  // parseContentLength

  /** `Character.isWhitespace`: the characters `String.isBlank` skips. */
  predicate JavaWhitespace(c: char) {
    || c == ' ' || '\t' <= c <= '\r' || '\U{1C}' <= c <= '\U{1F}'
    || c == '\U{1680}' || '\U{2000}' <= c <= '\U{2006}' || '\U{2008}' <= c <= '\U{200A}'
    || c == '\U{2028}' || c == '\U{2029}' || c == '\U{205F}' || c == '\U{3000}'
  }

  predicate IsBlank(s: string) {
    forall i :: 0 <= i < |s| ==> JavaWhitespace(s[i])
  }


  /** `Integer.parseInt(s)`: optional sign, at least one digit, and within 32 bits. */
  function ParseInt(s: string): (r: Option<int>)
    ensures r.Some? ==> Numbers.IntMin <= r.value <= Numbers.IntMax
  {
    var neg := |s| > 0 && s[0] == '-';
    var ds := if |s| > 0 && (s[0] == '-' || s[0] == '+') then s[1..] else s;
    if |ds| == 0 || !Numbers.AllDigits(ds) then None
    else
      var v: int := Numbers.DigitsValue(ds);
      var n := if neg then -v else v;
      if Numbers.IntMin <= n <= Numbers.IntMax then Some(n) else None
  }

  /**
   * `parseContentLength`: 0 when the header is absent, blank or not a 32-bit integer;
   * otherwise the integer written in it, surrounding control characters and spaces ignored.
   */
  function ParseContentLength(value: Option<string>): (n: int)
    ensures Numbers.IntMin <= n <= Numbers.IntMax
    ensures value.None? ==> n == 0
    ensures value.Some? && IsBlank(value.value) ==> n == 0
    ensures value.Some? && ParseInt(Numbers.JavaTrim(value.value)).None? ==> n == 0
  {
    match value
    case None => 0
    case Some(v) =>
      if IsBlank(v) then 0
      else ParseInt(Numbers.JavaTrim(v)).GetOr(0)
  }

  // ---------------------------------------------------------------------------------------
  // readParams

  /** ASCII case-insensitive equality (`String.equalsIgnoreCase` on ASCII text). */
  predicate EqualsIgnoreCase(a: string, b: string) {
    |a| == |b| && forall i :: 0 <= i < |a| ==> Lower(a[i]) == Lower(b[i])
  }

  function Lower(c: char): char {
    if 'A' <= c <= 'Z' then (c as int + 32) as char else c
  }

  /** Whether a POST body is read: the method is POST in any case and the length is positive. */
  predicate ReadsBody(requestMethod: string, contentLength: Option<string>) {
    EqualsIgnoreCase("POST", requestMethod) && ParseContentLength(contentLength) > 0
  }

  /** The parameters `readParams` collects: the query string first, then the body on top. */
  function RequestParams(query: Option<string>, requestMethod: string, contentLength: Option<string>,
                         body: string): OrderedMap<string, string>
  {
    var fromQuery := QueryParams(query);
    if ReadsBody(requestMethod, contentLength) && body != "" then ParseForm(fromQuery, body)
    else fromQuery
  }

  /**
   * `readParams`. The query string, the method and the length header come from the request
   * environment, `body` is what `readBody` delivered (at most `CONTENT_LENGTH` characters).
   */
  method ReadParams(query: Option<string>, requestMethod: string, contentLength: Option<string>,
                    body: string)
    returns (params: LinkedMap<string, string>)
    ensures fresh(params) && params.Valid()
    ensures params.Model() == RequestParams(query, requestMethod, contentLength, body)
  {
    params := new LinkedMap();
    if query.Some? && !IsBlank(query.value) {
      ParseFormEncoded(query.value, params);
    }
    if EqualsIgnoreCase("POST", requestMethod) {
      var length := ParseContentLength(contentLength);
      if length > 0 {
        if body != "" {
          ParseFormEncoded(body, params);
        }
      }
    }
  }

  // ---------------------------------------------------------------------------------------
  // Properties

  /** Text with no `%` and no `+` decodes to itself. */
  lemma {:induction false} DecodePlain(raw: string)
    requires '%' !in raw && '+' !in raw
    ensures UrlDecode(raw) == Some(raw)
    ensures DecodeComponent(raw) == raw
  {
    if |raw| > 0 {
      assert raw[0] in raw;
      assert forall c :: c in raw[1..] ==> c in raw;
      DecodePlain(raw[1..]);
      assert [raw[0]] + raw[1..] == raw;
    }
  }

  /** A `%` among the last two characters: an escape with fewer than two characters after it. */
  predicate EndsInIncompleteEscape(s: string) {
    (|s| >= 1 && s[|s| - 1] == '%') || (|s| >= 2 && s[|s| - 2] == '%')
  }

  /** An escape run never consumes an incomplete trailing escape: what it leaves still ends in one. */
  lemma {:induction false} EscapeRunKeepsIncomplete(s: string)
    requires EndsInIncompleteEscape(s)
    ensures EscapeRun(s).Some? ==> EndsInIncompleteEscape(EscapeRun(s).value.1)
    decreases |s|
  {
    if s[0] == '%' && |s| >= 3 && EscapeByte(s[1], s[2]).Some? {
      var t := s[3..];
      if s[|s| - 1] == '%' {
        assert t[|t| - 1] == '%';
      } else {
        assert t[|t| - 2] == '%';
      }
      EscapeRunKeepsIncomplete(t);
    }
  }

  /**
   * A component with an incomplete trailing escape (`%` with fewer than two characters after
   * it) is rejected by the decoder, so `decodeComponent` turns it into "".
   */
  lemma {:induction false} DecodeIncompleteEscape(s: string)
    requires EndsInIncompleteEscape(s)
    ensures UrlDecode(s).None?
    ensures DecodeComponent(s) == ""
    decreases |s|
  {
    if s[0] == '%' {
      EscapeRunKeepsIncomplete(s);
      match EscapeRun(s)
      case None =>
      case Some((bytes, rest)) =>
        DecodeIncompleteEscape(rest);
    } else {
      var t := s[1..];
      if s[|s| - 1] == '%' {
        assert t[|t| - 1] == '%';
      } else {
        assert t[|t| - 2] == '%';
      }
      DecodeIncompleteEscape(t);
    }
  }

  /**
   * Only the first `=` splits a pair: the value keeps every later `=`. A pair without `=`
   * is a key with the empty value.
   */
  lemma ParsePairAtFirstEquals(k: string, v: string)
    requires '=' !in k
    ensures ParsePair(k + "=" + v) == (DecodeComponent(k), DecodeComponent(v))
    ensures ParsePair(k) == (DecodeComponent(k), "")
  {
    var p := k + "=" + v;
    assert p[|k|] == '=';
    assert p[..|k|] == k;
    assert IndexOf(p, '=') == |k|;
    assert p[|k| + 1..] == v;
  }

  /** The keys a list of pieces puts: the non-empty decoded keys of the non-empty pieces. */
  lemma {:induction false} FormEntriesKeys(pieces: seq<string>)
    ensures forall i :: 0 <= i < |FormEntries(pieces)| ==> FormEntries(pieces)[i].0 != ""
    ensures (set i | 0 <= i < |FormEntries(pieces)| :: FormEntries(pieces)[i].0)
         == (set p | p in pieces && p != "" && ParsePair(p).0 != "" :: ParsePair(p).0)
  {
    if |pieces| > 0 {
      var init := pieces[..|pieces| - 1];
      var p := pieces[|pieces| - 1];
      FormEntriesKeys(init);
      assert pieces == init + [p];
      var es := FormEntries(pieces);
      var es0 := FormEntries(init);
      if p == "" || ParsePair(p).0 == "" {
        assert es == es0;
      } else {
        assert es == es0 + [ParsePair(p)];
        var lhs := set i | 0 <= i < |es| :: es[i].0;
        var rhs := (set i | 0 <= i < |es0| :: es0[i].0) + {ParsePair(p).0};
        forall x | x in lhs ensures x in rhs {
          var i :| 0 <= i < |es| && es[i].0 == x;
          if i < |es0| { assert es0[i].0 == x; }
        }
        forall x | x in rhs ensures x in lhs {
          if x == ParsePair(p).0 {
            assert es[|es0|].0 == x;
          } else {
            var i :| 0 <= i < |es0| && es0[i].0 == x;
            assert es[i].0 == x;
          }
        }
      }
    }
  }

  /**
   * After parsing, the map's keys are the keys it had plus the non-empty decoded keys of
   * the non-empty `&`-separated pieces; nothing else.
   */
  lemma ParseFormKeys(m: OrderedMap<string, string>, data: string)
    ensures ParseForm(m, data).entries.Keys
         == m.entries.Keys + (set p | p in JavaSplit(data, '&') && p != "" && ParsePair(p).0 != "" :: ParsePair(p).0)
  {
    var es := FormEntries(JavaSplit(data, '&'));
    InsertAllKeys(m, es);
    FormEntriesKeys(JavaSplit(data, '&'));
  }

  /**
   * A key put again (by a later pair, or by the body after the query string) takes the value
   * of its last pair but stays where it was first inserted.
   */
  lemma ParseFormOverwrites(m: OrderedMap<string, string>, data: string, k: string, v: string)
    requires WellFormed(m)
    requires LastValue(FormEntries(JavaSplit(data, '&')), k) == Some(v)
    ensures WellFormed(ParseForm(m, data))
    ensures k in ParseForm(m, data).entries && ParseForm(m, data).entries[k] == v
    ensures |m.keys| <= |ParseForm(m, data).keys| && ParseForm(m, data).keys[..|m.keys|] == m.keys
  {
    var es := FormEntries(JavaSplit(data, '&'));
    InsertAllWellFormed(m, es);
    InsertAllOrder(m, es);
    LastValueKey(es, k);
    InsertAllKeys(m, es);
    InsertAllValue(m, es, k);
  }

  lemma {:induction false} LastValueKey<V>(kvs: seq<(string, V)>, k: string)
    requires LastValue(kvs, k).Some?
    ensures k in set i | 0 <= i < |kvs| :: kvs[i].0
  {
    var n := |kvs|;
    if kvs[n - 1].0 != k {
      LastValueKey(kvs[..n - 1], k);
      var i :| 0 <= i < n - 1 && kvs[..n - 1][i].0 == k;
      assert kvs[i].0 == k;
    }
  }

  lemma {:induction false} FormEntriesDropTrailing(pieces: seq<string>)
    ensures FormEntries(DropTrailingEmpty(pieces)) == FormEntries(pieces)
  {
    if |pieces| > 0 && pieces[|pieces| - 1] == "" {
      FormEntriesDropTrailing(pieces[..|pieces| - 1]);
    }
  }

  /** Java's dropping of trailing empty pieces in `split` makes no difference to the result. */
  lemma ParseFormIgnoresSplitTrimming(data: string)
    ensures FormEntries(JavaSplit(data, '&')) == FormEntries(SplitOn(data, '&'))
  {
    FormEntriesDropTrailing(SplitOn(data, '&'));
  }

  /** Text the form encoding leaves as it is: no `&`, `=`, `%` or `+`. */
  predicate PlainComponent(s: string) {
    '&' !in s && '=' !in s && '%' !in s && '+' !in s
  }

  /** The `key=value` piece of each pair, in order. */
  function FormPieces(kvs: seq<(string, string)>): (pieces: seq<string>)
    ensures |pieces| == |kvs|
    ensures forall i :: 0 <= i < |kvs| ==> pieces[i] == kvs[i].0 + "=" + kvs[i].1
  {
    seq(|kvs|, i requires 0 <= i < |kvs| => kvs[i].0 + "=" + kvs[i].1)
  }

  /** `k1=v1&k2=v2&…`, the body the browser's `URLSearchParams` builds for plain text. */
  function EncodeForm(kvs: seq<(string, string)>): string {
    Join(FormPieces(kvs), "&")
  }

  /**
   * Encoding plain, non-empty keys with plain values and parsing the result puts exactly
   * those pairs, in order.
   */
  lemma FormRoundTrip(kvs: seq<(string, string)>)
    requires forall i :: 0 <= i < |kvs| ==> kvs[i].0 != "" && PlainComponent(kvs[i].0) && PlainComponent(kvs[i].1)
    ensures ParseForm(Empty(), EncodeForm(kvs)) == InsertAll(Empty(), kvs)
  {
    if |kvs| == 0 {
      assert EncodeForm(kvs) == "";
    } else {
      EncodedSplit(kvs);
      PiecesParse(kvs, FormPieces(kvs));
    }
  }

  /** Java's `split` of a plain encoding gives back its pieces, none of them empty. */
  lemma EncodedSplit(kvs: seq<(string, string)>)
    requires |kvs| > 0
    requires forall i :: 0 <= i < |kvs| ==> kvs[i].0 != "" && PlainComponent(kvs[i].0) && PlainComponent(kvs[i].1)
    ensures JavaSplit(EncodeForm(kvs), '&') == FormPieces(kvs)
  {
    var pieces := FormPieces(kvs);
    var data := EncodeForm(kvs);
    forall i | 0 <= i < |pieces| ensures '&' !in pieces[i] {
      PlainConcat(kvs[i].0, kvs[i].1);
    }
    SplitOnJoin(pieces, '&');
    if '&' !in data {
      JoinSplitOn(data, '&');
      assert SplitOn(data, '&') == [data];
    } else {
      assert pieces[|pieces| - 1] != "";
    }
  }

  lemma PlainConcat(k: string, v: string)
    requires PlainComponent(k) && PlainComponent(v)
    ensures '&' !in k + "=" + v
  {
    assert forall c :: c in k + "=" + v ==> c in k || c == '=' || c in v;
  }

  lemma {:induction false} PiecesParse(kvs: seq<(string, string)>, pieces: seq<string>)
    requires |pieces| == |kvs|
    requires forall i :: 0 <= i < |kvs| ==> pieces[i] == kvs[i].0 + "=" + kvs[i].1
    requires forall i :: 0 <= i < |kvs| ==> kvs[i].0 != "" && PlainComponent(kvs[i].0) && PlainComponent(kvs[i].1)
    ensures FormEntries(pieces) == kvs
  {
    var n := |kvs|;
    if n > 0 {
      PiecesParse(kvs[..n - 1], pieces[..n - 1]);
      var kv := kvs[n - 1];
      ParsePairAtFirstEquals(kv.0, kv.1);
      DecodePlain(kv.0);
      DecodePlain(kv.1);
      assert kvs == kvs[..n - 1] + [kv];
    }
  }

  /** A `CONTENT_LENGTH` holding the decimal text of a 32-bit integer reads back as that integer. */
  lemma ContentLengthOfInt(n: int)
    requires Numbers.IntMin <= n <= Numbers.IntMax
    ensures ParseContentLength(Some(Numbers.IntString(n))) == n
  {
    var s := Numbers.IntString(n);
    var ds := Numbers.NatString(if n < 0 then -n else n);
    assert !JavaWhitespace(s[0]);
    assert Numbers.JavaTrim(s) == s;
    if n < 0 {
      assert s[1..] == ds;
    } else {
      assert s[0] != '-' && s[0] != '+';
    }
  }

  /** The parameters the query string alone yields. */
  function QueryParams(query: Option<string>): (m: OrderedMap<string, string>)
    ensures WellFormed(m)
  {
    if query.Some? && !IsBlank(query.value) then
      InsertAllWellFormed(Empty(), FormEntries(JavaSplit(query.value, '&')));
      ParseForm(Empty(), query.value)
    else Empty()
  }

  /**
   * For a POST with a positive length, a key the body sets takes the body's (last) value,
   * and the query-string keys keep their positions at the front.
   */
  lemma BodyOverridesQuery(query: Option<string>, requestMethod: string, contentLength: Option<string>,
                           body: string, k: string, v: string)
    requires ReadsBody(requestMethod, contentLength) && body != ""
    requires LastValue(FormEntries(JavaSplit(body, '&')), k) == Some(v)
    ensures var r := RequestParams(query, requestMethod, contentLength, body);
      && WellFormed(r) && k in r.entries && r.entries[k] == v
      && |QueryParams(query).keys| <= |r.keys| && r.keys[..|QueryParams(query).keys|] == QueryParams(query).keys
  {
    ParseFormOverwrites(QueryParams(query), body, k, v);
  }
}
