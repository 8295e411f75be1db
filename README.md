# Point-in-area checker: a Dafny model

The system is a small web application. A FastCGI server (`Main.java`) receives a point `(x, y)` and a radius `r` as form-encoded parameters. It validates them, tests whether the point lies in a shaded area made of a quarter disc, a triangle and a rectangle, keeps the last 100 accepted results in memory and answers with JSON. A browser script (`app.js`) checks the form before sending it. It merges the server's history with a locally cached copy and renders the history table and the points on the plot.

This project models the per-request pipeline of the server and the pure helpers and history handling of the script:

- **`FormParams`** — parameter extraction: `readParams`, `parseFormEncoded`, `decodeComponent` (with `URLDecoder.decode`) and `parseContentLength`.
- **`OrderedMaps`** — the insertion-ordered map behind `LinkedHashMap` and the JavaScript `Map`: a value model plus a `LinkedMap` class whose `Put` updates it in place.
- **`Numbers`** — the `BigDecimal` grammar with its `int` limits on the exponent and the scale, the `Double.parseDouble` grammar, `String.trim`, `toPlainString`, and `formatNumber(double)` through `BigDecimal.valueOf`.
- **`Validator`** — `validate`, split into its presence, parse and range phases.
- **`Geometry`** — `checkHit`, over exact reals.
- **`HistoryStore`** — the bounded history with `addToHistory` and `snapshotHistory`.
- **`Json`** — `quote` and the response writers, which append to a string builder record by record. A small JSON reader shows that the emitted strings, error lists and records read back.
- **`Handler`** — the branch structure of `handleRequest`.
- **`ClientText`** — `escapeHtml`, the X-input sanitiser, `formatNumber` and `buildHistoryKey`.
- **`ClientForm`** — `validateForm`, with the JavaScript `trim`, the first-comma replacement, the X pattern and `Number`.
- **`ClientHistory`** — the merge in `handleResponse`, `renderHistory` and `updatePlotPoints`.

Where the source changes state step by step, the model does too:

- the parameter map and the history are classes with `modifies` clauses;
- the validator and the writers are methods with loops;
- the client merge fills a `LinkedMap` record by record.

Each method is proved equal to a specification function. The properties are proved about those functions, and the texts the writers produce are read back with the reader in `Json`.

## Model

| member | source | states |
|---|---|---|
| `FormParams.ParseFormEncoded` | src/main/java/ru/pozitp/Main.java:102-125 | Filling the caller's map piece by piece leaves exactly the map that putting every decoded pair of the `&`-split data into the old map gives. |
| `FormParams.ParsePairAtFirstEquals` | src/main/java/ru/pozitp/Main.java:109-120 | A pair splits at its first `=`, so later `=` stay in the decoded value. A pair without `=` maps its decoded key to `""`. |
| `FormParams.FormEntriesKeys` | src/main/java/ru/pozitp/Main.java:103-123 | Empty pieces and pieces whose decoded key is empty put nothing. The keys put are the non-empty decoded keys of the non-empty pieces. |
| `FormParams.ParseFormKeys` | src/main/java/ru/pozitp/Main.java:102-125 | After parsing, the map's key set is the old keys plus every non-empty decoded key seen. |
| `FormParams.ParseFormOverwrites` | src/main/java/ru/pozitp/Main.java:122 | A repeated key holds the value of its last occurrence. Keys already present keep their positions. |
| `FormParams.ParseFormIgnoresSplitTrimming` | src/main/java/ru/pozitp/Main.java:103 | `String.split` drops trailing empty pieces, and this makes no difference to the parameters. |
| `FormParams.FormRoundTrip` | src/main/java/ru/pozitp/Main.java:102-125 | Parsing `k1=v1&…&kn=vn` with plain, non-empty keys gives the map that putting the pairs in order gives. |
| `FormParams.DecodePlain` | src/main/java/ru/pozitp/Main.java:127-134 | A component with no `%` and no `+` decodes to itself. |
| `FormParams.DecodeIncompleteEscape` | src/main/java/ru/pozitp/Main.java:127-134 | A component with a `%` among its last two characters (an escape with fewer than two characters after it) makes the decoder throw, and `decodeComponent` then yields `""`. |
| `FormParams.ParseContentLength` | src/main/java/ru/pozitp/Main.java:136-147 | Missing, blank or unparseable text gives 0. Any result is a 32-bit integer. |
| `FormParams.ContentLengthOfInt` | src/main/java/ru/pozitp/Main.java:136-147 | The decimal text of any 32-bit integer reads back as that integer. |
| `FormParams.ReadParams` | src/main/java/ru/pozitp/Main.java:78-99 | Returns a fresh map holding the query-string parameters, then the body's on top. The body is used only for a POST in any letter case with a positive length and a non-empty body. |
| `FormParams.QueryParams` | src/main/java/ru/pozitp/Main.java:80-84 | The query-string parameters form a well-formed ordered map. |
| `FormParams.BodyOverridesQuery` | src/main/java/ru/pozitp/Main.java:78-99 | A key the body supplies holds the body's last value for it, even when the query string also had it. |
| `OrderedMaps.LinkedMap.Put` | src/main/java/ru/pozitp/Main.java:122 | `put` overwrites an existing key's value in place and appends a new key at the end. |
| `OrderedMaps.LinkedMap.ContainsKey` | src/main/java/ru/pozitp/Main.java:171-177 | `containsKey` is true exactly for the keys in the map. |
| `OrderedMaps.LinkedMap.ValuesInOrder` | src/main/resources/static/scripts/app.js:279 | `Array.from(map.values())` lists the values in key-insertion order. |
| `OrderedMaps.InsertAllValue` | src/main/java/ru/pozitp/Main.java:122 | After a series of puts, every key holds the value of the last put that named it. |
| `OrderedMaps.InsertAllOrder` | src/main/resources/static/scripts/app.js:271-279 | Keys already present keep their positions, and all keys are in the order each was first put. |
| `OrderedMaps.InsertAllKeys` | src/main/java/ru/pozitp/Main.java:122 | The key set after a series of puts is the old keys plus every key put. |
| `Numbers.ParseBigDecimal` | src/main/java/ru/pozitp/Main.java:183 | `new BigDecimal` refuses a text whose exponent or resulting scale does not fit in an `int`, so every decimal it returns has an `int` scale. |
| `Numbers.PlainStringRoundTrip` | src/main/java/ru/pozitp/Main.java:358-361 | `toPlainString` of a decimal with a non-negative `int` scale parses back with `new BigDecimal` to the same unscaled value and scale. |
| `Numbers.PlainStringChars` | src/main/java/ru/pozitp/Main.java:358-361 | `toPlainString` writes a non-empty text of digits, `-` and `.` only, so a bare JSON number ends at the next `,` or `}`. |
| `Numbers.JavaTrimSlices` | src/main/java/ru/pozitp/Main.java:141 | `String.trim` returns a slice of its input with only characters ≤ U+0020 before and after it. |
| `Numbers.DoubleDecimalValue` | src/main/java/ru/pozitp/Main.java:363-365 | `BigDecimal.valueOf` keeps the value. In the plain range 10^-3 ≤ \|v\| < 10^7 it has at least one fraction digit. |
| `Numbers.FormatDouble` | src/main/java/ru/pozitp/Main.java:363-365 | `formatNumber(double)` yields text exactly for finite values; NaN and the infinities make it throw. |
| `Numbers.IntegerDigitsParse` | src/main/java/ru/pozitp/Main.java:183 | A plain digit string parses to the integer it denotes, with scale 0. |
| `Numbers.FractionDigitsParse` | src/main/java/ru/pozitp/Main.java:183 | `ip.fp` parses to the digits of both parts, with one scale step per fraction digit. |
| `Validator.Validate` | src/main/java/ru/pozitp/Main.java:164-230 | The error list built check by check equals the validation function of the parameter map. An invalid result carries at least one message. |
| `Validator.CheckPresence` | src/main/java/ru/pozitp/Main.java:171-179 | Reports the missing-parameter messages for the absent keys, in the order x, y, r. |
| `Validator.ParseNumbers` | src/main/java/ru/pozitp/Main.java:181-197 | Parses x as a `BigDecimal` and y and r as doubles. A parse failure adds a "must be a number" message, in the order x, y, r. |
| `Validator.CheckRanges` | src/main/java/ru/pozitp/Main.java:199-224 | Adds only the first range message that applies: x, then y, then r's sign, then r's allowed set. |
| `Validator.MatchesAllowedR` | src/main/java/ru/pozitp/Main.java:213-219 | The loop over `ALLOWED_R` matches exactly when some allowed value lies within `EPS` of r. |
| `Validator.ValidationOf` | src/main/java/ru/pozitp/Main.java:164-230 | An invalid result carries between one and three messages. |
| `Validator.ValidIff` | src/main/java/ru/pozitp/Main.java:164-230 | The result is valid with (x, y, r) exactly when all three are present and parse, y and r are finite, −3 ≤ x ≤ 5 and −5 ≤ y ≤ 5, and some allowed value is within 1e-9 of r. |
| `Validator.ParsedValidIff` | src/main/java/ru/pozitp/Main.java:199-229 | The same equivalence once parsing has been tried. |
| `Validator.XBoundsValues` | src/main/java/ru/pozitp/Main.java:27-28 | `X_MIN` and `X_MAX` are −3 and 5. |
| `Validator.MissingReportedByName` | src/main/java/ru/pozitp/Main.java:171-181 | When a parameter is missing, the errors are exactly the missing-parameter messages of the absent names, with no parse or range message. |
| `Validator.MissingMessagesDistinct` | src/main/java/ru/pozitp/Main.java:172-178 | The three missing-parameter messages differ. |
| `Validator.RangeErrorAlone` | src/main/java/ru/pozitp/Main.java:199-224 | A reported range or allowed-set message is the only message. |
| `Validator.NonPositiveRadiusRejected` | src/main/java/ru/pozitp/Main.java:209-211 | With x and y in range, r ≤ 0 gives exactly the "must be positive" message. |
| `Validator.NotAllowedOnlyForPositive` | src/main/java/ru/pozitp/Main.java:209-223 | The allowed-set message is only given for an r that parsed and is not ≤ 0. |
| `Validator.NaNPassesYCheckAsWritten` | src/main/java/ru/pozitp/Main.java:204-207 | As written, y = "NaN" parses and passes the y check, and it cannot be formatted afterwards. |
| `Validator.YChecksDifferOnlyOnNaN` | src/main/java/ru/pozitp/Main.java:204-207 | The written and the intended y checks disagree exactly on NaN. |
| `Validator.NaNRejected` | src/main/java/ru/pozitp/Main.java:204-207 | With the intended check, x=0, y=NaN, r=2 is rejected with the y range message alone. |
| `Validator.FractionalRadiusRejected` | src/main/java/ru/pozitp/Main.java:209-222 | r = 1.7 is positive but not allowed, and gets only the allowed-set message. |
| `Geometry.AreaIsHit` | src/main/java/ru/pozitp/Main.java:232-254 | For r > 0, every point of the area (quarter disc of radius r/2 in the first quadrant, triangle in the fourth, rectangle in the third) is a hit. |
| `Geometry.SecondQuadrantMisses` | src/main/java/ru/pozitp/Main.java:235-253 | Any point with x < −EPS and y > EPS is a miss. |
| `Geometry.FirstBranchHit` | src/main/java/ru/pozitp/Main.java:235-241 | In the first branch, a hit happens exactly when x, y ≤ r/2 + EPS and x² + y² ≤ (r/2)² + EPS. |
| `Geometry.HitBoundingBox` | src/main/java/ru/pozitp/Main.java:232-254 | Every hit satisfies −r − EPS ≤ x ≤ r/2 + EPS and −r/2 − EPS ≤ y ≤ r/2 + EPS. |
| `Geometry.ExamplesRadiusTwo` | src/main/java/ru/pozitp/Main.java:232-254 | Hits and misses for five points at r = 2, one per region and two outside. |
| `HistoryStore.History.constructor` | src/main/java/ru/pozitp/Main.java:22 | The history starts empty. |
| `HistoryStore.History.Add` | src/main/java/ru/pozitp/Main.java:256-263 | `addToHistory` appends, then removes index 0 when the list exceeds 100. The size stays at most 100. |
| `HistoryStore.History.Snapshot` | src/main/java/ru/pozitp/Main.java:265-270 | The snapshot equals the current contents. |
| `HistoryStore.AddedShape` | src/main/java/ru/pozitp/Main.java:256-263 | After an add, the size is ≤ 100 and the last element is the new record. Below 100 the old contents are an unchanged prefix; at 100 the result is the old contents minus the first, followed by the record. |
| `HistoryStore.AddedAllWindow` | src/main/java/ru/pozitp/Main.java:256-263 | After any number of adds, the history is the newest 100 of everything added. |
| `HistoryStore.NewestOfNewest` | src/main/java/ru/pozitp/Main.java:256-263 | For any lists, keeping the newest 100 of the first and then adding the second is the same as keeping the newest 100 of everything. |
| `Json.QuoteEscapesEachChar` | src/main/java/ru/pozitp/Main.java:343-350 | `quote` wraps the text in `"` and escapes each character independently: `\`, `"`, CR and LF become two-character escapes, and everything else is kept. |
| `Json.QuoteBody` | src/main/java/ru/pozitp/Main.java:344-348 | The four chained replacements, `\` first, equal the per-character escaping. |
| `Json.QuotePlain` | src/main/java/ru/pozitp/Main.java:343-350 | Text free of the four special characters appears unchanged between the quotes. |
| `Json.QuoteRoundTrip` | src/main/java/ru/pozitp/Main.java:343-350 | A JSON string reader recovers the original text from `quote`'s output and stops right after it. |
| `Json.QuotedListRoundTrip` | src/main/java/ru/pozitp/Main.java:310-315 | The comma-separated quoted error list reads back as the original list of messages. |
| `Json.ErrorBodyReadsBack` | src/main/java/ru/pozitp/Main.java:306-330 | The error body begins with the status and the `errors` list, and that list reads back as the messages. |
| `Json.AppendRecord` | src/main/java/ru/pozitp/Main.java:292-303 | Appends exactly the record's JSON object: quoted x, plain y and r, the hit flag, the quoted time and the processing time. |
| `Json.RecordRoundTrip` | src/main/java/ru/pozitp/Main.java:292-303 | The object `appendRecord` writes reads back with a JSON reader, member by member: x and the time as the strings written, the hit flag as written, and y, r and the processing time as their number texts. Reading stops right after the closing brace. |
| `Json.LayoutReadsBack` | src/main/java/ru/pozitp/Main.java:292-303 | The record layout reads back for any x and time text and any bare number texts, whatever follows it. |
| `Json.SuccessDataReadsBack` | src/main/java/ru/pozitp/Main.java:272-278 | The `data` member of a success body reads back as the current record. |
| `Json.AppendRecords` | src/main/java/ru/pozitp/Main.java:280-286 | The loop appends the records' objects separated by commas, with no trailing comma. |
| `Json.WriteSuccessResponse` | src/main/java/ru/pozitp/Main.java:272-290 | Answers 200 "OK" with the body `{"status":"ok","data":…,"history":[…]}`, writing `data` and each history entry with `appendRecord`. |
| `Json.WriteErrorResponse` | src/main/java/ru/pozitp/Main.java:306-330 | Answers with the given status and the body listing the quoted errors, the time, the processing time and the history. |
| `Handler.ToMillis` | src/main/java/ru/pozitp/Main.java:352-356 | The milliseconds times 10^6 are the nanoseconds. |
| `Handler.HandleRequest` | src/main/java/ru/pozitp/Main.java:45-75 | The new history and the response equal the request's outcome: 500 when the body read fails, 400 with the messages when validation fails, and otherwise the hit test, the record appended to the history, and 200. |
| `Handler.OnlyAcceptedRequestsRecorded` | src/main/java/ru/pozitp/Main.java:45-75 | The status is 200, 400 or 500. Only a 200 changes the history, and a 200 happens exactly for a readable request that validates. |
| `Handler.AcceptedPointRecorded` | src/main/java/ru/pozitp/Main.java:57-66 | On a 200 the newest history entry is the accepted point with the hit test's verdict, the history stays within 100, and the body lists that history. |
| `Handler.SuccessReportsHit` | src/main/java/ru/pozitp/Main.java:57-66 | On a 200 the body's `data` member, read back, has `hit` equal to the hit test on the accepted point, and x as `toPlainString` of the accepted x, which parses back to that x when its scale is not negative. |
| `Handler.RejectionListsErrors` | src/main/java/ru/pozitp/Main.java:50-53 | A 400 body carries the validation messages, and they read back unchanged. |
| `ClientText.EscapeHtmlEachChar` | src/main/resources/static/scripts/app.js:444-453 | The five chained replacements, `&` first, escape each character independently. |
| `ClientText.EscapeHtmlSafe` | src/main/resources/static/scripts/app.js:444-453 | The output has no raw `<`, `>`, `"` or `'`, and every `&` in it starts one of the five entities. |
| `ClientText.EscapeHtmlRoundTrip` | src/main/resources/static/scripts/app.js:444-453 | Decoding the five entities gives back the original text. |
| `ClientText.SanitizeXOnlyAllowed` | src/main/resources/static/scripts/app.js:28-34 | The sanitised X text holds only digits, `.`, `,` and `-`, and every such character of the input is kept. |
| `ClientText.SanitizeXFixed` | src/main/resources/static/scripts/app.js:28-34 | The sanitiser leaves a text unchanged exactly when it is already clean. |
| `ClientText.SanitizeXIdempotent` | src/main/resources/static/scripts/app.js:28-34 | Sanitising twice is sanitising once. |
| `ClientText.FormatNumberCases` | src/main/resources/static/scripts/app.js:407-419 | null and undefined show as "—". A string is shown HTML-escaped and decodes back to itself. A number shows its text. |
| `ClientText.HistoryKeySplits` | src/main/resources/static/scripts/app.js:341-345 | The key joins x, y, r, the time and the processing time with `\|` (null and undefined as ""), and splits back into them when they hold no `\|`. |
| `ClientText.HistoryKeyInjective` | src/main/resources/static/scripts/app.js:341-345 | For such records, equal keys mean equal field texts, and conversely. |
| `ClientForm.ValidateForm` | src/main/resources/static/scripts/app.js:184-229 | The form is valid exactly when no message was pushed. A valid result carries the trimmed X (first comma made a point), the Y text and the chosen R. An invalid one carries the messages in check order, joined with single spaces. |
| `ClientForm.JsTrim` | src/main/resources/static/scripts/app.js:187 | `trim` leaves no ECMAScript white space at either end. |
| `ClientForm.JsTrimSlices` | src/main/resources/static/scripts/app.js:187 | `trim` returns a slice of its input with only white space before and after it. |
| `ClientForm.MatchedNumber` | src/main/resources/static/scripts/app.js:191-193 | A text matching `^[-+]?\d+(\.\d+)?$` converts with `Number` to the value its digits denote. |
| `ClientForm.XRule` | src/main/resources/static/scripts/app.js:187-195 | X is accepted exactly when it matches the pattern and lies in [−3, 5]. A non-matching X gets only the "enter a number" message. |
| `ClientForm.SecondCommaRejected` | src/main/resources/static/scripts/app.js:187 | Only the first comma becomes a point, so an X with two commas fails the pattern. |
| `ClientForm.RRule` | src/main/resources/static/scripts/app.js:202-212 | R is accepted exactly when one is chosen and its text is "1", "1.5", "2", "2.5" or "3". A missing R gets only its own message. |
| `ClientForm.EmptyForm` | src/main/resources/static/scripts/app.js:184-216 | An empty form reports the X, Y and R messages, in that order, separated by single spaces. |
| `ClientHistory.PutRecord` | src/main/resources/static/scripts/app.js:272-275 | `put` skips a null record and otherwise sets the record under its history key. |
| `ClientHistory.PutAll` | src/main/resources/static/scripts/app.js:276-277 | `forEach(put)` puts every non-null record of the list under its key, first to last. |
| `ClientHistory.MergeHistory` | src/main/resources/static/scripts/app.js:264-282 | The merged list is the map's values after putting the cache, then the server history, then the current record. |
| `ClientHistory.MergedDistinct` | src/main/resources/static/scripts/app.js:271-279 | No two merged records share a key. |
| `ClientHistory.MergedLastWins` | src/main/resources/static/scripts/app.js:271-279 | Each merged record is the last non-null record supplied under its key, and every supplied record's key is present. |
| `ClientHistory.CurrentShown` | src/main/resources/static/scripts/app.js:278 | The current record is always in the merged list as it is. |
| `ClientHistory.MergedFirstSeenOrder` | src/main/resources/static/scripts/app.js:271-279 | The merged keys are in the order each key was first supplied. |
| `ClientHistory.NullIgnored` | src/main/resources/static/scripts/app.js:273 | A null entry anywhere changes nothing. |
| `ClientHistory.PresentMembers` | src/main/resources/static/scripts/app.js:273 | Dropping null entries keeps exactly the records some entry holds. |
| `ClientHistory.RenderHistory` | src/main/resources/static/scripts/app.js:286-339 | The rows are the non-null records of the reversed list, each with its key and its x, y, r, hit and processing-time cells. The points are those of the reversed list. |
| `ClientHistory.RowsNewestFirst` | src/main/resources/static/scripts/app.js:288 | Row i shows the i-th record from the end: newest first. |
| `ClientHistory.UpdatePlotPoints` | src/main/resources/static/scripts/app.js:347-362 | The loop from the last index down to 0 draws the plottable records in that order, flagging index 0. |
| `ClientHistory.OnlyNewestFlagged` | src/main/resources/static/scripts/app.js:358-360 | At most one point is flagged latest, and it is drawn last. It exists exactly when the entry at index 0 is plottable, and it is that entry's point. |

## Left out

- The FastCGI accept loop (`Main.java:39-43`) and `writeResponse` (`:332-341`) are output only. A response is modelled as status, status text and body, without the headers or the UTF-8 byte count.
- `readBody` (`:149-162`) is a blocking stream read. Its result is a request field, which is absent when the read throws, and the exception message is a field too.
- The environment reads (`System.getProperty`) are the request's fields.
- The `synchronized` blocks around the history are for concurrency. The history is a single-threaded class.
- Handler.ToMillis: `nanos / 1_000_000.0` is computed exactly, without double rounding.
- Clocks are inputs. `OffsetDateTime.now` formatted as ISO-8601 is a string parameter. `System.nanoTime` differences are one elapsed-time parameter per request, although the source reads the clock separately on each path.
- Handler.HandleRequest: exceptions other than a failing body read are not modelled on the 500 path.
- Handler.HandleRequest, Handler.OnlyAcceptedRequestsRecorded, Handler.AcceptedPointRecorded, Handler.SuccessReportsHit, Numbers.ToPlainString: Java strings and `StringBuilder`s hold at most `Integer.MAX_VALUE` characters, and this limit is not modelled. An accepted x whose scale is close to `Integer.MAX_VALUE`, such as `1E-2147483647`, has a `toPlainString` text longer than that. In the source, `appendRecord` then fails while the success body is written, and the catch block's `writeErrorResponse` fails again on the same history. The process ends without a response. The model answers 200 for such a request and records it.
- Validator.Validate, Validator.ValidationOf, Validator.CheckRanges, Validator.ValidIff, Validator.ParsedValidIff, Handler.HandleRequest, Handler.OnlyAcceptedRequestsRecorded: these use the corrected y check, so y = "NaN" is rejected with the y range message, where the source accepts it (see Findings). The check as written is `Validator.YOutOfRangeAsWritten`.
- Numbers.ParseBigDecimal, Numbers.ParseDecimalText, Numbers.ParseUnsignedDecimal, Numbers.ParseExponent, FormParams.ParseInt, FormParams.HexDigit: digits are the ASCII `0`-`9` (and `a`-`f`, `A`-`F` in hexadecimal). The other Unicode digits that `Character.digit` accepts in `new BigDecimal`, `Integer.parseInt` and `URLDecoder.decode` are not modelled. Texts longer than `Integer.MAX_VALUE` characters are not considered.
- Numbers.DoubleDecimal: `Double.parseDouble` is modelled on the exact decimal the text denotes. `BigDecimal.valueOf` is modelled on that decimal, not on the nearest double and its shortest `Double.toString` digits. IEEE rounding, overflow to infinity, underflow and hexadecimal floating literals are left out.
- Geometry.CheckHit: computed over exact reals, not doubles, and `xDecimal.doubleValue()` rounding is left out. The `EPS` comparisons of the allowed-r check are also exact.
- `URLDecoder.decode`: escaped byte runs are decoded as UTF-8 with one U+FFFD per byte that starts no well-formed sequence. The JDK's replacement granularity for malformed input may differ.
- `equalsIgnoreCase` is compared on ASCII letters only.
- `Set.of` iteration order for `ALLOWED_R` is not modelled. It cannot change whether a match is found.
- In the script, the DOM, `fetch` and `localStorage` are left out. The cached list, the server history and the current record are parameters. A cache that parses to something other than an array is not modelled, and neither are history entries that are truthy non-objects.
- The `handleResponse` branches that write the result box and the error box are not modelled, including the `" • "` join of server errors. `formatTimestamp` depends on `Date` and the local time zone, so the time cell of a history row is not modelled. Theme, ripple and animation code is not modelled: row reuse by key, the `history-row` class and row delays.
- ClientHistory.UpdatePlotPoints: the SVG coordinates (`x * 120 / r`, float arithmetic) and the `data-*` attributes are not modelled. A point holds the record's numbers, its radius, and its hit and latest flags.
- ClientForm.JsToNumber: `Number` is modelled on exact values, without rounding to doubles. A JSON number in a record is held as its `toString` text.

## Findings

| source | as written | input that shows it | evidently intended | confidence | as-written member | corrected member |
|---|---|---|---|---|---|---|
| src/main/java/ru/pozitp/Main.java:204-207 | `y < Y_MIN \|\| y > Y_MAX` is false for NaN, so y = "NaN" (which `Double.parseDouble` accepts) passes validation. The request is accepted and the record goes into the history. `formatNumber(NaN)` then throws in `BigDecimal.valueOf` while the success body is written. The `writeErrorResponse` in the catch block (`:73`) lists the same history, so it throws too. That exception escapes `handleRequest` and the accept loop (`:39-43`). The process ends without writing a response, and the history held in memory is lost. | x=0, y=NaN, r=2 | any y that is not a number in [−5, 5] gets "Parameter y must be between -5.0 and 5.0." | not executed | `Validator.NaNPassesYCheckAsWritten` | `Validator.NaNRejected` |

The model's validator uses the corrected check. `Validator.YOutOfRangeAsWritten` is the check as written and `Validator.YOutOfRange` the corrected one. `Validator.YChecksDifferOnlyOnNaN` proves they differ on NaN and nowhere else.
