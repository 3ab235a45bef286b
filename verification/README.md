# Alert-payload normalisation

This project models the part of the TradingView webhook service (`main.py`) that turns a raw alert into
a normalised alert, and it proves properties of that model. The modelled part has three pieces:

- `parse_kv` is the fallback parser for bodies such as `SYMB=XAUUSD,TF=5,C=2650.5`, with pairs separated
  by commas or newlines. It is modelled as an imperative method that loops over the tokens and
  reassigns the result dictionary. The method is proved against a specification function.
- `coerce_float` is the lenient numeric coercion applied to every price and indicator field.
- The classification slice of the `/webhook` handler resolves the symbol, timeframe, prices,
  indicators and bar time through their synonym keys (Python `or` chains). It then normalises the
  timeframe through `tf_map` and applies the `ALLOWED_TF` gate.

The files are:

- `py.dfy` (module `Py`) holds the Python built-ins the code relies on:
  - `None`;
  - truthiness of an optional string, and the `or` operator (which returns its last operand when
    all are falsy);
  - `str.strip` over the characters `str.isspace` accepts;
  - `str.split(c, 1)` and `str.replace(c, "")`;
  - `re.split` on runs of characters from a class.
- `kv_parser.dfy` (module `KvParser`) holds `parse_kv`, its specification `ParsedKv`, and a
  renderer used to state a round trip.
- `coerce.dfy` (module `Coerce`) holds `coerce_float`. Python's `float()` is modelled on decimal
  strings and on the words `nan`, `inf` and `infinity`. Its result is a `Float`: a finite value, an
  infinity of either sign, or NaN. Finite values are exact rationals (`real`) in place of binary
  floats. A chart that has no value for a field sends `NaN`, and the code keeps it as a float NaN
  rather than `None`.
- `webhook.dfy` (module `Webhook`) holds the synonym resolution, `tf_map`, the `ALLOWED_TF` gate and
  the field extraction. The handler's decision is an `Outcome`: either `Ignored(tf)` or
  `Accepted(alert)`.

The body handed to the handler is a dictionary of strings, which is what `parse_kv` produces. Python
truthiness of a looked-up value then means "present and non-empty". The clock `now_unix()` is a
parameter.

A body without a symbol or a close price is never rejected: a missing symbol becomes `"UNKNOWN"`
and a missing close becomes `None`, and the alert goes on. `Webhook.ClassifyGateOnlyTf` states
this.

## Model

| member | source | states |
|---|---|---|
| Py.Get | main.py:107-130 | `body.get(k)` is the stored value when the key is present and `None` otherwise |
| Py.Or | main.py:107-108 | `a or b` is truthy iff either operand is; it is `a` when `a` is truthy, else `b` (even a falsy `b`) |
| Py.Strip | main.py:36 | `s.strip(ws)` has no character of `ws` at either end, and a string already without them is unchanged; `str.strip()` is the case `ws = Whitespace` |
| Py.LStrip | main.py:36 | dropping the leading characters of `ws` leaves a suffix of the input that is empty or starts outside `ws`; every character dropped is in `ws` |
| Py.RStrip | main.py:36 | dropping the trailing characters of `ws` leaves a prefix of the input that is empty or ends outside `ws`; every character dropped is in `ws` |
| Py.StripChars | main.py:36 | stripping only drops characters: it is no longer and holds no new character |
| Py.StripEmpty | main.py:33 | stripping leaves nothing exactly when every character is in the stripped set |
| Py.StripIdempotent | main.py:36 | stripping twice is stripping once |
| Py.SplitOnce | main.py:35 | `split("=", 1)` returns the text before the first `=` and everything after it; concatenating them around the `=` gives the token back, and the left part holds no `=` |
| Py.SplitOnceOfJoin | main.py:35 | for any `k + "=" + v` with no `=` in `k`, splitting returns exactly `(k, v)`, and `v` may hold more `=` |
| Py.Remove | main.py:56 | `replace(",", "")` leaves no comma |
| Py.RemoveCounts | main.py:56 | every other character is kept as often as it occurred (multiset) |
| Py.RemoveAbsent | main.py:56 | removing a character that does not occur changes nothing |
| Py.RemoveIdempotent | main.py:56 | removing commas is idempotent |
| Py.RemoveAppend | main.py:56 | removal distributes over concatenation |
| Py.SplitRuns | main.py:33 | `re.split(r"[,\n]+", s)` always returns at least one piece |
| Py.SplitRunsPiecesNoSep | main.py:33 | no piece of `re.split(r"[,\n]+", s)` holds a comma or newline |
| Py.SplitRunsNoSep | main.py:33 | a string with no separator splits into itself alone |
| Py.SplitRunsAppend | main.py:33 | a run of separators of any length between pieces that do not touch another separator splits exactly there, into the pieces of each side |
| Py.SplitRunsAfterRun | main.py:33 | a trailing run of separators opens exactly one empty piece |
| Py.SplitRunsSnoc | main.py:33 | one more character extends the last piece, is swallowed by a separator run, or opens a new piece after the first separator of a run |
| KvParser.Tokens | main.py:33 | the tokens of the stripped body: at least one, none holding a comma or newline |
| KvParser.Entry | main.py:34-36 | a token contributes an entry iff it holds `=`; the key and value are stripped and the key holds no `=` |
| KvParser.Assign | main.py:34-36 | every key of the dictionary built from the entries is bound to the value of some entry naming it |
| KvParser.ParsedKv | main.py:30-37 | every binding of `parse_kv(raw)` comes from a token of the body holding `=`, with stripped key and value, no `=` in the key and no comma or newline in the value |
| KvParser.ParseKv | main.py:30-37 | the loop returns `ParsedKv(raw)`; every key is stripped and has no `=`, every value is stripped and has no comma or newline |
| KvParser.AssignPrefix | main.py:34-36 | one loop step assigns the next token's entry over the earlier ones and leaves the dictionary alone for a token without `=` |
| KvParser.EntryClean | main.py:33-36 | the entry of a token without separators is clean |
| KvParser.EntriesClean | main.py:33-36 | the entries of tokens without separators are all clean |
| KvParser.AssignClean | main.py:36 | assigning clean entries keeps every stored key and value clean |
| KvParser.EntryOfPair | main.py:35 | the value of a `key=value` token is everything after its first `=`, stripped, and may hold further `=` |
| KvParser.AssignLastWins | main.py:36 | when several entries assign one key, the last of them gives its value |
| KvParser.LastAssignment | main.py:36 | every entry has a last entry assigning the same key |
| KvParser.ParsedKvKeys | main.py:34-36 | a key is in the result iff some token with `=` names it |
| KvParser.ParsedKvLastWins | main.py:33-36 | the value from the last token naming a key is the one returned |
| KvParser.ParsedKvEmpty | main.py:34 | the result is empty iff no token holds `=` |
| KvParser.ParsedKvBlank | main.py:32-33 | empty or whitespace-only input gives an empty dictionary |
| KvParser.RenderShape | main.py:33 | a rendered body starts and ends with a character that is neither whitespace nor a separator |
| KvParser.RenderTokens | main.py:33 | a rendered body splits into exactly one token per pair |
| KvParser.PairTokensIndex | main.py:33 | token `i` of the rendered pairs is the token of pair `i` |
| KvParser.AssignAll | main.py:36 | assigning every pair in order gives the dictionary the pairs denote |
| KvParser.AssignPairTokens | main.py:34-36 | the entries of rendered pairs assign the dictionary the pairs denote |
| KvParser.RenderRoundTrip | main.py:30-37 | parsing a rendered body gives back its pairs, the last of a repeated key winning |
| Coerce.ParseUnsigned | main.py:56 | an accepted unsigned decimal is non-negative and made of digits and a point, with at least one digit |
| Coerce.ParseFloat | main.py:56 | `float()`: the text is stripped of `FloatSpace`, which is every `str.isspace()` character except U+001C-U+001F; a finite result comes from a stripped text that is an optional sign and a decimal with at least one digit (it may start or end with the point, as in `.5` or `12.`); a NaN or infinity comes from an optional sign and letters |
| Coerce.ParseSignedText | main.py:56 | the sign is split off the stripped text: a finite result means a signed decimal, a non-finite one a signed word |
| Coerce.ParseMagnitude | main.py:56 | the unsigned part is `nan` or `inf`/`infinity` in any letter case, or a decimal with at least one digit |
| Coerce.LowerChar | main.py:56 | ASCII lower-casing keeps letters letters and non-letters non-letters |
| Coerce.WordLetters | main.py:56 | the words `nan`, `inf` and `infinity` are made of letters only |
| Coerce.NotAWord | main.py:56 | a text not led by a letter is neither a NaN nor an infinity word |
| Coerce.SignedWordOf | main.py:56 | a sign followed by a NaN or infinity word is a signed word |
| Coerce.SignedHasDigit | main.py:56 | a sign followed by a decimal with a digit is a signed decimal |
| Coerce.DecimalJoin | main.py:56 | digits, a point and digits, with at least one digit, form a decimal |
| Coerce.ParseFloatWord | main.py:56 | an optional sign and `nan` in any case parse to NaN; with `inf` or `infinity` they parse to an infinity of that sign |
| Coerce.ParseFloatNumber | main.py:56 | an optional sign and a decimal magnitude parse to the magnitude's value under that sign |
| Coerce.MagnitudeNumber | main.py:56 | a magnitude not led by a letter and accepted as a decimal is that finite value, negated when signed `-` |
| Coerce.ParseSignedSplit | main.py:56 | a stripped sign-and-magnitude text parses as its magnitude under its sign |
| Coerce.ParseFloatSignedPoint | main.py:56 | `[+-]a.b` parses to the value of `a.b` under the sign, for `.5`, `12.` and `-0.35` alike (at least one digit on either side) |
| Coerce.ParseFloatSignedDigits | main.py:56 | `[+-]a` with digits `a` parses to the integer `a` denotes under the sign |
| Coerce.ParsePointValue | main.py:56 | digits split at their point have the value of the whole part plus the fraction |
| Coerce.SplitAtPoint | main.py:56 | a point after a run of digits is the first point |
| Coerce.CoerceFloat | main.py:53-58 | `None`, `""` and `"null"` give the default; any other text whose comma-free form parses gives that parse (number, NaN or infinity); text whose comma-free form does not parse gives the default |
| Coerce.SentinelsDoNotParse | main.py:55 | neither `""` nor `"null"` parses, and `"null"` has no comma to remove |
| Coerce.NullDoesNotParse | main.py:55 | `"null"` is not a number, a NaN or an infinity |
| Coerce.NotNullWord | main.py:55 | `"null"` spells neither `nan` nor `inf` |
| Coerce.CoerceIgnoresCommas | main.py:56 | a field and its comma-free text coerce to the same value for every default |
| Coerce.DigitsSurvive | main.py:56 | removing commas and stripping never introduce a digit |
| Coerce.StripDigits | main.py:56 | stripping never introduces a digit |
| Coerce.CoerceForeign | main.py:55-58 | a field holding an ASCII character that no number or word has coerces to the default instead of raising. Such characters include `{` and the information separators U+001C-U+001F, but not `_` |
| Coerce.ParseFloatForeign | main.py:56 | `float()` rejects a text holding such a character anywhere |
| Coerce.CoerceInformationSeparator | main.py:55-58 | a field led by one of U+001C-U+001F is not a number, although `str.isspace()` holds for that character |
| Coerce.NumberCharNotSpace | main.py:56 | digits and the point are neither whitespace nor letters |
| Coerce.ForeignBlocksParse | main.py:56 | a text holding such a character is neither a signed decimal nor a signed word |
| Coerce.RemoveKeeps | main.py:56 | removing commas keeps every other character that occurs |
| Coerce.StripKeeps | main.py:56 | stripping keeps every character that occurs and is not in the stripped set |
| Coerce.CoerceNoDigits | main.py:55-58 | a field without ASCII digits never coerces to a finite number: it gives the default, or NaN or an infinity when it spells one |
| Coerce.CoerceNaN | main.py:55-58 | the text `NaN` a chart sends for a missing value coerces to a float NaN, not to the default |
| Coerce.CoercePlaceholder | main.py:55-58 | the unfilled placeholder `{{rsi}}` coerces to the default |
| Coerce.CoerceDecimal | main.py:56 | a field whose comma-free text is an optional sign, digits, a point and digits coerces to the signed decimal it denotes |
| Coerce.ParseUnsignedPoint | main.py:56 | an unsigned decimal with a point has the value of its whole and fractional digits, whichever side is empty |
| Coerce.ParseFloatShowInt | main.py:56 | `float(str(i)) == i` for every integer |
| Coerce.GroupThousands | main.py:56 | a number written with a comma between each group of three digits starts with a digit and loses its commas to the digits of the number |
| Coerce.GroupValue | main.py:56 | appending a comma and a three-digit group multiplies the value by 1000 and adds the group |
| Coerce.RemoveGroup | main.py:56 | the comma before a digit group is removed and the digits stay |
| Coerce.DigitsValueAppend | main.py:56 | the value of concatenated digit strings is the first value shifted by the second's length plus the second value |
| Coerce.CoerceGroupedThousands | main.py:56 | a number written with thousands separators coerces back to itself, whatever the default |
| Webhook.FirstOf | main.py:107-108 | a synonym chain is truthy iff one of its lookups is |
| Webhook.FirstOfFirst | main.py:107-108 | the chain yields the value of the first key whose value is non-empty |
| Webhook.FirstOfNone | main.py:120-127 | when every lookup is falsy the chain yields the last lookup (`None` or `""`) |
| Webhook.FirstTruthyIndex | main.py:107-108 | a truthy chain has a first non-empty key |
| Webhook.OrElse | main.py:107 | `x or "UNKNOWN"` is never empty: `x` when truthy, else the fallback |
| Webhook.OrElseFirstOf | main.py:107-108 | a resolved field is its first non-empty synonym, or the fallback when all are absent or empty |
| Webhook.ResolveSymbol | main.py:107 | the symbol is never empty |
| Webhook.SymbolResolution | main.py:107 | the symbol is the first non-empty of `SYMB`, `symbol`, `ticker`, else `"UNKNOWN"` |
| Webhook.ResolveTf | main.py:108 | the raw timeframe is never empty |
| Webhook.TfResolution | main.py:108 | the raw timeframe is `TF` when non-empty, else `interval`, else `"UNKNOWN"` |
| Webhook.TfStd | main.py:111-112 | the normalised timeframe is never one of the table's codes, and a timeframe outside the table is kept |
| Webhook.TfStdValues | main.py:111-112 | `60` becomes `1H`, `240` becomes `4H`, `D` becomes `1D`, and every other timeframe maps to itself |
| Webhook.TfStdIdempotent | main.py:111-112 | normalising twice is normalising once |
| Webhook.ClassifyWith | main.py:107-130 | the alert is ignored iff the allow-list is non-empty and lacks the normalised timeframe, and the ignored answer carries that timeframe. The accepted alert holds the resolved symbol, the normalised timeframe, each of the eight numeric fields coerced from its own synonym keys (`O`/`OPEN`, `H`/`HIGH`, `L`/`LOW`, `C`/`CLOSE`, `V`/`VOLUME`, `RSI`, `MA`/`sma`, `MACD`), and the resolved bar time |
| Webhook.ResolveBarTime | main.py:130 | a bar time taken from the body is never empty |
| Webhook.BarTimeResolution | main.py:130 | the bar time is the first non-empty `BAR_TIME` or `time`, and the clock is used iff both are absent or empty |
| Webhook.Classify | main.py:115-117 | the handler ignores the alert iff the normalised timeframe is not in `ALLOWED_TF` |
| Webhook.ClassifyCorrected | main.py:111-117 | with the canonical allow-list, the alert is ignored iff the normalised timeframe is not canonical |
| Webhook.ClassifyAcceptsIff | main.py:111-117 | only a raw timeframe of `5`, `15`, `30`, `1D` or `D` is accepted |
| Webhook.AllowedAfterNormalising | main.py:14 | the raw timeframes that normalise into `ALLOWED_TF` are exactly `5`, `15`, `30`, `1D` and `D` |
| Webhook.ClassifyIgnoresHourly | main.py:111-117 | raw `60` is ignored as `1H`, raw `240` as `4H`, and a body without a timeframe as `UNKNOWN` |
| Webhook.AllowedTfDeadEntries | main.py:14 | no timeframe normalises to `60` or `240`, so those entries of `ALLOWED_TF` never match |
| Webhook.ClassifyGateOnlyTf | main.py:107-117 | bodies with the same raw timeframe get the same decision whatever their other fields and the clock; a missing symbol or price never rejects |
| Webhook.CanonicalTfIsNormalised | main.py:14 | the corrected allow-list is exactly `ALLOWED_TF` normalised |
| Webhook.ClassifyCorrectedAcceptsIff | main.py:111-117 | with the corrected list, a raw timeframe is accepted iff it is in `ALLOWED_TF` or is `1H`, `4H` or `D` |
| Webhook.Field | main.py:120-127 | a numeric field whose synonyms are all absent or empty is `None` |
| Webhook.FieldFirst | main.py:120-127 | a numeric field is coerced from its first non-empty synonym, and later synonyms are not consulted |
| Webhook.FieldSource | main.py:120-127 | a present numeric field is the parse of one of its synonyms' comma-free text |
| Webhook.CloseShadowedByPlaceholder | main.py:123 | a `C` holding an ASCII character that no number has (not `_`), such as the braces of `{{close}}`, hides a good `CLOSE`: the close is `None` |
| Webhook.CloseNaNKept | main.py:123 | a `C` of `NaN` gives a close that is a float NaN |
| Webhook.ClassifyIgnored | main.py:115-117 | an ignored alert is answered with its normalised timeframe and nothing else |

## Left out

- `get_payload`, the Flask app and its routes (main.py:39-51, 98-104) are not part of this model. They
  depend on Flask's request object and on `json.loads`. The model starts from the string dictionary
  that `parse_kv` returns.
- JSON bodies with non-string values are left out. For those, the `or` chains would skip `0` and
  `False` by truthiness, and `coerce_float` would call `str(x)` on numbers.
- `tg_send`, `ask_xai` and `ask_openai` (main.py:17-28, 64-88) are network I/O and are left out.
- `build_prompt` (main.py:90-95) depends on Python's `repr` of floats and `None`. The model stops at the
  extracted `Alert`.
- `now_unix()` (main.py:60-61) reads the clock, so it is the `now` parameter.
- The exception handler (main.py:149-153) and the logging `print` calls are left out. So is the JSON
  response: the `Outcome` value takes its place.
- Coerce.ParseFloat: accepts, after `FloatSpace` is stripped, an optional sign followed by digits with
  at most one point, or by `nan`, `inf` or `infinity` in any ASCII letter case. It does not model
  exponents, underscores between digits or non-ASCII digits, all of which Python's `float()` accepts.
- Coerce.ParseFloat: works on exact rationals, so it does not model rounding to the nearest binary
  double.
- Coerce.CoerceFloat: an input that `float()` would accept through one of those left-out forms
  gives the default here instead of a number.
- Coerce.CoerceNoDigits: a digit here is an ASCII digit. A field of non-ASCII decimal digits, such as
  `١٢`, gives the default in this model, although `float()` reads it as 12.0.
- Py.Strip: `str.strip()` uses the fixed set of characters for which `str.isspace()` holds. That set covers the
  ASCII and Unicode whitespace and separator characters.

## Findings

| source | as written | input that shows it | evidently intended | confidence | as-written member | corrected member |
|---|---|---|---|---|---|---|
| main.py:14 | `ALLOWED_TF` lists `"60"` and `"240"`, but the gate at main.py:115 checks the timeframe after `tf_map` has renamed those two to `"1H"` and `"4H"` | a body `TF=60` (or `TF=240`) is answered `ignored` with tf `1H` (or `4H`) | hourly and four-hour alerts are analysed: the allow-list is the canonical set `5, 15, 30, 1H, 4H, 1D`, which is `ALLOWED_TF` normalised | medium, not executed | Webhook.ClassifyIgnoresHourly | Webhook.ClassifyCorrectedAcceptsIff |
