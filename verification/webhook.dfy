/** The classification slice of the `/webhook` handler (main.py:107-130): the
    alert body's fields are resolved through their synonyms, the timeframe is
    normalised and checked against the allow-list, and the prices, indicators
    and bar time are extracted. The body is a dictionary of strings, as
    `parse_kv` produces. */
module Webhook {
  import opened Py
  import opened Coerce

  /** `ALLOWED_TF`: the timeframes whose alerts are analysed. */
  const AllowedTf: set<string> := {"5", "15", "30", "60", "240", "1D"}

  /** `tf_map`: TradingView's minute and day codes renamed to canonical names. */
  const TfTable: map<string, string> := map["60" := "1H", "240" := "4H", "D" := "1D"]

  /** The allow-list written in canonical names, as `tf_map` produces them. */
  const CanonicalTf: set<string> := {"5", "15", "30", "1H", "4H", "1D"}

  /** The synonym keys of each field, in the order the handler tries them. */
  const SymbolKeys: seq<string> := ["SYMB", "symbol", "ticker"]
  const TfKeys: seq<string> := ["TF", "interval"]
  const OpenKeys: seq<string> := ["O", "OPEN"]
  const HighKeys: seq<string> := ["H", "HIGH"]
  const LowKeys: seq<string> := ["L", "LOW"]
  const CloseKeys: seq<string> := ["C", "CLOSE"]
  const VolumeKeys: seq<string> := ["V", "VOLUME"]
  const RsiKeys: seq<string> := ["RSI"]
  const MaKeys: seq<string> := ["MA", "sma"]
  const MacdKeys: seq<string> := ["MACD"]
  const BarTimeKeys: seq<string> := ["BAR_TIME", "time"]

  /** The bar time: the body's own text, or the server clock when it has none. */
  datatype BarTime = Stamp(text: string) | Now(unix: int)

  /** The normalised alert handed on to the analysis step. */
  datatype Alert = Alert(
    symbol: string, tf: string,
    open: Option<Float>, high: Option<Float>, low: Option<Float>, close: Option<Float>,
    volume: Option<Float>, rsi: Option<Float>, ma: Option<Float>, macd: Option<Float>,
    barTime: BarTime)

  /** What the handler does with a body: answers `ignored` with the
      normalised timeframe, or goes on with the extracted alert. */
  datatype Outcome = Ignored(tf: string) | Accepted(alert: Alert)

  /** `body.get(k1) or body.get(k2) or ... or body.get(kn)`. */
  function FirstOf(body: map<string, string>, keys: seq<string>): (r: Option<string>)
    requires |keys| >= 1
    ensures Truthy(r) <==> exists i :: 0 <= i < |keys| && Truthy(Get(body, keys[i]))
  {
    if |keys| == 1 then Get(body, keys[0])
    else Or(Get(body, keys[0]), FirstOf(body, keys[1..]))
  }

  /** The first key with a non-empty value, when there is one. */
  predicate FirstTruthy(body: map<string, string>, keys: seq<string>, i: int) {
    && 0 <= i < |keys| && Truthy(Get(body, keys[i]))
    && forall j :: 0 <= j < i ==> !Truthy(Get(body, keys[j]))
  }

  /** The chain yields the value of the first key whose value is non-empty. */
  lemma {:induction false} FirstOfFirst(body: map<string, string>, keys: seq<string>, i: int)
    requires FirstTruthy(body, keys, i)
    ensures FirstOf(body, keys) == Some(body[keys[i]])
  {
    if i > 0 {
      assert !Truthy(Get(body, keys[0]));
      assert FirstTruthy(body, keys[1..], i - 1) by {
        forall j | 0 <= j < i - 1 ensures !Truthy(Get(body, keys[1..][j])) {
          assert keys[1..][j] == keys[j + 1];
        }
      }
      FirstOfFirst(body, keys[1..], i - 1);
    }
  }

  /** When no key has a non-empty value, the chain yields the last lookup:
      `None` when the last key is absent, `""` when it is empty. */
  lemma {:induction false} FirstOfNone(body: map<string, string>, keys: seq<string>)
    requires |keys| >= 1
    requires forall i :: 0 <= i < |keys| ==> !Truthy(Get(body, keys[i]))
    ensures FirstOf(body, keys) == Get(body, keys[|keys| - 1])
    ensures !Truthy(FirstOf(body, keys))
  {
    if |keys| > 1 {
      assert !Truthy(Get(body, keys[0]));
      assert forall i :: 0 <= i < |keys[1..]| ==> keys[1..][i] == keys[i + 1];
      FirstOfNone(body, keys[1..]);
    }
  }

  /** `x or default` for a non-empty string default. */
  function OrElse(x: Option<string>, default: string): (r: string)
    requires default != ""
    ensures r != ""
    ensures Truthy(x) ==> r == x.value
    ensures !Truthy(x) ==> r == default
  {
    if Truthy(x) then x.value else default
  }

  /** The symbol: the first non-empty of `SYMB`, `symbol`, `ticker`, else `"UNKNOWN"`. */
  function ResolveSymbol(body: map<string, string>): (r: string)
    ensures r != ""
  {
    OrElse(FirstOf(body, SymbolKeys), "UNKNOWN")
  }

  /** The raw timeframe: `TF`, else `interval`, else `"UNKNOWN"`. */
  function ResolveTf(body: map<string, string>): (r: string)
    ensures r != ""
  {
    OrElse(FirstOf(body, TfKeys), "UNKNOWN")
  }

  /** A resolved field is the value of its first non-empty synonym, or the
      fallback when every synonym is absent or empty. */
  lemma OrElseFirstOf(body: map<string, string>, keys: seq<string>, default: string)
    requires |keys| >= 1 && default != ""
    ensures forall i :: FirstTruthy(body, keys, i) ==> OrElse(FirstOf(body, keys), default) == body[keys[i]]
    ensures (forall i :: 0 <= i < |keys| ==> !Truthy(Get(body, keys[i]))) ==>
      OrElse(FirstOf(body, keys), default) == default
  {
    forall i | FirstTruthy(body, keys, i) ensures OrElse(FirstOf(body, keys), default) == body[keys[i]] {
      FirstOfFirst(body, keys, i);
    }
  }

  /** `tf_map.get(tf, tf)`: the result is always canonical, the three codes are
      renamed, and every other timeframe is kept as it is. */
  function TfStd(tf: string): (r: string)
    ensures r !in TfTable
    ensures tf !in TfTable ==> r == tf
  {
    if tf in TfTable then TfTable[tf] else tf
  }

  lemma TfStdValues(tf: string)
    ensures TfStd("60") == "1H" && TfStd("240") == "4H" && TfStd("D") == "1D"
    ensures tf != "60" && tf != "240" && tf != "D" ==> TfStd(tf) == tf
  {
  }

  /** Normalising twice is normalising once. */
  lemma TfStdIdempotent(tf: string)
    ensures TfStd(TfStd(tf)) == TfStd(tf)
  {
  }

  /** The handler's decision for a given allow-list: an empty allow-list lets
      every timeframe through, otherwise the normalised timeframe must be in it. */
  function ClassifyWith(allowed: set<string>, body: map<string, string>, now: int): (r: Outcome)
    ensures r.Ignored? <==> |allowed| > 0 && TfStd(ResolveTf(body)) !in allowed
    ensures r.Ignored? ==> r.tf == TfStd(ResolveTf(body))
    ensures r.Accepted? ==> r.alert == Alert(
      ResolveSymbol(body), TfStd(ResolveTf(body)),
      Field(body, OpenKeys), Field(body, HighKeys), Field(body, LowKeys),
      Field(body, CloseKeys), Field(body, VolumeKeys), Field(body, RsiKeys),
      Field(body, MaKeys), Field(body, MacdKeys),
      ResolveBarTime(body, now))
  {
    var tfStd := TfStd(ResolveTf(body));
    if |allowed| > 0 && tfStd !in allowed then
      Ignored(tfStd)
    else
      Accepted(Alert(
        ResolveSymbol(body), tfStd,
        Field(body, OpenKeys), Field(body, HighKeys), Field(body, LowKeys),
        Field(body, CloseKeys), Field(body, VolumeKeys), Field(body, RsiKeys),
        Field(body, MaKeys), Field(body, MacdKeys),
        ResolveBarTime(body, now)))
  }

  /** `coerce_float(body.get(k1) or body.get(k2))`, with no default: a field
      whose synonyms are all absent or empty is absent. */
  function Field(body: map<string, string>, keys: seq<string>): (r: Option<Float>)
    requires |keys| >= 1
    ensures (forall i :: 0 <= i < |keys| ==> !Truthy(Get(body, keys[i]))) ==> r == None
  {
    CoerceFloat(FirstOf(body, keys), None)
  }

  /** `body.get("BAR_TIME") or body.get("time") or now_unix()`. */
  function ResolveBarTime(body: map<string, string>, now: int): (r: BarTime)
    ensures r.Stamp? ==> r.text != ""
  {
    var t := FirstOf(body, BarTimeKeys);
    if Truthy(t) then Stamp(t.value) else Now(now)
  }

  /** The handler as written, with `ALLOWED_TF`. */
  function Classify(body: map<string, string>, now: int): (r: Outcome)
    ensures r.Ignored? <==> TfStd(ResolveTf(body)) !in AllowedTf
  {
    ClassifyWith(AllowedTf, body, now)
  }

  /** The handler with the allow-list written in the names `tf_map` produces. */
  function ClassifyCorrected(body: map<string, string>, now: int): (r: Outcome)
    ensures r.Ignored? <==> TfStd(ResolveTf(body)) !in CanonicalTf
  {
    ClassifyWith(CanonicalTf, body, now)
  }

  // The timeframe gate.

  /** Only a raw timeframe of `5`, `15`, `30`, `1D` or `D` gets through. */
  lemma ClassifyAcceptsIff(body: map<string, string>, now: int)
    ensures Classify(body, now).Accepted? <==> ResolveTf(body) in {"5", "15", "30", "1D", "D"}
  {
    AllowedAfterNormalising(ResolveTf(body));
  }

  /** The raw timeframes that normalise into `ALLOWED_TF`. */
  lemma AllowedAfterNormalising(tf: string)
    ensures TfStd(tf) in AllowedTf <==> tf in {"5", "15", "30", "1D", "D"}
  {
    if tf in TfTable {
      assert tf == "60" || tf == "240" || tf == "D";
    }
  }

  /** Hourly and four-hour alerts, and alerts without a timeframe, are always
      ignored, reporting the normalised timeframe. */
  lemma ClassifyIgnoresHourly(body: map<string, string>, now: int)
    ensures ResolveTf(body) == "60" ==> Classify(body, now) == Ignored("1H")
    ensures ResolveTf(body) == "240" ==> Classify(body, now) == Ignored("4H")
    ensures (forall i :: 0 <= i < |TfKeys| ==> !Truthy(Get(body, TfKeys[i]))) ==>
      Classify(body, now) == Ignored("UNKNOWN")
  {
    ClassifyIgnored(body, now);
    TfStdValues("UNKNOWN");
    assert "1H" !in AllowedTf && "4H" !in AllowedTf && "UNKNOWN" !in AllowedTf;
    OrElseFirstOf(body, TfKeys, "UNKNOWN");
  }

  /** An ignored alert reports its normalised timeframe and nothing else. */
  lemma ClassifyIgnored(body: map<string, string>, now: int)
    ensures TfStd(ResolveTf(body)) !in AllowedTf ==> Classify(body, now) == Ignored(TfStd(ResolveTf(body)))
  {
    var r := Classify(body, now);
    assert r.Ignored? ==> r == Ignored(r.tf);
  }

  /** The entries `60` and `240` of `ALLOWED_TF` can never match: no timeframe
      normalises to them. */
  lemma AllowedTfDeadEntries(tf: string)
    ensures TfStd(tf) != "60" && TfStd(tf) != "240"
  {
  }

  /** The gate looks at the timeframe and nothing else: two bodies with the
      same timeframe get the same decision, whatever their other fields
      (a missing symbol or price never causes rejection) and whatever the clock. */
  lemma ClassifyGateOnlyTf(b1: map<string, string>, b2: map<string, string>, now1: int, now2: int)
    requires ResolveTf(b1) == ResolveTf(b2)
    ensures Classify(b1, now1).Accepted? == Classify(b2, now2).Accepted?
    ensures ClassifyCorrected(b1, now1).Accepted? == ClassifyCorrected(b2, now2).Accepted?
  {
  }

  /** The corrected allow-list is exactly `ALLOWED_TF` normalised. */
  lemma CanonicalTfIsNormalised()
    ensures CanonicalTf == set tf | tf in AllowedTf :: TfStd(tf)
  {
    var image := set tf | tf in AllowedTf :: TfStd(tf);
    assert TfStd("60") in image && TfStd("240") in image;
    assert TfStd("5") in image && TfStd("15") in image && TfStd("30") in image;
    assert TfStd("1D") in image;
  }

  /** With the corrected list, every timeframe `ALLOWED_TF` names is accepted,
      and so are the canonical names and `D`; nothing else is. */
  lemma ClassifyCorrectedAcceptsIff(body: map<string, string>, now: int)
    ensures ClassifyCorrected(body, now).Accepted? <==>
      ResolveTf(body) in AllowedTf || ResolveTf(body) in {"1H", "4H", "D"}
  {
    var tf := ResolveTf(body);
    if tf in TfTable {
      assert tf == "60" || tf == "240" || tf == "D";
    }
  }

  // The extracted fields.

  /** A numeric field comes from its first non-empty synonym: the value is the
      number that synonym's text denotes, or absent when it is not a number.
      A later synonym is never consulted, even when the first holds junk. */
  lemma FieldFirst(body: map<string, string>, keys: seq<string>, i: int)
    requires FirstTruthy(body, keys, i)
    ensures Field(body, keys) == CoerceFloat(Some(body[keys[i]]), None)
  {
    FirstOfFirst(body, keys, i);
  }

  /** A present numeric field was parsed from one of its synonyms' text,
      commas removed. */
  lemma FieldSource(body: map<string, string>, keys: seq<string>)
    requires |keys| >= 1
    ensures Field(body, keys).Some? ==>
      exists i :: 0 <= i < |keys| && keys[i] in body &&
        Field(body, keys) == ParseFloat(Remove(body[keys[i]], ','))
  {
    if Field(body, keys).Some? {
      var i := FirstTruthyIndex(body, keys);
      FirstOfFirst(body, keys, i);
    }
  }

  /** The index of the first non-empty synonym, when the chain is non-empty. */
  lemma {:induction false} FirstTruthyIndex(body: map<string, string>, keys: seq<string>) returns (i: int)
    requires |keys| >= 1 && Truthy(FirstOf(body, keys))
    ensures FirstTruthy(body, keys, i)
  {
    if Truthy(Get(body, keys[0])) {
      i := 0;
    } else {
      var k := FirstTruthyIndex(body, keys[1..]);
      i := k + 1;
      forall j | 0 <= j < i ensures !Truthy(Get(body, keys[j])) {
        if j > 0 { assert keys[j] == keys[1..][j - 1]; }
      }
      assert keys[i] == keys[1..][k];
    }
  }

  /** A `C` holding a character no number has, such as an unfilled
      `{{close}}` placeholder, hides a good `CLOSE`: the close is absent. */
  lemma CloseShadowedByPlaceholder(body: map<string, string>, i: nat)
    requires "C" in body && i < |body["C"]| && Foreign(body["C"][i])
    ensures Field(body, CloseKeys) == None
  {
    assert FirstTruthy(body, CloseKeys, 0);
    FieldFirst(body, CloseKeys, 0);
    CoerceForeign(body["C"], i, None);
  }

  /** A close sent as `NaN`, as a chart does for a bar with no value, is
      extracted as a float NaN rather than dropped. */
  lemma CloseNaNKept(body: map<string, string>)
    requires "C" in body && body["C"] == "NaN"
    ensures Field(body, CloseKeys) == Some(NaN)
  {
    assert FirstTruthy(body, CloseKeys, 0);
    FieldFirst(body, CloseKeys, 0);
    CoerceNaN();
  }

  /** The bar time is the body's first non-empty `BAR_TIME` or `time`, and
      the clock only when both are absent or empty. */
  lemma BarTimeResolution(body: map<string, string>, now: int)
    ensures forall i :: FirstTruthy(body, BarTimeKeys, i) ==>
      ResolveBarTime(body, now) == Stamp(body[BarTimeKeys[i]])
    ensures ResolveBarTime(body, now) == Now(now) <==>
      forall i :: 0 <= i < |BarTimeKeys| ==> !Truthy(Get(body, BarTimeKeys[i]))
  {
    forall i | FirstTruthy(body, BarTimeKeys, i) ensures ResolveBarTime(body, now) == Stamp(body[BarTimeKeys[i]]) {
      FirstOfFirst(body, BarTimeKeys, i);
    }
  }

  /** The symbol is the first non-empty of its synonyms, and `"UNKNOWN"` only
      stands in when all of them are absent or empty. */
  lemma SymbolResolution(body: map<string, string>)
    ensures forall i :: FirstTruthy(body, SymbolKeys, i) ==> ResolveSymbol(body) == body[SymbolKeys[i]]
    ensures (forall i :: 0 <= i < |SymbolKeys| ==> !Truthy(Get(body, SymbolKeys[i]))) ==>
      ResolveSymbol(body) == "UNKNOWN"
  {
    OrElseFirstOf(body, SymbolKeys, "UNKNOWN");
  }

  /** The raw timeframe is `TF` when non-empty, else `interval`, else `"UNKNOWN"`. */
  lemma TfResolution(body: map<string, string>)
    ensures forall i :: FirstTruthy(body, TfKeys, i) ==> ResolveTf(body) == body[TfKeys[i]]
    ensures (forall i :: 0 <= i < |TfKeys| ==> !Truthy(Get(body, TfKeys[i]))) ==>
      ResolveTf(body) == "UNKNOWN"
  {
    OrElseFirstOf(body, TfKeys, "UNKNOWN");
  }
}
