/** `parse_kv` (main.py:30-37): the fallback parser for alert bodies that are
    not JSON, such as `SYMB=XAUUSD,TF=5,C=2650.5` or the same pairs on
    separate lines. */
module KvParser {
  import opened Py

  /** The character class of the splitting pattern `[,\n]+`. */
  const Separators: set<char> := {',', '\n'}

  /** The tokens `parse_kv` loops over: `re.split(r"[,\n]+", raw.strip())`.
      None of them holds a comma or a newline. */
  function Tokens(raw: string): (toks: seq<string>)
    ensures |toks| >= 1
    ensures forall i :: 0 <= i < |toks| ==> NoSep(toks[i], Separators)
  {
    SplitRunsPiecesNoSep(Strip(raw, Whitespace), Separators);
    SplitRuns(Strip(raw, Whitespace), Separators)
  }

  /** What one token contributes to the result: its stripped text before the
      first `=` and its stripped text after it; nothing when it holds no `=`. */
  function Entry(tok: string): (e: Option<(string, string)>)
    ensures e.Some? <==> '=' in tok
    ensures e.Some? ==> IsStripped(e.value.0, Whitespace) && IsStripped(e.value.1, Whitespace)
    ensures e.Some? ==> '=' !in e.value.0
  {
    if '=' in tok then
      var kv := SplitOnce(tok, '=');
      Some((Strip(kv.0, Whitespace), Strip(kv.1, Whitespace)))
    else
      None
  }

  /** The dictionary built by assigning the entries in order; an absent entry
      assigns nothing and a later entry overwrites an earlier one. */
  function Assign(es: seq<Option<(string, string)>>): (r: map<string, string>)
    ensures forall k :: k in r ==> exists i :: 0 <= i < |es| && es[i] == Some((k, r[k]))
  {
    if es == [] then map[]
    else
      var init := es[..|es| - 1];
      assert forall i :: 0 <= i < |init| ==> init[i] == es[i];
      var m := Assign(init);
      match es[|es| - 1]
      case None => m
      case Some(kv) => m[kv.0 := kv.1]
  }

  /** The entry of each token, in order. */
  function Entries(toks: seq<string>): (es: seq<Option<(string, string)>>)
    ensures |es| == |toks|
    ensures forall i :: 0 <= i < |toks| ==> es[i] == Entry(toks[i])
  {
    seq(|toks|, i requires 0 <= i < |toks| => Entry(toks[i]))
  }

  /** The value `parse_kv(raw)` returns: each binding comes from a token
      that holds an `=`, and is clean (see CleanEntry). */
  function ParsedKv(raw: string): (r: map<string, string>)
    ensures forall k :: k in r ==>
      exists i :: 0 <= i < |Tokens(raw)| && Entry(Tokens(raw)[i]) == Some((k, r[k]))
    ensures forall k :: k in r ==> CleanEntry((k, r[k]))
  {
    var es := Entries(Tokens(raw));
    EntriesClean(Tokens(raw));
    AssignClean(es);
    Assign(es)
  }

  /** An entry as `parse_kv` stores it: stripped key without `=`, stripped
      value without comma or newline. */
  predicate CleanEntry(kv: (string, string)) {
    && IsStripped(kv.0, Whitespace) && '=' !in kv.0
    && IsStripped(kv.1, Whitespace) && ',' !in kv.1 && '\n' !in kv.1
  }

  /** `parse_kv`: walks the tokens and assigns `out[k.strip()] = v.strip()` for
      each one that holds an `=`. Every key and value comes out stripped, no
      key holds an `=`, and no value holds a comma or a newline. */
  method ParseKv(raw: string) returns (out: map<string, string>)
    ensures out == ParsedKv(raw)
    ensures forall k :: k in out ==> CleanEntry((k, out[k]))
  {
    var toks := Tokens(raw);
    ghost var es := Entries(toks);
    out := map[];
    for i := 0 to |toks|
      invariant out == Assign(es[..i])
    {
      AssignPrefix(es, i);
      var it := toks[i];
      if '=' in it {
        var kv := SplitOnce(it, '=');
        out := out[Strip(kv.0, Whitespace) := Strip(kv.1, Whitespace)];
      }
    }
    assert es[..|toks|] == es;
  }

  /** One more entry is assigned over the earlier ones. */
  lemma AssignPrefix(es: seq<Option<(string, string)>>, i: nat)
    requires i < |es|
    ensures Assign(es[..i + 1]) == match es[i]
      case None => Assign(es[..i])
      case Some(kv) => Assign(es[..i])[kv.0 := kv.1]
  {
    assert es[..i + 1][..i] == es[..i];
  }

  /** The entry of a token without separators is clean. */
  lemma EntryClean(tok: string)
    requires NoSep(tok, Separators) && '=' in tok
    ensures CleanEntry(Entry(tok).value)
  {
    var kv := SplitOnce(tok, '=');
    StripChars(kv.1, Whitespace);
  }

  /** The entries of tokens without separators are clean. */
  lemma EntriesClean(toks: seq<string>)
    requires forall i :: 0 <= i < |toks| ==> NoSep(toks[i], Separators)
    ensures forall i :: 0 <= i < |toks| && Entries(toks)[i].Some? ==> CleanEntry(Entries(toks)[i].value)
  {
    forall i | 0 <= i < |toks| && Entries(toks)[i].Some? ensures CleanEntry(Entries(toks)[i].value) {
      EntryClean(toks[i]);
    }
  }

  /** Assigning clean entries gives a dictionary of clean entries. */
  lemma {:induction false} AssignClean(es: seq<Option<(string, string)>>)
    requires forall i :: 0 <= i < |es| && es[i].Some? ==> CleanEntry(es[i].value)
    ensures forall k :: k in Assign(es) ==> CleanEntry((k, Assign(es)[k]))
  {
    if es != [] {
      var init := es[..|es| - 1];
      assert forall i :: 0 <= i < |init| ==> init[i] == es[i];
      AssignClean(init);
    }
  }

  /** The value of a `key=value` token is everything after its first `=`
      (stripped), and may itself hold further `=` characters. */
  lemma EntryOfPair(k: string, v: string)
    requires '=' !in k
    ensures Entry(k + "=" + v) == Some((Strip(k, Whitespace), Strip(v, Whitespace)))
  {
    SplitOnceOfJoin(k, '=', v);
    assert k + "=" + v == k + ['='] + v;
  }

  /** When several entries assign the same key, the last of them wins. */
  lemma {:induction false} AssignLastWins(es: seq<Option<(string, string)>>, i: nat)
    requires i < |es| && es[i].Some?
    requires forall j :: i < j < |es| && es[j].Some? ==> es[j].value.0 != es[i].value.0
    ensures es[i].value.0 in Assign(es)
    ensures Assign(es)[es[i].value.0] == es[i].value.1
  {
    var init := es[..|es| - 1];
    if i < |init| {
      assert init[i] == es[i];
      forall j | i < j < |init| && init[j].Some? ensures init[j].value.0 != init[i].value.0 {
        assert init[j] == es[j];
      }
      AssignLastWins(init, i);
    }
  }

  /** A key is in the result exactly when some token assigns it. */
  lemma ParsedKvKeys(raw: string, k: string)
    ensures k in ParsedKv(raw) <==>
      exists i :: 0 <= i < |Tokens(raw)| && Entry(Tokens(raw)[i]).Some? && Entry(Tokens(raw)[i]).value.0 == k
  {
    var toks := Tokens(raw);
    var es := Entries(toks);
    if exists i :: 0 <= i < |toks| && Entry(toks[i]).Some? && Entry(toks[i]).value.0 == k {
      var i :| 0 <= i < |toks| && Entry(toks[i]).Some? && Entry(toks[i]).value.0 == k;
      var j := LastAssignment(es, i);
      AssignLastWins(es, j);
    }
  }

  /** The last entry that assigns the same key as entry `i`. */
  lemma {:induction false} LastAssignment(es: seq<Option<(string, string)>>, i: nat) returns (j: nat)
    requires i < |es| && es[i].Some?
    ensures i <= j < |es| && es[j].Some? && es[j].value.0 == es[i].value.0
    ensures forall l :: j < l < |es| && es[l].Some? ==> es[l].value.0 != es[i].value.0
    decreases |es| - i
  {
    if exists l :: i < l < |es| && es[l].Some? && es[l].value.0 == es[i].value.0 {
      var l :| i < l < |es| && es[l].Some? && es[l].value.0 == es[i].value.0;
      j := LastAssignment(es, l);
    } else {
      j := i;
    }
  }

  /** When a key is assigned by several tokens, the value from the last of
      them is the one returned; the other keys keep their own last values. */
  lemma ParsedKvLastWins(raw: string, i: nat)
    requires i < |Tokens(raw)| && '=' in Tokens(raw)[i]
    requires forall j :: i < j < |Tokens(raw)| && '=' in Tokens(raw)[j] ==>
      Entry(Tokens(raw)[j]).value.0 != Entry(Tokens(raw)[i]).value.0
    ensures Entry(Tokens(raw)[i]).value.0 in ParsedKv(raw)
    ensures ParsedKv(raw)[Entry(Tokens(raw)[i]).value.0] == Entry(Tokens(raw)[i]).value.1
  {
    AssignLastWins(Entries(Tokens(raw)), i);
  }

  /** A token without `=` contributes nothing: the result is empty exactly when
      no token holds an `=`. */
  lemma ParsedKvEmpty(raw: string)
    ensures ParsedKv(raw) == map[] <==> forall i :: 0 <= i < |Tokens(raw)| ==> '=' !in Tokens(raw)[i]
  {
    var toks := Tokens(raw);
    if ParsedKv(raw) == map[] {
      forall i | 0 <= i < |toks| ensures '=' !in toks[i] {
        if '=' in toks[i] {
          ParsedKvKeys(raw, Entry(toks[i]).value.0);
        }
      }
    } else {
      var k :| k in ParsedKv(raw);
      ParsedKvKeys(raw, k);
    }
  }

  /** Empty or whitespace-only input yields an empty dictionary. */
  lemma ParsedKvBlank(raw: string)
    requires forall i :: 0 <= i < |raw| ==> IsSpace(raw[i])
    ensures ParsedKv(raw) == map[]
  {
    StripEmpty(raw, Whitespace);
    assert Tokens(raw) == [""];
    var es := Entries(Tokens(raw));
    assert es[0] == None;
    assert es[..0] == [];
    assert Assign(es[..0]) == map[];
    assert Assign(es) == map[];
  }

  // A renderer for key=value bodies, used to state what parse_kv recovers.

  /** A pair that survives a render/parse round trip: stripped key and value,
      no `=` in the key, and no comma or newline in either. */
  predicate Renderable(p: (string, string)) {
    && IsStripped(p.0, Whitespace) && IsStripped(p.1, Whitespace) && '=' !in p.0
    && NoSep(p.0, Separators) && NoSep(p.1, Separators)
  }

  /** One `key=value` token. */
  function PairToken(p: (string, string)): string {
    p.0 + "=" + p.1
  }

  /** The pairs written as `k1=v1,k2=v2,...`. */
  function Render(ps: seq<(string, string)>): string {
    if |ps| == 0 then ""
    else if |ps| == 1 then PairToken(ps[0])
    else Render(ps[..|ps| - 1]) + "," + PairToken(ps[|ps| - 1])
  }

  /** The dictionary the pairs denote when later pairs override earlier ones. */
  function PairsToMap(ps: seq<(string, string)>): map<string, string> {
    if ps == [] then map[]
    else PairsToMap(ps[..|ps| - 1])[ps[|ps| - 1].0 := ps[|ps| - 1].1]
  }

  /** The tokens of the rendered pairs. */
  function PairTokens(ps: seq<(string, string)>): seq<string> {
    if ps == [] then []
    else PairTokens(ps[..|ps| - 1]) + [PairToken(ps[|ps| - 1])]
  }

  /** Parsing a rendered body gives back the pairs, the last of a repeated key winning. */
  lemma RenderRoundTrip(ps: seq<(string, string)>)
    requires forall i :: 0 <= i < |ps| ==> Renderable(ps[i])
    ensures ParsedKv(Render(ps)) == PairsToMap(ps)
  {
    var body := Render(ps);
    if ps == [] {
      assert Strip(body, Whitespace) == [];
      assert Tokens(body) == [""];
    } else {
      RenderShape(ps);
      assert IsStripped(body, Whitespace);
      assert Tokens(body) == SplitRuns(body, Separators);
      RenderTokens(ps);
      AssignPairTokens(ps);
    }
  }

  /** A rendered non-empty body starts and ends with a character that is
      neither whitespace nor a separator. */
  lemma {:induction false} RenderShape(ps: seq<(string, string)>)
    requires |ps| >= 1
    requires forall i :: 0 <= i < |ps| ==> Renderable(ps[i])
    ensures Render(ps) != []
    ensures Render(ps)[0] !in Separators && !IsSpace(Render(ps)[0])
    ensures Render(ps)[|Render(ps)| - 1] !in Separators
    ensures !IsSpace(Render(ps)[|Render(ps)| - 1])
  {
    var p := ps[0];
    assert Renderable(p);
    var last := ps[|ps| - 1];
    assert Renderable(last);
    var t := PairToken(last);
    assert t[|t| - 1] == (if last.1 == [] then '=' else last.1[|last.1| - 1]);
    if |ps| > 1 {
      var init := ps[..|ps| - 1];
      assert init[0] == p;
      RenderShape(init);
      assert Render(ps)[0] == Render(init)[0];
    } else {
      assert PairToken(p)[0] == (if p.0 == [] then '=' else p.0[0]);
    }
  }

  /** The rendered body splits into exactly one token per pair. */
  lemma {:induction false} RenderTokens(ps: seq<(string, string)>)
    requires |ps| >= 1
    requires forall i :: 0 <= i < |ps| ==> Renderable(ps[i])
    ensures SplitRuns(Render(ps), Separators) == PairTokens(ps)
  {
    var init, last := ps[..|ps| - 1], ps[|ps| - 1];
    assert Renderable(last);
    var t := PairToken(last);
    assert NoSep(t, Separators) by {
      forall i | 0 <= i < |t| ensures t[i] !in Separators {
        if i < |last.0| { assert t[i] == last.0[i]; }
        else if i > |last.0| { assert t[i] == last.1[i - |last.0| - 1]; }
      }
    }
    SplitRunsNoSep(t, Separators);
    if |ps| == 1 {
      assert init == [];
    } else {
      RenderTokens(init);
      RenderShape(init);
      assert t[0] == (if last.0 == [] then '=' else last.0[0]);
      SplitRunsAppend(Render(init), ",", t, Separators);
    }
  }

  /** Token `i` of the rendered pairs is the token of pair `i`. */
  lemma {:induction false} PairTokensIndex(ps: seq<(string, string)>)
    ensures |PairTokens(ps)| == |ps|
    ensures forall i :: 0 <= i < |ps| ==> PairTokens(ps)[i] == PairToken(ps[i])
  {
    if ps != [] {
      PairTokensIndex(ps[..|ps| - 1]);
    }
  }

  /** Assigning every pair in order gives the dictionary the pairs denote. */
  lemma {:induction false} AssignAll(es: seq<Option<(string, string)>>, ps: seq<(string, string)>)
    requires |es| == |ps|
    requires forall i :: 0 <= i < |ps| ==> es[i] == Some(ps[i])
    ensures Assign(es) == PairsToMap(ps)
  {
    if ps != [] {
      AssignAll(es[..|es| - 1], ps[..|ps| - 1]);
    }
  }

  /** Assigning the pair tokens' entries gives the denoted dictionary. */
  lemma AssignPairTokens(ps: seq<(string, string)>)
    requires forall i :: 0 <= i < |ps| ==> Renderable(ps[i])
    ensures Assign(Entries(PairTokens(ps))) == PairsToMap(ps)
  {
    PairTokensIndex(ps);
    var es := Entries(PairTokens(ps));
    forall i | 0 <= i < |ps| ensures es[i] == Some(ps[i]) {
      assert Renderable(ps[i]);
      EntryOfPair(ps[i].0, ps[i].1);
    }
    AssignAll(es, ps);
  }
}
