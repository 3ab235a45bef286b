/** `coerce_float` (main.py:53-58): turns a loosely formatted alert field into a
    number, or into the caller's default when the field is absent, a
    placeholder, or not a number. Numbers are exact rationals (`real`). */
module Coerce {
  import opened Py

  predicate IsDigit(c: char) {
    '0' <= c <= '9'
  }

  predicate AllDigits(s: string) {
    forall i :: 0 <= i < |s| ==> IsDigit(s[i])
  }

  function DigitValue(c: char): nat
    requires IsDigit(c)
  {
    c as int - '0' as int
  }

  /** The number a string of decimal digits denotes (0 for the empty string). */
  function DigitsValue(s: string): nat
    requires AllDigits(s)
  {
    if s == [] then 0 else 10 * DigitsValue(s[..|s| - 1]) + DigitValue(s[|s| - 1])
  }

  function Pow10(n: nat): (r: nat)
    ensures r >= 1
  {
    if n == 0 then 1 else 10 * Pow10(n - 1)
  }

  /** Some character of `s` is a digit. */
  predicate HasDigit(s: string) {
    exists i :: 0 <= i < |s| && IsDigit(s[i])
  }

  /** Every character of `s` is a digit or a decimal point. */
  predicate DecimalChars(s: string) {
    forall i :: 0 <= i < |s| ==> IsDigit(s[i]) || s[i] == '.'
  }

  /** An unsigned decimal: digits, optionally followed by a point and more
      digits, with at least one digit in all (`12`, `12.`, `.5`, `12.50`). */
  function ParseUnsigned(s: string): (r: Option<real>)
    ensures r.Some? ==> r.value >= 0.0 && HasDigit(s) && DecimalChars(s)
  {
    if '.' in s then
      var parts := SplitOnce(s, '.');
      if AllDigits(parts.0) && AllDigits(parts.1) && |parts.0| + |parts.1| > 0 then
        DecimalJoin(parts.0, parts.1);
        Some(DigitsValue(parts.0) as real + DigitsValue(parts.1) as real / Pow10(|parts.1|) as real)
      else
        None
    else if s != [] && AllDigits(s) then
      assert IsDigit(s[0]);
      Some(DigitsValue(s) as real)
    else
      None
  }

  lemma DecimalJoin(a: string, b: string)
    requires AllDigits(a) && AllDigits(b) && |a| + |b| > 0
    ensures HasDigit(a + ['.'] + b) && DecimalChars(a + ['.'] + b)
  {
    var s := a + ['.'] + b;
    if a != [] { assert IsDigit(s[0]); } else { assert IsDigit(s[1]); }
    forall i | 0 <= i < |s| ensures IsDigit(s[i]) || s[i] == '.' {
      if i < |a| { assert s[i] == a[i]; }
      else if i > |a| { assert s[i] == b[i - |a| - 1]; }
    }
  }

  /** A sign followed by an unsigned decimal. */
  predicate SignedDecimal(t: string) {
    t != [] && (t[0] == '+' || t[0] == '-' || IsDigit(t[0]) || t[0] == '.')
    && HasDigit(t) && DecimalChars(t[1..])
  }

  lemma SignedHasDigit(t: string, signed: bool)
    requires t != [] && signed == (t[0] == '+' || t[0] == '-')
    requires HasDigit(if signed then t[1..] else t)
    requires DecimalChars(if signed then t[1..] else t)
    ensures SignedDecimal(t)
  {
    if signed {
      var m := t[1..];
      var j :| 0 <= j < |m| && IsDigit(m[j]);
      assert t[j + 1] == m[j];
    } else {
      assert forall i :: 0 <= i < |t[1..]| ==> t[1..][i] == t[i + 1];
    }
  }

  /** A Python float: a finite number, an infinity, or not-a-number. */
  datatype Float = Finite(value: real) | Inf(negative: bool) | NaN

  predicate IsLetter(c: char) {
    'a' <= c <= 'z' || 'A' <= c <= 'Z'
  }

  /** ASCII lower case, as `float()` compares the words `inf`, `infinity` and `nan`. */
  function LowerChar(c: char): (r: char)
    ensures IsLetter(r) <==> IsLetter(c)
  {
    if 'A' <= c <= 'Z' then (c as int + 32) as char else c
  }

  /** `m` is the word `w` in any mix of cases (`w` in lower case). */
  predicate SpellsWord(m: string, w: string) {
    |m| == |w| && forall i :: 0 <= i < |w| ==> LowerChar(m[i]) == w[i]
  }

  /** `nan` in any mix of cases. */
  predicate IsNanWord(m: string) {
    m != [] && LowerChar(m[0]) == 'n' && SpellsWord(m, "nan")
  }

  /** `inf` or `infinity` in any mix of cases. */
  predicate IsInfWord(m: string) {
    m != [] && LowerChar(m[0]) == 'i' && (SpellsWord(m, "inf") || SpellsWord(m, "infinity"))
  }

  /** A sign or a letter followed by letters only: the shape of `-inf` or `NaN`. */
  predicate SignedWord(t: string) {
    t != [] && (t[0] == '+' || t[0] == '-' || IsLetter(t[0]))
    && forall i :: 1 <= i < |t| ==> IsLetter(t[i])
  }

  /** The words `float()` accepts are made of letters. */
  lemma WordLetters(m: string)
    requires IsNanWord(m) || IsInfWord(m)
    ensures m != [] && forall i :: 0 <= i < |m| ==> IsLetter(m[i])
  {
    forall i | 0 <= i < |m| ensures IsLetter(m[i]) {
      if IsNanWord(m) {
        assert LowerChar(m[i]) == "nan"[i];
      } else if SpellsWord(m, "inf") {
        assert LowerChar(m[i]) == "inf"[i];
      } else {
        assert LowerChar(m[i]) == "infinity"[i];
      }
    }
  }

  /** A string that starts with something other than a letter is not one of
      the words. */
  lemma NotAWord(m: string)
    requires m != [] && !IsLetter(m[0])
    ensures !IsNanWord(m) && !IsInfWord(m)
  {
  }

  /** The characters `float()` ignores around a number: every `str.isspace()`
      character except the four ASCII information separators U+001C-U+001F.
      CPython maps non-ASCII whitespace to a blank and then skips only the C
      whitespace characters, so those four are kept, and they are not part of
      any number. */
  const FloatSpace: set<char> := Whitespace - {'\U{001C}', '\U{001D}', '\U{001E}', '\U{001F}'}

  /** Python's `float(s)` on the strings an alert carries: surrounding
      `FloatSpace` is ignored, then an optional sign and either an unsigned
      decimal or one of the words `nan`, `inf`, `infinity` in any case.
      A finite result comes from digits, at most a leading sign and a point;
      any other result comes from a sign and letters. */
  function ParseFloat(s: string): (r: Option<Float>)
    ensures r.Some? && r.value.Finite? ==> SignedDecimal(Strip(s, FloatSpace))
    ensures r.Some? && !r.value.Finite? ==> SignedWord(Strip(s, FloatSpace))
  {
    ParseSignedText(Strip(s, FloatSpace))
  }

  /** `float()` once the whitespace is stripped: an optional sign, then the magnitude. */
  function ParseSignedText(t: string): (r: Option<Float>)
    ensures r.Some? && r.value.Finite? ==> SignedDecimal(t)
    ensures r.Some? && !r.value.Finite? ==> SignedWord(t)
  {
    if t == [] then None
    else
      var signed := t[0] == '+' || t[0] == '-';
      var r := ParseMagnitude(t[0] == '-', if signed then t[1..] else t);
      if r.Some? && r.value.Finite? then
        SignedHasDigit(t, signed);
        r
      else if r.Some? then
        SignedWordOf(t, signed);
        r
      else
        r
  }

  /** The magnitude after the sign: a word, or an unsigned decimal. */
  function ParseMagnitude(negative: bool, m: string): (r: Option<Float>)
    ensures r.Some? && r.value.Finite? ==> HasDigit(m) && DecimalChars(m)
    ensures r.Some? && !r.value.Finite? ==> IsNanWord(m) || IsInfWord(m)
  {
    if IsNanWord(m) then Some(NaN)
    else if IsInfWord(m) then Some(Inf(negative))
    else
      match ParseUnsigned(m)
      case None => None
      case Some(v) => Some(Finite(if negative then -v else v))
  }

  lemma SignedWordOf(t: string, signed: bool)
    requires t != [] && signed == (t[0] == '+' || t[0] == '-')
    requires IsNanWord(if signed then t[1..] else t) || IsInfWord(if signed then t[1..] else t)
    ensures SignedWord(t)
  {
    var m := if signed then t[1..] else t;
    WordLetters(m);
    if signed {
      assert forall i :: 1 <= i < |t| ==> t[i] == m[i - 1];
    }
  }

  /** `coerce_float(x, default)`: `None`, `""` and `"null"` give the default;
      anything else has its commas removed and is parsed, and a value that
      does not parse gives the default instead of raising. */
  function CoerceFloat(x: Option<string>, default: Option<Float>): (r: Option<Float>)
    ensures x == None || x == Some("") || x == Some("null") ==> r == default
    ensures x.Some? && x.value != "" && x.value != "null" && ParseFloat(Remove(x.value, ',')).Some? ==>
      r == ParseFloat(Remove(x.value, ','))
    ensures x.Some? && ParseFloat(Remove(x.value, ',')).None? ==> r == default
  {
    if x == None || x.value == "" || x.value == "null" then default
    else
      match ParseFloat(Remove(x.value, ','))
      case Some(v) => Some(v)
      case None => default
  }

  /** Neither sentinel string parses as a number. */
  lemma SentinelsDoNotParse()
    ensures ParseFloat("") == None && ParseFloat("null") == None
    ensures Remove("null", ',') == "null"
  {
    RemoveAbsent("null", ',');
    assert Strip("", FloatSpace) == "";
    NullDoesNotParse();
  }

  lemma NullDoesNotParse()
    ensures ParseFloat("null") == None
  {
    var w := "null";
    assert ParseMagnitude(false, w) == None by {
      NotNullWord();
      assert !IsDigit(w[0]);
    }
    ParseSignedSplit("", w);
    assert "" + w == w;
  }

  lemma NotNullWord()
    ensures !IsNanWord("null") && !IsInfWord("null")
  {
    assert LowerChar("null"[0]) == 'n';
  }

  /** Removing thousands separators first changes nothing: `"1,234.50"` and
      `"1234.50"` coerce to the same number, for every input and default. */
  lemma CoerceIgnoresCommas(s: string, default: Option<Float>)
    ensures CoerceFloat(Some(s), default) == CoerceFloat(Some(Remove(s, ',')), default)
  {
    var t := Remove(s, ',');
    RemoveIdempotent(s, ',');
    SentinelsDoNotParse();
    if s == "" {
      assert t == "";
    } else if s == "null" {
      RemoveAbsent("null", ',');
    } else if t == "" || t == "null" {
      assert ParseFloat(t) == None;
    } else {
      assert Remove(t, ',') == t;
    }
  }

  /** An ASCII character that can occur in neither a number nor one of the
      words, not even as a digit separator `_`, and that neither comma removal
      nor `float()`'s stripping takes away; the information separators
      U+001C-U+001F are among them. */
  predicate Foreign(c: char) {
    && c as int < 128 && !IsDigit(c) && !IsLetter(c)
    && c != '+' && c != '-' && c != '.' && c != ',' && c != '_' && c !in FloatSpace
  }

  /** A field holding a character that no number and no `nan`/`inf` word has,
      such as a placeholder the alert template left unfilled, coerces to the
      default. */
  lemma CoerceForeign(s: string, i: nat, default: Option<Float>)
    requires i < |s| && Foreign(s[i])
    ensures CoerceFloat(Some(s), default) == default
  {
    RemoveKeeps(s, s[i], ',');
    var t := Remove(s, ',');
    var j :| 0 <= j < |t| && t[j] == s[i];
    ParseFloatForeign(t, j);
  }

  /** `float()` rejects any text holding a foreign character, wherever it
      stands: stripping does not take it away. */
  lemma ParseFloatForeign(t: string, j: nat)
    requires j < |t| && Foreign(t[j])
    ensures ParseFloat(t) == None
  {
    StripKeeps(t, t[j], FloatSpace);
    ForeignBlocksParse(Strip(t, FloatSpace), t[j]);
  }

  /** A field led by the unit separator U+001F or one of the other three
      information separators is not a number, although `str.isspace()` holds
      for that character: `float()` does not strip it. */
  lemma CoerceInformationSeparator(a: string, c: char)
    requires '\U{001C}' <= c <= '\U{001F}'
    ensures CoerceFloat(Some([c] + a), None) == None
  {
    CoerceForeign([c] + a, 0, None);
  }

  /** Neither a number nor a word holds a foreign character. */
  lemma ForeignBlocksParse(t: string, c: char)
    requires Foreign(c) && c in t
    ensures !SignedDecimal(t) && !SignedWord(t)
  {
    var k :| 0 <= k < |t| && t[k] == c;
    if k > 0 {
      assert t[1..][k - 1] == c;
    }
  }

  /** Removing a character keeps every other one. */
  lemma RemoveKeeps(s: string, c: char, x: char)
    requires c in s && c != x
    ensures c in Remove(s, x)
  {
    RemoveCounts(s, x);
    assert c in multiset(s);
  }

  /** Stripping keeps every character that is not stripped. */
  lemma StripKeeps(t: string, c: char, ws: set<char>)
    requires c in t && c !in ws
    ensures c in Strip(t, ws)
  {
    var k :| 0 <= k < |t| && t[k] == c;
    var l := LStrip(t, ws);
    var d := |t| - |l|;
    assert k >= d;
    assert l[k - d] == c;
    var r := RStrip(l, ws);
    assert k - d < |r|;
    assert r[k - d] == c;
  }

  /** Removing commas and stripping never introduce a digit. */
  lemma DigitsSurvive(s: string)
    ensures HasDigit(Strip(Remove(s, ','), FloatSpace)) ==> HasDigit(s)
  {
    var t := Remove(s, ',');
    StripDigits(t, FloatSpace);
    if HasDigit(t) {
      RemoveCounts(s, ',');
      var j :| 0 <= j < |t| && IsDigit(t[j]);
      assert t[j] in multiset(t);
      var k :| 0 <= k < |s| && s[k] == t[j];
    }
  }

  lemma StripDigits(t: string, ws: set<char>)
    ensures HasDigit(Strip(t, ws)) ==> HasDigit(t)
  {
    if HasDigit(Strip(t, ws)) {
      StripChars(t, ws);
      var j :| 0 <= j < |Strip(t, ws)| && IsDigit(Strip(t, ws)[j]);
      var k :| 0 <= k < |t| && t[k] == Strip(t, ws)[j];
    }
  }

  /** A field without digits never coerces to a finite number: it gives the
      default, or an infinity or not-a-number when it spells one. */
  lemma CoerceNoDigits(s: string, default: Option<Float>)
    requires !HasDigit(s)
    ensures CoerceFloat(Some(s), default) == default || !CoerceFloat(Some(s), default).value.Finite?
  {
    DigitsSurvive(s);
  }

  /** An indicator placeholder that the alert template left unfilled coerces
      to the default. */
  lemma CoercePlaceholder()
    ensures CoerceFloat(Some("{{rsi}}"), None) == None
  {
    CoerceForeign("{{rsi}}", 0, None);
  }

  /** `"NaN"`, which TradingView writes for a missing plot value, coerces to
      not-a-number rather than to the default. */
  lemma CoerceNaN()
    ensures CoerceFloat(Some("NaN"), None) == Some(NaN)
  {
    var s := "NaN";
    RemoveAbsent(s, ',');
    assert IsNanWord(s) by {
      assert LowerChar(s[0]) == 'n' && LowerChar(s[1]) == 'a' && LowerChar(s[2]) == 'n';
    }
    ParseFloatWord("", s);
    assert "" + s == s;
    SentinelsDoNotParse();
  }

  /** An optional sign and one of the words parse to not-a-number or to an
      infinity of that sign. */
  lemma ParseFloatWord(sign: string, m: string)
    requires sign == "" || sign == "+" || sign == "-"
    requires IsNanWord(m) || IsInfWord(m)
    ensures ParseFloat(sign + m) == if IsNanWord(m) then Some(NaN) else Some(Inf(sign == "-"))
  {
    WordLetters(m);
    ParseSignedSplit(sign, m);
  }

  /** The value of whole digits `a` and fractional digits `b`. */
  function PointValue(a: string, b: string): real
    requires AllDigits(a) && AllDigits(b)
  {
    DigitsValue(a) as real + DigitsValue(b) as real / Pow10(|b|) as real
  }

  /** `v` under the sign `sign`. */
  function Signed(sign: string, v: real): real {
    if sign == "-" then -v else v
  }

  /** An optional sign followed by an unsigned decimal that starts and ends
      with a digit or a point parses to that decimal with that sign. */
  lemma ParseFloatNumber(sign: string, m: string)
    requires sign == "" || sign == "+" || sign == "-"
    requires m != [] && (IsDigit(m[0]) || m[0] == '.') && (IsDigit(m[|m| - 1]) || m[|m| - 1] == '.')
    requires ParseUnsigned(m).Some?
    ensures ParseFloat(sign + m) == Some(Finite(Signed(sign, ParseUnsigned(m).value)))
  {
    NumberCharNotSpace(m[0]);
    NumberCharNotSpace(m[|m| - 1]);
    ParseSignedSplit(sign, m);
    MagnitudeNumber(sign == "-", m);
  }

  /** Digits and the point are not whitespace. */
  lemma NumberCharNotSpace(c: char)
    requires IsDigit(c) || c == '.'
    ensures !IsSpace(c) && !IsLetter(c)
  {
  }

  lemma MagnitudeNumber(negative: bool, m: string)
    requires m != [] && !IsLetter(m[0]) && ParseUnsigned(m).Some?
    ensures ParseMagnitude(negative, m)
      == Some(Finite(if negative then -ParseUnsigned(m).value else ParseUnsigned(m).value))
  {
    NotAWord(m);
  }

  /** A stripped optional sign and magnitude parse as that magnitude under
      that sign. */
  lemma ParseSignedSplit(sign: string, m: string)
    requires sign == "" || sign == "+" || sign == "-"
    requires m != [] && m[0] != '+' && m[0] != '-'
    requires !IsSpace(m[0]) && !IsSpace(m[|m| - 1])
    ensures ParseFloat(sign + m) == ParseMagnitude(sign == "-", m)
  {
    var t := sign + m;
    assert IsStripped(t, FloatSpace) by {
      assert t[|t| - 1] == m[|m| - 1];
      assert t[0] == if sign == "" then m[0] else sign[0];
    }
    assert ParseFloat(t) == ParseSignedText(t);
    if sign == "" {
      assert t == m;
    } else {
      assert t[1..] == m;
    }
  }

  /** Every `[+-]digits.digits` with at least one digit parses, whole and
      fractional parts either of which may be empty (`-0.35`, `.5`, `12.`). */
  lemma ParseFloatSignedPoint(sign: string, a: string, b: string)
    requires sign == "" || sign == "+" || sign == "-"
    requires AllDigits(a) && AllDigits(b) && |a| + |b| > 0
    ensures ParseFloat(sign + a + ['.'] + b) == Some(Finite(Signed(sign, PointValue(a, b))))
  {
    var m := a + ['.'] + b;
    assert sign + a + ['.'] + b == sign + m;
    assert ParseFloat(sign + m) == Some(Finite(Signed(sign, PointValue(a, b)))) by {
      assert m[0] == if a == [] then '.' else a[0];
      assert m[|m| - 1] == if b == [] then '.' else b[|b| - 1];
      ParseUnsignedPoint(a, b);
      ParseFloatNumber(sign, m);
    }
  }

  /** Every `[+-]digits` with at least one digit parses to that integer. */
  lemma ParseFloatSignedDigits(sign: string, a: string)
    requires sign == "" || sign == "+" || sign == "-"
    requires a != [] && AllDigits(a)
    ensures ParseFloat(sign + a) == Some(Finite(Signed(sign, DigitsValue(a) as real)))
  {
    NoCommaInDigits(a);
    assert IsDigit(a[0]) && IsDigit(a[|a| - 1]);
    ParseFloatNumber(sign, a);
  }

  lemma ParseUnsignedPoint(a: string, b: string)
    requires AllDigits(a) && AllDigits(b) && |a| + |b| > 0
    ensures ParseUnsigned(a + ['.'] + b) == Some(PointValue(a, b))
  {
    SplitAtPoint(a, b);
    ParsePointValue(a, b);
  }

  lemma ParsePointValue(a: string, b: string)
    requires AllDigits(a) && AllDigits(b) && |a| + |b| > 0
    requires SplitOnce(a + ['.'] + b, '.') == (a, b)
    ensures ParseUnsigned(a + ['.'] + b) == Some(PointValue(a, b))
  {
  }

  lemma SplitAtPoint(a: string, b: string)
    requires AllDigits(a)
    ensures '.' in a + ['.'] + b
    ensures SplitOnce(a + ['.'] + b, '.') == (a, b)
  {
    NoCommaInDigits(a);
    SplitOnceOfJoin(a, '.', b);
  }

  /** A field whose commas leave an optional sign, digits, a point and more
      digits coerces to the decimal they denote, whatever the default. */
  lemma CoerceDecimal(s: string, sign: string, a: string, b: string, default: Option<Float>)
    requires sign == "" || sign == "+" || sign == "-"
    requires AllDigits(a) && AllDigits(b) && |a| + |b| > 0
    requires Remove(s, ',') == sign + a + ['.'] + b
    ensures CoerceFloat(Some(s), default) == Some(Finite(Signed(sign, PointValue(a, b))))
  {
    var t := Remove(s, ',');
    ParseFloatSignedPoint(sign, a, b);
    assert ParseFloat(t).Some?;
    assert s != "" && s != "null" by {
      SentinelsDoNotParse();
      assert Remove("", ',') == "";
    }
  }

  // Decimal renderings of integers, used to state what CoerceFloat recovers.

  function DigitChar(d: nat): (c: char)
    requires d < 10
    ensures IsDigit(c) && DigitValue(c) == d
  {
    ('0' as int + d) as char
  }

  /** The decimal digits of `n`, most significant first, without leading zeros. */
  function ShowNat(n: nat): (s: string)
    ensures s != [] && AllDigits(s) && DigitsValue(s) == n
  {
    if n < 10 then [DigitChar(n)]
    else
      var s := ShowNat(n / 10) + [DigitChar(n % 10)];
      assert s[..|s| - 1] == ShowNat(n / 10);
      s
  }

  /** `str(i)` for an integer. */
  function ShowInt(i: int): string {
    if i < 0 then "-" + ShowNat(-i) else ShowNat(i)
  }

  /** Exactly three digits, with leading zeros: the group after a thousands separator. */
  function Pad3(m: nat): (s: string)
    requires m < 1000
    ensures |s| == 3 && AllDigits(s) && DigitsValue(s) == m
  {
    var a, b, c := DigitChar(m / 100), DigitChar(m / 10 % 10), DigitChar(m % 10);
    var s := [a, b, c];
    assert s[..2] == [a, b] && [a, b][..1] == [a] && [a][..0] == [];
    assert DigitsValue([a]) == m / 100;
    assert DigitsValue([a, b]) == 10 * (m / 100) + m / 10 % 10;
    assert DigitsValue(s) == 10 * (10 * (m / 100) + m / 10 % 10) + m % 10;
    s
  }

  /** `n` written with a comma between each group of three digits (`1,234,567`). */
  function GroupThousands(n: nat): (s: string)
    ensures s != [] && IsDigit(s[0])
    ensures Remove(s, ',') != [] && AllDigits(Remove(s, ','))
    ensures DigitsValue(Remove(s, ',')) == n
  {
    if n < 1000 then
      var s := ShowNat(n);
      RemoveAbsent(s, ',');
      s
    else
      var head := GroupThousands(n / 1000);
      var tail := Pad3(n % 1000);
      GroupValue(head, tail, n);
      head + "," + tail
  }

  lemma GroupValue(head: string, tail: string, n: nat)
    requires n >= 1000
    requires Remove(head, ',') != [] && AllDigits(Remove(head, ','))
    requires DigitsValue(Remove(head, ',')) == n / 1000
    requires |tail| == 3 && AllDigits(tail) && DigitsValue(tail) == n % 1000
    ensures Remove(head + "," + tail, ',') == Remove(head, ',') + tail
    ensures AllDigits(Remove(head + "," + tail, ','))
    ensures DigitsValue(Remove(head + "," + tail, ',')) == n
  {
    RemoveGroup(head, tail);
    DigitsValueAppend(Remove(head, ','), tail);
    assert Pow10(3) == 1000;
  }

  /** The comma before a group of digits disappears and the digits stay. */
  lemma RemoveGroup(head: string, tail: string)
    requires AllDigits(tail)
    ensures Remove(head + "," + tail, ',') == Remove(head, ',') + tail
  {
    RemoveAppend(head + ",", tail, ',');
    RemoveAppend(head, ",", ',');
    NoCommaInDigits(tail);
    RemoveAbsent(tail, ',');
  }

  lemma NoCommaInDigits(t: string)
    requires AllDigits(t)
    ensures ',' !in t && '.' !in t
  {
  }

  /** The value of a concatenation of digit strings. */
  lemma {:induction false} DigitsValueAppend(a: string, b: string)
    requires AllDigits(a) && AllDigits(b)
    ensures AllDigits(a + b)
    ensures DigitsValue(a + b) == DigitsValue(a) * Pow10(|b|) + DigitsValue(b)
  {
    if b == [] {
      assert a + b == a;
    } else {
      var b' := b[..|b| - 1];
      var d := DigitValue(b[|b| - 1]);
      DigitsValueAppend(a, b');
      assert (a + b)[..|a + b| - 1] == a + b';
      assert DigitsValue(a + b) == 10 * DigitsValue(a + b') + d;
      assert DigitsValue(b) == 10 * DigitsValue(b') + d;
      assert Pow10(|b|) == 10 * Pow10(|b'|);
      ShiftDigit(DigitsValue(a), Pow10(|b'|), DigitsValue(b'), d);
    }
  }

  /** Appending a digit to both sides of `x * y + v` scales the shift. */
  lemma ShiftDigit(x: int, y: int, v: int, d: int)
    ensures 10 * (x * y + v) + d == x * (10 * y) + (10 * v + d)
  {
    assert 10 * (x * y) == x * (10 * y);
  }

  /** `float(str(i)) == i`: an integer's decimal rendering parses back to it. */
  lemma ParseFloatShowInt(i: int)
    ensures ParseFloat(ShowInt(i)) == Some(Finite(i as real))
  {
    var sign := if i < 0 then "-" else "";
    var n: nat := if i < 0 then -i else i;
    assert ShowInt(i) == sign + ShowNat(n);
    ParseFloatSignedDigits(sign, ShowNat(n));
    assert Signed(sign, n as real) == i as real;
  }

  /** A number written with thousands separators coerces back to itself,
      whatever the default. */
  lemma CoerceGroupedThousands(n: nat, default: Option<Float>)
    ensures CoerceFloat(Some(GroupThousands(n)), default) == Some(Finite(n as real))
  {
    var s := GroupThousands(n);
    ParseFloatSignedDigits("", Remove(s, ','));
    assert "" + Remove(s, ',') == Remove(s, ',');
    assert s != "null" by {
      assert IsDigit(s[0]);
    }
  }
}
