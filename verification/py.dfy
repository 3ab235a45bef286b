/** The few Python built-ins the alert normaliser relies on: `None`, truthiness
    of an optional string, the `or` operator, `str.isspace`, `str.strip`,
    `str.split(sep, 1)`, `str.replace(c, "")` and `re.split` on a run of
    characters from a character class. */
module Py {

  /** A Python value that is either `None` or a `str`. */
  datatype Option<T> = None | Some(value: T)

  /** Python truthiness of `None` or a `str`: present and non-empty. */
  predicate Truthy(x: Option<string>) {
    x.Some? && x.value != ""
  }

  /** Python's `a or b`: the first operand when it is truthy, otherwise the
      second (which is returned even when it is falsy itself). */
  function Or(a: Option<string>, b: Option<string>): (r: Option<string>)
    ensures Truthy(r) <==> Truthy(a) || Truthy(b)
    ensures Truthy(a) ==> r == a
    ensures !Truthy(a) ==> r == b
  {
    if Truthy(a) then a else b
  }

  /** `dict.get(k)` on a string-valued dictionary. */
  function Get(m: map<string, string>, k: string): (r: Option<string>)
    ensures r.Some? <==> k in m
    ensures r.Some? ==> r.value == m[k]
  {
    if k in m then Some(m[k]) else None
  }

  /** The characters for which Python's `str.isspace()` holds. */
  const Whitespace: set<char> := {
    '\t', '\n', '\U{000B}', '\U{000C}', '\r', '\U{001C}', '\U{001D}', '\U{001E}',
    '\U{001F}', ' ', '\U{0085}', '\U{00A0}', '\U{1680}', '\U{2000}', '\U{2001}',
    '\U{2002}', '\U{2003}', '\U{2004}', '\U{2005}', '\U{2006}', '\U{2007}',
    '\U{2008}', '\U{2009}', '\U{200A}', '\U{2028}', '\U{2029}', '\U{202F}',
    '\U{205F}', '\U{3000}'
  }

  /** Python's `str.isspace()` on one character. */
  predicate IsSpace(c: char) {
    c in Whitespace
  }

  /** A string that starts and ends with a character outside `ws`. */
  predicate IsStripped(s: string, ws: set<char>) {
    s == [] || (s[0] !in ws && s[|s| - 1] !in ws)
  }

  /** `s.lstrip(ws)`: a suffix of `s` that drops exactly the leading characters in `ws`. */
  function LStrip(s: string, ws: set<char>): (r: string)
    ensures |r| <= |s| && r == s[|s| - |r|..]
    ensures r == [] || r[0] !in ws
    ensures forall i :: 0 <= i < |s| - |r| ==> s[i] in ws
  {
    if s != [] && s[0] in ws then LStrip(s[1..], ws) else s
  }

  /** `s.rstrip(ws)`: a prefix of `s` that drops exactly the trailing characters in `ws`. */
  function RStrip(s: string, ws: set<char>): (r: string)
    ensures |r| <= |s| && r == s[..|r|]
    ensures r == [] || r[|r| - 1] !in ws
    ensures forall i :: |r| <= i < |s| ==> s[i] in ws
  {
    if s != [] && s[|s| - 1] in ws then RStrip(s[..|s| - 1], ws) else s
  }

  /** `s.strip(ws)`: the piece of `s` left when the characters in `ws` are
      removed from both ends; `s.strip()` is `Strip(s, Whitespace)`. */
  function Strip(s: string, ws: set<char>): (r: string)
    ensures IsStripped(r, ws)
    ensures IsStripped(s, ws) ==> r == s
  {
    RStrip(LStrip(s, ws), ws)
  }

  /** Stripping only removes characters: whatever is left was in `s`. */
  lemma StripChars(s: string, ws: set<char>)
    ensures |Strip(s, ws)| <= |s|
    ensures forall c :: c in Strip(s, ws) ==> c in s
  {
    var l := LStrip(s, ws);
    assert forall c :: c in Strip(s, ws) ==> c in l;
  }

  /** Stripping leaves nothing exactly when every character of `s` is in `ws`. */
  lemma StripEmpty(s: string, ws: set<char>)
    ensures Strip(s, ws) == [] <==> forall i :: 0 <= i < |s| ==> s[i] in ws
  {
  }

  lemma StripIdempotent(s: string, ws: set<char>)
    ensures Strip(Strip(s, ws), ws) == Strip(s, ws)
  {
  }

  /** Index of the first occurrence of `c` in `s`. */
  function IndexOf(s: string, c: char): (i: nat)
    requires c in s
    ensures i < |s| && s[i] == c && c !in s[..i]
  {
    if s[0] == c then 0 else 1 + IndexOf(s[1..], c)
  }

  /** `s.split(c, 1)` when `c` occurs in `s`: the text before the first `c`
      and everything after it. */
  function SplitOnce(s: string, c: char): (r: (string, string))
    requires c in s
    ensures s == r.0 + [c] + r.1
    ensures c !in r.0
  {
    var i := IndexOf(s, c);
    (s[..i], s[i + 1..])
  }

  /** Splitting at the first `c` recovers the two parts of any `k + [c] + v`
      whose left part holds no `c`; the right part may hold more of them. */
  lemma SplitOnceOfJoin(k: string, c: char, v: string)
    requires c !in k
    ensures c in k + [c] + v
    ensures SplitOnce(k + [c] + v, c) == (k, v)
  {
    var s := k + [c] + v;
    assert s[|k|] == c;
    assert s[..|k|] == k;
    assert s[|k| + 1..] == v;
  }

  /** `s.replace(c, "")`: every `c` removed, every other character kept in order. */
  function Remove(s: string, c: char): (r: string)
    ensures c !in r
  {
    if s == [] then []
    else if s[0] == c then Remove(s[1..], c)
    else [s[0]] + Remove(s[1..], c)
  }

  /** Removal drops all copies of `c` and keeps every other character as often
      as it occurred. */
  lemma {:induction false} RemoveCounts(s: string, c: char)
    ensures multiset(Remove(s, c)) == multiset(s)[c := 0]
  {
    if s != [] {
      RemoveCounts(s[1..], c);
      assert s == [s[0]] + s[1..];
    }
  }

  /** Removing a character that does not occur changes nothing. */
  lemma {:induction false} RemoveAbsent(s: string, c: char)
    requires c !in s
    ensures Remove(s, c) == s
  {
    if s != [] {
      RemoveAbsent(s[1..], c);
    }
  }

  /** `str.replace(c, "")` is idempotent. */
  lemma RemoveIdempotent(s: string, c: char)
    ensures Remove(Remove(s, c), c) == Remove(s, c)
  {
    RemoveAbsent(Remove(s, c), c);
  }

  /** Removal distributes over concatenation. */
  lemma {:induction false} RemoveAppend(a: string, b: string, c: char)
    ensures Remove(a + b, c) == Remove(a, c) + Remove(b, c)
  {
    if a == [] {
      assert a + b == b;
    } else {
      assert (a + b)[1..] == a[1..] + b;
      RemoveAppend(a[1..], b, c);
    }
  }

  /** No character of `s` belongs to `seps`. */
  predicate NoSep(s: string, seps: set<char>) {
    forall i :: 0 <= i < |s| ==> s[i] !in seps
  }

  /** `re.split("[seps]+", s)`: the pieces of `s` between maximal runs of
      separator characters, scanned left to right. An empty string gives one
      empty piece; a leading or trailing run gives an empty first or last
      piece; a run of several separators closes only one piece. */
  function SplitRuns(s: string, seps: set<char>): (r: seq<string>)
    ensures |r| >= 1
  {
    if s == [] then [""]
    else
      var init := s[..|s| - 1];
      var x := s[|s| - 1];
      var pieces := SplitRuns(init, seps);
      if x in seps then
        if init != [] && init[|init| - 1] in seps then pieces else pieces + [""]
      else
        ExtendLast(pieces, x)
  }

  /** The pieces with `x` appended to the last one. */
  function ExtendLast(pieces: seq<string>, x: char): (r: seq<string>)
    requires |pieces| >= 1
  {
    pieces[..|pieces| - 1] + [pieces[|pieces| - 1] + [x]]
  }

  lemma ExtendLastAppend(p: seq<string>, q: seq<string>, x: char)
    requires |q| >= 1
    ensures ExtendLast(p + q, x) == p + ExtendLast(q, x)
  {
  }

  /** No piece ever holds a separator character. */
  lemma {:induction false} SplitRunsPiecesNoSep(s: string, seps: set<char>)
    ensures forall i :: 0 <= i < |SplitRuns(s, seps)| ==> NoSep(SplitRuns(s, seps)[i], seps)
  {
    if s != [] {
      var init, x := s[..|s| - 1], s[|s| - 1];
      SplitRunsPiecesNoSep(init, seps);
      var p := SplitRuns(init, seps);
      if x !in seps {
        var q := ExtendLast(p, x);
        assert forall i :: 0 <= i < |q| - 1 ==> q[i] == p[i];
        assert q[|q| - 1] == p[|p| - 1] + [x];
      }
    }
  }

  /** A string with no separator is a single piece. */
  lemma {:induction false} SplitRunsNoSep(s: string, seps: set<char>)
    requires NoSep(s, seps)
    ensures SplitRuns(s, seps) == [s]
  {
    if s != [] {
      var init, x := s[..|s| - 1], s[|s| - 1];
      SplitRunsNoSep(init, seps);
      assert [init][..0] == [];
      assert init + [x] == s;
    }
  }

  /** A run of separators between two pieces that do not touch another
      separator splits exactly there, however long the run: `a,,\n,b` gives
      the pieces of `a` followed by those of `b`. */
  lemma {:induction false} SplitRunsAppend(a: string, run: string, b: string, seps: set<char>)
    requires run != [] && forall i :: 0 <= i < |run| ==> run[i] in seps
    requires a == [] || a[|a| - 1] !in seps
    requires b == [] || b[0] !in seps
    ensures SplitRuns(a + run + b, seps) == SplitRuns(a, seps) + SplitRuns(b, seps)
  {
    if b == [] {
      SplitRunsAfterRun(a, run, seps);
      assert a + run + b == a + run;
    } else {
      var b', y := b[..|b| - 1], b[|b| - 1];
      assert b' == [] || b'[0] !in seps;
      SplitRunsAppend(a, run, b', seps);
      var l := a + run;
      assert l != [] && l[|l| - 1] in seps;
      SplitRunsAppendStep(l, b', y, SplitRuns(a, seps), seps);
      assert b' + [y] == b;
      assert l + b' + [y] == a + run + b;
    }
  }

  /** The base case of SplitRunsAppend: a trailing run of separators opens
      one new, empty piece. */
  lemma {:induction false} SplitRunsAfterRun(a: string, run: string, seps: set<char>)
    requires run != [] && forall i :: 0 <= i < |run| ==> run[i] in seps
    requires a == [] || a[|a| - 1] !in seps
    ensures SplitRuns(a + run, seps) == SplitRuns(a, seps) + [""]
  {
    var s := a + run;
    if |run| == 1 {
      assert s[..|a|] == a;
    } else {
      var run' := run[..|run| - 1];
      SplitRunsAfterRun(a, run', seps);
      assert s[..|s| - 1] == a + run';
      assert (a + run')[|a + run'| - 1] == run'[|run'| - 1];
    }
  }

  /** The step of SplitRunsAppend: one more character after a separator
      affects only the pieces that follow it. */
  lemma SplitRunsAppendStep(a: string, b: string, x: char, prefix: seq<string>, seps: set<char>)
    requires a != [] && a[|a| - 1] in seps
    requires b != [] || x !in seps
    requires SplitRuns(a + b, seps) == prefix + SplitRuns(b, seps)
    ensures SplitRuns(a + b + [x], seps) == prefix + SplitRuns(b + [x], seps)
  {
    SplitRunsSnoc(a + b, x, seps);
    SplitRunsSnoc(b, x, seps);
    if x !in seps {
      ExtendLastAppend(prefix, SplitRuns(b, seps), x);
    } else {
      assert (a + b)[|a + b| - 1] == b[|b| - 1];
    }
  }

  /** One more character either closes the last piece (a separator after a
      non-separator), is swallowed by a run, or extends the last piece. */
  lemma SplitRunsSnoc(s: string, x: char, seps: set<char>)
    ensures SplitRuns(s + [x], seps) ==
      if x !in seps then ExtendLast(SplitRuns(s, seps), x)
      else if s != [] && s[|s| - 1] in seps then SplitRuns(s, seps)
      else SplitRuns(s, seps) + [""]
  {
    assert (s + [x])[..|s|] == s;
  }
}
