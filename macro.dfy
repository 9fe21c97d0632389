/** `NEWT_CRE.sub(r'\3', value)` for the one pattern of
    py/newt/config.py:24, `MYNEWT_VAL(\()?(_)?(.*)(?(1)\))`, written out as a
    scanner: find the leftmost `MYNEWT_VAL`, work out what the regex engine
    captures as group 3 (with its backtracking over the optional `(` and `_`),
    replace the whole match by that group, and go on after the match. As in
    Python's `re`, `.` stops at a newline. */
module Macro {

  const Prefix: string := "MYNEWT_VAL"

  predicate PrefixAt(s: string, i: nat) {
    i + |Prefix| <= |s| && s[i..i + |Prefix|] == Prefix
  }

  predicate HasPrefix(s: string) {
    exists i: nat | i <= |s| :: PrefixAt(s, i)
  }

  /** Leftmost occurrence of `MYNEWT_VAL` at or after `from`, or |s|. */
  function FindPrefix(s: string, from: nat): (i: nat)
    requires from <= |s|
    ensures from <= i <= |s|
    ensures i < |s| ==> PrefixAt(s, i)
    ensures forall j: nat | from <= j < i :: !PrefixAt(s, j)
    decreases |s| - from
  {
    if from == |s| then |s|
    else if PrefixAt(s, from) then from
    else FindPrefix(s, from + 1)
  }

  /** Where the current line ends: the first '\n' at or after `from`, or |s|. */
  function LineEnd(s: string, from: nat): (e: nat)
    requires from <= |s|
    ensures from <= e <= |s|
    ensures e < |s| ==> s[e] == '\n'
    ensures forall j | from <= j < e :: s[j] != '\n'
    decreases |s| - from
  {
    if from == |s| || s[from] == '\n' then from else LineEnd(s, from + 1)
  }

  /** Index of the last ')' in `u`, or -1. */
  function LastClose(u: string): (j: int)
    ensures -1 <= j < |u|
    ensures j >= 0 ==> u[j] == ')'
    ensures forall k | j < k < |u| :: u[k] != ')'
  {
    if u == [] then -1
    else if u[|u| - 1] == ')' then |u| - 1
    else LastClose(u[..|u| - 1])
  }

  /** The match that starts at `i`: group 3 and the index just after the
      match. With `(` and a later `)` on the line, group 1 takes the `(`, the
      optional `_` is taken when present, and `.*` stops before the last `)`.
      With `(` but no `)`, group 1 backs off and `.*` takes the rest of the
      line, `(` included. Without `(`, a leading `_` is dropped and `.*`
      takes the rest of the line. */
  function MatchAt(s: string, i: nat): (m: (string, nat))
    requires PrefixAt(s, i)
    ensures i + |Prefix| <= m.1 <= |s|
    ensures |Prefix| + |m.0| <= m.1 - i
  {
    var start := i + |Prefix|;
    var e := LineEnd(s, start);
    var t := s[start..e];
    if t != [] && t[0] == '(' then
      var u := t[1..];
      var j := LastClose(u);
      if j >= 0 then
        (if u[0] == '_' then u[1..j] else u[..j], start + 1 + j + 1)
      else (t, e)
    else
      (if t != [] && t[0] == '_' then t[1..] else t, e)
  }

  /** `re.sub` from index `from` on: every match, left to right, is replaced
      by its group 3. */
  function SubFrom(s: string, from: nat): (r: string)
    requires from <= |s|
    ensures |r| <= |s| - from
    decreases |s| - from
  {
    var i := FindPrefix(s, from);
    if i == |s| then s[from..]
    else
      var m := MatchAt(s, i);
      s[from..i] + m.0 + SubFrom(s, m.1)
  }

  /** `NEWT_CRE.sub(r'\3', s)`. */
  function Normalize(s: string): (r: string)
    ensures |r| <= |s|
  {
    SubFrom(s, 0)
  }

  predicate NoNewline(s: string) {
    forall j | 0 <= j < |s| :: s[j] != '\n'
  }

  /** A string that does not contain `MYNEWT_VAL` is left as it is. */
  lemma NormalizeWithoutMacro(s: string)
    requires !HasPrefix(s)
    ensures Normalize(s) == s
  {
    assert !PrefixAt(s, FindPrefix(s, 0));
  }

  /** The one match starting at 0 spans all of a one-line string that
      begins with `MYNEWT_VAL`, or ends at its last `)`. */
  lemma {:induction false} SingleMatch(s: string)
    requires PrefixAt(s, 0)
    requires MatchAt(s, 0).1 == |s|
    ensures Normalize(s) == MatchAt(s, 0).0
  {
    assert FindPrefix(s, 0) == 0;
    assert SubFrom(s, |s|) == s[|s|..] == [];
    assert s[0..0] == [];
    assert SubFrom(s, 0) == s[0..0] + MatchAt(s, 0).0 + SubFrom(s, |s|);
  }

  lemma PrefixOf(n: string, s: string)
    requires s == Prefix + n
    ensures PrefixAt(s, 0)
    ensures s[|Prefix|..] == n
  {
    assert s[..|Prefix|] == Prefix;
  }

  /** `MYNEWT_VAL(N)` becomes `N` (with a leading `_` of `N` dropped, as the
      optional group 2 takes it). */
  lemma NormalizeParenthesised(n: string)
    requires NoNewline(n)
    ensures Normalize(Prefix + "(" + n + ")") == if n != [] && n[0] == '_' then n[1..] else n
  {
    ParenMatch(n);
    SingleMatch(Prefix + "(" + n + ")");
  }

  /** The match on `MYNEWT_VAL(N)` spans it all, and group 3 is `N` less a
      leading `_`. */
  lemma ParenMatch(n: string)
    requires NoNewline(n)
    ensures PrefixAt(Prefix + "(" + n + ")", 0)
    ensures MatchAt(Prefix + "(" + n + ")", 0)
         == (if n != [] && n[0] == '_' then n[1..] else n, |Prefix + "(" + n + ")"|)
  {
    var s := Prefix + "(" + n + ")";
    ParenLine(n);
    var t := s[|Prefix|..|s|];
    assert t == "(" + n + ")";
    var u := t[1..];
    assert u == n + ")";
    assert LastClose(u) == |n|;
    assert u[..|n|] == n;
  }

  /** After the prefix, `(N)` is the rest of the one line. */
  lemma ParenLine(n: string)
    requires NoNewline(n)
    ensures PrefixAt(Prefix + "(" + n + ")", 0)
    ensures LineEnd(Prefix + "(" + n + ")", |Prefix|) == |Prefix + "(" + n + ")"|
    ensures (Prefix + "(" + n + ")")[|Prefix|..] == "(" + n + ")"
  {
    var s := Prefix + "(" + n + ")";
    PrefixOf("(" + n + ")", s);
    var start := |Prefix|;
    forall j | start <= j < |s| ensures s[j] != '\n' {
      if j == start || j == |s| - 1 { } else { assert s[j] == n[j - start - 1]; }
    }
  }

  /** `MYNEWT_VAL_N` becomes `N`. */
  lemma NormalizeUnderscore(n: string)
    requires NoNewline(n)
    ensures Normalize(Prefix + "_" + n) == n
  {
    var s := Prefix + "_" + n;
    PrefixOf("_" + n, s);
    var start := |Prefix|;
    assert forall j | start <= j < |s| :: s[j] != '\n' by {
      forall j | start <= j < |s| ensures s[j] != '\n' {
        if j > start { assert s[j] == n[j - start - 1]; }
      }
    }
    assert LineEnd(s, start) == |s|;
    assert s[start..|s|] == "_" + n;
    SingleMatch(s);
  }

  /** `MYNEWT_VALN` becomes `N` when `N` starts with neither `(` nor `_`. */
  lemma NormalizeBare(n: string)
    requires NoNewline(n)
    requires n == [] || (n[0] != '(' && n[0] != '_')
    ensures Normalize(Prefix + n) == n
  {
    var s := Prefix + n;
    PrefixOf(n, s);
    var start := |Prefix|;
    assert forall j | start <= j < |s| :: s[j] != '\n' by {
      forall j | start <= j < |s| ensures s[j] != '\n' {
        assert s[j] == n[j - start];
      }
    }
    assert LineEnd(s, start) == |s|;
    assert s[start..|s|] == n;
    SingleMatch(s);
  }

  lemma NormalizeParenExample()
    ensures Normalize("MYNEWT_VAL(FOO_BAR)") == "FOO_BAR"
  {
    assert "MYNEWT_VAL(FOO_BAR)" == Prefix + "(" + "FOO_BAR" + ")";
    NormalizeParenthesised("FOO_BAR");
  }

  lemma NormalizeUnderscoreExample()
    ensures Normalize("MYNEWT_VAL_FOO") == "FOO"
  {
    assert "MYNEWT_VAL_FOO" == Prefix + "_" + "FOO";
    NormalizeUnderscore("FOO");
  }
}
