/** The ECMAScript string built-ins the core relies on, at the level of
    characters: the `\s` class and `String.prototype.trim`, `split` on a
    single character and on `/\s+/`, the ASCII classes `\d` and `\w`, and
    `String(n)` for a natural number. */
module JsString {

  /** ECMAScript WhiteSpace and LineTerminator code points: the set that `\s`
      matches and that `trim` removes. */
  predicate IsWhitespace(c: char) {
    || c == '\t' || c == '\n' || c == '\U{B}' || c == '\U{C}' || c == '\r' || c == ' '
    || c == '\U{A0}' || c == '\U{1680}' || ('\U{2000}' <= c <= '\U{200A}')
    || c == '\U{2028}' || c == '\U{2029}' || c == '\U{202F}' || c == '\U{205F}'
    || c == '\U{3000}' || c == '\U{FEFF}'
  }

  /** The characters that the regular-expression `.` does not match. */
  predicate IsLineTerminator(c: char) {
    c == '\n' || c == '\r' || c == '\U{2028}' || c == '\U{2029}'
  }

  predicate IsAsciiDigit(c: char) { '0' <= c <= '9' }

  predicate IsAsciiLetter(c: char) { ('a' <= c <= 'z') || ('A' <= c <= 'Z') }

  /** `\w` without the `u` flag. */
  predicate IsWordChar(c: char) { IsAsciiLetter(c) || IsAsciiDigit(c) || c == '_' }

  predicate AllWhitespace(s: string) {
    forall i :: 0 <= i < |s| ==> IsWhitespace(s[i])
  }

  predicate NoWhitespace(s: string) {
    forall i :: 0 <= i < |s| ==> !IsWhitespace(s[i])
  }

  /** `w` occurs in `s` at index `i`. */
  predicate OccursAt(s: string, w: string, i: nat) {
    i + |w| <= |s| && s[i..i + |w|] == w
  }

  /** `w` occurs in `s` as a contiguous substring. */
  ghost predicate Contains(s: string, w: string) {
    exists i: nat :: OccursAt(s, w, i)
  }

  lemma ContainsInSlice(s: string, a: nat, b: nat, w: string)
    requires a <= b <= |s|
    requires Contains(s[a..b], w)
    ensures Contains(s, w)
  {
    var i: nat :| OccursAt(s[a..b], w, i);
    forall k | 0 <= k < |w|
      ensures s[a + i..a + i + |w|][k] == w[k]
    {
      assert w[k] == s[a..b][i + k];
    }
    assert OccursAt(s, w, a + i);
  }

  // ---------------------------------------------------------------- trim

  function TrimStart(s: string): (r: string)
    ensures |r| <= |s| && r == s[|s| - |r|..]
    ensures r == [] || !IsWhitespace(r[0])
    ensures AllWhitespace(s[..|s| - |r|])
  {
    if s != [] && IsWhitespace(s[0]) then
      var r := TrimStart(s[1..]);
      assert s[..|s| - |r|] == [s[0]] + s[1..][..|s[1..]| - |r|];
      r
    else s
  }

  function TrimEnd(s: string): (r: string)
    ensures |r| <= |s| && r == s[..|r|]
    ensures r == [] || !IsWhitespace(r[|r| - 1])
    ensures AllWhitespace(s[|r|..])
  {
    if s != [] && IsWhitespace(s[|s| - 1]) then
      var r := TrimEnd(s[..|s| - 1]);
      assert s[|r|..] == s[..|s| - 1][|r|..] + [s[|s| - 1]];
      r
    else s
  }

  /** `String.prototype.trim`: the result neither starts nor ends with
      whitespace (TrimIsSlice says that only whitespace was removed). */
  function Trim(s: string): (r: string)
    ensures r == [] || (!IsWhitespace(r[0]) && !IsWhitespace(r[|r| - 1]))
  {
    TrimEnd(TrimStart(s))
  }

  /** `trim` removes a run of whitespace at each end of `s` and nothing else. */
  lemma TrimIsSlice(s: string) returns (a: nat)
    ensures a + |Trim(s)| <= |s| && Trim(s) == s[a..a + |Trim(s)|]
    ensures AllWhitespace(s[..a]) && AllWhitespace(s[a + |Trim(s)|..])
  {
    var t := TrimStart(s);
    var r := TrimEnd(t);
    a := |s| - |t|;
    assert r == s[a..a + |r|];
    assert s[a + |r|..] == t[|r|..];
  }

  lemma {:induction false} TrimStartPrefix(ws: string, s: string)
    requires AllWhitespace(ws)
    ensures TrimStart(ws + s) == TrimStart(s)
  {
    if ws != [] {
      assert (ws + s)[1..] == ws[1..] + s;
      TrimStartPrefix(ws[1..], s);
    } else {
      assert ws + s == s;
    }
  }

  lemma {:induction false} TrimEndSuffix(s: string, ws: string)
    requires AllWhitespace(ws)
    ensures TrimEnd(s + ws) == TrimEnd(s)
  {
    if ws != [] {
      assert (s + ws)[..|s + ws| - 1] == s + ws[..|ws| - 1];
      TrimEndSuffix(s, ws[..|ws| - 1]);
    } else {
      assert s + ws == s;
    }
  }

  lemma {:induction false} TrimStartAppend(s: string, t: string)
    ensures TrimStart(s) != [] ==> TrimStart(s + t) == TrimStart(s) + t
    ensures TrimStart(s) == [] ==> TrimStart(s + t) == TrimStart(t)
  {
    if s == [] {
      assert s + t == t;
    } else if IsWhitespace(s[0]) {
      assert (s + t)[1..] == s[1..] + t;
      TrimStartAppend(s[1..], t);
    }
  }

  lemma TrimEndOfWhitespace(s: string)
    requires AllWhitespace(s)
    ensures TrimEnd(s) == []
  {
  }

  /** Leading and trailing whitespace do not change what `trim` returns. */
  lemma TrimIgnoresPadding(ws1: string, s: string, ws2: string)
    requires AllWhitespace(ws1) && AllWhitespace(ws2)
    ensures Trim(ws1 + s + ws2) == Trim(s)
  {
    assert ws1 + s + ws2 == ws1 + (s + ws2);
    TrimStartPrefix(ws1, s + ws2);
    TrimStartAppend(s, ws2);
    if TrimStart(s) != [] {
      TrimEndSuffix(TrimStart(s), ws2);
    } else {
      TrimEndOfWhitespace(ws2);
    }
  }

  lemma TrimOfWhitespace(s: string)
    requires AllWhitespace(s)
    ensures Trim(s) == []
  {
  }

  lemma TrimUnpadded(s: string)
    requires s == [] || (!IsWhitespace(s[0]) && !IsWhitespace(s[|s| - 1]))
    ensures Trim(s) == s
  {
  }

  // ---------------------------------------------------------------- split on one character

  /** The index of the first `c` at or after `from`, or `|s|` when there is none. */
  function IndexOf(s: string, c: char, from: nat): (r: nat)
    requires from <= |s|
    ensures from <= r <= |s|
    ensures r < |s| ==> s[r] == c
    ensures forall k :: from <= k < r ==> s[k] != c
    decreases |s| - from
  {
    if from == |s| then |s|
    else if s[from] == c then from
    else IndexOf(s, c, from + 1)
  }

  /** The first `c` of `pre + rest` is the one that starts `rest`. */
  lemma IndexOfAfter(pre: string, rest: string, c: char)
    requires forall k :: 0 <= k < |pre| ==> pre[k] != c
    requires rest != [] && rest[0] == c
    ensures IndexOf(pre + rest, c, 0) == |pre| && (pre + rest)[..|pre|] == pre
  {
    var s := pre + rest;
    assert s[|pre|] == c;
    assert forall k :: 0 <= k < |pre| ==> s[k] == pre[k];
    assert s[..|pre|] == pre;
  }

  /** `s.split(c)`: the pieces between the occurrences of `c`, in order. */
  function SplitOnChar(s: string, c: char): (parts: seq<string>)
    ensures |parts| >= 1
    ensures parts[0] == s[..IndexOf(s, c, 0)]
    decreases |s|
  {
    var i := IndexOf(s, c, 0);
    if i == |s| then [s] else [s[..i]] + SplitOnChar(s[i + 1..], c)
  }

  lemma SplitOnCharAbsent(s: string, c: char)
    requires forall k :: 0 <= k < |s| ==> s[k] != c
    ensures SplitOnChar(s, c) == [s]
  {
  }

  lemma SplitOnCharFirst(a: string, c: char, b: string)
    requires forall k :: 0 <= k < |a| ==> a[k] != c
    ensures SplitOnChar(a + [c] + b, c) == [a] + SplitOnChar(b, c)
  {
    var s := a + [c] + b;
    assert s[|a|] == c;
    assert IndexOf(s, c, 0) == |a|;
    assert s[..|a|] == a;
    assert s[|a| + 1..] == b;
  }

  /** Splitting on `c` yields one more piece than `s` has occurrences of `c`. */
  lemma {:induction false} SplitOnCharCount(s: string, c: char)
    ensures |SplitOnChar(s, c)| == 1 + multiset(s)[c]
    decreases |s|
  {
    var i := IndexOf(s, c, 0);
    assert multiset(s[..i])[c] == 0 by {
      assert forall k :: 0 <= k < i ==> s[..i][k] != c;
      assert c !in multiset(s[..i]);
    }
    if i < |s| {
      assert s == s[..i] + [c] + s[i + 1..];
      assert multiset(s)[c] == multiset(s[..i])[c] + 1 + multiset(s[i + 1..])[c];
      SplitOnCharCount(s[i + 1..], c);
    }
  }

  // ---------------------------------------------------------------- split on /\s+/

  /** The index of the first whitespace character at or after `from`, or `|s|`. */
  function FirstWhitespace(s: string, from: nat): (r: nat)
    requires from <= |s|
    ensures from <= r <= |s|
    ensures r < |s| ==> IsWhitespace(s[r])
    ensures forall k :: from <= k < r ==> !IsWhitespace(s[k])
    decreases |s| - from
  {
    if from == |s| then |s|
    else if IsWhitespace(s[from]) then from
    else FirstWhitespace(s, from + 1)
  }

  /** The end of the run of whitespace that starts at `from`. */
  function SkipWhitespace(s: string, from: nat): (r: nat)
    requires from <= |s|
    ensures from <= r <= |s|
    ensures r < |s| ==> !IsWhitespace(s[r])
    ensures forall k :: from <= k < r ==> IsWhitespace(s[k])
    decreases |s| - from
  {
    if from == |s| then |s|
    else if IsWhitespace(s[from]) then SkipWhitespace(s, from + 1)
    else from
  }

  /** `s.split(/\s+/)`: the pieces between maximal runs of whitespace; a
      string without whitespace, the empty string included, is one piece. */
  function SplitOnWhitespace(s: string): (parts: seq<string>)
    ensures |parts| >= 1
    ensures forall p :: p in parts ==> NoWhitespace(p)
    decreases |s|
  {
    var i := FirstWhitespace(s, 0);
    if i == |s| then [s]
    else [s[..i]] + SplitOnWhitespace(s[SkipWhitespace(s, i)..])
  }

  lemma SplitOnWhitespaceNone(s: string)
    requires NoWhitespace(s)
    ensures SplitOnWhitespace(s) == [s]
  {
  }

  lemma SplitOnWhitespaceFirst(a: string, ws: string, b: string)
    requires NoWhitespace(a) && ws != [] && AllWhitespace(ws)
    requires b == [] || !IsWhitespace(b[0])
    ensures SplitOnWhitespace(a + ws + b) == [a] + SplitOnWhitespace(b)
  {
    var s := a + ws + b;
    assert s[|a|] == ws[0];
    assert FirstWhitespace(s, 0) == |a|;
    assert forall k :: |a| <= k < |a| + |ws| ==> s[k] == ws[k - |a|];
    assert SkipWhitespace(s, |a|) == |a| + |ws| by {
      SkipWhitespaceRun(s, |a|, |a| + |ws|);
    }
    assert s[..|a|] == a;
    assert s[|a| + |ws|..] == b;
  }

  lemma {:induction false} SkipWhitespaceRun(s: string, from: nat, to: nat)
    requires from <= to <= |s|
    requires forall k :: from <= k < to ==> IsWhitespace(s[k])
    requires to == |s| || !IsWhitespace(s[to])
    ensures SkipWhitespace(s, from) == to
    decreases |s| - from
  {
    if from < to {
      SkipWhitespaceRun(s, from + 1, to);
    }
  }

  // ---------------------------------------------------------------- numbers as text

  function DigitChar(d: nat): (c: char)
    requires d < 10
    ensures IsAsciiDigit(c) && c as int - '0' as int == d
  {
    ('0' as int + d) as char
  }

  /** `String(n)` for a natural number: its decimal digits, without leading zeros. */
  function DecimalString(n: nat): (s: string)
    ensures |s| >= 1 && forall i :: 0 <= i < |s| ==> IsAsciiDigit(s[i])
    ensures |s| > 1 ==> s[0] != '0'
  {
    if n < 10 then [DigitChar(n)] else DecimalString(n / 10) + [DigitChar(n % 10)]
  }
}
