/** `escapeHtml` (`src/utils/escapeHtml.ts`): each of `& < > " '` is replaced
    by its character reference, every other character is copied. */
module EscapeHtml {

  /** The characters `/[&<>"']/g` matches. */
  predicate IsSpecial(c: char) {
    c == '&' || c == '<' || c == '>' || c == '"' || c == '\''
  }

  /** `escapeCharMap[char] ?? char`. */
  function EscapeChar(c: char): (r: string)
    ensures IsSpecial(c) ==> |r| > 1 && r[0] == '&' && r[|r| - 1] == ';'
    ensures !IsSpecial(c) ==> r == [c]
  {
    match c
    case '&' => "&amp;"
    case '<' => "&lt;"
    case '>' => "&gt;"
    case '"' => "&quot;"
    case '\'' => "&#39;"
    case _ => [c]
  }

  /** Escaping only ever lengthens the text. */
  function EscapeHtml(s: string): (r: string)
    ensures |r| >= |s|
    decreases |s|
  {
    if s == [] then [] else EscapeChar(s[0]) + EscapeHtml(s[1..])
  }

  /** The reference the escaping is measured against: the five character
      references turned back into their characters, everything else copied. */
  function Unescape(s: string): string
    decreases |s|
  {
    if s == [] then []
    else if s[0] != '&' then [s[0]] + Unescape(s[1..])
    else if |s| >= 5 && s[..5] == "&amp;" then "&" + Unescape(s[5..])
    else if |s| >= 4 && s[..4] == "&lt;" then "<" + Unescape(s[4..])
    else if |s| >= 4 && s[..4] == "&gt;" then ">" + Unescape(s[4..])
    else if |s| >= 6 && s[..6] == "&quot;" then "\"" + Unescape(s[6..])
    else if |s| >= 5 && s[..5] == "&#39;" then "'" + Unescape(s[5..])
    else [s[0]] + Unescape(s[1..])
  }

  /** Escaping works character by character. */
  lemma {:induction false} EscapeAppend(a: string, b: string)
    ensures EscapeHtml(a + b) == EscapeHtml(a) + EscapeHtml(b)
    decreases |a|
  {
    if a != [] {
      assert (a + b)[0] == a[0] && (a + b)[1..] == a[1..] + b;
      EscapeAppend(a[1..], b);
    } else {
      assert a + b == b;
    }
  }

  /** A string without any of the five characters comes back unchanged; in
      particular the empty string does. */
  lemma {:induction false} EscapePlain(s: string)
    requires forall i :: 0 <= i < |s| ==> !IsSpecial(s[i])
    ensures EscapeHtml(s) == s
    decreases |s|
  {
    if s != [] {
      EscapePlain(s[1..]);
      assert [s[0]] + s[1..] == s;
    }
  }

  /** The output holds no raw `<`, `>`, `"` or `'`. */
  lemma {:induction false} EscapeIsSafe(s: string)
    ensures Safe(EscapeHtml(s))
    decreases |s|
  {
    if s != [] {
      EscapeIsSafe(s[1..]);
      var head, tail := EscapeChar(s[0]), EscapeHtml(s[1..]);
      EscapeCharSafe(s[0]);
      var r := head + tail;
      forall i | 0 <= i < |r|
        ensures r[i] != '<' && r[i] != '>' && r[i] != '"' && r[i] != '\''
      {
        if i < |head| {
          assert r[i] == head[i];
        } else {
          assert r[i] == tail[i - |head|];
        }
      }
    }
  }

  predicate Safe(r: string) {
    forall i :: 0 <= i < |r| ==> r[i] != '<' && r[i] != '>' && r[i] != '"' && r[i] != '\''
  }

  lemma EscapeCharSafe(c: char)
    ensures Safe(EscapeChar(c))
  {
    if IsSpecial(c) {
      var r := EscapeChar(c);
      assert r == "&amp;" || r == "&lt;" || r == "&gt;" || r == "&quot;" || r == "&#39;";
    }
  }

  /** Unescaping undoes one escaped character. */
  lemma UnescapeChar(c: char, rest: string)
    ensures Unescape(EscapeChar(c) + rest) == [c] + Unescape(rest)
  {
    var e := EscapeChar(c) + rest;
    if c == '&' {
      assert e[..5] == "&amp;" && e[5..] == rest;
      assert Unescape(e) == "&" + Unescape(rest);
    } else if c == '<' {
      assert e[1] == 'l' && e[..4] == "&lt;" && e[4..] == rest;
      assert Unescape(e) == "<" + Unescape(rest);
    } else if c == '>' {
      assert e[1] == 'g' && e[..4] == "&gt;" && e[4..] == rest;
      assert Unescape(e) == ">" + Unescape(rest);
    } else if c == '"' {
      assert e[1] == 'q' && e[..6] == "&quot;" && e[6..] == rest;
      assert Unescape(e) == "\"" + Unescape(rest);
    } else if c == '\'' {
      assert e[1] == '#' && e[..5] == "&#39;" && e[5..] == rest;
      assert Unescape(e) == "'" + Unescape(rest);
    } else {
      assert e[0] == c && e[1..] == rest;
      assert Unescape(e) == [c] + Unescape(rest);
    }
  }

  /** Unescaping is a left inverse of escaping, so no two strings escape alike. */
  lemma {:induction false} UnescapeEscape(s: string)
    ensures Unescape(EscapeHtml(s)) == s
    decreases |s|
  {
    if s != [] {
      UnescapeChar(s[0], EscapeHtml(s[1..]));
      UnescapeEscape(s[1..]);
      assert [s[0]] + s[1..] == s;
    }
  }

  lemma EscapeInjective(a: string, b: string)
    requires EscapeHtml(a) == EscapeHtml(b)
    ensures a == b
  {
    UnescapeEscape(a);
    UnescapeEscape(b);
  }

  /** The single-character cases of the tests. */
  lemma EscapeSingles()
    ensures EscapeHtml("&") == "&amp;" && EscapeHtml("<") == "&lt;" && EscapeHtml(">") == "&gt;"
    ensures EscapeHtml("\"") == "&quot;" && EscapeHtml("'") == "&#39;"
  {
    assert "&"[1..] == [] && "<"[1..] == [] && ">"[1..] == [] && "\""[1..] == [] && "'"[1..] == [];
  }

  /** Text around an escaped character is copied: `a < b` becomes `a &lt; b`. */
  lemma EscapeAround(a: string, c: char, b: string)
    requires forall i :: 0 <= i < |a| ==> !IsSpecial(a[i])
    requires forall i :: 0 <= i < |b| ==> !IsSpecial(b[i])
    ensures EscapeHtml(a + [c] + b) == a + EscapeChar(c) + b
  {
    var ac := a + [c];
    EscapeAppend(ac, b);
    EscapeAppend(a, [c]);
    EscapePlain(a);
    EscapePlain(b);
    assert EscapeHtml([c]) == EscapeChar(c) by {
      assert [c][1..] == [];
      assert EscapeChar(c) + [] == EscapeChar(c);
    }
  }
}
