/** The shape both identifier patterns share, `C+(?:S C+)*` for a character
    class `C` and a separator `S` outside it: one or more non-empty runs of
    `C`, joined by single separators. The regular expression is read as the
    two-state automaton a matcher runs, and measured against a description of
    the accepted strings character by character. */
module SegmentPattern {

  /** The automaton: `inSegment` says whether the current run is non-empty. */
  predicate Scan(s: string, sep: char, cls: char -> bool, inSegment: bool)
    decreases |s|
  {
    if s == [] then inSegment
    else if cls(s[0]) then Scan(s[1..], sep, cls, true)
    else s[0] == sep && inSegment && Scan(s[1..], sep, cls, false)
  }

  /** `^C+(?:S C+)*$` */
  predicate Matches(s: string, sep: char, cls: char -> bool) {
    Scan(s, sep, cls, false)
  }

  /** Every character is a separator or in the class. */
  predicate OnlyAllowed(s: string, sep: char, cls: char -> bool) {
    forall i :: 0 <= i < |s| ==> s[i] == sep || cls(s[i])
  }

  /** No two separators in a row. */
  predicate NoDoubleSeparator(s: string, sep: char) {
    forall i :: 0 <= i < |s| - 1 ==> s[i] != sep || s[i + 1] != sep
  }

  /** The accepted strings, described directly: non-empty, made of allowed
      characters, neither starting nor ending with a separator, and without
      two separators in a row. */
  predicate Delimited(s: string, sep: char, cls: char -> bool) {
    s != [] && s[0] != sep && s[|s| - 1] != sep &&
    OnlyAllowed(s, sep, cls) && NoDoubleSeparator(s, sep)
  }

  /** What the automaton accepts from either state. */
  predicate Accepts(s: string, sep: char, cls: char -> bool, inSegment: bool) {
    OnlyAllowed(s, sep, cls) && NoDoubleSeparator(s, sep) &&
    (s == [] ==> inSegment) &&
    (s != [] ==> s[|s| - 1] != sep && (s[0] == sep ==> inSegment))
  }

  lemma {:induction false} ScanAccepts(s: string, sep: char, cls: char -> bool, inSegment: bool)
    requires !cls(sep)
    ensures Scan(s, sep, cls, inSegment) <==> Accepts(s, sep, cls, inSegment)
    decreases |s|
  {
    if s != [] {
      var c, t := s[0], s[1..];
      assert forall i :: 0 <= i < |t| ==> t[i] == s[i + 1];
      if cls(c) {
        ScanAccepts(t, sep, cls, true);
        assert OnlyAllowed(s, sep, cls) <==> OnlyAllowed(t, sep, cls);
        assert NoDoubleSeparator(s, sep) <==> NoDoubleSeparator(t, sep);
        if t != [] {
          assert s[|s| - 1] == t[|t| - 1];
        }
      } else if c == sep {
        ScanAccepts(t, sep, cls, false);
        if inSegment {
          assert OnlyAllowed(s, sep, cls) <==> OnlyAllowed(t, sep, cls);
          assert NoDoubleSeparator(s, sep) <==> NoDoubleSeparator(t, sep) && (t != [] ==> t[0] != sep);
          if t != [] {
            assert s[|s| - 1] == t[|t| - 1];
          }
        }
      } else {
        assert !OnlyAllowed(s, sep, cls);
      }
    }
  }

  /** The automaton accepts exactly the delimited strings. */
  lemma MatchesIsDelimited(s: string, sep: char, cls: char -> bool)
    requires !cls(sep)
    ensures Matches(s, sep, cls) <==> Delimited(s, sep, cls)
  {
    ScanAccepts(s, sep, cls, false);
  }

  /** A non-empty run of the class is accepted on its own. */
  lemma OneSegment(seg: string, sep: char, cls: char -> bool)
    requires !cls(sep)
    requires seg != [] && forall i :: 0 <= i < |seg| ==> cls(seg[i])
    ensures Matches(seg, sep, cls)
  {
    MatchesIsDelimited(seg, sep, cls);
  }

  /** An accepted string followed by a separator and a non-empty run is
      accepted, and those are all the ways to grow one. */
  lemma AddSegment(s: string, seg: string, sep: char, cls: char -> bool)
    requires !cls(sep)
    requires seg != [] && forall i :: 0 <= i < |seg| ==> cls(seg[i])
    ensures Matches(s + [sep] + seg, sep, cls) <==> Matches(s, sep, cls)
  {
    var t := s + [sep] + seg;
    MatchesIsDelimited(s, sep, cls);
    MatchesIsDelimited(t, sep, cls);
    assert forall i :: 0 <= i < |s| ==> t[i] == s[i];
    assert t[|s|] == sep;
    assert forall i :: 0 <= i < |seg| ==> t[|s| + 1 + i] == seg[i];
    if Delimited(s, sep, cls) {
      forall i | 0 <= i < |t| - 1
        ensures t[i] != sep || t[i + 1] != sep
      {
        if i < |s| - 1 {
        } else if i == |s| - 1 {
        } else {
          assert t[i + 1] == seg[i - |s|];
        }
      }
      forall i | 0 <= i < |t|
        ensures t[i] == sep || cls(t[i])
      {
        if i > |s| {
          assert t[i] == seg[i - |s| - 1];
        }
      }
    }
    if Delimited(t, sep, cls) {
      assert s != [];
      assert t[|s| - 1] != sep;
      forall i | 0 <= i < |s| - 1
        ensures s[i] != sep || s[i + 1] != sep
      {
        assert s[i] == t[i] && s[i + 1] == t[i + 1];
      }
    }
  }
}
