/** `applyAnsiColor` (`src/modules/ProgressLogger/utils/applyAnsiColor.ts`):
    text wrapped in the SGR escape of a foreground colour and the reset. */
module AnsiColor {
  import opened JsString

  datatype AnsiColor = Red | Green | Yellow | Blue | Purple | Cyan | White

  /** `colorAnsiCodeMap` */
  function AnsiCode(color: AnsiColor): (code: nat)
    ensures 31 <= code <= 37
  {
    match color
    case Red => 31
    case Green => 32
    case Yellow => 33
    case Blue => 34
    case Purple => 35
    case Cyan => 36
    case White => 37
  }

  const Escape: char := 27 as char

  /** `\x1b[<code>m` */
  function ColorPrefix(color: AnsiColor): string {
    [Escape, '['] + DecimalString(AnsiCode(color)) + "m"
  }

  /** `\x1b[0m` */
  const Reset: string := [Escape, '[', '0', 'm']

  /** The text stands unchanged between a five-character escape and the
      four-character reset. */
  function ApplyAnsiColor(text: string, color: AnsiColor): (r: string)
    ensures |r| == |text| + 9 && r[5..|r| - 4] == text
  {
    PrefixLength(color);
    var r := ColorPrefix(color) + text + Reset;
    assert r[5..|r| - 4] == text by {
      assert r == ColorPrefix(color) + (text + Reset);
      assert r[5..] == text + Reset;
    }
    r
  }

  /** Every code has two digits, so every prefix is five characters long. */
  lemma PrefixLength(color: AnsiColor)
    ensures |DecimalString(AnsiCode(color))| == 2
    ensures |ColorPrefix(color)| == 5
  {
    var n := AnsiCode(color);
    assert DecimalString(n) == DecimalString(n / 10) + [DigitChar(n % 10)];
    assert DecimalString(n / 10) == [DigitChar(n / 10)];
  }

  /** The escape's digits are the colour's code: `3` and then the code's last
      digit. */
  lemma PrefixDigits(color: AnsiColor)
    ensures DecimalString(AnsiCode(color)) == ['3', DigitChar(AnsiCode(color) - 30)]
  {
    var n := AnsiCode(color);
    assert DecimalString(n) == DecimalString(n / 10) + [DigitChar(n % 10)];
    assert n / 10 == 3 && n % 10 == n - 30;
  }

  /** The colour is recovered from the wrapped text: the escape is the
      prefix, the reset comes last, and the text stands between them
      unchanged. */
  function Unwrap(s: string): (r: string)
    ensures |s| >= 9 ==> |r| == |s| - 9
  {
    if |s| >= 9 then s[5..|s| - 4] else s
  }

  lemma UnwrapApply(text: string, color: AnsiColor)
    ensures var s := ApplyAnsiColor(text, color);
      |s| == |text| + 9 && s[..5] == ColorPrefix(color) && s[|s| - 4..] == Reset && Unwrap(s) == text
  {
    PrefixLength(color);
    var s := ApplyAnsiColor(text, color);
    assert s == ColorPrefix(color) + (text + Reset);
    assert s[5..] == text + Reset;
    assert s[5..|s| - 4] == (text + Reset)[..|text|];
  }

  /** Different colours give different escapes. */
  lemma ColorsDiffer(c1: AnsiColor, c2: AnsiColor, t1: string, t2: string)
    requires c1 != c2
    ensures ApplyAnsiColor(t1, c1) != ApplyAnsiColor(t2, c2)
  {
    UnwrapApply(t1, c1);
    UnwrapApply(t2, c2);
    PrefixDigits(c1);
    PrefixDigits(c2);
    assert ColorPrefix(c1)[3] != ColorPrefix(c2)[3];
  }

  /** The test's `Hello` in green, and the empty text: only the escape and
      the reset. */
  lemma GreenExamples()
    ensures ApplyAnsiColor("Hello", Green) == [Escape] + "[32mHello" + [Escape] + "[0m"
    ensures ApplyAnsiColor("", Green) == [Escape] + "[32m" + [Escape] + "[0m"
  {
    PrefixDigits(Green);
    assert DigitChar(2) == '2';
  }
}
