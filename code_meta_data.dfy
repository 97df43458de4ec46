/** The code-fence metadata parser: the text after the language of a fenced
    code block (`title="Hello world" count=42 enabled`) becomes an ordered
    record of string, number, boolean and null values, or one of three
    parse errors.

    The parser works in four steps:
      1. quoted spans (`"…"` or `'…'`, on one line) are replaced, left to
         right, by placeholder tokens and remembered in a map;
      2. the text is split on whitespace and each argument on `=`, and every
         key and entry is validated;
      3. placeholder tokens inside remembered spans are resolved;
      4. every value is classified and the entries become a record.

    The placeholder generator is the parameter `gen`: the k-th quoted span is
    replaced by `gen(k)`. The lemmas assume `FreshTokens`: every token has the
    placeholder shape, no two are equal and none occurs in the input. */
module CodeMetaData {
  import opened Wrappers
  import opened JsString
  import opened OrderedMap

  // ---------------------------------------------------------------- values and errors

  datatype MetaValue =
    | MString(text: string)
    | MNumber(number: real)
    | MBoolean(flag: bool)
    | MNull

  /** The parsed record: keys in property order, each at most once. */
  type MetaData = Entries<MetaValue>

  datatype MetaError =
    | InvalidKey(key: string)
    | InvalidEntry(entry: string)
    | UnknownValueType(value: string)

  /** The message of the thrown `Error`. */
  function ErrorMessage(e: MetaError): (m: string)
    ensures e.InvalidKey? ==> m == "Parsing error: Invalid key \"" + e.key + "\". The key must be in camelCase."
    ensures e.InvalidEntry? ==> m == "Parsing error: Invalid entry \"" + e.entry + "\"."
    ensures e.UnknownValueType? ==> m == "Parsing error: Unknown value type \"" + e.value + "\"."
  {
    match e
    case InvalidKey(k) => "Parsing error: Invalid key \"" + k + "\". The key must be in camelCase."
    case InvalidEntry(a) => "Parsing error: Invalid entry \"" + a + "\"."
    case UnknownValueType(v) => "Parsing error: Unknown value type \"" + v + "\"."
  }

  // ---------------------------------------------------------------- lexical classes

  /** `[$a-z0-9]` under the case-insensitive flag. */
  predicate IsKeyChar(c: char) { IsAsciiLetter(c) || IsAsciiDigit(c) || c == '$' }

  /** `^[$a-z0-9]+$` with the `i` flag. */
  predicate IsValidKey(k: string) {
    |k| > 0 && forall i :: 0 <= i < |k| ==> IsKeyChar(k[i])
  }

  /** `[\w-]` */
  predicate IsTokenChar(c: char) { IsWordChar(c) || c == '-' }

  /** `^@@[\w-]+@@$`: the shape of a placeholder token. */
  predicate IsStringToken(v: string) {
    |v| >= 5 && v[..2] == "@@" && v[|v| - 2..] == "@@" &&
    forall i :: 2 <= i < |v| - 2 ==> IsTokenChar(v[i])
  }

  predicate AllDigits(d: string) {
    forall i :: 0 <= i < |d| ==> IsAsciiDigit(d[i])
  }

  /** `^(\d+(?:\.\d+)?)$` */
  predicate IsNumberLiteral(v: string) {
    var p := IndexOf(v, '.', 0);
    if p == |v| then 0 < |v| && AllDigits(v)
    else 0 < p && p + 1 < |v| && AllDigits(v[..p]) && AllDigits(v[p + 1..])
  }

  /** `^(true|false)$` */
  predicate IsBooleanLiteral(v: string) { v == "true" || v == "false" }

  /** `^null$` */
  predicate IsNullLiteral(v: string) { v == "null" }

  function DigitsValue(d: string): (n: nat)
    requires AllDigits(d)
  {
    if d == [] then 0
    else 10 * DigitsValue(d[..|d| - 1]) + (d[|d| - 1] as int - '0' as int)
  }

  function Pow10(n: nat): (p: nat)
    ensures p >= 1
  {
    if n == 0 then 1 else 10 * Pow10(n - 1)
  }

  /** `Number(v)` for a decimal literal, as an exact rational. */
  function NumberValue(v: string): (x: real)
    requires IsNumberLiteral(v)
    ensures x >= 0.0
  {
    var p := IndexOf(v, '.', 0);
    if p == |v| then DigitsValue(v) as real
    else
      var whole, fraction, scale := DigitsValue(v[..p]) as real, DigitsValue(v[p + 1..]) as real, Pow10(|v| - p - 1) as real;
      FractionNonNegative(fraction, scale);
      whole + fraction / scale
  }

  lemma FractionNonNegative(fraction: real, scale: real)
    requires fraction >= 0.0 && scale >= 1.0
    ensures fraction / scale >= 0.0
  {
  }

  /** The four value classes do not overlap, so the order in which the
      classifier tries them never changes its answer. */
  lemma ValueClassesDisjoint(v: string)
    ensures IsStringToken(v) ==> !IsNumberLiteral(v) && !IsBooleanLiteral(v) && !IsNullLiteral(v)
    ensures IsNumberLiteral(v) ==> !IsBooleanLiteral(v) && !IsNullLiteral(v)
    ensures IsBooleanLiteral(v) ==> !IsNullLiteral(v)
  {
  }

  /** The decimal text of a natural number is a number literal of that value. */
  lemma {:induction false} DecimalNumberValue(n: nat)
    ensures IsNumberLiteral(DecimalString(n)) && NumberValue(DecimalString(n)) == n as real
  {
    var s := DecimalString(n);
    assert IndexOf(s, '.', 0) == |s| by {
      assert forall i :: 0 <= i < |s| ==> s[i] != '.';
    }
    DecimalDigitsValue(n);
  }

  lemma {:induction false} DecimalDigitsValue(n: nat)
    ensures AllDigits(DecimalString(n)) && DigitsValue(DecimalString(n)) == n
  {
    var s := DecimalString(n);
    if n >= 10 {
      DecimalDigitsValue(n / 10);
      assert s[..|s| - 1] == DecimalString(n / 10);
    } else {
      assert s[..|s| - 1] == [];
    }
  }

  // ---------------------------------------------------------------- 1. quoted spans and tokens

  predicate IsQuote(c: char) { c == '"' || c == '\'' }

  /** The first `q` at or after `from`, provided no line terminator comes
      before it (`.` in `.*?` does not match line terminators). */
  function ClosingQuote(s: string, q: char, from: nat): (r: Option<nat>)
    requires from <= |s| && !IsLineTerminator(q)
    ensures r.Some? ==> from <= r.value < |s| && s[r.value] == q
    ensures r.Some? ==> forall k :: from <= k < r.value ==> s[k] != q && !IsLineTerminator(s[k])
    decreases |s| - from
  {
    if from == |s| then None
    else if s[from] == q then Some(from)
    else if IsLineTerminator(s[from]) then None
    else ClosingQuote(s, q, from + 1)
  }

  /** The search is complete: the first closing quote reachable without
      crossing a line terminator is found. */
  lemma {:induction false} ClosingQuoteFound(s: string, q: char, from: nat, x: nat)
    requires !IsLineTerminator(q)
    requires from <= x < |s| && s[x] == q
    requires forall k :: from <= k < x ==> s[k] != q && !IsLineTerminator(s[k])
    ensures ClosingQuote(s, q, from) == Some(x)
    decreases x - from
  {
    if from < x {
      ClosingQuoteFound(s, q, from + 1, x);
    }
  }

  /** The end (exclusive) of the match of `(["']).*?\1` that starts at `i`, if any. */
  function QuotedSpanAt(s: string, i: nat): (r: Option<nat>)
    requires i < |s|
    ensures r.Some? ==> i + 2 <= r.value <= |s| && IsQuote(s[i]) && s[r.value - 1] == s[i]
    ensures !IsQuote(s[i]) ==> r.None?
  {
    if IsQuote(s[i]) then
      match ClosingQuote(s, s[i], i + 1)
      case Some(j) => Some(j + 1)
      case None => None
    else None
  }

  /** The JS `Map` from token to the quoted span it stands for. */
  type StringMap = Entries<string>

  datatype Substitution = Substitution(text: string, origin: StringMap)

  /** `.replace(/(["']).*?\1/g, cb)` from position `i` on, where the callback
      takes the `k`-th token and records the span under it. */
  function SubstituteFrom(s: string, i: nat, gen: nat -> string, k: nat, acc: Substitution): Substitution
    requires i <= |s|
    decreases |s| - i
  {
    if i == |s| then acc
    else
      match QuotedSpanAt(s, i)
      case Some(e) =>
        SubstituteFrom(s, e, gen, k + 1, Substitution(acc.text + gen(k), Set(acc.origin, gen(k), s[i..e])))
      case None =>
        SubstituteFrom(s, i + 1, gen, k, Substitution(acc.text + [s[i]], acc.origin))
  }

  /** Step 1: the text with every quoted span replaced by a token, and the map
      of the spans, quotes included. */
  function Substitute(s: string, gen: nat -> string): Substitution {
    SubstituteFrom(s, 0, gen, 0, Substitution("", []))
  }

  /** A stretch without quote characters is copied as it is. */
  lemma {:induction false} SubstituteSkip(s: string, i: nat, j: nat, gen: nat -> string, k: nat, acc: Substitution)
    requires i <= j <= |s|
    requires forall x :: i <= x < j ==> !IsQuote(s[x])
    ensures SubstituteFrom(s, i, gen, k, acc) == SubstituteFrom(s, j, gen, k, Substitution(acc.text + s[i..j], acc.origin))
    decreases j - i
  {
    if i < j {
      SubstitutePlainStep(s, i, gen, k, acc);
      SubstituteSkip(s, i + 1, j, gen, k, Substitution(acc.text + [s[i]], acc.origin));
      SliceStep(acc.text, s, i, j);
    } else {
      assert acc.text + s[i..j] == acc.text;
    }
  }

  lemma SubstitutePlainStep(s: string, i: nat, gen: nat -> string, k: nat, acc: Substitution)
    requires i < |s| && !IsQuote(s[i])
    ensures SubstituteFrom(s, i, gen, k, acc) ==
      SubstituteFrom(s, i + 1, gen, k, Substitution(acc.text + [s[i]], acc.origin))
  {
    assert QuotedSpanAt(s, i) == None;
  }

  lemma SliceStep(t: string, s: string, i: nat, j: nat)
    requires i < j <= |s|
    ensures t + [s[i]] + s[i + 1..j] == t + s[i..j]
  {
    assert s[i..j] == [s[i]] + s[i + 1..j];
  }

  /** Text without quotes passes step 1 unchanged and records nothing. */
  lemma SubstituteUnquoted(s: string, gen: nat -> string)
    requires forall x :: 0 <= x < |s| ==> !IsQuote(s[x])
    ensures Substitute(s, gen) == Substitution(s, [])
  {
    SubstituteSkip(s, 0, |s|, gen, 0, Substitution("", []));
    assert "" + s[0..|s|] == s;
  }

  /** Every recorded span is a stretch of the input and every key a generated token. */
  ghost predicate SpansOf(m: StringMap, s: string, gen: nat -> string) {
    forall p :: p in m ==>
      (exists j: nat :: p.0 == gen(j)) && (exists a: nat, b: nat :: a <= b <= |s| && p.1 == s[a..b])
  }

  lemma {:induction false} SubstituteFromSpans(s: string, i: nat, gen: nat -> string, k: nat, acc: Substitution)
    requires i <= |s| && SpansOf(acc.origin, s, gen) && DistinctKeys(acc.origin)
    ensures var r := SubstituteFrom(s, i, gen, k, acc); SpansOf(r.origin, s, gen) && DistinctKeys(r.origin)
    decreases |s| - i
  {
    if i < |s| {
      match QuotedSpanAt(s, i)
      case Some(e) =>
        var m := Set(acc.origin, gen(k), s[i..e]);
        SetKeepsSpans(acc.origin, s, gen, k, i, e);
        SubstituteFromSpans(s, e, gen, k + 1, Substitution(acc.text + gen(k), m));
      case None =>
        SubstituteFromSpans(s, i + 1, gen, k, Substitution(acc.text + [s[i]], acc.origin));
    }
  }

  /** Recording one more span of the input under a generated token keeps the map well formed. */
  lemma SetKeepsSpans(origin: StringMap, s: string, gen: nat -> string, k: nat, a: nat, b: nat)
    requires SpansOf(origin, s, gen) && DistinctKeys(origin) && a <= b <= |s|
    ensures SpansOf(Set(origin, gen(k), s[a..b]), s, gen) && DistinctKeys(Set(origin, gen(k), s[a..b]))
  {
    var m := Set(origin, gen(k), s[a..b]);
    forall p | p in m
      ensures (exists j: nat :: p.0 == gen(j)) && (exists x: nat, y: nat :: x <= y <= |s| && p.1 == s[x..y])
    {
      var x :| 0 <= x < |m| && m[x] == p;
      GetFound(m, p.0);
      assert Get(m, p.0) == Some(p.1);
      if p.0 == gen(k) {
        assert p.1 == s[a..b];
      } else {
        assert Get(origin, p.0) == Some(p.1);
        GetFound(origin, p.0);
        var y :| 0 <= y < |origin| && origin[y] == p;
        assert origin[y] in origin;
      }
    }
  }

  /** Placeholder tokens as the source generates them, relative to one input. */
  ghost predicate FreshTokens(gen: nat -> string, input: string) {
    (forall k :: IsStringToken(gen(k))) &&
    (forall k1, k2 :: k1 != k2 ==> gen(k1) != gen(k2)) &&
    (forall k :: !Contains(input, gen(k)))
  }

  // ---------------------------------------------------------------- 2. arguments

  /** One whitespace-separated argument: `key=value`, or a bare `key` whose
      value is the text `true`. The key is checked before the number of `=`. */
  function ParseArgument(arg: string): (r: Result<(string, string), MetaError>)
    ensures var eq := IndexOf(arg, '=', 0);
      r.Success? <==> IsValidKey(arg[..eq]) && multiset(arg)['='] <= 1
    ensures var eq := IndexOf(arg, '=', 0);
      r.Success? ==> r.value == (arg[..eq], if eq < |arg| then arg[eq + 1..] else "true")
    ensures var eq := IndexOf(arg, '=', 0);
      r.Failure? ==> r.error == if IsValidKey(arg[..eq]) then InvalidEntry(arg) else InvalidKey(arg[..eq])
    ensures r.Success? ==> IsValidKey(r.value.0)
  {
    var fragments := SplitOnChar(arg, '=');
    SplitOnCharCount(arg, '=');
    var key := fragments[0];
    var value := if |fragments| > 1 then fragments[1] else "true";
    if !IsValidKey(key) then Failure(InvalidKey(key))
    else if |fragments| > 2 then Failure(InvalidEntry(arg))
    else
      if |fragments| == 2 then
        SecondFragment(arg);
        Success((key, value))
      else
        Success((key, value))
  }

  /** With exactly two fragments, the second is everything after the `=`. */
  lemma SecondFragment(arg: string)
    requires |SplitOnChar(arg, '=')| == 2
    ensures var eq := IndexOf(arg, '=', 0);
      eq < |arg| && SplitOnChar(arg, '=')[1] == arg[eq + 1..]
  {
    var eq := IndexOf(arg, '=', 0);
    var rest := arg[eq + 1..];
    SplitOnCharCount(rest, '=');
    assert '=' !in multiset(rest);
    var j := IndexOf(rest, '=', 0);
    assert rest[..j] == rest;
  }

  /** The `.map` over all arguments, which throws at the first bad one. */
  function ValidateArguments(args: seq<string>): (r: Result<seq<(string, string)>, MetaError>)
    ensures r.Success? <==> forall i :: 0 <= i < |args| ==> ParseArgument(args[i]).Success?
    ensures r.Success? ==> |r.value| == |args| &&
                           forall i :: 0 <= i < |args| ==> r.value[i] == ParseArgument(args[i]).value
    ensures r.Failure? ==> exists i :: 0 <= i < |args| && ParseArgument(args[i]) == Failure(r.error) &&
                                       forall j :: 0 <= j < i ==> ParseArgument(args[j]).Success?
    ensures r.Success? ==> forall i :: 0 <= i < |r.value| ==> IsValidKey(r.value[i].0)
  {
    if args == [] then Success([])
    else
      var first :- ParseArgument(args[0]);
      var rest := ValidateArguments(args[1..]);
      if rest.Failure? then
        assert forall i :: 0 < i < |args| ==> args[i] == args[1..][i - 1];
        Failure(rest.error)
      else
        Success([first] + rest.value)
  }

  // ---------------------------------------------------------------- 3. nested tokens

  /** The end of the run of `[\w-]` starting at `from`. */
  function TokenRunEnd(s: string, from: nat): (r: nat)
    requires from <= |s|
    ensures from <= r <= |s|
    ensures r < |s| ==> !IsTokenChar(s[r])
    ensures forall k :: from <= k < r ==> IsTokenChar(s[k])
    decreases |s| - from
  {
    if from == |s| || !IsTokenChar(s[from]) then from else TokenRunEnd(s, from + 1)
  }

  /** The end (exclusive) of the match of `@@[\w-]+@@` that starts at `i`, if any. */
  function TokenMatchAt(s: string, i: nat): (r: Option<nat>)
    requires i <= |s|
    ensures r.Some? ==> i + 5 <= r.value <= |s| && IsStringToken(s[i..r.value])
  {
    if i + 2 <= |s| && s[i] == '@' && s[i + 1] == '@' then
      var j := TokenRunEnd(s, i + 2);
      if j > i + 2 && j + 2 <= |s| && s[j] == '@' && s[j + 1] == '@' then
        var w := s[i..j + 2];
        assert w[..2] == "@@" && w[|w| - 2..] == "@@";
        assert forall x :: 2 <= x < |w| - 2 ==> w[x] == s[i + x];
        Some(j + 2)
      else None
    else None
  }

  /** `.replace(/@@[\w-]+@@/g, t => m.get(t) ?? t)` from position `i` on. */
  function ReplaceTokensFrom(s: string, i: nat, m: StringMap, acc: string): string
    requires i <= |s|
    decreases |s| - i
  {
    if i == |s| then acc
    else
      match TokenMatchAt(s, i)
      case Some(e) =>
        var w := s[i..e];
        ReplaceTokensFrom(s, e, m, acc + match Get(m, w) case Some(v) => v case None => w)
      case None =>
        ReplaceTokensFrom(s, i + 1, m, acc + [s[i]])
  }

  function ReplaceTokens(s: string, m: StringMap): string {
    ReplaceTokensFrom(s, 0, m, "")
  }

  /** A piece of a string in which no key occurs is not a key. */
  lemma AbsentKey(s: string, i: nat, e: nat, m: StringMap)
    requires i <= e <= |s|
    requires forall p :: p in m ==> !Contains(s, p.0)
    ensures Get(m, s[i..e]).None?
  {
    var w := s[i..e];
    assert OccursAt(s, w, i);
    forall x | 0 <= x < |m|
      ensures m[x].0 != w
    {
      assert m[x] in m;
    }
  }

  /** A string in which no key of the map occurs is left unchanged. */
  lemma {:induction false} ReplaceTokensFromIdentity(s: string, i: nat, m: StringMap, acc: string)
    requires i <= |s|
    requires forall p :: p in m ==> !Contains(s, p.0)
    ensures ReplaceTokensFrom(s, i, m, acc) == acc + s[i..]
    decreases |s| - i
  {
    if i < |s| {
      match TokenMatchAt(s, i)
      case Some(e) =>
        var w := s[i..e];
        AbsentKey(s, i, e, m);
        ReplaceTokensFromIdentity(s, e, m, acc + w);
        assert acc + w + s[e..] == acc + s[i..];
      case None =>
        ReplaceTokensFromIdentity(s, i + 1, m, acc + [s[i]]);
        assert acc + [s[i]] + s[i + 1..] == acc + s[i..];
    }
  }

  /** `m.forEach((v, t) => m.set(t, v.replace(…)))` from entry `idx` on: the
      entries are visited in insertion order, and each replacement sees the
      values already rewritten before it. */
  function ResolveFrom(m: StringMap, idx: nat): (r: StringMap)
    requires idx <= |m|
    ensures |r| == |m| && forall i :: 0 <= i < |m| ==> r[i].0 == m[i].0
    decreases |m| - idx
  {
    if idx == |m| then m
    else
      assert HasKey(m, m[idx].0);
      ResolveFrom(Set(m, m[idx].0, ReplaceTokens(m[idx].1, m)), idx + 1)
  }

  /** Step 3. */
  function Resolve(m: StringMap): StringMap {
    ResolveFrom(m, 0)
  }

  /** When no stored span contains a key of the map, resolution changes nothing. */
  lemma {:induction false} ResolveFromIdentity(m: StringMap, idx: nat)
    requires idx <= |m| && DistinctKeys(m)
    requires forall p, q :: p in m && q in m ==> !Contains(p.1, q.0)
    ensures ResolveFrom(m, idx) == m
    decreases |m| - idx
  {
    if idx < |m| {
      var p := m[idx];
      assert p in m;
      ReplaceTokensFromIdentity(p.1, 0, m, "");
      assert ReplaceTokens(p.1, m) == p.1;
      var m' := Set(m, p.0, p.1);
      assert m' == m by {
        assert |m'| == |m|;
        forall i | 0 <= i < |m|
          ensures m'[i] == m[i]
        {
          assert m'[i].0 == m[i].0;
          GetFound(m, m[i].0);
          GetFound(m', m[i].0);
          assert Get(m', m[i].0) == Get(m, m[i].0);
          assert Get(m, m[i].0) == Some(m[i].1);
          assert Get(m', m[i].0) == Some(m'[i].1) by {
            assert DistinctKeys(m');
          }
        }
      }
      ResolveFromIdentity(m, idx + 1);
    }
  }

  /** With fresh tokens the spans of step 1 hold no token, so step 3 is the identity. */
  lemma FreshTokensResolveIdentity(input: string, gen: nat -> string)
    requires FreshTokens(gen, input)
    ensures var sub := Substitute(Trim(input), gen); Resolve(sub.origin) == sub.origin
  {
    var s := Trim(input);
    var a := TrimIsSlice(input);
    SubstituteFromSpans(s, 0, gen, 0, Substitution("", []));
    var origin := Substitute(s, gen).origin;
    SpansHoldNoToken(input, a, s, origin, gen);
    ResolveFromIdentity(origin, 0);
  }

  lemma SpansHoldNoToken(input: string, a: nat, s: string, origin: StringMap, gen: nat -> string)
    requires FreshTokens(gen, input)
    requires a + |s| <= |input| && s == input[a..a + |s|]
    requires SpansOf(origin, s, gen)
    ensures forall p, q :: p in origin && q in origin ==> !Contains(p.1, q.0)
  {
    forall p, q | p in origin && q in origin
      ensures !Contains(p.1, q.0)
    {
      var j: nat :| q.0 == gen(j);
      var x: nat, y: nat :| x <= y <= |s| && p.1 == s[x..y];
      assert !Contains(input, gen(j));
      AbsentFromSliceOfSlice(input, a, |s|, x, y, q.0);
    }
  }

  /** What does not occur in a string does not occur in any piece of it. */
  lemma AbsentFromSliceOfSlice(input: string, a: nat, len: nat, x: nat, y: nat, w: string)
    requires a + len <= |input| && x <= y <= len
    requires !Contains(input, w)
    ensures !Contains(input[a..a + len][x..y], w)
  {
    if Contains(input[a..a + len][x..y], w) {
      ContainsInSlice(input[a..a + len], x, y, w);
      ContainsInSlice(input, a, a + len, w);
    }
  }

  // ---------------------------------------------------------------- 4. values and the record

  /** `slice(1, -1)`. */
  function Unquote(s: string): (r: string)
    ensures |s| >= 2 ==> r == s[1..|s| - 1]
    ensures |s| < 2 ==> r == ""
  {
    if |s| >= 2 then s[1..|s| - 1] else ""
  }

  /** One value: a token stands for its span without the quotes (or `''` when
      the map has no such token), then numbers, booleans and null; anything
      else is an error. */
  function ClassifyValue(v: string, origin: StringMap): (r: Result<MetaValue, MetaError>)
    ensures r.Success? <==> IsStringToken(v) || IsNumberLiteral(v) || IsBooleanLiteral(v) || IsNullLiteral(v)
    ensures r.Failure? ==> r.error == UnknownValueType(v)
    ensures r.Success? ==> (r.value.MString? <==> IsStringToken(v))
    ensures IsStringToken(v) ==> r == Success(MString(if HasKey(origin, v) then Unquote(Get(origin, v).value) else ""))
    ensures r.Success? && r.value.MNumber? ==> IsNumberLiteral(v) && r.value.number == NumberValue(v)
    ensures r.Success? && r.value.MBoolean? ==> IsBooleanLiteral(v) && r.value.flag == (v == "true")
    ensures r == Success(MNull) <==> IsNullLiteral(v)
  {
    ValueClassesDisjoint(v);
    if IsStringToken(v) then
      Success(MString(match Get(origin, v) case Some(span) => Unquote(span) case None => ""))
    else if IsNumberLiteral(v) then Success(MNumber(NumberValue(v)))
    else if IsBooleanLiteral(v) then Success(MBoolean(v == "true"))
    else if IsNullLiteral(v) then Success(MNull)
    else Failure(UnknownValueType(v))
  }

  /** The `.map` over all entries, which throws at the first unknown value. */
  function ClassifyEntries(entries: seq<(string, string)>, origin: StringMap): (r: Result<MetaData, MetaError>)
    ensures r.Success? <==> forall i :: 0 <= i < |entries| ==> ClassifyValue(entries[i].1, origin).Success?
    ensures r.Success? ==> |r.value| == |entries| && forall i :: 0 <= i < |entries| ==> r.value[i].0 == entries[i].0
    ensures r.Success? ==> |r.value| == |entries| &&
                           forall i :: 0 <= i < |entries| ==>
                             r.value[i] == (entries[i].0, ClassifyValue(entries[i].1, origin).value)
    ensures r.Failure? ==> exists i :: 0 <= i < |entries| && ClassifyValue(entries[i].1, origin) == Failure(r.error) &&
                                       forall j :: 0 <= j < i ==> ClassifyValue(entries[j].1, origin).Success?
  {
    if entries == [] then Success([])
    else
      var first :- ClassifyValue(entries[0].1, origin);
      var rest := ClassifyEntries(entries[1..], origin);
      if rest.Failure? then
        assert forall i :: 0 < i < |entries| ==> entries[i] == entries[1..][i - 1];
        Failure(rest.error)
      else
        Success([(entries[0].0, first)] + rest.value)
  }

  // ---------------------------------------------------------------- the parser

  /** Steps 2 to 4, on the text and the map produced by step 1. */
  function ParseSubstituted(sub: Substitution): (r: Result<MetaData, MetaError>)
    ensures r.Success? ==> DistinctKeys(r.value)
  {
    var entries :- ValidateArguments(SplitOnWhitespace(sub.text));
    var values :- ClassifyEntries(entries, Resolve(sub.origin));
    Success(FromEntries(values))
  }

  /** The whole parser, step by step, as a specification. */
  function ParseCodeMetaData(input: string, gen: nat -> string): (r: Result<MetaData, MetaError>)
    ensures r.Success? ==> DistinctKeys(r.value)
  {
    ParseSubstituted(Substitute(Trim(input), gen))
  }

  /** Every key of a parsed record matches `[$A-Za-z0-9]+`. */
  lemma ParsedKeysValid(input: string, gen: nat -> string)
    ensures var r := ParseCodeMetaData(input, gen);
      r.Success? ==> forall i :: 0 <= i < |r.value| ==> IsValidKey(r.value[i].0)
  {
    var sub := Substitute(Trim(input), gen);
    var entries := ValidateArguments(SplitOnWhitespace(sub.text));
    if entries.Success? {
      var values := ClassifyEntries(entries.value, Resolve(sub.origin));
      if values.Success? {
        RecordKeysValid(entries.value, values.value);
        assert ParseSubstituted(sub) == Success(FromEntries(values.value));
      }
    }
  }

  lemma RecordKeysValid(entries: seq<(string, string)>, values: MetaData)
    requires forall i :: 0 <= i < |entries| ==> IsValidKey(entries[i].0)
    requires |values| == |entries| && forall i :: 0 <= i < |entries| ==> values[i].0 == entries[i].0
    ensures var record := FromEntries(values);
      forall i :: 0 <= i < |record| ==> IsValidKey(record[i].0)
  {
    var record := FromEntries(values);
    forall i | 0 <= i < |record|
      ensures IsValidKey(record[i].0)
    {
      assert Get(record, record[i].0).Some?;
      assert HasKey(values, record[i].0);
      var j :| 0 <= j < |values| && values[j].0 == record[i].0;
      assert values[j].0 == entries[j].0;
    }
  }

  /** `parseMarkdownCodeMetaData`: the map of spans is built and then
      rewritten in place, as the source does. */
  method ParseMarkdownCodeMetaData(input: string, gen: nat -> string) returns (r: Result<MetaData, MetaError>)
    ensures r == ParseCodeMetaData(input, gen)
  {
    var text, origin := SubstituteStrings(Trim(input), gen);
    var entries := ValidateArguments(SplitOnWhitespace(text));
    if entries.Failure? {
      return Failure(entries.error);
    }
    ghost var origin0 := origin;
    origin := ResolveNestedTokens(origin);
    var values := ClassifyEntries(entries.value, origin);
    if values.Failure? {
      return Failure(values.error);
    }
    assert ParseSubstituted(Substitution(text, origin0)) == Success(FromEntries(values.value));
    return Success(FromEntries(values.value));
  }

  /** Step 1: scan left to right, replacing each quoted span by the next token
      and recording it. */
  method SubstituteStrings(s: string, gen: nat -> string) returns (text: string, origin: StringMap)
    ensures Substitution(text, origin) == Substitute(s, gen)
  {
    text, origin := "", [];
    var i, k := 0, 0;
    while i < |s|
      invariant i <= |s|
      invariant SubstituteFrom(s, i, gen, k, Substitution(text, origin)) == Substitute(s, gen)
      decreases |s| - i
    {
      match QuotedSpanAt(s, i)
      case Some(e) =>
        var token := gen(k);
        origin := Set(origin, token, s[i..e]);
        text := text + token;
        k := k + 1;
        i := e;
      case None =>
        text := text + [s[i]];
        i := i + 1;
    }
  }

  /** Step 3: visit the entries in insertion order and overwrite each value
      with its tokens replaced. */
  method ResolveNestedTokens(m0: StringMap) returns (m: StringMap)
    ensures m == Resolve(m0)
  {
    m := m0;
    for idx := 0 to |m0|
      invariant |m| == |m0| && forall i :: 0 <= i < |m0| ==> m[i].0 == m0[i].0
      invariant ResolveFrom(m, idx) == Resolve(m0)
    {
      assert HasKey(m, m[idx].0);
      m := Set(m, m[idx].0, ReplaceTokens(m[idx].1, m));
    }
  }
}

/** Properties of the code-fence metadata parser. */
module CodeMetaDataProperties {
  import opened Wrappers
  import opened JsString
  import opened OrderedMap
  import opened CodeMetaData

  /** Leading and trailing whitespace never changes the result. */
  lemma TrimInsensitive(ws1: string, s: string, ws2: string, gen: nat -> string)
    requires AllWhitespace(ws1) && AllWhitespace(ws2)
    ensures ParseCodeMetaData(ws1 + s + ws2, gen) == ParseCodeMetaData(s, gen)
  {
    TrimIgnoresPadding(ws1, s, ws2);
  }

  /** Empty or whitespace-only input reports the empty key. */
  lemma EmptyInputIsInvalidKey(input: string, gen: nat -> string)
    requires AllWhitespace(input)
    ensures ParseCodeMetaData(input, gen) == Failure(InvalidKey(""))
  {
    TrimOfWhitespace(input);
    SubstituteUnquoted("", gen);
    SplitOnWhitespaceNone("");
  }

  predicate IsQuoteFree(s: string) {
    forall i :: 0 <= i < |s| ==> !IsQuote(s[i])
  }

  lemma QuoteFreeConcat(a: string, b: string)
    ensures IsQuoteFree(a + b) <==> IsQuoteFree(a) && IsQuoteFree(b)
  {
    assert forall i :: 0 <= i < |a| ==> (a + b)[i] == a[i];
    assert forall i :: 0 <= i < |b| ==> (a + b)[|a| + i] == b[i];
  }

  lemma NoWhitespaceConcat(a: string, b: string)
    ensures NoWhitespace(a + b) <==> NoWhitespace(a) && NoWhitespace(b)
  {
    assert forall i :: 0 <= i < |a| ==> (a + b)[i] == a[i];
    assert forall i :: 0 <= i < |b| ==> (a + b)[|a| + i] == b[i];
  }

  /** One argument without whitespace or quotes: the record has its one entry,
      or the argument's key/entry error, or the value's error. */
  lemma SingleArgument(arg: string, gen: nat -> string)
    requires arg != [] && NoWhitespace(arg) && IsQuoteFree(arg)
    ensures ParseCodeMetaData(arg, gen) ==
      match ParseArgument(arg)
      case Failure(e) => Failure(e)
      case Success(entry) =>
        match ClassifyValue(entry.1, [])
        case Failure(e) => Failure(e)
        case Success(v) => Success([(entry.0, v)])
  {
    TrimUnpadded(arg);
    SubstituteUnquoted(arg, gen);
    SplitOnWhitespaceNone(arg);
    assert ParseCodeMetaData(arg, gen) == ParseSubstituted(Substitution(arg, []));
    ValidateSingle(arg);
    assert Resolve([]) == [];
    match ParseArgument(arg)
    case Failure(e) =>
    case Success(entry) =>
      ClassifySingle(entry, []);
      var c := ClassifyValue(entry.1, []);
      if c.Success? {
        FromEntriesSingle(entry.0, c.value);
      }
  }

  lemma ValidateSingle(arg: string)
    ensures ValidateArguments([arg]) ==
      match ParseArgument(arg)
      case Failure(e) => Failure(e)
      case Success(entry) => Success([entry])
  {
    assert [arg][1..] == [];
    assert ValidateArguments([]) == Success([]);
    if ParseArgument(arg).Success? {
      assert [ParseArgument(arg).value] + [] == [ParseArgument(arg).value];
    }
  }

  lemma ClassifySingle(entry: (string, string), origin: StringMap)
    ensures ClassifyEntries([entry], origin) ==
      match ClassifyValue(entry.1, origin)
      case Failure(e) => Failure(e)
      case Success(v) => Success([(entry.0, v)])
  {
    assert [entry][1..] == [];
    assert ClassifyEntries([], origin) == Success([]);
    var c := ClassifyValue(entry.1, origin);
    if c.Success? {
      assert [(entry.0, c.value)] + [] == [(entry.0, c.value)];
    }
  }

  lemma FromEntriesSingle<V>(key: string, v: V)
    ensures FromEntries([(key, v)]) == [(key, v)]
  {
    assert [(key, v)][..0] == [];
  }

  /** A bare key stands for `true`. */
  lemma BareKeyIsTrue(key: string, gen: nat -> string)
    requires IsValidKey(key)
    ensures ParseCodeMetaData(key, gen) == Success([(key, MBoolean(true))])
  {
    KeyIsPlain(key);
    BareKeyArgument(key);
    TrueIsBoolean();
    SingleArgument(key, gen);
  }

  lemma BareKeyArgument(key: string)
    requires IsValidKey(key)
    ensures ParseArgument(key) == Success((key, "true"))
  {
    assert IndexOf(key, '=', 0) == |key| by {
      assert forall i :: 0 <= i < |key| ==> key[i] != '=';
    }
    assert key[..|key|] == key;
    assert '=' !in multiset(key);
  }

  lemma TrueIsBoolean()
    ensures ClassifyValue("true", []) == Success(MBoolean(true))
  {
    assert IsBooleanLiteral("true");
    ValueClassesDisjoint("true");
  }

  /** `key=value`, where the value holds no `=`, quote or whitespace. */
  lemma KeyValue(key: string, value: string, gen: nat -> string)
    requires IsValidKey(key) && PlainValue(value)
    ensures var r := ParseCodeMetaData(key + "=" + value, gen);
      && (IsNumberLiteral(value) ==> r == Success([(key, MNumber(NumberValue(value)))]))
      && (IsBooleanLiteral(value) ==> r == Success([(key, MBoolean(value == "true"))]))
      && (IsNullLiteral(value) ==> r == Success([(key, MNull)]))
      && (IsStringToken(value) ==> r == Success([(key, MString(""))]))
      && (!IsStringToken(value) && !IsNumberLiteral(value) && !IsBooleanLiteral(value) && !IsNullLiteral(value) ==>
            r == Failure(UnknownValueType(value)))
  {
    PlainKeyValue(key, value, gen);
    ValueClassesDisjoint(value);
    var c := ClassifyValue(value, []);
    if IsStringToken(value) {
      var none: StringMap := [];
      assert !HasKey(none, value);
      assert c == Success(MString(""));
    } else if IsNumberLiteral(value) {
      assert c.Success? && c.value.MNumber?;
    } else if IsBooleanLiteral(value) {
      assert c.Success? && c.value.MBoolean?;
    }
  }

  /** The one-entry record, or the classifier's error. */
  function SingleEntry(key: string, c: Result<MetaValue, MetaError>): Result<MetaData, MetaError> {
    match c
    case Failure(e) => Failure(e)
    case Success(v) => Success([(key, v)])
  }

  lemma PlainKeyValue(key: string, value: string, gen: nat -> string)
    requires IsValidKey(key) && PlainValue(value)
    ensures ParseCodeMetaData(key + "=" + value, gen) == SingleEntry(key, ClassifyValue(value, []))
  {
    var arg := key + "=" + value;
    PlainArgument(key, value);
    SingleArgument(arg, gen);
  }

  lemma KeyIsPlain(key: string)
    requires IsValidKey(key)
    ensures NoWhitespace(key) && IsQuoteFree(key) && forall i :: 0 <= i < |key| ==> key[i] != '='
  {
  }

  lemma KeyValueArgument(key: string, value: string)
    requires IsValidKey(key)
    requires forall i :: 0 <= i < |value| ==> value[i] != '='
    ensures ParseArgument(key + "=" + value) == Success((key, value))
  {
    var arg := key + "=" + value;
    assert forall k :: 0 <= k < |key| ==> key[k] != '=';
    SplitOnCharFirst(key, '=', value);
    SplitOnCharAbsent(value, '=');
    assert SplitOnChar(arg, '=') == [key, value];
    assert arg == key + ("=" + value);
    IndexOfAfter(key, "=" + value, '=');
    assert arg[|key| + 1..] == value;
  }

  /** The key is validated before the number of `=`: an invalid key is
      reported even when the argument also has too many `=`. */
  lemma InvalidKeyBeforeEntry(key: string, rest: string, gen: nat -> string)
    requires !IsValidKey(key) && forall i :: 0 <= i < |key| ==> key[i] != '='
    requires NoWhitespace(key + "=" + rest) && IsQuoteFree(key + "=" + rest)
    ensures ParseCodeMetaData(key + "=" + rest, gen) == Failure(InvalidKey(key))
  {
    var arg := key + "=" + rest;
    InvalidKeyArgument(key, rest);
    SingleArgument(arg, gen);
  }

  /** An invalid key followed by a quoted value is still reported as an
      invalid key: the quoted span becomes a token, and the key is checked
      before the value is looked at. */
  lemma InvalidKeyQuotedValue(key: string, q: char, t: string, gen: nat -> string)
    requires !IsValidKey(key) && forall i :: 0 <= i < |key| ==> key[i] != '='
    requires NoWhitespace(key) && IsQuoteFree(key)
    requires IsQuote(q) && QuoteBody(q, t) && IsStringToken(gen(0))
    ensures ParseCodeMetaData(key + "=" + [q] + t + [q], gen) == Failure(InvalidKey(key))
  {
    QuotedKeyInput(key, q, t, gen);
    InvalidKeyToken(key, gen(0), [(gen(0), [q] + t + [q])]);
  }

  /** Step 1 on `key="t"` for any quote- and whitespace-free key. */
  lemma QuotedKeyInput(key: string, q: char, t: string, gen: nat -> string)
    requires NoWhitespace(key) && IsQuoteFree(key)
    requires IsQuote(q) && QuoteBody(q, t)
    ensures ParseCodeMetaData(key + "=" + [q] + t + [q], gen) ==
            ParseSubstituted(Substitution(key + "=" + gen(0), [(gen(0), [q] + t + [q])]))
  {
    var input := key + "=" + [q] + t + [q];
    assert input[0] == (if key == [] then '=' else key[0]) && input[|input| - 1] == q;
    TrimUnpadded(input);
    QuotedSubstitution(key, q, t, gen);
  }

  /** Steps 2 to 4 on `key=<token>` stop at the invalid key. */
  lemma InvalidKeyToken(key: string, token: string, origin: StringMap)
    requires !IsValidKey(key) && forall i :: 0 <= i < |key| ==> key[i] != '='
    requires NoWhitespace(key) && IsStringToken(token)
    ensures ParseSubstituted(Substitution(key + "=" + token, origin)) == Failure(InvalidKey(key))
  {
    var text := key + "=" + token;
    TokenIsPlain(token);
    NoWhitespaceConcat(key, "=");
    NoWhitespaceConcat(key + "=", token);
    SplitOnWhitespaceNone(text);
    InvalidKeyArgument(key, token);
    ValidateSingle(text);
  }

  /** The documented input `invalid-key="value"` fails on its key. */
  lemma QuotedInvalidKey(gen: nat -> string)
    requires IsStringToken(gen(0))
    ensures ParseCodeMetaData("invalid-key=\"value\"", gen) == Failure(InvalidKey("invalid-key"))
  {
    var key := "invalid-key";
    assert !IsKeyChar(key[7]);
    assert key + "=" + ['"'] + "value" + ['"'] == "invalid-key=\"value\"";
    InvalidKeyQuotedValue(key, '"', "value", gen);
  }

  lemma InvalidKeyArgument(key: string, rest: string)
    requires !IsValidKey(key) && forall i :: 0 <= i < |key| ==> key[i] != '='
    ensures ParseArgument(key + "=" + rest) == Failure(InvalidKey(key))
  {
    var arg := key + "=" + rest;
    assert arg == key + ("=" + rest);
    IndexOfAfter(key, "=" + rest, '=');
  }

  /** A valid key followed by two `=` is an invalid entry, reported with the
      whole argument. */
  lemma TooManyEquals(key: string, a: string, b: string, gen: nat -> string)
    requires IsValidKey(key)
    requires NoWhitespace(key + "=" + a + "=" + b) && IsQuoteFree(key + "=" + a + "=" + b)
    ensures ParseCodeMetaData(key + "=" + a + "=" + b, gen) == Failure(InvalidEntry(key + "=" + a + "=" + b))
  {
    var arg := key + "=" + a + "=" + b;
    TooManyEqualsArgument(key, a, b);
    SingleArgument(arg, gen);
  }

  lemma TooManyEqualsArgument(key: string, a: string, b: string)
    requires IsValidKey(key)
    ensures ParseArgument(key + "=" + a + "=" + b) == Failure(InvalidEntry(key + "=" + a + "=" + b))
  {
    var rest := "=" + a + "=" + b;
    var arg := key + rest;
    assert key + "=" + a + "=" + b == arg;
    KeyIsPlain(key);
    IndexOfAfter(key, rest, '=');
    assert multiset(arg)['='] >= 2 by {
      assert arg == key + ['='] + a + ['='] + b;
      assert multiset(arg) == multiset(key) + multiset(['=']) + multiset(a) + multiset(['=']) + multiset(b);
    }
  }

  /** `t` can stand between two `q` quotes on one line. */
  predicate QuoteBody(q: char, t: string) {
    forall i :: 0 <= i < |t| ==> t[i] != q && !IsLineTerminator(t[i])
  }

  /** A quoted value keeps its inner text, including whitespace and `=`. */
  lemma QuotedValueKeepsInnerText(key: string, q: char, t: string, gen: nat -> string)
    requires IsValidKey(key) && IsQuote(q)
    requires QuoteBody(q, t)
    requires FreshTokens(gen, key + "=" + [q] + t + [q])
    ensures ParseCodeMetaData(key + "=" + [q] + t + [q], gen) == Success([(key, MString(t))])
  {
    QuotedValueWithToken(key, q, t, gen);
  }

  lemma QuotedValueWithToken(key: string, q: char, t: string, gen: nat -> string)
    requires IsValidKey(key) && IsQuote(q)
    requires QuoteBody(q, t)
    requires IsStringToken(gen(0)) && !Contains(key + "=" + [q] + t + [q], gen(0))
    ensures ParseCodeMetaData(key + "=" + [q] + t + [q], gen) == Success([(key, MString(t))])
  {
    var input := key + "=" + [q] + t + [q];
    var span := [q] + t + [q];
    var token := gen(0);
    QuotedInputUntrimmed(key, q, t);
    KeyIsPlain(key);
    QuotedSubstitution(key, q, t, gen);
    SpanHoldsNoToken(key, q, t, token);
    ParseKeyToken(key, token, span);
    assert Unquote(span) == t;
    ComposeParse(input, gen, Substitution(key + "=" + token, [(token, span)]), Success([(key, MString(t))]));
  }

  lemma ParseSubstitutedSuccess(sub: Substitution, entries: seq<(string, string)>, values: MetaData)
    requires ValidateArguments(SplitOnWhitespace(sub.text)) == Success(entries)
    requires ClassifyEntries(entries, Resolve(sub.origin)) == Success(values)
    ensures ParseSubstituted(sub) == Success(FromEntries(values))
  {
  }

  lemma ComposeParse(input: string, gen: nat -> string, sub: Substitution, r: Result<MetaData, MetaError>)
    requires Trim(input) == input && Substitute(input, gen) == sub && ParseSubstituted(sub) == r
    ensures ParseCodeMetaData(input, gen) == r
  {
  }

  lemma QuotedInputUntrimmed(key: string, q: char, t: string)
    requires IsValidKey(key) && IsQuote(q)
    ensures Trim(key + "=" + [q] + t + [q]) == key + "=" + [q] + t + [q]
  {
    var input := key + "=" + [q] + t + [q];
    assert input[0] == key[0] && input[|input| - 1] == q;
    TrimUnpadded(input);
  }

  lemma SpanHoldsNoToken(key: string, q: char, t: string, token: string)
    requires !Contains(key + "=" + [q] + t + [q], token)
    ensures !Contains([q] + t + [q], token)
  {
    var input := key + "=" + [q] + t + [q];
    var span := [q] + t + [q];
    assert input == (key + "=") + span;
    assert input[|key| + 1..|input|] == span;
    if Contains(span, token) {
      ContainsInSlice(input, |key| + 1, |input|, token);
    }
  }

  /** Steps 2 to 4 on `key=<token>` with the token's span recorded. */
  lemma ParseKeyToken(key: string, token: string, span: string)
    requires IsValidKey(key) && IsStringToken(token) && !Contains(span, token)
    ensures ParseSubstituted(Substitution(key + "=" + token, [(token, span)])) ==
            Success([(key, MString(Unquote(span)))])
  {
    var text := key + "=" + token;
    var origin := [(token, span)];
    TokenIsPlain(token);
    KeyIsPlain(key);
    NoWhitespaceConcat(key, "=");
    NoWhitespaceConcat(key + "=", token);
    SplitOnWhitespaceNone(text);
    KeyValueArgument(key, token);
    ValidateSingle(text);
    assert forall p, p' :: p in origin && p' in origin ==> !Contains(p.1, p'.0);
    ResolveFromIdentity(origin, 0);
    assert HasKey(origin, token) && Get(origin, token) == Some(span);
    ClassifySingle((key, token), origin);
    FromEntriesSingle(key, MString(Unquote(span)));
  }

  /** Step 1 on `key="t"`: the one quoted span becomes the first token. */
  lemma QuotedSubstitution(key: string, q: char, t: string, gen: nat -> string)
    requires IsQuoteFree(key) && IsQuote(q)
    requires QuoteBody(q, t)
    ensures Substitute(key + "=" + [q] + t + [q], gen) ==
            Substitution(key + "=" + gen(0), [(gen(0), [q] + t + [q])])
  {
    var input := key + "=" + [q] + t + [q];
    var i := |key| + 1;
    var span := [q] + t + [q];
    QuotedPrefix(key, q, t, gen);
    QuotedSpan(key, q, t);
    var acc := Substitution(key + "=", []);
    assert Set(acc.origin, gen(0), span) == [(gen(0), span)];
    calc {
      Substitute(input, gen);
      SubstituteFrom(input, i, gen, 0, acc);
      SubstituteFrom(input, |input|, gen, 1, Substitution(acc.text + gen(0), Set(acc.origin, gen(0), span)));
      Substitution(key + "=" + gen(0), [(gen(0), span)]);
    }
  }

  /** The key and the `=` before the quote are copied. */
  lemma QuotedPrefix(key: string, q: char, t: string, gen: nat -> string)
    requires IsQuoteFree(key)
    ensures var input := key + "=" + [q] + t + [q];
      Substitute(input, gen) == SubstituteFrom(input, |key| + 1, gen, 0, Substitution(key + "=", []))
  {
    var pre, rest := key + "=", [q] + t + [q];
    QuoteFreeConcat(key, "=");
    QuotedInputSplit(key, q, t);
    SubstituteUnquotedPrefix(pre, rest, gen);
  }

  lemma QuotedInputSplit(key: string, q: char, t: string)
    ensures key + "=" + [q] + t + [q] == (key + "=") + ([q] + t + [q])
  {
  }

  /** A quote-free beginning is copied before anything else happens. */
  lemma SubstituteUnquotedPrefix(pre: string, rest: string, gen: nat -> string)
    requires forall x :: 0 <= x < |pre| ==> !IsQuote(pre[x])
    ensures Substitute(pre + rest, gen) == SubstituteFrom(pre + rest, |pre|, gen, 0, Substitution(pre, []))
  {
    var input := pre + rest;
    assert forall x :: 0 <= x < |pre| ==> input[x] == pre[x];
    SubstituteSkip(input, 0, |pre|, gen, 0, Substitution("", []));
    assert input[0..|pre|] == pre;
    assert "" + pre == pre;
  }

  /** The quoted span starts right after the `=` and runs to the end. */
  lemma QuotedSpan(key: string, q: char, t: string)
    requires IsQuote(q) && QuoteBody(q, t)
    ensures var input := key + "=" + [q] + t + [q];
      |key| + 1 < |input| && QuotedSpanAt(input, |key| + 1) == Some(|input|) &&
      input[|key| + 1..|input|] == [q] + t + [q]
  {
    var input := key + "=" + [q] + t + [q];
    var i := |key| + 1;
    var pre, quoted := key + "=", [q] + t + [q];
    assert input == pre + quoted;
    assert (pre + quoted)[|pre|..] == quoted;
    assert input[i] == q;
    assert input[|input| - 1] == q;
    assert forall k :: i + 1 <= k < |input| - 1 ==> input[k] == t[k - i - 1];
    ClosingQuoteFound(input, q, i + 1, |input| - 1);
  }

  /** A placeholder token holds no whitespace, quote or `=`. */
  lemma TokenIsPlain(token: string)
    requires IsStringToken(token)
    ensures NoWhitespace(token) && IsQuoteFree(token) && forall i :: 0 <= i < |token| ==> token[i] != '='
  {
    forall x | 0 <= x < |token|
      ensures token[x] != '=' && !IsWhitespace(token[x]) && !IsQuote(token[x])
    {
      if x < 2 {
        assert token[x] == token[..2][x];
      } else if x >= |token| - 2 {
        assert token[x] == token[|token| - 2..][x - (|token| - 2)];
      }
    }
  }

  /** With a repeated key the later value wins: `key=v1 key=v2` parses as
      `key=v2` alone. */
  lemma LaterDuplicateWins(key: string, v1: string, v2: string, gen: nat -> string)
    requires IsValidKey(key) && PlainValue(v1) && PlainValue(v2)
    requires ClassifyValue(v1, []).Success? && ClassifyValue(v2, []).Success?
    ensures ParseCodeMetaData((key + "=" + v1) + " " + (key + "=" + v2), gen) == ParseCodeMetaData(key + "=" + v2, gen)
  {
    var a1, a2 := key + "=" + v1, key + "=" + v2;
    var input := a1 + " " + a2;
    var r := Success([(key, ClassifyValue(v2, []).value)]);
    assert ParseCodeMetaData(input, gen) == r by {
      PlainArgument(key, v1);
      PlainArgument(key, v2);
      TwoArguments(a1, a2, gen);
      DuplicateSteps(key, v1, v2, input);
      ComposeParse(input, gen, Substitution(input, []), r);
    }
    assert ParseCodeMetaData(a2, gen) == r by {
      PlainArgument(key, v2);
      SingleArgument(a2, gen);
    }
  }

  lemma DuplicateSteps(key: string, v1: string, v2: string, input: string)
    requires ClassifyValue(v1, []).Success? && ClassifyValue(v2, []).Success?
    requires SplitOnWhitespace(input) == [key + "=" + v1, key + "=" + v2]
    requires ParseArgument(key + "=" + v1) == Success((key, v1))
    requires ParseArgument(key + "=" + v2) == Success((key, v2))
    ensures ParseSubstituted(Substitution(input, [])) == Success([(key, ClassifyValue(v2, []).value)])
  {
    var c1, c2 := ClassifyValue(v1, []).value, ClassifyValue(v2, []).value;
    ValidatePair(key + "=" + v1, key + "=" + v2);
    assert Resolve([]) == [];
    ClassifyPair((key, v1), (key, v2), []);
    FromEntriesPair(key, c1, c2);
    ParseSubstitutedSuccess(Substitution(input, []), [(key, v1), (key, v2)], [(key, c1), (key, c2)]);
  }

  /** A value with no whitespace, quote or `=`. */
  predicate PlainValue(v: string) {
    v != [] && NoWhitespace(v) && IsQuoteFree(v) && forall i :: 0 <= i < |v| ==> v[i] != '='
  }

  lemma PlainArgument(key: string, value: string)
    requires IsValidKey(key) && PlainValue(value)
    ensures var arg := key + "=" + value;
      arg != [] && NoWhitespace(arg) && IsQuoteFree(arg) && ParseArgument(arg) == Success((key, value))
  {
    KeyValueArgument(key, value);
    KeyIsPlain(key);
    NoWhitespaceConcat(key, "=");
    NoWhitespaceConcat(key + "=", value);
    QuoteFreeConcat(key, "=");
    QuoteFreeConcat(key + "=", value);
  }

  /** Two plain arguments separated by one space pass step 1 unchanged and
      split into those two. */
  lemma TwoArguments(a1: string, a2: string, gen: nat -> string)
    requires a1 != [] && a2 != []
    requires NoWhitespace(a1) && IsQuoteFree(a1) && NoWhitespace(a2) && IsQuoteFree(a2)
    ensures var input := a1 + " " + a2;
      Trim(input) == input && Substitute(input, gen) == Substitution(input, []) &&
      SplitOnWhitespace(input) == [a1, a2]
  {
    var input := a1 + " " + a2;
    QuoteFreeConcat(a1, " ");
    QuoteFreeConcat(a1 + " ", a2);
    assert input[0] == a1[0] && input[|input| - 1] == a2[|a2| - 1];
    TrimUnpadded(input);
    SubstituteUnquoted(input, gen);
    SplitOnWhitespaceFirst(a1, " ", a2);
    SplitOnWhitespaceNone(a2);
  }

  lemma ValidatePair(a1: string, a2: string)
    requires ParseArgument(a1).Success? && ParseArgument(a2).Success?
    ensures ValidateArguments([a1, a2]) == Success([ParseArgument(a1).value, ParseArgument(a2).value])
  {
    assert [a1, a2][1..] == [a2];
    ValidateSingle(a2);
    var x, y := ParseArgument(a1).value, ParseArgument(a2).value;
    assert ValidateArguments([a2]) == Success([y]);
    assert [x] + [y] == [x, y];
  }

  lemma ClassifyPair(e1: (string, string), e2: (string, string), origin: StringMap)
    requires ClassifyValue(e1.1, origin).Success? && ClassifyValue(e2.1, origin).Success?
    ensures ClassifyEntries([e1, e2], origin) ==
            Success([(e1.0, ClassifyValue(e1.1, origin).value), (e2.0, ClassifyValue(e2.1, origin).value)])
  {
    assert [e1, e2][1..] == [e2];
    ClassifySingle(e2, origin);
    var x, y := (e1.0, ClassifyValue(e1.1, origin).value), (e2.0, ClassifyValue(e2.1, origin).value);
    assert ClassifyEntries([e2], origin) == Success([y]);
    assert [x] + [y] == [x, y];
  }

  lemma FromEntriesPair<V>(key: string, v1: V, v2: V)
    ensures FromEntries([(key, v1), (key, v2)]) == [(key, v2)]
  {
    assert [(key, v1), (key, v2)][..1] == [(key, v1)];
    FromEntriesSingle(key, v1);
  }

  /** All arguments are validated before any value is classified: when some
      argument is malformed, the error is the first malformed argument's,
      whatever the values are. */
  lemma EntryErrorsFirst(input: string, gen: nat -> string, i: nat)
    requires var args := SplitOnWhitespace(Substitute(Trim(input), gen).text);
      i < |args| && ParseArgument(args[i]).Failure? &&
      forall j :: 0 <= j < i ==> ParseArgument(args[j]).Success?
    ensures var args := SplitOnWhitespace(Substitute(Trim(input), gen).text);
      ParseCodeMetaData(input, gen) == Failure(ParseArgument(args[i]).error)
  {
    var args := SplitOnWhitespace(Substitute(Trim(input), gen).text);
    var v := ValidateArguments(args);
    assert v.Failure?;
    var i' :| 0 <= i' < |args| && ParseArgument(args[i']) == Failure(v.error) &&
              forall j :: 0 <= j < i' ==> ParseArgument(args[j]).Success?;
    assert i' == i;
  }

  /** An unknown value is reported only when every argument is well formed. */
  lemma UnknownValueAfterValidation(input: string, gen: nat -> string, value: string)
    requires ParseCodeMetaData(input, gen) == Failure(UnknownValueType(value))
    ensures var args := SplitOnWhitespace(Substitute(Trim(input), gen).text);
      forall j :: 0 <= j < |args| ==> ParseArgument(args[j]).Success?
  {
  }

  /** A quoted value holding whitespace or `=` beside a plain argument, as in
      `widget="Example" count=5`: the quoted text is kept whole, and the second
      argument is classified on its own, or its unknown value is reported. */
  lemma QuotedThenPlain(k1: string, q: char, t: string, k2: string, v: string, gen: nat -> string)
    requires IsValidKey(k1) && IsQuote(q) && QuoteBody(q, t)
    requires IsValidKey(k2) && k1 != k2 && PlainValue(v) && !IsStringToken(v)
    requires IsStringToken(gen(0)) && !Contains(k1 + "=" + [q] + t + [q] + " " + k2 + "=" + v, gen(0))
    ensures ParseCodeMetaData(k1 + "=" + [q] + t + [q] + " " + k2 + "=" + v, gen) ==
      match ClassifyValue(v, [])
      case Failure(e) => Failure(e)
      case Success(c) => Success([(k1, MString(t)), (k2, c)])
  {
    var input := k1 + "=" + [q] + t + [q] + " " + k2 + "=" + v;
    var rest := " " + k2 + "=" + v;
    QuotedThenPlainSplit(k1, q, t, k2, v);
    QuotedThenPlainUntrimmed(k1, q, t, k2, v);
    PlainRest(k2, v);
    var sub := QuotedThenUnquoted(k1, q, t, rest, gen);
    QuotedSpanHoldsNoToken(k1 + "=", [q] + t + [q], " " + k2 + "=" + v, gen(0));
    var r := QuotedThenPlainRest(k1, q, t, k2, v, gen(0));
    ComposeParse(input, gen, sub, r);
  }

  lemma QuotedThenPlainSplit(k1: string, q: char, t: string, k2: string, v: string)
    ensures k1 + "=" + [q] + t + [q] + " " + k2 + "=" + v == k1 + "=" + [q] + t + [q] + (" " + k2 + "=" + v)
    ensures k1 + "=" + [q] + t + [q] + " " + k2 + "=" + v == (k1 + "=") + ([q] + t + [q]) + (" " + k2 + "=" + v)
  {
  }

  lemma QuotedThenPlainUntrimmed(k1: string, q: char, t: string, k2: string, v: string)
    requires IsValidKey(k1) && PlainValue(v)
    ensures var input := k1 + "=" + [q] + t + [q] + " " + k2 + "=" + v;
      Trim(input) == input
  {
    var input := k1 + "=" + [q] + t + [q] + " " + k2 + "=" + v;
    assert input[0] == k1[0];
    assert input[|input| - 1] == v[|v| - 1];
    TrimUnpadded(input);
  }

  lemma PlainRest(k2: string, v: string)
    requires IsValidKey(k2) && PlainValue(v)
    ensures IsQuoteFree(" " + k2 + "=" + v)
  {
    PlainArgument(k2, v);
    QuoteFreeConcat(" ", k2 + "=" + v);
    assert " " + k2 + "=" + v == " " + (k2 + "=" + v);
  }

  /** Steps 2 to 4 on `k1=<token> k2=v`, the token standing for `"t"`. */
  lemma QuotedThenPlainRest(k1: string, q: char, t: string, k2: string, v: string, token: string)
    returns (r: Result<MetaData, MetaError>)
    requires IsValidKey(k1) && IsQuote(q) && IsStringToken(token) && !Contains([q] + t + [q], token)
    requires IsValidKey(k2) && k1 != k2 && PlainValue(v) && !IsStringToken(v)
    ensures ParseSubstituted(Substitution(k1 + "=" + token + (" " + k2 + "=" + v), [(token, [q] + t + [q])])) == r
    ensures r == match ClassifyValue(v, [])
      case Failure(e) => Failure(e)
      case Success(c) => Success([(k1, MString(t)), (k2, c)])
  {
    var span := [q] + t + [q];
    var a2 := k2 + "=" + v;
    assert " " + k2 + "=" + v == " " + a2;
    var origin := [(token, span)];
    var sub := Substitution(k1 + "=" + token + (" " + a2), origin);
    PlainArgument(k2, v);
    var entries := QuotedThenPlainEntries(k1, token, a2, k2, v);
    assert Resolve(origin) == origin by {
      assert forall p, p' :: p in origin && p' in origin ==> !Contains(p.1, p'.0);
      ResolveFromIdentity(origin, 0);
    }
    assert ClassifyValue(token, origin) == Success(MString(t)) by {
      assert HasKey(origin, token) && Get(origin, token) == Some(span);
      assert Unquote(span) == t;
    }
    assert ClassifyValue(v, origin) == ClassifyValue(v, []);
    match ClassifyValue(v, [])
    case Failure(e) =>
      assert ClassifyEntries(entries, origin) == Failure(e) by {
        assert entries[1..] == [(k2, v)];
        ClassifySingle((k2, v), origin);
      }
      r := Failure(e);
    case Success(c) =>
      ClassifyPair((k1, token), (k2, v), origin);
      FromEntriesDistinctPair(k1, MString(t), k2, c);
      ParseSubstitutedSuccess(sub, entries, [(k1, MString(t)), (k2, c)]);
      r := Success([(k1, MString(t)), (k2, c)]);
  }

  /** Step 2 on `key=<token> arg`: two arguments, in that order. */
  lemma QuotedThenPlainEntries(k1: string, token: string, a2: string, k2: string, v: string)
    returns (entries: seq<(string, string)>)
    requires IsValidKey(k1) && IsStringToken(token) && a2 == k2 + "=" + v
    requires a2 != [] && NoWhitespace(a2) && ParseArgument(a2) == Success((k2, v))
    ensures entries == [(k1, token), (k2, v)]
    ensures ValidateArguments(SplitOnWhitespace(k1 + "=" + token + (" " + a2))) == Success(entries)
  {
    entries := [(k1, token), (k2, v)];
    var a1 := k1 + "=" + token;
    TokenIsPlain(token);
    KeyIsPlain(k1);
    NoWhitespaceConcat(k1, "=");
    NoWhitespaceConcat(k1 + "=", token);
    assert a1 + (" " + a2) == a1 + " " + a2;
    SplitOnWhitespaceFirst(a1, " ", a2);
    SplitOnWhitespaceNone(a2);
    assert [a1] + [a2] == [a1, a2];
    KeyValueArgument(k1, token);
    ValidatePair(a1, a2);
  }

  /** Step 1 on `key="t"` followed by quote-free text: the span becomes the
      first token and the rest is copied. */
  lemma QuotedThenUnquoted(key: string, q: char, t: string, rest: string, gen: nat -> string) returns (sub: Substitution)
    requires IsValidKey(key) && IsQuote(q) && QuoteBody(q, t) && IsQuoteFree(rest)
    ensures sub == Substitution(key + "=" + gen(0) + rest, [(gen(0), [q] + t + [q])])
    ensures Substitute(key + "=" + [q] + t + [q] + rest, gen) == sub
  {
    sub := Substitution(key + "=" + gen(0) + rest, [(gen(0), [q] + t + [q])]);
    var pre, span := key + "=", [q] + t + [q];
    var input := key + "=" + [q] + t + [q] + rest;
    QuotedPrefixBefore(key, q, t, rest, gen);
    var i, e := |pre|, |pre| + |span|;
    QuotedSpanBefore(key, q, t, rest);
    var acc := Substitution(pre + gen(0), [(gen(0), span)]);
    assert Set([], gen(0), span) == [(gen(0), span)];
    assert SubstituteFrom(input, i, gen, 0, Substitution(pre, [])) == SubstituteFrom(input, e, gen, 1, acc);
    RestCopied(input, e, rest, gen, acc);
  }

  lemma RestCopied(input: string, e: nat, rest: string, gen: nat -> string, acc: Substitution)
    requires e + |rest| == |input| && input[e..] == rest && IsQuoteFree(rest)
    ensures SubstituteFrom(input, e, gen, 1, acc) == Substitution(acc.text + rest, acc.origin)
  {
    assert forall x :: e <= x < |input| ==> input[x] == rest[x - e];
    SubstituteSkip(input, e, |input|, gen, 1, acc);
    assert input[e..|input|] == rest;
  }

  /** The key and the `=` before a quote are copied. */
  lemma QuotedPrefixBefore(key: string, q: char, t: string, rest: string, gen: nat -> string)
    requires IsValidKey(key)
    ensures var input := key + "=" + [q] + t + [q] + rest;
      Substitute(input, gen) == SubstituteFrom(input, |key| + 1, gen, 0, Substitution(key + "=", []))
  {
    var pre := key + "=";
    KeyIsPlain(key);
    assert forall x :: 0 <= x < |pre| ==> !IsQuote(pre[x]) by {
      assert forall x :: 0 <= x < |key| ==> pre[x] == key[x];
    }
    assert key + "=" + [q] + t + [q] + rest == pre + ([q] + t + [q] + rest);
    SubstituteUnquotedPrefix(pre, [q] + t + [q] + rest, gen);
  }

  /** The quoted span starts right after the `=` and ends at its closing quote. */
  lemma QuotedSpanBefore(key: string, q: char, t: string, rest: string)
    requires IsQuote(q) && QuoteBody(q, t)
    ensures var input := key + "=" + [q] + t + [q] + rest;
      var e := |key| + 3 + |t|;
      e + |rest| == |input| && QuotedSpanAt(input, |key| + 1) == Some(e) &&
      input[|key| + 1..e] == [q] + t + [q] && input[e..] == rest
  {
    var input := key + "=" + [q] + t + [q] + rest;
    var i, e := |key| + 1, |key| + 3 + |t|;
    var pre, quoted := key + "=", [q] + t + [q];
    assert input == pre + quoted + rest;
    assert input[i..e] == quoted;
    assert input[e..] == rest;
    assert input[i] == q;
    assert input[e - 1] == q;
    assert forall k :: i + 1 <= k < e - 1 ==> input[k] == t[k - i - 1];
    ClosingQuoteFound(input, q, i + 1, e - 1);
  }

  lemma QuotedSpanHoldsNoToken(pre: string, span: string, rest: string, token: string)
    requires !Contains(pre + span + rest, token)
    ensures !Contains(span, token)
  {
    var input := pre + span + rest;
    assert input[|pre|..|pre| + |span|] == span;
    if Contains(span, token) {
      ContainsInSlice(input, |pre|, |pre| + |span|, token);
    }
  }

  lemma FromEntriesDistinctPair<V>(k1: string, v1: V, k2: string, v2: V)
    requires k1 != k2
    ensures FromEntries([(k1, v1), (k2, v2)]) == [(k1, v1), (k2, v2)]
  {
    assert [(k1, v1), (k2, v2)][..1] == [(k1, v1)];
    FromEntriesSingle(k1, v1);
    assert !HasKey([(k1, v1)], k2);
  }
}
