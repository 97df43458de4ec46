# webeach-pages-builder, modelled in Dafny

webeach-pages-builder turns a documentation site into JSON. A YAML structure file lists pages: an entity id, a route (a path, optionally with aliases) and a reference to a page file. `buildAllPages` walks the list. For each page it computes a version-5 UUID from the route and the id, records the main route and one linked entry per alias in `structure.json`, and calls `buildPage`. `buildPage` reads the page file and writes one `pages/<uuid>/<lang>.json` per allowed language (`en`, `ru`). Each file holds the page metadata, that language's properties, and the Markdown content parsed by `parseMarkdownContent`. That parser is a chain of remark passes:

1. `remarkCodeMetaData` parses a fence's `meta` string (`key="text" n=42 flag`) with `parseMarkdownCodeMetaData`.
2. `remarkWidget` turns a `yaml` fence whose metadata names a `widget` into a widget node.
3. `remarkCodeToHtml` highlights every remaining code block, or warns that its language is unknown.
4. `remarkSection` groups the content under `##`… headings into nested sections.

Positions are stripped at the end. The small utilities are modelled too:

- HTML escaping;
- ANSI colouring of log lines;
- the route and entity-id patterns;
- route normalisation.

The model is split by source file:

- **Pure source code** becomes datatypes, functions and lemmas.
- **Loops** become methods with loop invariants, proved equal to the reference functions: the token substitution and nested-token resolution in `parseMarkdownCodeMetaData`, the section stack in `remarkSection`, the page loop in `buildAllPages`, the language loop in `buildPage`, and the tree walk of `unist-util-visit`.
- **Parameters** replace everything the core calls but does not define: the random token generator, the YAML decoder, the syntax highlighter, the UUID function, the page-file reader and the Markdown file reader. Both readers can fail, and a failure stops the build as the thrown error does in the source.

Module layout:

| module | file | models |
|---|---|---|
| `Wrappers` | wrappers.dfy | `Option`, `Result` |
| `JsString` | js_string.dfy | `trim`, `split(/\s+/)`, `split('=')`, `indexOf`, decimal printing |
| `OrderedMap` | ordered_map.dfy | insertion-ordered `Map` and `Object.fromEntries` |
| `SegmentPattern` | segment_pattern.dfy | the shared regular-expression shape `C+(?:S C+)*` |
| `CodeMetaData`, `CodeMetaDataProperties` | code_meta_data.dfy | `parseMarkdownCodeMetaData` and its properties |
| `Mdast` | mdast.dfy | the Markdown tree, leaves, shape, `removePosition` |
| `CodeVisitor` | code_visitor.dfy | `visit(tree, 'code', …)` |
| `RemarkCodeMetaData`, `RemarkWidget`, `RemarkCodeToHtml`, `RemarkSection`, `RemarkSectionExamples` | remark_*.dfy | the four plugins |
| `ParseMarkdownContent` | parse_markdown_content.dfy | the plugin chain |
| `ParseMarkdownFile` | parse_markdown_file.dfy | `parseMarkdownFile` and its errors |
| `EscapeHtml`, `AnsiColor`, `CommonConstants`, `PageRouteSchema`, `NormalizePageRoute` | | the utilities |
| `BuildPage`, `BuildAllPages` | build_page.dfy, build_all_pages.dfy | the two build functions |

## Model

| member | source | states |
|---|---|---|
| JsString.Trim | src/functions/parseMarkdownCodeMetaData.ts:46-47 | The result starts and ends with non-whitespace (or is empty). |
| JsString.TrimStart | src/functions/parseMarkdownCodeMetaData.ts:47 | The result is a suffix of the input, and only whitespace was removed before it. |
| JsString.TrimEnd | src/functions/parseMarkdownCodeMetaData.ts:47 | The result is a prefix of the input, and only whitespace was removed after it. |
| JsString.TrimIsSlice | src/functions/parseMarkdownCodeMetaData.ts:47 | `trim()` returns a contiguous slice of its input, with only whitespace on either side. |
| JsString.TrimIgnoresPadding | src/functions/parseMarkdownCodeMetaData.ts:47 | Adding whitespace on either side does not change the trimmed string. |
| JsString.TrimOfWhitespace | src/functions/parseMarkdownCodeMetaData.ts:47 | A string of whitespace only trims to the empty string. |
| JsString.TrimUnpadded | src/functions/parseMarkdownCodeMetaData.ts:47 | A string that neither starts nor ends with whitespace is unchanged by `trim()`. |
| JsString.TrimStartPrefix | src/functions/parseMarkdownCodeMetaData.ts:47 | Leading whitespace does not affect `trimStart`. |
| JsString.TrimEndSuffix | src/functions/parseMarkdownCodeMetaData.ts:47 | Trailing whitespace does not affect `trimEnd`. |
| JsString.IndexOf | src/functions/parseMarkdownCodeMetaData.ts:58-60 | The first occurrence of the character at or after `from`, or the length when there is none. |
| JsString.SplitOnChar | src/functions/parseMarkdownCodeMetaData.ts:58-60 | `split('=')` yields at least one fragment, and the first is the text before the first `=`. |
| JsString.SplitOnCharCount | src/functions/parseMarkdownCodeMetaData.ts:58-73 | `split('=')` yields exactly one more fragment than the argument has `=` characters. |
| JsString.SplitOnCharFirst | src/functions/parseMarkdownCodeMetaData.ts:58 | Splitting `a=b` (with `a` free of `=`) gives `a` followed by the fragments of `b`. |
| JsString.SplitOnCharAbsent | src/functions/parseMarkdownCodeMetaData.ts:58 | A string without `=` splits into itself alone. |
| JsString.SplitOnWhitespace | src/functions/parseMarkdownCodeMetaData.ts:55-56 | No fragment of `split(/\s+/)` contains whitespace. |
| JsString.SplitOnWhitespaceNone | src/functions/parseMarkdownCodeMetaData.ts:55-56 | A string without whitespace is one fragment. |
| JsString.SplitOnWhitespaceFirst | src/functions/parseMarkdownCodeMetaData.ts:55-56 | A whitespace run of any length separates exactly two neighbouring fragments. |
| JsString.DecimalString | src/modules/ProgressLogger/utils/applyAnsiColor.ts:35 | Template interpolation of a number: one or more digits, and no leading zero. |
| OrderedMap.Get | src/functions/parseMarkdownCodeMetaData.ts:85-96 | `map.get(key)` finds a value exactly when the key is present. |
| OrderedMap.GetFound | src/functions/parseMarkdownCodeMetaData.ts:85-96 | The value found is stored under that key, and with distinct keys it is the value of any entry with that key. |
| OrderedMap.Set | src/functions/parseMarkdownCodeMetaData.ts:79-89 | `map.set(key, v)` replaces in place when the key is present and appends otherwise. The key then maps to `v`, no other key changes, and keys stay distinct. |
| OrderedMap.FromEntries | src/functions/parseMarkdownCodeMetaData.ts:92-117 | `Object.fromEntries` has distinct keys, and each key maps to the last value given for it. |
| OrderedMap.FromEntriesOrder | src/functions/parseMarkdownCodeMetaData.ts:92-117 | The keys of `Object.fromEntries` appear in the order of their first occurrence in the input. |
| OrderedMap.LastValue | src/functions/parseMarkdownCodeMetaData.ts:92 | The reference for `fromEntries`: present exactly when the key occurs, and equal to the value of its last occurrence. |
| OrderedMap.ConsDistinct | src/functions/parseMarkdownCodeMetaData.ts:92 | A record with one more entry in front has distinct keys exactly when the rest does and lacks that key. |
| SegmentPattern.MatchesIsDelimited | src/constants/common.ts:33 | The automaton for `^C+(?:S C+)*$` accepts exactly the strings that are non-empty, neither start nor end with the separator, have no doubled separator, and hold only separators and class characters. |
| SegmentPattern.ScanAccepts | src/constants/common.ts:33 | From either state, the automaton accepts exactly the strings its state-dependent description allows. |
| SegmentPattern.AddSegment | src/schemas/pageRouteSchema.ts:4 | Adding a separator and a non-empty run keeps a matching string matching, and a string that does not match stays unmatched. |
| SegmentPattern.OneSegment | src/constants/common.ts:33 | A non-empty run of class characters is accepted alone. |
| CommonConstants.AllowedLanguagesAre | src/constants/common.ts:9 | The allowed languages are exactly `en` and `ru`. |
| CommonConstants.IsEntityId | src/constants/common.ts:33 | Definition: `ENTITY_ID_PATTERN` as the segment automaton over `[\w-]` with `.` as separator. Its meaning is stated by `EntityIdShape`. |
| CommonConstants.EntityIdShape | src/constants/common.ts:11-33 | `ENTITY_ID_PATTERN` accepts exactly the non-empty strings of word characters, `-` and `.` that neither start nor end with `.` and have no `..`. |
| CommonConstants.RejectedIds | src/constants/common.ts:26-31 | The empty string, a leading dot, a trailing dot and a double dot are all rejected. |
| CommonConstants.EntityIdSegments | src/constants/common.ts:33 | One segment is an id, and appending `.segment` accepts exactly when the prefix is an id. |
| CommonConstants.ExampleIds | src/constants/common.ts:18-24 | `page-1`, `article_42`, `docs.section1` and `product-category.sub-category` are ids. |
| CommonConstants.TwoSegments | src/constants/common.ts:33 | Two segments joined by a dot form an id. |
| PageRouteSchema.RoutePathShape | src/schemas/pageRouteSchema.ts:4-25 | A route path starts with `/`, does not end with one, has no `//`, and otherwise holds only lowercase letters, digits and `-`. The equivalence holds in both directions. |
| PageRouteSchema.IsRoutePath | src/schemas/pageRouteSchema.ts:4 | Definition: `PAGE_ROUTE_PATTERN` as a leading `/` then the segment automaton over `[a-z0-9-]` with `/` as separator. Its meaning is stated by `RoutePathShape`. |
| PageRouteSchema.RejectedPaths | src/schemas/pageRouteSchema.ts:4-11 | `/`, any path ending in `/` and any path with `//` are rejected. |
| PageRouteSchema.RoutePathSegments | src/schemas/pageRouteSchema.ts:4 | `/segment` is a route, and appending `/segment` accepts exactly when the prefix is a route. |
| PageRouteSchema.ExamplePaths | src/schemas/pageRouteSchema.ts:13-18 | `/html`, `/html/div` and `/css/background-color` are route paths. |
| PageRouteSchema.Path2 | src/schemas/pageRouteSchema.ts:4 | `/a` and `/a/b` are route paths for any non-empty segments `a` and `b`. |
| NormalizePageRoute.NormalizePageRoute | src/utils/normalizePageRoute.ts:27-43 | The path is kept, and a string route gets no aliases. |
| NormalizePageRoute.NormalizeCases | src/utils/normalizePageRoute.ts:27-43 | The path is kept. A string route gets no aliases, given aliases are kept, and missing aliases become empty. |
| NormalizePageRoute.NormalizeIdempotent | src/utils/normalizePageRoute.ts:27-43 | Normalising a normalised route changes nothing. |
| NormalizePageRoute.NormalizeAsPageRoute | src/utils/normalizePageRoute.ts:39-42 | A route already in object form with aliases comes back as it is. |
| NormalizePageRoute.NormalizeKeepsValidity | src/utils/normalizePageRoute.ts:27-43 | A route that passes `pageRouteSchema` normalises to a valid path and valid aliases, and the result passes the schema again. |
| EscapeHtml.EscapeHtml | src/utils/escapeHtml.ts:17-19 | Escaping never shortens the text. Defined character by character through `EscapeChar`, as the global `replace` with the callback does. |
| EscapeHtml.EscapeChar | src/utils/escapeHtml.ts:1-19 | A special character becomes an `&…;` reference, and any other character is copied. |
| EscapeHtml.EscapeAppend | src/utils/escapeHtml.ts:17-19 | Escaping works character by character, so it distributes over concatenation. |
| EscapeHtml.EscapePlain | src/utils/escapeHtml.ts:9-19 | A string without `& < > " '` (including the empty string) is unchanged. |
| EscapeHtml.EscapeIsSafe | src/utils/escapeHtml.ts:1-19 | The output contains no raw `<`, `>`, `"` or `'`. |
| EscapeHtml.UnescapeEscape | src/utils/escapeHtml.ts:1-19 | Decoding the five references recovers the input, so escaping loses nothing. |
| EscapeHtml.EscapeInjective | src/utils/escapeHtml.ts:17-19 | Two different strings never escape to the same output. |
| EscapeHtml.EscapeSingles | src/utils/__tests__/escapeHtml.test.ts:20-26 | Each special character alone escapes to its reference. |
| EscapeHtml.EscapeAround | src/utils/__tests__/escapeHtml.test.ts:4-9 | Text around one special character is copied unchanged around its reference. |
| AnsiColor.AnsiCode | src/modules/ProgressLogger/utils/applyAnsiColor.ts:6-14 | Every colour code lies between 31 and 37. |
| AnsiColor.ApplyAnsiColor | src/modules/ProgressLogger/utils/applyAnsiColor.ts:33-36 | The text stands unchanged between the five-character colour escape and the four-character reset. |
| AnsiColor.PrefixLength | src/modules/ProgressLogger/utils/applyAnsiColor.ts:33-36 | Every code prints as two digits, so every colour prefix is five characters. |
| AnsiColor.PrefixDigits | src/modules/ProgressLogger/utils/applyAnsiColor.ts:6-35 | A code prints as `3` followed by its last digit. |
| AnsiColor.UnwrapApply | src/modules/ProgressLogger/utils/applyAnsiColor.ts:33-36 | The coloured text is the colour prefix, the text, and the reset sequence. Removing both recovers the text. |
| AnsiColor.ColorsDiffer | src/modules/ProgressLogger/utils/applyAnsiColor.ts:6-36 | Different colours never produce the same output, whatever the texts. |
| AnsiColor.GreenExamples | src/modules/ProgressLogger/utils/__tests__/applyAnsiColor.test.ts:14-25 | `Hello` and the empty string in green match the tests. |
| CodeMetaData.ErrorMessage | src/functions/parseMarkdownCodeMetaData.ts:64-115 | The three error messages, word for word. |
| CodeMetaData.ClosingQuote | src/functions/parseMarkdownCodeMetaData.ts:20 | The lazy `.*?\1` stops at the first matching quote, with no quote and no line terminator before it. |
| CodeMetaData.ClosingQuoteFound | src/functions/parseMarkdownCodeMetaData.ts:20 | Conversely, the first such quote is the one found. |
| CodeMetaData.QuotedSpanAt | src/functions/parseMarkdownCodeMetaData.ts:20 | A match starts at a quote, ends at the same quote, and holds at least the two quotes. Anything that does not start at a quote does not match. |
| CodeMetaData.SubstituteSkip | src/functions/parseMarkdownCodeMetaData.ts:48-52 | `replace` copies a stretch without quote characters unchanged. |
| CodeMetaData.Substitute | src/functions/parseMarkdownCodeMetaData.ts:46-52 | Definition: the reference for `replace(VALUE_STRING_PATTERN_PARTIAL, …)`. Scanning left to right, each quoted span becomes the next generated token, and the span with its quotes is stored under that token. Its properties are stated by `SubstituteFromSpans` and `SubstituteUnquoted`. |
| CodeMetaData.SubstituteUnquoted | src/functions/parseMarkdownCodeMetaData.ts:48-52 | Input without quote characters is left unchanged, with no stored strings. |
| CodeMetaData.SubstituteFromSpans | src/functions/parseMarkdownCodeMetaData.ts:48-52 | Every stored string is a slice of the input, stored under a generated token, and the map's keys stay distinct. |
| CodeMetaData.SubstituteStrings | src/functions/parseMarkdownCodeMetaData.ts:46-52 | The replacement loop computes the text with tokens and the map of original strings that the reference substitution defines. |
| CodeMetaData.ParseArgument | src/functions/parseMarkdownCodeMetaData.ts:57-76 | An argument is accepted exactly when its key matches `KEY_PATTERN` and it has at most one `=`. The key is the text before the first `=`, and the value is the rest, or `true` when there is no `=`. An invalid key is reported before a second `=`. |
| CodeMetaData.SecondFragment | src/functions/parseMarkdownCodeMetaData.ts:58-61 | With exactly one `=`, the second fragment is everything after it. |
| CodeMetaData.ValidateArguments | src/functions/parseMarkdownCodeMetaData.ts:55-76 | Every argument is validated in order. Success means every argument parsed, one entry each in order. Failure reports the first argument that fails. |
| CodeMetaData.TokenRunEnd | src/functions/parseMarkdownCodeMetaData.ts:14 | The longest run of `[\w-]` characters from a position. |
| CodeMetaData.TokenMatchAt | src/functions/parseMarkdownCodeMetaData.ts:14 | A match of `@@[\w-]+@@` found at a position is a full string token. |
| CodeMetaData.ReplaceTokensFromIdentity | src/functions/parseMarkdownCodeMetaData.ts:82-86 | Replacing tokens in a string that contains no stored token changes nothing. |
| CodeMetaData.ReplaceTokens | src/functions/parseMarkdownCodeMetaData.ts:82-86 | Definition: the reference for the inner `replace(STRING_TOKEN_PATTERN_PARTIAL, …)`. Each `@@[\w-]+@@` match is replaced by its stored string, or kept when none is stored. |
| CodeMetaData.Resolve | src/functions/parseMarkdownCodeMetaData.ts:79-89 | Definition: the reference for the `forEach` pass. Entry by entry in map order, the value is replaced by `ReplaceTokens` on the map as updated so far. Its properties are stated by `ResolveFrom` and `ResolveFromIdentity`. |
| CodeMetaData.ResolveFrom | src/functions/parseMarkdownCodeMetaData.ts:79-89 | Resolution keeps every token key in its place. |
| CodeMetaData.ResolveFromIdentity | src/functions/parseMarkdownCodeMetaData.ts:79-89 | When no stored string contains a token, resolution changes nothing. |
| CodeMetaData.FreshTokensResolveIdentity | src/functions/parseMarkdownCodeMetaData.ts:79-89 | When every generated token is distinct and absent from the input, the nested-token pass is the identity. |
| CodeMetaData.ResolveNestedTokens | src/functions/parseMarkdownCodeMetaData.ts:79-89 | The `forEach` loop over the map computes the reference resolution. |
| CodeMetaData.Unquote | src/functions/parseMarkdownCodeMetaData.ts:96 | `slice(1, -1)`: drops the first and last character, giving the empty string below two characters. |
| CodeMetaData.ClassifyValue | src/functions/parseMarkdownCodeMetaData.ts:95-115 | A value is classified by the first pattern it matches: token, number, boolean, null. A token gives its stored string without quotes, or `''` when unknown. A number gives its decimal value, a boolean gives `value === 'true'`, null gives null. Anything else is an unknown value type, reported with the value. |
| CodeMetaData.ValueClassesDisjoint | src/functions/parseMarkdownCodeMetaData.ts:13-19 | The token, number, boolean and null patterns never match the same value. |
| CodeMetaData.NumberValue | src/functions/parseMarkdownCodeMetaData.ts:100-102 | `Number(value)` of a number literal is non-negative. |
| CodeMetaData.DecimalNumberValue | src/functions/parseMarkdownCodeMetaData.ts:100-102 | Every printed natural number is a number literal, and it reads back as that number. |
| CodeMetaData.ClassifyEntries | src/functions/parseMarkdownCodeMetaData.ts:92-116 | Classifying every entry in order keeps the keys. Failure is the first value that fails. |
| CodeMetaData.ParseCodeMetaData | src/functions/parseMarkdownCodeMetaData.ts:40-118 | The parsed record has distinct keys. |
| CodeMetaData.ParseSubstituted | src/functions/parseMarkdownCodeMetaData.ts:55-117 | The record built after substitution has distinct keys. |
| CodeMetaData.ParsedKeysValid | src/functions/parseMarkdownCodeMetaData.ts:64-68 | Every key of a parsed record matches `KEY_PATTERN`. |
| CodeMetaData.RecordKeysValid | src/functions/parseMarkdownCodeMetaData.ts:92 | `fromEntries` brings in no key that was not validated. |
| CodeMetaData.ParseMarkdownCodeMetaData | src/functions/parseMarkdownCodeMetaData.ts:40-118 | Substitution loop, validation, resolution loop and classification together compute the reference parse. |
| CodeMetaDataProperties.TrimInsensitive | src/functions/parseMarkdownCodeMetaData.ts:47 | Surrounding whitespace never changes the result (test "trims input before processing"). |
| CodeMetaDataProperties.EmptyInputIsInvalidKey | src/functions/parseMarkdownCodeMetaData.ts:55-68 | An empty or blank `meta` string is rejected as an invalid empty key. |
| CodeMetaDataProperties.SingleArgument | src/functions/parseMarkdownCodeMetaData.ts:55-117 | One argument without quotes or whitespace parses to the record of its one entry, or fails with that argument's error. |
| CodeMetaDataProperties.BareKeyIsTrue | src/functions/parseMarkdownCodeMetaData.ts:58-107 | A bare valid key parses to `{ key: true }` (test "defaults to true"). |
| CodeMetaDataProperties.BareKeyArgument | src/functions/parseMarkdownCodeMetaData.ts:58-61 | A bare key is the entry `(key, "true")`. |
| CodeMetaDataProperties.TrueIsBoolean | src/functions/parseMarkdownCodeMetaData.ts:105-107 | The text `true` classifies as the boolean true. |
| CodeMetaDataProperties.KeyValue | src/functions/parseMarkdownCodeMetaData.ts:55-117 | `key=value` with an unquoted value gives the number, the boolean, null, or `''` for an unknown token. Any other value fails with an unknown value type naming it. |
| CodeMetaDataProperties.PlainKeyValue | src/functions/parseMarkdownCodeMetaData.ts:55-117 | `key=value` with an unquoted value comes down to classifying the value alone. |
| CodeMetaDataProperties.KeyValueArgument | src/functions/parseMarkdownCodeMetaData.ts:58-75 | `key=value` with one `=` is the entry `(key, value)`. |
| CodeMetaDataProperties.InvalidKeyBeforeEntry | src/functions/parseMarkdownCodeMetaData.ts:64-68 | An argument with an invalid key fails with `InvalidKey` for that key, whatever quote-free, whitespace-free text follows. |
| CodeMetaDataProperties.InvalidKeyQuotedValue | src/functions/parseMarkdownCodeMetaData.ts:46-68 | An invalid key followed by `=` and a quoted value fails with `InvalidKey` for that key. The quoted span becomes a token first, and the key is checked before the value. |
| CodeMetaDataProperties.QuotedInvalidKey | src/functions/__tests__/parseMarkdownCodeMetaData.test.ts:30-34 | `invalid-key="value"` fails with `InvalidKey("invalid-key")` (test "throws on invalid key"). |
| CodeMetaDataProperties.QuotedKeyInput | src/functions/parseMarkdownCodeMetaData.ts:46-52 | For any key free of quotes and whitespace, parsing `key="t"` comes down to parsing `key=<first token>` with the span stored under that token. |
| CodeMetaDataProperties.InvalidKeyToken | src/functions/parseMarkdownCodeMetaData.ts:55-68 | `key=<token>` with an invalid key fails with `InvalidKey`, whatever the map holds. |
| CodeMetaDataProperties.InvalidKeyArgument | src/functions/parseMarkdownCodeMetaData.ts:64-68 | An invalid key is reported even when the argument also has too many `=`. |
| CodeMetaDataProperties.TooManyEquals | src/functions/parseMarkdownCodeMetaData.ts:71-73 | `key=a=b` fails with `InvalidEntry` carrying the whole argument (test "foo=bar=baz"). |
| CodeMetaDataProperties.TooManyEqualsArgument | src/functions/parseMarkdownCodeMetaData.ts:71-73 | A second `=` after a valid key is an invalid entry. |
| CodeMetaDataProperties.QuotedValueKeepsInnerText | src/functions/parseMarkdownCodeMetaData.ts:46-97 | `key="text"` or `key='text'` gives exactly the text between the quotes, including spaces and `=`, when the tokens are fresh. |
| CodeMetaDataProperties.QuotedValueWithToken | src/functions/parseMarkdownCodeMetaData.ts:46-97 | The same holds when only the first token is a well-formed token absent from the input. |
| CodeMetaDataProperties.QuotedSubstitution | src/functions/parseMarkdownCodeMetaData.ts:48-52 | A quoted value is replaced by the first token, and the map stores it with its quotes. |
| CodeMetaDataProperties.QuotedSpan | src/functions/parseMarkdownCodeMetaData.ts:20 | The string pattern matches the whole quoted value of `key="text"`. |
| CodeMetaDataProperties.ParseKeyToken | src/functions/parseMarkdownCodeMetaData.ts:79-97 | `key=token` with the token's span stored parses to that span without its quotes. |
| CodeMetaDataProperties.TokenIsPlain | src/functions/parseMarkdownCodeMetaData.ts:13-28 | A token contains no whitespace, quote or `=`, so substitution protects quoted text from splitting. |
| CodeMetaDataProperties.LaterDuplicateWins | src/functions/parseMarkdownCodeMetaData.ts:92 | When a key is given twice, the later value wins. |
| CodeMetaDataProperties.FromEntriesPair | src/functions/parseMarkdownCodeMetaData.ts:92 | `fromEntries` of two entries with one key keeps one entry, holding the second value. |
| CodeMetaDataProperties.TwoArguments | src/functions/parseMarkdownCodeMetaData.ts:46-56 | Two plain arguments separated by a space are trimmed and substituted to themselves and split into exactly those two. |
| CodeMetaDataProperties.ValidatePair | src/functions/parseMarkdownCodeMetaData.ts:55-76 | Two valid arguments validate to their two entries in order. |
| CodeMetaDataProperties.ClassifyPair | src/functions/parseMarkdownCodeMetaData.ts:92-116 | Two classifiable entries classify to their two values in order. |
| CodeMetaDataProperties.QuotedThenPlain | src/functions/parseMarkdownCodeMetaData.ts:34-38 | The documented example `foo="hello world" bar=42`: with a fresh first token, `k1="t" k2=v` parses to `[(k1, t), (k2, value of v)]`, in that order. Or it fails with `v`'s unknown value type. |
| CodeMetaDataProperties.EntryErrorsFirst | src/functions/parseMarkdownCodeMetaData.ts:55-92 | The first argument that fails validation decides the error, before any value is classified. |
| CodeMetaDataProperties.UnknownValueAfterValidation | src/functions/parseMarkdownCodeMetaData.ts:55-115 | An unknown value type is only reported when every argument passed validation. |
| Mdast.LeavesAppend | src/types.d.ts:4-19 | The code and widget leaves of a node list are those of its parts, in order. |
| Mdast.Erase | src/types.d.ts:4-19 | The shape of a node list (everything except code and widget content) has one entry per node. |
| Mdast.UnwrapAppend | src/types.d.ts:4-8 | Dissolving sections distributes over concatenation. |
| Mdast.LeavesUnwrap | src/types.d.ts:4-8 | Dissolving sections keeps the leaves. |
| Mdast.UnwrapNoSections | src/types.d.ts:4-8 | A list without sections is its own dissolution. |
| Mdast.StripPositions | src/functions/parseMarkdownContent.ts:54 | One node per node. Definition: `removePosition(…, {force: true})`, dropping every node's position and recursing into children. |
| Mdast.StripPositionsClean | src/functions/parseMarkdownContent.ts:54 | `removePosition(…, {force: true})` leaves no position anywhere in the tree. |
| Mdast.StripPositionsIdentity | src/functions/parseMarkdownContent.ts:54 | A tree without positions is unchanged. |
| Mdast.StripPositionsAppend | src/functions/parseMarkdownContent.ts:54 | Position removal works node by node. |
| Mdast.StripPositionsLeaves | src/functions/parseMarkdownContent.ts:54 | The leaves of the stripped tree are the stripped leaves. |
| CodeVisitor.Then | src/plugins/remarkCodeMetaData.ts:18 | Sequencing two walks: the first failure wins, otherwise the nodes and the warnings are concatenated. |
| CodeVisitor.ThenAssociative | src/plugins/remarkCodeMetaData.ts:18 | Sequencing walks is associative. |
| CodeVisitor.VisitRoot | src/plugins/remarkCodeMetaData.ts:18 | Definition: `visit(tree, 'code', …)` on the root, replacing its children by the walked ones and collecting the warnings. |
| CodeVisitor.MapLeaves | src/plugins/remarkCodeMetaData.ts:18 | Definition: the leaf-wise reference walk. The callback runs on each code leaf in order, and every other leaf is kept. Its meaning is stated by `MapLeavesSuccess` and `MapLeavesFailure`. |
| CodeVisitor.Visit | src/plugins/ramarkCodeToHtml.ts:50 | The depth-first walk computes the recursive reference walk. |
| CodeVisitor.VisitIsLeafwise | src/plugins/remarkWidget.ts:20 | For a callback that returns a code or widget node in place of a code node, the tree walk equals a walk over the leaves in document order. |
| CodeVisitor.VisitKeepsShape | src/plugins/remarkWidget.ts:20 | A successful walk keeps the shape of the tree. |
| CodeVisitor.MapLeavesSuccess | src/plugins/remarkCodeMetaData.ts:18 | The leaf walk succeeds exactly when the callback succeeds on every code leaf. Each leaf is then replaced on its own, and every other leaf is kept. |
| CodeVisitor.MapLeavesFailure | src/plugins/remarkCodeMetaData.ts:18 | A failing walk reports the first code leaf whose callback throws. |
| CodeVisitor.VisitFailureExtends | src/plugins/remarkCodeMetaData.ts:18 | Once the walk has failed, later nodes are not visited. |
| CodeVisitor.VisitWithoutLeaves | src/plugins/remarkCodeMetaData.ts:18 | A tree without code leaves is returned unchanged with no warnings. |
| RemarkCodeMetaData.HasMeta | src/plugins/remarkCodeMetaData.ts:20 | Definition: `if (node.meta)`, a present and non-empty `meta`. |
| RemarkCodeMetaData.AttachMetaData | src/plugins/remarkCodeMetaData.ts:18-23 | Definition: the callback. A node with `meta` gets the parsed `metaData` and a null `meta`, or the parse error is thrown. Any other node is kept. Its meaning is stated by `AttachFailure`. |
| RemarkCodeMetaData.CodeMetaDataPassEffect | src/plugins/remarkCodeMetaData.ts:18-23 | The pass succeeds exactly when every code node with `meta` parses. Each such node then gets `metaData` and a null `meta`, every other leaf is kept, and the shape is kept. |
| RemarkCodeMetaData.CodeMetaDataPassError | src/plugins/remarkCodeMetaData.ts:20-21 | A failing pass rethrows the error of the first code node whose `meta` fails to parse. |
| RemarkCodeMetaData.AttachFailure | src/plugins/remarkCodeMetaData.ts:20-22 | The callback fails exactly when the node has `meta` and its parse fails, with that error. |
| RemarkCodeMetaData.RemarkCodeMetaData | src/plugins/remarkCodeMetaData.ts:16-25 | The plugin computes the pass specification. |
| RemarkWidget.Truthy | src/plugins/remarkWidget.ts:22 | Definition: JavaScript truthiness of a metadata value. The empty string, `0`, `false` and `null` are falsy. |
| RemarkWidget.IsWidgetBlock | src/plugins/remarkWidget.ts:22 | Definition: `node.lang === 'yaml' && node.metaData && node.metaData.widget`. |
| RemarkWidget.PromoteWidget | src/plugins/remarkWidget.ts:20-34 | Definition: the callback. A widget block becomes a widget node named by `metaData.widget` with the decoded YAML, or the decoder's error is thrown. Any other node is kept. Its meaning is stated by `PromoteFailure`. |
| RemarkWidget.WidgetPassEffect | src/plugins/remarkWidget.ts:18-37 | The pass succeeds exactly when every widget block decodes. Each `yaml` block with a truthy `metaData.widget`, and no other node, becomes a widget named by it with the decoded data. Every other leaf is kept. |
| RemarkWidget.WidgetPassError | src/plugins/remarkWidget.ts:22-23 | A failing pass reports the decoder error of the first widget block that fails. |
| RemarkWidget.PromoteFailure | src/plugins/remarkWidget.ts:22-23 | The callback fails exactly when the node is a widget block whose YAML fails to decode. |
| RemarkWidget.NamedYamlBlockIsWidget | src/plugins/__tests__/remarkWidget.test.ts:20-37 | A `yaml` block with a non-empty `widget` name is a widget block. |
| RemarkWidget.FalsyWidgetStaysCode | src/plugins/remarkWidget.ts:22 | A falsy `widget` value (false, 0, null, or the empty string) leaves the block as code. |
| RemarkWidget.RemarkWidget | src/plugins/remarkWidget.ts:18-37 | The plugin computes the pass specification. |
| RemarkCodeToHtml.HighlightCode | src/plugins/ramarkCodeToHtml.ts:50-63 | Definition: the callback. When the highlighter accepts the block, the HTML goes to `valueHtml` and `value` becomes `''`. Otherwise the block is kept and the unknown-language warning is emitted. It never throws. |
| RemarkCodeToHtml.HighlightNeverFails | src/plugins/ramarkCodeToHtml.ts:52-63 | The highlighting pass never fails, because each failure is caught per node. |
| RemarkCodeToHtml.CodeToHtmlPassEffect | src/plugins/ramarkCodeToHtml.ts:48-66 | Each block the highlighter accepts gets `valueHtml` and an empty `value`. A block it rejects, and every widget, is kept as it was. The shape is kept, and one warning is printed per rejected block, in document order. |
| RemarkCodeToHtml.MapLeavesDiagnostics | src/plugins/ramarkCodeToHtml.ts:61-63 | The warnings are exactly one per rejected block, in order. |
| RemarkCodeToHtml.RejectedBlockWarns | src/plugins/__tests__/remarkCodeToHtml.test.ts:27-52 | An `unsupportedlang` block is left as it is with the warning `Unknown language: "unsupportedlang" is not registered`. |
| RemarkCodeToHtml.RemarkCodeToHtml | src/plugins/ramarkCodeToHtml.ts:48-66 | The plugin computes the pass specification. |
| RemarkSection.AppendToCurrent | src/plugins/ramarkSection.ts:34-40 | Appending keeps the number of open sections and the innermost open depth. |
| RemarkSection.AppendToCurrentContent | src/plugins/ramarkSection.ts:34-40 | After appending, the nodes collected so far, with sections dissolved, are the old ones followed by the new ones. |
| RemarkSection.AppendToCurrentTwice | src/plugins/ramarkSection.ts:34-40 | Two appends equal one append of both lists. |
| RemarkSection.CloseTop | src/plugins/ramarkSection.ts:44-49 | Popping a section removes one level. |
| RemarkSection.OpenThenClose | src/plugins/ramarkSection.ts:51-58 | Opening a section at a heading, appending nodes and popping it appends one section of depth `heading.depth - 1` holding the heading and those nodes. |
| RemarkSection.NestedOpen | src/plugins/ramarkSection.ts:44-58 | The stack of open sections has strictly increasing heading depths above 1, and a push after the pops keeps it so. |
| RemarkSection.Take | src/plugins/ramarkSection.ts:42-62 | The recursive reference stops only at the end or at a heading no deeper than the bound. |
| RemarkSection.Scan | src/plugins/ramarkSection.ts:42-62 | Definition: the stack loop, node by node. A heading of depth 2 or more pops the open sections at least as deep and opens a new one. Any other node is appended to the innermost open section, or to the root. The sections still open at the end are closed. Its meaning is stated by `ScanIsSectionize`. |
| RemarkSection.Sectionize | src/plugins/ramarkSection.ts:42-62 | Definition: the recursive sectioning, `Take` at bound 1. Its properties are stated by `SectionizeKeepsNodes`, `SectionizeLeaves` and `SectionizeShape`. |
| RemarkSection.ScanIsSectionize | src/plugins/ramarkSection.ts:42-64 | Running the stack loop from an empty stack gives the recursive sectioning. |
| RemarkSection.BuildSections | src/plugins/ramarkSection.ts:29-66 | The plugin's loop replaces the root's children with the sectioned children. |
| RemarkSection.SectionizeKeepsNodes | src/plugins/ramarkSection.ts:42-62 | Without sections in the input, dissolving the output sections gives back the input exactly, with nothing lost, duplicated or reordered. |
| RemarkSection.SectionizeLeaves | src/plugins/ramarkSection.ts:42-62 | Sectioning keeps the code and widget leaves in order. |
| RemarkSection.SectionizeWithoutOpeners | src/plugins/ramarkSection.ts:42-62 | Without headings of depth 2 or more, the children are unchanged (test "returns flat tree"). |
| RemarkSection.SectionizeShape | src/plugins/ramarkSection.ts:42-62 | Every section opens with a heading one deeper than its depth. Top-level sections have depth at least 1, and nested sections are deeper than their parent. |
| RemarkSection.TakeUnwrap | src/plugins/ramarkSection.ts:42-62 | The sectioned prefix and the rest together hold exactly the input. |
| RemarkSection.TakeForest | src/plugins/ramarkSection.ts:42-62 | The sectioned prefix is well formed for its bound. |
| RemarkSectionExamples.NestedHeadings | src/plugins/__tests__/remarkSection.test.ts:14-53 | `# title, ## First, p, ### Sub, t, ## Second, p` becomes the title, a depth-1 section holding a depth-2 section, and a sibling depth-1 section. |
| RemarkSectionExamples.DescendingChain | src/plugins/__tests__/remarkSection.test.ts:78-98 | `## A ### B #### C ##### D` nests four sections of depths 1 to 4. |
| RemarkSectionExamples.TopHeadingStays | src/plugins/__tests__/remarkSection.test.ts:55-62 | A `#` heading stays at the root, and the `##` after it opens a section. |
| RemarkSectionExamples.TopHeadingInsideSection | src/plugins/ramarkSection.ts:42-62 | A `#` heading inside an open section is appended to that section and does not close it. |
| RemarkSectionExamples.TakeOpen | src/plugins/ramarkSection.ts:43-58 | A deeper heading opens a section that takes everything up to the next heading at most as deep. |
| RemarkSectionExamples.TakeStop | src/plugins/ramarkSection.ts:44-49 | A heading no deeper than the bound closes the current section. |
| RemarkSectionExamples.TakePlain | src/plugins/ramarkSection.ts:59-60 | A node that is not a heading of depth 2 or more joins the current section. |
| ParseMarkdownContent.ParseMarkdownContent | src/functions/parseMarkdownContent.ts:42-57 | `run` followed by `removePosition` computes the composition of the four pass specifications in plugin order. |
| ParseMarkdownContent.Transform | src/functions/parseMarkdownContent.ts:46-54 | Definition: the four passes in plugin order, then position removal. The first pass that throws decides the error. Its meaning is stated by `TransformSucceeds` and `TransformEffect`. |
| ParseMarkdownContent.TransformSucceeds | src/functions/parseMarkdownContent.ts:43-52 | The pipeline succeeds exactly when every `meta` parses and every widget block decodes. A metadata error wins over a YAML error, wherever the two blocks stand. |
| ParseMarkdownContent.TransformEffect | src/functions/parseMarkdownContent.ts:43-54 | On success the tree has no positions, the same number of leaves, and each leaf is the input leaf after metadata, widget, highlight and position removal. The warnings are those for the prepared leaves. |
| ParseMarkdownContent.PrepareAll | src/functions/parseMarkdownContent.ts:46-47 | The metadata and widget passes act leaf by leaf. |
| ParseMarkdownContent.PreparedLeaves | src/functions/parseMarkdownContent.ts:46-47 | After the first two passes, the leaves are the prepared input leaves. |
| ParseMarkdownContent.WidgetIsNotHighlighted | src/functions/parseMarkdownContent.ts:46-48 | A widget fence ends as a widget node with its name and decoded data, and the highlighter never sees it. |
| ParseMarkdownContent.CodeIsHighlighted | src/functions/parseMarkdownContent.ts:46-48 | Any other code block keeps language and metadata. It gets the HTML and an empty value when highlighting succeeds, and is kept otherwise. |
| ParseMarkdownContent.WithoutCode | src/functions/parseMarkdownContent.ts:43-54 | A document without code is only sectioned and stripped, with no warnings. |
| ParseMarkdownContent.TitleSectionContent | src/functions/__tests__/parseMarkdownContent.test.ts:32-42 | `# title`, `## heading`, paragraph gives the title at the root and one depth-1 section, with no positions. |
| ParseMarkdownContent.WidgetDocument | src/functions/__tests__/parseMarkdownContent.test.ts:44-61 | A `yaml widget="Name"` fence becomes exactly one widget node with that name and the decoded data. |
| ParseMarkdownContent.WidgetMetaParses | src/functions/parseMarkdownCodeMetaData.ts:46-97 | `widget="Name"` parses to `{ widget: "Name" }`. |
| ParseMarkdownFile.ParseMarkdownFile | src/functions/parseMarkdownFile.ts:25-31 | A file that cannot be read fails with a read error for that path. |
| ParseMarkdownFile.ParseMarkdownFileSucceeds | src/functions/parseMarkdownFile.ts:25-31 | Loading succeeds exactly when the file can be read, every `meta` in it parses and every widget block decodes. A rejected file carries the content pipeline's own error, a metadata error exactly when some `meta` fails. A loaded tree is the pipeline's tree and has no positions. |
| BuildAllPages.GeneratePageUuid | src/functions/buildAllPages.ts:31-33 | Definition: `uuidV5` of the name `route$v1$id`. That the name determines route and id is stated by `UuidNameInjective`. |
| BuildAllPages.MainEntry | src/functions/buildAllPages.ts:82-97 | Definition: the unlinked entry for the page id, the normalised path and the UUID generated from them. |
| BuildAllPages.AliasEntries | src/functions/buildAllPages.ts:103-110 | One entry per alias. |
| BuildAllPages.AliasEntriesAt | src/functions/buildAllPages.ts:103-110 | The entry for alias `j` has the page id, that alias as route, the alias UUID, and a link to the main UUID. |
| BuildAllPages.Blocks | src/functions/buildAllPages.ts:80-120 | Each page contributes its own block of entries, in page order. |
| BuildAllPages.PageEntries | src/functions/buildAllPages.ts:93-110 | Definition: a page's block, its main entry followed by its alias entries. Its shape is stated by `PageEntriesShape`. |
| BuildAllPages.Structure | src/functions/buildAllPages.ts:80-120 | Definition: the concatenated blocks of all pages. Its properties are stated by `StructureLength`, `StructureSplit` and `EntriesAreKeyed`. |
| BuildAllPages.PagePath | src/functions/buildAllPages.ts:67-84 | Definition: `path.resolve(path.dirname(pagesStructurePath), ref)`, through `ResolvePath` and `DirName`. |
| BuildAllPages.PageOutputs | src/functions/buildAllPages.ts:84-113 | One `buildPage` outcome per page, for that page's main item and its resolved page path. |
| BuildAllPages.PagesLoadOwnContent | src/functions/buildAllPages.ts:84-113 | Write `i` of a page holds what the loader gave for entry `i`'s reference, resolved against the directory of that page's own file. Pages in different directories listing the same relative reference therefore load different files (`ResolveDiffers`). |
| BuildAllPages.WriteBlocks | src/functions/buildAllPages.ts:113 | One block of files per build, in page order. |
| BuildAllPages.BuildAllPages | src/functions/buildAllPages.ts:80-131 | The page loop and the final write compute the reference outcome: the structure list is built page by page, each page is built in turn from its resolved path, the loop stops at the first page whose build throws, and `structure.json` is written only after every page. |
| BuildAllPages.RunStopped | src/functions/buildAllPages.ts:80-120 | Once a build has thrown, later pages change nothing. |
| BuildAllPages.RunFinishes | src/functions/buildAllPages.ts:80-120 | The loop finishes exactly when no page build throws. |
| BuildAllPages.RunWrites | src/functions/buildAllPages.ts:80-120 | A finished loop has written every page's files, one page after another. |
| BuildAllPages.RunStopsAt | src/functions/buildAllPages.ts:80-120 | A build that throws after all earlier builds finished: the earlier files, then its own files up to the failure, and its error. |
| BuildAllPages.BuildStopsAt | src/functions/buildAllPages.ts:80-131 | If page `k` is the first whose build throws, every earlier page's files are written, then page `k`'s files up to its failure. No later page is built, `structure.json` is not written, and the error is page `k`'s. |
| BuildAllPages.BuildAllSucceeds | src/functions/buildAllPages.ts:80-131 | `structure.json` is written exactly when every page builds. It then holds the structure list, after all pages' files in page order. |
| BuildAllPages.PushPage | src/functions/buildAllPages.ts:82-110 | One iteration appends the page's main entry, then its alias entries, and returns the main item. |
| BuildAllPages.StructureLength | src/functions/buildAllPages.ts:80-120 | `structure.json` has one entry per route: each page's path plus its aliases. |
| BuildAllPages.StructureAppend | src/functions/buildAllPages.ts:80-120 | The structure of two page lists is the concatenation of their structures. |
| BuildAllPages.StructureSnoc | src/functions/buildAllPages.ts:80-120 | Adding a page appends exactly its block. |
| BuildAllPages.PageBlock | src/functions/buildAllPages.ts:80-120 | Page `k`'s block sits in the structure right after the routes of the pages before it. |
| BuildAllPages.StructureSplit | src/functions/buildAllPages.ts:80-120 | The structure is the earlier pages' entries, then page `k`'s block, then the later pages' entries. |
| BuildAllPages.PageEntriesShape | src/functions/buildAllPages.ts:82-110 | A page's block is its unlinked main entry, for the normalised path with the main UUID, followed by one linked entry per alias, in order. |
| BuildAllPages.BlockKeyed | src/functions/buildAllPages.ts:87-110 | Within a block, every UUID is generated from that entry's id and route, and every later entry links to the first. |
| BuildAllPages.EntriesAreKeyed | src/functions/buildAllPages.ts:80-120 | Every entry's UUID is generated from its own id and route. Every linked entry points to an earlier unlinked entry with the same id and that UUID. |
| BuildAllPages.UuidNameInjective | src/functions/buildAllPages.ts:31-33 | For valid route paths, the name `route$v1$id` determines both the route and the id. |
| BuildAllPages.RouteEndsAtDollar | src/functions/buildAllPages.ts:31-33 | The first `$` of the name ends the route, because a route path has no `$`. |
| BuildAllPages.OneAlias | src/functions/__tests__/buildAllPages.test.ts:28-93 | A page with one alias gives two entries: the main route, then the alias linked to the main UUID. |
| BuildPage.ContentRefEntries | src/functions/buildPage.ts:62-64 | The filter keeps exactly the content entries whose language is allowed, in both directions. |
| BuildPage.ContentRefEntriesAppend | src/functions/buildPage.ts:62-64 | Filtering works entry by entry and keeps order. |
| BuildPage.AllAllowedKept | src/functions/buildPage.ts:62-64 | Content with only allowed languages passes unchanged. |
| BuildPage.FilterKeepsDistinct | src/functions/buildPage.ts:62-64 | Filtering keeps the language keys distinct. |
| BuildPage.OutputData | src/functions/buildPage.ts:74-83 | Definition: the file's data, the loaded content, the page `meta` and that language's properties. The properties are stated by `PropertiesFor`. |
| BuildPage.LastSlash | src/functions/buildPage.ts:59 | The index of the last `/`, or -1 when there is none: a `/` stands there and none after it. |
| BuildPage.DirName | src/functions/buildPage.ts:59 | Definition: `path.dirname(pageRef)` of a file path, the text before the last `/`. It is `/` for a file at the root and `.` with no `/`. |
| BuildPage.DirNameAt | src/functions/buildPage.ts:59 | The directory of `dir/file` is `dir`. |
| BuildPage.ResolvePath | src/functions/buildPage.ts:69-71 | Definition: `path.resolve(dir, ref)` without normalisation. An absolute reference stands, and a relative one is joined to `dir` with `/`. |
| BuildPage.PageLoader | src/functions/buildPage.ts:69-71 | The page's loader gives, for each reference, what `parseMarkdownFile` gives for that reference resolved against the page's directory. |
| BuildPage.ResolveDiffers | src/functions/buildPage.ts:69-71 | The same relative reference in two different directories resolves to two different paths. |
| BuildPage.ContentFromPageDirectory | src/functions/buildPage.ts:59-94 | Write `i` of a built page holds the loaded content of entry `i`'s reference, resolved against the directory of the page file. |
| BuildPage.SiblingPagesLoadOwnFiles | src/functions/__tests__/buildAllPages.test.ts:43-135 | `content/css/background-color/page.yml` and `content/css/color/page.yml` both list `./ru.md`, and they load two different files. |
| BuildPage.OutputFilePath | src/functions/buildPage.ts:86-91 | Definition: `outputDir/pages/<uuid>/<lang>.json`. Its shape is stated by `PathShape` and `PathsDiffer`. |
| BuildPage.Writes | src/functions/buildPage.ts:67-95 | At most one write per entry, and exactly one per entry when no load throws. |
| BuildPage.WritesStopped | src/functions/buildPage.ts:67-95 | Once a load has thrown, later entries change nothing. |
| BuildPage.WritesOutcome | src/functions/buildPage.ts:67-95 | The language loop finishes exactly when every load succeeds. Otherwise it stops at the first load that throws, with that load's error, after writing exactly the entries before it. |
| BuildPage.FailedLoadAt | src/functions/buildPage.ts:67-95 | If the load of entry `i` is the first to throw, the outcome is the `i` writes of the entries before it and that load's error. |
| BuildPage.WritesAt | src/functions/buildPage.ts:67-95 | Entry `i`'s load succeeded, and write `i` goes to the path for entry `i`'s language, with its loaded content, the page properties for that language, and `pretty = !minify`. |
| BuildPage.BuildPage | src/functions/buildPage.ts:51-96 | The method computes the reference outcome. A page file that cannot be read fails with no writes. Otherwise each content reference is loaded from the page file's directory, and the language loop writes in order until the first load that throws, and that load's error is returned. |
| BuildPage.WritesAreAllowed | src/functions/buildPage.ts:62-94 | Every file written is `outputDir/pages/<uuid>/<lang>.json` for a content entry with an allowed language. It holds that entry's content and the page `meta`. |
| BuildPage.EveryAllowedLanguageWritten | src/functions/buildPage.ts:62-94 | When every allowed content file loads, the build finishes and every content entry with an allowed language is written, with its loaded content. |
| BuildPage.WritesDistinct | src/functions/buildPage.ts:62-94 | With distinct languages, no two writes share a path. |
| BuildPage.PathShape | src/functions/buildPage.ts:86-91 | The output path is `outputDir/pages/<uuid>/<lang>.json`. |
| BuildPage.PathsDiffer | src/functions/buildPage.ts:86-91 | Different languages give different paths. |
| BuildPage.PropertiesFor | src/functions/buildPage.ts:77-82 | Title, description, tags and menu title are the language's own values, whenever the page gives one for that language. A missing title or description is `''`, missing tags are `[]`, and a missing menu title is absent. |
| BuildPage.UnknownLanguageSkipped | src/functions/buildPage.ts:62-64 | The language filter on its own: a `de` entry beside `en` is skipped and never loaded, so there is one file, for `en`. `parsePageFile` would already reject such a page. |
| BuildPage.TwoLanguagePage | src/functions/__tests__/buildPage.test.ts:26-71 | The test page writes `ru.json`, then `en.json`, under the page's UUID. Each holds its loaded Markdown, the `meta`, and that language's title and description. |
| BuildPage.TwoWrites | src/functions/buildPage.ts:67-95 | Two allowed content entries that both load give exactly two writes, in entry order. |
| BuildPage.SecondLanguageFails | src/functions/buildPage.ts:67-94 | When the test page's `ru` file loads and its `en` file does not: `ru.json` is written, `en.json` is not, and the build fails with the `en` load's error. |
| BuildPage.TestProperties | src/functions/__tests__/buildPage.test.ts:35-71 | The test page's `ru` and `en` output data. |
| BuildPage.TestPath | src/functions/__tests__/buildPage.test.ts:60-61 | The test page's two output paths. |

## Left out

- **File and process I/O:**
  - Reading and parsing the structure file (`parsePagesStructureFile`) is not part of this model; the parsed page structure is an input.
  - Reading a page file (`parsePageFile`) is the `PageReader` parameter. It either gives the parsed page or fails, and a failure ends that page's build and the whole run, as the thrown error does.
  - Reading a Markdown file is the `read` parameter of `ParseMarkdownFile`. `buildPage` gets its `Loader` of paths as a parameter; `ParseMarkdownFile` is what that loader computes. Each content reference reaches it resolved against the page file's directory. A load that fails stops `buildPage` after the files already written, and nothing after it is built.
  - Writing JSON (`makeJsonFile`) is modelled as the returned list of `JsonWrite`s, and a write is taken never to fail. The `structure.json` write (src/functions/buildAllPages.ts:123-131) is the returned structure list, present only when every page built.
  - JSON serialisation and its pretty-print spacing are not modelled.
- **`path.resolve` and `path.dirname`:**
  - Paths are joined with `/` without normalising `.`, `..` or doubled `/`. So `dir/./ru.md` and `dir/ru.md` are different strings that name the same file.
  - A relative path is not made absolute against the working directory.
  - `DirName` does not strip a trailing `/` as `path.dirname` does; page references name files, which do not end in `/`.
  - `DirName` cuts at the last `/` and keeps a single leading `/`, so `DirName("//x")` is `/`, where `path.dirname("//x")` is `//`.
- **Markdown parsing:** remark-parse and remark-gfm (src/functions/parseMarkdownContent.ts:44-45, 51) are not part of this model. `ParseMarkdownContent` takes the parsed tree as its input. Nodes other than headings, sections, code and widgets are one opaque `Other` kind with children.
- **Foreign code as parameters:**
  - `randomBytes`-based token generation (src/functions/parseMarkdownCodeMetaData.ts:26-29) is the function `gen`. Properties that need fresh tokens say so (`FreshTokens`).
  - The YAML decoder, the highlighter `parseCodeToHtml` and `uuidV5` are parameters. The UUID namespace is fixed inside that parameter.
- **Validation and logging:** the Zod schemas are modelled only for the route path and entity id patterns. The ProgressLogger (except `applyAnsiColor`), `console.warn` itself (the warnings are returned as a list) and the CLI in src/bin/run.ts are not part of this model.
- **Numbers and strings:**
  - `Number(value)` is modelled as an exact decimal (`real`), not as an IEEE double, so rounding of long literals is not captured.
  - `Object.fromEntries` is modelled with insertion order for every key. JavaScript lists integer-like keys first, in numeric order; `KEY_PATTERN` admits digit-only keys such as `1`, and for those the model's key order differs (the values do not).
  - Strings are sequences of characters, not UTF-16 code units. `\s` is the set JavaScript defines: the ASCII whitespace characters, NBSP, the Unicode space separators, the line terminators and U+FEFF.
- **Mutation in place:**
  - The plugins mutate nodes in place; the model rebuilds the tree.
  - In `remarkSection` a section is appended to its parent when opened and filled afterwards through the shared reference (src/plugins/ramarkSection.ts:57-58). The model appends the finished section when it is popped, which gives the same final tree.
  - When a plugin throws, the partly mutated tree is not modelled; the pass returns the error.
- **Residual fields:**
  - `RemarkWidget.WidgetPassEffect`: the widget node in the model holds only name, data and position. The residual `meta: null` and the `undefined` fields that `Object.assign` leaves (src/plugins/remarkWidget.ts:26-33) are not represented.
  - Null and undefined are not distinguished for `meta`.
- `CodeMetaData.ParseCodeMetaData`: the contract states distinct keys. What each key maps to is stated by the lemmas in `CodeMetaDataProperties`, for argument shapes (single, pair, quoted, bare, duplicate), not as one closed formula for every input.
- `CodeMetaData.NumberValue`: states only non-negativity, plus the round trip for integers (`DecimalNumberValue`). Fractional literals are not related back to their digits.
- `BuildAllPages.AliasEntries`: its own contract states the length; the contents are stated in `AliasEntriesAt`.
- `BuildPage.PropertiesFor`: with duplicate language keys in a properties map, which value is taken is left open (parsed YAML cannot have duplicate keys).

Two places where the documentation and the code disagree, or may disagree; the model follows the code:

- src/schemas/pageRouteSchema.ts:10 and :24 say a route may contain lowercase letters and `-`. The pattern at line 4 also accepts digits, and so does `IsRoutePath`.
- src/constants/common.ts:14 says an id holds letters, numbers, `_` and `-`. The pattern `[\w-]` at line 33 means exactly ASCII letters, digits, `_` and `-`, and `IsEntityChar` accepts exactly those. The comment's "letters" may just mean ASCII letters, in which case the two agree; the model follows the pattern either way.
