# Version globbing, Link-header parsing and log escaping

This project is a Dafny model of the string-processing core of a GitHub Action that
deletes package versions. It covers three parts.

- **`VersionGlobber`** turns glob patterns for version names into anchored regular
  expressions and filters version names with include and exclude lists.
  - **Translator** (`GlobToRegex`): a left-to-right scan that handles
    - runs of `*` and `?`;
    - `[...]` / `[!...]` character classes, built by `BuildRegexCharClass`;
    - nested `{a,b}` alternation, which recursively translates every alternative;
    - backslash escapes.

    Every malformed construct falls back to a literal.
  - **Splitter** (`SplitByCommaOutsideBraces`): splits at commas that are outside braces.
  - **Compiler** (`CompilePatterns`): splits the patterns, drops blank pieces, trims them
    and anchors each one with `^…$`.
  - **Facade** (`IsMatch`, `CreateMatcher`, `Filter`): applies the include/exclude rule.
- **`HttpExtensions.ParseLinkHeader`** reads the values of the HTTP `Link` header into a
  dictionary from relation type to URL. These are GitHub's pagination links, a simplified
  reading of section 3 of RFC 8288.
- **`LoggingExtensions.Escape`** percent-encodes CR, LF, `]` and `:` in text written to
  GitHub Actions workflow-command log lines.

## Layout

- `glob_spec.dfy` (module `GlobSpec`) states what the translator computes, as functions
  on the part of the pattern still to be scanned:
  - `Translate`, with `TranslateBracket`, `TranslateBrace` and `Alternation`;
  - the scanners `ClosingBracket` and `ClosingBrace`;
  - the class builder `CharClassOf` / `ClassBody`;
  - the splitter `SplitPieces` / `SplitPatterns`.
- `version_globber.dfy` (module `VersionGlobber`) holds the C# loops as methods. They use
  the same indices, depth counters and `havePrevChar` / `prevChar` state, and each is
  proved to return exactly the value of its function in `GlobSpec`. The cases of
  `GlobToRegex`'s `switch` and of `BuildRegexCharClass`'s loop body are small methods that
  the loop dispatches to.
- `match_spec.dfy` (module `MatchSpec`) states what pattern lists compile to and which
  strings an include/exclude pair admits. The regex engine is a parameter
  `matches: (Regex, seq<char>) -> bool`.
- `glob_lemmas.dfy` and `match_lemmas.dfy` hold the properties of the translator,
  splitter, compiler and facade.
- `scanners.dfy` (module `Scanning`) characterises the two scanners and the splitter
  against an independent reading of the text: which characters a backslash escapes
  (`Escaped`) and the brace depth before each position (`BraceDepth`, `SplitDepth`).
- `http_extensions.dfy` holds the parser as a nested loop writing into a `map`, proved
  equal to `Parsed`. `http_lemmas.dfy` holds its properties.
- `logging_extensions.dfy` holds `Escape` and its properties.
- `strings.dfy` models the .NET string operations that the core uses: `Trim`,
  `IsNullOrWhiteSpace`, `Split`, `Replace` and `string.Join`.
- `enumerables.dfy` models LINQ `Where`, `Any` and `All`.
- `wrappers.dfy` defines `Option`, which stands for a null reference.

## Model

| member | source | states |
|---|---|---|
| VersionGlobber.IsMatch | Infrastructure/Versions/VersionGlobber.cs:19-26 | a null input or pattern counts as empty, and the answer is whether the engine matches the input against `^` + translated pattern + `$` with the given case option |
| VersionGlobber.CreateMatcher | Infrastructure/Versions/VersionGlobber.cs:81-95 | the returned predicate holds for `s` exactly when it is admitted by the compiled include and exclude lists (`Admits`) |
| VersionGlobber.Filter | Infrastructure/Versions/VersionGlobber.cs:100-123 | the result is `Filtered`: the inputs the matcher admits, in their original order, with duplicates kept |
| VersionGlobber.CompilePatterns | Infrastructure/Versions/VersionGlobber.cs:379-404 | the regex list is `Compiled`: none for a null list, otherwise one anchored regex per non-blank comma piece, trimmed, in order |
| VersionGlobber.SelectPieces | Infrastructure/Versions/VersionGlobber.cs:388 | the `SelectMany` over the patterns yields the splitter's pieces of each pattern, concatenated in order |
| VersionGlobber.FindClosingBracket | Infrastructure/Versions/VersionGlobber.cs:406-423 | the loop returns `ClosingBracket`: the first `]` from `from` on that is not preceded by a skipping backslash, or -1 |
| VersionGlobber.FindClosingBrace | Infrastructure/Versions/VersionGlobber.cs:425-449 | the loop returns `ClosingBrace` at depth 1: the `}` that brings the depth to zero, with escaped characters skipped, or -1 |
| VersionGlobber.BuildRegexCharClass | Infrastructure/Versions/VersionGlobber.cs:265-377 | the content and negation flag equal `CharClassOf(cls)`: a leading `!` or `^` negates, and the members are translated by `ClassBody` |
| VersionGlobber.ClassMember | Infrastructure/Versions/VersionGlobber.cs:291-374 | one iteration of the class loop advances the index and emits exactly the prefix of the remaining `ClassBody` |
| VersionGlobber.ClassEscapeAt | Infrastructure/Versions/VersionGlobber.cs:295-321 | `\X` in a class emits `X`, escaped when it is `\`, `]`, `^` or `-`; a trailing `\` emits `\\`; either one becomes the previous member |
| VersionGlobber.ClassDashAt | Infrastructure/Versions/VersionGlobber.cs:323-360 | `-` emits an unescaped range `-` only when there is a previous member, a next character that is not `]`, and prev ≤ the next character (looking past one backslash); otherwise it emits `\-` and becomes the previous member |
| VersionGlobber.SplitByCommaOutsideBraces | Infrastructure/Versions/VersionGlobber.cs:454-511 | the loop yields `SplitPatterns(input)`, tracking brace depth with a floor of 0 and copying `\`+next verbatim |
| VersionGlobber.GlobToRegex | Infrastructure/Versions/VersionGlobber.cs:128-263 | the translation loop returns `Translate(pattern)` |
| VersionGlobber.TranslateCase | Infrastructure/Versions/VersionGlobber.cs:135-259 | one `switch` step at index `i` moves forward and emits the prefix of `Translate` of the rest up to the new index |
| VersionGlobber.EscapeAt | Infrastructure/Versions/VersionGlobber.cs:139-159 | the backslash case emits the translation of `\X` or of a trailing `\` and resumes after what it consumed |
| VersionGlobber.StarsAt | Infrastructure/Versions/VersionGlobber.cs:161-170 | a run of `*` is consumed whole and emits `.*` once |
| VersionGlobber.CharAt | Infrastructure/Versions/VersionGlobber.cs:172-258 | the one-character cases consume one character: `?` emits `.` (lines 172-175); `. + ( ) ^ $ } ]` and `\|` are emitted backslash-escaped and every other plain character is copied (lines 238-258), as one step of `Translate` |
| VersionGlobber.BracketAt | Infrastructure/Versions/VersionGlobber.cs:177-215 | the `[` case emits the regex class and resumes after `]`, or emits `\[` and resumes just after `[`, as `Translate` prescribes |
| VersionGlobber.ClassAt | Infrastructure/Versions/VersionGlobber.cs:182-207 | the class text is non-empty exactly when the body is usable (neither empty nor `!`, with non-empty content), and it is then `[`, `^` when negated, the content and `]` |
| VersionGlobber.BraceAt | Infrastructure/Versions/VersionGlobber.cs:217-236 | the `{` case emits `(?:`alternation`)` and resumes after the matching `}`, or emits `\{` and resumes just after `{` |
| VersionGlobber.TranslateAlternatives | Infrastructure/Versions/VersionGlobber.cs:222-227 | the alternatives of the brace body are each translated recursively and joined with `\|` (`Alternation`) |
| GlobSpec.StarRun | Infrastructure/Versions/VersionGlobber.cs:164-167 | the length of the leading run of `*`: all of it is `*` and the next character is not |
| GlobSpec.ClosingBracket | Infrastructure/Versions/VersionGlobber.cs:406-423 | the result is -1 or the index, at or after `from`, of a `]`; which `]` it is, and when it is -1, is stated by `Scanning.ClosingBracketIsFirst` |
| GlobSpec.ClosingBrace | Infrastructure/Versions/VersionGlobber.cs:425-449 | the result is -1 or the index, at or after `from`, of a `}`; that it is the depth-matched one, and when it is -1, is stated by `Scanning.ClosingBraceIsFirst` |
| GlobSpec.ClosingBracketShift | Infrastructure/Versions/VersionGlobber.cs:406-423 | scanning a suffix of the pattern finds the same `]` as scanning the whole pattern, shifted by the offset |
| GlobSpec.ClosingBraceShift | Infrastructure/Versions/VersionGlobber.cs:425-449 | scanning a suffix for the depth-matched `}` finds the same index as scanning the whole pattern, shifted by the offset |
| GlobSpec.ClassBody | Infrastructure/Versions/VersionGlobber.cs:291-374 | the class content is empty exactly when no member is left |
| GlobSpec.ClassEscapeStep | Infrastructure/Versions/VersionGlobber.cs:298-311 | `\X` emits `\X` when X is `\ ] ^ -`, and otherwise `X`; X becomes the previous member |
| GlobSpec.ClassTrailingStep | Infrastructure/Versions/VersionGlobber.cs:312-318 | a trailing backslash in a class emits `\\` and becomes the previous member |
| GlobSpec.ClassDashStep | Infrastructure/Versions/VersionGlobber.cs:323-359 | `-` is a range only under the four conditions of the source (previous member, not last, next not `]`, prev ≤ peeked next); otherwise it emits `\-` |
| GlobSpec.ClassCharStep | Infrastructure/Versions/VersionGlobber.cs:362-373 | `]` and `^` members are escaped, other members are copied, and each becomes the previous member |
| GlobSpec.SplitPieces | Infrastructure/Versions/VersionGlobber.cs:464-510 | no piece is longer than the text it came from; where the pieces end is stated by `Scanning.CommaAfter` and `Scanning.ScanToEnd` |
| GlobSpec.SplitPatterns | Infrastructure/Versions/VersionGlobber.cs:454-511 | no piece is longer than the input; that it splits exactly at the top-level commas is stated by `Scanning.SplitAtTopComma` and `Scanning.SplitWithoutTopComma` |
| GlobSpec.TranslateAtEscape | Infrastructure/Versions/VersionGlobber.cs:139-159 | at a backslash, `Translate` emits `EscapedLiteral` of the next character and skips two, or emits `\\` for a trailing backslash |
| GlobSpec.TranslateAtStars | Infrastructure/Versions/VersionGlobber.cs:161-170 | at a run of `*`, `Translate` emits `.*` and resumes after the whole run |
| GlobSpec.TranslateAtChar | Infrastructure/Versions/VersionGlobber.cs:172-175 | at `?` `Translate` emits `.`; at a regex-only metacharacter it emits that character escaped; otherwise it copies the character |
| GlobSpec.TranslateAtBracket | Infrastructure/Versions/VersionGlobber.cs:177-215 | at `[` with closing `]` at `e`, `Translate` emits the class and resumes after `e` when the body is usable; otherwise it emits `\[` and resumes after `[` |
| GlobSpec.BracketStep | Infrastructure/Versions/VersionGlobber.cs:177-215 | given the class text the `[` case computed (empty for a literal `[`), the translation is that class followed by the rest after `]`, or `\[` followed by the rest after `[` |
| GlobSpec.Translate | Infrastructure/Versions/VersionGlobber.cs:128-263 | GlobToRegex on the rest of the glob, one case per branch of the `switch`; its steps are stated by the `TranslateAt` lemmas and its properties by `GlobLemmas`, and `VersionGlobber.GlobToRegex` is proved to return it |
| GlobSpec.EscapedAfterBackslash | Infrastructure/Versions/VersionGlobber.cs:145-148 | the characters of `"[]{}().+*?^$\|\\"` that an escape writes with a backslash |
| GlobSpec.EscapedLiteral | Infrastructure/Versions/VersionGlobber.cs:143-150 | an escaped character is written with a backslash exactly when it is in that set |
| GlobSpec.RegexOnlyMeta | Infrastructure/Versions/VersionGlobber.cs:238-253 | `.+()^$\|` and a stray `}` or `]` are the characters written with a backslash in front |
| GlobSpec.TranslateBracket | Infrastructure/Versions/VersionGlobber.cs:177-215 | `[` opens a class when a `]` closes it and the body is usable, and is otherwise the literal `\[` with only the `[` consumed |
| GlobSpec.ClassUsable | Infrastructure/Versions/VersionGlobber.cs:184-198 | a body makes a class unless it is empty, a lone `!`, or its content is empty |
| GlobSpec.ClassRegex | Infrastructure/Versions/VersionGlobber.cs:200-208 | the class is `[`, a `^` when negated, the content, and `]` |
| GlobSpec.CharClassOf | Infrastructure/Versions/VersionGlobber.cs:265-377 | BuildRegexCharClass: a leading `!` or `^` negates, the rest is `ClassBody` from there |
| GlobSpec.TranslateBrace | Infrastructure/Versions/VersionGlobber.cs:217-236 | `{` with a depth-matched `}` becomes `(?:` + the alternation + `)`; otherwise the literal `\{` |
| GlobSpec.Alternation | Infrastructure/Versions/VersionGlobber.cs:222-227 | the body's top-level pieces, each translated, joined with `\|` |
| GlobSpec.TranslateAtBrace | Infrastructure/Versions/VersionGlobber.cs:217-236 | at `{` with depth-matched `}` at `e`, `Translate` emits `(?:` + `Alternation` of the body + `)` and resumes after `e`; with none it emits `\{` |
| GlobLemmas.Stars | Infrastructure/Versions/VersionGlobber.cs:161-170 | a run of `n` stars |
| GlobLemmas.WildcardTranslation | Infrastructure/Versions/VersionGlobber.cs:161-175 | any run of one or more `*` translates to exactly one `.*`, and `?` translates to `.` |
| GlobLemmas.ClassContentEmpty | Infrastructure/Versions/VersionGlobber.cs:265-377 | the class content is empty exactly for the bodies empty, `!` and `^` |
| GlobLemmas.BracketFallback | Infrastructure/Versions/VersionGlobber.cs:177-215 | `[` becomes the literal `\[`, with only the `[` consumed, exactly when there is no closing `]` or the body is empty, `!` or `^`; otherwise it becomes `ClassRegex` of the body |
| GlobLemmas.BraceFallback | Infrastructure/Versions/VersionGlobber.cs:217-236 | `{` becomes the literal `\{` exactly when there is no depth-matched `}` |
| GlobLemmas.LiteralPassThrough | Infrastructure/Versions/VersionGlobber.cs:255-258 | a glob without glob or regex special characters translates to itself |
| GlobLemmas.LiteralPrefix | Infrastructure/Versions/VersionGlobber.cs:255-258 | a prefix without special characters is copied, and the rest is translated independently |
| GlobLemmas.Quote | Infrastructure/Versions/VersionGlobber.cs:139-159 | every character written as `EscapedLiteral` writes it, so quoting at most doubles the length |
| GlobLemmas.QuotedGlobIsQuotedRegex | Infrastructure/Versions/VersionGlobber.cs:139-159 | a glob that backslash-quotes every metacharacter of a text translates to that same quoted text: `Translate(Quote(s)) == Quote(s)` |
| GlobLemmas.TranslateNonEmpty | Infrastructure/Versions/VersionGlobber.cs:128-263 | the translation is empty exactly when the glob is |
| GlobLemmas.ClassTokensAppend | Infrastructure/Versions/VersionGlobber.cs:291-374 | appending one class token (a character, or a backslash and a character) keeps the content a sequence of tokens |
| GlobLemmas.ClassBodyTokens | Infrastructure/Versions/VersionGlobber.cs:291-374 | every class content is a sequence of single characters, `\`-escapes and range dashes, with no unescaped `]` or `^` |
| GlobLemmas.CharClassWellFormed | Infrastructure/Versions/VersionGlobber.cs:265-377 | the content `BuildRegexCharClass` returns cannot close the regex class early or negate it |
| GlobLemmas.SplitPiecesStep | Infrastructure/Versions/VersionGlobber.cs:466-504 | one non-splitting step consumes at least one character and appends it, or the escape pair, to the current piece |
| GlobLemmas.SplitPiecesEmpty | Infrastructure/Versions/VersionGlobber.cs:456-510 | the splitter yields nothing exactly when there is no text at all |
| GlobLemmas.JoinCommaStep | Infrastructure/Versions/VersionGlobber.cs:495-500 | splitting at a comma keeps the pieces joinable back into the text |
| GlobLemmas.SplitPiecesJoinComma | Infrastructure/Versions/VersionGlobber.cs:495-500 | a depth-0 comma ends the current piece, and the pieces joined with `,` give back the text, up to a trailing comma |
| GlobLemmas.SplitPiecesJoin | Infrastructure/Versions/VersionGlobber.cs:464-510 | the pieces joined with `,` give back the scanned text, up to one trailing comma that yields no piece |
| GlobLemmas.SplitPatternsJoin | Infrastructure/Versions/VersionGlobber.cs:454-511 | the pieces joined with `,` are the input or the input minus its final comma, and there are no pieces exactly when the input is empty |
| GlobLemmas.SplitPiecesLast | Infrastructure/Versions/VersionGlobber.cs:507-510 | the last piece of a scan is empty only when the text ends with a comma: the empty piece after a final comma is not yielded |
| GlobLemmas.SplitPatternsLast | Infrastructure/Versions/VersionGlobber.cs:507-510 | the last piece is empty only when the input ends with a comma, so the empty piece after a final comma is never yielded |
| GlobLemmas.SplitPiecesNoComma | Infrastructure/Versions/VersionGlobber.cs:464-510 | a text with no comma yields one piece, the whole text, or none when there is no text |
| GlobLemmas.SplitPatternsNoComma | Infrastructure/Versions/VersionGlobber.cs:454-511 | a non-empty pattern with no comma is its own single piece |
| GlobLemmas.SplitExampleBraces | Infrastructure/Versions/VersionGlobber.cs:451-453 | `{a,b},c` splits into `{a,b}` and `c` |
| GlobLemmas.SplitExampleBracesInside | Infrastructure/Versions/VersionGlobber.cs:485-495 | a comma inside braces does not split |
| GlobLemmas.SplitExampleBracesAfter | Infrastructure/Versions/VersionGlobber.cs:495-510 | after the braces close, a comma splits again |
| GlobLemmas.SplitExampleEmpty | Infrastructure/Versions/VersionGlobber.cs:495-510 | `a,,b,` yields `a`, an empty piece and `b`, with no trailing empty piece |
| GlobLemmas.SplitExampleSimple | Infrastructure/Versions/VersionGlobber.cs:454-511 | `1,2` splits into `1` and `2` |
| GlobLemmas.ClassRangeExamples | Infrastructure/Versions/VersionGlobber.cs:323-350 | `1-3` is a range, `!1-3` its negation, and the reversed `3-1` has a literal dash |
| GlobLemmas.ClassDashExamples | Infrastructure/Versions/VersionGlobber.cs:323-366 | a trailing or leading dash is literal, and a lone `^` is a negation with empty content |
| GlobLemmas.TranslateExampleStar | Infrastructure/Versions/VersionGlobber.cs:161-170 | `test-*` translates to `test-.*` |
| GlobLemmas.TranslateExampleEmptyClass | Infrastructure/Versions/VersionGlobber.cs:184-189 | `[]` translates to the literal `\[\]` |
| GlobLemmas.TranslateExampleClass | Infrastructure/Versions/VersionGlobber.cs:177-209 | `[!0-9]` translates to `[^0-9]` |
| GlobLemmas.AlternationExample | Infrastructure/Versions/VersionGlobber.cs:222-227 | the alternatives `1,2` become `1\|2` |
| GlobLemmas.ClosingBraceExample | Infrastructure/Versions/VersionGlobber.cs:425-449 | the brace opened at the start of `{1,2}` closes at index 4 |
| GlobLemmas.TranslateExampleBraces | Infrastructure/Versions/VersionGlobber.cs:217-229 | `{1,2}` translates to `(?:1\|2)` |
| Scanning.Escaped | Infrastructure/Versions/VersionGlobber.cs:410-415 | a character is escaped when the characters before it, from where the scan starts, end in an odd run of backslashes |
| Scanning.UnescapedAt | Infrastructure/Versions/VersionGlobber.cs:406-423 | position `k` holds `c` and is not escaped |
| Scanning.BraceStep | Infrastructure/Versions/VersionGlobber.cs:438-442 | `{` opens a level, `}` closes one, any other character leaves the depth |
| Scanning.BraceDepth | Infrastructure/Versions/VersionGlobber.cs:425-449 | the depth before position `k`: the starting depth plus the steps of the unescaped characters before it |
| Scanning.ClosesBrace | Infrastructure/Versions/VersionGlobber.cs:442-444 | an unescaped `}` at depth 1, which brings the depth to 0 |
| Scanning.EscapedAfterPlain | Infrastructure/Versions/VersionGlobber.cs:410-415 | starting one character later, past a character that is not a backslash, escapes nothing differently |
| Scanning.EscapedAfterPair | Infrastructure/Versions/VersionGlobber.cs:410-415 | starting past a backslash and the character it escapes escapes nothing differently |
| Scanning.DepthAfterPlain | Infrastructure/Versions/VersionGlobber.cs:438-442 | the depth from one character later is the depth with that character's step added |
| Scanning.DepthAfterPair | Infrastructure/Versions/VersionGlobber.cs:431-435 | an escape pair leaves the depth unchanged |
| Scanning.ClosingBracketIsFirst | Infrastructure/Versions/VersionGlobber.cs:406-423 | `ClosingBracket` is -1 exactly when no unescaped `]` follows, and otherwise the first unescaped `]` |
| Scanning.ClosingBraceIsFirst | Infrastructure/Versions/VersionGlobber.cs:425-449 | `ClosingBrace` is -1 exactly when no unescaped `}` brings the depth to 0, and otherwise the first such `}` |
| Scanning.SplitDepth | Infrastructure/Versions/VersionGlobber.cs:485-493 | the splitter's brace depth before position `k`, floored at 0, counted over the unescaped braces |
| Scanning.TopComma | Infrastructure/Versions/VersionGlobber.cs:495-500 | an unescaped comma at depth 0: where the splitter cuts |
| Scanning.ScanStep | Infrastructure/Versions/VersionGlobber.cs:466-504 | away from a top-level comma, one step of the splitter moves to the next unescaped position and appends what it passed to the current piece |
| Scanning.ScanWhole | Infrastructure/Versions/VersionGlobber.cs:466-504 | a text with no top-level comma is taken into the current piece whole |
| Scanning.ScanToEnd | Infrastructure/Versions/VersionGlobber.cs:466-510 | a non-empty text with no top-level comma ends as one piece, the whole text |
| Scanning.ScanPrefix | Infrastructure/Versions/VersionGlobber.cs:466-504 | a prefix with no top-level comma, closed braces and no open escape is the pending piece when the scan reaches what follows |
| Scanning.Unsplit | Infrastructure/Versions/VersionGlobber.cs:454-511 | a text that holds no top-level comma, does not end in an escaping backslash and closes its braces |
| Scanning.SplitAtTopComma | Infrastructure/Versions/VersionGlobber.cs:454-511 | `SplitPatterns(a + "," + b) == [a] + SplitPatterns(b)` for every such `a`: the first piece ends at the first top-level comma |
| Scanning.CommaAfter | Infrastructure/Versions/VersionGlobber.cs:495-500 | the comma after such a prefix ends the first piece |
| Scanning.SplitWithoutTopComma | Infrastructure/Versions/VersionGlobber.cs:454-511 | a non-empty text with no top-level comma is one piece, itself |
| GlobLemmas.RangeToBracket | Infrastructure/Versions/VersionGlobber.cs:323-341 | the class body `+-[` is a range ending in an unescaped `[`, so `[+-[]` translates to `[+-[]` |
| MatchSpec.Anchored | Infrastructure/Versions/VersionGlobber.cs:395-398 | the regex text of a glob is `^` + its translation + `$` |
| MatchSpec.NotBlank | Infrastructure/Versions/VersionGlobber.cs:390-393 | a piece that `IsNullOrWhiteSpace` rejects is skipped |
| MatchSpec.Pieces | Infrastructure/Versions/VersionGlobber.cs:388 | `SelectMany(SplitByCommaOutsideBraces)`: the pieces of every pattern, concatenated in order |
| MatchSpec.CompiledPiece | Infrastructure/Versions/VersionGlobber.cs:390-400 | a blank piece adds no regex; any other adds the anchored translation of the trimmed piece |
| MatchSpec.CompiledPieces | Infrastructure/Versions/VersionGlobber.cs:388-401 | the regexes of the pieces, in order |
| MatchSpec.Compiled | Infrastructure/Versions/VersionGlobber.cs:383-403 | no regex for a null list, otherwise the regexes of its pieces |
| MatchSpec.AdmittedBy | Infrastructure/Versions/VersionGlobber.cs:89-94 | the predicate CreateMatcher returns is `Admits` on the two compiled lists |
| MatchSpec.PiecesPrefix | Infrastructure/Versions/VersionGlobber.cs:388 | the pieces of one more pattern are the earlier pieces followed by that pattern's pieces |
| MatchSpec.CompiledPiecesPrefix | Infrastructure/Versions/VersionGlobber.cs:388-401 | compiling one more piece appends that piece's regex, if it is not blank |
| MatchSpec.CompiledPiecesAppend | Infrastructure/Versions/VersionGlobber.cs:388-401 | compiling concatenated piece lists concatenates their regex lists |
| MatchSpec.CompiledPiecesSnoc | Infrastructure/Versions/VersionGlobber.cs:388-401 | compiling a list with one more piece at the end appends that piece's regexes |
| MatchSpec.Admits | Infrastructure/Versions/VersionGlobber.cs:89-94 | a string is admitted exactly when (there are no includes or some include matches it) and (no exclude matches it) |
| MatchSpec.Filtered | Infrastructure/Versions/VersionGlobber.cs:106-122 | each string occurs in the result as often as in the inputs when it is admitted and not at all otherwise, and the result is a subsequence of the inputs (order kept) |
| MatchLemmas.AnchorAll | Infrastructure/Versions/VersionGlobber.cs:395-400 | each glob becomes the regex `^` + translation of the trimmed glob + `$`, one per glob, in order |
| MatchLemmas.AnchorAllSnoc | Infrastructure/Versions/VersionGlobber.cs:395-400 | anchoring one more glob appends its regex |
| MatchLemmas.CompiledPiecesAreFilterThenAnchor | Infrastructure/Versions/VersionGlobber.cs:388-401 | the compile loop equals first dropping the blank pieces and then anchoring the trimmed rest |
| MatchLemmas.CompiledShape | Infrastructure/Versions/VersionGlobber.cs:388-401 | every compiled regex carries the case option and is `^` + translation of a trimmed non-blank piece + `$` |
| MatchLemmas.CompiledEmpty | Infrastructure/Versions/VersionGlobber.cs:388-393 | the list compiles to no regex exactly when all its pieces are blank |
| MatchLemmas.SinglePattern | Infrastructure/Versions/VersionGlobber.cs:388-401 | a non-blank pattern without commas compiles to one regex, the anchored translation of its trimmed form |
| MatchLemmas.MatcherAgreesWithIsMatch | Infrastructure/Versions/VersionGlobber.cs:19-26 | for a trimmed single pattern with no excludes, the matcher agrees with `IsMatch` |
| MatchLemmas.LiteralGlob | Infrastructure/Versions/VersionGlobber.cs:388-401 | a lower-case/dash name is one piece and compiles to `^name$` |
| MatchLemmas.LiteralPair | Infrastructure/Versions/VersionGlobber.cs:379-404 | two such names compile to their two anchored regexes, in order |
| MatchLemmas.PiecesOfOne | Infrastructure/Versions/VersionGlobber.cs:388 | a single-piece pattern is one piece |
| MatchLemmas.CompiledPiecesOfOne | Infrastructure/Versions/VersionGlobber.cs:388-401 | one piece compiles to its own regexes |
| MatchLemmas.PiecesOfTwo | Infrastructure/Versions/VersionGlobber.cs:388 | two single-piece patterns are two pieces |
| MatchLemmas.CompiledPiecesOfTwo | Infrastructure/Versions/VersionGlobber.cs:388-401 | two pieces compile to the first's regexes followed by the second's |
| MatchLemmas.TrimmedGlob | Infrastructure/Versions/VersionGlobber.cs:390-396 | a pattern without surrounding white space or commas compiles to the anchored translation of itself |
| MatchLemmas.DocExampleInclude | Infrastructure/Versions/VersionGlobber.cs:72-73 | the include list `test-*` compiles to `^test-.*$` |
| MatchLemmas.DocExampleExclude | Infrastructure/Versions/VersionGlobber.cs:74 | the exclude list compiles to `^test-backup$` and `^test-temp$` |
| MatchLemmas.DocExampleMatcher | Infrastructure/Versions/VersionGlobber.cs:72-78 | for any engine that matches these regexes as a regex engine does, `test-v1` is admitted and `test-backup` is not |
| Enumerables.Where | Infrastructure/Versions/VersionGlobber.cs:112-120 | the kept elements satisfy the predicate and come from the input |
| Enumerables.Any | Infrastructure/Versions/VersionGlobber.cs:91 | true exactly when some element satisfies the predicate |
| Enumerables.All | Infrastructure/Versions/VersionGlobber.cs:93 | true exactly when every element satisfies the predicate |
| Enumerables.WhereCounts | Infrastructure/Versions/VersionGlobber.cs:112-120 | `Where` keeps every copy of a satisfying element and no copy of the others |
| Enumerables.WhereOrder | Infrastructure/Versions/VersionGlobber.cs:97-99 | `Where` keeps the original order (a subsequence) |
| Enumerables.WhereAppend | Infrastructure/Versions/VersionGlobber.cs:112-120 | filtering a concatenation concatenates the filtered halves |
| Enumerables.WhereSnoc | Infrastructure/Versions/VersionGlobber.cs:112-120 | filtering one more element appends it when it satisfies the predicate |
| Enumerables.WhereAgree | Infrastructure/Versions/VersionGlobber.cs:112-120 | predicates that agree on the elements filter alike |
| Enumerables.WhereWhere | Infrastructure/Versions/VersionGlobber.cs:112-120 | two filters in a row are one filter by the conjunction |
| Enumerables.WhereAll | Infrastructure/Versions/VersionGlobber.cs:112-113 | a filter every element satisfies keeps the whole list |
| HttpExtensions.Parts | Infrastructure/Extensions/HttpExtensions.cs:28 | the parts of one header value: split on `,` with empty entries dropped |
| HttpExtensions.PartLinks | Infrastructure/Extensions/HttpExtensions.cs:28-53 | the links of the parts, in order; parts with no link contribute nothing |
| HttpExtensions.HeaderLinks | Infrastructure/Extensions/HttpExtensions.cs:26-54 | the links of all header values, in order |
| HttpExtensions.Store | Infrastructure/Extensions/HttpExtensions.cs:52 | `result[rel] = url` for each link in turn |
| HttpExtensions.Parsed | Infrastructure/Extensions/HttpExtensions.cs:17-57 | the empty dictionary without a `Link` header, otherwise every link stored in order |
| HttpExtensions.CleanRel | Infrastructure/Extensions/HttpExtensions.cs:37-40 | the cleaned relation type contains no `"` |
| HttpExtensions.CleanUrl | Infrastructure/Extensions/HttpExtensions.cs:42-45 | the cleaned URL contains no `<` or `>` |
| HttpExtensions.LinkOf | Infrastructure/Extensions/HttpExtensions.cs:30-50 | a part gives a link only if it splits into exactly two segments, and a link has non-blank rel and url, no `"` in rel and no angle brackets in url |
| HttpExtensions.PartLinksPrefix | Infrastructure/Extensions/HttpExtensions.cs:28-53 | the links of one more part are the earlier links followed by that part's link, if any |
| HttpExtensions.HeaderLinksPrefix | Infrastructure/Extensions/HttpExtensions.cs:26-54 | the links of one more header value are the earlier links followed by that value's links |
| HttpExtensions.StoreAppend | Infrastructure/Extensions/HttpExtensions.cs:52 | storing two runs of links in turn is storing their concatenation |
| HttpExtensions.ParseLinkHeader | Infrastructure/Extensions/HttpExtensions.cs:17-57 | the nested loops build exactly `Parsed(headers)`: empty without a Link header, otherwise every usable part stored in order |
| HttpLemmas.NoLinkHeader | Infrastructure/Extensions/HttpExtensions.cs:19-22 | without a Link header the dictionary is empty |
| HttpLemmas.StoreKeys | Infrastructure/Extensions/HttpExtensions.cs:52 | the keys after storing are the old keys plus the rels of the links |
| HttpLemmas.StoreLastWins | Infrastructure/Extensions/HttpExtensions.cs:52 | a rel maps to the url of its last link |
| HttpLemmas.StoreUntouched | Infrastructure/Extensions/HttpExtensions.cs:52 | a key no link names keeps its presence and value |
| HttpLemmas.PartLinksClean | Infrastructure/Extensions/HttpExtensions.cs:28-53 | every link of a header value is clean: non-blank, no `"` in rel, no `<`/`>` in url |
| HttpLemmas.HeaderLinksClean | Infrastructure/Extensions/HttpExtensions.cs:26-54 | every link of all header values is clean |
| HttpLemmas.StoreClean | Infrastructure/Extensions/HttpExtensions.cs:52 | storing clean links into a clean dictionary keeps it clean |
| HttpLemmas.ParsedClean | Infrastructure/Extensions/HttpExtensions.cs:37-52 | no stored rel is blank or has `"`, and no stored url is blank or has `<` or `>` |
| HttpLemmas.FormattedParts | Infrastructure/Extensions/HttpExtensions.cs:28 | one formatted part per link |
| HttpLemmas.QuotedNoRel | Infrastructure/Extensions/HttpExtensions.cs:39 | quoting a rel that has no `rel=` in it introduces none |
| HttpLemmas.CleanRelFormatted | Infrastructure/Extensions/HttpExtensions.cs:37-40 | ` rel="x"` cleans to `x` |
| HttpLemmas.StripQuotes | Infrastructure/Extensions/HttpExtensions.cs:40 | removing `"` from `"x"` gives `x` |
| HttpLemmas.TrimFormattedUrl | Infrastructure/Extensions/HttpExtensions.cs:43 | trimming a possibly space-led `<…>` leaves `<…>` |
| HttpLemmas.StripAngles | Infrastructure/Extensions/HttpExtensions.cs:44-45 | removing `<` and `>` from `<x>` gives `x` |
| HttpLemmas.CleanUrlFormatted | Infrastructure/Extensions/HttpExtensions.cs:42-45 | `<x>`, possibly space-led, cleans to `x` |
| HttpLemmas.SplitAtSemicolon | Infrastructure/Extensions/HttpExtensions.cs:30 | splitting at the first `;` gives the two segments |
| HttpLemmas.FormatLinkShape | Infrastructure/Extensions/HttpExtensions.cs:30 | a formatted link is the url segment, `;`, and the rel segment |
| HttpLemmas.FormatLinkNoComma | Infrastructure/Extensions/HttpExtensions.cs:28 | a formatted link has no comma and is not empty |
| HttpLemmas.LinkOfFormatted | Infrastructure/Extensions/HttpExtensions.cs:30-50 | the part `<url>; rel="rel"` parses back to that link |
| HttpLemmas.PartLinksFormatted | Infrastructure/Extensions/HttpExtensions.cs:28-53 | formatted parts parse back to their links, in order |
| HttpLemmas.HeaderRoundTrip | Infrastructure/Extensions/HttpExtensions.cs:17-57 | parsing a GitHub-style header built from links gives the dictionary of those links, last wins |
| HttpLemmas.OneHeaderValue | Infrastructure/Extensions/HttpExtensions.cs:26-28 | a single header value yields the links of its parts |
| HttpLemmas.GitHubHeaderLinks | Infrastructure/Extensions/HttpExtensions.cs:28-53 | the parts of a GitHub-style header parse back to the links it was built from |
| HttpLemmas.PartsOfGitHubHeader | Infrastructure/Extensions/HttpExtensions.cs:28 | splitting a GitHub-style header at `,` gives back its formatted parts |
| HttpLemmas.GitHubPagination | Infrastructure/Extensions/HttpExtensions.cs:17-57 | a `next`/`last` pagination header parses to the map of those two URLs |
| HttpLemmas.StoreTwo | Infrastructure/Extensions/HttpExtensions.cs:52 | storing two links is two dictionary updates in order |
| HttpLemmas.RelIsFormattable | Infrastructure/Extensions/HttpExtensions.cs:39 | a lower-case rel without `r` cannot contain `rel=`, so it survives cleaning |
| LoggingExtensions.Special | Infrastructure/Logging/LoggingExtensions.cs:26 | CR, LF, `]` and `:` are the characters replaced |
| LoggingExtensions.EscapeEach | Infrastructure/Logging/LoggingExtensions.cs:26 | every character replaced by its own escape, in order; `EscapeIsPerChar` proves `Escape` equal to it |
| LoggingExtensions.SpecialCount | Infrastructure/Logging/LoggingExtensions.cs:26 | how many characters are replaced; `EscapeLength` adds two characters per replacement |
| LoggingExtensions.Escape | Infrastructure/Logging/LoggingExtensions.cs:24-27 | the output contains no CR, LF, `]` or `:` |
| LoggingExtensions.EscapeChar | Infrastructure/Logging/LoggingExtensions.cs:26 | each of the four characters becomes a three-character `%XX` code; any other character is copied |
| LoggingExtensions.EscapeOne | Infrastructure/Logging/LoggingExtensions.cs:26 | on one character the `Replace` chain is `EscapeChar` |
| LoggingExtensions.EscapeAppend | Infrastructure/Logging/LoggingExtensions.cs:26 | the chain escapes a concatenation piece by piece |
| LoggingExtensions.EscapeIsPerChar | Infrastructure/Logging/LoggingExtensions.cs:26 | the chain of four `Replace` calls equals one per-character map, because no replacement text reintroduces a replaced character |
| LoggingExtensions.EscapeLength | Infrastructure/Logging/LoggingExtensions.cs:26 | the output length is the input length plus twice the number of replaced characters |
| LoggingExtensions.EscapeEachPlain | Infrastructure/Logging/LoggingExtensions.cs:26 | text without those characters is unchanged |
| LoggingExtensions.EscapeIdempotent | Infrastructure/Logging/LoggingExtensions.cs:26 | escaping twice is escaping once |
| LoggingExtensions.EscapeNotInjective | Infrastructure/Logging/LoggingExtensions.cs:26 | `:` and the literal text `%3A` escape alike, because `%` is not escaped |
| Strings.IsWhiteSpace | Infrastructure/Extensions/HttpExtensions.cs:47 | the White_Space characters of `char.IsWhiteSpace` |
| Strings.IsBlank | Infrastructure/Extensions/HttpExtensions.cs:47 | `IsNullOrWhiteSpace` for a string that is not null: every character is white space |
| Strings.Join | Infrastructure/Versions/VersionGlobber.cs:227 | `string.Join` with a one-character separator; `JoinSplitOn` and `SplitOnJoin` relate it to `SplitOn` |
| Strings.StartsWithIgnoreCase | Infrastructure/Extensions/HttpExtensions.cs:39 | the text starts with the pattern under ordinal case-insensitive comparison |
| Strings.AsciiUpper | Infrastructure/Extensions/HttpExtensions.cs:39 | the upper case of an ASCII letter; other characters are their own upper case |
| Strings.NonEmpty | Infrastructure/Extensions/HttpExtensions.cs:28 | the fields `RemoveEmptyEntries` keeps |
| Strings.TrimStart | Infrastructure/Versions/VersionGlobber.cs:396 | the result is a suffix that starts with no white space, and only white space was removed |
| Strings.TrimEnd | Infrastructure/Versions/VersionGlobber.cs:396 | the result is a prefix that ends with no white space, and only white space was removed |
| Strings.Trim | Infrastructure/Versions/VersionGlobber.cs:396 | the result has no white space at either end, and is empty exactly when the input is blank |
| Strings.TrimUnchanged | Infrastructure/Extensions/HttpExtensions.cs:38 | a string without white space at the ends trims to itself |
| Strings.TrimLeadingSpace | Infrastructure/Extensions/HttpExtensions.cs:38 | one leading space is removed |
| Strings.SplitOn | Infrastructure/Extensions/HttpExtensions.cs:28 | `Split(',')` yields at least one field, and no field contains the separator |
| Strings.JoinSplitOn | Infrastructure/Extensions/HttpExtensions.cs:28 | joining the fields with the separator gives back the input |
| Strings.SplitOnJoin | Infrastructure/Extensions/HttpExtensions.cs:28 | splitting separator-free parts joined by the separator gives back the parts |
| Strings.SplitOnNoSeparator | Infrastructure/Extensions/HttpExtensions.cs:28 | text without the separator is one field |
| Strings.SplitOnAfter | Infrastructure/Extensions/HttpExtensions.cs:28 | the first field ends at the first separator |
| Strings.RemoveEmpty | Infrastructure/Extensions/HttpExtensions.cs:28 | `RemoveEmptyEntries` keeps every non-empty field as often as it occurs and in its order (a subsequence of the fields), and no empty field |
| Strings.RemoveEmptyNone | Infrastructure/Extensions/HttpExtensions.cs:28 | with no empty field nothing is removed |
| Strings.DropLeading | Infrastructure/Extensions/HttpExtensions.cs:30 | only leading separators are dropped, and the rest does not start with one |
| Strings.IndexOf | Infrastructure/Extensions/HttpExtensions.cs:30 | the index of the first occurrence, or -1 when there is none |
| Strings.IndexOfAfter | Infrastructure/Extensions/HttpExtensions.cs:30 | the first occurrence is right after a prefix without the character |
| Strings.SplitInTwo | Infrastructure/Extensions/HttpExtensions.cs:30 | `Split(';', 2, RemoveEmptyEntries)`: at most two non-empty segments, the first free of `;`, and none exactly when the part is all `;` |
| Strings.SplitAtFirst | Infrastructure/Extensions/HttpExtensions.cs:30 | after leading `;` are skipped: at most two non-empty segments, none exactly for empty text |
| Strings.RemoveChar | Infrastructure/Extensions/HttpExtensions.cs:40-45 | `Replace(c, "")` leaves no `c` and adds nothing |
| Strings.RemoveCharAppend | Infrastructure/Extensions/HttpExtensions.cs:40-45 | removal works piece by piece |
| Strings.RemoveCharSingle | Infrastructure/Extensions/HttpExtensions.cs:40-45 | on one character, removal drops it exactly when it is `c` |
| Strings.RemoveCharAbsent | Infrastructure/Extensions/HttpExtensions.cs:40-45 | removing an absent character changes nothing |
| Strings.ReplaceChar | Infrastructure/Logging/LoggingExtensions.cs:26 | no `c` is left when the replacement has none, and every output character comes from the input or the replacement |
| Strings.ReplaceCharAppend | Infrastructure/Logging/LoggingExtensions.cs:26 | replacement works piece by piece |
| Strings.ReplaceOneChar | Infrastructure/Logging/LoggingExtensions.cs:26 | on one character, replacement substitutes it exactly when it is `c` |
| Strings.ReplaceCharAbsent | Infrastructure/Logging/LoggingExtensions.cs:26 | replacing an absent character changes nothing |
| Strings.RemoveIgnoreCase | Infrastructure/Extensions/HttpExtensions.cs:39 | removing `rel=` only deletes characters: the result is a subsequence of the text, so never longer |
| Strings.RemoveIgnoreCaseSome | Infrastructure/Extensions/HttpExtensions.cs:39 | when `rel=` occurs anywhere, ignoring case, something is removed; with `RemoveIgnoreCaseNone` the text is unchanged exactly when `rel=` does not occur |
| Strings.RemoveIgnoreCaseNone | Infrastructure/Extensions/HttpExtensions.cs:39 | text with no case-insensitive occurrence of `rel=` is unchanged |

## Left out

- The .NET regular-expression engine is not modelled. This covers the `NonBacktracking`
  and `CultureInvariant` options, the 5-second match timeout
  (Infrastructure/Versions/VersionGlobber.cs:11, 513-518) and a `RegexMatchTimeoutException`.
  - Matching is the parameter `matches`.
  - A compiled regex is its anchored pattern text plus the case option, which is only a
    flag.
  - Properties of what a regex matches are stated only for engines that satisfy the
    stated hypotheses.
- VersionGlobber.IsMatch, VersionGlobber.CreateMatcher and VersionGlobber.Filter are
  methods, not functions. The C# code computes them with LINQ, but they call the
  imperative translator and compiler. Their contracts tie them to the functions `Admits`
  and `Filtered`.
- VersionGlobber.CreateMatcher returns a total function value in place of a closure over
  two compiled lists. The lists are compiled once, as in the source.
- VersionGlobber.SelectPieces stands for the lazy `SelectMany` iterator. The model
  builds the whole list at once, which only changes evaluation order. The
  `yield return` iterator of `SplitByCommaOutsideBraces` is likewise a method that returns
  the complete list.
- Null patterns inside a non-null include or exclude list are not modelled: every list
  element is a string. `string.IsNullOrEmpty` on the arguments of the private helpers
  reduces to an emptiness test.
- Strings are sequences of Unicode scalar values, not UTF-16 code units. A surrogate
  pair is one `char` here.
  - `prevChar <= next` in a class compares these values.
  - `char.IsWhiteSpace` is the fixed White_Space list of .NET.
- `StringComparison.OrdinalIgnoreCase` in the `rel=` removal is modelled by ASCII
  case folding, which is exact for the ASCII pattern `rel=`. Non-ASCII characters that
  .NET folds to ASCII letters are not modelled.
- HttpExtensions.ParseLinkHeader takes the values of the `Link` header directly: `None`
  when the header is absent, otherwise the list of values. `HttpResponseHeaders` and
  `TryGetValues` are not part of this model.
- The `ILogger` methods of `LoggingExtensions` (`LogNoticeGitHub`, `LogWarningGitHub`,
  `LogErrorGitHub`) and the level prefixes are logging I/O; only `Escape` is modelled.
- The network and host code is not part of this model, being HTTP, JSON, dependency
  injection and environment reads with no string logic of the core:
  - `Program.cs`;
  - `DeleteVersionsWithVersionNameFilter.cs` and `FetchAllPackageVersions.cs`;
  - `GitHubInputs.cs` and `UriHelper.cs`;
  - `GitHubPackage.cs`, which delegates to `NuGetVersion.TryParseStrict`;
  - `GitHubPackageVersionResponse.cs` and `JsonSerializerSettings.cs`.
- GlobSpec.SplitPieces: its own contract bounds only the lengths of the pieces. What
  the pieces are is stated by the lemmas Scanning.SplitAtTopComma and
  Scanning.SplitWithoutTopComma, against the independent `TopComma`, and by
  SplitPatternsJoin and SplitPatternsLast.
- GlobSpec.SplitPatterns: as for SplitPieces; see Scanning.SplitAtTopComma.
- GlobSpec.ClosingBracket: its own contract says only that the result is -1 or a `]`.
  Scanning.ClosingBracketIsFirst proves it is the first unescaped `]`, and -1 exactly
  when there is none.
- GlobSpec.ClosingBrace: its own contract says only that the result is -1 or a `}`.
  Scanning.ClosingBraceIsFirst proves it is the first unescaped `}` that brings the
  brace depth to 0, and -1 exactly when there is none.
- VersionGlobber.CompilePatterns, VersionGlobber.IsMatch, VersionGlobber.CreateMatcher and
  VersionGlobber.Filter: the `ArgumentException` that .NET's `Regex` constructor and
  `Regex.IsMatch` throw on a pattern text they cannot parse
  (Infrastructure/Versions/VersionGlobber.cs:21-25, 395-398) is not modelled. Every
  translation is taken to be a regex. BuildRegexCharClass never escapes `[`, so a range
  that ends in `[` leaves `-[` in the class (GlobLemmas.RangeToBracket: `[+-[]` gives
  `^[+-[]$`). .NET reads that as the start of a class subtraction, and this text leaves
  the subtraction unclosed.
