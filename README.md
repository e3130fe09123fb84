# A line-by-line syntax highlighter, modelled in Dafny

`main.py` reads a definition file of `key = value` lines. The keys are the
keywords to highlight. The program then renders source text line by line as
HTML, marking each token as a comment, a literal, a keyword or an operator
with a `<span class='…'>`. This project models that core:

- `read_expressions` and `safe_assoc` (module `Expressions`). They are
  imperative in the source, so they are methods with loops. Each is proved
  against a specification: `ParseAll` for the reader, and a first-match
  characterisation for the lookup.
- The anchored regular expressions that `highlight_token` tests, in the
  order it tests them (module `Patterns`).
- The `re.findall` tokenizer of `highlight_line` (module `Scanner`). It is a
  leftmost-first scan that tries the nine alternatives in their written
  order. It includes the word boundaries `\b` and the lazy `\[.*?\]`.
  A character that no alternative matches is passed over.
- `highlight_token`, the `re.sub` on the contents of a bracket token,
  `highlight_line` and `highlight_code` (module `Highlighter`). They are pure
  functions.
- The `str` operations the program relies on (module `Text`): `split`,
  `strip` and `join`. A count of a character's occurrences is defined only
  to state their properties.

The module-level `expressions` variable becomes an explicit parameter.
Python's `False` result of `safe_assoc` becomes `None`.

Regular-expression details are written out by hand:

- Python's `$` in `re.match` also matches just before one final newline.
  So a token such as `"\n"` or `x\n` can pass an anchored test
  (`Patterns.MatchesWhole`).
- With an empty definition list, the keyword regex is `^()$`. It matches
  only the empty text or a lone newline (`Patterns.KeyAlternatives`).
- `\s`, `\d` and `\w` are taken over ASCII. `\s` is the ASCII part of
  `str.isspace()`, which includes 0x1C to 0x1F.

Some behaviour of `main.py` is easy to misread, and the model states it as
the code has it:

- The definition file is a flat list of `key = value` lines, with no
  sections.
- Characters that match no alternative are dropped: they belong to no
  token and do not reach the output. The tokens only form a subsequence of the
  line (`Scanner.FindAllSubsequence`). In `1abc` nothing is a token at all
  (`Scanner.DigitGluedToWord`).
- Only a whole line can be a comment. A `#` later in a line never starts a
  token (`Highlighter.ScannedTokensNeverComment`). The text
  after it is scanned like any other text.
- A quote that is never closed starts no token. It is dropped, and the
  text after it is scanned as usual.
- The number test comes before the keyword test. So a key made of digits
  is rendered as a literal (`Highlighter.NumericKeyIsLiteral`).
- Line endings are not kept one for one. A non-comment line keeps its own
  newline as an unmarked whitespace token, and `'\n'.join` adds another.
  The result is an empty line between rendered lines
  (`Highlighter.DoubledNewline`, `Highlighter.HighlightCodeNewlines`).

## Model

| member | source | states |
|---|---|---|
| Text.StripChars | main.py:16-17 | `strip` removes only characters of the set, and only from either end; what remains is an infix of the text whose two end characters are outside the set |
| Text.Strip | main.py:16-17 | `strip()` with no argument: `StripChars` over the whitespace class |
| Text.WhitespaceIsSpace | main.py:16-17 | the characters `strip()` removes are exactly those `\s` matches (both over ASCII) |
| Text.StripCharsIdempotent | main.py:16-17 | stripping a stripped text changes nothing |
| Text.StripCharsOccurrences | main.py:44 | stripping keeps every occurrence of a character outside the stripped set |
| Text.Split | main.py:14 | `split('=')` gives one more part than there are `=` in the line, and no part holds a `=` |
| Text.SplitJoin | main.py:14 | joining the parts of `split(c)` with `c` gives the text back |
| Text.SplitInTwo | main.py:14-15 | two parts are exactly the text before and the text after the single `=` |
| Text.Join | main.py:65-67 | `sep.join(parts)`: the parts with the separator between each two |
| Text.JoinOccurrences | main.py:67 | joining n pieces with a one-character separator adds exactly n-1 occurrences of it |
| Expressions.ParseLine | main.py:14-18 | one line of the loop: the stripped pair when `split('=')` gives two parts, otherwise nothing |
| Expressions.ParseAll | main.py:13-18 | the definitions of the lines, in line order |
| Expressions.ReadExpressions | main.py:9-20 | the loop appends, in line order, the stripped pair of each line that splits into exactly two parts; the result equals `ParseAll` of the lines |
| Expressions.ParseLineSpec | main.py:13-18 | a line gives a definition if and only if it holds exactly one `=`; the definition is the stripped text on either side of it |
| Expressions.ParseLineClean | main.py:16-17 | a definition has no `=` in its key or value, and both are already stripped |
| Expressions.ParseAllStep | main.py:13-18 | the definitions of the first i+1 lines are those of the first i lines, then those of line i |
| Expressions.ParseAllAppend | main.py:13-18 | lines are read independently and in order: the definitions of two blocks are those of the first followed by those of the second |
| Expressions.SafeAssoc | main.py:29-33 | returns the value of the first pair with the key, and returns None (`False`) exactly when no pair has the key |
| Patterns.MatchesWhole | main.py:37-52 | `re.match` of a pattern between `^` and `$`: the whole text matches, or the text without one final newline does |
| Patterns.IsBlankText | main.py:37 | the language of `\s+` |
| Patterns.IsCommentText | main.py:39 | the language of `#.*` |
| Patterns.IsQuotedText | main.py:41 | the language of `(f)?["'][^"']*["']` |
| Patterns.IsBracketText | main.py:43 | the language of `\[.*\]` |
| Patterns.IsNumberText | main.py:48 | the language of `\d+(?:\.\d+)?` |
| Patterns.IsOperatorText | main.py:52 | the language of the operator class repeated: one or more of `+*/=<>!&%^-` and the vertical bar |
| Patterns.IsKeywordText | main.py:50 | the anchored keyword pattern built from the keys |
| Patterns.StartsWithComment | main.py:60 | `re.match(r'^\s*#', line)`: optional whitespace, then `#` |
| Patterns.KeyAlternatives | main.py:50 | the alternatives of the keyword group are the keys, or only the empty text when there are none |
| Patterns.KeywordIsMembership | main.py:50 | for a token not ending in a newline, the keyword test holds exactly when the token is one of the keys |
| Patterns.NumberEnd | main.py:45-46 | the greedy match of `\d+(?:\.\d+)?` is a number; no digit follows it, and no `.digit` follows an integer-only match |
| Patterns.AnchoredFirstChar | main.py:37-54 | each anchored test of `highlight_token` fixes the first character of the tokens it accepts (whitespace, `#`, `f` then a quote or a quote, `[`, a digit, an operator character) |
| Scanner.Boundary | main.py:63 | `\b`: a word character on exactly one side of the position |
| Scanner.QuotedAt | main.py:63 | a quoted match begins and ends with the same quote |
| Scanner.QuotedAtInside | main.py:63 | a quoted match holds no other quote of its kind between its ends |
| Scanner.QuotedAtFound | main.py:63 | a quote closed later in the text always gives a match, ending at the first closing quote at the latest; with QuotedAtInside, the match is exactly up to the first closing quote |
| Scanner.QuotedAtText | main.py:63 | a quoted match is in the language of `"[^"]*"` (or `'[^']*'`) |
| Scanner.FStringAt | main.py:63 | an f-string match is `f`, then `"`, and ends with `"` |
| Scanner.FStringAtInside | main.py:63 | an f-string match holds no `"` between its quotes |
| Scanner.FStringAtFound | main.py:63 | `f"` closed later in the text always gives a match |
| Scanner.FStringAtText | main.py:63 | an f-string match is in the language of `f"[^"]*"` |
| Scanner.BracketAt | main.py:63 | a bracket match begins with `[` and ends with `]` |
| Scanner.BracketAtInside | main.py:63 | a bracket match ends at the first `]`, with no newline in between |
| Scanner.BracketAtFound | main.py:63 | `[` followed by `]` with no newline between always gives a match, ending at that `]` at the latest |
| Scanner.BracketAtText | main.py:63 | a bracket match is in the language of `\[.*\]` |
| Scanner.NumberAt | main.py:63 | a number match begins and ends with a digit |
| Scanner.NumberCandidate | main.py:63 | the lengths at which `\b\d+(?:\.\d+)?\b` can match at a position |
| Scanner.NumberAtLongest | main.py:63 | the number match is a number text with `\b` at both ends, and no such text starting there is longer; so there is a match whenever the regex has one |
| Scanner.NumberAtIsCandidate | main.py:63 | the number match is a number text with `\b` at both ends |
| Scanner.IntegerBelowNumberAt | main.py:63 | a match without a fraction is no longer than the number match |
| Scanner.FractionBelowNumberAt | main.py:63 | a match with a fraction is no longer than the number match |
| Scanner.WordAt | main.py:63 | a word match exists exactly at a letter or `_` after a `\b`; it ends with a word character and no word character follows it |
| Scanner.WordAtRun | main.py:63 | a word match is made of word characters only |
| Scanner.WordAtText | main.py:63 | a word match is in the language of `[a-zA-Z_]\w*` |
| Scanner.OperatorAt | main.py:63 | an operator character always starts a match, which begins and ends with an operator character and is not followed by one |
| Scanner.OperatorAtRun | main.py:63 | an operator match is a run of operator characters; with OperatorAt, the longest such run |
| Scanner.GroupingAt | main.py:63 | each of `(),:` is a one-character match, and nothing else is |
| Scanner.SpaceAt | main.py:63 | whitespace always starts a match, which is a run of whitespace not followed by whitespace |
| Scanner.IsQuotedToken | main.py:63 | the language of `"[^"]*"` or `'[^']*'` |
| Scanner.IsWordText | main.py:63 | the language of `[a-zA-Z_]\w*` |
| Scanner.IsAlternativeText | main.py:63 | the texts one of the nine alternatives matches in full |
| Scanner.MatchAt | main.py:63 | a match is the whole match of one of the nine alternatives at that position, and an f-string match wins over the word alternative; no match starts with `#`; whitespace, operator and grouping characters always start a match |
| Scanner.MatchAtAlternative | main.py:63 | whichever alternative matches gives the whole match: each alternative's own match, taken in full, is the match of the alternation, except that a word starting with `f` yields to an f-string |
| Scanner.MatchAtNone | main.py:63 | there is no match exactly when none of the nine alternatives matches |
| Scanner.MatchAtText | main.py:63 | every match is a text of one of the alternatives |
| Scanner.MatchAtNewline | main.py:63 | a match that ends with a newline is whitespace |
| Scanner.StepAt | main.py:63 | a token is exactly the whole match at that position; a step is passed over exactly when no alternative matches there, and then it is one character that is not whitespace, an operator or `(),:`; a token does not start with `#` |
| Scanner.StepAtText | main.py:63 | the text of each step is exactly the next piece of the line |
| Scanner.StepAtNewline | main.py:63 | a token ending with a newline is whitespace |
| Scanner.Scan | main.py:63 | every step is good: no token is empty or starts with `#`; passed-over characters are never whitespace, operators or `(),:` |
| Scanner.FindAll | main.py:63 | `re.findall`: the tokens of the scan of the whole line, in order |
| Scanner.ScanCovers | main.py:63 | the tokens and the passed-over characters, in order, are exactly the text: matches do not overlap and come left to right |
| Scanner.FindAllTokens | main.py:63 | every token `findall` returns is non-empty and none starts with `#` |
| Scanner.FindAllNewlines | main.py:63 | the tokens together hold every newline of the line |
| Scanner.FindAllSubsequence | main.py:63 | the concatenated tokens are a subsequence of the line |
| Scanner.FindAllEndsWithBlank | main.py:63 | a line that ends with a newline gives, as its last token, whitespace ending with that newline |
| Scanner.NoMatchInsideWord | main.py:63 | inside a run of word characters no alternative can start, except an f-string |
| Scanner.DigitGluedToWord | main.py:63 | `1abc` yields no token |
| Highlighter.Span | main.py:40-53 | the markup `<span class='C'>text</span>` of each marked branch, the text inserted unescaped |
| Highlighter.Keys | main.py:50 | the keys are the first components of the definitions, in order |
| Highlighter.Classify | main.py:37-54 | the branch of the if/elif chain: the first test, in the written order, that the token passes |
| Highlighter.HighlightToken | main.py:36-55 | a token comes back unchanged if and only if it is blank or matches no test; otherwise a non-bracket token comes back whole inside one span; a bracket token becomes a literal span around `[`, the stripped contents with their numbers marked, and `]` |
| Highlighter.NumberPieces | main.py:45-46 | the pieces of `re.sub` are numbers and single non-digit characters; no digit is left outside a match |
| Highlighter.GreedyPieces | main.py:45-46 | what greedy matching means for the pieces: a number piece is followed by a character piece, and an integer piece is never followed by a point and a digit |
| Highlighter.NumberPiecesGreedy | main.py:45-46 | the matches of `re.sub` are greedy: a number is never followed by a digit, and a number without a fraction is never followed by a point and a digit |
| Highlighter.RenderPieces | main.py:46 | the replacement of `re.sub`: each number piece becomes a literal span and other characters are kept |
| Highlighter.HighlightNumbers | main.py:44-46 | `re.sub` of the number pattern: each match replaced by a literal span, other characters kept |
| Highlighter.NumberPiecesCover | main.py:46 | the pieces of `re.sub`, in order, are exactly the text |
| Highlighter.SpanNewlines | main.py:40 | the markup of a span adds no newline |
| Highlighter.BracketNewlines | main.py:43-47 | the bracket branch keeps the token's newlines |
| Highlighter.HighlightTokenNewlines | main.py:36-55 | highlighting a token neither adds nor removes a newline |
| Highlighter.BlankUnchanged | main.py:37-38 | whitespace comes back as it is |
| Highlighter.NumericKeyIsLiteral | main.py:48-51 | a token of digits is a literal even when it is also a key |
| Highlighter.WordHighlight | main.py:50-55 | a word is a keyword span if it is a key and unchanged if it is not |
| Highlighter.GroupingHighlight | main.py:50-55 | `(`, `)`, `,` and `:` are keyword spans if they are keys and unchanged if they are not |
| Highlighter.ScannedTokensNeverComment | main.py:39-40 | no token from the scan takes the comment branch |
| Highlighter.HighlightTokens | main.py:64 | the highlighted list matches the tokens one for one, in order |
| Highlighter.HighlightLine | main.py:59-61 | a line with only whitespace before `#` becomes one comment span, trailing newline included |
| Highlighter.HighlightLineNewlines | main.py:59-65 | a rendered line has exactly the newlines of the line |
| Highlighter.LineEndingKept | main.py:63-65 | a non-comment line that ends with a newline renders ending with that newline |
| Highlighter.HighlightLines | main.py:67 | the rendered lines match the input lines one for one, in order |
| Highlighter.HighlightCode | main.py:67 | the rendered lines joined with newlines |
| Highlighter.HighlightCodeNewlines | main.py:67 | the output holds the newlines of the lines plus exactly one separator between each two lines |
| Highlighter.HighlightCodeSingle | main.py:67 | a single line renders as that line's rendering, with no separator |
| Highlighter.HighlightCodeAppend | main.py:67 | lines render independently: the output for two blocks is the first block's output, a newline, then the second's |
| Highlighter.DoubledNewline | main.py:67 | after a non-comment line ending in a newline, the output has two newlines in a row before the next line's rendering |

## Left out

- Reading files (`read_file`), writing the HTML, and `process_file`: these are file I/O. `read_expressions` takes the lines as `readlines` returns them.
- Loading `expresiones.txt` into a global and the `print` calls: the definitions are a parameter instead.
- `generate_html`: a fixed HTML and CSS template around `highlight_code`.
- The general `re` engine: only the fixed patterns of the program are modelled, each by hand.
- Unicode character classes: `\s`, `\d` and `\w` are ASCII only, so a non-ASCII letter or digit is treated as passed over rather than as part of a word or number.
- Highlighter.HighlightToken: requires keys with no regex metacharacters (`PlainKeys`). With such keys the source builds a different regex or raises `re.error`, and that is not modelled. The same precondition is on every member that calls it.
- Highlighter.HighlightToken: for a non-bracket token, the contract says only that the result is the token inside some span. Which class each branch uses is given by the definition, not restated as a contract.
- Text.Strip: removes only ASCII whitespace. Python's `strip()` also removes Unicode spaces such as U+00A0, so for a line such as `if\u00a0= x` Expressions.ParseLine keeps the key `if\u00a0` where the source gives `if`.
- HTML escaping: the source inserts token text verbatim, and so does the model.
