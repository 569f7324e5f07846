# A verified model of the lox lexer

This project models the lexer of a Lox interpreter written in Rust (`src/lexer.rs`).
The lexer turns source text into a list of tokens with byte spans. It fails
with a diagnostic at the first piece of text no token pattern accepts: a line
that names the position, then the offending text.

The lexer is derived with the `logos` crate from the `Token` enum. `Error` is
the `#[error]` kind, produced where nothing matches. Every other kind carries
either a fixed text (`#[token]`: keywords and symbols) or a regular
expression (`#[regex]`: whitespace, identifiers, numbers, strings). The model
has four parts.

- **TokenKinds** (`token_kinds.dfy`): the `Token` kinds and a `Span`.
  - For every kind, the set of texts it accepts, as the predicate `Matches`.
  - The fixed-text table, read both ways: `FixedText` and `Lookup`.
  - The symbols are exactly those of the source: `[`/`]` are the braces and `'` is the semicolon.
- **Classifier** (`classifier.dfy`): `Classify`, an explicit matcher that gives the kind and length of the token at one offset.
  - `IsLongestMatch` is an independent statement of the rule a `logos` lexer follows. The longest match wins. On a tie, a fixed text beats a regex. When nothing matches, one character becomes an `Error`.
  - `ClassifyIsLongestMatch` proves the matcher follows that rule.
  - The rule determines the outcome (`LongestMatchIsUnique`). `Longest` names that outcome.
- **Scanner** (`scanner.dfy`): `collect_tokens`, modelled as the method `CollectTokens`, a loop that applies the classifier from offset 0 to the end of the input and drops whitespace.
  - It is proved to return `Lexing(src)`: the one token list in which every token is the longest match at its start, with only whitespace between tokens.
  - `into_tokens`, modelled as `IntoTokens`, returns that list, or the diagnostic for its first `Error`.
- **ErrorLocator** (`error_locator.dfy`): `LexerError::err`, modelled as `LexerError.Err`. It computes a line index (the newlines before the span) and two columns relative to the last newline before the span. It then formats the message. `Decimal` models the `{}` formatting of a `usize`.

The identifier pattern is modelled as `[_a-zA-Z][_a-zA-Z0-9]*`. The source writes it without the `*`, and that defect is recorded under Findings.

Three facts about the source that the model keeps as they are:

- The line index counts from 0: it is the number of newlines before the span (src/lexer.rs:16).
- The base offset for columns is the offset of the newline itself (src/lexer.rs:17, 22), so the first character of a later line is column 1.
- A keyword beats `Id` on a tie, because a fixed text takes priority over a regex.

## Model

| member | source | states |
|---|---|---|
| TokenKinds.FixedText | src/lexer.rs:50-157 | the text of each `#[token]` attribute, keyword or symbol, with `[`/`]` for the braces and `'` for the semicolon |
| TokenKinds.IsWhitespaceText | src/lexer.rs:34 | the texts of `[ \r\t\n\f]+`: one or more whitespace characters |
| TokenKinds.IsIdText | src/lexer.rs:39 | the texts of `[_a-zA-Z][_a-zA-Z0-9]*`: an identifier start, then word characters, any number of them |
| TokenKinds.IsNumberText | src/lexer.rs:42 | the texts of `-?[0-9]+(\.[0-9]+)?`: an optional `-`, digits, and optionally `.` and digits |
| TokenKinds.IsStringText | src/lexer.rs:45 | the texts of `"[^\n\r]*"`: quotes at both ends and no CR or LF between them (a `"` between them is allowed) |
| TokenKinds.Matches | src/lexer.rs:31-157 | which texts each kind accepts: its regex or its fixed text; `Error` accepts none |
| TokenKinds.Lookup | src/lexer.rs:50-157 | a kind found from a text is a keyword or symbol whose fixed text is exactly that text |
| TokenKinds.LookupOne | src/lexer.rs:100-157 | a one-character text finds only a symbol spelled by that character |
| TokenKinds.LookupKeyword | src/lexer.rs:50-96 | a word finds only the keyword spelled exactly like it |
| TokenKinds.LookupComplete | src/lexer.rs:50-157 | every keyword and symbol is found again from its own text, so the table has no duplicates |
| TokenKinds.FixedTextInjective | src/lexer.rs:50-157 | no two fixed-text kinds share a text |
| TokenKinds.KeywordTextIsWord | src/lexer.rs:50-96 | every keyword is also accepted by the identifier pattern, which is why keywords and `Id` can tie |
| TokenKinds.SymbolTextShape | src/lexer.rs:100-157 | symbols are one or two characters long; their first character cannot start a word, number, string or whitespace; the two-character ones end in `=` |
| TokenKinds.NumberTextStart | src/lexer.rs:42 | a number starts with a digit, or with `-` and then a digit |
| Classifier.RunEnd | src/lexer.rs:34-45 | the end of the longest run of one character class from an offset: every character before it is in the class and the one at it is not |
| Classifier.ClosingQuote | src/lexer.rs:45 | where the string opened at an offset ends: the last `"` before the next CR/LF or the end of input |
| Classifier.StartsNumber | src/lexer.rs:42 | a number can start here: a digit, or `-` followed by a digit |
| Classifier.LastQuote | src/lexer.rs:45 | finds the last `"` in a range, and there is none after it in that range |
| Classifier.NumberEnd | src/lexer.rs:42 | the number at a number start is non-empty and includes the digit after a leading `-` |
| Classifier.Classify | src/lexer.rs:27-158 | every outcome covers at least one character and stays inside the input, so scanning always progresses |
| Classifier.IsLongestMatch | src/lexer.rs:27-158 | the disambiguation rule, stated over the patterns: the outcome matches its pattern (or, for a one-character `Error`, nothing matches); no pattern matches a longer text; the only other kind matching the same text is `Id`, beaten by a keyword |
| Classifier.Longest | src/lexer.rs:27-158 | the one outcome the longest-match rule allows at an offset |
| Classifier.LongestMatchIsUnique | src/lexer.rs:27-158 | at each offset, at most one outcome satisfies the longest-match rule with its tie-break |
| Classifier.KindCases | src/lexer.rs:27-158 | every kind is a regex kind, a keyword or a symbol |
| Classifier.MatchStart | src/lexer.rs:34-157 | what a match tells about the text: it is non-empty, `Error` matches nothing, and each kind's first characters are fixed |
| Classifier.SymbolMatchStart | src/lexer.rs:100-157 | a symbol's text has the symbol shape and is looked up as that symbol |
| Classifier.KeywordMatchStart | src/lexer.rs:50-96 | a keyword's text is a word and is looked up as that keyword |
| Classifier.LookupMatches | src/lexer.rs:50-157 | a looked-up kind accepts the text it was found from |
| Classifier.UnsignedNumberShape | src/lexer.rs:42 | in a number, the first non-digit is the `.` and only digits follow it |
| Classifier.NumberEndMatches | src/lexer.rs:42 | the text the number scan delimits is accepted by the number pattern |
| Classifier.FractionText | src/lexer.rs:42 | digits, `.`, digits form an unsigned number |
| Classifier.SignText | src/lexer.rs:42 | an optional leading `-` keeps an unsigned number a number |
| Classifier.DigitRun | src/lexer.rs:42 | a non-empty run of digits is a digit string |
| Classifier.NumberIsMaximal | src/lexer.rs:42 | no text longer than the scanned number is a number (a `.` without a following digit is left out) |
| Classifier.StringIsBounded | src/lexer.rs:45 | no string match reaches past the last quote before the next CR/LF; without such a quote none exists |
| Classifier.ClassifyMatches | src/lexer.rs:27-158 | every non-`Error` outcome is accepted by its own kind's pattern |
| Classifier.BlankRunMatches | src/lexer.rs:34 | a run of whitespace characters is whitespace text |
| Classifier.WordRunMatches | src/lexer.rs:39 | a run of word characters after an identifier start is identifier text |
| Classifier.QuotedMatches | src/lexer.rs:45 | from the opening quote to the closing quote found is string text |
| Classifier.ClassifyIsLongest | src/lexer.rs:27-158 | no pattern matches a longer text than the chosen one |
| Classifier.ClassifyErrorMeansNoMatch | src/lexer.rs:31-32 | an `Error` outcome means no pattern matches any prefix at that offset |
| Classifier.WordTieBreak | src/lexer.rs:39-96 | at a word, the only other kind that matches the chosen text is `Id`, and it loses to a keyword |
| Classifier.NoTieOutsideWords | src/lexer.rs:100-157 | away from words, no other kind matches the chosen text |
| Classifier.ClassifyTieBreak | src/lexer.rs:27-158 | the only tie the classifier resolves is keyword against `Id`, in the keyword's favour |
| Classifier.ClassifyIsLongestMatch | src/lexer.rs:27-158 | the classifier's outcome satisfies the longest-match rule (accepted text, nothing longer, fixed text wins ties, one-character `Error` only when nothing matches) |
| Classifier.ClassifyIsTheLongest | src/lexer.rs:27-158 | the classifier returns exactly the longest match, and at a whitespace character that match is whitespace |
| Classifier.LongestIsClassify | src/lexer.rs:27-158 | the longest match at an offset can be read off the classifier |
| Classifier.TwoCharOperatorWins | src/lexer.rs:135-157 | `!=`, `==`, `>=`, `<=` are each one two-character token, never their one-character prefix |
| Classifier.KeywordWins | src/lexer.rs:50-96 | a keyword that is a whole word lexes as that keyword, with its length |
| Classifier.ClassifyWord | src/lexer.rs:39-96 | a whole word lexes as the keyword it spells, or else as `Id`, over its full length |
| Classifier.ClassifyAtWordStart | src/lexer.rs:39-96 | at an identifier start, the outcome covers the whole run of word characters |
| Classifier.WordRun | src/lexer.rs:39 | a whole word is exactly the run of word characters from its start |
| Classifier.OtherWordIsId | src/lexer.rs:39-96 | a whole word that is not a keyword is one `Id`, even when a keyword is a prefix of it |
| Classifier.LongerWordExample | src/lexer.rs:39-54 | `classify` is one `Id` of length 8 under the longest-match rule |
| Classifier.CapitalisedKeywordExample | src/lexer.rs:53-54 | `Class` is an `Id`, because keywords are case-sensitive |
| Classifier.KeywordExample | src/lexer.rs:53-54 | `class` is the keyword `Class` |
| Classifier.MinusWithoutDigit | src/lexer.rs:118-119 | `-` not followed by a digit is `Minus` |
| Classifier.UnterminatedString | src/lexer.rs:45 | a `"` with no other `"` before the line ends is a one-character `Error` |
| Classifier.NegativeNumberExample | src/lexer.rs:42 | `-12.5` is one number of length 5, sign included |
| Classifier.UnterminatedStringExample | src/lexer.rs:45 | `"xyz` gives a one-character `Error` at the quote |
| Classifier.GreedyStringExample | src/lexer.rs:45 | `"a" + "b"` is one string of length 9: the match runs to the last quote |
| Classifier.MatchesAsWritten | src/lexer.rs:39 | the patterns with the identifier regex as written: `Id` accepts exactly two-character texts |
| Classifier.AsWrittenRejectsOneLetterName | src/lexer.rs:39 | with the identifier pattern as written, no kind matches `x`; at the start of `classify`, `class` is the longest match |
| Classifier.CorrectedIdExamples | src/lexer.rs:39 | with the corrected pattern, `x` and `classify` are each one `Id` |
| ErrorLocator.LexerError.Err | src/lexer.rs:12-25 | the message starts with the fixed prefix and ends with the offending text |
| ErrorLocator.CountNewlines | src/lexer.rs:16 | there are no more newlines than characters |
| ErrorLocator.LastNewline | src/lexer.rs:17 | finds the last `'\n'`, if any, with no `'\n'` after it; `None` means there is none |
| ErrorLocator.LineIndex | src/lexer.rs:16 | the reported line: the number of `'\n'` before the span start |
| ErrorLocator.LastLine | src/lexer.rs:17 | the base offset is 0 or a newline strictly before the span start |
| ErrorLocator.CountNewlinesIsMultiplicity | src/lexer.rs:16 | the line index is the number of `'\n'` before the span start |
| ErrorLocator.NoNewlineCounted | src/lexer.rs:16-17 | the line index is 0 exactly when `rfind` finds no newline |
| ErrorLocator.Columns | src/lexer.rs:17-22 | the reported columns: both ends of the span minus the base offset |
| ErrorLocator.Message | src/lexer.rs:20-22 | the diagnostic `error: unknown token on line L, chars S..E:` followed by a newline and the offending text |
| ErrorLocator.ColumnsWidth | src/lexer.rs:20-22 | the two columns are as far apart as the span is long |
| ErrorLocator.FirstLineColumns | src/lexer.rs:16-22 | on line 0 the columns are the raw offsets |
| ErrorLocator.LaterLineColumns | src/lexer.rs:16-22 | on later lines the start column is at least 1 and counts from the last newline before the span |
| ErrorLocator.LineStartColumn | src/lexer.rs:17-22 | the first character of a line is column 0 on line 0, but column 1 on every later line |
| ErrorLocator.DigitChar | src/lexer.rs:20-22 | a digit value gives a digit character that reads back as that value |
| ErrorLocator.Decimal | src/lexer.rs:20-22 | a number is spelled with digits only and no leading zero |
| ErrorLocator.DecimalRoundTrip | src/lexer.rs:20-22 | reading the decimal spelling back gives the number |
| ErrorLocator.SecondLineExample | src/lexer.rs:12-25 | `@` right after the first newline is reported on line 1 at chars 1..2 |
| ErrorLocator.SecondLineLocation | src/lexer.rs:16-17 | that `@` is on line 1, columns 1 and 2 |
| Scanner.CoversFrom | src/lexer.rs:160-162 | what a correct token list from an offset is: each token the longest match at its start and not whitespace, with only whitespace around and between them |
| Scanner.Emit | src/lexer.rs:34 | what one match adds to the output: nothing for whitespace (`logos::skip`), else one token with its span |
| Scanner.CoversAfterWhitespace | src/lexer.rs:34 | leading whitespace may be skipped in front of a lexing |
| Scanner.CoversCons | src/lexer.rs:160-162 | a longest match, followed by a lexing of the rest, is a lexing |
| Scanner.CoversStep | src/lexer.rs:160-162 | emitting the longest match (or skipping it, if it is whitespace) in front of a lexing of the rest is a lexing |
| Scanner.ClassifyFacts | src/lexer.rs:34 | the classifier's outcome is the longest match, and a whitespace outcome covers whitespace only |
| Scanner.LexingExists | src/lexer.rs:160-162 | every input has a lexing |
| Scanner.LexingIsUnique | src/lexer.rs:160-162 | an input has only one lexing |
| Scanner.BothEmptyOrNeither | src/lexer.rs:34 | if one lexing of a suffix is empty, all of them are |
| Scanner.HeadsAgree | src/lexer.rs:160-162 | two lexings of a suffix begin with the same token |
| Scanner.Lexing | src/lexer.rs:160-162 | the token list of an input is a lexing |
| Scanner.CoversSpans | src/lexer.rs:160-162 | the spans of a lexing are non-empty, inside the input, strictly ordered and non-overlapping, and no token is whitespace |
| Scanner.PrefixCovers | src/lexer.rs:160-162 | what the scan has kept by an offset: a correct token list for the text before it, read from the back |
| Scanner.ScanStep | src/lexer.rs:160-162 | one step of the scan keeps the scanned prefix a correct lexing up to the new offset |
| Scanner.PrefixGapGrows | src/lexer.rs:34 | skipped whitespace extends a scanned prefix |
| Scanner.PrefixSnoc | src/lexer.rs:160-162 | appending the longest match at the scan offset extends a scanned prefix |
| Scanner.PrefixThenRest | src/lexer.rs:160-162 | a scanned prefix followed by a lexing of the rest is a lexing of the whole input |
| Scanner.PrefixPeel | src/lexer.rs:160-162 | the last scanned token, followed by a lexing of what comes after it, is a lexing from its start |
| Scanner.PrefixInit | src/lexer.rs:160-162 | dropping the last scanned token leaves a scanned prefix up to that token's start |
| Scanner.CollectTokens | src/lexer.rs:160-162 | the scan returns the one lexing of the input |
| Scanner.IntoTokens | src/lexer.rs:164-172 | success exactly when the lexing has no `Error`, and then the lexing itself; otherwise the diagnostic for the leftmost `Error`'s span |
| Scanner.IsFirstError | src/lexer.rs:166-169 | a token is an `Error` inside the input and no earlier token is one: the one `into_tokens` reports |
| Scanner.UnterminatedStringLexing | src/lexer.rs:160-162 | `"xyz` lexes as an `Error` at the quote followed by the `Id` `xyz` |
| Scanner.UnterminatedStringCovers | src/lexer.rs:160-162 | those two tokens form a lexing of `"xyz` |
| Scanner.NameAfterQuoteCovers | src/lexer.rs:160-162 | `xyz` after the quote is a lexing on its own |

## Left out

- The `f64` payload of `Number` (src/lexer.rs:42): floating point is not modelled. The number's text is given by its span.
- The `logos` derive's generated automaton is not modelled. `Classify` is an explicit matcher that follows the longest-match rule `IsLongestMatch`. Where the crate's automaton may differ from that rule (the extent of an error, backtracking out of a partial match such as `1.x` or `"a" + b`) is not modelled.
- The extent of an `Error` token: the model consumes exactly one character per `Error`. The crate decides the real extent, and its code is not part of this model. A run such as `@@@` is therefore three `Error` tokens. The diagnostic uses the first one.
- Source text is a sequence of characters, and offsets are character offsets. They equal the source's byte offsets on ASCII input. Slicing inside a multi-byte UTF-8 character panics in the source and is not modelled.
- `ErrorLocator.LexerError.Err`: its precondition (span inside the input) stands for the panic on an out-of-range slice. `into_tokens` only ever passes spans of its own tokens, and `Scanner.CoversSpans` proves those are in range.
- `main.rs` (the REPL and file reading) and `error.rs` (the wrapping error type) are I/O and plumbing and are not part of this model.
- `Scanner.CollectTokens`: the iterator chain `lexer(src).spanned().collect()` is modelled as a loop that calls the classifier and appends to a sequence. No lazy iteration is modelled.

## Findings

| source | as written | input that shows it | evidently intended | confidence | as-written member | corrected member |
|---|---|---|---|---|---|---|
| src/lexer.rs:39 | the identifier regex `[_a-zA-Z][_a-zA-Z0-9]` has no repetition, so it matches exactly two characters | `x` (no pattern matches it, so it becomes an `Error`); `classify` (the longest match is the keyword `class`) | `[_a-zA-Z][_a-zA-Z0-9]*`: identifiers of any length | high, not executed | Classifier.AsWrittenRejectsOneLetterName | Classifier.CorrectedIdExamples |
