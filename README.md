# Lexical analyser of `analizador_mejorado.py`, in Dafny

This project models the lexical analyser `AnalizadorLexico` and the
symbol-table classifier `clasificar_token` of a small teaching compiler.
The analyser keeps the source text (`codigo`), a cursor (`pos`) and a line
counter (`linea`, starting at 1). Its method `tokenizar` repeatedly tries an
ordered table of eleven regular-expression rules, anchored at the cursor.
The first rule that matches wins. The cursor moves past the match. A
`NEWLINE` match advances the line counter. Matches of the whitespace,
newline and both comment rules are dropped. Every other match becomes a
`Token(tipo, valor, linea)`.

The files:

- `tokens.dfy`: the rule names (`Kind`) and the `Token` record.
- `rules.dfy`: one hand-written matcher per regular expression of the rule
  table, and the table order. What the delimiter, whitespace, newline and
  error matchers accept is stated in their own contracts; for each of the
  other seven a `…Spec` or `…IsWholeWord` lemma beside it states it.
- `scanner.dfy`: the first-match-wins step, the partition of the input
  into matched spans, the token list (`Scan`), the final line counter
  (`LinesAfter`), and the accumulating form the loop follows (`ScanInto`).
- `decisions.dfy`: what one step does, decided by the characters at the
  cursor and independent of the table order (`Decide`), proved equal to the
  first-match step. It reuses the greedy runs and the search for `*/` of
  `rules.dfy`.
- `lexer.dfy`: the class `AnalizadorLexico`, with the fields `codigo`,
  `pos` and `linea`, its constructor, and the `tokenizar` loop proved to
  produce `Scan` and to leave the counter at `LinesAfter`.
- `cases.dfy`: what the scanner makes of the inputs that the rule order
  decides, from keywords against identifiers to unclosed comments.
- `classifier.dfy`: `clasificar_token` and the lemmas about its table.

The model follows the code in every case. In these cases the code behaves
differently from a lexer that swallows unterminated constructs to the end
of the input:

- A `/*` with no `*/` anywhere after it matches no comment. The slash and
  the star become two `OPERATOR` tokens, and scanning goes on after them
  (`Cases.UnclosedBlockComment`).
- A `"` with no closing quote before the end of its line matches no string.
  It becomes a one-character `ERROR` token, and scanning resumes right after
  it (`Cases.UnclosedString`). A string never spans a line feed.
- Line feeds inside a `/* … */` comment are consumed without advancing the
  line counter, so later tokens carry lower line numbers
  (`Cases.BlockCommentSilent`, `Cases.CommentLineFeedNotCounted`).

## Model

| member | source | states |
|---|---|---|
| Tokens.NameInjective | analizador_mejorado.py:20-36 | distinct rules have distinct names (`Name` spells each as the table does), so a token's `tipo` string identifies its rule |
| Tokens.EmittedByName | analizador_mejorado.py:51-52 | a kind is emitted exactly when its name is not `WHITESPACE`, `NEWLINE`, `COMMENT` or `COMMENT_MULTI`, the source's own test |
| Rules.RunIsMaximal | analizador_mejorado.py:25-33 | the run of a character class takes every character of the class and stops before one outside it: the greedy `.*` (line 25), the `\w` of `\b` (line 27), `[a-zA-Z0-9_]*` (line 28), `\d+` (line 29), `[ \t]+` (line 33), and at line 30 the characters that `.*?` can cross before the closing quote |
| Rules.RunExact | analizador_mejorado.py:25-33 | any run that is maximal is the one the greedy repetition takes |
| Rules.FindCloseIsNearest | analizador_mejorado.py:22 | the lazy `[\s\S]*?` stops at the nearest `*/`; none is found only when none exists |
| Rules.CommentMultiSpec | analizador_mejorado.py:22 | a block comment matches exactly when `/*` is followed somewhere by `*/`, and then runs to the nearest one, line feeds included |
| Rules.CommentSpec | analizador_mejorado.py:25 | a line comment matches exactly at `//` and runs to the next line feed or the end, leaving the feed |
| Rules.AlternativeIsWholeWord | analizador_mejorado.py:27 | one keyword alternative followed by `\b` matches exactly when it is the whole maximal word at the cursor |
| Rules.FirstWholeAlternativeIsWholeWord | analizador_mejorado.py:27 | the alternation with its closing `\b` matches the whole word exactly when the word is one of the alternatives, whatever their order |
| Rules.KeywordIsWholeWord | analizador_mejorado.py:27 | the keyword rule matches exactly when the maximal word is reserved and no word character precedes the cursor |
| Rules.IdentifierSpec | analizador_mejorado.py:28 | an identifier matches exactly at a letter or `_` and takes the whole word |
| Rules.NumberSpec | analizador_mejorado.py:29 | a number matches exactly at a digit; its text is digits with at most one `.`-fraction; no digit follows it; a `.` plus digit after it occurs only when the fraction is already taken |
| Rules.MatchCommentMulti | analizador_mejorado.py:22 | a block comment match is non-empty and within the text (what it accepts: `Rules.CommentMultiSpec`; see "Left out") |
| Rules.MatchComment | analizador_mejorado.py:25 | a line comment match is non-empty and within the text (what it accepts: `Rules.CommentSpec`; see "Left out") |
| Rules.MatchKeyword | analizador_mejorado.py:27 | a keyword match is non-empty and within the text (what it accepts: `Rules.KeywordIsWholeWord`; see "Left out") |
| Rules.MatchIdentifier | analizador_mejorado.py:28 | an identifier match is non-empty and within the text (what it accepts: `Rules.IdentifierSpec`; see "Left out") |
| Rules.MatchNumber | analizador_mejorado.py:29 | a number match is non-empty and within the text (what it accepts: `Rules.NumberSpec`; see "Left out") |
| Rules.MatchString | analizador_mejorado.py:30 | a string match is non-empty and within the text (what it accepts: `Rules.StringSpec`; see "Left out") |
| Rules.MatchOperator | analizador_mejorado.py:31 | an operator match is non-empty and within the text (what it accepts: `Rules.OperatorSpec`; see "Left out") |
| Rules.StringSpec | analizador_mejorado.py:30 | a string is a quote, no quote or line feed, and the first closing quote; it fails exactly when a line feed or the end comes first |
| Rules.FirstAlternativeIsFirst | analizador_mejorado.py:31 | an alternation picks the first listed alternative present at the cursor and fails only when none is |
| Rules.AlternationIsAlternative | analizador_mejorado.py:31 | what an alternation matches is one of its alternatives |
| Rules.OperatorSpec | analizador_mejorado.py:31 | the operator rule takes two characters whenever `==`, `!=`, `<=` or `>=` is present, one for a lone `+ - * / = < >`, and nothing for a lone `!` |
| Rules.MatchDelimiter | analizador_mejorado.py:32 | the delimiter rule matches exactly one of `; , ( ) { }` |
| Rules.MatchWhitespace | analizador_mejorado.py:33 | the whitespace rule matches exactly at a space or tab, and then takes the whole run of spaces and tabs, stopping at the end or before any other character |
| Rules.MatchNewline | analizador_mejorado.py:34 | the newline rule matches exactly one line feed |
| Rules.MatchError | analizador_mejorado.py:35 | the fallback matches exactly one character that is not a line feed |
| Rules.RuleOrderListsEachKindOnce | analizador_mejorado.py:20-36 | the table has eleven rows and no rule appears in two of them |
| Rules.Rank | analizador_mejorado.py:20-36 | every rule has its place in the table |
| Rules.Match | analizador_mejorado.py:20-36 | no rule of the table matches the empty string |
| Rules.MatchRuleIsMatch | analizador_mejorado.py:42-44 | row `i` of the table is matched by that row's rule |
| Rules.FallbackMatches | analizador_mejorado.py:34-35 | the last two rules between them match any character |
| Scanner.FirstRule | analizador_mejorado.py:42-56 | trying the rules from row `i` on yields a span at the cursor of length at least 1; with a row other than the last still to try, some rule matches |
| Scanner.FirstRuleIsFirstMatch | analizador_mejorado.py:42-56 | the rule tried first that matches is the one taken, with its match length |
| Scanner.FirstMatchUnique | analizador_mejorado.py:42-56 | the first matching rule at a position is unique |
| Scanner.Step | analizador_mejorado.py:42-56 | one turn of the loop takes a non-empty span at the cursor, within the text (which span: `Scanner.StepIsFirst`) |
| Scanner.StepIsFirst | analizador_mejorado.py:42-56 | each step takes the first rule that matches and exactly its match |
| Scanner.SomeRuleMatches | analizador_mejorado.py:40-60 | before the end of the text some rule always matches, so the `not encontrado` branch cannot run |
| Scanner.Segment | analizador_mejorado.py:40-56 | the loop makes at most one span per character |
| Scanner.SegmentTiles | analizador_mejorado.py:40-54 | the spans of the scan are contiguous, non-empty and end exactly at the end of the text |
| Scanner.TilesIncrease | analizador_mejorado.py:40-54 | later spans start strictly later |
| Scanner.TilesAdjacent | analizador_mejorado.py:40-54 | each span starts where the previous one ends |
| Scanner.TilesLength | analizador_mejorado.py:40-54 | there are at most as many spans as characters |
| Scanner.SegmentCoversInput | analizador_mejorado.py:44-54 | the spans' texts, concatenated in order, are the scanned text |
| Scanner.StepShape | analizador_mejorado.py:46-52 | a span of an emitted rule has that rule's shape |
| Scanner.ScanStep | analizador_mejorado.py:46-54 | one turn of the loop: the step's token, if its rule is emitted, then the scan after it, one line on after a `NEWLINE` |
| Scanner.Scan | analizador_mejorado.py:38-62 | the token list has at most one token per character |
| Scanner.ScanAtEnd | analizador_mejorado.py:39-40 | at the end of the text (in particular for the empty text) the scan yields no tokens |
| Scanner.ScanShape | analizador_mejorado.py:46-52 | every token is of an emitted kind, has its rule's shape (an `ERROR` is one character), and has a line no earlier than the start line |
| Scanner.EmitAt | analizador_mejorado.py:49-52 | the token of an emitted span is the span's rule, its exact text, and the start line plus the `NEWLINE` spans before it |
| Scanner.EmitFrom | analizador_mejorado.py:49-52 | every token comes from an emitted span |
| Scanner.EmittedBeforeIncrease | analizador_mejorado.py:51-52 | tokens appear in the order of their spans |
| Scanner.ScanSpans | analizador_mejorado.py:38-62 | the scan's spans tile and reassemble the text, and its tokens are exactly those of the emitted spans, with verbatim text and counted lines |
| Scanner.LinesAfter | analizador_mejorado.py:49-50 | the line counter never goes down |
| Scanner.LinesAfterCounts | analizador_mejorado.py:49-50 | the final line counter is the start line plus the number of `NEWLINE` spans |
| Scanner.ScanInto | analizador_mejorado.py:39-56 | the loop's accumulation is the tokens gathered so far followed by the scan from the cursor |
| Scanner.Gathers | analizador_mejorado.py:49-54 | appending the step's token, when its rule is emitted, and then scanning from after the step gives the tokens gathered followed by the scan from before it |
| Scanner.ScanIntoTakes | analizador_mejorado.py:46-56 | one loop turn, updating counter, tokens and cursor as the body does, keeps the accumulation and the final counter |
| Decisions.Decide | analizador_mejorado.py:20-56 | the decided span is non-empty, at the cursor and within the text (that it is the step: `Decisions.StepDecided`) |
| Decisions.KeywordNeedsLetter | analizador_mejorado.py:27 | the keyword rule needs a letter at the cursor |
| Decisions.RuleTriggers | analizador_mejorado.py:22-31 | when each rule can match, in terms of the characters at the cursor |
| Decisions.NoCommentAtSymbol | analizador_mejorado.py:22-25 | where no `/*…*/` or `//` starts, neither comment rule matches |
| Decisions.WordKindIsKeywordRule | analizador_mejorado.py:27-28 | a word is a keyword exactly when the keyword rule matches, and then the match is the whole word |
| Decisions.StepQuote | analizador_mejorado.py:30-35 | at a quote the step is a string to the closing quote, else a one-character error |
| Decisions.StepOperator | analizador_mejorado.py:31 | at an operator character the step is the longest operator |
| Decisions.StepOther | analizador_mejorado.py:32-35 | elsewhere the step is a delimiter, a run of blanks, a line feed or a one-character error |
| Decisions.StepDecided | analizador_mejorado.py:42-56 | the first-match step equals the character-by-character decision |
| Lexer.AnalizadorLexico.constructor | analizador_mejorado.py:14-17 | a new analyser holds the text, with cursor 0 and line 1 |
| Lexer.AnalizadorLexico.Tokenizar | analizador_mejorado.py:38-62 | the loop returns the scan from the old cursor and line, and leaves the cursor at the end and the counter at the start line plus the `NEWLINE` matches |
| Lexer.AnalizadorLexico.PrimerPatron | analizador_mejorado.py:41-57 | the inner loop always finds a rule, the first in table order that matches, and its match length |
| Cases.Takes | analizador_mejorado.py:49-54 | a step of an emitted rule adds its token with the verbatim text and the current line |
| Cases.Skips | analizador_mejorado.py:49-54 | a step of a silent rule adds nothing and only `NEWLINE` advances the line |
| Cases.KeywordToken | analizador_mejorado.py:27 | a reserved word standing alone is one `KEYWORD` token of the whole word |
| Cases.IdentifierToken | analizador_mejorado.py:27-28 | any other word, such as `ifx`, `int2` or `int` after a digit, is one `IDENTIFIER` token of the whole word |
| Cases.DigitGluedKeyword | analizador_mejorado.py:27-29 | `1int` gives `NUMBER(1)`, `IDENTIFIER(int)` |
| Cases.LongestOperator | analizador_mejorado.py:31 | `==`, `!=`, `<=`, `>=` are one `OPERATOR` token, never two |
| Cases.LoneBang | analizador_mejorado.py:31-35 | a `!` not followed by `=` is `ERROR(!)` |
| Cases.StrayChar | analizador_mejorado.py:32-35 | a character no other rule accepts, such as `.`, `#` or a carriage return, is a one-character `ERROR` |
| Cases.UnclosedBlockComment | analizador_mejorado.py:22-31 | a `/*` with no `*/` after it gives `OPERATOR(/)`, `OPERATOR(*)` |
| Cases.BlockCommentSilent | analizador_mejorado.py:49-51 | a block comment yields no token and leaves the line counter unchanged, whatever line feeds it holds |
| Cases.CommentLineFeedNotCounted | analizador_mejorado.py:49-50 | a comment holding a line feed, then a line feed and `x`, gives `IDENTIFIER(x)` on line 2 |
| Cases.LineCommentSilent | analizador_mejorado.py:25 | a line comment yields no token and stops at the line feed, which still counts |
| Cases.LineFeed | analizador_mejorado.py:49-50 | a line feed yields no token and advances the line by one |
| Cases.UnclosedString | analizador_mejorado.py:30-35 | a quote with no closing quote on its line gives `ERROR(")` and scanning resumes after it |
| Cases.NumberToken | analizador_mejorado.py:29 | a digit starts one `NUMBER` token of the number's whole text |
| Cases.SecondDot | analizador_mejorado.py:29-35 | a `.` right after a number with a fraction is an `ERROR` token of its own |
| Cases.TwoDots | analizador_mejorado.py:29-35 | `1.5.3` gives `NUMBER(1.5)`, `ERROR(.)`, `NUMBER(3)` |
| Classifier.ClasificarToken | analizador_mejorado.py:65-120 | the category is `OTRO` exactly for the four silent rules, and then the code is the rule name |
| Classifier.ClasificarOperador | analizador_mejorado.py:84-98 | arithmetic exactly for `+ - * /`, assignment exactly for `=`, relational exactly for the six comparisons, and `(OP, OPERADOR)` exactly for a text that is no operator |
| Classifier.ClasificarDelimitador | analizador_mejorado.py:100-114 | grouping exactly for the brackets and `(DELIM, DELIMITADOR)` exactly for a text that is no delimiter |
| Classifier.CategoryDeterminesKind | analizador_mejorado.py:72-117 | no two emitted kinds share a category |
| Classifier.ShapedTokenClassified | analizador_mejorado.py:84-120 | a token of its rule's shape never gets `OP`, `DELIM` or `OTRO` |
| Classifier.ScannedTokensClassified | analizador_mejorado.py:65-120 | no token the scanner produces reaches the `OP`, `DELIM` or `OTRO` fallbacks |
| Classifier.CodeDeterminesText | analizador_mejorado.py:84-114 | among shaped tokens each operator and delimiter code names exactly one text |

## Left out

- `leer_archivo_entrada` (file reading), `generar_tabla_simbolos` (writing
  the table file), `main` and `Token.__repr__` (printing): input and output
  only. Reading the file is where Python normalises `\r\n`; the scanner
  here sees the text as given, so a carriage return is an `ERROR` token.
- `re.compile` on every turn of the inner loop: a library detail. Each
  regular expression is a hand-written matcher with the same anchored
  semantics.
- Unicode character classes: `\w`, `\d` and `\b` are modelled on ASCII
  letters, digits and `_`. Python 3 also counts accented letters as word
  characters and other scripts' digits as digits. Strings are sequences of
  characters, with no encoding.
- The `pos += 1` branch taken when no rule matches: it is proved
  unreachable, so the model has `assert false` there.
- The inner `for … break` loop is the separate method `PrimerPatron`,
  which reports the rule's row and its match length instead of a match
  object.
- `Token.tipo` is a `Kind` value, not a string. `Tokens.Name` gives the
  string. The classifier's fallback uses it.
- Rules.MatchCommentMulti, Rules.MatchComment, Rules.MatchKeyword,
  Rules.MatchIdentifier, Rules.MatchNumber, Rules.MatchString,
  Rules.MatchOperator: their own contracts state only that a match is
  non-empty and within the text. What each one accepts is stated by the
  `…Spec` or `…IsWholeWord` lemma beside it.
- Scanner.Step, Scanner.Segment, Scanner.Scan, Scanner.LinesAfter,
  Decisions.Decide: their own contracts state only bounds. What each one
  computes is stated by `StepIsFirst`, `SegmentTiles` and
  `SegmentCoversInput`, `ScanSpans` and `ScanShape`, `LinesAfterCounts`, and
  `StepDecided`.
