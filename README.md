# A verified model of the mini compiler

The mini compiler reads lines of a toy language until a line `END`. It
then compiles each line in turn:

1. **Lexical analysis.** `LexicalAnalyzer::tokenize` lists every successive
   match of one regular expression. The pattern's alternatives are
   `print`, `(`, `)`, a double-quoted string (the shortest one), an
   identifier, and one of `+ * / = ;`.
2. **Syntax validation.** `SyntaxValidator::validateSyntax` is a coarse
   character check. A line containing `print` needs a `;`, a `(` and a `)`
   somewhere. Every other line must end with `;`. A failing line raises a
   syntax error, which the driver catches and reports.
3. **Code generation.** `generateCode` reads the raw line again and keeps a
   global symbol table.
   - A line containing `print` prints a string literal or a variable's
     value.
   - Otherwise the leftmost match of the declaration pattern
     `(int|float)\s+identifier\s*=\s*[0-9]+\s*;` assigns the variable.
   - Any other line is echoed as executed.

The model is five Dafny modules, one per stage plus shared text
primitives:

- `Strings` (strings.dfy): character classes, the `find` searches, the
  space-erasing step and the decimal value of a digit group.
- `Lexer` (lexer.dfy): the tokenizer.
  - `Lex`/`Tokens` are the specification.
  - `Tokenize` is the loop.
  - `Alternative`/`PatternPicks` restate the regular expression's
    leftmost-first alternation independently, and `MatchAtIsPatternChoice`
    ties the hand-written matcher to it.
- `Syntax` (syntax.dfy): the validator.
- `CodeGen` (codegen.dfy): the generator.
  - `Generate` is the specification.
  - `CodeGenerator` is a class whose `symbols` field is the symbol table.
    Its `GenerateCode` erases spaces from the print payload in place, in
    an array.
  - `DeclarationAt` states the declaration pattern on its own, and the
    hand matcher `DeclAt`/`FindDecl` is proved to decide it.
- `Driver` (driver.dfy): the input loop and the compile loop.
  - `CompileAll` is a fold over the lines that threads the table.
  - `CompileProgram` is the loop over a `CodeGenerator`.
  - Exceptions become values: the `SyntaxError` verdict and the
    `OutOfRange` output of `stoi`.

Behaviours of the code that are easy to misread:

- The declaration pattern is searched for anywhere in the line, not matched
  against the whole line. So `point x = 5;` assigns `x`.
- Any line containing the letters `print` takes the print branch, even
  `int printer = 5;`, which then assigns nothing.
- `print();` has an empty payload. Its first character reads as the string
  terminator, so it is not a literal. It is looked up as the variable `""`
  and reported undefined; nothing reads out of bounds.
- A `print` line without `(` takes its payload from index 0, because
  `npos + 1` wraps to 0 in unsigned arithmetic.
- The empty line is the one place where the original reads out of bounds
  (`back()` of an empty string). The model rejects it as a syntax error.

## Model

| member | source | states |
|---|---|---|
| Strings.FindChar | main.cpp:75-76 | the result is the first index at or after `from` holding the character, and `None` means no such index exists |
| Strings.FindSub | main.cpp:59 | the result is the first index at or after `from` where the word occurs, and `None` means it occurs nowhere from there |
| Strings.Contains | main.cpp:59 | true exactly when the word occurs somewhere in the text |
| Strings.Unspaced | main.cpp:80 | the result is no longer than the input and contains no space |
| Strings.UnspacedSnoc | main.cpp:80 | erasing spaces keeps every other character in order: appending a character extends the result by it unless it is a space |
| Strings.SpanWhileRun | main.cpp:96 | a greedy repetition of a character class covers only characters of that class and stops before one outside it |
| Strings.SpanWhileUnique | main.cpp:32 | any index where a run of the class ends and the next character is outside it is the end of the greedy repetition |
| Strings.DigitsValue | main.cpp:101 | the decimal value of an n-digit group is below 10^n |
| Lexer.MatchAt | main.cpp:32 | the length of the pattern's match at one position (0 when no alternative matches there), within the line; `MatchAtIsPatternChoice` proves it is the alternation's choice and `MatchAtShape` gives the token shapes |
| Lexer.MatchAtShape | main.cpp:32 | every match of the token pattern is `print`, a parenthesis, a closed string literal, an identifier or a one-character operator |
| Lexer.MatchAtIsPatternChoice | main.cpp:32 | a length is picked by the ECMAScript leftmost-first alternation (lazy string, greedy identifier) exactly when it is the matcher's non-zero result |
| Lexer.AltString | main.cpp:32 | the lazy string alternative matches exactly up to the first closing quote, and only when no line terminator comes first |
| Lexer.AltIdentifier | main.cpp:32 | the greedy identifier alternative matches exactly the longest run of identifier characters after a letter or underscore |
| Lexer.Lex | main.cpp:33-39 | every successive match from a position on, skipping one character where nothing matches and resuming after each match; `LexSound` and `LexSkipsOnlyUnmatched` state its properties |
| Lexer.Tokens | main.cpp:33-39 | the texts of all matches of a line, in order; `Tokenize` is proved to compute it and `TokensNeverStartWithDigit` states its shapes |
| Lexer.LexSound | main.cpp:33-39 | every token of the iteration is a non-empty stretch of the line that is the pattern's match at its start, and tokens are in source order without overlap |
| Lexer.LexSkipsOnlyUnmatched | main.cpp:33-39 | a position no token covers is one where the pattern does not match: only characters that start no match are skipped |
| Lexer.Tokenize | main.cpp:31-42 | the loop pushes exactly the texts of all successive matches, in order |
| Lexer.TokensNeverStartWithDigit | main.cpp:32 | every token has one of the six shapes, so no token starts with a digit |
| Lexer.PrinterSplits | main.cpp:32 | `print` is tried before the identifier, so `printer` gives `print` then `er` |
| Lexer.DeclarationTokens | main.cpp:31-42 | `int x = 10;` gives `int`, `x`, `=`, `;`: the number yields no token |
| Lexer.UnclosedQuoteSkipped | main.cpp:32 | a quote without a closing quote starts no match and is skipped |
| Syntax.ValidateSyntax | main.cpp:58-63 | with `print` present, valid exactly when `;`, `(` and `)` all occur; otherwise valid exactly when the line is non-empty and ends with `;` |
| Syntax.HasChar | main.cpp:60 | true exactly when the character occurs in the line |
| Syntax.PrintRuleIgnoresOrder | main.cpp:59-60 | presence is all the print rule checks: `)print;(` is valid |
| Syntax.MissingSemicolonRejected | main.cpp:62 | a line without `print` that does not end with `;` is invalid, and so is the empty line |
| CodeGen.PayloadStart | main.cpp:75 | the payload starts just after the first `(` of the line; without a `(` it starts at index 0, because `npos + 1` wraps |
| CodeGen.PrintPayload | main.cpp:75-77 | the text from the payload start up to the next `)`, or to the end of the line when none follows; `PayloadBetweenParens` states it |
| CodeGen.PayloadBetweenParens | main.cpp:75-77 | the payload is exactly the text between the first `(` and the next `)`, or the rest of the line when no `)` follows |
| CodeGen.IsQuoted | main.cpp:83 | the literal test: a non-empty payload whose first and last characters are `"` (one `"` alone passes; the empty payload fails); used by `PrintQuotedEchoes`, `LoneQuotePayloadPrintsNothing` and `PrintVariable` |
| CodeGen.Unquote | main.cpp:85 | the payload without its first and last characters, and the empty text for a lone `"` where the length wraps; `PrintQuotedEchoes` and `LoneQuotePayloadPrintsNothing` state it |
| CodeGen.PrintOutput | main.cpp:83-92 | a literal prints its unquoted text, a name in the table prints its value, any other payload is reported undefined; `PrintQuotedEchoes` and `PrintVariable` state it |
| CodeGen.ShortDigitsInRange | main.cpp:101 | a digit group of at most nine digits is within `stoi`'s range, so only ten or more digits can be out of range |
| CodeGen.KeywordEnd | main.cpp:96 | the end of the keyword group of the pattern (`int` or `float`) at a position, with `int` tried first, within the line |
| CodeGen.DeclAt | main.cpp:96 | a match binds an identifier and a non-empty group of digits |
| CodeGen.DeclAtIsPattern | main.cpp:96 | the matcher gives this name and these digits at a position exactly when the declaration pattern describes the text there |
| CodeGen.DeclAtComplete | main.cpp:96 | every text the pattern describes is matched, with the same name and digits, so the pattern leaves no choice |
| CodeGen.DeclAtSound | main.cpp:96 | whatever the matcher accepts is a text the pattern describes |
| CodeGen.DeclTextPieces | main.cpp:96 | the pattern text occurs at a position exactly when each of its parts occurs where the previous one ends |
| CodeGen.MatchesAtIsDeclAt | main.cpp:96 | the pattern matches at a position exactly when the matcher finds a declaration there |
| CodeGen.FindDecl | main.cpp:98 | a found match starts at or after the search start and is the matcher's result at that position |
| CodeGen.FindDeclLeftmost | main.cpp:98 | the search's result has no match before it, and `None` means no position matches |
| CodeGen.FindDeclIsLeftmostMatch | main.cpp:98 | the search returns a given declaration exactly when the pattern matches there and at no earlier position |
| CodeGen.FindDeclNoneIsNoMatch | main.cpp:98 | the search finds nothing exactly when the pattern matches nowhere in the line |
| CodeGen.DropLast | main.cpp:107 | the result plus the line's last character is the line; the empty line gives the empty text |
| CodeGen.Generate | main.cpp:70-110 | the generator on the table before a line: the print branch on any line containing `print`, else the leftmost declaration, else the echo; `GenerateFrame`, `PrintLineKeepsTable`, `PrintQuotedEchoes`, `PrintVariable`, `DeclarationAssigns` and `OtherLineEchoed` state its behaviour |
| CodeGen.GenerateFrame | main.cpp:70-110 | only a declaration writes the table, and it writes exactly the assigned entry; an assignment never comes from a `print` line |
| CodeGen.PrintLineKeepsTable | main.cpp:74-93 | a line containing `print` never writes the table and never assigns or echoes |
| CodeGen.PrintQuotedEchoes | main.cpp:83-85 | `print("...")` outputs the text between the quotes, spaces erased, and leaves the table alone |
| CodeGen.PrintVariable | main.cpp:86-92 | any payload that fails the literal test is looked up as a name, whatever its characters: its value is output when it is in the table, otherwise it is reported undefined; the table is unchanged |
| CodeGen.LoneQuotePayloadPrintsNothing | main.cpp:83-85 | any `print` line whose payload is a lone `"` once spaces are erased prints the empty text and leaves the table alone |
| CodeGen.DeclarationAssigns | main.cpp:96-105 | a line without `print` assigns the leftmost declaration's variable its decimal value, unless the value exceeds the `int` range, in which case the table is unchanged |
| CodeGen.OtherLineEchoed | main.cpp:106-107 | a line with neither `print` nor a declaration is echoed without its last character and changes nothing |
| CodeGen.EmptyPrintIsUndefined | main.cpp:83-91 | `print();` reports the empty name undefined |
| CodeGen.LoneQuotePrintsNothing | main.cpp:83-85 | `print(");` counts the lone quote as a literal and prints the empty text |
| CodeGen.PrintNumberIsUndefined | main.cpp:83-91 | `print(10);` is not a literal, so `10` is looked up as a name and reported undefined |
| CodeGen.PrintInNameBlocksDeclaration | main.cpp:74 | `int printer = 5;` takes the print branch and assigns nothing |
| CodeGen.DeclarationInsideWord | main.cpp:96-105 | the declaration pattern is searched for anywhere: `point x = 5;` assigns `x` the value 5 |
| CodeGen.CodeGenerator.constructor | main.cpp:67 | the symbol table starts empty |
| CodeGen.CodeGenerator.GenerateCode | main.cpp:70-110 | the output and the new table are those of the generator function on the table before the call |
| CodeGen.RemoveSpaces | main.cpp:80 | the array's prefix of the returned length is the original contents with every space erased |
| Driver.CompileLine | main.cpp:130-141 | one report per line, holding its tokens; a syntax error exactly when validation fails, and then the table is unchanged |
| Driver.CompileAll | main.cpp:129-142 | one report per line |
| Driver.ReadProgram | main.cpp:122-126 | the kept lines are the input up to the first `END`, which they do not contain; without an `END` all input is kept and the end is not reached |
| Driver.CompileProgram | main.cpp:129-142 | the loop over a generator produces the reports and the final table of the fold over the lines |
| Driver.CompileAllAppend | main.cpp:129-142 | compiling two blocks of lines is compiling the first and then the second from the table the first leaves |
| Driver.ReportsMatchLines | main.cpp:129-142 | the k-th report holds line k's tokens; it is a syntax error exactly when line k is invalid, and otherwise it is the generator's output from the table left by the lines before it |
| Driver.SyntaxErrorIsolated | main.cpp:129-142 | an invalid line inserted anywhere adds its own syntax-error report and changes neither the other reports nor the final table |
| Driver.CompileAllKeepsTableWellFormed | main.cpp:101-104 | every name in the table is an identifier and every value lies between 0 and the largest `int` |
| Driver.TableUnchangedWithoutDeclaration | main.cpp:104 | lines that each contain `print` or no declaration leave the table as it was |
| Driver.DeclareThenPrint | main.cpp:88-105 | a declaration line followed by `print(name);` assigns the value and then prints it |
| Driver.EmptyPrintReportsUndefined | main.cpp:88-91 | after any run, `print();` reports the empty name undefined, because declared names are never empty |

## Left out

- The console text is not modelled. The messages written to standard output and standard error become `Output` and `Verdict` values.
- The `Compiler` base class and the `process` wrappers around each stage are not modelled. Their only behaviour beyond printing is the `throw` on an invalid line, which becomes the `SyntaxError` verdict.
- The `std::regex` engine is not modelled. Both patterns are hand-written matchers (`Lexer.MatchAt`, `CodeGen.DeclAt`), and each is proved equal to a separate statement of the pattern's meaning.
- Exceptions are not modelled as control flow. The two that can occur are the syntax error and `stoi`'s `out_of_range`. Both are caught per line, so they become result values.
- Reading past the end of input is not modelled. At end of input without `END`, the original's `getline` loop never ends. `Driver.ReadProgram` works on a finite input sequence and returns `ended == false` instead.
- Syntax.ValidateSyntax: on the empty line the original's `back()` reads out of bounds, which is undefined behaviour. The model returns `false` there.
- `int` width appears only in `stoi`'s range check (`CodeGen.IntMax`). Digit groups carry no sign, so no negative value can arise.
- The iteration order of `unordered_map` is not modelled. The table is a `map`, and the original never iterates over it.
