# PHP lexer helpers and AST value types, in Dafny

This project models two parts of the Devsense PHP parser.

- **The hand-written helper layer of the PHP scanner** (`Lexer.cs`). It covers:
  - token text and position bookkeeping;
  - the integer-literal kind rules and the 64- and 32-bit accumulation of digit runs;
  - the single- and double-quoted escape handlers and the `\u` code point reader;
  - `ProcessStringText` and the quoted-literal wrappers built on it;
  - heredoc indentation removal and the end of a heredoc or nowdoc;
  - text inside strings, shell commands and heredocs;
  - the compressed state snapshot with its `Equals` and `GetHashCode`.
- **The AST value types** (`LangElement.cs`):
  - the `Scope` generation counter and its sentinels;
  - the `HasValue` tests of `NameRef` and `QualifiedNameRef`;
  - `QualifiedNameRef.FromTypeRef`;
  - the property bag every `AstNode` forwards to.

The model follows the code as written. Four quirks show up as lemmas, and the rest of the model keeps them:

- In `GetTokenAsDecimalNumber`, the guard `lresult <= long.MaxValue` is always true. So the first loop reads every digit, and the overflow handling is unreachable. So every token `GetTokenAsDecimalNumber` produces is T_LNUMBER with the 64-bit wrapped value. The integer paths `GetIntegerTokenType` and `GetHexIntegerTokenType` still return T_DNUMBER for octal or hexadecimal digit strings their length tests judge too long.
- In `ParseCodePoint`, `code_point << 4 + digit` shifts by `4 + digit`. So a `\u` escape always yields U+0000.
- `CompressedState` stores `Stack.ToArray()`, which lists the stack top first. `new Stack(array)` then pushes that array in order, so a restore brings the stack back reversed.
- `Equals` ignores the current state, while `GetHashCode` mixes it in. Two snapshots can be equal and still hash differently.

Files, one module each:

| file | module | contents |
|---|---|---|
| `machine.dfy` | `Machine` | unchecked 32/64-bit arithmetic, the C# `int <<`, `Option`/`Outcome` |
| `chars.dfy` | `Chars` | the digit maps and `char.IsWhiteSpace` |
| `syntax.dfy` | `Syntax` | spans, token kinds, lexical states, diagnostics, builder pieces, semantic values |
| `numeric_literals.dfy` | `NumericLiterals` | digit runs, their values, the hexadecimal and octal kind rules and why they are exact |
| `escapes.dfy` | `Escapes` | the escape handlers, the code point reader, the decoding loop as a recursive function |
| `heredoc.dfy` | `Heredoc` | the indentation prefix computed line by line, the ordinal replace |
| `compressed_state.dfy` | `Snapshots` | the snapshot value, `Equals`, `GetHashCode`, the stack conversions |
| `lexer.dfy` | `PhpLexer` | class `Lexer` with the scanner fields and every helper method |
| `ast.dfy` | `Ast` | `Scope`, the name references, `FromTypeRef`, the `AstNode` property bag |

More notes on the model:

- **Reads past the end of the buffer.** A C# read past the end of `char[]` raises `IndexOutOfRangeException`. The model returns `Outcome.IndexOutOfRange` instead, and ensures say exactly when that happens.
- **The state stack.** It is a sequence whose last element is the top.
- **Lexical states.** They are integer codes. The generated enum's numbering is fixed by constants.

## Model

| member | source | states |
|---|---|---|
| Machine.Wrap32 | Source/Devsense.PHP.Parser/Syntax/Parsers/Lexer.cs:329 | unchecked `int` arithmetic leaves a value already inside the 32-bit range unchanged |
| Machine.Wrap64 | Source/Devsense.PHP.Parser/Syntax/Parsers/Lexer.cs:357 | unchecked `long` arithmetic leaves a value already inside the 64-bit range unchanged |
| Machine.Wrap32Residue | Source/Devsense.PHP.Parser/Syntax/Parsers/Lexer.cs:329 | 32-bit wrapping changes a value by a multiple of 2^32 |
| Machine.Wrap64Residue | Source/Devsense.PHP.Parser/Syntax/Parsers/Lexer.cs:357 | 64-bit wrapping changes a value by a multiple of 2^64 |
| Machine.Wrap32Congruent | Source/Devsense.PHP.Parser/Syntax/Parsers/Lexer.cs:329 | values congruent modulo 2^32 wrap to the same `int` |
| Machine.Wrap64Congruent | Source/Devsense.PHP.Parser/Syntax/Parsers/Lexer.cs:357 | values congruent modulo 2^64 wrap to the same `long` |
| Machine.Wrap32MulAdd | Source/Devsense.PHP.Parser/Syntax/Parsers/Lexer.cs:325-331 | wrapping after every `result * base + digit` step gives what wrapping once at the end gives |
| Machine.Wrap64MulAdd | Source/Devsense.PHP.Parser/Syntax/Parsers/Lexer.cs:355-359 | the same for the 64-bit accumulation |
| Machine.Shl32 | Source/Devsense.PHP.Parser/Syntax/Parsers/Lexer.cs:687 | shifting 0 gives 0, whatever the shift count |
| Chars.AlphaNumericToDigit | Source/Devsense.PHP.Parser/Syntax/Parsers/Lexer.cs:326 | the digit is below 36 exactly for letters and decimal digits, and below 10 exactly for decimal digits, where it agrees with `NumericToDigit` |
| Chars.NumericToDigit | Source/Devsense.PHP.Parser/Syntax/Parsers/Lexer.cs:521 | the digit is below 10 exactly for '0'-'9' and is then the digit's value |
| Syntax.PiecesString | Source/Devsense.PHP.Parser/Syntax/Parsers/Lexer.cs:620 | the builder's string has one character per appended piece |
| Syntax.CharPieces | Source/Devsense.PHP.Parser/Syntax/Parsers/Lexer.cs:599 | appending a string appends one piece per character |
| NumericLiterals.DigitRun | Source/Devsense.PHP.Parser/Syntax/Parsers/Lexer.cs:355 | the digit run ends at the end of the buffer or at a character whose digit is not below the base |
| NumericLiterals.DigitRunIsRun | Source/Devsense.PHP.Parser/Syntax/Parsers/Lexer.cs:355 | every character of the run is a digit below the base |
| NumericLiterals.SkipZeros | Source/Devsense.PHP.Parser/Syntax/Parsers/Lexer.cs:278 | the skip stops at the first character that is not '0', or at the token end, and everything skipped is '0' |
| NumericLiterals.DigitsValueBounds | Source/Devsense.PHP.Parser/Syntax/Parsers/Lexer.cs:309-313 | n digits below the base denote a value in [0, base^n) |
| NumericLiterals.DigitsValueFront | Source/Devsense.PHP.Parser/Syntax/Parsers/Lexer.cs:309-313 | the leading digit contributes digit * base^(n-1) |
| NumericLiterals.LeadingZerosValue | Source/Devsense.PHP.Parser/Syntax/Parsers/Lexer.cs:306 | skipping leading zeros does not change the value |
| NumericLiterals.LeadingDigitLowerBound | Source/Devsense.PHP.Parser/Syntax/Parsers/Lexer.cs:309-313 | the value lies between d * base^(n-1) and (d+1) * base^(n-1) for leading digit d |
| NumericLiterals.HexDigitBelowEight | Source/Devsense.PHP.Parser/Syntax/Parsers/Lexer.cs:310 | for a hex digit, `c >= '0' && c < '8'` holds exactly when its value is below 8 |
| NumericLiterals.PowConstants | Source/Devsense.PHP.Parser/Syntax/Parsers/Lexer.cs:283-311 | 16^15, 16^16 and 8^21 (= 2^63) fix the thresholds 16 and 22 |
| NumericLiterals.HexStrippedIsExact | Source/Devsense.PHP.Parser/Syntax/Parsers/Lexer.cs:309-313 | after the zeros, "fewer than 16 digits, or 16 with the first below '8'" holds exactly when the value fits in a `long` |
| NumericLiterals.HexKindIsExact | Source/Devsense.PHP.Parser/Syntax/Parsers/Lexer.cs:301-314 | a hexadecimal literal is T_LNUMBER exactly when its value is at most long.MaxValue |
| NumericLiterals.OctalStrippedIsExact | Source/Devsense.PHP.Parser/Syntax/Parsers/Lexer.cs:283-287 | after the zeros, fewer than 22 octal digits holds exactly when the value fits in a `long` |
| NumericLiterals.OctalKindIsExact | Source/Devsense.PHP.Parser/Syntax/Parsers/Lexer.cs:275-288 | an octal literal is T_LNUMBER exactly when its value is at most long.MaxValue |
| NumericLiterals.DecimalKindIgnoresOverflow | Source/Devsense.PHP.Parser/Syntax/Parsers/Lexer.cs:289-294 | a decimal literal beyond the `long` range is still T_LNUMBER, and its value wraps |
| Escapes.SingleQuotedEscape | Source/Devsense.PHP.Parser/Syntax/Parsers/Lexer.cs:428-437 | a handled escape consumes only the escaped character |
| Escapes.SingleQuotedEscapes | Source/Devsense.PHP.Parser/Syntax/Parsers/Lexer.cs:428-437 | only `\\` and `\'` are handled, each appends the escaped character, and the handler never reads past the buffer |
| Escapes.DoubleQuotedEscape | Source/Devsense.PHP.Parser/Syntax/Parsers/Lexer.cs:440-553 | a handled escape ends at or after the escaped character |
| Escapes.DoubleQuotedSimpleEscapes | Source/Devsense.PHP.Parser/Syntax/Parsers/Lexer.cs:444-471 | n r t v e f \ $ " consume one character and append LF CR TAB VT ESC FF \ $ " |
| Escapes.BacktickEscape | Source/Devsense.PHP.Parser/Syntax/Parsers/Lexer.cs:474-480 | a backtick is handled exactly when the scanner is in ST_IN_SHELL |
| Escapes.HexEscape | Source/Devsense.PHP.Parser/Syntax/Parsers/Lexer.cs:494-514 | `\x` consumes one or two digits |
| Escapes.HexEscapeRoundTrip | Source/Devsense.PHP.Parser/Syntax/Parsers/Lexer.cs:494-514 | `\x` with the two hex digits of any byte decodes to that byte and consumes both digits |
| Escapes.HexEscapeOneDigit | Source/Devsense.PHP.Parser/Syntax/Parsers/Lexer.cs:497-510 | a single hex digit before a non-hex character is consumed alone, and the follower is rolled back |
| Escapes.HexEscapeWithoutDigit | Source/Devsense.PHP.Parser/Syntax/Parsers/Lexer.cs:494-514 | `\x` that is not followed by a hex digit is not an escape |
| Escapes.OctalEscape | Source/Devsense.PHP.Parser/Syntax/Parsers/Lexer.cs:517-547 | an octal escape consumes one to three digits |
| Escapes.OctalEscapeRoundTrip | Source/Devsense.PHP.Parser/Syntax/Parsers/Lexer.cs:517-547 | the three octal digits of any byte decode to that byte |
| Escapes.OctalEscapeShort | Source/Devsense.PHP.Parser/Syntax/Parsers/Lexer.cs:521-541 | one or two octal digits before a non-octal character give their value, and the follower is rolled back |
| Escapes.OctalEscapeTruncates | Source/Devsense.PHP.Parser/Syntax/Parsers/Lexer.cs:543 | the `(byte)` cast keeps the code modulo 256, so `\777` is the byte 255 |
| Escapes.DoubleQuotedUnknownEscape | Source/Devsense.PHP.Parser/Syntax/Parsers/Lexer.cs:551-552 | any other character is not an escape (-1) |
| Escapes.CodePointScan | Source/Devsense.PHP.Parser/Syntax/Parsers/Lexer.cs:681-690 | the scan consumes at most `maxLength` digits and a code point starting at 0 stays 0 |
| Escapes.CodePointText | Source/Devsense.PHP.Parser/Syntax/Parsers/Lexer.cs:697-713 | the text for a code point is one character ("?" outside the scalar values) |
| Escapes.UnicodeEscape | Source/Devsense.PHP.Parser/Syntax/Parsers/Lexer.cs:482-491 | a `\u` escape ends at or after the 'u' |
| Escapes.ParseCodePoint | Source/Devsense.PHP.Parser/Syntax/Parsers/Lexer.cs:681-715 | the loop computes what `CodePointScan` describes, and the text is always U+0000 |
| Escapes.UnicodeEscapeExample | Source/Devsense.PHP.Parser/Syntax/Parsers/Lexer.cs:687 | `\u41` consumes both digits and yields U+0000, not 'A' |
| Escapes.Handle | Source/Devsense.PHP.Parser/Syntax/Parsers/Lexer.cs:602-607 | a handled escape ends at or after the character after the backslash, so the `processed > 0` test always holds for it |
| Escapes.FirstBackslash | Source/Devsense.PHP.Parser/Syntax/Parsers/Lexer.cs:583-587 | the index found is inside the literal and holds a backslash unless it is the end |
| Escapes.FirstBackslashIsFirst | Source/Devsense.PHP.Parser/Syntax/Parsers/Lexer.cs:583-587 | no backslash comes before the index found |
| Escapes.StringTextVerbatim | Source/Devsense.PHP.Parser/Syntax/Parsers/Lexer.cs:564-620 | the result is the slice itself exactly when no backslash in the literal has a successor inside it |
| Escapes.UnescapeSingleQuoted | Source/Devsense.PHP.Parser/Syntax/Parsers/Lexer.cs:590-614 | with the single-quoted handler the loop appends the reference decoding of its input |
| Escapes.StringTextSingleQuoted | Source/Devsense.PHP.Parser/Syntax/Parsers/Lexer.cs:564-620 | a single-quoted literal always decodes, to `SingleQuotedDecode` of its body (backslash sequences other than `\\` and `\'` stay verbatim) |
| Escapes.DoubleQuotedKeepsUnknownEscape | Source/Devsense.PHP.Parser/Syntax/Parsers/Lexer.cs:593-614 | a backslash before a character that starts no escape is kept together with that character |
| Escapes.SingleQuotedExample | Source/Devsense.PHP.Parser/Syntax/Parsers/Lexer.cs:564-620 | the body `a\\nb\'c` decodes to the six characters `a\nb'c` |
| Escapes.DoubleQuotedExample | Source/Devsense.PHP.Parser/Syntax/Parsers/Lexer.cs:564-620 | the body `a\tb\$c\x41` decodes to a, TAB, b, $, c and the byte 0x41 |
| Heredoc.LeadingIndent | Source/Devsense.PHP.Parser/Syntax/Parsers/Lexer.cs:847-850 | the collected indentation is the maximal run of spaces and tabs that starts the line |
| Heredoc.Lines | Source/Devsense.PHP.Parser/Syntax/Parsers/Lexer.cs:853 | a text has at least one line |
| Heredoc.Reconcile | Source/Devsense.PHP.Parser/Syntax/Parsers/Lexer.cs:855-863 | one step yields the line's indentation, "" or the old prefix, and the result prefixes both |
| Heredoc.HeredocPrefixIsIndent | Source/Devsense.PHP.Parser/Syntax/Parsers/Lexer.cs:840-877 | the prefix returned is made only of spaces and tabs |
| Heredoc.ReconciledIsCommonPrefix | Source/Devsense.PHP.Parser/Syntax/Parsers/Lexer.cs:855-863 | the reconciled prefix starts the indentation of every ended line |
| Heredoc.EmptyIndentClears | Source/Devsense.PHP.Parser/Syntax/Parsers/Lexer.cs:860-863 | once an unindented line has ended, the prefix stays empty |
| Heredoc.SingleLineNoError | Source/Devsense.PHP.Parser/Syntax/Parsers/Lexer.cs:868-875 | without a newline no indentation error is reported |
| Heredoc.BlankLineRejectsIndentedClosing | Source/Devsense.PHP.Parser/Syntax/Parsers/Lexer.cs:868-875 | a blank body line and an indented closing label give the error and an empty prefix |
| Heredoc.LessIndentedLineErrors | Source/Devsense.PHP.Parser/Syntax/Parsers/Lexer.cs:855-875 | any body line indented less than the closing label gives the indentation error, and the prefix returned is the reconciled one |
| Heredoc.UniformIndent | Source/Devsense.PHP.Parser/Syntax/Parsers/Lexer.cs:840-877 | lines all indented like the closing label give that indentation, with no error |
| Heredoc.HeredocPrefixFits | Source/Devsense.PHP.Parser/Syntax/Parsers/Lexer.cs:882 | the prefix is never longer than the text, so `Substring(prefix.Length)` cannot fail |
| Heredoc.ReplaceAllSelf | Source/Devsense.PHP.Parser/Syntax/Parsers/Lexer.cs:882 | replacing a pattern by itself changes nothing |
| Heredoc.FixIndentEmptyPrefix | Source/Devsense.PHP.Parser/Syntax/Parsers/Lexer.cs:882 | an empty prefix leaves the text unchanged |
| Heredoc.ReplaceAllShrinks | Source/Devsense.PHP.Parser/Syntax/Parsers/Lexer.cs:882 | replacing by something no longer never lengthens the text |
| Heredoc.ReplaceAllNoMatch | Source/Devsense.PHP.Parser/Syntax/Parsers/Lexer.cs:882 | text without an occurrence of the pattern passes through unchanged |
| Heredoc.FixedHeredoc | Source/Devsense.PHP.Parser/Syntax/Parsers/Lexer.cs:879-883 | the fixed body is never longer than the body |
| Snapshots.StackToArray | Source/Devsense.PHP.Parser/Syntax/Parsers/Lexer.cs:1034 | the array has the stack's length and starts with the stack's top |
| Snapshots.GetStateStack | Source/Devsense.PHP.Parser/Syntax/Parsers/Lexer.cs:1063-1066 | the rebuilt stack has the array's length, and the array's last element is on top |
| Snapshots.Equals | Source/Devsense.PHP.Parser/Syntax/Parsers/Lexer.cs:1049-1061 | true exactly when the labels match and the stacks match element by element |
| Snapshots.SameSnapshotReflexive | Source/Devsense.PHP.Parser/Syntax/Parsers/Lexer.cs:1049-1061 | every snapshot equals itself |
| Snapshots.SameSnapshotSymmetric | Source/Devsense.PHP.Parser/Syntax/Parsers/Lexer.cs:1049-1061 | `a.Equals(b)` and `b.Equals(a)` agree |
| Snapshots.SameSnapshotTransitive | Source/Devsense.PHP.Parser/Syntax/Parsers/Lexer.cs:1049-1061 | equality carries over from a to b to c |
| Snapshots.GetHashCode | Source/Devsense.PHP.Parser/Syntax/Parsers/Lexer.cs:1038-1047 | the loop computes the label hash XOR each `state << i` XOR `current << 7` |
| Snapshots.EqualSnapshotsHashDifferently | Source/Devsense.PHP.Parser/Syntax/Parsers/Lexer.cs:1038-1061 | a snapshot in INITIAL and the same snapshot in ST_IN_SCRIPTING are `Equals` but hash differently, whatever the label, stack and string hash |
| Snapshots.RestoreReversesStack | Source/Devsense.PHP.Parser/Syntax/Parsers/Lexer.cs:1030-1066 | restoring brings back the label, current state and doc block, with the stack reversed |
| Snapshots.ResnapshotEqualsIffPalindrome | Source/Devsense.PHP.Parser/Syntax/Parsers/Lexer.cs:1030-1066 | a snapshot taken after a restore equals the original exactly when the stack is a palindrome |
| Snapshots.RestoreChangesTop | Source/Devsense.PHP.Parser/Syntax/Parsers/Lexer.cs:1063-1080 | with two different states on the stack, a restore changes the top state |
| PhpLexer.Map | Source/Devsense.PHP.Parser/Syntax/Parsers/Lexer.cs:718-721 | the result is ASCII, equals the input exactly for ASCII, and is 'a' otherwise |
| PhpLexer.TokenSpans | Source/Devsense.PHP.Parser/Syntax/Parsers/Lexer.cs:139-147 | consecutive token spans are contiguous, begin at the start offset and never move back |
| PhpLexer.RunValueIsDigitsValue | Source/Devsense.PHP.Parser/Syntax/Parsers/Lexer.cs:355-359 | the loop's left-to-right accumulation is the value of the digit string |
| PhpLexer.LongStep | Source/Devsense.PHP.Parser/Syntax/Parsers/Lexer.cs:355-359 | one iteration of the 64-bit loop keeps its invariant |
| PhpLexer.IntegerStep | Source/Devsense.PHP.Parser/Syntax/Parsers/Lexer.cs:325-331 | one iteration of the 32-bit loop keeps its invariant |
| PhpLexer.TrailLength | Source/Devsense.PHP.Parser/Syntax/Parsers/Lexer.cs:909-925 | the trail is at most the token length |
| PhpLexer.TrailLengthIsMaximalRun | Source/Devsense.PHP.Parser/Syntax/Parsers/Lexer.cs:909-925 | the trail is the maximal run of whitespace and ';' at the token end |
| PhpLexer.QuotedBodyOf | Source/Devsense.PHP.Parser/Syntax/Parsers/Lexer.cs:623-660 | the body lies inside the token |
| PhpLexer.QuotedBodyRoundTrip | Source/Devsense.PHP.Parser/Syntax/Parsers/Lexer.cs:638-659 | when quotes are stripped, the token is an optional 'b', a quote, the body and a quote. Otherwise the token has neither form, all of it is the body, and binary is reset |
| PhpLexer.SingleQuotedLiteralDone | Source/Devsense.PHP.Parser/Syntax/Parsers/Lexer.cs:789-794 | a single-quoted literal always decodes |
| PhpLexer.EscapedWithEndingCases | Source/Devsense.PHP.Parser/Syntax/Parsers/Lexer.cs:662-679 | a literal ending in `$END` or `{END` is decoded without its last character, which is given back on success. Any other literal is decoded whole |
| PhpLexer.ProcessStringText | Source/Devsense.PHP.Parser/Syntax/Parsers/Lexer.cs:564-620 | the method computes `StringText`; see `StringTextVerbatim` and `StringTextSingleQuoted` for its meaning |
| PhpLexer.AppendUnescaped | Source/Devsense.PHP.Parser/Syntax/Parsers/Lexer.cs:590-614 | the `for` loop appends to the builder what `UnescapeFrom` describes, or raises where it does |
| PhpLexer.ScanHeredocPrefix | Source/Devsense.PHP.Parser/Syntax/Parsers/Lexer.cs:842-876 | the character loop computes the line-by-line prefix and reports the indentation error exactly when `IndentationError` holds |
| PhpLexer.EncapsedEffect | Source/Devsense.PHP.Parser/Syntax/Parsers/Lexer.cs:936 | the token end moves back by at most one, only over a final `ending`. On success the text is the double-quoted decoding of the shortened token, paired with its source. On failure nothing changes |
| PhpLexer.TextEffect | Source/Devsense.PHP.Parser/Syntax/Parsers/Lexer.cs:998-1013 | it reports false exactly for an empty token, which then asks for more input. Otherwise it reports true exactly when the decoding succeeds |
| PhpLexer.HeredocBody | Source/Devsense.PHP.Parser/Syntax/Parsers/Lexer.cs:893-895 | without a handler the body is the source text |
| PhpLexer.DecodeHeredocBody | Source/Devsense.PHP.Parser/Syntax/Parsers/Lexer.cs:893-895 | it decodes with the handler when there is one and is the source text otherwise |
| PhpLexer.Lexer.constructor | Source/Devsense.PHP.Parser/Syntax/Parsers/Lexer.cs:101-116 | the offset starts at `positionShift`, the state at the initial state, with an empty stack and no label, doc block or errors |
| PhpLexer.Lexer.PreviousLexicalState | Source/Devsense.PHP.Parser/Syntax/Parsers/Lexer.cs:167 | the top of the stack, or -1 when the stack is empty |
| PhpLexer.Lexer.UpdateTokenPosition | Source/Devsense.PHP.Parser/Syntax/Parsers/Lexer.cs:139-147 | the span is (old offset, token length), the offset advances by the token length, and the cached text is dropped |
| PhpLexer.Lexer.YyLess | Source/Devsense.PHP.Parser/Syntax/Parsers/Lexer.cs:171-174 | `token_end` and `lookahead_index` both become `token_end - count` |
| PhpLexer.Lexer.PushState | Source/Devsense.PHP.Parser/Syntax/Parsers/Lexer.cs:1002 | the current state goes on top of the stack and the new state becomes current |
| PhpLexer.Lexer.GetText | Source/Devsense.PHP.Parser/Syntax/Parsers/Lexer.cs:201-231 | every shortcut (empty, one-character constants, "\r\n") and the pooled string equal the buffer slice |
| PhpLexer.Lexer.GetTokenString | Source/Devsense.PHP.Parser/Syntax/Parsers/Lexer.cs:238-241 | the token's characters |
| PhpLexer.Lexer.GetTokenSubstring | Source/Devsense.PHP.Parser/Syntax/Parsers/Lexer.cs:253-256 | the characters from `startIndex` for `length` |
| PhpLexer.Lexer.TokenText | Source/Devsense.PHP.Parser/Syntax/Parsers/Lexer.cs:738 | the cached text when there is one; otherwise the token string, which is then cached |
| PhpLexer.Lexer.GetTokenAsEscapedCharacter | Source/Devsense.PHP.Parser/Syntax/Parsers/Lexer.cs:258-269 | n, t and r map to LF, TAB and CR, and any other character stands for itself |
| PhpLexer.Lexer.GetTokenAsDecimalNumber | Source/Devsense.PHP.Parser/Syntax/Parsers/Lexer.cs:345-392 | always T_LNUMBER, with the 64-bit wrapped value of the maximal digit run from `startIndex` (bounded by the buffer, not the token) |
| PhpLexer.Lexer.GetTokenAsInteger | Source/Devsense.PHP.Parser/Syntax/Parsers/Lexer.cs:319-334 | it raises exactly when the digit run reaches the end of the buffer. Otherwise it returns the run's value wrapped to 32 bits |
| PhpLexer.Lexer.GetIntegerTokenType | Source/Devsense.PHP.Parser/Syntax/Parsers/Lexer.cs:275-295 | the kind `IntegerKind` gives: octal by digit count, decimal always T_LNUMBER |
| PhpLexer.Lexer.GetHexIntegerTokenType | Source/Devsense.PHP.Parser/Syntax/Parsers/Lexer.cs:301-314 | the kind `HexKind` gives, exact by `HexKindIsExact` |
| PhpLexer.Lexer.ProcessBinaryNumber | Source/Devsense.PHP.Parser/Syntax/Parsers/Lexer.cs:740-751 | T_LNUMBER with the wrapped base-2 value after "0b"; the too-big warning is unreachable |
| PhpLexer.Lexer.ProcessDecimalNumber | Source/Devsense.PHP.Parser/Syntax/Parsers/Lexer.cs:753-768 | it raises when the token starts at the buffer end. Otherwise T_LNUMBER, with base 8 from index 1 after a leading '0' and base 10 otherwise; no warning |
| PhpLexer.Lexer.ProcessHexadecimalNumber | Source/Devsense.PHP.Parser/Syntax/Parsers/Lexer.cs:770-781 | T_LNUMBER with the wrapped base-16 value after "0x"; the too-big warning is unreachable |
| PhpLexer.Lexer.ProcessVariableOffsetNumber | Source/Devsense.PHP.Parser/Syntax/Parsers/Lexer.cs:816-825 | T_NUM_STRING with the wrapped decimal value; the double branch is unreachable |
| PhpLexer.Lexer.ProcessLabel | Source/Devsense.PHP.Parser/Syntax/Parsers/Lexer.cs:804-808 | T_STRING with the token text |
| PhpLexer.Lexer.ProcessVariable | Source/Devsense.PHP.Parser/Syntax/Parsers/Lexer.cs:810-814 | T_VARIABLE with the token text after the '$' |
| PhpLexer.Lexer.ProcessVariableOffsetString | Source/Devsense.PHP.Parser/Syntax/Parsers/Lexer.cs:827-831 | T_NUM_STRING with the token text |
| PhpLexer.Lexer.GetTokenAsQuotedString | Source/Devsense.PHP.Parser/Syntax/Parsers/Lexer.cs:623-660 | "" for an empty token. Otherwise it decodes the body `QuotedBodyOf` finds, binary only with a 'b' prefix before matching quotes |
| PhpLexer.Lexer.ProcessEscapedStringWithEnding | Source/Devsense.PHP.Parser/Syntax/Parsers/Lexer.cs:662-679 | it decodes as `EscapedWithEnding` says, and gives back the final `ending` only after successful decoding. An empty literal at offset 0 raises |
| PhpLexer.Lexer.ProcessSingleQuotedString | Source/Devsense.PHP.Parser/Syntax/Parsers/Lexer.cs:789-794 | it never fails, and stores the decoded literal and T_SINGLE_QUOTES |
| PhpLexer.Lexer.ProcessDoubleQuotedString | Source/Devsense.PHP.Parser/Syntax/Parsers/Lexer.cs:796-802 | it stores the decoded literal and T_DOUBLE_QUOTES, or raises where the decoding does and stores nothing |
| PhpLexer.Lexer.LocateHeredocPrefix | Source/Devsense.PHP.Parser/Syntax/Parsers/Lexer.cs:840-877 | it returns `HeredocPrefix`, and logs "Incorrect heredoc indentation." at the token position exactly when `IndentationError` holds |
| PhpLexer.Lexer.FixHeredocIndent | Source/Devsense.PHP.Parser/Syntax/Parsers/Lexer.cs:879-883 | the body without its prefix, with the same error log |
| PhpLexer.Lexer.LabelTrailLength | Source/Devsense.PHP.Parser/Syntax/Parsers/Lexer.cs:909-925 | the backward loop counts `TrailLength`, the maximal whitespace/';' run, which is at most the token length |
| PhpLexer.Lexer.ProcessEndNowDoc | Source/Devsense.PHP.Parser/Syntax/Parsers/Lexer.cs:885-907 | it enters ST_END_HEREDOC and decodes the body before label and trail. On success it fixes the indentation, moves token end and lookahead back from the lookahead by label plus trail, stores (text, source text) and reports a non-empty text. When decoding raises, nothing else changes |
| PhpLexer.Lexer.ReadClosingBody | Source/Devsense.PHP.Parser/Syntax/Parsers/Lexer.cs:887-895 | it enters ST_END_HEREDOC and returns the decoded body, its source text and the length of label plus trail |
| PhpLexer.Lexer.CloseHeredoc | Source/Devsense.PHP.Parser/Syntax/Parsers/Lexer.cs:897-906 | it fixes the indentation, moves both indices to `lookahead_index - cut`, stores the pair and reports a non-empty text |
| PhpLexer.Lexer.StoreEncapsedText | Source/Devsense.PHP.Parser/Syntax/Parsers/Lexer.cs:936 | the new token end and semantic value are those `EncapsedEffect` gives for the old state |
| PhpLexer.Lexer.ProcessStringEOF | Source/Devsense.PHP.Parser/Syntax/Parsers/Lexer.cs:927-939 | a token that opens with '"' is cut to the quote (T_DOUBLE_QUOTES). Anything else is decoded up to a final '"' (T_ENCAPSED_AND_WHITESPACE) |
| PhpLexer.Lexer.ProcessEof | Source/Devsense.PHP.Parser/Syntax/Parsers/Lexer.cs:954-967 | the given token with the text (as a pair for T_ENCAPSED_AND_WHITESPACE), or EOF with nothing stored for an empty token |
| PhpLexer.Lexer.WithTokenString | Source/Devsense.PHP.Parser/Syntax/Parsers/Lexer.cs:969-973 | returns the token and stores the token text |
| PhpLexer.Lexer.ProcessText | Source/Devsense.PHP.Parser/Syntax/Parsers/Lexer.cs:998-1013 | it gives back `count`, pushes the current state and enters the new one. An empty token then asks for more input and reports false. Otherwise the token is decoded in the new state as `EncapsedEffect` says |
| PhpLexer.Lexer.ProcessString | Source/Devsense.PHP.Parser/Syntax/Parsers/Lexer.cs:975-993 | a whole "..." literal is decoded in ST_IN_SCRIPTING; if decoding raises, nothing is stored. Any other token opening with '"' is cut to the quote. The rest is text in ST_IN_STRING, as `TextEffect` says |
| PhpLexer.Lexer.ProcessShell | Source/Devsense.PHP.Parser/Syntax/Parsers/Lexer.cs:995 | text in ST_IN_SHELL with ending '`', as `TextEffect` says |
| PhpLexer.Lexer.ProcessHeredoc | Source/Devsense.PHP.Parser/Syntax/Parsers/Lexer.cs:996 | text in ST_IN_HEREDOC with ending '\0', as `TextEffect` says |
| PhpLexer.Lexer.GetCompressedState | Source/Devsense.PHP.Parser/Syntax/Parsers/Lexer.cs:1069-1072 | the snapshot holds the label, current state and doc block, and the stack reversed (top first) |
| PhpLexer.Lexer.RestoreCompressedState | Source/Devsense.PHP.Parser/Syntax/Parsers/Lexer.cs:1074-1080 | the four fields come from the snapshot, and the stack is rebuilt from its array |
| Ast.Scope.constructor | Source/Devsense.PHP.Parser/Ast/LangElement.cs:281-284 | the scope starts at the given value |
| Ast.Scope.Invalid | Source/Devsense.PHP.Parser/Ast/LangElement.cs:261 | a fresh scope at -1, which is not valid |
| Ast.Scope.Global | Source/Devsense.PHP.Parser/Ast/LangElement.cs:262 | a fresh scope at 0, global and valid |
| Ast.Scope.Ignore | Source/Devsense.PHP.Parser/Ast/LangElement.cs:263 | a fresh scope at Int32.MaxValue, valid and not global |
| Ast.Scope.Increment | Source/Devsense.PHP.Parser/Ast/LangElement.cs:286-289 | the start steps by one with wrap-around; the result is valid exactly from -1 to Int32.MaxValue - 1, and global exactly from -1 |
| Ast.NextStart | Source/Devsense.PHP.Parser/Ast/LangElement.cs:288 | below Int32.MaxValue the start grows by exactly one, and Int32.MaxValue wraps to Int32.MinValue |
| Ast.NextStartValid | Source/Devsense.PHP.Parser/Ast/LangElement.cs:265-289 | the start after an increment is valid exactly when the old one was in [-1, Int32.MaxValue), and global exactly when it was -1 |
| Ast.SentinelIncrements | Source/Devsense.PHP.Parser/Ast/LangElement.cs:261-289 | incrementing `Ignore` gives an invalid scope, and incrementing `Invalid` gives `Global` |
| Ast.NameRefHasValue | Source/Devsense.PHP.Parser/Ast/LangElement.cs:175 | true exactly when the name is a non-null string with at least one character |
| Ast.QualifiedNameRefHasValue | Source/Devsense.PHP.Parser/Ast/LangElement.cs:219 | false exactly when the base name is null or "", and the namespaces are null or empty |
| Ast.InvalidRefsHaveNoValue | Source/Devsense.PHP.Parser/Ast/LangElement.cs:175-238 | neither `NameRef.Invalid` nor `QualifiedNameRef.Invalid` has a value |
| Ast.QualifiedHasValueFromNamespaces | Source/Devsense.PHP.Parser/Ast/LangElement.cs:219 | with the empty base name, there is a value exactly when there is a namespace |
| Ast.FromTypeRef | Source/Devsense.PHP.Parser/Ast/LangElement.cs:221-233 | it throws exactly for a non-null TypeRef that is not direct. A direct one keeps its span and has a value exactly when its class name has one. Null gives a reference without a value |
| Ast.FromTypeRefRoundTrip | Source/Devsense.PHP.Parser/Ast/LangElement.cs:223-226 | a direct type reference converts to its own span and class name |
| Ast.Lookup | Source/Devsense.PHP.Parser/Ast/LangElement.cs:37-40 | a read finds a value exactly when the key is present, and it is the stored one |
| Ast.AstNode.constructor | Source/Devsense.PHP.Parser/Ast/LangElement.cs:21 | a new node's bag is empty |
| Ast.AstNode.SetProperty | Source/Devsense.PHP.Parser/Ast/LangElement.cs:32-35 | the bag maps the key to the value, the rest unchanged |
| Ast.AstNode.GetProperty | Source/Devsense.PHP.Parser/Ast/LangElement.cs:37-40 | the value stored at the key, or none |
| Ast.AstNode.SetPropertyOfType | Source/Devsense.PHP.Parser/Ast/LangElement.cs:42-45 | the bag maps the type to the value, the rest unchanged |
| Ast.AstNode.GetPropertyOfType | Source/Devsense.PHP.Parser/Ast/LangElement.cs:47-50 | the value stored for the type, or none |
| Ast.AstNode.TryGetProperty | Source/Devsense.PHP.Parser/Ast/LangElement.cs:52-55 | true exactly when the key is present, with the value stored there |
| Ast.AstNode.TryGetPropertyOfType | Source/Devsense.PHP.Parser/Ast/LangElement.cs:57-60 | true exactly when the type is present, with the value stored for it |
| Ast.AstNode.RemoveProperty | Source/Devsense.PHP.Parser/Ast/LangElement.cs:62-65 | true exactly when the key was present; the key is gone and nothing else changes |
| Ast.AstNode.RemovePropertyOfType | Source/Devsense.PHP.Parser/Ast/LangElement.cs:67-70 | true exactly when the type was present; the type is gone and nothing else changes |
| Ast.AstNode.ClearProperties | Source/Devsense.PHP.Parser/Ast/LangElement.cs:72-75 | the bag is empty |
| Ast.AstNode.GetItem | Source/Devsense.PHP.Parser/Ast/LangElement.cs:79-82 | the indexer's getter reads what `GetProperty(key)` reads |
| Ast.AstNode.SetItem | Source/Devsense.PHP.Parser/Ast/LangElement.cs:83-86 | the indexer's setter writes what `SetProperty(key, value)` writes |
| Ast.LookupAfterSet | Source/Devsense.PHP.Parser/Ast/LangElement.cs:32-50 | after a write, a read sees the value at that key and the old value at every other key |
| Ast.LookupAfterRemove | Source/Devsense.PHP.Parser/Ast/LangElement.cs:62-70 | after a removal, a read finds nothing at that key and the old value at every other key |
| Ast.TypeAndKeyAreIndependent | Source/Devsense.PHP.Parser/Ast/LangElement.cs:42-45 | storing by type leaves every explicit key's value alone; this is a property of the model's two key spaces in `PropertyKey`, not a promise of `PropertyCollection` |

## Left out

- The generated automaton is not part of this model: `NextToken`, `GetNextToken`, `Initialize` on a `TextReader`, buffer refills, `BEGIN`, `yymore` and `yy_push_state`. Only the fields it shares with the helpers appear. `BEGIN` is an assignment to the current state. `yymore()` sets `moreRequested`. `yy_push_state` is `PushState`: it pushes the current state and enters the new one.
- The buffer is an immutable sequence. The helpers never write it, and refills belong to the generated code.
- Floating point is left out: `GetTokenAsDouble`, `ProcessRealNumber` and the `dresult` path of `GetTokenAsDecimalNumber`. That path cannot be reached, and the model proves it so.
- Encoding and the string pool are left out: `GetTokenByteLength`, `Intern`, `StringTable` and `Dispose`. They are I/O and external interning, and interning is identity on content.
- `GetTokenChar`, `GetTokenSpan`, `GetTokenChunkString` and the one-argument `GetTokenSubstring` are not modelled on their own: they are plain accessors. `ProcessVariable` uses the two-argument `GetTokenSubstring` with the same length.
- `VerifyEndLabel` and `ProcessPreOpenTag` are left out: they depend on `CharSpan.LastWord`, `CharSpan.LastIndexOf` and `StartsWith` over a `CharSpan`, which are not part of this model.
- `SetDocBlock`, `ResetDocBlock` and `ReportError` are left out: they rely on the external `PHPDocBlock` constructor and message formatting. The doc block is an opaque value (`DocBlock`), and the error sink is a list of diagnostics.
- `PhpStringBuilder` is external. It is a sequence of pieces (characters and bytes). Its string result maps a byte b to the character with code b; the builder's encoding handling is not part of this model.
- `Convert.AlphaNumericToDigit`, `Convert.NumericToDigit`, `char.IsWhiteSpace` and `StringUtils.Utf32ToString` are external. They have concrete definitions here (`Chars`, `CodePointText`).
- `String.GetHashCode` is randomised per process in .NET, so it is a parameter of `Hash`/`GetHashCode`.
- `LocateHeredocPrefix` compares with `String.StartsWith(string)`, which is culture-sensitive. The model uses an ordinal prefix test. After the first newline both sides are runs of spaces and tabs, on which the two agree. The first comparison, however, tests the first line's indentation against the whole heredoc body, which may hold any characters. The model assumes the ordinal result there. That can differ from the culture-sensitive one where a linguistic comparison treats the text just after the indentation specially, for instance an ignorable or combining character.
- The numbering of the generated `LexicalStates` enum is fixed by constants. `Span.Invalid` is taken as (-1, 0). `Name.EmptyBaseName` is taken as the name "", and `Name.EmptyNames` as the empty array. These types live outside the modelled files.
- `PropertyCollection` is external. It is a finite map whose keys are explicit keys or type names, two disjoint key spaces. A read of a missing key yields none, which stands for null or `default(T)`.
- `Scope.ToString`, `VariableNameRef`, `LangElement.Span`, `VisitMe` and `IHasSourceUnit` are plain data or visitor dispatch, with no logic to model.
- The legacy copy `Source/PhpParser/Core/AST/LangElement.cs` has the same `Scope` and property-bag forwarding, so the same model covers it. `Source/PhpParser/SerializerTreeVisitor.cs` (output plumbing) and `Source/UnitTests/ParserTests.cs` (the repository's parser tests) are not part of this model.
- PhpLexer.ProcessStringText: module-level, over the buffer it is given (the scanner always passes its own). The handlers are an enumeration rather than delegates, and the double-quoted handler reads the current state and `EnableUtfCodepoints` through an `EscapeContext`.
- PhpLexer.Lexer.StoreEncapsedText, PhpLexer.Lexer.ReadClosingBody and PhpLexer.Lexer.CloseHeredoc: each is a statement, or half of a method, of the source split out so that it can be specified on its own. The methods that use them behave as the source does.
- PhpLexer.Lexer.ProcessEndNowDoc: requires a heredoc label and a token at least as long as the label plus its trail. The scanner calls it only on a token that ends with the closing label. Its ghost `body` output names the decoded body for the contract.
- PhpLexer.Lexer.YyLess: requires `0 <= count <= TokenLength()`, so that the token keeps a non-negative length. `ProcessText`, `ProcessShell`, `ProcessHeredoc` and `ProcessString` inherit this. The scanner's patterns give back at most the token.
- PhpLexer.Lexer.ProcessVariable: requires a non-empty token. With an empty token C# passes the length -1 to the external string pool, whose behaviour is not part of this model.
- PhpLexer.Lexer.GetText: requires the slice to lie inside the buffer. Outside it, C# raises from inside the external pool.
- PhpLexer.Lexer.GetTokenAsEscapedCharacter: requires the backslash that the source's `Debug.Assert` demands, and both characters inside the buffer. A read past the buffer is not modelled for it.
- PhpLexer.Lexer.GetTokenAsInteger, PhpLexer.Lexer.GetIntegerTokenType and PhpLexer.Lexer.GetHexIntegerTokenType: require `0 <= startIndex <= TokenLength()`. Every caller passes an index inside the token.
- Escapes.ParseCodePoint: the C# method advances `pos` by reference; the model returns the new position. It runs over an `array<char>` standing for the buffer.
- Ast.Scope: a C# mutable struct, modelled as a class. The sentinels are static methods that return fresh scopes, because reading a `static readonly` struct copies it.
