# A concrete-syntax Clojure reader and its printer, in Dafny

`cst.LispReader` is a Clojure reader that keeps the concrete syntax of what it reads. Comments,
commas, discarded forms, reader macros and character literals each become a `SyntaxElement`, a
tag (`SyntaxElement.Type`) with a payload. `SyntaxElement.emit` prints such a tree back as text.
This project models both classes and proves properties of the model.

The project has these modules:

- `SyntaxElement` (syntax_element.dfy): the value universe `Form` (the Java objects the reader
  hands out), the tag enum with `skippable`, and the printers `Type.str`, `emit(Object)` and
  `join`. A payload of the wrong class is a `ClassCast` error, not a crash.
- `Chars`, `NumberGrammar`, `SymbolGrammar` (chars.dfy, numbers.dfy, symbols.dfy): the character
  classes, the integer/float/ratio grammar of `matchNumber` and the symbol grammar of
  `matchSymbol`/`interpretToken`, as pure functions.
- `Scanners` (scanners.dfy): the push-back cursor and the imperative scanners (token, number,
  unicode/octal digit runs, string, comment, regex body, character literal). Each scanner is a
  loop proved equal to a specification function over the input text and a cursor position.
- `ReaderSpec` (reader_spec.dfy): the driver and every reader macro as mutually recursive
  functions of the text, the cursor, the reader options and the thread bindings.
- `LispReader` (lisp_reader.dfy): the driver and the reader macros as imperative methods over the
  cursor, a `Bindings` stack for `Var.pushThreadBindings`/`popThreadBindings` and the
  pending-forms queue. Every method is proved to agree with its `ReaderSpec` function and to
  leave the bindings as it found them on every exit, the error exits included.
- `ReaderProperties`, `EmitProperties` (reader_properties.dfy, emit_properties.dfy): lemmas about
  the specification. They cover what `read` yields for wrapping, empty collection, comment and
  character literals and what those print back as, the `:eof` option, map and reader-conditional
  validation, nested `#(`, literals that read back as what they spell, join and bracket layout,
  wrapper prefixes, metadata and character printing.

Collaborators outside the two classes are parameters:

- `RT.print` is the `Printer` function.
- The namespace table is `NsEnv`.
- Data readers and record classes are the `Runtime` in `ReaderEnv`.
- `*read-eval*`, `*suppress-read*` and the `:read-cond` option are fields of `ReaderEnv`.

## Model

| member | source | states |
|---|---|---|
| SyntaxElement.Skippable | src/java/cst/SyntaxElement.java:40-147 | a tag is skippable exactly when it is COMMA, COMMENT, M_COMMENT or DISCARD |
| SyntaxElement.JoinLoop | src/java/cst/SyntaxElement.java:26-35 | the loop with the `first` flag computes `Join`: each element's emission, with no separator before the first element or the comma element and one before every other element; the first emission failure is the result |
| SyntaxElement.JoinFailurePersists | src/java/cst/SyntaxElement.java:29-33 | once a prefix of the collection fails to emit, the whole join fails with the same error |
| SyntaxElement.Join | src/java/cst/SyntaxElement.java:26-35 | no contract of its own (it defines the separator join); its promises are stated by `SyntaxElement.JoinLoop`, `SyntaxElement.JoinFailurePersists`, `EmitProperties.JoinConcat` and `EmitProperties.CommaJoin` |
| SyntaxElement.Emit | src/java/cst/SyntaxElement.java:172-184 | no contract of its own (it defines `emit`); its routing is stated by `EmitProperties.CollectionRouting` and the printers it reaches by the `TypeStr` lemmas listed there |
| SyntaxElement.TypeStr | src/java/cst/SyntaxElement.java:40-147 | no contract of its own (it defines `Type.str` for every tag); the tags are stated by `EmitProperties.BracketedEmission`, `WrapperEmission`, `MetaEmission`, `ConditionalEmission`, `FileJoin`, `CommentReadThenEmit`, `CharNameRoundTrip` and `CommaJoin` |
| SyntaxElement.ListStr | src/java/cst/SyntaxElement.java:131-139 | no contract of its own (the bracketed printers); stated by `EmitProperties.BracketedEmission`, and the refused persistent set by `EmitProperties.CollectionRouting` |
| SyntaxElement.MetaStr | src/java/cst/SyntaxElement.java:58-73 | no contract of its own (META's printer); stated by `EmitProperties.MetaEmission` and `EmitProperties.MetaNeedsContent` |
| SyntaxElement.CharStr | src/java/cst/SyntaxElement.java:83-99 | no contract of its own (CHAR's printer as written); what it prints is stated by `EmitProperties.CharNameRoundTrip`, `OctalCharRoundTrip`, `UnicodeCharRoundTrip` and `CharPrintReadsAsSymbol`, and the refused boxed character by `ReadCharacterNotPrintable` |
| EmitProperties.JoinConcat | src/java/cst/SyntaxElement.java:26-35 | joining `a + b` is joining `a` and `b` separately, glued by the separator unless `b` starts with the comma element; a failure in `a` comes before one in `b` |
| EmitProperties.CommaJoin | src/java/cst/SyntaxElement.java:29-31 | `a`, the comma element and `b` space-join to `emit(a) + ", " + emit(b)`: no space before the comma, one after it |
| EmitProperties.FileJoin | src/java/cst/SyntaxElement.java:140-142 | a FILE element emits the newline join of its children |
| EmitProperties.BracketedEmission | src/java/cst/SyntaxElement.java:131-139 | LIST, VECTOR, MAP and SET emit `(`/`[`/`{`/`#{`, the space join of the payload, then the closing bracket |
| EmitProperties.CollectionRouting | src/java/cst/SyntaxElement.java:172-176 | a persistent vector or list emits exactly as the VECTOR or LIST element over it; a persistent set fails with a class cast, since SET casts its payload to `java.util.List` |
| EmitProperties.WrapperEmission | src/java/cst/SyntaxElement.java:52-123 | each wrapper tag emits its fixed prefix (`'` `@` `` ` `` `~` `~@` `#=` `#'` `#` `#!` `#_`) followed by the emission of its payload |
| EmitProperties.MetaEmission | src/java/cst/SyntaxElement.java:58-73 | for every metadata form the reader accepts, META emits `^`, the metadata's text, a space and the target's text |
| EmitProperties.MetaNeedsContent | src/java/cst/SyntaxElement.java:72 | META with no tag, keyword or map fails with the unknown-structure error |
| EmitProperties.ConditionalEmission | src/java/cst/SyntaxElement.java:124-130 | CONDITIONAL emits `#?`, then `@` exactly when splicing, then the parenthesised space join of the list |
| EmitProperties.CharNameRoundTrip | src/java/cst/SyntaxElement.java:86-95 | the six named control characters print as a backslash and a name that the character reader maps back to the same character |
| EmitProperties.OctalCharRoundTrip | src/java/cst/SyntaxElement.java:97 | a three-digit octal payload prints as `o` + digits, without a backslash; that text, read as the token after `\`, decodes to the character with that value (printed alone, it reads back as a symbol: `EmitProperties.CharPrintReadsAsSymbol`) |
| EmitProperties.UnicodeCharRoundTrip | src/java/cst/SyntaxElement.java:97 | a four-hex-digit payload outside the surrogate range prints as `u` + digits, without a backslash; that text, read as the token after `\`, decodes to the character with that value |
| EmitProperties.CharPrintReadsAsSymbol | src/java/cst/SyntaxElement.java:83-99 | a three- or four-digit payload prints as `o` or `u` + digits with no backslash, and `read` takes that text back as the symbol of the same name, not as a character |
| EmitProperties.CharLiteralRoundTrip | src/java/cst/SyntaxElement.java:83-99 | with the printer corrected to put a backslash in front of every payload, a one-character payload, three octal digits up to 0377 or four hex digits outside the surrogates print as a literal that `read` takes back as the CHAR element of the character the payload stands for, ending where the literal ends |
| SyntaxElement.CharStrIntended | src/java/cst/SyntaxElement.java:83-99 | the corrected CHAR printer: it fails exactly when the payload is not a string, and every text it prints starts with a backslash |
| EmitProperties.ReadCharacterNotPrintable | src/java/cst/LispReader.java:794 | a CHAR element as the character reader builds it (a boxed Character) fails to emit with a class cast |
| EmitProperties.VarAsWrittenMisprints | src/java/cst/LispReader.java:612-618 | the VAR element as written prints `#'(var x)`, which differs from `#'x` |
| EmitProperties.VarEmission | src/java/cst/LispReader.java:612-618 | with the corrected payload (`VarFIntended`), `#'` followed by a form emits as `#'` plus the form's emission |
| EmitProperties.VarReadMisprints | src/java/cst/LispReader.java:612-618 | a var quote as the reader builds it (`VarF`) emits as `#'(var x)` and never as `#'x` |
| EmitProperties.WrapperReadThenEmit | src/java/cst/SyntaxElement.java:52-123 | reading `'x`, `@x`, `#_x` (or `#=x` when *read-eval* is true) and emitting the result gives the same prefix followed by the emission of the form `x` reads as |
| EmitProperties.EmptyCollectionsRoundTrip | src/java/cst/LispReader.java:832-870 | `()` and `[]` read, and emit back as exactly the text read |
| EmitProperties.CommentReadThenEmit | src/java/cst/SyntaxElement.java:48-50 | `;` and a text without line ends, closed by a line end or the end of the input, reads as a COMMENT element that prints back as `;` and exactly that text; the cursor ends past the line end |
| EmitProperties.VarLiteralMisprints | src/java/cst/LispReader.java:612-618 | reading `#'x` and emitting the result gives `#'(var x)`, never the text `#'` followed by the emission of `x` |
| Chars.Digit | src/java/cst/LispReader.java:330-332 | `Character.digit`: -1 or a value below the radix; an ASCII decimal digit below the radix gives its own value |
| Chars.IsWhitespace | src/java/cst/LispReader.java:132-134 | a predicate with no contract of its own: the characters `Character.isWhitespace` accepts; `ReaderSpec.SkipWhitespace` states how the driver uses it |
| Chars.IsMacro | src/java/cst/LispReader.java:460-462 | a predicate with no contract of its own: the characters with an entry in the macro table |
| Chars.IsTerminatingMacro | src/java/cst/LispReader.java:464-466 | a predicate with no contract of its own: the macro characters other than `#`, `'` and `%`; `Scanners.EndsToken` states that those three never end a token |
| Scanners.PushbackReader.Read1 | src/java/cst/LispReader.java:157-163 | yields the character under the cursor and advances, or yields EOF at the end without moving |
| Scanners.PushbackReader.Unread | src/java/cst/LispReader.java:136-144 | steps back over the character just read; unreading EOF does nothing |
| Scanners.EndsToken | src/java/cst/LispReader.java:464-466 | `#`, `'` and `%` never end a token |
| Scanners.TokenEnd | src/java/cst/LispReader.java:292-304 | the token runs over characters that do not end a token and stops at the end, at whitespace or at a terminating macro character |
| Scanners.ReadToken | src/java/cst/LispReader.java:292-304 | returns the initial character plus every character up to `TokenEnd`, and leaves the cursor on the character that ended the token |
| Scanners.NumberEnd | src/java/cst/LispReader.java:306-317 | a number's text stops at the end, at whitespace or at any macro character |
| Scanners.NumberAt | src/java/cst/LispReader.java:306-323 | a number read ends at `NumberEnd` and fails exactly when the number grammar rejects the text |
| Scanners.ReadNumber | src/java/cst/LispReader.java:306-323 | the loop agrees with `NumberAt` on value, error and cursor |
| Scanners.DigitRun | src/java/cst/LispReader.java:344-353 | at most `k` further digits, all valid in the base; a run shorter than `k` stopped at the end, at whitespace or at a macro character |
| Scanners.StreamCodePoint | src/java/cst/LispReader.java:338-358 | the value is the digit value of the initial character and the digits consumed; with `exact` exactly `length` digits were read |
| Scanners.StreamCodePointBound | src/java/cst/LispReader.java:338-358 | the value of a successful read is below base^length |
| Scanners.ReadUnicodeChar | src/java/cst/LispReader.java:338-358 | the accumulator loop agrees with `StreamCodePoint` on value, error and cursor |
| Scanners.ReadDigit | src/java/cst/LispReader.java:345-353 | one loop step: stops without moving at a run's end, consumes one valid digit, or fails on an invalid digit, each as `DigitRun` says |
| Scanners.TokenCodePoint | src/java/cst/LispReader.java:325-336 | succeeds only on a token of exactly `offset + length` characters of valid digits; the result is their value truncated to 16 bits; a token of the right length fails only on an invalid digit |
| Scanners.UnicodeCharOfToken | src/java/cst/LispReader.java:325-336 | the loop computes `TokenCodePoint` |
| Scanners.TokenCodePointOk | src/java/cst/LispReader.java:325-336 | digits whose value fits in 16 bits give that value unchanged |
| Scanners.UnicodeEscapeAt | src/java/cst/LispReader.java:523-530 | a `\u` escape consumes exactly four hex digits and yields their value |
| Scanners.OctalEscapeAt | src/java/cst/LispReader.java:531-536 | an octal escape consumes one to three octal digits and yields their value, at most 0377 |
| Scanners.StringFromEndsAtQuote | src/java/cst/LispReader.java:498 | a successful string read ends just after a `"` |
| Scanners.EscapeAt | src/java/cst/LispReader.java:500-541 | a successful escape consumes input |
| Scanners.StringFrom | src/java/cst/LispReader.java:498-545 | a successful string read consumes input |
| Scanners.StringAt | src/java/cst/LispReader.java:493-547 | a successful string literal read consumes input |
| Scanners.ReadUnicodeEscape | src/java/cst/LispReader.java:523-530 | agrees with `UnicodeEscapeAt` |
| Scanners.ReadOctalEscape | src/java/cst/LispReader.java:531-536 | agrees with `OctalEscapeAt` |
| Scanners.ReadEscape | src/java/cst/LispReader.java:500-541 | the escape switch agrees with `EscapeAt` |
| Scanners.ReadString | src/java/cst/LispReader.java:493-547 | the string loop agrees with `StringAt` on the string, the error and the cursor |
| Scanners.StringRoundTripFrom | src/java/cst/LispReader.java:498-545 | from any point, the escaped text of `x` followed by `"` reads as `x`, appended to what was already read |
| Scanners.StringRoundTrip | src/java/cst/LispReader.java:493-547 | the escaped form of any string, a closing quote and any rest reads back as that string, with the cursor just past the quote |
| Scanners.CommentEnd | src/java/cst/LispReader.java:553 | a comment runs to the first `\n` or `\r`, or to the end |
| Scanners.CommentAt | src/java/cst/LispReader.java:549-558 | the comment text is everything before the line terminator, and the terminator itself is consumed |
| Scanners.ReadComment | src/java/cst/LispReader.java:549-558 | the loop agrees with `CommentAt` |
| Scanners.RegexFrom | src/java/cst/LispReader.java:472-482 | a successful regex scan ends just after a `"` |
| Scanners.RegexVerbatim | src/java/cst/LispReader.java:472-482 | the regex body is the input text verbatim, backslashes and escaped characters kept |
| Scanners.RegexStep | src/java/cst/LispReader.java:476-481 | one step copies one character, or a backslash and the character after it |
| Scanners.ReadRegex | src/java/cst/LispReader.java:468-485 | the loop agrees with `RegexAt` |
| Scanners.RegexRoundTrip | src/java/cst/LispReader.java:468-485 | a body that does not end in an odd run of backslashes and has no unescaped quote, followed by `"`, reads back as itself |
| Scanners.RegexRoundTripFrom | src/java/cst/LispReader.java:472-482 | from any point, a body with no unescaped quote and no dangling backslash, followed by `"`, is appended verbatim to what was read |
| Scanners.RegexAt | src/java/cst/LispReader.java:468-485 | a successful regex read consumes input |
| Scanners.CharOfToken | src/java/cst/LispReader.java:801-829 | a one-character token is that character; a longer token that is not one of the six names and starts with neither `u` nor `o` is the unsupported-character error; every failure is one of the character reader's errors |
| Scanners.CharacterAt | src/java/cst/LispReader.java:796-800 | EOF right after `\` fails; a successful read ends where the token ends |
| Scanners.ReadCharacter | src/java/cst/LispReader.java:793-830 | agrees with `CharacterAt` |
| Scanners.UnicodeCharacter | src/java/cst/LispReader.java:815-820 | `\u` + four hex digits succeeds exactly outside D800-DFFF, with that value; otherwise it is an invalid character constant |
| Scanners.OctalTooLong | src/java/cst/LispReader.java:822-823 | `\o` with more than three digits fails with the digit count |
| Scanners.OctalDigits | src/java/cst/LispReader.java:824 | one to three octal digits give their value, below 512 |
| Scanners.OctalValueBound | src/java/cst/LispReader.java:824 | three octal digits or fewer are valid in base 8 and have a value below 512 |
| Scanners.OctalCharacter | src/java/cst/LispReader.java:821-826 | `\o` + one to three octal digits succeeds exactly when the value is at most 0377, with that value; otherwise it is out of range |
| NumberGrammar.LongRange | src/java/cst/LispReader.java:435-437 | `bitLength < 64` holds exactly for values in the range of a Java long |
| NumberGrammar.DecimalPattern | src/java/cst/LispReader.java:40-42 | an optional sign, a decimal numeral without leading zeros and an optional `N` take the decimal branch (the zero branch for `0`), negated exactly when the sign is `-` |
| NumberGrammar.DecimalValue | src/java/cst/LispReader.java:419-437 | a decimal-branch match for n without `N` reads as n: a long inside the long range, a BigInt outside it |
| NumberGrammar.DecimalBigValue | src/java/cst/LispReader.java:415-434 | a decimal-branch match for n with `N` reads as a BigInt of n |
| NumberGrammar.DigitsBodyValue | src/java/cst/LispReader.java:432-437 | digits valid in a radix from 2 to 36 read as their value in that radix, a long when it fits and a BigInt otherwise |
| NumberGrammar.DecimalRoundTrip | src/java/cst/LispReader.java:412-437 | the decimal text of any integer reads back as that integer, boxed as a long in the long range and a BigInt outside it |
| NumberGrammar.DecimalBigRoundTrip | src/java/cst/LispReader.java:415-434 | the decimal text of any integer followed by `N` reads back as a BigInt of that integer |
| NumberGrammar.LeadingZeroNotRetried | src/java/cst/LispReader.java:40-42 | `0` followed by decimal digits including 8 or 9 would match the float pattern, yet is an invalid number |
| NumberGrammar.RadixForm | src/java/cst/LispReader.java:427-432 | `NrDDD` or `NRDDD` with N from 1 to 99 reads the digits in radix N; a radix outside 2..36 or a digit outside the radix is a number-format error |
| NumberGrammar.RadixPattern | src/java/cst/LispReader.java:40-42 | `<radix>r<digits>` (or `R`), with a radix from 1 to 99 and alphanumeric digits, takes the radix branch, which never carries `N` |
| NumberGrammar.MinusNegates | src/java/cst/LispReader.java:420-433 | a leading `-` negates an integer literal (the long minimum is the one value whose text without a sign is a BigInt) and fails exactly when the unsigned text fails |
| NumberGrammar.IntPatternMinus | src/java/cst/LispReader.java:40-42 | a `-` before an unsigned integer text selects the same branch and groups, with the negate flag set |
| NumberGrammar.IntValueNegate | src/java/cst/LispReader.java:419-437 | a negated match fails exactly when the unsigned one fails; otherwise its value is the negation, except that the BigInt 2^63 becomes the long -2^63 |
| NumberGrammar.HexForm | src/java/cst/LispReader.java:424-425 | `0x` or `0X` + hex digits reads as their value in base 16 |
| NumberGrammar.OctalForm | src/java/cst/LispReader.java:426-427 | `0` + octal digits reads as their value in base 8 |
| NumberGrammar.IntPattern | src/java/cst/LispReader.java:40-42 | no contract of its own (the integer pattern); its branches are stated by `DecimalPattern`, `RadixPattern`, `IntPatternMinus`, `HexForm`, `OctalForm` and `LeadingZeroNotRetried` |
| NumberGrammar.IntValue | src/java/cst/LispReader.java:415-437 | no contract of its own (the integer branch's value); its boxing and its errors are stated by `NumberGrammar.IntValueBoxing`, `DecimalValue` and `DigitsBodyValue` |
| NumberGrammar.FloatPattern | src/java/cst/LispReader.java:44 | no contract of its own (the float pattern); `LeadingZeroNotRetried` states that it matches a leading-zero decimal text after the integer pattern gave up |
| NumberGrammar.RatioPattern | src/java/cst/LispReader.java:43 | no contract of its own (the ratio pattern); stated by `NumberGrammar.RatioPatternSplit` |
| NumberGrammar.MatchNumber | src/java/cst/LispReader.java:412-452 | no contract of its own (matchNumber); its errors and ratios are stated by `NumberGrammar.MatchNumberResults`, its values by `DecimalValue`, `RadixForm`, `HexForm`, `OctalForm`, `MinusNegates` and `LeadingZeroNotRetried` |
| NumberGrammar.IntValueBoxing | src/java/cst/LispReader.java:415-437 | an integer is a long or a BigInt; a long only without `N` and inside the long range, a BigInt without `N` only outside it; the only errors are the invalid-number and number-format errors |
| NumberGrammar.RatioPatternSplit | src/java/cst/LispReader.java:43 | a ratio match splits the text at a slash into two non-empty runs of digits, the first after the optional sign |
| NumberGrammar.MatchNumberResults | src/java/cst/LispReader.java:412-452 | matchNumber fails only with the invalid-number, number-format or divide-by-zero error, and a ratio it yields has a positive denominator |
| SymbolGrammar.Intern | src/java/cst/LispReader.java:403-404 | `Symbol.intern` of a text whose printed form is that text again |
| SymbolGrammar.SymbolRoundTrip | src/java/cst/LispReader.java:360-409 | the printed text of any plain symbol other than nil, true and false reads back as that symbol |
| SymbolGrammar.KeywordRoundTrip | src/java/cst/LispReader.java:377-409 | `:` followed by the text of a plain symbol reads as the keyword of that symbol |
| SymbolGrammar.AutoResolvedKeyword | src/java/cst/LispReader.java:388-402 | `::` followed by a symbol's text is a keyword in the alias's namespace or the current one, or an invalid token when the alias is unknown |
| SymbolGrammar.Refusals | src/java/cst/LispReader.java:383-387 | a token ending in `:` or holding `::` after the first character is never a symbol or keyword |
| SymbolGrammar.ReadsBackAsText | src/java/cst/LispReader.java:377-409 | whatever the grammar accepts is a symbol whose text is the token, a keyword whose text with `:` is the token, or an auto-resolved keyword with the token's name |
| SymbolGrammar.GroupsSuffix | src/java/cst/LispReader.java:39 | the name group of a matched token is a non-empty suffix of it |
| SymbolGrammar.GroupsWithSlash | src/java/cst/LispReader.java:39 | `a/b` with segments a and b splits into namespace group `a/` and name group `b` |
| SymbolGrammar.GroupsWithoutSlash | src/java/cst/LispReader.java:39 | a segment without a slash is all name group, with no namespace group |
| SymbolGrammar.SymbolGroups | src/java/cst/LispReader.java:39 | no contract of its own (the symbol pattern's groups); stated by `GroupsSuffix`, `GroupsWithSlash` and `GroupsWithoutSlash` |
| SymbolGrammar.MatchSymbol | src/java/cst/LispReader.java:377-409 | no contract of its own (matchSymbol); stated by `SymbolGrammar.TokenResults`, `ReadsBackAsText`, `Refusals`, `SymbolRoundTrip`, `KeywordRoundTrip` and `AutoResolvedKeyword` |
| SymbolGrammar.InterpretToken | src/java/cst/LispReader.java:360-374 | no contract of its own (interpretToken); stated by `SymbolGrammar.TokenResults` and, for plain symbols, `SymbolRoundTrip` |
| SymbolGrammar.TokenResults | src/java/cst/LispReader.java:360-409 | matchSymbol answers only for text the symbol pattern matches, and then with a symbol or a keyword; interpretToken's only error is the invalid-token error for the token itself, and its values are nil, a boolean, a symbol or a keyword |
| ReaderSpec.SkipWhitespace | src/java/cst/LispReader.java:246 | the first position at or after the cursor that is not whitespace |
| ReaderSpec.ReadF | src/java/cst/LispReader.java:229-290 | a successful read never moves back and consumes something unless at EOF; with `eofIsError` it never yields EOF; without `returnOn` it never yields the delimiter |
| ReaderSpec.ReadAt | src/java/cst/LispReader.java:248-281 | EOF is yielded only at the end of the input and only when EOF is not an error |
| ReaderSpec.AtomAt | src/java/cst/LispReader.java:270-281 | a successful atom read (a signed number or a token) consumes input |
| ReaderSpec.ReadForm | src/java/cst/LispReader.java:203-205 | a nested read (EOF an error, no delimiter) consumes input |
| ReaderSpec.DelimitedF | src/java/cst/LispReader.java:911-934 | a delimited list read consumes input and stops after its delimiter |
| ReaderSpec.MacroF | src/java/cst/LispReader.java:85-102 | a successful read through the macro table never moves the cursor back |
| ReaderSpec.WrapF | src/java/cst/LispReader.java:580-590 | a wrapped form is an element of the requested tag |
| ReaderSpec.ListF | src/java/cst/LispReader.java:832-851 | `(` reads a persistent list |
| ReaderSpec.VectorF | src/java/cst/LispReader.java:865-870 | `[` reads a persistent vector |
| ReaderSpec.MapF | src/java/cst/LispReader.java:872-885 | a successful map literal read consumes input |
| ReaderSpec.SetF | src/java/cst/LispReader.java:887-892 | a successful set literal read consumes input |
| ReaderSpec.MapNode | src/java/cst/LispReader.java:876-883 | a MAP element over the array list read, or the odd-forms error |
| ReaderSpec.CountSkippable | src/java/cst/LispReader.java:876-879 | the skipped count never exceeds the number of forms |
| ReaderSpec.MetaKind | src/java/cst/LispReader.java:693-702 | metadata is accepted exactly when it is a symbol, string, keyword or persistent map; otherwise it is the bad-metadata error |
| ReaderSpec.MetaF | src/java/cst/LispReader.java:683-714 | a successful metadata read consumes input |
| ReaderSpec.SyntaxQuoteForm | src/java/cst/LispReader.java:729-749 | exactly a list headed by `clojure.core/unquote-splicing` fails (an UNQUOTE_SPLICING element the reader builds for `~@x` is not such a list, so it is wrapped); keywords, numbers, characters and strings pass through unchanged; anything else is wrapped in a SYNTAX_QUOTE element |
| ReaderSpec.SyntaxQuoteF | src/java/cst/LispReader.java:716-727 | a successful syntax-quote read consumes input |
| ReaderSpec.UnquoteF | src/java/cst/LispReader.java:776-791 | a successful unquote read consumes input |
| ReaderSpec.DispatchF | src/java/cst/LispReader.java:620-640 | a successful read through the dispatch table consumes input |
| ReaderSpec.VarPayloadAsWritten | src/java/cst/LispReader.java:616 | the VAR payload the source builds is the two-element list of the symbol `var` and the form read |
| ReaderSpec.VarF | src/java/cst/LispReader.java:612-618 | a successful var-quote read consumes input |
| ReaderSpec.VarFIntended | src/java/cst/LispReader.java:612-618 | the corrected var quote: a failure of the nested read is passed on, else the VAR element around the form read itself |
| ReaderSpec.CtorF | src/java/cst/LispReader.java:936-952 | a successful tagged-literal or record read consumes input |
| ReaderSpec.EvalF | src/java/cst/LispReader.java:853-863 | with *read-eval* false, `#=` fails before reading anything |
| ReaderSpec.FnF | src/java/cst/LispReader.java:646-661 | with ARG_ENV bound, `#(` fails with the nested-literal error |
| ReaderSpec.ReadTagged | src/java/cst/LispReader.java:954-971 | the no-reader-function error occurs exactly when no data reader, default data reader or default reader function handles the tag; otherwise the reader's result is the value, and an exception it throws is the error |
| ReaderSpec.ReadRecord | src/java/cst/LispReader.java:973-1022 | in the source's order: with *read-eval* false, record syntax fails; an unknown class is class-not-found; a form that is neither a map nor a vector is the unreadable-constructor error; a map with a key that is not a keyword is refused; a keyword-keyed map or a vector is the record the class builds from it |
| ReaderSpec.Built | src/java/cst/LispReader.java:1007-1017 | a collaborator's result is a value exactly when it did not throw |
| ReaderSpec.ConditionalF | src/java/cst/LispReader.java:1046-1064 | without `:read-cond` allow or preserve, `#?` fails before reading anything |
| ReaderSpec.CondListF | src/java/cst/LispReader.java:1073-1099 | a successful reader conditional is a CONDITIONAL element |
| ReaderSpec.ReadFirst | src/java/cst/LispReader.java:181-192 | `read(r, opts)` never moves the cursor back |
| ReaderProperties.WrapperLiteralReads | src/java/cst/LispReader.java:580-590 | `read` on `'` or `@` followed by text whose form reads gives the QUOTE or DEREF element around exactly that form, ending where that form ends |
| ReaderProperties.DispatchWrapperReads | src/java/cst/LispReader.java:853-863 | `read` on `#_`, and on `#=` when *read-eval* is true, followed by text whose form reads gives the DISCARD or EVAL element around exactly that form, ending where it ends |
| ReaderProperties.EvalLiteralRefused | src/java/cst/LispReader.java:853-863 | `read` on `#=` when *read-eval* is false is the refusal, whatever follows |
| ReaderProperties.VarLiteralReads | src/java/cst/LispReader.java:612-618 | `read` on `#'` followed by text whose form reads gives the VAR element around the list of the symbol `var` and that form, ending where the form ends |
| ReaderProperties.EmptyCollectionsRead | src/java/cst/LispReader.java:832-851 | `read` on `()` gives the empty list and on `[]` the empty vector, with the cursor after the closing delimiter |
| ReaderProperties.CharLiteralReads | src/java/cst/LispReader.java:793-830 | `read` on `\` followed by a token the character reader decodes to c gives the CHAR element around c, ending where the token ends |
| ReaderProperties.CommentLiteralReads | src/java/cst/LispReader.java:549-564 | `read` on `;` followed by a text without line ends gives the COMMENT element around exactly that text, with the line end consumed |
| ReaderProperties.ReadFirstAtEnd | src/java/cst/LispReader.java:181-192 | at the end of the input, `read(r, opts)` yields the `:eof` value when the options give one and the EOF error otherwise |
| ReaderProperties.ReadFirstBeforeEnd | src/java/cst/LispReader.java:181-192 | before the end of the input, `read(r, opts)` yields what a nested read yields, whatever the `:eof` option |
| ReaderProperties.MapParity | src/java/cst/LispReader.java:872-885 | a map literal is accepted exactly when its number of non-skippable elements is even, and then it is the MAP element over everything read, skippables included |
| ReaderProperties.MapIgnoresSkippable | src/java/cst/LispReader.java:876-881 | adding a comma, comment or discard never changes whether a map literal is accepted |
| ReaderProperties.SkippedComplement | src/java/cst/LispReader.java:876-880 | the skipped count and the non-skippable elements together make up the whole list |
| ReaderProperties.CheckPairsFromOk | src/java/cst/LispReader.java:1078-1086 | the check from index `i` passes exactly when every element from `i` on meets its even/odd condition |
| ReaderProperties.ConditionalValidation | src/java/cst/LispReader.java:1077-1086 | a reader conditional's list is accepted exactly when its total length is even, every even-index element is a keyword other than `:else` and `:none`, and, when splicing, every odd-index element is a list |
| ReaderProperties.CommaCountsInConditional | src/java/cst/LispReader.java:1077 | a comma after an accepted conditional list makes it odd, while it leaves a map's acceptance unchanged |
| ReaderProperties.NestedFnRefused | src/java/cst/LispReader.java:649-651 | with ARG_ENV bound, a read whose next form starts with `#(` fails with the nested-literal error |
| ReaderProperties.FnLiteral | src/java/cst/LispReader.java:652-656 | without ARG_ENV, `#(` is the FN element over the list read with ARG_ENV bound, ending where that list ends |
| ReaderProperties.StringLiteralReads | src/java/cst/LispReader.java:493-547 | the escaped form of any string in quotes, followed by anything, reads as that string |
| ReaderProperties.SymbolLiteralReads | src/java/cst/LispReader.java:270-282 | a plain symbol's text followed by the end or a token-ending character reads back as that symbol |
| ReaderProperties.TokenAtom | src/java/cst/LispReader.java:270-281 | a text that is one token by itself reads as the interpreted token, with the cursor at its end |
| ReaderProperties.TokenEndAt | src/java/cst/LispReader.java:297-301 | a run of non-ending characters closed by the end or by an ending character is exactly one token |
| LispReader.Bindings.Push | src/java/cst/LispReader.java:653 | pushes a frame; the bindings in force are the new ones |
| LispReader.Bindings.Pop | src/java/cst/LispReader.java:658 | drops the newest frame |
| LispReader.PendingForms.RemoveFirst | src/java/cst/LispReader.java:240-242 | removes and returns the first pending form |
| LispReader.SkipSpace | src/java/cst/LispReader.java:246 | leaves the cursor just past the first non-whitespace character, or at the end |
| LispReader.Read | src/java/cst/LispReader.java:229-290 | *read-eval* `:unknown` fails; a non-empty pending queue yields its first form and reads nothing; otherwise the driver agrees with `ReadF` and keeps the bindings |
| LispReader.ReadOn | src/java/cst/LispReader.java:248-281 | after whitespace, the driver's EOF, delimiter, number, macro and token branches agree with `ReadAt` |
| LispReader.ReadAtom | src/java/cst/LispReader.java:270-281 | the sign-then-digit test and the token read agree with `AtomAt` |
| LispReader.ReadNested | src/java/cst/LispReader.java:203-205 | a nested read agrees with `ReadForm` |
| LispReader.ReadDelimitedList | src/java/cst/LispReader.java:911-934 | the accumulating loop agrees with `DelimitedF` |
| LispReader.MacroReader | src/java/cst/LispReader.java:85-102 | invoking the macro character's handler agrees with `MacroF` |
| LispReader.WrappingReader | src/java/cst/LispReader.java:580-590 | agrees with `WrapF` |
| LispReader.ListReader | src/java/cst/LispReader.java:832-851 | agrees with `ListF` |
| LispReader.VectorReader | src/java/cst/LispReader.java:865-870 | agrees with `VectorF` |
| LispReader.CountSkipped | src/java/cst/LispReader.java:876-879 | the counting loop computes `CountSkippable` |
| LispReader.MapReader | src/java/cst/LispReader.java:872-885 | agrees with `MapF` |
| LispReader.SetReader | src/java/cst/LispReader.java:887-892 | agrees with `SetF` |
| LispReader.MetaReader | src/java/cst/LispReader.java:683-714 | agrees with `MetaF` |
| LispReader.SyntaxQuoteReader | src/java/cst/LispReader.java:716-727 | agrees with `SyntaxQuoteF`, with GENSYM_ENV pushed and popped on every exit |
| LispReader.UnquoteReader | src/java/cst/LispReader.java:776-791 | agrees with `UnquoteF` |
| LispReader.DispatchReader | src/java/cst/LispReader.java:620-640 | agrees with `DispatchF` |
| LispReader.VarReader | src/java/cst/LispReader.java:612-618 | agrees with `VarF`: the VAR element around the list `(var form)`, as the source builds it |
| LispReader.EvalReader | src/java/cst/LispReader.java:853-863 | agrees with `EvalF` |
| LispReader.FnReader | src/java/cst/LispReader.java:646-661 | agrees with `FnF`: refused before any push when ARG_ENV is bound, else pushed and popped on every exit |
| LispReader.CtorReader | src/java/cst/LispReader.java:936-952 | agrees with `CtorF` |
| LispReader.CheckPairs | src/java/cst/LispReader.java:1077-1086 | the validation loop computes `CheckConditional` |
| LispReader.ConditionalReader | src/java/cst/LispReader.java:1046-1064 | agrees with `ConditionalF` |
| LispReader.ConditionalPrefix | src/java/cst/LispReader.java:1053-1060 | splicing exactly when the first character is `@`; the cursor is left past the body's first character, found past the whitespace |
| LispReader.ConditionalList | src/java/cst/LispReader.java:1073-1099 | agrees with `CondListF`, with READ_COND_ENV pushed and popped on every exit |
| LispReader.ReadOne | src/java/cst/LispReader.java:181-192 | agrees with `ReadFirst` |

## Left out

- Float and decimal values: `Double.parseDouble` and `new BigDecimal` are not modelled. A
  matched float keeps its text (`Double`/`BigDecimal` hold the text), and a ratio keeps its
  numerator and denominator unreduced. Only which grammar matched is modelled.
- Regex compilation (`Pattern.compile`): the reader returns the verbatim body, and an invalid
  pattern is not reported.
- Line and column tracking, `LineNumberingPushbackReader`, the line/column metadata on lists and
  conditionals, and the wrapping of errors in `ReaderException`: each error is its
  `ReadError` constructor only.
- `RT.print`, the printer for atoms, is the uninterpreted `Printer` parameter. An M_COMMENT's text
  therefore prints through it, as the source does.
- A `\u` string escape in the range D800-DFFF is the error `SurrogateInString`: a Dafny `char`
  cannot hold a lone surrogate, where Java appends it.
- `Character.isDigit` and `Character.digit` are modelled on ASCII letters and digits only.
  `Character.isWhitespace` is modelled as the Java set below U+0080 plus the listed Unicode
  spaces; other non-ASCII digits are not treated as digits.
- Collaborators are parameters, not code: data readers (`*data-readers*`, the default data
  readers, `*default-data-reader-fn*`), record classes and record construction by reflection
  (`ReaderEnv.runtime`).
- Namespace resolution (`namespaceFor`, aliases, `currentNS`) is the `NsEnv` parameter, used
  only by the `::` keyword branch.
- `installPlatformFeature` and the `:features` option: reader conditionals are kept, never
  evaluated, so features are never consulted.
- The syntax-quote branch that wraps a form's remaining metadata in `with-meta` (lines 743-747):
  no form the model reads carries metadata at that point, so the branch is not modelled.
- Dead code: `DeprecatedWrappingReader`, `sqExpandList`, `isUnquote`, `registerArg`/`garg` and the
  commented-out `main`.
- The driver's `continue` for a macro that returns the reader itself: no macro handler in this
  reader does, so the branch cannot be taken.
- ARG_ENV, READ_COND_ENV and GENSYM_ENV are modelled by whether they are bound (`Ctx`). Their
  values (the arg map, the gensym map) are never read by the code modelled.
- SyntaxElement.Emit: a persistent set fails with `ClassCast`, because `Type.SET.str` casts its
  payload to `java.util.List`. This follows the code rather than the description of
  `emit(Object)` as routing sets to the SET printer.
- EmitProperties.ReadCharacterNotPrintable: a CHAR element the reader builds holds a boxed
  Character, which `Type.CHAR.str` casts to `String`. No read-then-emit round trip is claimed for
  character literals; the CHAR printer is proved only over string payloads.
- EmitProperties.MetaEmission: stated under a printer that prints a keyword as `:` followed by
  its symbol text (`KeywordPrinter`), since `"^" + keyword` uses `Keyword.toString`.
- ReaderSpec.ReadF: its own contract states only where the cursor ends and which results cannot occur; what it computes is stated by `LispReader.Read`, which agrees with it, and by the lemmas in `ReaderProperties`.
- ReaderSpec.ReadForm: its own contract states only that a successful read consumes input and ends inside the text; what it computes is stated by `LispReader.ReadNested`.
- ReaderSpec.DelimitedF: its own contract states only that a successful read consumes input and ends inside the text; what it computes is stated by `LispReader.ReadDelimitedList`.
- ReaderSpec.MacroF: its own contract states only that a successful read consumes input and ends inside the text; what it computes is stated by `LispReader.MacroReader`.
- ReaderSpec.DispatchF: its own contract states only that a successful read consumes input and ends inside the text; what it computes is stated by `LispReader.DispatchReader`.
- ReaderSpec.AtomAt: its own contract states only that a successful read consumes input and ends inside the text; what it computes is stated by `LispReader.ReadAtom`.
- ReaderSpec.MapF: its own contract states only that a successful read consumes input and ends inside the text; what it computes is stated by `LispReader.MapReader`.
- ReaderSpec.SetF: its own contract states only that a successful read consumes input and ends inside the text; what it computes is stated by `LispReader.SetReader`.
- ReaderSpec.MetaF: its own contract states only that a successful read consumes input and ends inside the text; what it computes is stated by `LispReader.MetaReader`.
- ReaderSpec.SyntaxQuoteF: its own contract states only that a successful read consumes input and ends inside the text; what it computes is stated by `LispReader.SyntaxQuoteReader`.
- ReaderSpec.UnquoteF: its own contract states only that a successful read consumes input and ends inside the text; what it computes is stated by `LispReader.UnquoteReader`.
- Scanners.CharOfToken: the input is a sequence of Unicode scalar values (Dafny `char`), not the UTF-16 code units the source's `PushbackReader` delivers. A supplementary character after `\` is therefore a one-character token here and reads as that character, where the source's token is two units long and is the unsupported-character error (LispReader.java:828); likewise a token such as `u12` followed by a supplementary character is the wrong-length error (`InvalidUnicodeCharacter`) here, where the source, counting two units for it, reports an invalid digit. `Scanners.CharacterAt` and `Scanners.ReadCharacter` inherit this.
- ReaderSpec.VarF: its own contract states only that a successful read consumes input and ends inside the text; `LispReader.VarReader` is proved to agree with it, and what it computes is stated over text by `ReaderProperties.VarLiteralReads` and `EmitProperties.VarLiteralMisprints`. It builds the payload as the source does, `(var form)`; the corrected reader is `ReaderSpec.VarFIntended`, which nothing else in the reader calls.
- ReaderSpec.ReadAt: its own contract states only where the cursor ends and which results cannot occur; its routing is not stated as a property of its own; `LispReader.ReadOn` is proved to agree with it.
- ReaderSpec.WrapF: its own contract states only the element's type and the cursor; `LispReader.WrappingReader` is proved to agree with it, and the payload is stated over text by `ReaderProperties.WrapperLiteralReads` and `ReaderProperties.DispatchWrapperReads`.
- ReaderSpec.ListF: its own contract states only that the result is a list and the cursor; its items are not stated as a property of their own; `LispReader.ListReader` is proved to agree with it, and over text only the empty literal is stated, by `ReaderProperties.EmptyCollectionsRead`.
- ReaderSpec.VectorF: its own contract states only that the result is a vector and the cursor; its items are not stated as a property of their own; `LispReader.VectorReader` is proved to agree with it, and over text only the empty literal is stated, by `ReaderProperties.EmptyCollectionsRead`.
- ReaderSpec.EvalF: its own contract states only the refusal and the cursor; `LispReader.EvalReader` is proved to agree with it, and the EVAL element it builds is stated over text by `ReaderProperties.DispatchWrapperReads` and `ReaderProperties.EvalLiteralRefused`.
- ReaderSpec.ReadFirst: its own contract states only the cursor; its result is stated by `ReaderProperties.ReadFirstAtEnd` and `ReaderProperties.ReadFirstBeforeEnd`.
- ReaderSpec.CtorF: its own contract states only that a successful read consumes input and ends inside the text; what it computes is stated by `LispReader.CtorReader`.
- ReaderSpec.CondListF: its own contract states only that a successful read consumes input and ends inside the text; what it computes is stated by `LispReader.ConditionalList`.
- Scanners.EscapeAt: its own contract states only that a successful read consumes input and ends inside the text; what it computes is stated by `Scanners.ReadEscape`.
- Scanners.StringFrom: its own contract states only that a successful read consumes input and ends inside the text; what it computes is stated by `Scanners.StringRoundTripFrom`.
- Scanners.StringAt: its own contract states only that a successful read consumes input and ends inside the text; what it computes is stated by `Scanners.ReadString`.
- Scanners.RegexAt: its own contract states only that a successful read consumes input and ends inside the text; what it computes is stated by `Scanners.ReadRegex`.
- ReaderSpec.ReadRecord: the constructor-arity check and the class lookup are delegated to the
  `Runtime` collaborator.
- SyntaxElement.MetaStr, SyntaxElement.CharStr, SyntaxElement.ListStr and the FILE printer: where
  the source fails with a NullPointerException (a null payload passes the cast and the next call
  on it fails; a META payload without a `:meta` entry), the model reports `ClassCast`. The model
  says that emission fails, not which Java exception is thrown.

## Findings

| source | as written | input that shows it | evidently intended | confidence | as-written member | corrected member |
|---|---|---|---|---|---|---|
| src/java/cst/LispReader.java:612-618 | VarReader stores the list `(var x)` as the VAR element's payload, and `Type.VAR.str` prefixes it with `#'` | `#'x` emits as `#'(var x)` | the payload is the form read, so `#'x` emits as `#'x` | not executed | EmitProperties.VarLiteralMisprints | EmitProperties.VarEmission |
| src/java/cst/SyntaxElement.java:83-99 | `CHAR.str` gives a backslash only to the six named characters; any other one-character payload is printed bare, and three- or four-digit payloads as `o` or `u` + digits | the payload `101` prints as `o101`, which `read` takes back as the symbol `o101` | every payload prints as a character literal (`\a`, `\o101`, `\u0041`) that reads back as its character | not executed | EmitProperties.CharPrintReadsAsSymbol | EmitProperties.CharLiteralRoundTrip |

In both rows the reader and `Emit` keep the behaviour as written. The corrected definitions, `ReaderSpec.VarFIntended` and `SyntaxElement.CharStrIntended`, stand beside them and are used only by the lemmas that state the intended property.