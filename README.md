# SQL text building of the `sql` command-line tool and its helper library

This project models the core of a small C toolkit around the MySQL client library. The core has two parts.

**The `sql` command's template expander** (`dosql` in `sql.c`). A statement template is scanned byte by byte:

- `'`, `"` and backtick open and close quote contexts; a `"` is written as `'`.
- `$NAME`, `${NAME}`, `$#NAME`, `$,NAME`, `$@NAME`, `$-` and `$$` are replaced by escaped environment values, file contents, standard input or a literal dollar.
- An unquoted value is copied only if it is simple arithmetic; otherwise a single `0` is written.
- A second statement (an unquoted `;`) is refused.

**The library's text formatters** (`sqllib.c`):

- `sql_vsprintf` appends printf-style output to a growable `sql_string_t`. It adds its own conversions:
  - `%s`/`%S` (with `#`: escaped, and quoted for `s`)
  - `%c`
  - `%B` (boolean)
  - `%T`, `%U` and `%Z` (datetimes)
  - the wrappers `sql_sprintf` and `sql_printf`
- `sql_free_s` and `sql_back_s`.
- The older `sqlprintf`, which writes into a caller's buffer with its own directive letters.
- `sql_time_z`, which parses an SQL date or datetime back to a `time_t`.
- `sql_colnum`, which finds a result column by name, ignoring case.

The model is imperative where the C code is. Each loop becomes a method proved equal to a specification function:

- `Expander.Expand` against `Expansion`
- `SqlBuffer.SqlString.AppendFormat` against `Formatter.Format`
- `LegacyPrintf.SqlPrintf` against `Legacy`
- `SqlTime.SqlTimeZ` against `TimeZ`
- `ColumnLookup.ColNum` against `Column`

`sql_string_t` is the class `SqlBuffer.SqlString`, which holds an array buffer with `len` and `ptr`. `sqlprintf` writes into a caller's `array<char>`.

What the output means to the database is stated with `SqlText.Unquote`. It decodes the body of a MySQL `'...'` literal: `''` becomes a quote, a backslash pair follows the MySQL escape table, and a lone quote or a trailing backslash does not decode. The escaping lemmas prove that each escaper's output decodes back to the intended bytes.

Characters stand for C bytes. C strings are `seq<char>` without their terminating NUL, and a NULL pointer is `None`. The model does not confine `char` to byte values; see "Left out".

The C library calls the code relies on are fields of the `FormatArgs.Host` datatype, so nothing is assumed about their results:

- `gmtime`, `localtime`, `timegm` and `mktime`
- `vsnprintf`, for the standard conversions

The environment (`getenv`), files (`fopen`/`fgetc`) and standard input (`getchar`) are parameters: two maps and a string.

Three behaviours of the code worth knowing:

- An unset `$NAME` expands to nothing, and scanning resumes after the name (`sql.c:205-214`). The reference itself is not copied into the statement.
- An unquoted value that is not simple arithmetic becomes `0` (`sql.c:299-301`), rather than being put in quotes.
- `%#s` puts a backslash before a quote (`sqllib.c:599-600`). It does not double it.

## Model

| member | source | states |
|---|---|---|
| SqlText.ValueOfDigits | sqllib.c:912 | reading back the decimal digits printed for n gives n |
| SqlText.PadDecimalExact | sqllib.c:661 | `%0<w>d` of a number below 10^w is exactly w characters |
| SqlText.ValueOfPadDecimal | sqllib.c:661 | `%0<w>d` of a natural number is all digits and reads back as the number |
| SqlText.UnquotePlain | sqllib.c:587-602 | text without quotes or backslashes decodes, inside a MySQL literal, to itself |
| SqlText.UnquoteAppend | sqllib.c:587-602 | a literal body that decodes completely can be followed by any other body; the decodings concatenate |
| SqlText.I32 | sqllib.c:908-914 | the value of an `int` argument is its 32-bit two's-complement reading: in range and congruent modulo 2^32 |
| Escaper.EscapeAllAppend | sql.c:71-106 | escaping a concatenation is the concatenation of the escapings, byte by byte |
| Escaper.Escape | sql.c:71-106 | `addquoted` drops a byte iff it is a control byte that is no separator and, outside backticks, not LF, CR, TAB or FF; it writes at most three bytes for one |
| Escaper.EscapeAll | sql.c:71-106 | escaping a value at most triples its length |
| Escaper.EscapeAllPlain | sql.c:104-105 | printable bytes other than quote, backslash and comma pass through `addquoted` unchanged |
| Escaper.EscapeDecodes | sql.c:84-105 | outside backticks and list mode, one escaped byte decodes to the byte if it is kept (printable, LF, CR, TAB, FF), else to nothing |
| Escaper.EscapedValueDecodes | sql.c:84-105 | outside backticks and list mode, an escaped value cannot close the literal and decodes to exactly the bytes the escaper keeps |
| Escaper.Kept | sql.c:104-105 | what the escaper keeps holds only printable bytes, LF, CR, TAB and FF |
| Escaper.BacktickDropsControls | sql.c:80-83 | inside backticks only bytes from the space up are written |
| Escaper.BacktickPassesBacktick | sql.c:80-83 | inside backticks a backtick in the value is written bare, so it can close the identifier |
| Escaper.Split | sql.c:73-79 | a value splits at its separators into at least one element |
| Escaper.SplitCount | sql.c:73-79 | there is one element more than there are separators |
| Escaper.SplitElementsPlain | sql.c:73-79 | no element holds a separator (a comma, or a tab with the `,` prefix) |
| Escaper.EscapeNonSeparator | sql.c:73-105 | in list mode, a byte that is not a separator is escaped as in plain mode |
| Escaper.ListEscape | sql.c:73-79 | in list mode every separator becomes quote-comma-quote and every element is escaped as a value of its own |
| Escaper.FieldChars | sql.c:247-252 | the field-name copy keeps only letters, digits and dots, and never lengthens the value |
| NumericGate.SkipDigits | sql.c:271-272 | the digit run from q: all digits, ending at the end or at a non-digit |
| NumericGate.SkipSpaces | sql.c:292-293 | the blank run from q: all blanks, ending at the end or at a non-blank |
| NumericGate.SkipClosers | sql.c:287-291 | closing parentheses from q, each lowering the depth by one |
| NumericGate.Fraction | sql.c:273-286 | a '.' is always consumed, and everything consumed is a digit, '.', e/E or a sign |
| NumericGate.Once | sql.c:263-297 | one round either consumes at least one byte or breaks off inside the value, and consumes only arithmetic bytes |
| NumericGate.Scan | sql.c:261-298 | the scan consumes only arithmetic bytes |
| NumericGate.Accepts | sql.c:259-306 | definition: a value is copied unquoted iff the scan consumes all of it and ends with its parentheses balanced (properties in the lemmas below) |
| NumericGate.AcceptedIsArithmetic | sql.c:258-306 | a value copied unquoted holds only digits, '.', e, E, + - * /, parentheses and blanks |
| NumericGate.ForeignCharRejected | sql.c:299-301 | a value with any other byte is replaced by 0 |
| NumericGate.ThreePlusFour | sql.c:261-306 | `3+4` is copied unquoted |
| NumericGate.Grouped | sql.c:261-306 | `(1+2)*3` is copied unquoted: the parentheses balance |
| NumericGate.ExponentNeedsFraction | sql.c:269-286 | `1e5` becomes 0: an exponent is only read after a fraction |
| NumericGate.OtherExamples | sql.c:261-306 | `abc` and `1;2` become 0; the empty value is copied |
| NumericGate.DigitsEnd | sql.c:271-272 | the digit loop stops where SkipDigits says |
| NumericGate.SpacesEnd | sql.c:292-297 | the blank loop stops where SkipSpaces says |
| NumericGate.ClosersEnd | sql.c:287-291 | the ')' loop stops and counts as SkipClosers says |
| NumericGate.FractionEnd | sql.c:273-286 | the fraction and exponent scan stops where Fraction says |
| NumericGate.ScanOnce | sql.c:263-297 | one pass of the scan loop is Once |
| NumericGate.CheckNumeric | sql.c:259-299 | the loop accepts exactly the values Accepts describes: the whole value is consumed and the parentheses balance |
| Expander.StripControls | sql.c:64-66 | the bytes stripped from the end are all control bytes, and the byte before the cut is not |
| Expander.Trim | sql.c:64-69 | the stripped template is a prefix; the first byte cut is a control byte or ';', and the rest are control bytes |
| Expander.TrimAsWrittenDropsHighBytes | sql.c:65 | with signed `char`, a template ending in `café` loses the bytes of `é` |
| Expander.TrimKeepsHighBytes | sql.c:64-69 | the intended strip keeps a template ending in a byte from 0x80 up |
| Expander.StripControlsAsWritten | sql.c:64-66 | the strip loop as compiled with signed `char` cuts no further than the end |
| Expander.TrimAsWritten | sql.c:64-69 | definition of the strip as compiled with signed `char`; Expander.TrimAsWrittenDropsHighBytes states its effect |
| Expander.PrefixEnd | sql.c:164-181 | the run after `$` holds only `#`, `,` and `@`, and ends at the end or at another byte |
| Expander.NameEnd | sql.c:196-198 | the name holds only letters, digits and `_` and ends at the end or another byte |
| Expander.BraceEnd | sql.c:187-188 | the braced name has no `}` and ends at the end or at the `}` |
| Expander.ParseRef | sql.c:160-200 | a reference resumes after the `$`, and exactly one byte after it when no name follows |
| Expander.Substitute | sql.c:201-313 | definition of a named reference's text: nothing for a missing variable or file; file contents and lists escaped, wrapped in quotes outside quotes; field characters in backticks; escaped in quotes; the value or `0` unquoted |
| Expander.Step | sql.c:109-319 | every pass of the scan that succeeds moves forward |
| Expander.ExpandFrom | sql.c:107-320 | the text written so far stays a prefix of the finished statement |
| Expander.Expansion | sql.c:53-322 | definition of the whole expansion: the scan of the stripped template from the unquoted state with all of standard input |
| Expander.AppendEscaped | sql.c:139-140 | feeding bytes to `addquoted` appends their escaping |
| Expander.AppendFieldChars | sql.c:245-252 | the backtick copy appends the letters, digits and dots of the value |
| Expander.ScanPrefixes | sql.c:160-181 | the prefix loop ends at PrefixEnd and sets hash, comma and file iff `#`, `,`, `@` occur in the run |
| Expander.FindBrace | sql.c:187-188 | the brace loop stops at BraceEnd |
| Expander.FindNameEnd | sql.c:197-198 | the name loop stops at NameEnd |
| Expander.ParseReference | sql.c:160-200 | the prefix and name scan is ParseRef |
| Expander.AppendSubstitution | sql.c:201-313 | a named reference appends Substitute: missing variable or file, file contents, list, backtick, quoted or numeric value |
| Expander.TrimmedLength | sql.c:64-69 | the strip loops leave exactly Trim(template) |
| Expander.Advance | sql.c:109-319 | one pass of the loop fails iff Step does, and otherwise appends and resumes as Step says |
| Expander.Expand | sql.c:53-322 | the whole expansion loop gives Expansion: the statement text, or the multiple-command refusal |
| Expander.PlainRunCopied | sql.c:315-319 | outside quotes, a run of plain bytes is copied unchanged and leaves the state alone |
| Expander.PlainTemplate | sql.c:64-322 | a template of plain bytes expands to itself, stripped |
| Expander.SemicolonRefused | sql.c:151-152 | an unquoted `;` refuses the whole template, whatever came before or after |
| Expander.QuotedSemicolonCopied | sql.c:151-152 | a `;` inside a quote is copied as an ordinary byte |
| Expander.TwoStatements | sql.c:64-69 | `select 1; select 2;` is refused; `select 1;` with its newline becomes `select 1` |
| Expander.DollarDollar | sql.c:146-150 | `$$` is one literal dollar in every state |
| Expander.LonelyDollar | sql.c:153-200 | a `$` that no name follows is copied, and the prefixes it carried stay set |
| Expander.StdinOnlyReadByDash | sql.c:134-145 | only `$-` reads standard input |
| Expander.StdinReadOnce | sql.c:134-145 | the first `$-` takes all of standard input, escaped and wrapped; a later one finds it empty |
| Expander.StdinAllOrNothing | sql.c:134-145 | what an expansion leaves of standard input is all of it or nothing |
| Expander.ExpansionStdin | sql.c:134-145 | after a whole template, standard input is untouched or consumed |
| Expander.StdinDecodes | sql.c:134-145 | standard input in a quote, or in the fresh `'...'` pair, decodes to its kept bytes |
| Expander.MissingVariableDropped | sql.c:205-226 | a reference, braced or not and with any prefixes, whose variable is unset or whose `$@` file cannot be opened expands to nothing; scanning resumes after the reference with the prefixes' escaping set |
| Expander.MissingPlainVariable | sql.c:196-214 | an unset `$NAME` expands to nothing and scanning resumes after the longest run of name characters |
| Expander.QuoteSteps | sql.c:109-133 | `"` opens and closes a context written `'...'`; `'` and backtick open and close their own; a `'` inside `"..."` or backticks is doubled; a backslash pair is copied whole in any context |
| Expander.QuotedValueDecodes | sql.c:253-256 | a value inside `'...'` or `"..."` decodes to the value's kept bytes |
| Expander.UnquotedValueIsArithmetic | sql.c:257-306 | an unquoted value is either copied because it is accepted arithmetic, or replaced by `0`; only arithmetic bytes are written |
| Expander.BacktickValueIsFieldName | sql.c:245-252 | a value inside backticks contributes only letters, digits and dots |
| Expander.FileContentDecodes | sql.c:215-234 | outside quotes, `$@NAME` becomes a `'...'` literal that decodes to the file's kept bytes |
| Expander.ListValueSplit | sql.c:237-244 | `$#`/`$,` split the value at the separators, one escaped element each, wrapped in quotes outside quotes |
| Expander.QuoteInValue | sql.c:253-306 | a value like `O'Brien` becomes `0` unquoted, and inside `'...'` only its quote is doubled |
| FormatArgs.TwoDigits | sqllib.c:661 | `%02u` of a field below 100 is two characters |
| FormatArgs.FourDigits | sqllib.c:661 | `%04u` of a year below 10000 is four characters |
| FormatArgs.DateTimeShape | sqllib.c:661-662 | the datetime of in-range fields is 19 characters |
| Directive.FlagsEnd | sqllib.c:463-487 | the flag run holds only `!`, `#` and `-`, and ends at the end or at another byte |
| Directive.DigitsEnd | sqllib.c:494-495 | a digit run holds only digits and ends at the end or a non-digit |
| Directive.Parse | sqllib.c:446-526 | the conversion letter is after the `%`, at the end at most; a bare `%x` has the default spec |
| Directive.ConversionAsWritten | sqllib.c:511-526 | definition of where the C scan reaches the conversion letter, one past the terminating NUL when the format ends before any length modifier |
| Directive.ResumeAsWritten | sqllib.c:525-539 | definition of where the C loop resumes after a directive, stepping over the NUL when the format ends inside it |
| Directive.CutDirectiveReadsPastEnd | sqllib.c:525-539 | as written, a directive the format ends inside resumes the scan past the terminating NUL |
| Directive.ScanFlags | sqllib.c:463-487 | the flag loop ends at FlagsEnd and sets free, alt and left iff `!`, `#`, `-` occur |
| Directive.ScanWidth | sqllib.c:489-495 | the width scan is WidthAt (`*` or digits) |
| Directive.ScanPrecision | sqllib.c:496-509 | the precision scan is PrecisionAt (unset, `*` or digits) |
| Directive.ScanLength | sqllib.c:511-526 | the length-modifier scan is LengthAt |
| Directive.ParseDirective | sqllib.c:446-526 | the directive scan is Parse |
| Directive.DigitRun | sqllib.c:494-495 | the width digit loop stops at DigitsEnd, with the decimal value of the digits it read |
| Formatter.ValueKinds | sqllib.c:543-761 | each conversion reads at most one value argument, and each custom one exactly one |
| Formatter.ValueKindsAsWritten | sqllib.c:741-761 | definition of the argument the C code steps over after a standard conversion: none for `%C` and `%n` |
| Formatter.OneValuePerConversion | sqllib.c:727-761 | every conversion except `%m` reads exactly one value argument |
| Formatter.WideCharAndCountSkipNothing | sqllib.c:741-761 | as written, `%C` and `%n` skip no argument, though each reads one |
| Formatter.EscCharDecodes | sqllib.c:587-602 | one byte escaped by `%#s` decodes back to that byte |
| Formatter.EscSDecodes | sqllib.c:587-606 | text escaped by `%#s` decodes back to itself inside a MySQL literal |
| Formatter.EscSLength | sqllib.c:561-572 | escaping adds one byte per special byte, as the length pass counts |
| Formatter.EscSAppend | sqllib.c:587-606 | escaping distributes over concatenation |
| Formatter.EscSPlain | sqllib.c:587-602 | text with no special byte is unchanged by escaping |
| Formatter.Shown | sqllib.c:561-568 | the shown length is at most the string's length, and at most the precision when that is not negative |
| Formatter.ReservedAsWritten | sqllib.c:561-575 | definition of the room the length pass asks for: shown bytes, their escapes and the padding |
| Formatter.StringBodyAsWritten | sqllib.c:587-606 | definition of what the copy loop writes: a positive precision limits it, 0 does not |
| Formatter.GrowAsWritten | sqllib.c:575-576 | definition of the `%s` realloc rule: grow by need + 1000 when fewer than need + 101 bytes are free |
| Formatter.RenderString | sqllib.c:551-620 | definition of the corrected `%s`/`%S`: quotes for `%#s`, padding on the side `-` chooses, escaped body for `#`, `NULL` for a NULL pointer with `#` |
| Formatter.PaddedDecodes | sqllib.c:577-616 | escaped text with its blank padding decodes to the text with the padding |
| Formatter.QuotedStringDecodes | sqllib.c:551-616 | `%#s` is a MySQL literal of the padded, truncated text; `%#S` is its body |
| Formatter.PlainStringLayout | sqllib.c:573-614 | plain `%s` is max(width, shown) bytes: the shown bytes, with blanks on the side `-` chooses |
| Formatter.PrecisionZeroOverrun | sqllib.c:563-605 | as written, `%.0s` of 2000 bytes into a fresh buffer writes 2000 bytes into 1000 |
| Formatter.RenderStringWithinReserve | sqllib.c:561-616 | the corrected `%s` never writes more than the length pass reserves, plus its two quotes |
| Formatter.RenderChar | sqllib.c:621-650 | definition of the corrected `%c`: `NULL` for 0, else the stored byte, quoted and escaped for `#` |
| Formatter.RenderCharAsWritten | sqllib.c:621-650 | definition of `%c` as written: `%#c` doubles a quote and escapes a newline, testing the whole value, and leaves a backslash bare |
| Formatter.CharBodyDecodes | sqllib.c:635-648 | what the corrected `%#c` puts between its quotes decodes to the byte |
| Formatter.CharLiteralDecodes | sqllib.c:621-648 | the corrected `%#c` of a non-zero value is a quoted MySQL literal of its byte |
| Formatter.CharAsWrittenBreaksLiteral | sqllib.c:630-648 | as written, `%#c` of a backslash, or of 295 (a quote once stored in a char), leaves the literal open |
| Formatter.RenderBool | sqllib.c:711-725 | definition of `%B`: TRUE or FALSE, and `'Y'` or `'N'` with `#`, by whether the value is non-zero |
| Formatter.RenderTime | sqllib.c:651-710 | definition of `%T`/`%U`/`%Z`: `0000-00-00` for 0, else the datetime of the broken-down time cut to a positive width, quoted with `#` |
| Formatter.Truncate | sqllib.c:663-665 | the time text is a prefix, no longer than a positive width, and only shorter when cut at it |
| Formatter.TimeLayout | sqllib.c:651-710 | a zero time is `0000-00-00`; any other is the datetime cut to a positive width below 19; quoted with `#` |
| Formatter.ValueArg | sqllib.c:543-554 | the value of a custom conversion is read after its `*` arguments and fits its kind |
| Formatter.Render | sqllib.c:540-735 | definition of a known conversion's text: the custom ones as above, the standard ones by `vsnprintf` of the directive |
| Formatter.Piece | sqllib.c:435-764 | every pass of the loop that succeeds moves forward and reads no argument twice |
| Formatter.FormatFrom | sqllib.c:435-765 | the text appended so far stays a prefix of the final text |
| Formatter.Format | sqllib.c:433-768 | definition of the corrected text `sql_vsprintf` appends: FormatFrom from the start of the format with nothing written |
| Formatter.PieceConsumes | sqllib.c:543-761 | a known conversion succeeds iff its arguments fit, and reads `*` width, `*` precision, then the value, no others |
| Formatter.OtherPiecesConsumeNothing | sqllib.c:440-539 | plain bytes, `%%`, cut, unknown and over-long directives read no argument |
| Formatter.CutDirectiveCopied | sqllib.c:534-539 | the corrected scan copies a directive the format ends inside, and stops |
| Formatter.PlainRunCopied | sqllib.c:440-444 | bytes other than `%` are appended unchanged |
| Formatter.PlainFormat | sqllib.c:435-444 | a format without directives is its own text |
| Formatter.PercentLiteral | sqllib.c:446-532 | any directive whose conversion byte is `%`, whatever flags, width, precision and length precede it, appends one `%`, reads no argument, and the scan resumes after it |
| Formatter.PercentExamples | sqllib.c:528-532 | `50%%` is `50%`, and `%-5%` is `%` |
| Formatter.UnknownCopied | sqllib.c:534-539 | a directive ending on a byte that is no conversion, or longer than 20 bytes, is copied up to that byte, reads no argument, and the scan resumes at that byte, which is then copied as plain text |
| Formatter.UnknownExample | sqllib.c:534-539 | `%y` is copied as `%y` |
| Formatter.TrailingPercentCopied | sqllib.c:525-539 | the corrected scan copies a `%` that ends the format and stops there; as written, `strchr` matches the NUL and the scan steps past the end (Directive.CutDirectiveReadsPastEnd) |
| Formatter.EscapeExamples | sqllib.c:833-838 | `%#s` of `te'st3` is `'te\'st3'` and of `te\st4` is `'te\\st4'` |
| Formatter.PaddingExamples | sqllib.c:833-838 | `%#10.4s` and `%#-10s` pad inside the quotes, before or after |
| Formatter.PlainAndNullExamples | sqllib.c:555-559 | plain `%s` copies; NULL is `NULL` with `#` and nothing without |
| Formatter.CharAndBoolExamples | sqllib.c:621-724 | `%c`, `%#c`, `%B` and `%#B` of the demonstration's values |
| Formatter.StandardOverrun | sqllib.c:727-735 | as written, `%2000d` in a fresh 1000-byte buffer moves ptr 2000 bytes |
| Formatter.VerbatimOverrun | sqllib.c:534-539 | as written, a directive over 20 bytes is copied whole: 1001 bytes into a fresh 1000-byte buffer |
| SqlBuffer.SqlString.constructor | sqllib.c:782 | `{ 0 }`: no buffer, no length, empty text |
| SqlBuffer.SqlString.Grow | sqllib.c:438 | `realloc` by extra bytes keeps the text |
| SqlBuffer.SqlString.Reserve | sqllib.c:438 | the loop-top check grows by 1000 (plus need) and leaves more than need + 100 bytes free |
| SqlBuffer.SqlString.Put | sqllib.c:442 | one byte appended, the buffer grown first so a byte is left for the NUL |
| SqlBuffer.SqlString.PutAll | sqllib.c:536-537 | the bytes appended in order |
| SqlBuffer.SqlString.PutSpaces | sqllib.c:579-586 | count blanks appended |
| SqlBuffer.SqlString.PutEscChar | sqllib.c:589-602 | the escape of one byte appended |
| SqlBuffer.SqlString.PutEscaped | sqllib.c:587-606 | the copy loop appends EscS of the shown bytes |
| SqlBuffer.SqlString.Measure | sqllib.c:561-574 | the length pass counts the shown bytes and asks for them, one more per special byte with `#`, and the padding |
| SqlBuffer.SqlString.PutShown | sqllib.c:587-606 | the shown bytes appended, escaped for `#` |
| SqlBuffer.SqlString.PutField | sqllib.c:579-614 | the body and padding appended on the side `-` chooses |
| SqlBuffer.SqlString.PutString | sqllib.c:551-620 | the `%s`/`%S` case appends RenderString |
| SqlBuffer.SqlString.Terminate | sqllib.c:766-767 | a buffer, if there is one, ends in a NUL after the text |
| SqlBuffer.SqlString.PutOutput | sqllib.c:435-763 | what one pass of the loop decided is appended to the text, and an existing buffer is kept |
| SqlBuffer.SqlString.AppendFormat | sqllib.c:433-777 | the text grows by exactly Format(f, args); the buffer is NUL-terminated and allocated unless f is empty |
| SqlBuffer.SqlString.Back | sqllib.c:293-302 | an empty text gives 0 and is unchanged; otherwise the last byte is removed and returned, and the NUL follows the text |
| SqlBuffer.SqlString.Free | sqllib.c:284-291 | no buffer, zero length and pointer, empty text |
| SqlBuffer.NextPiece | sqllib.c:435-764 | the branches of one loop pass resume, consume and write as Piece says |
| SqlBuffer.NextConversion | sqllib.c:543-763 | a known conversion writes, resumes and consumes as Piece says |
| SqlBuffer.Conversion | sqllib.c:543-735 | what a conversion writes is Render |
| SqlBuffer.PieceConverts | sqllib.c:543-764 | a known conversion whose arguments fit resumes after its letter, past its arguments |
| SqlBuffer.BackS | sqllib.c:293-302 | a NULL string gives 0; otherwise as Back |
| SqlBuffer.Printf | sqllib.c:779-788 | NULL iff the format is empty, else the formatted text |
| LegacyPrintf.LegacyPiece | sqllib.c:854-984 | every pass of the corrected loop moves forward and never re-reads an argument |
| LegacyPrintf.LegacyPieceAsWritten | sqllib.c:854-984 | definition of one pass as written: after a trailing `%` the NUL is copied and the loop steps past it |
| LegacyPrintf.LegacyText | sqllib.c:857-981 | definition of the text of each directive letter for its argument |
| LegacyPrintf.Legacy | sqllib.c:848-989 | definition of the corrected text `sqlprintf` writes before its NUL |
| LegacyPrintf.LegacyPrefix | sqllib.c:854-985 | what has been written stays a prefix of the final text |
| LegacyPrintf.EscapeLoop | sqllib.c:876-888 | the copy loop of `%s` gives EscLegacy |
| LegacyPrintf.DirectiveText | sqllib.c:857-981 | the switch gives LegacyText for the letter and its argument |
| LegacyPrintf.NextLegacy | sqllib.c:856-984 | one pass resumes, consumes and writes as LegacyPiece says |
| LegacyPrintf.Write | sqllib.c:863-864 | the bytes are written at p, and nothing before p or after them changes |
| LegacyPrintf.Terminate | sqllib.c:987 | a NUL at p, and no other byte changes |
| LegacyPrintf.SqlPrintf | sqllib.c:848-989 | `q[start..end]` is Legacy(f, args) followed by a NUL, end is returned, and nothing before start or after the NUL changes |
| LegacyPrintf.EscLDecodes | sqllib.c:876-888 | one escaped byte decodes to itself |
| LegacyPrintf.LegacyStringDecodes | sqllib.c:867-899 | the body of `%s` decodes to exactly the string's bytes |
| LegacyPrintf.StringDirective | sqllib.c:867-899 | `%s` quotes the escaped text, `%S` does not, NULL is `NULL`; `%S` decodes to the string |
| LegacyPrintf.QuadOctets | sqllib.c:900-907 | `%i` writes four octets below 256 that recombine to the unsigned value |
| LegacyPrintf.YesNoAndQuote | sqllib.c:955-979 | `%y` is `'Y'` iff the char is non-zero; `%c` of a quote uses double quotes |
| LegacyPrintf.TimeDirective | sqllib.c:940-954 | `%t` of 0 is `0`; any other time in years 0-9999 is 14 digits |
| LegacyPrintf.CompactField | sqllib.c:948-949 | a `%02d`/`%04d` field of a number below 10^w has width w |
| LegacyPrintf.UnknownLetter | sqllib.c:980-981 | `%` then an unknown letter writes the letter |
| LegacyPrintf.PercentExample | sqllib.c:980-981 | `50%%` is written `50%` |
| LegacyPrintf.TrailingPercentReadsPastEnd | sqllib.c:856-984 | as written, a trailing `%` copies the NUL and resumes past the end of the format |
| LegacyPrintf.TrailingPercentStops | sqllib.c:854-987 | the corrected loop writes `100%` as `100` |
| SqlTime.Field | sqllib.c:1004-1005 | a field of c digits consumes at most c bytes |
| SqlTime.ScanClock | sqllib.c:1018-1038 | the time part only moves the pointer forward |
| SqlTime.ScanDate | sqllib.c:1003-1017 | the date part moves the pointer forward by at most 11 bytes: four digits, two and two, two separators and a blank or `T` |
| SqlTime.Scan | sqllib.c:1003-1039 | the whole scan only moves the pointer forward |
| SqlTime.TimeZ | sqllib.c:991-1049 | definition of `sql_time_z`: -1 for NULL or a bad date, 0 for the zero date, else timegm (Z or utc) or mktime of the fields |
| SqlTime.ReadField | sqllib.c:1003-1005 | the bounded digit loop reads Field: at most c digits, stopping at a non-digit |
| SqlTime.SkipChar | sqllib.c:1006-1007 | one optional separator is stepped over |
| SqlTime.PassFraction | sqllib.c:1033-1038 | a `.` and its digits are stepped over |
| SqlTime.ReadClock | sqllib.c:1020-1038 | the time part reads ScanClock |
| SqlTime.ReadDate | sqllib.c:1003-1017 | the date part reads ScanDate |
| SqlTime.ReadFields | sqllib.c:1003-1039 | the whole scan reads Scan; the clock only when bytes remain |
| SqlTime.SqlTimeZ | sqllib.c:991-1049 | NULL gives -1, the zero date 0, a bad date -1, else timegm (with Z or utc) or mktime of the fields |
| SqlTime.FieldBound | sqllib.c:1004-1032 | a field of c digits is below 10^c |
| SqlTime.FieldsBounded | sqllib.c:1003-1032 | the year is below 10000, the other fields below 100 |
| SqlTime.FieldReads | sqllib.c:1004-1005 | a field of exactly w digits reads their value and stops after them |
| SqlTime.PaddedFieldReads | sqllib.c:1004-1005 | `%0<w>d` of a number below 10^w reads back as the number |
| SqlTime.ScanPrintedDate | sqllib.c:1003-1017 | a printed valid date reads back, and the blank after it is stepped over |
| SqlTime.ScanPrintedClock | sqllib.c:1018-1038 | a printed clock reads back; fractional seconds after it are stepped over |
| SqlTime.ScanDateTime | sqllib.c:1003-1039 | the datetime `%T`/`%U`/`%Z` print reads back field for field |
| SqlTime.DateTimeRoundTrip | sqllib.c:991-1049 | the printed datetime goes back through timegm (Z or utc) or mktime of the same broken-down time |
| SqlTime.UncheckedClock | sqllib.c:1042-1048 | hour 25, minute 61, second 99 and 30 February pass the checks |
| ColumnLookup.CaseEqualMeans | sqllib.c:796 | strcasecmp equality iff same length and equal bytes after tolower |
| ColumnLookup.CaseEqual | sqllib.c:796 | definition of `strcasecmp(a, b) == 0`: byte-by-byte comparison after tolower up to the first end |
| ColumnLookup.CaseExamples | sqllib.c:796 | `Id` matches `iD`; `id` does not match `ids`; `_` and `-` differ |
| ColumnLookup.FirstFrom | sqllib.c:796 | -1 when no field from n matches, else the first matching index from n |
| ColumnLookup.Column | sqllib.c:790-800 | r ≥ 0 iff there is a result with fields and a matching name; then r is the first match |
| ColumnLookup.NullNameMatchesEmpty | sqllib.c:796 | a NULL field name matches only the empty name |
| ColumnLookup.ColNum | sqllib.c:790-800 | the loop returns Column |

## Left out

- The statement execution after expansion (`sql_query`, the safe-update retry, result printing) is not part of this model, nor is the `noexpand` switch (`sql.c:58`) that skips expansion.
- The parenthesis counter `par` of `dosql` (`sql.c:315-318`) is kept but never read, so it is not modelled.
- The debug messages on stderr (`sql.c:208-209`, `220-221`, `302-303`) are output only.
- `getenv`, `fopen`/`fgetc` and `getchar` are an environment map, a map from file names to contents, and a string. A file that cannot be opened is a name missing from the map.
- Allocation failure (`err`/`errx` after `realloc`) is not modelled. The capacity policy of the expander's `add` is abstracted to a growing `string`.
- Memory release is not modelled. This covers the `!` flag's `free` of a `%s` argument (`sqllib.c:617-618`, which frees the pointer after the copy loop has advanced it, not the string's start) and `sqllib.c:758-759`.
- Formatter.Render: standard conversions (integers, floating point, `%p`, `%m`) are the result of the `vsnprintf` field of `Host`. Their text is not modelled, and neither is `NONPORTABLE` (`sqllib.c:729-730`).
- Formatter.Format: an argument list that does not match the format is undefined behaviour in C. It is the error `BadArgument`, and the methods require a format that succeeds.
- SqlTime.TimeZ: `tm_isdst = -1` (`sqllib.c:1047`) is not passed on, because `mktime` is an uninterpreted field of `Host`.
- `gmtime`, `localtime`, `timegm` and `mktime` are uninterpreted. The round-trip lemma holds for whatever they compute.
- LegacyPrintf.LegacyText: `%l` of a NULL pointer dereferences NULL in C. The model refuses it with `BadArgument`.
- LegacyPrintf.SqlPrintf: `sqlprintf` does no bounds checking. The method requires the caller's array to hold the text and its NUL. It also writes the corrected text of LegacyPrintf.Legacy. After a trailing `%` it writes nothing more and stops. C copies the terminating NUL there and steps past the end of the format (LegacyPrintf.LegacyPieceAsWritten).
- LegacyPrintf.Legacy: the corrected text, in which a trailing `%` ends the scan, unlike the loop as written (LegacyPrintf.LegacyPieceAsWritten).
- Formatter.Format: this is the corrected formatter, not the code as written. It differs from the C code in five ways, and each has an as-written member under "Findings". `%.0s` writes no bytes, where the C copy loop writes the whole string (Formatter.StringBodyAsWritten). `%C` and `%n` step over their argument, where the C skip list leaves it for the next directive, so `%C %d` differs (Formatter.ValueKindsAsWritten). `%#c` of a backslash is `'\\'`, where C writes `'\'` (Formatter.RenderCharAsWritten). `%c` tests the stored byte, where C tests the whole value before storing its low byte: `%#c` of 295 is `''''` here and `'''` in C, and `%#c` of 266 is `'\n'` here, where C writes a bare LF between the quotes (Formatter.RenderCharAsWritten). A directive the format ends inside is copied and stops the scan, where C steps over the terminating NUL (Directive.ResumeAsWritten).
- SqlBuffer.SqlString.AppendFormat: appends the corrected text of Formatter.Format, so the five differences listed there apply. The 100-byte room the C loop keeps for standard conversions and verbatim directives is not enough for every format (Formatter.GrowAsWritten and Formatter.StandardOverrun). The model grows the buffer as each byte is written instead, and the overruns are shown as separate lemmas.
- SqlBuffer.Printf: returns the corrected text of Formatter.Format, so the five differences listed there apply.
- Expander.Expansion: strips only bytes below 0x20 from the end of the template, reading `char` as unsigned. Where `char` is signed, C also strips bytes from 0x80 up, so a template ending in `café` loses the bytes of `é` (Expander.TrimAsWritten).
- Expander.Expand: computes Expansion, so it reads `char` as unsigned in the strip too.
- Directive.DigitRun: the width and precision digit runs are read as unbounded integers. C accumulates them in an `int`, and a run above 2147483647 overflows, which is undefined behaviour. The model neither bounds nor wraps them.
- FormatArgs.Fits: an `int` argument outside -2^31..2^31-1, or a `long`, `long long` or `time_t` outside the 64-bit range, does not fit and gives `BadArgument`. A C caller cannot pass such a value, so no C behaviour is lost.
- Characters are not confined to byte values. A `char` of the model may be 256 or more, and templates, environment values, file contents and formats may hold a NUL, where C would stop at it. The C inputs are a subset of the model's, and the contracts hold on all of them. The model says nothing about what C does with the extra inputs.
- SqlTime.Field: the C counters are `unsigned int`. At most four digits are read, so no wrap-around can happen, and none is modelled.

## Findings

| source | as written | input that shows it | evidently intended | confidence | as-written member | corrected member |
|---|---|---|---|---|---|---|
| sqllib.c:525-539 | `strchr("hqjzt", *f)` also matches the terminating NUL, so a directive the format ends inside steps over it | the format `"%5"` | copy the cut directive and stop at the end | not executed | Directive.ResumeAsWritten, Directive.CutDirectiveReadsPastEnd | Formatter.Piece, Formatter.CutDirectiveCopied |
| sqllib.c:563-605 | the length pass treats precision 0 as "nothing shown", but the copy loop only stops for a positive precision | `%.0s` of a 2000-byte string into a fresh buffer | copy no more than the length pass reserved | not executed | Formatter.StringBodyAsWritten, Formatter.PrecisionZeroOverrun | Formatter.RenderString, Formatter.RenderStringWithinReserve |
| sqllib.c:438-439 | only 100 free bytes are guaranteed before a standard conversion or a verbatim directive | `%2000d`, or a 1001-byte unknown directive | grow the buffer by what is written | not executed | Formatter.StandardOverrun, Formatter.VerbatimOverrun | SqlBuffer.SqlString.Put |
| sqllib.c:741-761 | the argument skip lists have no case for `%C` (wint_t) or `%n` (int *) | `%C %d` | skip the one argument each reads | not executed | Formatter.ValueKindsAsWritten, Formatter.WideCharAndCountSkipNothing | Formatter.ValueKinds, Formatter.OneValuePerConversion |
| sqllib.c:635-646 | `%#c` doubles a quote but leaves a backslash bare, and tests the whole `long long`, not the stored byte | `%#c` of `'\\'`, or of 295 | a quoted MySQL literal of the byte | not executed | Formatter.RenderCharAsWritten, Formatter.CharAsWrittenBreaksLiteral | Formatter.RenderChar, Formatter.CharLiteralDecodes |
| sql.c:65 | `i[-1] < ' '` on a signed `char` also strips bytes from 0x80 up | a template ending in `café` (UTF-8) | strip only control bytes | not executed | Expander.TrimAsWritten, Expander.TrimAsWrittenDropsHighBytes | Expander.Trim, Expander.TrimKeepsHighBytes |
| sqllib.c:856-984 | after a trailing `%` the switch copies the NUL, and `f++` steps past it | the format `"100%"` | stop at the end of the format | not executed | LegacyPrintf.LegacyPieceAsWritten, LegacyPrintf.TrailingPercentReadsPastEnd | LegacyPrintf.LegacyPiece, LegacyPrintf.TrailingPercentStops |
