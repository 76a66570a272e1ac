# CSV reader (jamiemansfield/csv) in Dafny

This project models the core of a small Java CSV reader. `CsvParser.parse`
reads the header line, lower-cases it and splits it on commas. It then turns
every following line into a `CsvRow` with `parseLine`, numbering lines from 2
and stopping at the first `CsvParsingException`. `parseLine` is a hand-written
scanner over the line:

- an unquoted field runs to the next comma;
- a quoted field runs to a closing quote that is not followed by another
  quote;
- a doubled quote `""` inside a quoted field opens a verbatim run that must end
  in another `""`, and each pair adds one quote to the value;
- after every field one character is consumed as the delimiter, without
  looking at it, and a delimiter that ends the line adds an empty last field;
- the field count must equal the header count, and the row maps each trimmed
  header to its trimmed value.

`CsvRow.getValue` looks a lower-cased name up in that map. The `CsvRow`
constructor (CsvRow.java:48-50) only stores the map, so a row is the datatype
`CsvRows.CsvRow` around it.

The files, in dependency order:

- `wrappers.dfy` has `Option` and `Result`.
- `java_strings.dfy` holds the parts of `java.lang.String` the reader uses:
  - `toLowerCase` on ASCII;
  - `trim`, which drops characters up to `' '`;
  - `split(",")` with Java's dropping of trailing empty pieces.
- `csv_errors.dfy` has the error kinds, `CsvParsingException`, and what `parse` can throw.
- `csv_row.dfy` has the row and `getValue`.
- `csv_syntax.dfy` specifies the scanner as pure functions of the part of the
  line not yet consumed, plus round-trip lemmas.
- `csv_line_shapes.dfy` states what the scanner does on particular shapes of line.
- `csv_parser.dfy` holds `ParseLine` and `Parse`.
  - `ParseLine` and its helper methods loop over a cursor into the line, and
    each is proved equal to a pure specification function.
  - `Parse` loops over the list of lines. Its contract states which rows it
    returns, or which line's error, in terms of `ParseLineSpec`.
  - The file also holds the lemmas about the rows these build.

## Model

| member | source | states |
|---|---|---|
| JavaStrings.ToLower | src/main/java/me/jamiemansfield/csv/CsvParser.java:68 | lower-casing keeps the length and maps every character by LowerChar |
| JavaStrings.ToLowerIdempotent | src/main/java/me/jamiemansfield/csv/CsvRow.java:59 | lower-casing a lower-cased string changes nothing |
| JavaStrings.ToLowerFixes | src/main/java/me/jamiemansfield/csv/CsvParser.java:68 | lower-casing yields a lower-case string; a string is lower-case exactly when lower-casing leaves it unchanged |
| JavaStrings.Trim | src/main/java/me/jamiemansfield/csv/CsvParser.java:160 | String.trim as stripping the front and then the back; TrimIsSlice characterizes the result completely |
| JavaStrings.TrimStartIsSuffix | src/main/java/me/jamiemansfield/csv/CsvParser.java:160 | stripping the front gives a suffix that is empty or starts with a non-space; everything dropped is a space |
| JavaStrings.TrimEndIsPrefix | src/main/java/me/jamiemansfield/csv/CsvParser.java:160 | stripping the back gives a prefix that is empty or ends with a non-space; everything dropped is a space |
| JavaStrings.TrimIsSlice | src/main/java/me/jamiemansfield/csv/CsvParser.java:160 | trim gives a contiguous slice of the input; the slice neither starts nor ends with a character up to ' '; everything outside it is such a character |
| JavaStrings.TrimIdempotent | src/main/java/me/jamiemansfield/csv/CsvParser.java:160 | trimming twice is trimming once |
| JavaStrings.TrimKeepsLower | src/main/java/me/jamiemansfield/csv/CsvParser.java:160 | a trimmed lower-case header stays lower-case |
| JavaStrings.SplitAll | src/main/java/me/jamiemansfield/csv/CsvParser.java:68 | cutting at every comma gives at least one piece, and no piece holds a comma |
| JavaStrings.JoinSplitAll | src/main/java/me/jamiemansfield/csv/CsvParser.java:68 | joining the pieces with commas gives back the input |
| JavaStrings.SplitAllJoin | src/main/java/me/jamiemansfield/csv/CsvParser.java:68 | cutting a comma-join of comma-free parts gives back the parts |
| JavaStrings.DropTrailingEmpty | src/main/java/me/jamiemansfield/csv/CsvParser.java:68 | only empty pieces are dropped, only from the end, and what is left is empty or ends non-empty |
| JavaStrings.Split | src/main/java/me/jamiemansfield/csv/CsvParser.java:68 | split(","): an input without a comma comes back whole, even when empty; otherwise the result is the list of all pieces with the trailing empty ones removed |
| JavaStrings.SplitAllKeepsLower | src/main/java/me/jamiemansfield/csv/CsvParser.java:68 | every piece cut from a lower-case string is lower-case |
| JavaStrings.SplitKeepsLower | src/main/java/me/jamiemansfield/csv/CsvParser.java:68 | every header split from the lower-cased header line is lower-case |
| CsvRows.CsvRow.GetValue | src/main/java/me/jamiemansfield/csv/CsvRow.java:58-60 | a value is present exactly when the lower-cased name is a key, and it is that key's value |
| CsvRows.CaseInsensitive | src/main/java/me/jamiemansfield/csv/CsvRow.java:58-60 | two names that lower-case alike find the same value |
| CsvRows.LowerCasedArgument | src/main/java/me/jamiemansfield/csv/CsvRow.java:58-60 | lower-casing the argument first changes nothing |
| CsvRows.ArgumentNotTrimmed | src/main/java/me/jamiemansfield/csv/CsvRow.java:58-60 | the argument is not trimmed (" a" misses the key "a"), only lower-cased ("A" finds it) |
| CsvSyntax.UnquotedLen | src/main/java/me/jamiemansfield/csv/CsvParser.java:135-137 | the unquoted run is the longest prefix without a comma; a comma, if any, follows it |
| CsvSyntax.EmbeddedLen | src/main/java/me/jamiemansfield/csv/CsvParser.java:108-110 | the verbatim run after a "" stops at the first "" if there is one; otherwise it stops where fewer than two characters remain, and no "" follows |
| CsvSyntax.QuotedBody | src/main/java/me/jamiemansfield/csv/CsvParser.java:99-131 | the body of a quoted field: on success the rest is shorter than the input, and the only errors are the two unterminated kinds. QuotedPlain, QuotedPrefix, EmbeddedPair and QuotedUnterminated characterize the result, and ScanQuoted is proved equal to it |
| CsvSyntax.EmbeddedBody | src/main/java/me/jamiemansfield/csv/CsvParser.java:103-119 | the rest of a quoted body after a "": a quote, the run up to the next "", a quote, then more body, or UnterminatedEmbedded when no "" follows. On success the rest is shorter; EmbeddedPair and EmbeddedUnterminated characterize it, and ScanPair is proved equal to it |
| CsvSyntax.Field | src/main/java/me/jamiemansfield/csv/CsvParser.java:97-138 | one field: a quoted body after an opening quote, otherwise the comma-free run. It never consumes more than the line holds; UnquotedField and QuotedField characterize it, and ScanField is proved equal to it |
| CsvSyntax.Fields | src/main/java/me/jamiemansfield/csv/CsvParser.java:94-149 | tokenizing a line fails only with an unterminated quoted or unterminated embedded error |
| CsvSyntax.FieldsCount | src/main/java/me/jamiemansfield/csv/CsvParser.java:94-149 | an empty line has no fields; any other line that tokenizes has at least one |
| CsvSyntax.UnquotedField | src/main/java/me/jamiemansfield/csv/CsvParser.java:134-137 | an unquoted field is the maximal comma-free prefix, copied verbatim, and the rest starts after it |
| CsvSyntax.QuotedPlain | src/main/java/me/jamiemansfield/csv/CsvParser.java:99-132 | a quoted body without quotes ends at the first lone quote, which is consumed; commas inside are kept |
| CsvSyntax.QuotedUnterminated | src/main/java/me/jamiemansfield/csv/CsvParser.java:128-130 | a quoted body without any quote fails as an unterminated quoted entry |
| CsvSyntax.QuotedField | src/main/java/me/jamiemansfield/csv/CsvParser.java:97-132 | a quote-free value in quotes, followed by end of line or a non-quote, scans back to the value |
| CsvSyntax.QuotedJoinRoundTrip | src/main/java/me/jamiemansfield/csv/CsvParser.java:94-149 | quote-free values, each quoted and comma-joined, tokenize back to the same values, including commas and empty values |
| CsvSyntax.PlainField | src/main/java/me/jamiemansfield/csv/CsvParser.java:134-137 | a comma-free value that does not start with a quote, followed by end of line or a comma, scans back to itself |
| CsvSyntax.FieldsStep | src/main/java/me/jamiemansfield/csv/CsvParser.java:140-148 | after a field: at end of line the field is the last; with one character left an empty field follows; otherwise one character is consumed and scanning goes on |
| CsvSyntax.PlainJoinRoundTrip | src/main/java/me/jamiemansfield/csv/CsvParser.java:94-149 | comma-free, non-quote-initial values tokenize back from their comma join; the one exception is a single empty value, since an empty line has no fields |
| CsvLineShapes.TrailingComma | src/main/java/me/jamiemansfield/csv/CsvParser.java:142-147 | a comma that ends the line adds an empty last field |
| CsvLineShapes.QuoteNeverCloses | src/main/java/me/jamiemansfield/csv/CsvParser.java:128-130 | an opening quote with no other quote after it gives an unterminated quoted entry |
| CsvLineShapes.DelimiterNotChecked | src/main/java/me/jamiemansfield/csv/CsvParser.java:140-143 | the character after a closing quote is consumed as the delimiter, whatever it is |
| CsvLineShapes.QuotedPrefix | src/main/java/me/jamiemansfield/csv/CsvParser.java:124-125 | a quote-free run at the start of a quoted body is copied, and scanning continues after it |
| CsvLineShapes.EmbeddedPair | src/main/java/me/jamiemansfield/csv/CsvParser.java:103-119 | a "" opens a quote-free run that the next "" closes; the value gets a quote, the run and a quote |
| CsvLineShapes.EmbeddedUnterminated | src/main/java/me/jamiemansfield/csv/CsvParser.java:108-115 | a quoted field with no "" after its first "" is rejected as an unterminated embedded quote, whatever follows its closing quote |
| CsvLineShapes.SingleEmbeddedPair | src/main/java/me/jamiemansfield/csv/CsvParser.java:103-115 | the line "a""b",c is rejected as an unterminated embedded quote |
| CsvLineShapes.EmbeddedRun | src/main/java/me/jamiemansfield/csv/CsvParser.java:102-132 | two "" pairs bracket a verbatim run; the value has one quote for each pair |
| CsvLineShapes.SplitLoneDelimiter | src/main/java/me/jamiemansfield/csv/CsvParser.java:68 | a header line that is a lone comma splits into no headers |
| CsvParser.Headers | src/main/java/me/jamiemansfield/csv/CsvParser.java:68 | the header list is the lower-cased header line split on commas; no header holds a comma and every header is lower-case |
| CsvParser.RecordOf | src/main/java/me/jamiemansfield/csv/CsvParser.java:158-161 | the record map filled left to right from trimmed header to trimmed value; RecordKeys and RecordLastWins characterize it |
| CsvParser.ParseLineSpec | src/main/java/me/jamiemansfield/csv/CsvParser.java:90-163 | what parseLine gives for one line. It succeeds exactly when the line tokenizes and the field count equals the header count. Every error carries the line and its number and is never "Failed to read"; LookupFound and LookupValue describe the row |
| CsvParser.RecordKeys | src/main/java/me/jamiemansfield/csv/CsvParser.java:158-161 | the record's keys are exactly the trimmed headers |
| CsvParser.RecordLastWins | src/main/java/me/jamiemansfield/csv/CsvParser.java:158-161 | a header with no later duplicate maps to its own trimmed value, so among duplicates the last wins |
| CsvParser.LookupFound | src/main/java/me/jamiemansfield/csv/CsvParser.java:158-162 | on a parsed line, getValue finds a value exactly when the lower-cased name is one of the trimmed headers |
| CsvParser.LookupValue | src/main/java/me/jamiemansfield/csv/CsvParser.java:158-162 | the value found is the trimmed field in the position of the last header with that name |
| CsvParser.KeysReachable | src/main/java/me/jamiemansfield/csv/CsvParser.java:68 | since the header line is lower-cased, every key of a parsed row is lower-case, so getValue reaches every column by its key |
| CsvParser.ScanEmbedded | src/main/java/me/jamiemansfield/csv/CsvParser.java:108-110 | the loop copies exactly the verbatim run that EmbeddedLen measures |
| CsvParser.ScanPair | src/main/java/me/jamiemansfield/csv/CsvParser.java:103-119 | handling one "" moves the cursor forward and agrees with the quoted-body specification: the text it appends, or the unterminated-embedded error |
| CsvParser.ScanQuoted | src/main/java/me/jamiemansfield/csv/CsvParser.java:98-132 | the quoted-field loop returns the value and the position after the closing quote as QuotedBody does, or the same error |
| CsvParser.ScanUnquoted | src/main/java/me/jamiemansfield/csv/CsvParser.java:134-137 | the unquoted loop copies exactly the run UnquotedLen measures |
| CsvParser.FillRecord | src/main/java/me/jamiemansfield/csv/CsvParser.java:158-161 | the map-filling loop builds RecordOf(headers, values) |
| CsvParser.ScanField | src/main/java/me/jamiemansfield/csv/CsvParser.java:97-138 | one field at the cursor agrees with Field on the rest of the line |
| CsvParser.ParseLine | src/main/java/me/jamiemansfield/csv/CsvParser.java:90-163 | parseLine returns exactly ParseLineSpec: the tokenizer's error with the line and its number, or the count mismatch with both counts, or the row of trimmed header/value pairs |
| CsvParser.Parse | src/main/java/me/jamiemansfield/csv/CsvParser.java:66-88 | no header line gives a NullPointerException. Otherwise, on success there is one row per line, in order, each what parseLine gives for that line numbered from 2. On failure the error is that of the first line parseLine rejects, and it is never "Failed to read" |

## Left out

- Reading: the BufferedReader, `readLine`, `lines()`, `close()` (CsvParser.java:57-59, 86, 165-168) and IOException are not modelled. `Parse` takes the header line as an `Option`, where `None` means end of input, and the remaining lines as a sequence.
- The scanner `me.jamiemansfield.string.StringReader` is not part of this model. Its cursor is a `nat` index into the line: `available()` is `pos < |line|`, `readable(n)` is `pos + n <= |line|`, and `peek`, `advance` and `skip` read or move that index.
- The inner loops of `parseLine` are helper methods, not inline loops: `ScanQuoted`, `ScanPair`, `ScanEmbedded`, `ScanUnquoted` and `FillRecord`.
- JavaStrings.ToLower: lower-cases only 'A'..'Z'. Java's locale-dependent full Unicode case mapping is not modelled.
- JavaStrings.Split: covers only the one-character pattern "," with limit zero, not general regular expressions.
- CsvParser.Parse: line numbers are unbounded integers. The Java `AtomicInteger` would wrap after 2^31 - 1 lines.
- Error messages are `ErrorKind` values rather than strings. "Row has N entries, but header has M" keeps its two counts.
- The exception's cause is not modelled.
- The catch-all "Failed to read" branch (CsvParser.java:81-83) never fires in the model. No line is null, and list indexing stays in range once the counts match. `Parse` states this outright.
- `HashMap` is a `map<string, string>`. `Optional.ofNullable` becomes `Option`, since no value stored in the map is null.
- Embedded quotes: in RFC 4180, a doubled quote inside a quoted field stands for one quote, so `"a""b",c` would read as `a"b` and `c`. The code reads `""` instead as the start of a verbatim run that must end in another `""`, and rejects `"a""b",c` with "Unterminated embedded quote". The model follows the code: `CsvLineShapes.SingleEmbeddedPair` proves the rejection of that line, `CsvLineShapes.EmbeddedUnterminated` proves it for every line of that shape, and `CsvLineShapes.EmbeddedRun` shows two pairs reading as two quotes.
