# mcabber-history: the history reader, modelled in Dafny

`mcabber-history` searches the per-contact history files of the mcabber chat client.
The command is `mcabber-history -S <channel> <filter>...`. It does the following:

1. It lists the files `<path>/<channel>*`.
2. It builds one case-insensitive regular expression from the filter terms.
3. It reads every file as a run of records. A record is a header line
   `<direction> <YYYYMMDDTHH:MM:SSZ> <count> <text>` followed by `count` continuation lines.
4. It prints every record whose message matches, with an empty line between printed
   messages.

All of this is in `main.go`. The model covers the following parts of it:

- `parseHeader`:
  - the split into at most four fields;
  - the signed 64-bit decimal count;
  - the fixed-layout timestamp;
  - the order of its three error cases.
- The record loop of `search`:
  - a header, then exactly `max(count, 0)` further lines;
  - the message joined with `"\n"`;
  - the abort on a malformed header or a short file;
  - the `separator` flag, kept across files.
- The glob pattern, the expression, and the checks that come before any file is opened.

Files:

- `wrappers.dfy`: `Option` and `Result`.
- `strings.dfy`: Go's `strings.SplitN` and `strings.Join` on `seq<char>`.
  - `Split` is the unbounded split, used to read a message back into its lines.
- `strconv.dfy`: `strconv.ParseInt(s, 10, 64)`, with `FormatInt` as its inverse.
- `timestamp.dfy`: `time.Parse` with the layout `20060102T15:04:05Z`, with `FormatTime` as
  its inverse.
- `records.dfy`: `Header` and `ParseHeader`.
- `search.dfy`: the search itself.
  - Specification functions:
    - `ScanFile` and `ScanAll` read the records.
    - `Shown` keeps the matching messages.
    - `Printed` produces the `fmt.Println` calls.
    - `Stdout` produces the text those calls write.
    - `SearchSpec` is the whole run.
  - The methods `Search`, `PrintMatches` and `ReadContinuation` are the loops of `search`.
    Each is proved equal to its specification.

Everything `search` calls but cannot see into is a field of the `World` parameter:

- `filepath.Glob`: `None` when the pattern is bad.
- `os.Open` read by a line scanner: `None` when the file cannot be opened, otherwise the
  file's lines.
- `regexp.Compile` and `MatchString`.
- The coloured ANSIC rendering of a header's time.

The record scanner is written over the header parser it is given, the type `Parser`.
`SearchSpec` and `Search` give it `ParseHeader`. The facts about the scan hold for any
parser, so their proofs never unfold the parser.

Where the code does less than a description of the file format might suggest, the model
follows the code:

- The direction code (field 0) is never checked.
- `Type` is never filled in (`Header.kind` is always `""`).
- The count is parsed, and can fail, before the timestamp.
- A negative count is accepted and claims no continuation lines.

## Model

| member | source | states |
|---|---|---|
| `Strings.SplitN` | main.go:161 | splitting on a character with limit n gives between 1 and n fields, min(n, occurrences + 1) of them. The fields joined with the separator give back the input. No field but the last holds the separator. The last field holds it only when the limit was reached. |
| `Strings.JoinSnoc` | main.go:88 | joining one more part appends the separator and that part. |
| `Strings.SplitJoin` | main.go:143 | parts that do not contain the separator character, once joined, split back into exactly those parts. |
| `Strconv.ParseInt` | main.go:166-169 | a value is returned only for an optionally signed run of decimal digits. The value lies in the signed 64-bit range and is negative only after a `-`. |
| `Strconv.ParseSigned` | main.go:166-169 | for an optional `+` or `-` followed by any run of decimal digits, the result is the signed value of the digits when that value fits in 64 bits, and an error when it does not. So every in-range literal is accepted with its value, leading zeros and a `+` included, and every out-of-range literal is rejected. |
| `Strconv.ParseFormat` | main.go:166 | every signed 64-bit integer, written in decimal, parses back to itself. |
| `Strconv.ParseLeadingZero` | main.go:166 | a leading zero is accepted and does not change the value parsed. |
| `Timestamp.ParseTime` | main.go:171-174 | a timestamp is accepted only if it fits the layout `20060102T15:04:05Z` character by character and its fields are in range. The ranges are a month of 1-12, a day within that month (leap years included), hour < 24, minute < 60 and second < 60. |
| `Timestamp.ParseFormatTime` | main.go:171 | every valid date, written in the layout, is read back as that date. |
| `Timestamp.FormatParseTime` | main.go:171 | an accepted timestamp is the only spelling of its date: writing the parsed date gives back the field. |
| `Records.ParseHeader` | main.go:160-181 | a line fails with "too few fields" exactly when it has fewer than three spaces. An accepted header has an empty `Type` and a count in the signed 64-bit range. |
| `Records.ParseHeaderFields` | main.go:161-180 | a line `d s c text` (d, s, c without spaces) is judged as follows. A bad count is reported first, a bad timestamp second. Otherwise the header holds the timestamp's date, the count's value and all of `text`, spaces included. The direction code is never looked at. |
| `Records.HeaderLayout` | main.go:161-179 | an accepted line is exactly a direction code, timestamp field and count field (none with a space), then the message, with single spaces between them. The timestamp and count are the fields the header's time and length came from. |
| `Search.GlobPattern` | main.go:67-70 | the pattern is the path, `/`, the channel and `*`. Given the path's length, both the path and the channel can be read back from it. |
| `Search.Expression` | main.go:88 | the expression is `(?si)` followed by the filter terms joined with `.*`. |
| `Search.ExpressionAppend` | main.go:88 | one more filter term appends `.*` and the term to the expression. |
| `Search.ScanFileSound` | main.go:111-141 | every record read from a file is its header line, which parses, and exactly `max(count, 0)` further lines. Records are read back to back from the start of the file with nothing skipped. The scan ends without a failure exactly when the records cover the whole file. Otherwise it stops at the first line that does not start a complete record: with a malformed-line failure if that line does not parse, or with a not-enough-lines failure (carrying the count) if fewer lines remain than it claims. |
| `Search.ScanAllSound` | main.go:100-120 | every record read from any file is well formed. A run without a failure opened every file, and its records cover all of their lines, file after file. |
| `Search.ScanAllAppend` | main.go:100-155 | files are read in order and independently: scanning a list of files is scanning its front part and, only if that did not fail, its back part. |
| `Search.MessageLines` | main.go:122-143 | a record's message splits back into the rendered first line and the unchanged continuation lines, which is one line more than max(count, 0): a negative count gives a one-line message. |
| `Search.PrintedShape` | main.go:145-153 | printing k ≥ 1 messages makes 2k - 1 `Println` calls, and printing none makes none: message i at position 2i and a blank line at every odd position. No blank line comes first or last. |
| `Search.PrintedBlanks` | main.go:98-153 | for k ≥ 1, k printed messages come with exactly k - 1 blank separator lines. |
| `Search.StdoutPrinted` | main.go:145-153 | for at least one printed message, standard output is the printed messages joined by an empty line, ending with a newline. |
| `Search.ChecksBeforeOpening` | main.go:67-96 | a glob error, an empty file list and an expression that does not compile end the run with no output. A glob error is reported first, then an empty file list, then a compile error, each with its own failure. The outcome depends on the glob and the compiler alone, never on any file's contents. |
| `Search.ReadContinuation` | main.go:131-141 | the continuation loop succeeds exactly when at least `max(count, 0)` lines follow the header. It then returns the first line followed by exactly those lines, and the next header is read from the line after them. |
| `Search.PrintMatches` | main.go:98-155 | the file loop's output is exactly `Printed` of the matching messages among all records read before the first failure, and it returns that failure. Its loops keep `separator` true exactly when a message has already been printed, in any file. |
| `Search.Search` | main.go:66-158 | `search` prints and returns exactly what `SearchSpec` says: the glob, empty-list and compile failures first, then the file loop. |

## Left out

- Command-line parsing with docopt, `os.ExpandEnv`, `main`, `panic` and `log.Fatal` (main.go:44-64). These are process plumbing.
- `filepath.Glob`, `os.Open` and `bufio.Scanner` are the `glob` and `open` fields of `World`. A file is the sequence of lines the scanner would produce. The following are not modelled:
  - the scanner's 64 KiB line limit;
  - the fact that `scanner.Err()` is never consulted;
  - the stripping of a trailing carriage return;
  - the file handles that are never closed.
- `regexp.Compile` and `MatchString` are the `compiles` and `matches` fields of `World`. Only the expression string is modelled.
- `Time.Format(time.ANSIC)` and the colour codes of `fatih/color` are the `stamp` field of `World`.
- `ser.Errorf` and the error texts are left out. An error is a `SearchError` value naming its kind and the data the message quotes. The model assumes `ser.Errorf` returns an error when the wrapped error is `nil`. That happens twice: the empty-file-list error at main.go:79-85 wraps the `nil` error of a successful `filepath.Glob`, and the not-enough-lines error at main.go:133-137 wraps the `nil` error of the `parseHeader` call that just succeeded.
- `Timestamp.ParseTime`: Go's `time.Parse` accepts a one-digit hour, because the `15` element is not fixed width. It also accepts a fractional second such as `.123` after the seconds. The model accepts only the two-digit, fraction-free form, so it rejects these rarer spellings that Go accepts.
- `Timestamp.DateTime` keeps the six fields of a date. Instants, time zones and `time.Time` arithmetic are not modelled.
- `int(length)` at main.go:178 does not narrow, because `int` is 64 bits on the platforms the program targets. The model keeps the value unchanged.
