/** One header line of an mcabber history file and `parseHeader` (main.go), which reads it.
    A header line is `<direction> <timestamp> <count> <text>`: three single-space-separated
    fields and the rest of the line. */
module Records {
  import opened Wrappers
  import opened Strings
  import opened Strconv
  import opened Timestamp

  /** Go's `Header`: `kind` is the `Type` field, which `parseHeader` never fills in. */
  datatype Header = Header(kind: string, time: DateTime, length: int, message: string)

  /** Why a line is not a header, in the order `parseHeader` checks. */
  datatype HeaderError = TooFewFields | BadLength(field: string) | BadTime(field: string)

  /** `parseHeader`: split on single spaces into at most four fields, read field 2 as
      a signed 64-bit decimal count, then field 1 as a timestamp; field 3 is the text. */
  function ParseHeader(line: string): (r: Result<Header, HeaderError>)
    ensures r == Failure(TooFewFields) <==> Count(line, ' ') < 3
    ensures r.Success? ==> r.value.kind == "" && MinInt64 <= r.value.length <= MaxInt64
  {
    var fields := SplitN(line, ' ', 4);
    if |fields| < 4 then Failure(TooFewFields)
    else
      match ParseInt(fields[2])
      case None => Failure(BadLength(fields[2]))
      case Some(length) =>
        match ParseTime(fields[1])
        case None => Failure(BadTime(fields[1]))
        case Some(time) => Success(Header("", time, length, fields[3]))
  }

  /** A line with at least three spaces is decided by its first three fields: the direction
      code is never looked at, a bad count is reported before a bad timestamp, and the text
      is everything after the third space, spaces included. */
  lemma {:induction false} ParseHeaderFields(direction: string, stamp: string, count: string, text: string)
    requires ' ' !in direction && ' ' !in stamp && ' ' !in count
    ensures ParseHeader(direction + " " + stamp + " " + count + " " + text) ==
      if ParseInt(count).None? then Failure(BadLength(count))
      else if ParseTime(stamp).None? then Failure(BadTime(stamp))
      else Success(Header("", ParseTime(stamp).value, ParseInt(count).value, text))
  {
    var rest2 := count + " " + text;
    var rest1 := stamp + " " + rest2;
    assert direction + " " + stamp + " " + count + " " + text == direction + [' '] + rest1;
    assert rest1 == stamp + [' '] + rest2;
    assert rest2 == count + [' '] + text;
    SplitNStep(direction, ' ', rest1, 4);
    SplitNStep(stamp, ' ', rest2, 3);
    SplitNStep(count, ' ', text, 2);
  }

  /** Conversely, an accepted line is its direction code, timestamp field and count field
      (none holding a space) followed by the header's text, each separated by one space; the
      timestamp and count are the fields the header's date and length were read from. */
  lemma HeaderLayout(line: string) returns (direction: string, stamp: string, count: string)
    requires ParseHeader(line).Success?
    ensures ' ' !in direction && ' ' !in stamp && ' ' !in count
    ensures line == direction + " " + stamp + " " + count + " " + ParseHeader(line).value.message
    ensures ParseTime(stamp) == Some(ParseHeader(line).value.time)
    ensures ParseInt(count) == Some(ParseHeader(line).value.length)
  {
    var fields := SplitN(line, ' ', 4);
    direction, stamp, count := fields[0], fields[1], fields[2];
    Join4(fields, ' ');
  }
}
