/** `search` (main.go): find the channel's history files, read each file as a run of
    records (a header line and as many continuation lines as the header's count says),
    and print every record whose text matches the filter, with a blank line between
    printed messages. */
module Search {
  import opened Wrappers
  import opened Strings
  import opened Timestamp
  import opened Records

  /** Why a search stops, in the order `search` can fail. */
  datatype SearchError =
    | GlobFailed(channel: string)
    | NoHistoryFiles(path: string, channel: string)
    | BadExpression(expression: string)
    | OpenFailed(file: string)
    | MalformedLine(line: string, file: string, reason: HeaderError)
    | NotEnoughLines(length: int)

  /** What `search` calls but cannot see into: `filepath.Glob` (None for a bad pattern),
      `os.Open` read to the end by a line scanner (None when the file cannot be opened),
      `regexp.Compile` and `MatchString`, and the coloured rendering of a header's time. */
  datatype World = World(
    glob: string -> Option<seq<string>>,
    open: string -> Option<seq<string>>,
    compiles: string -> bool,
    matches: (string, string) -> bool,
    stamp: DateTime -> string)

  /** One `fmt.Println` call: a blank separator line, or a message. */
  datatype Emit = Blank | Text(message: string)

  /** How a header line is read; `search` uses `ParseHeader`. The scan is written over
      any such parser, since nothing in it depends on how headers are parsed. */
  type Parser = string -> Result<Header, HeaderError>

  /** A record as read from a file: its header line, the parsed header, its continuation lines. */
  datatype Record = Record(line: string, header: Header, body: seq<string>)

  /** The records read before the first failure, and that failure if there was one. */
  datatype Scan = Scan(records: seq<Record>, failure: Option<SearchError>)

  /** What a search printed, and the error it returned. */
  datatype Run = Run(output: seq<Emit>, failure: Option<SearchError>)

  /** The glob `<path>/<channel>*`: given the path's length, path and channel can be read
      back from it. */
  function GlobPattern(path: string, channel: string): (r: string)
    ensures |r| == |path| + |channel| + 2
    ensures r[..|path|] == path && r[|path|] == '/'
    ensures r[|path| + 1..|r| - 1] == channel && r[|r| - 1] == '*'
  {
    path + "/" + channel + "*"
  }

  /** The regular expression: case-insensitive, `.` matching newlines, the terms in order
      with anything between them. */
  function Expression(filters: seq<string>): (r: string)
    ensures |r| >= 5 && r[..5] == "(?si)" && r[5..] == Join(filters, ".*")
  {
    "(?si)" + Join(filters, ".*")
  }

  /** One more filter term adds `.*` and the term at the end of the expression. */
  lemma ExpressionAppend(filters: seq<string>, term: string)
    requires filters != []
    ensures Expression(filters + [term]) == Expression(filters) + ".*" + term
  {
    JoinSnoc(filters, term, ".*");
  }

  /** Continuation lines a header claims: its count, or none when the count is negative. */
  function Extra(h: Header): nat
  {
    if h.length < 0 then 0 else h.length
  }

  /** A record is a header line that parses, followed by exactly as many lines as it claims. */
  predicate WellFormed(parse: Parser, rec: Record)
  {
    parse(rec.line) == Success(rec.header) && |rec.body| == Extra(rec.header)
  }

  /** The lines a run of records was read from. */
  function Flatten(records: seq<Record>): seq<string>
  {
    if records == [] then [] else [records[0].line] + records[0].body + Flatten(records[1..])
  }

  lemma {:induction false} FlattenConcat(a: seq<Record>, b: seq<Record>)
    ensures Flatten(a + b) == Flatten(a) + Flatten(b)
  {
    if a == [] {
      assert a + b == b;
    } else {
      assert (a + b)[1..] == a[1..] + b;
      FlattenConcat(a[1..], b);
    }
  }

  function Prepend(records: seq<Record>, s: Scan): Scan
  {
    Scan(records + s.records, s.failure)
  }

  /** `s`, then (if `s` did not fail) `rest`. */
  function Chain(s: Scan, rest: Scan): Scan
  {
    if s.failure.Some? then s else Prepend(s.records, rest)
  }

  /** The failure `search` reports when the next record starts at line `at`: its header
      line does not parse, or fewer lines remain than the header claims. */
  predicate FailsAt(parse: Parser, file: string, lines: seq<string>, at: nat, f: SearchError)
  {
    at < |lines| &&
    match parse(lines[at])
    case Failure(e) => f == MalformedLine(lines[at], file, e)
    case Success(h) => at + 1 + Extra(h) > |lines| && f == NotEnoughLines(h.length)
  }

  /** The records of one file from line `from` on: `search`'s inner loop. A header line
      that does not parse, or one that claims more lines than remain, stops the scan. */
  function ScanFile(parse: Parser, file: string, lines: seq<string>, from: nat): Scan
    requires from <= |lines|
    decreases |lines| - from
  {
    if from == |lines| then Scan([], None)
    else
      match parse(lines[from])
      case Failure(e) => Scan([], Some(MalformedLine(lines[from], file, e)))
      case Success(h) =>
        if from + 1 + Extra(h) > |lines| then Scan([], Some(NotEnoughLines(h.length)))
        else Prepend([Record(lines[from], h, lines[from + 1..from + 1 + Extra(h)])],
                     ScanFile(parse, file, lines, from + 1 + Extra(h)))
  }

  /** The records `ScanFile` returns are well formed and are read back to back, nothing
      skipped; reading stops at the first line that does not start a complete record, or
      at the end of the file, and the failure says why. */
  lemma {:induction false} ScanFileSound(parse: Parser, file: string, lines: seq<string>, from: nat)
    requires from <= |lines|
    ensures var r := ScanFile(parse, file, lines, from);
      (forall i :: 0 <= i < |r.records| ==> WellFormed(parse, r.records[i])) &&
      Flatten(r.records) <= lines[from..] &&
      (r.failure.None? <==> Flatten(r.records) == lines[from..]) &&
      (r.failure.Some? ==> FailsAt(parse, file, lines, from + |Flatten(r.records)|, r.failure.value))
    decreases |lines| - from
  {
    var r := ScanFile(parse, file, lines, from);
    if from == |lines| {
      assert r == Scan([], None);
    } else if parse(lines[from]).Failure? {
      assert r.records == [] && r.failure.Some?;
    } else {
      var h := parse(lines[from]).value;
      if from + 1 + Extra(h) > |lines| {
        assert r.records == [] && r.failure.Some?;
      } else {
        var rec := Record(lines[from], h, lines[from + 1..from + 1 + Extra(h)]);
        var next := from + 1 + Extra(h);
        var rest := ScanFile(parse, file, lines, next);
        assert r == Prepend([rec], rest);
        ScanFileSound(parse, file, lines, next);
        RecordThenRest(parse, file, lines, from, rec, next, rest);
      }
    }
  }

  /** The contract of `ScanFile` carries over from the lines after a record to the record's
      own lines. */
  lemma RecordThenRest(parse: Parser, file: string, lines: seq<string>, from: nat, rec: Record, next: nat, rest: Scan)
    requires WellFormed(parse, rec) && next == from + 1 + |rec.body| <= |lines|
    requires lines[from] == rec.line && lines[from + 1..next] == rec.body
    requires forall i :: 0 <= i < |rest.records| ==> WellFormed(parse, rest.records[i])
    requires Flatten(rest.records) <= lines[next..]
    requires rest.failure.None? <==> Flatten(rest.records) == lines[next..]
    requires rest.failure.Some? ==> FailsAt(parse, file, lines, next + |Flatten(rest.records)|, rest.failure.value)
    ensures var r := Prepend([rec], rest);
      (forall i :: 0 <= i < |r.records| ==> WellFormed(parse, r.records[i])) &&
      Flatten(r.records) <= lines[from..] &&
      (r.failure.None? <==> Flatten(r.records) == lines[from..]) &&
      (r.failure.Some? ==> FailsAt(parse, file, lines, from + |Flatten(r.records)|, r.failure.value))
  {
    var records := [rec] + rest.records;
    var head := [rec.line] + rec.body;
    var tail := Flatten(rest.records);
    assert Flatten(records) == head + tail by {
      assert records[1..] == rest.records;
    }
    assert lines[from..] == head + lines[next..] by {
      assert lines[from..next] == head;
    }
    PrefixAfter(head, tail, lines[next..]);
    forall i | 0 <= i < |records| ensures WellFormed(parse, records[i]) {
      if i > 0 { assert records[i] == rest.records[i - 1]; }
    }
  }

  lemma PrefixAfter<T>(head: seq<T>, a: seq<T>, b: seq<T>)
    requires a <= b
    ensures head + a <= head + b
    ensures head + a == head + b <==> a == b
    ensures (head + b)[|head + a|..] == b[|a|..]
  {
    if head + a == head + b {
      assert a == (head + a)[|head|..];
    }
  }

  /** The lines of every file in order, or None if one of them cannot be opened. */
  function Corpus(files: seq<string>, w: World): Option<seq<string>>
  {
    if files == [] then Some([])
    else
      match w.open(files[0])
      case None => None
      case Some(lines) =>
        match Corpus(files[1..], w)
        case None => None
        case Some(more) => Some(lines + more)
  }

  /** The records of all files, in order, up to the first failure. */
  function ScanAll(parse: Parser, files: seq<string>, w: World): Scan
  {
    if files == [] then Scan([], None)
    else
      match w.open(files[0])
      case None => Scan([], Some(OpenFailed(files[0])))
      case Some(lines) => Chain(ScanFile(parse, files[0], lines, 0), ScanAll(parse, files[1..], w))
  }

  /** Every record `ScanAll` returns is well formed, and without a failure every file was
      opened and the records cover all of their lines. */
  lemma {:induction false} ScanAllSound(parse: Parser, files: seq<string>, w: World)
    ensures var r := ScanAll(parse, files, w);
      (forall i :: 0 <= i < |r.records| ==> WellFormed(parse, r.records[i])) &&
      (r.failure.None? ==> Corpus(files, w) == Some(Flatten(r.records)))
  {
    if files != [] && w.open(files[0]).Some? {
      var lines := w.open(files[0]).value;
      var s := ScanFile(parse, files[0], lines, 0);
      var rest := ScanAll(parse, files[1..], w);
      ScanFileSound(parse, files[0], lines, 0);
      ScanAllSound(parse, files[1..], w);
      FlattenConcat(s.records, rest.records);
      var r := Chain(s, rest);
      if s.failure.None? {
        assert r.records == s.records + rest.records;
        forall i | 0 <= i < |r.records| ensures WellFormed(parse, r.records[i]) {
          if i >= |s.records| { assert r.records[i] == rest.records[i - |s.records|]; }
        }
      }
    }
  }

  /** Files are read independently and in order: scanning a list of files is scanning its
      front part and, only if that did not fail, its back part. */
  lemma {:induction false} ScanAllAppend(parse: Parser, files: seq<string>, more: seq<string>, w: World)
    ensures ScanAll(parse, files + more, w) == Chain(ScanAll(parse, files, w), ScanAll(parse, more, w))
  {
    if files == [] {
      assert files + more == more;
    } else {
      var all := files + more;
      assert all[0] == files[0] && all[1..] == files[1..] + more;
      ScanAllAppend(parse, files[1..], more, w);
      if w.open(files[0]).Some? {
        var s := ScanFile(parse, files[0], w.open(files[0]).value, 0);
        ChainAssoc(s, ScanAll(parse, files[1..], w), ScanAll(parse, more, w));
      }
    }
  }

  lemma ChainAssoc(a: Scan, b: Scan, c: Scan)
    ensures Chain(a, Chain(b, c)) == Chain(Chain(a, b), c)
  {
    if a.failure.None? && b.failure.None? {
      assert a.records + (b.records + c.records) == (a.records + b.records) + c.records;
    }
  }

  /** The text of a record's message: the rendered time and the header's text, then the
      continuation lines, joined by newlines. */
  function Message(stamp: DateTime -> string, rec: Record): string
  {
    Join([stamp(rec.header.time) + " " + rec.header.message] + rec.body, "\n")
  }

  /** A message splits back into its first line and its unchanged continuation lines, so a
      well-formed record's message has exactly one line more than its header's count. */
  lemma MessageLines(stamp: DateTime -> string, rec: Record)
    requires |rec.body| == Extra(rec.header)
    requires '\n' !in stamp(rec.header.time) + " " + rec.header.message
    requires forall i :: 0 <= i < |rec.body| ==> '\n' !in rec.body[i]
    ensures Split(Message(stamp, rec), '\n') == [stamp(rec.header.time) + " " + rec.header.message] + rec.body
    ensures |Split(Message(stamp, rec), '\n')| == 1 + Extra(rec.header)
  {
    var parts := [stamp(rec.header.time) + " " + rec.header.message] + rec.body;
    forall i | 0 <= i < |parts| ensures '\n' !in parts[i] {
      if i > 0 { assert parts[i] == rec.body[i - 1]; }
    }
    SplitJoin(parts, '\n');
  }

  /** The messages of `records` that the filter matches, in order. */
  function Shown(records: seq<Record>, w: World, expression: string): seq<string>
  {
    if records == [] then []
    else
      var m := Message(w.stamp, records[|records| - 1]);
      Shown(records[..|records| - 1], w, expression) + (if w.matches(expression, m) then [m] else [])
  }

  /** The `fmt.Println` calls for printing `messages`: a blank line before each but the first. */
  function Printed(messages: seq<string>): seq<Emit>
  {
    if messages == [] then []
    else
      var init := messages[..|messages| - 1];
      Printed(init) + (if init == [] then [] else [Blank]) + [Text(messages[|messages| - 1])]
  }

  /** Printed messages alternate with separators: message k sits at position 2k, a blank
      line at every odd position, none first or last. */
  lemma {:induction false} PrintedShape(messages: seq<string>)
    ensures |Printed(messages)| == if messages == [] then 0 else 2 * |messages| - 1
    ensures forall k :: 0 <= k < |messages| ==> Printed(messages)[2 * k] == Text(messages[k])
    ensures forall k :: 0 <= k < |messages| - 1 ==> Printed(messages)[2 * k + 1] == Blank
  {
    if messages != [] {
      var init := messages[..|messages| - 1];
      PrintedShape(init);
      forall k | 0 <= k < |init| ensures init[k] == messages[k] { }
    }
  }

  function Blanks(out: seq<Emit>): nat
  {
    if out == [] then 0 else Blanks(out[..|out| - 1]) + (if out[|out| - 1] == Blank then 1 else 0)
  }

  /** k printed messages come with exactly k - 1 separators. */
  lemma {:induction false} PrintedBlanks(messages: seq<string>)
    requires messages != []
    ensures Blanks(Printed(messages)) == |messages| - 1
  {
    var init := messages[..|messages| - 1];
    var out := Printed(messages);
    if init == [] {
      assert Printed(init) == [];
      assert out == [Text(messages[0])];
      assert out[..0] == [];
    } else {
      PrintedBlanks(init);
      var before := Printed(init) + [Blank];
      assert out == before + [Text(messages[|messages| - 1])];
      assert out[..|out| - 1] == before;
      assert before[..|before| - 1] == Printed(init);
    }
  }

  /** The text standard output receives: each `fmt.Println` writes its line and a newline. */
  function Stdout(out: seq<Emit>): string
  {
    if out == [] then ""
    else
      Stdout(out[..|out| - 1]) +
      match out[|out| - 1]
      case Blank => "\n"
      case Text(m) => m + "\n"
  }

  /** A separator and one more message add an empty line and the message's line. */
  lemma StdoutSeparated(out: seq<Emit>, last: string)
    ensures Stdout(out + [Blank] + [Text(last)]) == Stdout(out) + "\n" + (last + "\n")
  {
    var before := out + [Blank];
    var all := before + [Text(last)];
    assert all[..|all| - 1] == before;
    assert before[..|before| - 1] == out;
  }

  lemma NewlinesBetween(text: string, last: string)
    ensures (text + "\n") + "\n" + (last + "\n") == text + "\n\n" + last + "\n"
  {
    assert (text + "\n") + "\n" == text + "\n\n";
  }

  /** On standard output the printed messages are separated by one empty line each,
      and the output ends with a newline. */
  lemma {:induction false} StdoutPrinted(messages: seq<string>)
    requires messages != []
    ensures Stdout(Printed(messages)) == Join(messages, "\n\n") + "\n"
  {
    var init := messages[..|messages| - 1];
    var last := messages[|messages| - 1];
    assert messages == init + [last];
    if init == [] {
      assert Printed(messages) == [Text(last)];
      assert [Text(last)][..0] == [];
    } else {
      PrintedSnoc(init, last);
      StdoutSeparated(Printed(init), last);
      StdoutPrinted(init);
      JoinSnoc(init, last, "\n\n");
      NewlinesBetween(Join(init, "\n\n"), last);
    }
  }

  /** `search` as a whole: the glob, the empty-list check and the expression are settled
      before any file is opened; then every record read before the first failure is
      matched and the matching ones printed. */
  function SearchSpec(path: string, channel: string, filters: seq<string>, w: World): Run
  {
    match w.glob(GlobPattern(path, channel))
    case None => Run([], Some(GlobFailed(channel)))
    case Some(files) =>
      if files == [] then Run([], Some(NoHistoryFiles(path, channel)))
      else
        var expression := Expression(filters);
        if !w.compiles(expression) then Run([], Some(BadExpression(expression)))
        else
          var s := ScanAll(ParseHeader, files, w);
          Run(Printed(Shown(s.records, w, expression)), s.failure)
  }

  /** A glob error, an empty file list and an expression that does not compile are all
      reported before any file is opened, in that order of precedence: such a run prints
      nothing, and what it reports depends on the glob and the compiler alone, not on any
      file, the matcher or the rendering. */
  lemma ChecksBeforeOpening(path: string, channel: string, filters: seq<string>, w: World, v: World)
    requires w.glob == v.glob && w.compiles == v.compiles
    requires var found := w.glob(GlobPattern(path, channel));
      found.None? || found.value == [] || !w.compiles(Expression(filters))
    ensures SearchSpec(path, channel, filters, w) == SearchSpec(path, channel, filters, v)
    ensures SearchSpec(path, channel, filters, w).output == []
    ensures var found := w.glob(GlobPattern(path, channel));
      found.None? ==> SearchSpec(path, channel, filters, w).failure == Some(GlobFailed(channel))
    ensures var found := w.glob(GlobPattern(path, channel));
      found == Some([]) ==> SearchSpec(path, channel, filters, w).failure == Some(NoHistoryFiles(path, channel))
    ensures var found := w.glob(GlobPattern(path, channel));
      found.Some? && found.value != [] && !w.compiles(Expression(filters)) ==>
        SearchSpec(path, channel, filters, w).failure == Some(BadExpression(Expression(filters)))
  {
  }

  lemma ChainPrepend(records: seq<Record>, s: Scan, after: Scan)
    ensures Chain(Prepend(records, s), after) == Prepend(records, Chain(s, after))
  {
    if s.failure.None? {
      assert records + (s.records + after.records) == (records + s.records) + after.records;
    }
  }

  /** `ScanFile` from line `i` on, unfolded once. */
  lemma ScanFileAt(parse: Parser, file: string, stream: seq<string>, i: nat)
    requires i <= |stream|
    ensures i == |stream| ==> ScanFile(parse, file, stream, i) == Scan([], None)
    ensures i < |stream| ==>
      match parse(stream[i])
      case Failure(e) => ScanFile(parse, file, stream, i) == Scan([], Some(MalformedLine(stream[i], file, e)))
      case Success(h) =>
        if i + 1 + Extra(h) > |stream| then
          ScanFile(parse, file, stream, i) == Scan([], Some(NotEnoughLines(h.length)))
        else
          ScanFile(parse, file, stream, i) ==
          Prepend([Record(stream[i], h, stream[i + 1..i + 1 + Extra(h)])], ScanFile(parse, file, stream, i + 1 + Extra(h)))
  {
  }

  /** Moving one record from what is left to read to what has been read. */
  lemma StepRecord(done: seq<Record>, rec: Record, next: Scan, after: Scan)
    ensures Prepend(done, Chain(Prepend([rec], next), after)) == Prepend(done + [rec], Chain(next, after))
  {
    ChainPrepend([rec], next, after);
    assert done + ([rec] + Chain(next, after).records) == (done + [rec]) + Chain(next, after).records;
  }

  /** The messages shown grow by the new record's message exactly when it matches. */
  lemma ShownSnoc(records: seq<Record>, rec: Record, w: World, expression: string)
    ensures Shown(records + [rec], w, expression) == Shown(records, w, expression) +
      (if w.matches(expression, Message(w.stamp, rec)) then [Message(w.stamp, rec)] else [])
  {
    assert (records + [rec])[..|records|] == records;
  }

  lemma PrintedSnoc(messages: seq<string>, m: string)
    ensures Printed(messages + [m]) == Printed(messages) + (if messages == [] then [] else [Blank]) + [Text(m)]
  {
    assert (messages + [m])[..|messages|] == messages;
  }

  /** `ScanAll` from file `f` on, when that file opens or does not. */
  lemma ScanAllFrom(parse: Parser, files: seq<string>, f: nat, w: World)
    requires f < |files|
    ensures ScanAll(parse, files[f..], w) ==
      match w.open(files[f])
      case None => Scan([], Some(OpenFailed(files[f])))
      case Some(lines) => Chain(ScanFile(parse, files[f], lines, 0), ScanAll(parse, files[f + 1..], w))
  {
    assert files[f..][0] == files[f] && files[f..][1..] == files[f + 1..];
  }

  /** The `for i < header.Length` loop of `search`: after the header line at `start`, read
      the header's continuation lines one by one behind `first`, the message's first line.
      It fails exactly when the stream ends before all of them were read; otherwise
      `next` is the line after the last continuation line. */
  method ReadContinuation(stream: seq<string>, start: nat, header: Header, first: string)
    returns (lines: seq<string>, next: nat, complete: bool)
    requires start < |stream|
    ensures complete <==> start + 1 + Extra(header) <= |stream|
    ensures complete ==> next == start + 1 + Extra(header)
    ensures complete ==> lines == [first] + stream[start + 1..next]
  {
    lines := [first];
    next := start + 1;
    assert lines == lines + stream[start + 1..next];
    var k := 0;
    while k < header.length
      invariant 0 <= k <= Extra(header)
      invariant next == start + 1 + k <= |stream|
      invariant lines == [first] + stream[start + 1..next]
    {
      if next >= |stream| {
        return lines, next, false;
      }
      assert stream[start + 1..next + 1] == stream[start + 1..next] + [stream[next]];
      lines := lines + [stream[next]];
      next := next + 1;
      k := k + 1;
    }
    complete := true;
  }

  /** `search`: the file list, the empty-list check and the expression come first; what it
      prints and returns is `SearchSpec`. */
  method Search(path: string, channel: string, filters: seq<string>, w: World)
    returns (out: seq<Emit>, failure: Option<SearchError>)
    ensures Run(out, failure) == SearchSpec(path, channel, filters, w)
  {
    var found := w.glob(GlobPattern(path, channel));
    if found.None? {
      return [], Some(GlobFailed(channel));
    }
    var files := found.value;
    if |files| == 0 {
      return [], Some(NoHistoryFiles(path, channel));
    }
    var expression := Expression(filters);
    if !w.compiles(expression) {
      return [], Some(BadExpression(expression));
    }
    out, failure := PrintMatches(ParseHeader, files, w, expression);
  }

  /** The file loop of `search`, with the separator flag kept across files: every record of
      every file is read in turn, and a blank line is printed before a matching message
      exactly when an earlier message of the run was printed. */
  method PrintMatches(parse: Parser, files: seq<string>, w: World, expression: string)
    returns (out: seq<Emit>, failure: Option<SearchError>)
    ensures Run(out, failure) ==
      Run(Printed(Shown(ScanAll(parse, files, w).records, w, expression)), ScanAll(parse, files, w).failure)
  {
    var separator := false;
    out, failure := [], None;
    ghost var done: seq<Record> := [];
    assert files[0..] == files && [] + ScanAll(parse, files, w).records == ScanAll(parse, files, w).records;
    var f := 0;
    while f < |files|
      invariant 0 <= f <= |files|
      invariant ScanAll(parse, files, w) == Prepend(done, ScanAll(parse, files[f..], w))
      invariant out == Printed(Shown(done, w, expression))
      invariant separator == (Shown(done, w, expression) != [])
    {
      var file := files[f];
      var handle := w.open(file);
      ScanAllFrom(parse, files, f, w);
      if handle.None? {
        assert done + [] == done;
        return out, Some(OpenFailed(file));
      }
      var stream := handle.value;
      var i := 0;
      assert ScanAll(parse, files, w) == Prepend(done, Chain(ScanFile(parse, file, stream, i), ScanAll(parse, files[f + 1..], w)));
      while i < |stream|
        invariant 0 <= i <= |stream|
        invariant ScanAll(parse, files, w) == Prepend(done, Chain(ScanFile(parse, file, stream, i), ScanAll(parse, files[f + 1..], w)))
        invariant out == Printed(Shown(done, w, expression))
        invariant separator == (Shown(done, w, expression) != [])
      {
        var start := i;
        var parsed := parse(stream[i]);
        ScanFileAt(parse, file, stream, i);
        if parsed.Failure? {
          assert done + [] == done;
          return out, Some(MalformedLine(stream[i], file, parsed.error));
        }
        var header := parsed.value;
        var lines, next, complete := ReadContinuation(stream, i, header, w.stamp(header.time) + " " + header.message);
        if !complete {
          assert done + [] == done;
          return out, Some(NotEnoughLines(header.length));
        }
        i := next;
        var message := Join(lines, "\n");
        var rec := Record(stream[start], header, stream[start + 1..i]);
        assert message == Message(w.stamp, rec);
        assert ScanFile(parse, file, stream, start) == Prepend([rec], ScanFile(parse, file, stream, i));
        StepRecord(done, rec, ScanFile(parse, file, stream, i), ScanAll(parse, files[f + 1..], w));
        ghost var shown := Shown(done, w, expression);
        ShownSnoc(done, rec, w, expression);
        PrintedSnoc(shown, message);
        done := done + [rec];
        if w.matches(expression, message) {
          assert Shown(done, w, expression) == shown + [message];
          if separator {
            out := out + [Blank];
          }
          out := out + [Text(message)];
          separator := true;
        } else {
          assert Shown(done, w, expression) == shown;
        }
      }
      ScanFileAt(parse, file, stream, i);
      ghost var after := ScanAll(parse, files[f + 1..], w);
      assert Chain(Scan([], None), after) == after by {
        assert [] + after.records == after.records;
      }
      f := f + 1;
    }
    assert files[f..] == [] && done + [] == done;
  }
}
