/** The structured-stderr reader of src/diffing.rs:18-96 (`split_stderr` and
    `dedup_log`): a parser's stderr is cut into lines, each line is classified
    by its first four bytes, the `@nix` records are decoded, bucketed by
    level, and folded into one `CompLog` (message -> positions) per bucket.

    JSON decoding is a parameter `json` (a partial function from the bytes
    after `@nix ` to a record), standing for `serde_json::from_str`. */
module LogParser {
  import opened Common
  import Normalizer

  type Message = string
  type Position = string

  /** The set of positions one message was reported at (`Finds`). */
  type Finds = set<Position>

  /** Diagnostics of one severity, keyed by normalised message. */
  type CompLog = map<Message, Finds>

  /** `level` is an `i16` in the record. */
  type Int16 = x: int | -0x8000 <= x < 0x8000

  /** One decoded `@nix` record (`LogEntry`). */
  datatype LogEntry = LogEntry(
    action: string,
    file: Option<string>,
    level: Int16,
    msg: Message,
    rawMsg: Option<Message>)

  /** The ways comparing one file can go wrong. `InvalidUtf8` is an error
      returned with `?`; the other three are panics (`todo!()` and `unwrap()`). */
  datatype Failure =
    | InvalidUtf8
    | UnsupportedLinePrefix(prefix: Bytes)
    | UnsupportedAction(action: string)
    | MissingPayload
  {
    predicate IsPanic() {
      !InvalidUtf8?
    }
  }

  const Newline: Byte := 10

  /** The bytes of `@nix`. */
  const NixTag: Bytes := [64, 110, 105, 120]

  /** What one stderr line contributes to the reader. */
  datatype LineKind =
    | Ignored                       // no 4-byte prefix
    | Malformed                     // `@nix` line whose JSON does not decode
    | Record(entry: LogEntry)       // `@nix` line with action "msg"
    | Fatal(failure: Failure)       // any line that makes the reader panic

  /** `str::is_char_boundary` on the UTF-8 bytes of a line. */
  predicate IsCharBoundary(line: Bytes, k: nat) {
    k <= |line| && (k == 0 || k == |line| || line[k] < 0x80 || line[k] >= 0xC0)
  }

  /** The `match` of src/diffing.rs:61-79 on one line. `line.get(0..4)` is
      `None` unless the line has four bytes ending on a character boundary;
      `line.get(5..)` likewise needs byte 5 to be a boundary. */
  function Classify(line: Bytes, json: Bytes -> Option<LogEntry>): LineKind
  {
    if !IsCharBoundary(line, 4) then Ignored
    else if line[..4] != NixTag then Fatal(UnsupportedLinePrefix(line[..4]))
    else if !IsCharBoundary(line, 5) then Fatal(MissingPayload)
    else match json(line[5..])
      case None => Malformed
      case Some(e) => if e.action != "msg" then Fatal(UnsupportedAction(e.action)) else Record(e)
  }

  /** What one line adds to the walk: its record, nothing, or a panic. */
  function LineResult(kind: LineKind): Result<seq<LogEntry>, Failure> {
    match kind
    case Fatal(f) => Err(f)
    case Record(e) => Ok([e])
    case _ => Ok([])
  }

  /** Run one part of the walk, then the next, stopping at the first panic. */
  function AndThen(first: Result<seq<LogEntry>, Failure>, next: Result<seq<LogEntry>, Failure>)
    : Result<seq<LogEntry>, Failure>
  {
    if first.Err? then first
    else if next.Err? then next
    else Ok(first.value + next.value)
  }

  /** The line walk of src/diffing.rs:60-80: the records of the lines in order,
      or the failure of the first line that panics. */
  function ScanLines(lines: seq<Bytes>, json: Bytes -> Option<LogEntry>): Result<seq<LogEntry>, Failure>
    decreases |lines|
  {
    if |lines| == 0 then Ok([])
    else AndThen(LineResult(Classify(lines[0], json)), ScanLines(lines[1..], json))
  }

  /** No line of `lines` panics. */
  predicate NoFatalLine(lines: seq<Bytes>, json: Bytes -> Option<LogEntry>) {
    forall i :: 0 <= i < |lines| ==> !Classify(lines[i], json).Fatal?
  }

  /** The walk fails exactly when some line panics, with the failure of the
      first such line; otherwise it yields exactly the records of the lines. */
  lemma {:induction false} ScanLinesMeaning(lines: seq<Bytes>, json: Bytes -> Option<LogEntry>)
    ensures var r := ScanLines(lines, json);
      && (r.Ok? <==> NoFatalLine(lines, json))
      && (r.Err? ==> exists i :: 0 <= i < |lines| && Classify(lines[i], json) == Fatal(r.error)
                        && forall j :: 0 <= j < i ==> !Classify(lines[j], json).Fatal?)
      && (r.Ok? ==> forall e :: e in r.value <==> exists i :: 0 <= i < |lines| && Classify(lines[i], json) == Record(e))
    decreases |lines|
  {
    if |lines| > 0 {
      ScanLinesMeaning(lines[1..], json);
      var r := ScanLines(lines, json);
      var rest := ScanLines(lines[1..], json);
      var c := Classify(lines[0], json);
      assert forall i :: 1 <= i < |lines| ==> lines[1..][i - 1] == lines[i];
      if r.Err? && !c.Fatal? {
        var i :| 0 <= i < |lines[1..]| && Classify(lines[1..][i], json) == Fatal(rest.error)
                 && forall j :: 0 <= j < i ==> !Classify(lines[1..][j], json).Fatal?;
        assert Classify(lines[i + 1], json) == Fatal(r.error);
      }
      if r.Ok? {
        forall e ensures e in r.value <==> exists i :: 0 <= i < |lines| && Classify(lines[i], json) == Record(e) {
          if e in r.value && !(c.Record? && c.entry == e) {
            var i :| 0 <= i < |lines[1..]| && Classify(lines[1..][i], json) == Record(e);
            assert Classify(lines[i + 1], json) == Record(e);
          }
          if exists i :: 0 <= i < |lines| && Classify(lines[i], json) == Record(e) {
            var i :| 0 <= i < |lines| && Classify(lines[i], json) == Record(e);
            if i > 0 {
              assert Classify(lines[1..][i - 1], json) == Record(e);
            }
          }
        }
      }
    }
  }

  /** Reading a concatenation of line lists reads the first part, then the
      second. */
  lemma {:induction false} ScanLinesAppend(a: seq<Bytes>, b: seq<Bytes>, json: Bytes -> Option<LogEntry>)
    ensures ScanLines(a + b, json) == AndThen(ScanLines(a, json), ScanLines(b, json))
    decreases |a|
  {
    if |a| == 0 {
      assert a + b == b;
      AndThenUnit(ScanLines(b, json));
    } else {
      ScanLinesAppend(a[1..], b, json);
      assert (a + b)[1..] == a[1..] + b;
      assert (a + b)[0] == a[0];
      AndThenAssociative(LineResult(Classify(a[0], json)), ScanLines(a[1..], json), ScanLines(b, json));
    }
  }

  lemma AndThenUnit(x: Result<seq<LogEntry>, Failure>)
    ensures AndThen(Ok([]), x) == x
  {
    if x.Ok? {
      assert [] + x.value == x.value;
    }
  }

  lemma AndThenAssociative(x: Result<seq<LogEntry>, Failure>, y: Result<seq<LogEntry>, Failure>,
                           z: Result<seq<LogEntry>, Failure>)
    ensures AndThen(AndThen(x, y), z) == AndThen(x, AndThen(y, z))
  {
    if x.Ok? && y.Ok? && z.Ok? {
      assert (x.value + y.value) + z.value == x.value + (y.value + z.value);
    }
  }

  /** A line that is too short or whose JSON does not decode is dropped, and
      the lines after it are still read. */
  lemma SkippedLineIsDropped(pre: seq<Bytes>, line: Bytes, post: seq<Bytes>, json: Bytes -> Option<LogEntry>)
    requires Classify(line, json) == Ignored || Classify(line, json) == Malformed
    ensures ScanLines(pre + [line] + post, json) == ScanLines(pre + post, json)
  {
    ScanLinesAppend(pre, [line] + post, json);
    ScanLinesAppend(pre, post, json);
    assert pre + [line] + post == pre + ([line] + post);
    assert ([line] + post)[1..] == post;
    AndThenUnit(ScanLines(post, json));
  }

  /** The bucket of a record's level: 0 errors, 1 warnings, anything else
      (negative levels included) traces. */
  datatype Severity = Error | Warning | Trace

  function SeverityOf(level: Int16): Severity {
    if level == 0 then Error else if level == 1 then Warning else Trace
  }

  /** The records of one bucket, in their original order. */
  function Select(logs: seq<LogEntry>, sev: Severity): (r: seq<LogEntry>)
    ensures forall e :: e in r <==> e in logs && SeverityOf(e.level) == sev
    ensures |r| <= |logs|
    decreases |logs|
  {
    if |logs| == 0 then []
    else
      var rest := Select(logs[1..], sev);
      assert forall e :: e in logs <==> e == logs[0] || e in logs[1..];
      if SeverityOf(logs[0].level) == sev then [logs[0]] + rest else rest
  }

  /** The key of a record: its normalised `raw_msg`, or `msg` when absent. */
  function Key(e: LogEntry): Message {
    Normalizer.Simplify(if e.rawMsg.Some? then e.rawMsg.value else e.msg)
  }

  /** The position of a record: its `file`, or the input's path when absent. */
  function PositionOf(e: LogEntry, path: Position): Position {
    if e.file.Some? then e.file.value else path
  }

  /** No message is mapped to an empty set of positions. */
  predicate WellFormed(log: CompLog) {
    forall m :: m in log ==> log[m] != {}
  }

  ghost predicate Reported(entries: seq<LogEntry>, path: Position, m: Message, p: Position) {
    exists e :: e in entries && Key(e) == m && PositionOf(e, path) == p
  }

  /** `hm.entry(k).or_insert(..).positions.insert(p)`. */
  function Insert(hm: CompLog, k: Message, p: Position): CompLog {
    hm[k := (if k in hm then hm[k] else {}) + {p}]
  }

  /** `dedup_log` (src/diffing.rs:39-52): the log maps exactly the keys of the
      records, each to exactly the positions it was reported at. */
  function Dedup(entries: seq<LogEntry>, path: Position): (r: CompLog)
    ensures r.Keys == set e | e in entries :: Key(e)
    ensures forall m, p :: m in r ==> (p in r[m] <==> Reported(entries, path, m, p))
    ensures WellFormed(r)
    decreases |entries|
  {
    if |entries| == 0 then
      NoKeys(entries);
      map[]
    else
      var init := entries[..|entries| - 1];
      var e := entries[|entries| - 1];
      var hm := Dedup(init, path);
      DedupStep(entries, init, e, path, hm);
      Insert(hm, Key(e), PositionOf(e, path))
  }

  lemma NoKeys(entries: seq<LogEntry>)
    requires |entries| == 0
    ensures (set e | e in entries :: Key(e)) == {}
  {
  }

  /** One more record adds its key and its position, and nothing else. */
  lemma DedupStep(entries: seq<LogEntry>, init: seq<LogEntry>, e: LogEntry, path: Position, hm: CompLog)
    requires |entries| > 0 && init == entries[..|entries| - 1] && e == entries[|entries| - 1]
    requires hm.Keys == set x | x in init :: Key(x)
    requires forall m, p :: m in hm ==> (p in hm[m] <==> Reported(init, path, m, p))
    requires WellFormed(hm)
    ensures var r := Insert(hm, Key(e), PositionOf(e, path));
      && r.Keys == (set x | x in entries :: Key(x))
      && (forall m, p :: m in r ==> (p in r[m] <==> Reported(entries, path, m, p)))
      && WellFormed(r)
  {
    LastSplit(entries);
    StepKeys(entries, init, e, hm);
    var r := Insert(hm, Key(e), PositionOf(e, path));
    forall m, p | m in r ensures p in r[m] <==> Reported(entries, path, m, p) {
      StepReported(entries, init, e, path, m, p);
    }
  }

  /** The elements of a non-empty sequence: those before its last, and its last. */
  lemma LastSplit<T>(s: seq<T>)
    requires |s| > 0
    ensures forall x :: x in s <==> x in s[..|s| - 1] || x == s[|s| - 1]
  {
    assert s == s[..|s| - 1] + [s[|s| - 1]];
  }

  /** The keys after one more record: the earlier keys and the record's own. */
  lemma StepKeys(entries: seq<LogEntry>, init: seq<LogEntry>, e: LogEntry, hm: CompLog)
    requires forall x :: x in entries <==> x in init || x == e
    requires hm.Keys == set x | x in init :: Key(x)
    ensures hm.Keys + {Key(e)} == set x | x in entries :: Key(x)
  {
  }

  /** What one more record reports: what the earlier ones did, and its own key
      at its own position. */
  lemma StepReported(entries: seq<LogEntry>, init: seq<LogEntry>, e: LogEntry, path: Position, m: Message, p: Position)
    requires forall x :: x in entries <==> x in init || x == e
    ensures Reported(entries, path, m, p) <==> Reported(init, path, m, p) || (Key(e) == m && PositionOf(e, path) == p)
  {
    if Reported(init, path, m, p) {
      var x :| x in init && Key(x) == m && PositionOf(x, path) == p;
      assert x in entries;
    }
    if Reported(entries, path, m, p) {
      var x :| x in entries && Key(x) == m && PositionOf(x, path) == p;
      if x != e {
        assert Reported(init, path, m, p);
      }
    }
  }

  /** The order of the records, and repetitions, do not change the log. */
  lemma DedupOrderIrrelevant(a: seq<LogEntry>, b: seq<LogEntry>, path: Position)
    requires forall e :: e in a <==> e in b
    ensures Dedup(a, path) == Dedup(b, path)
  {
    SameRecordsSameLog(a, b, path, Dedup(a, path), Dedup(b, path));
  }

  /** Two logs that each hold exactly what their records report are equal
      when the records are. */
  lemma SameRecordsSameLog(a: seq<LogEntry>, b: seq<LogEntry>, path: Position, ra: CompLog, rb: CompLog)
    requires forall e :: e in a <==> e in b
    requires ra.Keys == set e | e in a :: Key(e)
    requires forall m, p :: m in ra ==> (p in ra[m] <==> Reported(a, path, m, p))
    requires rb.Keys == set e | e in b :: Key(e)
    requires forall m, p :: m in rb ==> (p in rb[m] <==> Reported(b, path, m, p))
    ensures ra == rb
  {
    SameKeys(a, b);
    assert ra.Keys == rb.Keys;
    forall m | m in ra ensures ra[m] == rb[m] {
      forall p ensures p in ra[m] <==> p in rb[m] {
        ReportedSameRecords(a, b, path, m, p);
      }
    }
  }

  lemma SameKeys(a: seq<LogEntry>, b: seq<LogEntry>)
    requires forall e :: e in a <==> e in b
    ensures (set e | e in a :: Key(e)) == (set e | e in b :: Key(e))
  {
  }

  lemma ReportedSameRecords(a: seq<LogEntry>, b: seq<LogEntry>, path: Position, m: Message, p: Position)
    requires forall e :: e in a <==> e in b
    ensures Reported(a, path, m, p) <==> Reported(b, path, m, p)
  {
    if Reported(a, path, m, p) {
      var e :| e in a && Key(e) == m && PositionOf(e, path) == p;
      assert e in b;
    }
    if Reported(b, path, m, p) {
      var e :| e in b && Key(e) == m && PositionOf(e, path) == p;
      assert e in a;
    }
  }

  /** `split_stderr` (src/diffing.rs:54-95): the error, warning and trace logs
      of one stderr, or the failure of its first offending line. */
  function SplitStderr(stderr: Bytes, path: Position, json: Bytes -> Option<LogEntry>)
    : Result<(CompLog, CompLog, CompLog), Failure>
  {
    match ScanLines(Split(stderr, Newline), json)
    case Err(f) => Err(f)
    case Ok(logs) => Ok((Dedup(Select(logs, Error), path),
                         Dedup(Select(logs, Warning), path),
                         Dedup(Select(logs, Trace), path)))
  }

  /** The log of one severity as a property of the stderr's lines: message m
      is reported at p exactly when some line holds a record of that severity
      with key m and position p. */
  ghost predicate LineReports(lines: seq<Bytes>, json: Bytes -> Option<LogEntry>, sev: Severity,
                              path: Position, m: Message, p: Position) {
    exists i, e :: 0 <= i < |lines| && Classify(lines[i], json) == Record(e)
      && SeverityOf(e.level) == sev && Key(e) == m && PositionOf(e, path) == p
  }

  function LogOf(logs: (CompLog, CompLog, CompLog), sev: Severity): CompLog {
    match sev
    case Error => logs.0
    case Warning => logs.1
    case Trace => logs.2
  }

  /** The reader fails exactly when a line panics, and otherwise each
      severity's log holds exactly what the lines of that severity report,
      with no empty position sets. */
  lemma SplitStderrMeaning(stderr: Bytes, path: Position, json: Bytes -> Option<LogEntry>, sev: Severity)
    ensures var lines := Split(stderr, Newline);
      SplitStderr(stderr, path, json).Ok? <==> NoFatalLine(lines, json)
    ensures SplitStderr(stderr, path, json).Ok? ==>
      var log := LogOf(SplitStderr(stderr, path, json).value, sev);
      && WellFormed(log)
      && forall m, p :: (m in log && p in log[m]) <==> LineReports(Split(stderr, Newline), json, sev, path, m, p)
  {
    var lines := Split(stderr, Newline);
    var r := ScanLines(lines, json);
    ScanLinesMeaning(lines, json);
    assert SplitStderr(stderr, path, json).Ok? == r.Ok?;
    if r.Ok? {
      SplitStderrLog(stderr, path, json, sev, r.value);
      RecordsReported(lines, json, r.value, sev, path);
    }
  }

  /** A successful reader's log of one severity groups that severity's records. */
  lemma SplitStderrLog(stderr: Bytes, path: Position, json: Bytes -> Option<LogEntry>, sev: Severity,
                       logs: seq<LogEntry>)
    requires ScanLines(Split(stderr, Newline), json) == Ok(logs)
    ensures SplitStderr(stderr, path, json).Ok?
    ensures LogOf(SplitStderr(stderr, path, json).value, sev) == Dedup(Select(logs, sev), path)
  {
  }

  /** The records a successful scan keeps, bucketed and grouped, report
      exactly what the lines report. */
  lemma RecordsReported(lines: seq<Bytes>, json: Bytes -> Option<LogEntry>, logs: seq<LogEntry>,
                        sev: Severity, path: Position)
    requires forall e :: e in logs <==> exists i :: 0 <= i < |lines| && Classify(lines[i], json) == Record(e)
    ensures var log := Dedup(Select(logs, sev), path);
      forall m, p :: (m in log && p in log[m]) <==> LineReports(lines, json, sev, path, m, p)
  {
    var sel := Select(logs, sev);
    var log := Dedup(sel, path);
    forall m, p ensures (m in log && p in log[m]) <==> LineReports(lines, json, sev, path, m, p) {
      if m in log && p in log[m] {
        var e :| e in sel && Key(e) == m && PositionOf(e, path) == p;
        var i :| 0 <= i < |lines| && Classify(lines[i], json) == Record(e);
      }
      if LineReports(lines, json, sev, path, m, p) {
        var i, e :| 0 <= i < |lines| && Classify(lines[i], json) == Record(e)
          && SeverityOf(e.level) == sev && Key(e) == m && PositionOf(e, path) == p;
        assert e in sel;
        assert Reported(sel, path, m, p);
      }
    }
  }

  /** Empty stderr yields three empty logs. */
  lemma EmptyStderr(path: Position, json: Bytes -> Option<LogEntry>)
    ensures SplitStderr([], path, json) == Ok((map[], map[], map[]))
  {
    var lines := Split([], Newline);
    assert lines == [[]];
    assert Classify([], json) == Ignored;
    assert ScanLines(lines[1..], json) == Ok([]);
    AndThenUnit(Ok([]));
    assert ScanLines(lines, json) == Ok([]);
  }

  /** A line of the form `@nix <payload>` whose payload decodes to a "msg"
      record yields that record; one whose payload does not decode is dropped;
      one with another action panics naming it. */
  lemma TaggedLine(payload: Bytes, json: Bytes -> Option<LogEntry>)
    requires |payload| == 0 || payload[0] < 0x80 || payload[0] >= 0xC0
    ensures var line := NixTag + [32] + payload;
      Classify(line, json) ==
        match json(payload)
        case None => Malformed
        case Some(e) => if e.action == "msg" then Record(e) else Fatal(UnsupportedAction(e.action))
  {
    var line := NixTag + [32] + payload;
    assert line[..4] == NixTag;
    assert line[5..] == payload;
  }

  /** A line whose `@nix` is followed at once by a multi-byte character (as
      in `@nixé`) panics on its missing payload: byte 5 lies inside that
      character. */
  lemma TaggedLineMidCharacter(lead: Byte, rest: Bytes, json: Bytes -> Option<LogEntry>)
    requires lead >= 0xC0 && |rest| > 0 && 0x80 <= rest[0] < 0xC0
    ensures Classify(NixTag + [lead] + rest, json) == Fatal(MissingPayload)
  {
    var line := NixTag + [lead] + rest;
    assert line[..4] == NixTag;
    assert line[4] == lead && line[5] == rest[0];
  }

  /** A line of at least four bytes whose first four are not `@nix` panics
      when they end on a character boundary, and is ignored otherwise; a bare
      `@nix` panics on its missing payload. */
  lemma UntaggedLine(line: Bytes, json: Bytes -> Option<LogEntry>)
    requires |line| >= 4 && line[..4] != NixTag
    ensures Classify(line, json) ==
      if |line| == 4 || line[4] < 0x80 || line[4] >= 0xC0 then Fatal(UnsupportedLinePrefix(line[..4])) else Ignored
    ensures Classify(NixTag, json) == Fatal(MissingPayload)
  {
  }

  /** A line followed by a newline splits into the line and an empty line. */
  lemma SplitOneLine(line: Bytes)
    requires Newline !in line
    ensures Split(line + [Newline], Newline) == [line, []]
  {
    SplitAtSeparator(line, [], Newline);
    assert line + [Newline] + [] == line + [Newline];
  }

  /** A single record makes a one-entry log. */
  lemma DedupSingle(e: LogEntry, path: Position)
    ensures Dedup([e], path) == map[Key(e) := {PositionOf(e, path)}]
  {
    assert [e][..0] == [];
    assert Dedup([], path) == map[];
    assert {} + {PositionOf(e, path)} == {PositionOf(e, path)};
  }

  /** Scenario: one error record with `file` set to "pkg.nix" and message
      "syntax error", followed by a newline. */
  lemma SingleErrorRecord(payload: Bytes, path: Position, json: Bytes -> Option<LogEntry>)
    requires Newline !in payload
    requires |payload| > 0 && payload[0] == 123
    requires json(payload) == Some(LogEntry("msg", Some("pkg.nix"), 0, "syntax error", Some("syntax error")))
    ensures SplitStderr(NixTag + [32] + payload + [Newline], path, json)
         == Ok((map["syntax error" := {"pkg.nix"}], map[], map[]))
  {
    var line := NixTag + [32] + payload;
    var e := LogEntry("msg", Some("pkg.nix"), 0, "syntax error", Some("syntax error"));
    assert Newline !in line by {
      forall j | 0 <= j < |line| ensures line[j] != Newline {
        if j < 4 {
          assert line[j] == NixTag[j];
        } else if j > 4 {
          assert line[j] == payload[j - 5];
        }
      }
    }
    SplitOneLine(line);
    TaggedLine(payload, json);
    var lines := [line, []];
    assert ScanLines(lines, json) == Ok([e]) by {
      assert Classify(line, json) == Record(e);
      assert Classify([], json) == Ignored;
      assert lines[1..] == [[]];
      assert ScanLines([], json) == Ok([]);
      AndThenUnit(Ok([]));
      assert ScanLines([[]], json) == Ok([]);
      assert [e] + [] == [e];
      assert AndThen(Ok([e]), Ok([])) == Ok([e]);
    }
    assert Key(e) == "syntax error" by {
      Normalizer.SimplifyWithoutMarker("syntax error");
    }
    assert Select([e], Error) == [e];
    assert Select([e], Warning) == [];
    assert Select([e], Trace) == [];
    DedupSingle(e, path);
  }
}
