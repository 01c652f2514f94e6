/** The per-file comparison of src/diffing.rs:98-293: the position-level
    difference of two logs (`Diff::<CompLog>::from`), the record of facets on
    which two parser runs disagree (`ParserDiff`), its merge rules, and the
    comparison of two captured process outputs (`diff_stderr` and the pure
    part of `diff_file`).

    Process spawning is not modelled: each run is an already-captured
    `ProcessOutput`. UTF-8 decoding is a parameter `utf8`, JSON decoding a
    parameter `json`. */
module Diffing {
  import opened Common
  import opened LogParser

  /** The two sides of a disagreement (`Diff<T>`). */
  datatype Diff<T> = Diff(resultA: T, resultB: T)

  const NoLogDiff: Diff<CompLog> := Diff(map[], map[])

  /** The positions of each message of `a` that `b` lacks (`extract`); a
      message `b` does not have at all keeps its whole set. */
  function Extract(a: CompLog, b: CompLog): CompLog
  {
    map m | m in a && (m !in b || a[m] - b[m] != {}) :: if m in b then a[m] - b[m] else a[m]
  }

  lemma ExtractMeaning(a: CompLog, b: CompLog)
    ensures forall m, p :: (m in Extract(a, b) && p in Extract(a, b)[m]) <==> (m in a && p in a[m] && (m !in b || p !in b[m]))
  {
    forall m, p | m in a && p in a[m] && (m !in b || p !in b[m]) ensures m in Extract(a, b) && p in Extract(a, b)[m] {
      if m in b {
        assert p in a[m] - b[m];
      }
    }
  }

  /** `Diff::<CompLog>::from` (src/diffing.rs:131-163): the per-message
      position-level symmetric difference, split by side. */
  function DiffLogs(a: CompLog, b: CompLog): (r: Diff<CompLog>)
    ensures forall m, p :: (m in r.resultA && p in r.resultA[m]) <==> (m in a && p in a[m] && (m !in b || p !in b[m]))
    ensures forall m, p :: (m in r.resultB && p in r.resultB[m]) <==> (m in b && p in b[m] && (m !in a || p !in a[m]))
    ensures forall m :: m in r.resultA ==> m in a && r.resultA[m] <= a[m]
    ensures forall m :: m in r.resultB ==> m in b && r.resultB[m] <= b[m]
    ensures WellFormed(a) ==> WellFormed(r.resultA)
    ensures WellFormed(b) ==> WellFormed(r.resultB)
  {
    ExtractMeaning(a, b);
    ExtractMeaning(b, a);
    Diff(Extract(a, b), Extract(b, a))
  }

  /** A log compared with itself shows no difference. */
  lemma DiffLogsSelf(a: CompLog)
    ensures DiffLogs(a, a) == NoLogDiff
  {
    assert Extract(a, a) == map[];
  }

  /** For logs without empty position sets, the difference is empty on both
      sides exactly when the logs are equal. */
  lemma DiffLogsEmptyIff(a: CompLog, b: CompLog)
    requires WellFormed(a) && WellFormed(b)
    ensures DiffLogs(a, b) == NoLogDiff <==> a == b
  {
    if a == b {
      DiffLogsSelf(a);
    }
    if DiffLogs(a, b) == NoLogDiff {
      forall m | m in a ensures m in b && a[m] <= b[m] {
        var p :| p in a[m];
        assert m !in DiffLogs(a, b).resultA;
      }
      forall m | m in b ensures m in a && b[m] <= a[m] {
        var p :| p in b[m];
        assert m !in DiffLogs(a, b).resultB;
      }
      assert a.Keys == b.Keys;
      forall m | m in a ensures a[m] == b[m] {
      }
    }
  }

  /** `Diff::<CompLog>::merge` (src/diffing.rs:165-168): both sides are
      extended key-wise, the incoming entries winning. */
  function MergeLogs(acc: Diff<CompLog>, incoming: Diff<CompLog>): (r: Diff<CompLog>)
    ensures r.resultA.Keys == acc.resultA.Keys + incoming.resultA.Keys
    ensures r.resultB.Keys == acc.resultB.Keys + incoming.resultB.Keys
    ensures forall m :: m in r.resultA ==> r.resultA[m] == (if m in incoming.resultA then incoming.resultA[m] else acc.resultA[m])
    ensures forall m :: m in r.resultB ==> r.resultB[m] == (if m in incoming.resultB then incoming.resultB[m] else acc.resultB[m])
  {
    Diff(acc.resultA + incoming.resultA, acc.resultB + incoming.resultB)
  }

  /** `merge_complog!` (src/diffing.rs:170-178). */
  function MergeLogFacet(acc: Option<Diff<CompLog>>, incoming: Option<Diff<CompLog>>): Option<Diff<CompLog>>
  {
    match (acc, incoming)
    case (Some(a), Some(b)) => Some(MergeLogs(a, b))
    case (None, b) => b
    case (a, None) => a
  }

  /** The value `pass_eq` and `exit_eq` keep when merged: the first present. */
  function FirstWins<T>(acc: Option<T>, incoming: Option<T>): Option<T>
  {
    if acc.None? then incoming else acc
  }

  const MultipleGiven: string := "Multiple given"

  /** The `stdout_eq` merge: a second present value turns it into a sentinel. */
  function MergeStdout(acc: Option<Diff<string>>, incoming: Option<Diff<string>>): Option<Diff<string>>
  {
    match (acc, incoming)
    case (Some(_), Some(_)) => Some(Diff(MultipleGiven, MultipleGiven))
    case (None, b) => b
    case (a, None) => a
  }

  /** The facets on which two parser runs disagreed (`ParserDiff`). The exit
      code is absent when the process was ended by a signal. */
  datatype ParserDiff = ParserDiff(
    passEq: Option<Diff<bool>>,
    exitEq: Option<Diff<Option<int>>>,
    stdoutEq: Option<Diff<string>>,
    errEq: Option<Diff<CompLog>>,
    warnEq: Option<Diff<CompLog>>,
    traceEq: Option<Diff<CompLog>>)

  /** `ParserDiff::default()`. */
  const NoDiff: ParserDiff := ParserDiff(None, None, None, None, None, None)

  function LogFacet(d: ParserDiff, sev: Severity): Option<Diff<CompLog>> {
    match sev
    case Error => d.errEq
    case Warning => d.warnEq
    case Trace => d.traceEq
  }

  /** `ParserDiff::merge` (src/diffing.rs:180-207). */
  function Merge(acc: ParserDiff, other: ParserDiff): (r: ParserDiff)
    ensures r.passEq == (if acc.passEq.Some? then acc.passEq else other.passEq)
    ensures r.exitEq == (if acc.exitEq.Some? then acc.exitEq else other.exitEq)
    ensures acc.stdoutEq.Some? && other.stdoutEq.Some? ==> r.stdoutEq == Some(Diff(MultipleGiven, MultipleGiven))
    ensures acc.stdoutEq.None? || other.stdoutEq.None? ==> r.stdoutEq == (if acc.stdoutEq.Some? then acc.stdoutEq else other.stdoutEq)
    ensures forall sev :: LogFacet(acc, sev).None? ==> LogFacet(r, sev) == LogFacet(other, sev)
    ensures forall sev :: LogFacet(other, sev).None? ==> LogFacet(r, sev) == LogFacet(acc, sev)
    ensures forall sev :: LogFacet(acc, sev).Some? && LogFacet(other, sev).Some? ==>
      LogFacet(r, sev) == Some(MergeLogs(LogFacet(acc, sev).value, LogFacet(other, sev).value))
  {
    ParserDiff(
      FirstWins(acc.passEq, other.passEq),
      FirstWins(acc.exitEq, other.exitEq),
      MergeStdout(acc.stdoutEq, other.stdoutEq),
      MergeLogFacet(acc.errEq, other.errEq),
      MergeLogFacet(acc.warnEq, other.warnEq),
      MergeLogFacet(acc.traceEq, other.traceEq))
  }

  /** The default record is a left and a right identity of the merge. */
  lemma MergeIdentity(d: ParserDiff)
    ensures Merge(NoDiff, d) == d
    ensures Merge(d, NoDiff) == d
  {
  }

  /** The merge is associative, so folding a corpus in any grouping gives the
      same record (the order of the files still matters). */
  lemma MergeAssociative(a: ParserDiff, b: ParserDiff, c: ParserDiff)
    ensures Merge(Merge(a, b), c) == Merge(a, Merge(b, c))
  {
    forall sev ensures LogFacet(Merge(Merge(a, b), c), sev) == LogFacet(Merge(a, Merge(b, c)), sev) {
      var x, y, z := LogFacet(a, sev), LogFacet(b, sev), LogFacet(c, sev);
      if x.Some? && y.Some? && z.Some? {
        assert (x.value.resultA + y.value.resultA) + z.value.resultA == x.value.resultA + (y.value.resultA + z.value.resultA);
        assert (x.value.resultB + y.value.resultB) + z.value.resultB == x.value.resultB + (y.value.resultB + z.value.resultB);
      }
    }
    assert Merge(Merge(a, b), c).errEq == Merge(a, Merge(b, c)).errEq by {
      assert LogFacet(Merge(Merge(a, b), c), Error) == LogFacet(Merge(a, Merge(b, c)), Error);
    }
    assert Merge(Merge(a, b), c).warnEq == Merge(a, Merge(b, c)).warnEq by {
      assert LogFacet(Merge(Merge(a, b), c), Warning) == LogFacet(Merge(a, Merge(b, c)), Warning);
    }
    assert Merge(Merge(a, b), c).traceEq == Merge(a, Merge(b, c)).traceEq by {
      assert LogFacet(Merge(Merge(a, b), c), Trace) == LogFacet(Merge(a, Merge(b, c)), Trace);
    }
  }

  /** The three log facets of one file's comparison. */
  type LogDiffs = (Option<Diff<CompLog>>, Option<Diff<CompLog>>, Option<Diff<CompLog>>)

  /** A severity's diff, present only when the two logs differ. */
  function CompareLogs(a: CompLog, b: CompLog): Option<Diff<CompLog>> {
    if a != b then Some(DiffLogs(a, b)) else None
  }

  /** `diff_stderr` (src/diffing.rs:210-233). Both stderrs are read only when
      they differ, the first one first. */
  function DiffStderr(errA: Bytes, errB: Bytes, path: Position, json: Bytes -> Option<LogEntry>)
    : Result<LogDiffs, Failure>
  {
    if errA == errB then Ok((None, None, None))
    else match SplitStderr(errA, path, json)
      case Err(f) => Err(f)
      case Ok((errLogA, wrnLogA, trcLogA)) =>
        match SplitStderr(errB, path, json)
        case Err(f) => Err(f)
        case Ok((errLogB, wrnLogB, trcLogB)) =>
          Ok((CompareLogs(errLogA, errLogB), CompareLogs(wrnLogA, wrnLogB), CompareLogs(trcLogA, trcLogB)))
  }

  function LogDiffOf(diffs: LogDiffs, sev: Severity): Option<Diff<CompLog>> {
    match sev
    case Error => diffs.0
    case Warning => diffs.1
    case Trace => diffs.2
  }

  /** Identical stderrs give no log diffs. Otherwise the comparison fails
      exactly when reading either stderr fails (the first one's failure
      first), and a severity's diff is present exactly when it reports some
      position on some side; the diff then is `DiffLogs` of the two logs. */
  lemma DiffStderrMeaning(errA: Bytes, errB: Bytes, path: Position, json: Bytes -> Option<LogEntry>, sev: Severity)
    ensures errA == errB ==> DiffStderr(errA, errB, path, json) == Ok((None, None, None))
    ensures errA != errB ==>
      var ra, rb := SplitStderr(errA, path, json), SplitStderr(errB, path, json);
      && (ra.Err? ==> DiffStderr(errA, errB, path, json) == Err(ra.error))
      && (ra.Ok? && rb.Err? ==> DiffStderr(errA, errB, path, json) == Err(rb.error))
      && (ra.Ok? && rb.Ok? ==> DiffStderr(errA, errB, path, json).Ok?)
    ensures DiffStderr(errA, errB, path, json).Ok? && errA != errB ==>
      var la, lb := LogOf(SplitStderr(errA, path, json).value, sev), LogOf(SplitStderr(errB, path, json).value, sev);
      var d := LogDiffOf(DiffStderr(errA, errB, path, json).value, sev);
      && (d.Some? <==> DiffLogs(la, lb) != NoLogDiff)
      && (d.Some? ==> d.value == DiffLogs(la, lb))
  {
    if errA != errB && DiffStderr(errA, errB, path, json).Ok? {
      SplitStderrMeaning(errA, path, json, sev);
      SplitStderrMeaning(errB, path, json, sev);
      var la, lb := LogOf(SplitStderr(errA, path, json).value, sev), LogOf(SplitStderr(errB, path, json).value, sev);
      DiffLogsEmptyIff(la, lb);
    }
  }

  /** The log diffs `diff_stderr` produces have no empty position sets. */
  lemma DiffStderrWellFormed(errA: Bytes, errB: Bytes, path: Position, json: Bytes -> Option<LogEntry>, sev: Severity)
    requires DiffStderr(errA, errB, path, json).Ok?
    ensures var f := LogDiffOf(DiffStderr(errA, errB, path, json).value, sev);
      f.Some? ==> WellFormed(f.value.resultA) && WellFormed(f.value.resultB)
  {
    if errA != errB {
      SplitStderrMeaning(errA, path, json, sev);
      SplitStderrMeaning(errB, path, json, sev);
      DiffStderrMeaning(errA, errB, path, json, sev);
    }
  }

  /** A process's exit status: exited with a code, or ended some other way
      (by a signal), identified by its raw wait status. */
  datatype ExitStatus = Exited(code: int) | Signalled(raw: int)
  {
    /** `ExitStatus::success`. */
    predicate Success() {
      Exited? && code == 0
    }

    /** `ExitStatus::code`. */
    function Code(): Option<int> {
      if Exited? then Some(code) else None
    }
  }

  /** A captured parser run (`std::process::Output`). */
  datatype ProcessOutput = ProcessOutput(status: ExitStatus, stdout: Bytes, stderr: Bytes)

  /** The comparison block of `diff_file` (src/diffing.rs:262-292), after both
      runs have been captured. */
  function DiffFile(a: ProcessOutput, b: ProcessOutput, path: Position,
                    utf8: Bytes -> Option<string>, json: Bytes -> Option<LogEntry>)
    : Result<Option<ParserDiff>, Failure>
  {
    if a == b then Ok(None)
    else if utf8(a.stderr).None? || utf8(b.stderr).None? then Err(InvalidUtf8)
    else match DiffStderr(a.stderr, b.stderr, path, json)
      case Err(f) => Err(f)
      case Ok((err, warn, trace)) =>
        if utf8(a.stdout).None? || utf8(b.stdout).None? then Err(InvalidUtf8)
        else
          var bothPass := a.status.Success() && b.status.Success();
          Ok(Some(ParserDiff(
            if bothPass then None else Some(Diff(a.status.Success(), b.status.Success())),
            if a.status == b.status then None else Some(Diff(a.status.Code(), b.status.Code())),
            if a.stdout == b.stdout then None else Some(Diff(utf8(a.stdout).value, utf8(b.stdout).value)),
            err, warn, trace)))
  }

  /** What `diff_file` promises of a comparison: no diff exactly for equal
      outputs; otherwise each facet is present exactly when its raw outputs
      disagree (`pass_eq` when not both parsers succeeded, so also when both
      failed), carrying both sides' values, and the log facets are those of
      `diff_stderr`. Both stdouts are decoded even when they are equal, so an
      undecodable stdout drops the file either way. */
  lemma DiffFileMeaning(a: ProcessOutput, b: ProcessOutput, path: Position,
                        utf8: Bytes -> Option<string>, json: Bytes -> Option<LogEntry>)
    ensures DiffFile(a, b, path, utf8, json) == Ok(None) <==> a == b
    ensures DiffFile(a, b, path, utf8, json).Err? <==>
      && a != b
      && (|| utf8(a.stderr).None? || utf8(b.stderr).None?
          || DiffStderr(a.stderr, b.stderr, path, json).Err?
          || utf8(a.stdout).None? || utf8(b.stdout).None?)
    ensures DiffFile(a, b, path, utf8, json).Ok? && a != b ==>
      var d := DiffFile(a, b, path, utf8, json).value.value;
      && (d.passEq.Some? <==> !(a.status.Success() && b.status.Success()))
      && (d.passEq.Some? ==> d.passEq.value == Diff(a.status.Success(), b.status.Success()))
      && (d.exitEq.Some? <==> a.status != b.status)
      && (d.exitEq.Some? ==> d.exitEq.value == Diff(a.status.Code(), b.status.Code()))
      && (d.stdoutEq.Some? <==> a.stdout != b.stdout)
      && (d.stdoutEq.Some? ==> d.stdoutEq.value == Diff(utf8(a.stdout).value, utf8(b.stdout).value))
      && DiffStderr(a.stderr, b.stderr, path, json) == Ok((d.errEq, d.warnEq, d.traceEq))
  {
  }

  /** Two different exit statuses can carry the same (absent) code: two runs
      ended by different signals give an exit diff of two `None`s. */
  lemma ExitDiffWithoutCodes(a: ProcessOutput, b: ProcessOutput, path: Position,
                             utf8: Bytes -> Option<string>, json: Bytes -> Option<LogEntry>)
    requires a.status.Signalled? && b.status.Signalled? && a.status != b.status
    requires DiffFile(a, b, path, utf8, json).Ok?
    ensures DiffFile(a, b, path, utf8, json).value.value.exitEq == Some(Diff(None, None))
    ensures DiffFile(a, b, path, utf8, json).value.value.passEq == Some(Diff(false, false))
  {
  }

  /** Stderrs that differ only in lines the reader ignores make a record with
      no facet at all, rather than no record: here one run printed an extra
      empty line. */
  lemma IgnoredStderrNoise(status: ExitStatus, stdout: Bytes, path: Position,
                           utf8: Bytes -> Option<string>, json: Bytes -> Option<LogEntry>)
    requires status.Success()
    requires utf8([]).Some? && utf8([Newline]).Some? && utf8(stdout).Some?
    ensures DiffFile(ProcessOutput(status, stdout, []), ProcessOutput(status, stdout, [Newline]), path, utf8, json)
         == Ok(Some(NoDiff))
  {
    EmptyStderr(path, json);
    assert Split([Newline], Newline) == [[], []] by {
      SplitOneLine([]);
      assert [] + [Newline] == [Newline];
    }
    assert Classify([], json) == Ignored;
    AndThenUnit(Ok([]));
    assert ScanLines([[]], json) == Ok([]);
    assert ScanLines([[], []], json) == Ok([]);
    assert SplitStderr([Newline], path, json) == Ok((map[], map[], map[]));
  }

  /** The dispatch of src/diffing.rs:363-372 over the comparisons' outcomes:
      a comparison that panicked aborts the run (`None`); otherwise errors and
      equal outputs are dropped and the diffs kept, in order. */
  function Collect(outcomes: seq<Result<Option<ParserDiff>, Failure>>): (r: Option<seq<ParserDiff>>)
    ensures r.None? <==> exists i :: 0 <= i < |outcomes| && outcomes[i].Err? && outcomes[i].error.IsPanic()
    ensures r.Some? ==> forall d :: d in r.value <==> Ok(Some(d)) in outcomes
    ensures r.Some? ==> |r.value| <= |outcomes|
    decreases |outcomes|
  {
    if |outcomes| == 0 then Some([])
    else
      var rest := Collect(outcomes[1..]);
      assert forall x :: x in outcomes <==> x == outcomes[0] || x in outcomes[1..];
      assert forall i :: 1 <= i < |outcomes| ==> outcomes[i] == outcomes[1..][i - 1];
      match outcomes[0]
      case Err(f) =>
        if f.IsPanic() then None else rest
      case Ok(None) => rest
      case Ok(Some(d)) => if rest.None? then None else Some([d] + rest.value)
  }

  /** Collecting a concatenation collects each part: the run aborts when
      either part panics, and otherwise the kept diffs of the first part come
      before those of the second. */
  lemma {:induction false} CollectAppend(xs: seq<Result<Option<ParserDiff>, Failure>>,
                                         ys: seq<Result<Option<ParserDiff>, Failure>>)
    ensures Collect(xs + ys) ==
      if Collect(xs).None? || Collect(ys).None? then None else Some(Collect(xs).value + Collect(ys).value)
    decreases |xs|
  {
    if |xs| == 0 {
      assert xs + ys == ys;
      if Collect(ys).Some? {
        assert Collect(xs).value + Collect(ys).value == Collect(ys).value;
      }
    } else {
      assert (xs + ys)[0] == xs[0];
      assert (xs + ys)[1..] == xs[1..] + ys;
      CollectAppend(xs[1..], ys);
      if xs[0].Ok? && xs[0].value.Some? && Collect(xs[1..]).Some? && Collect(ys).Some? {
        var d := xs[0].value.value;
        assert [d] + (Collect(xs[1..]).value + Collect(ys).value)
            == ([d] + Collect(xs[1..]).value) + Collect(ys).value;
      }
    }
  }

  /** One comparison on its own: a diff is kept, an equal file or an error
      is dropped, and a panic aborts. */
  lemma CollectSingle(o: Result<Option<ParserDiff>, Failure>)
    ensures o.Ok? && o.value.Some? ==> Collect([o]) == Some([o.value.value])
    ensures o.Ok? && o.value.None? ==> Collect([o]) == Some([])
    ensures o.Err? ==> Collect([o]) == if o.error.IsPanic() then None else Some([])
  {
    assert [o][1..] == [];
    assert Collect([]) == Some([]);
    if o.Ok? && o.value.Some? {
      assert [o.value.value] + [] == [o.value.value];
    }
  }
}
