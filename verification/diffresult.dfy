/** The corpus-level result of src/diffing.rs:295-336: the per-file diffs
    are folded with `ParserDiff::merge` and the three log facets of the fold
    are flattened into `message -> (positions on side A, positions on side
    B)` maps (`DiffResult::from`, `propagate_msg`). The pass, exit and stdout
    facets take part in the fold but are not part of the result. */
module DiffResults {
  import opened Common
  import opened LogParser
  import opened Diffing

  /** One severity of the corpus result. */
  type Flat = map<Message, Diff<set<Position>>>

  /** `DiffResult`. */
  datatype DiffResult = DiffResult(errDiff: Flat, wrnDiff: Flat, trcDiff: Flat)

  /** `DiffResult::default()`. */
  const EmptyResult: DiffResult := DiffResult(map[], map[], map[])

  function FlatOf(r: DiffResult, sev: Severity): Flat {
    match sev
    case Error => r.errDiff
    case Warning => r.wrnDiff
    case Trace => r.trcDiff
  }

  /** The positions a log records for `m`, none when it lacks `m`. */
  function Lookup(log: CompLog, m: Message): set<Position> {
    if m in log then log[m] else {}
  }

  /** One side of a pair: `resultA` when `first`, else `resultB`. */
  function Side<T>(d: Diff<T>, first: bool): T {
    if first then d.resultA else d.resultB
  }

  /** Reference definition of `propagate_msg`: every message of either side,
      each side carrying its positions. */
  function Propagate(log: Option<Diff<CompLog>>): Flat {
    match log
    case None => map[]
    case Some(d) =>
      map m | m in d.resultA.Keys + d.resultB.Keys :: Diff(Lookup(d.resultA, m), Lookup(d.resultB, m))
  }

  /** `propagate_msg` as the source runs it (src/diffing.rs:315-329): one
      pass over side A creating entries with an empty B side, then one pass
      over side B filling in (or creating) entries. */
  method PropagateMsg(log: Option<Diff<CompLog>>) returns (hm: Flat)
    ensures log.None? ==> hm == map[]
    ensures log.Some? ==> hm.Keys == log.value.resultA.Keys + log.value.resultB.Keys
    ensures log.Some? ==> forall m :: m in hm ==>
      hm[m].resultA == Lookup(log.value.resultA, m) && hm[m].resultB == Lookup(log.value.resultB, m)
    ensures hm == Propagate(log)
  {
    if log.None? {
      return map[];
    }
    var d := log.value;
    hm := PassA(d.resultA);
    hm := PassB(d.resultA, d.resultB, hm);
    assert hm == Propagate(log);
  }

  /** The pass over side A, in an arbitrary iteration order. */
  method PassA(a: CompLog) returns (hm: Flat)
    ensures hm.Keys == a.Keys
    ensures forall m :: m in hm ==> hm[m] == Diff(a[m], {})
  {
    hm := map[];
    var todo := a.Keys;
    while todo != {}
      invariant todo <= a.Keys
      invariant hm.Keys == a.Keys - todo
      invariant forall m :: m in hm ==> hm[m] == Diff(a[m], {})
      decreases |todo|
    {
      var m :| m in todo;
      hm := hm[m := Diff(a[m], {})];
      todo := todo - {m};
    }
  }

  /** The map once side B's messages outside `pending` have been filled in. */
  function Filled(a: CompLog, b: CompLog, pending: set<Message>): Flat {
    map m | m in a.Keys + (b.Keys - pending) :: Diff(Lookup(a, m), if m in b && m !in pending then b[m] else {})
  }

  /** One step of the side-B pass: the entry for `m` is created if missing
      and its B side set. */
  lemma FillOne(a: CompLog, b: CompLog, pending: set<Message>, hm: Flat, m: Message)
    requires hm == Filled(a, b, pending) && m in pending && m in b
    ensures hm[m := (if m in hm then hm[m] else Diff({}, {})).(resultB := b[m])] == Filled(a, b, pending - {m})
  {
  }

  lemma FillStart(a: CompLog, b: CompLog, start: Flat)
    requires start.Keys == a.Keys
    requires forall m :: m in start ==> start[m] == Diff(a[m], {})
    ensures start == Filled(a, b, b.Keys)
  {
  }

  lemma FillEnd(a: CompLog, b: CompLog)
    ensures Filled(a, b, {}).Keys == a.Keys + b.Keys
    ensures forall m :: m in Filled(a, b, {}) ==> Filled(a, b, {})[m] == Diff(Lookup(a, m), Lookup(b, m))
  {
  }

  /** The pass over side B, in an arbitrary iteration order. */
  method PassB(a: CompLog, b: CompLog, start: Flat) returns (hm: Flat)
    requires start.Keys == a.Keys
    requires forall m :: m in start ==> start[m] == Diff(a[m], {})
    ensures hm.Keys == a.Keys + b.Keys
    ensures forall m :: m in hm ==> hm[m] == Diff(Lookup(a, m), Lookup(b, m))
  {
    hm := start;
    var todo := b.Keys;
    FillStart(a, b, start);
    while todo != {}
      invariant todo <= b.Keys
      invariant hm == Filled(a, b, todo)
      decreases |todo|
    {
      var m :| m in todo;
      FillOne(a, b, todo, hm, m);
      var entry := if m in hm then hm[m] else Diff({}, {});
      hm := hm[m := entry.(resultB := b[m])];
      todo := todo - {m};
    }
    FillEnd(a, b);
  }

  /** The fold of `Iterator::reduce` with `ParserDiff::merge`, from `acc`. */
  function FoldMerge(acc: ParserDiff, ds: seq<ParserDiff>): ParserDiff
    decreases |ds|
  {
    if |ds| == 0 then acc else FoldMerge(Merge(acc, ds[0]), ds[1..])
  }

  /** The projection of the folded record onto the result. */
  function Project(rep: ParserDiff): DiffResult {
    DiffResult(Propagate(rep.errEq), Propagate(rep.warnEq), Propagate(rep.traceEq))
  }

  /** `DiffResult::from` (src/diffing.rs:303-336): the default result for no
      diffs, otherwise the projection of the fold seeded with the first. */
  function FromDiffs(ds: seq<ParserDiff>): DiffResult {
    if |ds| == 0 then EmptyResult else Project(FoldMerge(ds[0], ds[1..]))
  }

  /** Seeding the fold with the first diff is the same as seeding it with the
      empty record, so the special case for no diffs changes nothing. */
  lemma {:induction false} FromDiffsFromNoDiff(ds: seq<ParserDiff>)
    ensures FromDiffs(ds) == Project(FoldMerge(NoDiff, ds))
  {
    if |ds| > 0 {
      MergeIdentity(ds[0]);
      assert FoldMerge(NoDiff, ds) == FoldMerge(Merge(NoDiff, ds[0]), ds[1..]);
    }
  }

  /** The fold of the whole sequence merges `acc` with the fold of the rest,
      so folding is a homomorphism from concatenation to merging. */
  lemma {:induction false} FoldMergeSplit(acc: ParserDiff, ds: seq<ParserDiff>)
    ensures FoldMerge(acc, ds) == Merge(acc, FoldMerge(NoDiff, ds))
    decreases |ds|
  {
    if |ds| == 0 {
      MergeIdentity(acc);
    } else {
      var d, rest := ds[0], ds[1..];
      FoldMergeSplit(Merge(acc, d), rest);
      FoldMergeSplit(d, rest);
      MergeIdentity(d);
      MergeAssociative(acc, d, FoldMerge(NoDiff, rest));
      assert FoldMerge(NoDiff, ds) == FoldMerge(d, rest);
    }
  }

  lemma FoldCons(d: ParserDiff, rest: seq<ParserDiff>)
    ensures FoldMerge(NoDiff, [d] + rest) == Merge(d, FoldMerge(NoDiff, rest))
  {
    var ds := [d] + rest;
    assert ds[1..] == rest;
    MergeIdentity(d);
    FoldMergeSplit(d, rest);
  }

  /** Concatenation: folding `xs + ys` continues the fold of `xs` with `ys`. */
  lemma {:induction false} FoldMergeAppend(acc: ParserDiff, xs: seq<ParserDiff>, ys: seq<ParserDiff>)
    ensures FoldMerge(acc, xs + ys) == FoldMerge(FoldMerge(acc, xs), ys)
    decreases |xs|
  {
    if |xs| == 0 {
      assert xs + ys == ys;
    } else {
      assert (xs + ys)[1..] == xs[1..] + ys;
      FoldMergeAppend(Merge(acc, xs[0]), xs[1..], ys);
    }
  }

  /** `pass_eq` and `exit_eq` of the fold are those of the first diff that
      has one, absent when none has. */
  lemma {:induction false} FoldFirstWins(ds: seq<ParserDiff>)
    ensures FoldMerge(NoDiff, ds).passEq.None? <==> forall i :: 0 <= i < |ds| ==> ds[i].passEq.None?
    ensures forall i :: 0 <= i < |ds| && ds[i].passEq.Some? && (forall j :: 0 <= j < i ==> ds[j].passEq.None?) ==>
      FoldMerge(NoDiff, ds).passEq == ds[i].passEq
    ensures FoldMerge(NoDiff, ds).exitEq.None? <==> forall i :: 0 <= i < |ds| ==> ds[i].exitEq.None?
    ensures forall i :: 0 <= i < |ds| && ds[i].exitEq.Some? && (forall j :: 0 <= j < i ==> ds[j].exitEq.None?) ==>
      FoldMerge(NoDiff, ds).exitEq == ds[i].exitEq
    decreases |ds|
  {
    if |ds| > 0 {
      var d, rest := ds[0], ds[1..];
      assert ds == [d] + rest;
      FoldCons(d, rest);
      FoldFirstWins(rest);
      FirstWinsStep(ds, FoldMerge(NoDiff, ds), FoldMerge(NoDiff, rest));
    }
  }

  /** The step of `FoldFirstWins`: `fold` merges the first diff with `frest`,
      which already has the property for the rest. */
  lemma FirstWinsStep(ds: seq<ParserDiff>, fold: ParserDiff, frest: ParserDiff)
    requires |ds| > 0 && fold == Merge(ds[0], frest)
    requires frest.passEq.None? <==> forall i :: 0 <= i < |ds| - 1 ==> ds[1..][i].passEq.None?
    requires forall i :: 0 <= i < |ds| - 1 && ds[1..][i].passEq.Some? && (forall j :: 0 <= j < i ==> ds[1..][j].passEq.None?) ==>
      frest.passEq == ds[1..][i].passEq
    requires frest.exitEq.None? <==> forall i :: 0 <= i < |ds| - 1 ==> ds[1..][i].exitEq.None?
    requires forall i :: 0 <= i < |ds| - 1 && ds[1..][i].exitEq.Some? && (forall j :: 0 <= j < i ==> ds[1..][j].exitEq.None?) ==>
      frest.exitEq == ds[1..][i].exitEq
    ensures fold.passEq.None? <==> forall i :: 0 <= i < |ds| ==> ds[i].passEq.None?
    ensures forall i :: 0 <= i < |ds| && ds[i].passEq.Some? && (forall j :: 0 <= j < i ==> ds[j].passEq.None?) ==>
      fold.passEq == ds[i].passEq
    ensures fold.exitEq.None? <==> forall i :: 0 <= i < |ds| ==> ds[i].exitEq.None?
    ensures forall i :: 0 <= i < |ds| && ds[i].exitEq.Some? && (forall j :: 0 <= j < i ==> ds[j].exitEq.None?) ==>
      fold.exitEq == ds[i].exitEq
  {
    assert forall i :: 1 <= i < |ds| ==> ds[i] == ds[1..][i - 1];
  }

  /** How many of the diffs carry a stdout difference. */
  function StdoutCount(ds: seq<ParserDiff>): (n: nat)
    ensures n <= |ds|
    ensures n == 0 <==> forall i :: 0 <= i < |ds| ==> ds[i].stdoutEq.None?
    decreases |ds|
  {
    if |ds| == 0 then 0
    else
      assert forall i :: 1 <= i < |ds| ==> ds[i] == ds[1..][i - 1];
      (if ds[0].stdoutEq.Some? then 1 else 0) + StdoutCount(ds[1..])
  }

  /** `stdout_eq` of the fold: absent when no diff has one, that one when
      exactly one has, and the sentinel pair as soon as two have, whatever
      their values and order. */
  lemma {:induction false} FoldStdout(ds: seq<ParserDiff>)
    ensures StdoutCount(ds) == 0 ==> FoldMerge(NoDiff, ds).stdoutEq.None?
    ensures StdoutCount(ds) == 1 ==> forall i :: 0 <= i < |ds| && ds[i].stdoutEq.Some? ==>
      FoldMerge(NoDiff, ds).stdoutEq == ds[i].stdoutEq
    ensures StdoutCount(ds) >= 2 ==> FoldMerge(NoDiff, ds).stdoutEq == Some(Diff(MultipleGiven, MultipleGiven))
    decreases |ds|
  {
    if |ds| > 0 {
      var d, rest := ds[0], ds[1..];
      assert ds == [d] + rest;
      FoldCons(d, rest);
      FoldStdout(rest);
      assert forall i :: 1 <= i < |ds| ==> ds[i] == rest[i - 1];
      if d.stdoutEq.Some? && StdoutCount(ds) == 1 {
        assert StdoutCount(rest) == 0;
      }
    }
  }

  /** Diff `d` reports message `m` on the given side of severity `sev`. */
  ghost predicate Reports(d: ParserDiff, sev: Severity, first: bool, m: Message) {
    LogFacet(d, sev).Some? && m in Side(LogFacet(d, sev).value, first)
  }

  /** The positions diff `d` reports for `m` on that side. */
  function Reported(d: ParserDiff, sev: Severity, first: bool, m: Message): set<Position>
    requires LogFacet(d, sev).Some? && m in Side(LogFacet(d, sev).value, first)
  {
    Side(LogFacet(d, sev).value, first)[m]
  }

  lemma MergeLogFacetSide(x: ParserDiff, y: ParserDiff, sev: Severity, first: bool, m: Message)
    ensures Reports(Merge(x, y), sev, first, m) <==> Reports(x, sev, first, m) || Reports(y, sev, first, m)
    ensures Reports(y, sev, first, m) ==> Reported(Merge(x, y), sev, first, m) == Reported(y, sev, first, m)
    ensures Reports(x, sev, first, m) && !Reports(y, sev, first, m) ==>
      Reported(Merge(x, y), sev, first, m) == Reported(x, sev, first, m)
  {
  }

  /** A log facet of the fold is present exactly when some diff has it. */
  lemma {:induction false} FoldLogPresent(ds: seq<ParserDiff>, sev: Severity)
    ensures LogFacet(FoldMerge(NoDiff, ds), sev).None? <==> forall i :: 0 <= i < |ds| ==> LogFacet(ds[i], sev).None?
    decreases |ds|
  {
    if |ds| > 0 {
      var d, rest := ds[0], ds[1..];
      assert ds == [d] + rest;
      FoldCons(d, rest);
      FoldLogPresent(rest, sev);
      assert forall i :: 1 <= i < |ds| ==> ds[i] == rest[i - 1];
    }
  }

  /** A message is on a side of a log facet of the fold when some diff
      reports it there, with the positions of the LAST diff that does (later
      files overwrite earlier ones). */
  lemma {:induction false} FoldLogLastWins(ds: seq<ParserDiff>, sev: Severity, first: bool, m: Message)
    ensures Reports(FoldMerge(NoDiff, ds), sev, first, m) <==> exists i :: 0 <= i < |ds| && Reports(ds[i], sev, first, m)
    ensures forall i :: 0 <= i < |ds| && Reports(ds[i], sev, first, m) && (forall j :: i < j < |ds| ==> !Reports(ds[j], sev, first, m)) ==>
      Reported(FoldMerge(NoDiff, ds), sev, first, m) == Reported(ds[i], sev, first, m)
    decreases |ds|
  {
    if |ds| > 0 {
      var d, rest := ds[0], ds[1..];
      assert ds == [d] + rest;
      FoldCons(d, rest);
      FoldLogLastWins(rest, sev, first, m);
      MergeLogFacetSide(d, FoldMerge(NoDiff, rest), sev, first, m);
      LastWinsStep(ds, sev, first, m, FoldMerge(NoDiff, ds), FoldMerge(NoDiff, rest));
    }
  }

  /** The step of `FoldLogLastWins`: `fold` merges the first diff with
      `frest`, which already has the property for the rest. */
  lemma LastWinsStep(ds: seq<ParserDiff>, sev: Severity, first: bool, m: Message, fold: ParserDiff, frest: ParserDiff)
    requires |ds| > 0
    requires Reports(fold, sev, first, m) <==> Reports(ds[0], sev, first, m) || Reports(frest, sev, first, m)
    requires Reports(frest, sev, first, m) ==> Reported(fold, sev, first, m) == Reported(frest, sev, first, m)
    requires Reports(ds[0], sev, first, m) && !Reports(frest, sev, first, m) ==>
      Reported(fold, sev, first, m) == Reported(ds[0], sev, first, m)
    requires Reports(frest, sev, first, m) <==> exists i :: 0 <= i < |ds| - 1 && Reports(ds[1..][i], sev, first, m)
    requires forall i ::
      (0 <= i < |ds| - 1 && Reports(ds[1..][i], sev, first, m) && (forall j :: i < j < |ds| - 1 ==> !Reports(ds[1..][j], sev, first, m))) ==>
      Reported(frest, sev, first, m) == Reported(ds[1..][i], sev, first, m)
    ensures Reports(fold, sev, first, m) <==> exists i :: 0 <= i < |ds| && Reports(ds[i], sev, first, m)
    ensures forall i :: 0 <= i < |ds| && Reports(ds[i], sev, first, m) && (forall j :: i < j < |ds| ==> !Reports(ds[j], sev, first, m)) ==>
      Reported(fold, sev, first, m) == Reported(ds[i], sev, first, m)
  {
    var rest := ds[1..];
    if exists i :: 0 <= i < |rest| && Reports(rest[i], sev, first, m) {
      var i :| 0 <= i < |rest| && Reports(rest[i], sev, first, m);
      assert ds[i + 1] == rest[i];
    }
    forall i | 0 <= i < |ds| && Reports(ds[i], sev, first, m) && (forall j :: i < j < |ds| ==> !Reports(ds[j], sev, first, m))
      ensures Reported(fold, sev, first, m) == Reported(ds[i], sev, first, m)
    {
      if i > 0 {
        assert rest[i - 1] == ds[i];
        forall j | i - 1 < j < |rest| ensures !Reports(rest[j], sev, first, m) {
          assert rest[j] == ds[j + 1];
        }
      } else {
        forall j | 0 <= j < |rest| ensures !Reports(rest[j], sev, first, m) {
          assert rest[j] == ds[j + 1];
        }
      }
    }
  }

  /** Where a flattened log has a message, and what each side holds. */
  lemma PropagateAt(log: Option<Diff<CompLog>>, m: Message, first: bool)
    ensures m in Propagate(log) <==> log.Some? && (m in log.value.resultA || m in log.value.resultB)
    ensures m in Propagate(log) ==> Side(Propagate(log)[m], first) == Lookup(Side(log.value, first), m)
  {
  }

  /** Each severity of the result flattens that facet of the fold. */
  lemma FlatOfFold(ds: seq<ParserDiff>, sev: Severity)
    ensures FlatOf(FromDiffs(ds), sev) == Propagate(LogFacet(FoldMerge(NoDiff, ds), sev))
  {
    FromDiffsFromNoDiff(ds);
  }

  /** The corpus result has no messages without diffs, and otherwise a
      message appears in a severity exactly when some diff reports it on
      either side. */
  lemma FromDiffsKeys(ds: seq<ParserDiff>, sev: Severity, m: Message)
    ensures |ds| == 0 ==> FromDiffs(ds) == EmptyResult
    ensures m in FlatOf(FromDiffs(ds), sev) <==>
      exists i, side :: 0 <= i < |ds| && Reports(ds[i], sev, side, m)
  {
    var f := FoldMerge(NoDiff, ds);
    var log := LogFacet(f, sev);
    FlatOfFold(ds, sev);
    PropagateAt(log, m, true);
    FoldLogLastWins(ds, sev, true, m);
    FoldLogLastWins(ds, sev, false, m);
    assert m in Propagate(log) <==> Reports(f, sev, true, m) || Reports(f, sev, false, m);
    if exists i, side :: 0 <= i < |ds| && Reports(ds[i], sev, side, m) {
      var i, side :| 0 <= i < |ds| && Reports(ds[i], sev, side, m);
      if side {
        assert Reports(f, sev, true, m);
      } else {
        assert Reports(f, sev, false, m);
      }
    }
  }

  /** Each side of a message of the corpus result holds the positions of the
      last diff reporting the message on that side, and is empty when none
      does. */
  lemma FromDiffsSides(ds: seq<ParserDiff>, sev: Severity, first: bool, m: Message)
    ensures m in FlatOf(FromDiffs(ds), sev) && (forall i :: 0 <= i < |ds| ==> !Reports(ds[i], sev, first, m)) ==>
      Side(FlatOf(FromDiffs(ds), sev)[m], first) == {}
    ensures forall i :: 0 <= i < |ds| && Reports(ds[i], sev, first, m) && (forall j :: i < j < |ds| ==> !Reports(ds[j], sev, first, m)) ==>
      m in FlatOf(FromDiffs(ds), sev) && Side(FlatOf(FromDiffs(ds), sev)[m], first) == Reported(ds[i], sev, first, m)
  {
    var f := FoldMerge(NoDiff, ds);
    var log := LogFacet(f, sev);
    FlatOfFold(ds, sev);
    PropagateAt(log, m, first);
    FoldLogLastWins(ds, sev, first, m);
  }

  /** Every log facet of diff `d` is free of empty position sets. */
  ghost predicate LogsWellFormed(d: ParserDiff) {
    forall sev :: LogFacet(d, sev).Some? ==>
      WellFormed(LogFacet(d, sev).value.resultA) && WellFormed(LogFacet(d, sev).value.resultB)
  }

  /** When the per-file diffs have no empty position sets (as `diff_file`
      makes them), no message of the corpus result is empty on both sides. */
  lemma NoEmptyEntries(ds: seq<ParserDiff>, sev: Severity, m: Message)
    requires forall i :: 0 <= i < |ds| ==> LogsWellFormed(ds[i])
    requires m in FlatOf(FromDiffs(ds), sev)
    ensures FlatOf(FromDiffs(ds), sev)[m] != Diff({}, {})
  {
    FromDiffsKeys(ds, sev, m);
    var i, side :| 0 <= i < |ds| && Reports(ds[i], sev, side, m);
    var last := LastReporting(ds, sev, side, m, i);
    FromDiffsSides(ds, sev, side, m);
    assert LogsWellFormed(ds[last]);
    assert Reported(ds[last], sev, side, m) != {};
  }

  /** Every diff `diff_file` produces is free of empty position sets. */
  lemma DiffFileLogsWellFormed(a: ProcessOutput, b: ProcessOutput, path: Position,
                               utf8: Bytes -> Option<string>, json: Bytes -> Option<LogEntry>, d: ParserDiff)
    requires DiffFile(a, b, path, utf8, json) == Ok(Some(d))
    ensures LogsWellFormed(d)
  {
    DiffFileLogs(a, b, path, utf8, json, d);
    StderrLogsWellFormed(a.stderr, b.stderr, path, json, d);
  }

  /** The log facets of a file's diff are those of its stderr comparison. */
  lemma DiffFileLogs(a: ProcessOutput, b: ProcessOutput, path: Position,
                     utf8: Bytes -> Option<string>, json: Bytes -> Option<LogEntry>, d: ParserDiff)
    requires DiffFile(a, b, path, utf8, json) == Ok(Some(d))
    ensures DiffStderr(a.stderr, b.stderr, path, json) == Ok((d.errEq, d.warnEq, d.traceEq))
  {
    DiffFileMeaning(a, b, path, utf8, json);
  }

  /** Log facets taken from a stderr comparison have no empty position sets. */
  lemma StderrLogsWellFormed(errA: Bytes, errB: Bytes, path: Position, json: Bytes -> Option<LogEntry>, d: ParserDiff)
    requires DiffStderr(errA, errB, path, json) == Ok((d.errEq, d.warnEq, d.traceEq))
    ensures LogsWellFormed(d)
  {
    forall sev | LogFacet(d, sev).Some?
      ensures WellFormed(LogFacet(d, sev).value.resultA) && WellFormed(LogFacet(d, sev).value.resultB)
    {
      assert LogFacet(d, sev) == LogDiffOf((d.errEq, d.warnEq, d.traceEq), sev);
      DiffStderrWellFormed(errA, errB, path, json, sev);
    }
  }

  /** The outcomes of comparing each captured pair of runs, one per file. */
  function Outcomes(runs: seq<(ProcessOutput, ProcessOutput, Position)>,
                    utf8: Bytes -> Option<string>, json: Bytes -> Option<LogEntry>)
    : (os: seq<Result<Option<ParserDiff>, Failure>>)
    ensures |os| == |runs|
    ensures forall i :: 0 <= i < |runs| ==> os[i] == DiffFile(runs[i].0, runs[i].1, runs[i].2, utf8, json)
  {
    seq(|runs|, i requires 0 <= i < |runs| => DiffFile(runs[i].0, runs[i].1, runs[i].2, utf8, json))
  }

  /** Every diff kept from a corpus run is free of empty position sets. */
  lemma CollectedWellFormed(runs: seq<(ProcessOutput, ProcessOutput, Position)>,
                            utf8: Bytes -> Option<string>, json: Bytes -> Option<LogEntry>)
    requires Collect(Outcomes(runs, utf8, json)).Some?
    ensures forall d :: d in Collect(Outcomes(runs, utf8, json)).value ==> LogsWellFormed(d)
  {
    var os := Outcomes(runs, utf8, json);
    forall d | d in Collect(os).value ensures LogsWellFormed(d) {
      var i :| 0 <= i < |os| && os[i] == Ok(Some(d));
      DiffFileLogsWellFormed(runs[i].0, runs[i].1, runs[i].2, utf8, json, d);
    }
  }

  /** No message of a corpus result is empty on both sides. */
  lemma CorpusNoEmptyEntries(runs: seq<(ProcessOutput, ProcessOutput, Position)>,
                             utf8: Bytes -> Option<string>, json: Bytes -> Option<LogEntry>,
                             sev: Severity, m: Message)
    requires Collect(Outcomes(runs, utf8, json)).Some?
    requires m in FlatOf(FromDiffs(Collect(Outcomes(runs, utf8, json)).value), sev)
    ensures FlatOf(FromDiffs(Collect(Outcomes(runs, utf8, json)).value), sev)[m] != Diff({}, {})
  {
    var ds := Collect(Outcomes(runs, utf8, json)).value;
    CollectedWellFormed(runs, utf8, json);
    assert forall i :: 0 <= i < |ds| ==> ds[i] in ds;
    NoEmptyEntries(ds, sev, m);
  }

  /** The last index at or after `i` whose diff reports `m` on that side. */
  lemma LastReporting(ds: seq<ParserDiff>, sev: Severity, side: bool, m: Message, i: nat) returns (last: nat)
    requires i < |ds| && Reports(ds[i], sev, side, m)
    ensures i <= last < |ds| && Reports(ds[last], sev, side, m)
    ensures forall j :: last < j < |ds| ==> !Reports(ds[j], sev, side, m)
    decreases |ds| - i
  {
    if exists j :: i < j < |ds| && Reports(ds[j], sev, side, m) {
      var j :| i < j < |ds| && Reports(ds[j], sev, side, m);
      last := LastReporting(ds, sev, side, m, j);
    } else {
      last := i;
    }
  }

  /** The same message missing on side B in two files keeps only the second
      file's position: the merge overwrites rather than unions, so the
      result depends on the order in which files finish. */
  lemma LaterFileOverwrites(m: Message, p: Position, q: Position)
    requires p != q
    ensures var first := NoDiff.(errEq := Some(Diff(map[m := {p}], map[])));
            var second := NoDiff.(errEq := Some(Diff(map[m := {q}], map[])));
            && FromDiffs([first, second]).errDiff == map[m := Diff({q}, {})]
            && FromDiffs([second, first]).errDiff == map[m := Diff({p}, {})]
  {
    var first := NoDiff.(errEq := Some(Diff(map[m := {p}], map[])));
    var second := NoDiff.(errEq := Some(Diff(map[m := {q}], map[])));
    assert FoldMerge(first, [second]) == Merge(first, second);
    assert FoldMerge(second, [first]) == Merge(second, first);
    assert [first, second][1..] == [second];
    assert [second, first][1..] == [first];
    assert map[m := {p}] + map[m := {q}] == map[m := {q}];
    assert map[m := {q}] + map[m := {p}] == map[m := {p}];
  }
}
