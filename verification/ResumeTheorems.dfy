/** Kills and resumes of the residual-PQ builder: what every history leaves on disk. */
module ResumeTheorems {
  import opened Arithmetic
  import opened Bytes
  import opened PivotFiles
  import opened ResumeBuild
  import opened Wrappers

  /** Both outputs are byte prefixes of the full outputs under pivot set p. */
  ghost predicate PrefixOf(job: Job, d: Disk, p: nat) {
    && (d.codes.Some? ==> d.codes.value <= CodeFile(job, p, job.rows))
    && (d.errors.Some? ==> d.errors.value <= ErrorFile(job, p, job.rows))
  }

  /** Some output goes beyond its header. */
  predicate HasRows(d: Disk) {
    (d.codes.Some? && |d.codes.value| > 8) || (d.errors.Some? && |d.errors.value| > 8)
  }

  ghost predicate GoodFor(job: Job, d: Disk, p: nat) {
    PrefixOf(job, d, p) && (HasRows(d) ==> d.pivots == Trained(p))
  }

  /** No file mixes rows of two pivot sets, and rows on disk belong to the pivots on disk. */
  ghost predicate Good(job: Job, d: Disk) {
    exists p :: GoodFor(job, d, p)
  }

  ghost predicate FullBuild(job: Job, d: Disk, p: nat) {
    d == Disk(Trained(p), Some(CodeFile(job, p, job.rows)), Some(ErrorFile(job, p, job.rows)))
  }

  /** Both outputs exist and hold n whole rows. */
  ghost predicate HoldsRows(job: Job, d: Disk, n: nat) {
    && d.codes.Some? && |d.codes.value| == 8 + n * job.chunks
    && d.errors.Some? && |d.errors.value| == 8 + n * 4
  }

  /** The files, and the statistics if any are reported, of one uninterrupted build. */
  ghost predicate FinishedBuild(job: Job, d: Disk, p: nat, stats: Option<ErrorStats>) {
    FullBuild(job, d, p) && (stats.Some? ==> stats.value == ExtendStats(job, NO_STATS, p, 0, job.rows))
  }

  ghost predicate CompletesProperly(job: Job, outcome: Outcome, d: Disk) {
    outcome.Complete? ==> exists p :: FinishedBuild(job, d, p, outcome.stats)
  }

  // ---------------------------------------------------------------- prefixes by length

  lemma FileLengths(job: Job, p: nat, n: nat)
    requires job.Valid() && n <= job.rows
    ensures |CodeFile(job, p, n)| == 8 + n * job.chunks && |ErrorFile(job, p, n)| == 8 + n * 4
    ensures CodeFile(job, p, n) + RowBytes(job.encode, p, n, job.rows) == CodeFile(job, p, job.rows)
    ensures ErrorFile(job, p, n) + RowBytes(job.error, p, n, job.rows) == ErrorFile(job, p, job.rows)
  {
    RowBytesLength(job.encode, p, 0, n, job.chunks);
    RowBytesLength(job.error, p, 0, n, 4);
    FileExtends(Header(job.rows, job.chunks), job.encode, p, n, job.rows);
    FileExtends(Header(job.rows, 1), job.error, p, n, job.rows);
  }

  lemma FileExtends(head: seq<Byte>, f: (nat, nat) -> seq<Byte>, p: nat, n: nat, rows: nat)
    requires n <= rows
    ensures (head + RowBytes(f, p, 0, n)) + RowBytes(f, p, n, rows) == head + RowBytes(f, p, 0, rows)
  {
    RowBytesSplit(f, p, 0, n, rows);
  }

  lemma PrefixByLength(a: seq<Byte>, b: seq<Byte>, full: seq<Byte>)
    requires a <= full && b <= full && |a| == |b|
    ensures a == b
  {
  }

  lemma HeldRows(job: Job, d: Disk, p: nat, n: nat)
    requires job.Valid() && PrefixOf(job, d, p) && n <= job.rows && HoldsRows(job, d, n)
    ensures d.codes.value == CodeFile(job, p, n) && d.errors.value == ErrorFile(job, p, n)
  {
    FileLengths(job, p, n);
    PrefixByLength(d.codes.value, CodeFile(job, p, n), CodeFile(job, p, job.rows));
    PrefixByLength(d.errors.value, ErrorFile(job, p, n), ErrorFile(job, p, job.rows));
  }

  lemma RowlessPrefix(job: Job, d: Disk, p: nat, q: nat)
    requires PrefixOf(job, d, p) && !HasRows(d)
    ensures PrefixOf(job, d, q)
  {
    assert CodeFile(job, q, job.rows)[..8] == CodeFile(job, p, job.rows)[..8] == Header(job.rows, job.chunks);
    assert ErrorFile(job, q, job.rows)[..8] == ErrorFile(job, p, job.rows)[..8] == Header(job.rows, 1);
  }

  lemma InspectGood(job: Job, d: Disk, p: nat)
    requires job.Valid() && PrefixOf(job, d, p)
    ensures var code, err := Inspect(d.codes, 1), Inspect(d.errors, 4);
      && (code.Found? ==> code.rows == job.rows && code.cols == job.chunks && |d.codes.value| == 8 + code.encodedRows * job.chunks)
      && (err.Found? ==> err.rows == job.rows && err.cols == 1 && |d.errors.value| == 8 + err.encodedRows * 4)
      && (code.Missing? <==> d.codes.None?) && (err.Missing? <==> d.errors.None?)
      && (code.Found? <==> d.codes.Some? && |d.codes.value| >= 8 && (|d.codes.value| - 8) % job.chunks == 0)
      && (err.Found? <==> d.errors.Some? && |d.errors.value| >= 8 && (|d.errors.value| - 8) % 4 == 0)
  {
    if d.codes.Some? {
      InspectPrefix(d.codes.value, CodeFile(job, p, job.rows), job.rows, job.chunks, 1);
    }
    if d.errors.Some? {
      InspectPrefix(d.errors.value, ErrorFile(job, p, job.rows), job.rows, 1, 4);
    }
  }

  /** A resume that goes ahead found nothing, or the same whole number of rows in both files. */
  lemma StartMeansHeld(job: Job, d: Disk, p: nat)
    requires job.Valid() && PrefixOf(job, d, p) && !Decide(job, d, true).Refuse?
    ensures var from := if Decide(job, d, true).AlreadyComplete? then job.rows else Decide(job, d, true).from;
      from <= job.rows && ((from == 0 && d.codes.None? && d.errors.None?) || HoldsRows(job, d, from))
  {
    InspectGood(job, d, p);
  }

  lemma HeldNoRows(job: Job, d: Disk)
    requires HoldsRows(job, d, 0) || (d.codes.None? && d.errors.None?)
    ensures !HasRows(d)
  {
  }

  lemma HeldHasRows(job: Job, d: Disk, n: nat)
    requires job.Valid() && n > 0 && HoldsRows(job, d, n)
    ensures HasRows(d)
  {
  }

  // ---------------------------------------------------------------- statistics

  lemma {:induction false} FileStatsAre(job: Job, bytes: seq<Byte>, p: nat, n: nat)
    requires job.Valid() && n <= job.rows && ErrorFile(job, p, n) <= bytes
    ensures 8 + 4 * n <= |bytes| && FileStats(job, bytes, n) == ExtendStats(job, NO_STATS, p, 0, n)
  {
    FileLengths(job, p, n);
    if n > 0 {
      FileLengths(job, p, n - 1);
      assert ErrorFile(job, p, n) == ErrorFile(job, p, n - 1) + job.error(p, n - 1);
      FileStatsAre(job, bytes, p, n - 1);
      assert bytes[8 + 4 * (n - 1)..8 + 4 * n] == job.error(p, n - 1);
    }
  }

  lemma {:induction false} ExtendStatsSplit(job: Job, stats: ErrorStats, p: nat, lo: nat, mid: nat, hi: nat)
    requires lo <= mid <= hi
    ensures ExtendStats(job, ExtendStats(job, stats, p, lo, mid), p, mid, hi) == ExtendStats(job, stats, p, lo, hi)
    decreases hi
  {
    if mid < hi {
      ExtendStatsSplit(job, stats, p, lo, mid, hi - 1);
    }
  }

  /** The statistics of a proper completion are the sum, the least and the greatest of the errors of all rows. */
  lemma CompletionSummarizes(job: Job, outcome: Outcome, d: Disk)
    requires CompletesProperly(job, outcome, d) && outcome.Complete? && outcome.stats.Some?
    ensures d.pivots.Trained? && Summarizes(outcome.stats.value, RowErrors(job, d.pivots.id, 0, job.rows))
  {
    var p :| FinishedBuild(job, d, p, outcome.stats);
    ExtendStatsSummarize(job, NO_STATS, [], p, 0, job.rows);
    assert [] + RowErrors(job, p, 0, job.rows) == RowErrors(job, p, 0, job.rows);
  }

  // ---------------------------------------------------------------- one run

  /** The outputs a run works towards are the full files of its pivot set. */
  lemma Targets(job: Job, d: Disk, p: nat, from: nat)
    requires job.Valid() && from <= job.rows && (from > 0 ==> PrefixOf(job, d, p) && HoldsRows(job, d, from))
    ensures Base(d.codes, from) + CodeRest(job, p, from) == CodeFile(job, p, job.rows)
    ensures Base(d.errors, from) + ErrorRest(job, p, from) == ErrorFile(job, p, job.rows)
    ensures from > 0 ==>
      ExtendStats(job, FileStats(job, d.errors.value, from), p, from, job.rows) == ExtendStats(job, NO_STATS, p, 0, job.rows)
  {
    if from > 0 {
      HeldRows(job, d, p, from);
      FileLengths(job, p, from);
      assert Base(d.codes, from) == CodeFile(job, p, from) && Base(d.errors, from) == ErrorFile(job, p, from);
      assert CodeRest(job, p, from) == RowBytes(job.encode, p, from, job.rows);
      assert ErrorRest(job, p, from) == RowBytes(job.error, p, from, job.rows);
      StatsContinue(job, d.errors.value, p, from);
    }
  }

  lemma StatsContinue(job: Job, bytes: seq<Byte>, p: nat, from: nat)
    requires job.Valid() && from <= job.rows && bytes == ErrorFile(job, p, from) && |bytes| == 8 + 4 * from
    ensures ExtendStats(job, FileStats(job, bytes, from), p, from, job.rows) == ExtendStats(job, NO_STATS, p, 0, job.rows)
  {
    FileStatsAre(job, bytes, p, from);
    ExtendStatsSplit(job, NO_STATS, p, 0, from, job.rows);
  }

  /** A run from row `from` under pivot set p, where the rows kept are p's. */
  lemma RunFrom(job: Job, d: Disk, resume: bool, trained: nat, outcome: Outcome, e: Disk, q: nat)
    requires job.Valid() && GoodFor(job, d, q) && RunLeaves(job, d, resume, trained, outcome, e)
    requires Decide(job, d, resume).Start? && (Decide(job, d, resume).from == 0 ==> !HasRows(d))
    requires Decide(job, d, resume).from > 0 ==> HoldsRows(job, d, Decide(job, d, resume).from)
    ensures Good(job, e)
    ensures CompletesProperly(job, outcome, e)
  {
    DecideFrom(job, d, resume);
    var Start(from, reuse) := Decide(job, d, resume);
    if outcome == Refused {
      assert e == d && GoodFor(job, e, q);
    } else {
      var p := if reuse && d.pivots.Trained? then d.pivots.id else trained;
      if from > 0 {
        HeldHasRows(job, d, from);
        assert p == q;
      }
      Targets(job, d, p, from);
      if outcome.Killed? && e.codes == d.codes && e.errors == d.errors && from == 0 {
        assert !HasRows(e) && PrefixOf(job, e, q) && GoodFor(job, e, q);
      } else if e.pivots == Trained(p) && outcome.Killed? {
        if from == 0 && e.codes == Some([]) && e.errors == d.errors {
          RowlessPrefix(job, d, q, p);
        }
        assert GoodFor(job, e, p);
      } else {
        assert FullBuild(job, e, p) && GoodFor(job, e, p);
        assert FinishedBuild(job, e, p, outcome.stats);
      }
    }
  }

  lemma ResumeRun(job: Job, d: Disk, trained: nat, outcome: Outcome, e: Disk)
    requires job.Valid() && Good(job, d) && RunLeaves(job, d, true, trained, outcome, e)
    ensures Good(job, e)
    ensures job.rows > 0 ==> CompletesProperly(job, outcome, e)
  {
    var q :| GoodFor(job, d, q);
    var decision := Decide(job, d, true);
    if !decision.Refuse? {
      StartMeansHeld(job, d, q);
      if decision.AlreadyComplete? {
        if job.rows > 0 {
          HeldRows(job, d, q, job.rows);
          HeldHasRows(job, d, job.rows);
          assert FinishedBuild(job, e, q, None);
        }
      } else {
        if decision.from == 0 {
          HeldNoRows(job, d);
        }
        RunFrom(job, d, true, trained, outcome, e, q);
      }
    }
  }

  lemma FreshRun(job: Job, d: Disk, trained: nat, outcome: Outcome, e: Disk)
    requires job.Valid() && Good(job, d) && !HasRows(d) && RunLeaves(job, d, false, trained, outcome, e)
    ensures Good(job, e) && outcome != Refused
    ensures outcome.Complete? ==> outcome.stats.Some? && FinishedBuild(job, e, trained, outcome.stats)
  {
    var q :| GoodFor(job, d, q);
    RunFrom(job, d, false, trained, outcome, e, q);
    Targets(job, d, trained, 0);
  }

  // ---------------------------------------------------------------- histories

  datatype RunRecord = RunRecord(resume: bool, trained: nat, outcome: Outcome, disk: Disk)

  function DiskBefore(start: Disk, history: seq<RunRecord>, i: nat): Disk
    requires i <= |history|
  {
    if i == 0 then start else history[i - 1].disk
  }

  /** A first run of either kind on absent outputs, then any number of --resume runs, each
      killed anywhere or stopping by itself. */
  ghost predicate IsHistory(job: Job, start: Disk, history: seq<RunRecord>)
    requires job.Valid()
  {
    && start.codes.None? && start.errors.None?
    && (forall i :: 0 <= i < |history| ==>
         RunLeaves(job, DiskBefore(start, history, i), history[i].resume, history[i].trained, history[i].outcome, history[i].disk))
    && (forall i :: 0 < i < |history| ==> history[i].resume)
  }

  /** After any such history, whatever each training run produced: no file mixes pivot sets, and
      a run that reports completion leaves exactly the files, and any statistics it reports are
      exactly those, of one uninterrupted build with the pivots now on disk. */
  lemma {:induction false} HistoriesAreSafe(job: Job, start: Disk, history: seq<RunRecord>, i: nat)
    requires job.Valid() && IsHistory(job, start, history) && i < |history|
    ensures Good(job, history[i].disk)
    ensures job.rows > 0 ==> CompletesProperly(job, history[i].outcome, history[i].disk)
  {
    if i == 0 {
      FirstRun(job, start, history);
    } else {
      HistoriesAreSafe(job, start, history, i - 1);
      LaterRun(job, start, history, i);
    }
  }

  lemma FirstRun(job: Job, start: Disk, history: seq<RunRecord>)
    requires job.Valid() && IsHistory(job, start, history) && history != []
    ensures Good(job, history[0].disk)
    ensures job.rows > 0 ==> CompletesProperly(job, history[0].outcome, history[0].disk)
  {
    var r := history[0];
    assert GoodFor(job, start, 0);
    assert DiskBefore(start, history, 0) == start;
    if r.resume {
      ResumeRun(job, start, r.trained, r.outcome, r.disk);
    } else {
      FreshRun(job, start, r.trained, r.outcome, r.disk);
    }
  }

  lemma LaterRun(job: Job, start: Disk, history: seq<RunRecord>, i: nat)
    requires job.Valid() && IsHistory(job, start, history) && 0 < i < |history| && Good(job, history[i - 1].disk)
    ensures Good(job, history[i].disk)
    ensures job.rows > 0 ==> CompletesProperly(job, history[i].outcome, history[i].disk)
  {
    assert DiskBefore(start, history, i) == history[i - 1].disk;
    ResumeRun(job, history[i - 1].disk, history[i].trained, history[i].outcome, history[i].disk);
  }

  /** When a resume that is not killed refuses: exactly if the outputs are not both absent and do
      not hold the same whole number of rows, or training was cut short. */
  lemma ResumeRefusesIff(job: Job, d: Disk, trained: nat, outcome: Outcome, e: Disk)
    requires job.Valid() && job.rows > 0 && Good(job, d) && RunLeaves(job, d, true, trained, outcome, e) && outcome != Killed
    ensures outcome == Refused
            <==> d.pivots == Torn
                 || !((d.codes.None? && d.errors.None?) || (exists n: nat :: HoldsRows(job, d, n)))
  {
    var q :| GoodFor(job, d, q);
    InspectGood(job, d, q);
    if !Decide(job, d, true).Refuse? {
      StartMeansHeld(job, d, q);
      if Decide(job, d, true).AlreadyComplete? {
        HeldHasRows(job, d, job.rows);
      }
    } else if exists n: nat :: HoldsRows(job, d, n) {
      var n: nat :| HoldsRows(job, d, n);
      HeldInspect(job, d, q, n);
    }
  }

  lemma HeldInspect(job: Job, d: Disk, q: nat, n: nat)
    requires job.Valid() && GoodFor(job, d, q) && HoldsRows(job, d, n)
    ensures n <= job.rows && !Decide(job, d, true).Refuse?
  {
    FileLengths(job, q, job.rows);
    InspectGood(job, d, q);
    MultipleMod(job.chunks, n);
    MultipleMod(4, n);
  }

  // ---------------------------------------------------------------- any disk whatever

  /** Both outputs start with the headers of this job and hold its first n rows in length, with a pivot file
      beside them if there are rows. */
  ghost predicate Resumable(job: Job, d: Disk, n: nat) {
    && n <= job.rows && HoldsRows(job, d, n) && (n > 0 ==> d.pivots != Absent)
    && d.codes.value[..8] == Header(job.rows, job.chunks) && d.errors.value[..8] == Header(job.rows, 1)
  }

  lemma InspectIff(file: Option<seq<Byte>>, rows: nat, cols: nat, elementBytes: nat, n: nat)
    requires rows < 0x8000_0000 && 0 < cols < 0x8000_0000 && elementBytes > 0
    ensures Inspect(file, elementBytes) == Found(rows, cols, n)
       <==> file.Some? && |file.value| == 8 + n * (cols * elementBytes) && file.value[..8] == Header(rows, cols)
  {
    if file.Some? && |file.value| >= 8 {
      var width, size := cols * elementBytes, |file.value| - 8;
      TwoNumbers(file.value, rows, cols);
      MulLe(1, cols, elementBytes);
      WholeRows(size, width, n);
    }
  }

  lemma WholeRows(size: nat, width: nat, n: nat)
    requires width > 0
    ensures size % width == 0 && size / width == n <==> size == n * width
  {
    DivMod(size, width);
    MultipleMod(width, n);
  }

  /** Whatever is on disk: a resume goes ahead exactly if both outputs are absent, or both are outputs of this job
      with the same whole number of rows; it starts behind these rows, and is complete if these are all. */
  lemma DecisionIff(job: Job, d: Disk)
    requires job.Valid()
    ensures d.codes.None? && d.errors.None? ==>
      Decide(job, d, true) == if job.rows == 0 then AlreadyComplete else Start(0, d.pivots != Absent)
    ensures forall n: nat | Resumable(job, d, n) ::
      Decide(job, d, true) == if n == job.rows then AlreadyComplete else Start(n, d.pivots != Absent)
    ensures Decide(job, d, true).Refuse? <==> !(d.codes.None? && d.errors.None?) && forall n: nat :: !Resumable(job, d, n)
  {
    forall n: nat ensures Resumable(job, d, n) <==> BothFound(job, d, n) && n <= job.rows && (n > 0 ==> d.pivots != Absent) {
      InspectIff(d.codes, job.rows, job.chunks, 1, n);
      InspectIff(d.errors, job.rows, 1, 4, n);
    }
    if !Decide(job, d, true).Refuse? && d.codes.Some? {
      assert BothFound(job, d, Inspect(d.codes, 1).encodedRows);
    }
  }

  ghost predicate BothFound(job: Job, d: Disk, n: nat) {
    Inspect(d.codes, 1) == Found(job.rows, job.chunks, n) && Inspect(d.errors, 4) == Found(job.rows, 1, n)
  }

  /** So over every disk, good or not: a resume that is not killed refuses, and then changes nothing, exactly if the
      outputs are not this job's with the same whole number of rows, or rows are missing and the pivots are torn. */
  lemma ResumeRefusesForeignIff(job: Job, d: Disk, trained: nat, outcome: Outcome, e: Disk)
    requires job.Valid() && RunLeaves(job, d, true, trained, outcome, e) && outcome != Killed
    ensures outcome == Refused
       <==> if d.codes.None? && d.errors.None? then job.rows > 0 && d.pivots == Torn
            else (forall n: nat :: !Resumable(job, d, n)) || (d.pivots == Torn && !Resumable(job, d, job.rows))
    ensures outcome == Refused ==> e == d
  {
    DecisionIff(job, d);
    if Resumable(job, d, job.rows) {
      assert Decide(job, d, true) == AlreadyComplete;
    } else if n: nat :| Resumable(job, d, n) {
      assert Decide(job, d, true) == Start(n, d.pivots != Absent);
    }
  }

  /** An empty dataset is the exception: --resume on absent outputs reports completion and
      writes nothing. */
  lemma EmptyDatasetResumeWritesNothing(job: Job, pivots: PivotFile, trained: nat, outcome: Outcome, e: Disk)
    requires job.Valid() && job.rows == 0 && RunLeaves(job, Disk(pivots, None, None), true, trained, outcome, e)
    ensures outcome == Complete(None) && e == Disk(pivots, None, None)
  {
  }

  ghost predicate ResumesProperly(job: Job)
    requires job.Valid()
  {
    forall d: Disk, t: nat, outcome: Outcome, e: Disk :: Good(job, d) && RunLeaves(job, d, true, t, outcome, e) ==> CompletesProperly(job, outcome, e)
  }

  /** Every completion that a resume reports on a good disk is a proper build, exactly if there are rows to build. */
  lemma ResumesProperlyIff(job: Job)
    requires job.Valid()
    ensures ResumesProperly(job) <==> job.rows > 0
  {
    if job.rows > 0 {
      forall d: Disk, t: nat, outcome: Outcome, e: Disk | Good(job, d) && RunLeaves(job, d, true, t, outcome, e)
        ensures CompletesProperly(job, outcome, e)
      {
        ResumeRun(job, d, t, outcome, e);
      }
    } else {
      var d := Disk(Absent, None, None);
      assert GoodFor(job, d, 0);
      assert RunLeaves(job, d, true, 0, Complete(None), d);
      assert !CompletesProperly(job, Complete(None), d);
    }
  }

  // ---------------------------------------------------------------- fresh runs over existing outputs

  /** k rows of one pivot set on disk, with possibly another set's pivots beside them. */
  function Kept(job: Job, p: nat, k: nat, pivots: nat): Disk {
    Disk(Trained(pivots), Some(CodeFile(job, p, k)), Some(ErrorFile(job, p, k)))
  }

  /** The first k rows from p, the others from t, and t's pivots. */
  function Mixed(job: Job, p: nat, t: nat, k: nat): Disk
    requires k <= job.rows
  {
    Disk(Trained(t), Some(CodeFile(job, p, k) + RowBytes(job.encode, t, k, job.rows)),
         Some(ErrorFile(job, p, k) + RowBytes(job.error, t, k, job.rows)))
  }

  lemma DecideHeld(job: Job, d: Disk, p: nat, n: nat)
    requires job.Valid() && PrefixOf(job, d, p) && 0 < n <= job.rows && HoldsRows(job, d, n) && d.pivots != Absent
    ensures Decide(job, d, true) == if n == job.rows then AlreadyComplete else Start(n, true)
  {
    InspectGood(job, d, p);
    MultipleMod(job.chunks, n);
    MultipleMod(4, n);
  }

  /** A fresh run keeps the disk good, wherever it stops, exactly if no output has rows yet. */
  lemma FreshRunKeepsGoodIff(job: Job, d: Disk, t: nat)
    requires job.Valid() && Good(job, d)
    ensures (forall outcome, e :: RunLeaves(job, d, false, t, outcome, e) ==> Good(job, e)) <==> !HasRows(d)
  {
    if HasRows(d) {
      var e := d.(pivots := Absent);
      assert RunLeaves(job, d, false, t, Killed, e);
      assert !Good(job, e);
    } else {
      forall outcome, e | RunLeaves(job, d, false, t, outcome, e) ensures Good(job, e) {
        FreshRun(job, d, t, outcome, e);
      }
    }
  }

  /** The first n rows are stored as the same bytes under both pivot sets. */
  ghost predicate SameRows(job: Job, p: nat, t: nat, n: nat) {
    RowBytes(job.encode, p, 0, n) == RowBytes(job.encode, t, 0, n) && RowBytes(job.error, p, 0, n) == RowBytes(job.error, t, 0, n)
  }

  /** A fresh run, stopped anywhere, and a resume after it: each completion is proper. */
  ghost predicate FreshThenResumeProper(job: Job, d: Disk, t: nat)
    requires job.Valid()
  {
    forall first: Outcome, e: Disk, u: nat, second: Outcome, f: Disk ::
      RunLeaves(job, d, false, t, first, e) && RunLeaves(job, e, true, u, second, f) ==>
        CompletesProperly(job, first, e) && CompletesProperly(job, second, f)
  }

  /** What the outputs may hold before a fresh run: no whole rows, or fewer than all of them and these
      the same under the pivots on disk and the new ones. */
  ghost predicate Replaceable(job: Job, d: Disk, t: nat) {
    forall n: nat :: n > 0 && HoldsRows(job, d, n) ==> n < job.rows && d.pivots.Trained? && SameRows(job, d.pivots.id, t, n)
  }

  /** Over every good disk: no completion of a fresh run or of the resume behind it is improper, exactly if
      the outputs were replaceable. With all rows on disk they never are: a kill inside the training
      leaves a torn pivot file, and the resume reports completion without loading it. */
  lemma FreshThenResumeProperIff(job: Job, d: Disk, t: nat)
    requires job.Valid() && job.rows > 0 && Good(job, d)
    ensures FreshThenResumeProper(job, d, t) <==> Replaceable(job, d, t)
  {
    if Replaceable(job, d, t) {
      forall first: Outcome, e: Disk, u: nat, second: Outcome, f: Disk |
        RunLeaves(job, d, false, t, first, e) && RunLeaves(job, e, true, u, second, f)
        ensures CompletesProperly(job, first, e) && CompletesProperly(job, second, f)
      {
        ReplaceableIsSafe(job, d, t, first, e, u, second, f);
      }
    } else {
      var n: nat :| n > 0 && HoldsRows(job, d, n) && !(n < job.rows && d.pivots.Trained? && SameRows(job, d.pivots.id, t, n));
      ImproperCompletion(job, d, t, n);
    }
  }

  /** The disks a fresh run can leave: good ones, and ones the next resume refuses or is not misled by. */
  lemma AfterFreshRun(job: Job, d: Disk, t: nat, first: Outcome, e: Disk)
    requires job.Valid() && job.rows > 0 && Good(job, d) && Replaceable(job, d, t) && RunLeaves(job, d, false, t, first, e)
    ensures CompletesProperly(job, first, e)
    ensures Good(job, e) || Decide(job, e, true).Refuse? || (Decide(job, e, true).Start? && e.pivots == Torn && Decide(job, e, true).reusePivots)
  {
    var q :| GoodFor(job, d, q);
    Targets(job, d, t, 0);
    if first.Complete? {
      assert FinishedBuild(job, e, t, first.stats) && GoodFor(job, e, t);
    } else if e.codes == d.codes && e.errors == d.errors {
      InterruptedTraining(job, d, t, e, q);
    } else if e.errors == d.errors && e.codes == Some([]) {
      assert Inspect(e.codes, 1).Malformed?;
    } else {
      assert GoodFor(job, e, t);
    }
  }

  /** The outputs are as before; only the pivots may have changed. */
  lemma InterruptedTraining(job: Job, d: Disk, t: nat, e: Disk, q: nat)
    requires job.Valid() && job.rows > 0 && GoodFor(job, d, q) && Replaceable(job, d, t)
    requires e.codes == d.codes && e.errors == d.errors && (e.pivots == d.pivots || !e.pivots.Trained? || e.pivots == Trained(t))
    ensures Good(job, e) || Decide(job, e, true).Refuse? || (Decide(job, e, true).Start? && e.pivots == Torn && Decide(job, e, true).reusePivots)
  {
    if !HasRows(d) || e.pivots == d.pivots {
      assert GoodFor(job, e, q);
    } else if !Decide(job, e, true).Refuse? {
      StartMeansHeld(job, e, q);
      var n := if Decide(job, e, true).AlreadyComplete? then job.rows else Decide(job, e, true).from;
      if n == 0 {
        HeldNoRows(job, d);
      }
      assert HoldsRows(job, d, n);
      if e.pivots == Trained(t) {
        HeldRows(job, d, q, n);
        FileLengths(job, t, n);
        assert PrefixOf(job, e, t) by { SameFiles(job, q, t, n); }
        assert GoodFor(job, e, t);
      }
    }
  }

  lemma SameFiles(job: Job, p: nat, t: nat, n: nat)
    requires job.Valid() && n <= job.rows && SameRows(job, p, t, n)
    ensures CodeFile(job, p, n) == CodeFile(job, t, n) <= CodeFile(job, t, job.rows)
    ensures ErrorFile(job, p, n) == ErrorFile(job, t, n) <= ErrorFile(job, t, job.rows)
  {
    FileLengths(job, t, n);
  }

  lemma ReplaceableIsSafe(job: Job, d: Disk, t: nat, first: Outcome, e: Disk, u: nat, second: Outcome, f: Disk)
    requires job.Valid() && job.rows > 0 && Good(job, d) && Replaceable(job, d, t)
    requires RunLeaves(job, d, false, t, first, e) && RunLeaves(job, e, true, u, second, f)
    ensures CompletesProperly(job, first, e) && CompletesProperly(job, second, f)
  {
    AfterFreshRun(job, d, t, first, e);
    if Good(job, e) {
      ResumeRun(job, e, u, second, f);
    }
  }

  /** Otherwise two runs end in a completion that no build explains. */
  lemma ImproperCompletion(job: Job, d: Disk, t: nat, n: nat)
    requires job.Valid() && Good(job, d) && n > 0 && HoldsRows(job, d, n)
    requires !(n < job.rows && d.pivots.Trained? && SameRows(job, d.pivots.id, t, n))
    ensures !FreshThenResumeProper(job, d, t)
  {
    var p :| GoodFor(job, d, p);
    HeldHasRows(job, d, n);
    HeldInspect(job, d, p, n);
    HeldRows(job, d, p, n);
    if n == job.rows {
      var torn := d.(pivots := Torn);
      DecideHeld(job, torn, p, n);
      assert RunLeaves(job, d, false, t, Killed, torn);
      assert RunLeaves(job, torn, true, t, Complete(None), torn);
      assert !CompletesProperly(job, Complete(None), torn);
    } else {
      FreshRunOverRowsCanMix(job, p, t, n);
      MixedIsFullBuildIff(job, p, t, n);
      var stats :| RunLeaves(job, Kept(job, p, n, t), true, t, Complete(stats), Mixed(job, p, t, n));
      assert d == Kept(job, p, n, p);
      assert !CompletesProperly(job, Complete(stats), Mixed(job, p, t, n));
    }
  }

  /** How rows mix: a fresh run over existing rows, killed between training and truncation, leaves old
      rows beside new pivots, and the next resume completes with both. */
  lemma FreshRunOverRowsCanMix(job: Job, p: nat, t: nat, k: nat)
    requires job.Valid() && 0 < k < job.rows
    ensures RunLeaves(job, Kept(job, p, k, p), false, t, Killed, Kept(job, p, k, t))
    ensures exists stats :: RunLeaves(job, Kept(job, p, k, t), true, t, Complete(stats), Mixed(job, p, t, k))
  {
    FileLengths(job, p, k);
    DecideHeld(job, Kept(job, p, k, t), p, k);
    var stats := Some(ExtendStats(job, FileStats(job, ErrorFile(job, p, k), k), t, k, job.rows));
    assert CodeRest(job, t, k) == RowBytes(job.encode, t, k, job.rows);
    assert ErrorRest(job, t, k) == RowBytes(job.error, t, k, job.rows);
    assert RunLeaves(job, Kept(job, p, k, t), true, t, Complete(stats), Mixed(job, p, t, k));
  }

  /** The mixed outputs are a build under some pivots exactly when the kept rows are the new pivots' rows. */
  lemma MixedIsFullBuildIff(job: Job, p: nat, t: nat, k: nat)
    requires job.Valid() && 0 < k < job.rows
    ensures FullBuild(job, Mixed(job, p, t, k), t) <==> SameRows(job, p, t, k)
  {
    FileLengths(job, p, k);
    FileLengths(job, t, k);
    if FullBuild(job, Mixed(job, p, t, k), t) {
      PrefixByLength(CodeFile(job, p, k), CodeFile(job, t, k), CodeFile(job, t, job.rows));
      PrefixByLength(ErrorFile(job, p, k), ErrorFile(job, t, k), ErrorFile(job, t, job.rows));
      PayloadOf(Header(job.rows, job.chunks), RowBytes(job.encode, p, 0, k), RowBytes(job.encode, t, 0, k));
      PayloadOf(Header(job.rows, 1), RowBytes(job.error, p, 0, k), RowBytes(job.error, t, 0, k));
    }
  }

  lemma PayloadOf(head: seq<Byte>, a: seq<Byte>, b: seq<Byte>)
    requires head + a == head + b
    ensures a == b
  {
    assert (head + a)[|head|..] == a;
    assert (head + b)[|head|..] == b;
  }
}
