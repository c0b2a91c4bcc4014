/** Kills, resumes and retrained pivots of the hybrid-PQ builder: what histories leave on disk. */
module HybridResumeTheorems {
  import opened Arithmetic
  import opened Bytes
  import opened HybridResume
  import opened PivotFiles
  import opened Wrappers

  /** Every output is absent or a byte prefix of its full content under pivot set p. */
  ghost predicate PrefixState(job: Job, p: nat, files: Files) {
    && |files| == |job.outputs|
    && forall i :: 0 <= i < |files| && files[i].Some? ==> files[i].value <= Content(job, job.outputs[i], p, job.rows)
  }

  ghost predicate Full(job: Job, p: nat, files: Files) {
    |files| == |job.outputs| && forall i :: 0 <= i < |files| ==> files[i] == Some(Content(job, job.outputs[i], p, job.rows))
  }

  /** Some output goes beyond its header. */
  predicate HasRows(files: Files) {
    exists i :: 0 <= i < |files| && files[i].Some? && |files[i].value| > 8
  }

  ghost predicate GoodFor(job: Job, d: Disk, p: nat) {
    PrefixState(job, p, d.files) && (HasRows(d.files) ==> d.pivots == Trained(p))
  }

  /** No output mixes rows of two pivot sets, and rows on disk belong to the pivots on disk. */
  ghost predicate Good(job: Job, d: Disk) {
    exists p :: GoodFor(job, d, p)
  }

  /** A reported completion has left the outputs of one uninterrupted build with the pivots on disk. */
  ghost predicate CompletesProperly(job: Job, outcome: Outcome, d: Disk) {
    outcome.Complete? || outcome.AlreadyComplete? ==> d.pivots.Trained? && Full(job, d.pivots.id, d.files)
  }

  // ---------------------------------------------------------------- whole rows

  /** An output that holds n whole rows, an absent one counting as none. */
  ghost predicate Holds(o: Output, file: Option<seq<Byte>>, n: nat) {
    if file.None? then n == 0 else |file.value| == 8 + n * o.width
  }

  ghost predicate AllHold(job: Job, files: Files, n: nat)
    requires |files| == |job.outputs|
  {
    forall i :: 0 <= i < |files| ==> Holds(job.outputs[i], files[i], n)
  }

  lemma CompletedIff(o: Output, file: Option<seq<Byte>>, n: nat)
    requires o.Valid()
    ensures CompletedRows(file, o.width) == Ok(n) <==> Holds(o, file, n)
  {
    if file.Some? && |file.value| >= 8 {
      DivMod(|file.value| - 8, o.width);
      DivModUnique(n, o.width, 0);
    }
  }

  lemma AgreeIffAllHold(job: Job, files: Files, n: nat)
    requires job.Valid() && |files| == |job.outputs|
    ensures Agree(job, files, n) <==> AllHold(job, files, n)
  {
    forall i | 0 <= i < |files| ensures CompletedRows(files[i], job.outputs[i].width) == Ok(n) <==> Holds(job.outputs[i], files[i], n) {
      CompletedIff(job.outputs[i], files[i], n);
    }
  }

  lemma RowsHeld(job: Job, files: Files, n: nat)
    requires job.Valid() && |files| == |job.outputs| && AllHold(job, files, n)
    ensures HasRows(files) <==> n > 0
  {
    assert Holds(job.outputs[0], files[0], n);
    if n > 0 {
      MulLe(1, n, job.outputs[0].width);
    }
  }

  lemma NoExtraRows(job: Job, o: Output, p: nat, bytes: seq<Byte>, n: nat)
    requires o.Valid() && bytes <= Content(job, o, p, job.rows) && |bytes| == 8 + n * o.width
    ensures n <= job.rows
  {
    ContentLength(job, o, p, job.rows);
    CancelLe(n, job.rows, o.width);
  }

  /** A prefix with n whole rows is the content after n rows. */
  lemma HeldContent(job: Job, o: Output, p: nat, bytes: seq<Byte>, n: nat)
    requires o.Valid() && bytes <= Content(job, o, p, job.rows) && n <= job.rows && Holds(o, Some(bytes), n)
    ensures bytes == Content(job, o, p, n)
  {
    ContentLength(job, o, p, n);
    ContentPrefix(job, o, p, n, job.rows);
  }

  /** The count a resume finds is the number of rows that all outputs hold. */
  lemma StartIff(job: Job, p: nat, files: Files, n: nat)
    requires job.Valid() && PrefixState(job, p, files)
    ensures StartRow(job, files, true) == Ok(n) <==> AllHold(job, files, n)
  {
    AgreeIffAllHold(job, files, n);
    if AllHold(job, files, n) {
      CompletedIff(job.outputs[0], files[0], n);
      if files[0].Some? {
        NoExtraRows(job, job.outputs[0], p, files[0].value, n);
      }
    }
  }

  lemma HeaderOfPrefix(job: Job, o: Output, p: nat, bytes: seq<Byte>)
    requires job.Valid() && o.Valid() && bytes <= Content(job, o, p, job.rows)
    ensures HeaderFits(job, o, Some(bytes)) <==> !o.checked || |bytes| >= 8
  {
    if |bytes| >= 8 {
      assert bytes[..8] == Header(job, o);
      assert bytes[..4] == bytes[..8][..4] == U32(job.rows);
      assert bytes[4..8] == bytes[..8][4..8] == U32(o.width);
      U32RoundTrip(job.rows);
      U32RoundTrip(o.width);
    }
  }

  lemma HeldHeadersFit(job: Job, p: nat, files: Files, n: nat)
    requires job.Valid() && PrefixState(job, p, files) && AllHold(job, files, n)
    ensures HeadersFit(job, files)
  {
    forall i | 0 <= i < |files| ensures HeaderFits(job, job.outputs[i], files[i]) {
      assert Holds(job.outputs[i], files[i], n);
      if files[i].Some? {
        HeaderOfPrefix(job, job.outputs[i], p, files[i].value);
      }
    }
  }

  /** Without rows the pivots leave no trace in the outputs. */
  lemma RowlessPrefix(job: Job, p: nat, q: nat, files: Files)
    requires job.Valid() && PrefixState(job, p, files) && !HasRows(files)
    ensures PrefixState(job, q, files)
  {
    forall i | 0 <= i < |files| && files[i].Some? ensures files[i].value <= Content(job, job.outputs[i], q, job.rows) {
      assert |files[i].value| <= 8;
      assert Content(job, job.outputs[i], p, job.rows)[..8] == Header(job, job.outputs[i]) == Content(job, job.outputs[i], q, job.rows)[..8];
    }
  }

  // ---------------------------------------------------------------- one run

  /** What a run that starts at row `from` works towards is the full content. */
  lemma Target(job: Job, o: Output, p: nat, before: Option<seq<Byte>>, from: nat)
    requires o.Valid() && from <= job.rows
    requires from > 0 ==> before.Some? && before.value <= Content(job, o, p, job.rows) && CompletedRows(before, o.width) == Ok(from)
    ensures Base(before, from) + Head(job, o, from) + Rows(o, p, from, job.rows) == Content(job, o, p, job.rows)
  {
    if from > 0 {
      CompletedIff(o, before, from);
      HeldContent(job, o, p, before.value, from);
      ContentPrefix(job, o, p, from, job.rows);
      assert Base(before, from) + [] == before.value;
    } else {
      assert [] + Header(job, o) == Header(job, o);
    }
  }

  lemma Targets(job: Job, p: nat, files: Files, from: nat)
    requires job.Valid() && |files| == |job.outputs| && from <= job.rows
    requires from > 0 ==> PrefixState(job, p, files) && Agree(job, files, from)
    ensures forall i :: 0 <= i < |files| ==>
      Base(files[i], from) + Head(job, job.outputs[i], from) + Rows(job.outputs[i], p, from, job.rows) == Content(job, job.outputs[i], p, job.rows)
  {
    forall i | 0 <= i < |files|
      ensures Base(files[i], from) + Head(job, job.outputs[i], from) + Rows(job.outputs[i], p, from, job.rows)
           == Content(job, job.outputs[i], p, job.rows)
    {
      if from > 0 {
        assert CompletedRows(files[i], job.outputs[i].width) == Ok(from);
      }
      Target(job, job.outputs[i], p, files[i], from);
    }
  }

  lemma PartlyIsPrefix(job: Job, p: nat, before: Files, from: nat, files: Files)
    requires job.Valid() && from <= job.rows && AllPartly(job, p, before, from, files)
    requires from > 0 ==> PrefixState(job, p, before) && Agree(job, before, from)
    ensures PrefixState(job, p, files)
  {
    Targets(job, p, before, from);
  }

  lemma CompleteIsFull(job: Job, p: nat, before: Files, from: nat, files: Files)
    requires job.Valid() && from <= job.rows && AllComplete(job, p, before, from, files)
    requires from > 0 ==> PrefixState(job, p, before) && Agree(job, before, from)
    ensures Full(job, p, files)
  {
    Targets(job, p, before, from);
    forall i | 0 <= i < |files| ensures files[i] == Some(Content(job, job.outputs[i], p, job.rows)) {
      assert files[i].value + [] == files[i].value;
    }
  }

  lemma AllRowsIsFull(job: Job, p: nat, files: Files)
    requires job.Valid() && job.rows > 0 && PrefixState(job, p, files) && Agree(job, files, job.rows)
    ensures Full(job, p, files)
  {
    forall i | 0 <= i < |files| ensures files[i] == Some(Content(job, job.outputs[i], p, job.rows)) {
      assert CompletedRows(files[i], job.outputs[i].width) == Ok(job.rows);
      CompletedIff(job.outputs[i], files[i], job.rows);
      HeldContent(job, job.outputs[i], p, files[i].value, job.rows);
    }
  }

  /** While the outputs are opened they stay prefixes: each is as before or empty. */
  lemma OpeningIsPrefix(job: Job, p: nat, before: Files, from: nat, count: nat, files: Files)
    requires PrefixState(job, p, before) && Opening(before, from, count, files)
    ensures PrefixState(job, p, files)
  {
  }

  /** A run whose pivots fit what the outputs hold keeps them fitting. */
  lemma RunUnder(job: Job, d: Disk, resume: bool, trained: nat, outcome: Outcome, e: Disk, p: nat)
    requires job.Valid() && PrefixState(job, p, d.files) && RunLeaves(job, d, resume, trained, outcome, e)
    requires !RefusesAtOnce(job, d, resume) && p == if Reuses(d, resume) then d.pivots.id else trained
    ensures PrefixState(job, p, e.files)
    ensures outcome != Killed ==> e.pivots == Trained(p)
    ensures e.pivots == Trained(p) || e.files == d.files
    ensures job.rows > 0 ==> CompletesProperly(job, outcome, e)
  {
    var start := StartRow(job, d.files, resume);
    match outcome
    case Refused =>
    case AlreadyComplete => if job.rows > 0 { AllRowsIsFull(job, p, d.files); }
    case Complete(_) => CompleteIsFull(job, p, d.files, start.value, e.files); FullIsPrefix(job, p, e.files);
    case Killed =>
      if e.files != d.files {
        if count: nat :| Opening(d.files, start.value, count, e.files) {
          OpeningIsPrefix(job, p, d.files, start.value, count, e.files);
        } else {
          PartlyIsPrefix(job, p, d.files, start.value, e.files);
        }
      }
  }

  lemma FullIsPrefix(job: Job, p: nat, files: Files)
    requires Full(job, p, files)
    ensures PrefixState(job, p, files)
  {
  }

  /** A resume, or any run while no output has rows, keeps the disk good and completes properly. */
  lemma RunKeepsGood(job: Job, d: Disk, resume: bool, trained: nat, outcome: Outcome, e: Disk)
    requires job.Valid() && |d.files| == |job.outputs| && Good(job, d) && (resume || !HasRows(d.files))
    requires RunLeaves(job, d, resume, trained, outcome, e)
    ensures Good(job, e)
    ensures job.rows > 0 ==> CompletesProperly(job, outcome, e)
  {
    var q :| GoodFor(job, d, q);
    if !RefusesAtOnce(job, d, resume) {
      var p := if Reuses(d, resume) then d.pivots.id else trained;
      if !HasRows(d.files) {
        RowlessPrefix(job, q, p, d.files);
      }
      RunUnder(job, d, resume, trained, outcome, e, p);
      assert GoodFor(job, e, p) || GoodFor(job, e, q);
    }
  }

  // ---------------------------------------------------------------- histories

  datatype RunRecord = RunRecord(resume: bool, trained: nat, outcome: Outcome, disk: Disk)

  function LastDisk(start: Disk, history: seq<RunRecord>): Disk {
    if history == [] then start else history[|history| - 1].disk
  }

  /** Runs killed anywhere or ending by themselves, each training whatever pivots it trains; --resume is
      given to every run that finds rows. */
  ghost predicate IsHistory(job: Job, start: Disk, history: seq<RunRecord>)
    requires job.Valid()
  {
    history != [] ==>
      var front := history[..|history| - 1];
      IsHistory(job, start, front) && IsRun(job, LastDisk(start, front), history[|history| - 1])
  }

  ghost predicate IsRun(job: Job, before: Disk, r: RunRecord)
    requires job.Valid()
  {
    && |before.files| == |job.outputs| && (r.resume || !HasRows(before.files))
    && RunLeaves(job, before, r.resume, r.trained, r.outcome, r.disk)
  }

  /** Absent outputs are good, whatever the pivot file is. */
  lemma NothingWritten(job: Job, start: Disk)
    requires |start.files| == |job.outputs| && forall j :: 0 <= j < |start.files| ==> start.files[j].None?
    ensures Good(job, start) && !HasRows(start.files)
  {
    assert GoodFor(job, start, 0);
  }

  /** After every history from absent outputs no output mixes pivot sets, and a last run that reports
      completion has left exactly the build of the pivots on disk. */
  lemma {:induction false} HistoriesAreSafe(job: Job, start: Disk, history: seq<RunRecord>)
    requires job.Valid() && |start.files| == |job.outputs| && (forall j :: 0 <= j < |start.files| ==> start.files[j].None?)
    requires IsHistory(job, start, history) && history != []
    ensures Good(job, history[|history| - 1].disk)
    ensures job.rows > 0 ==> CompletesProperly(job, history[|history| - 1].outcome, history[|history| - 1].disk)
  {
    var front, r := history[..|history| - 1], history[|history| - 1];
    if front == [] {
      NothingWritten(job, start);
    } else {
      HistoriesAreSafe(job, start, front);
    }
    RunKeepsGood(job, LastDisk(start, front), r.resume, r.trained, r.outcome, r.disk);
  }

  /** On a good disk, a resume that is not killed refuses exactly when the pivots are torn or the outputs do
      not all hold the same whole number of rows. */
  lemma ResumeRefusesIff(job: Job, d: Disk, trained: nat, outcome: Outcome, e: Disk)
    requires job.Valid() && |d.files| == |job.outputs| && Good(job, d)
    requires RunLeaves(job, d, true, trained, outcome, e) && outcome != Killed
    ensures outcome == Refused <==> d.pivots == Torn || !exists n: nat :: AllHold(job, d.files, n)
  {
    var q :| GoodFor(job, d, q);
    if n: nat :| AllHold(job, d.files, n) {
      HeldHeadersFit(job, q, d.files, n);
      StartIff(job, q, d.files, n);
    } else if StartRow(job, d.files, true).Ok? {
      StartIff(job, q, d.files, StartRow(job, d.files, true).value);
    }
  }

  /** Even without --resume a run refuses, exactly when base codes it would write itself were cut off
      inside their header. */
  lemma FreshRefusesIff(job: Job, d: Disk, trained: nat, outcome: Outcome, e: Disk)
    requires job.Valid() && |d.files| == |job.outputs| && Good(job, d)
    requires RunLeaves(job, d, false, trained, outcome, e) && outcome != Killed
    ensures outcome == Refused
            <==> exists i :: 0 <= i < |d.files| && job.outputs[i].checked && d.files[i].Some? && |d.files[i].value| < 8
  {
    var q :| GoodFor(job, d, q);
    forall i | 0 <= i < |d.files| && d.files[i].Some?
      ensures HeaderFits(job, job.outputs[i], d.files[i]) <==> !job.outputs[i].checked || |d.files[i].value| >= 8
    {
      HeaderOfPrefix(job, job.outputs[i], q, d.files[i].value);
    }
    if outcome == Refused {
      var i :| 0 <= i < |d.files| && !HeaderFits(job, job.outputs[i], d.files[i]);
      assert job.outputs[i].checked && |d.files[i].value| < 8;
    }
  }

  // ---------------------------------------------------------------- any disk whatever

  /** The row to start from is the whole number of rows that all outputs hold, if it is not too large. */
  lemma StartRowIff(job: Job, files: Files, n: nat)
    requires job.Valid() && |files| == |job.outputs|
    ensures StartRow(job, files, true) == Ok(n) <==> n <= job.rows && AllHold(job, files, n)
  {
    AgreeIffAllHold(job, files, n);
    if AllHold(job, files, n) {
      CompletedIff(job.outputs[0], files[0], n);
    }
  }

  /** A checked output that does not start with this job's header. */
  ghost predicate Foreign(job: Job, o: Output, file: Option<seq<Byte>>) {
    o.checked && file.Some? && (|file.value| < 8 || file.value[..8] != Header(job, o))
  }

  /** Over every disk, good or not: a run that is not killed refuses, without touching an output, exactly if a
      checked output is not this job's, or it resumes and the pivots are torn or the outputs do not all hold the
      same whole number of rows, at most all; a resume that goes ahead starts behind these. */
  lemma RefusesForeignIff(job: Job, d: Disk, resume: bool, trained: nat, outcome: Outcome, e: Disk)
    requires job.Valid() && |d.files| == |job.outputs| && RunLeaves(job, d, resume, trained, outcome, e) && outcome != Killed
    ensures outcome == Refused
       <==> (exists i :: 0 <= i < |d.files| && Foreign(job, job.outputs[i], d.files[i]))
            || (resume && (d.pivots == Torn || forall n: nat :: n <= job.rows ==> !AllHold(job, d.files, n)))
    ensures outcome == Refused ==> e.files == d.files
    ensures outcome == AlreadyComplete <==> outcome != Refused && if resume then AllHold(job, d.files, job.rows) else job.rows == 0
  {
    forall i | 0 <= i < |d.files| ensures HeaderFits(job, job.outputs[i], d.files[i]) <==> !Foreign(job, job.outputs[i], d.files[i]) {
      if d.files[i].Some? && |d.files[i].value| >= 8 {
        TwoNumbers(d.files[i].value, job.rows, job.outputs[i].width);
      }
    }
    forall n: nat ensures StartRow(job, d.files, true) == Ok(n) <==> n <= job.rows && AllHold(job, d.files, n) {
      StartRowIff(job, d.files, n);
    }
  }

  ghost predicate ResumesProperly(job: Job)
    requires job.Valid()
  {
    forall d: Disk, t: nat, outcome: Outcome, e: Disk ::
      |d.files| == |job.outputs| && Good(job, d) && RunLeaves(job, d, true, t, outcome, e) ==> CompletesProperly(job, outcome, e)
  }

  /** Every completion that a resume reports on a good disk is a proper build, exactly if there are rows to build. */
  lemma ResumesProperlyIff(job: Job)
    requires job.Valid()
    ensures ResumesProperly(job) <==> job.rows > 0
  {
    if job.rows > 0 {
      forall d: Disk, t: nat, outcome: Outcome, e: Disk |
        |d.files| == |job.outputs| && Good(job, d) && RunLeaves(job, d, true, t, outcome, e)
        ensures CompletesProperly(job, outcome, e)
      {
        RunKeepsGood(job, d, true, t, outcome, e);
      }
    } else {
      var d, e := Disk(Absent, seq(|job.outputs|, _ => None)), Disk(Trained(0), seq(|job.outputs|, _ => None));
      NothingWritten(job, d);
      forall i | 0 <= i < |d.files| ensures Holds(job.outputs[i], d.files[i], 0) {
      }
      StartIff(job, 0, d.files, 0);
      assert e.files == d.files && e.files[0] == None;
      assert RunLeaves(job, d, true, 0, AlreadyComplete, e);
      assert !CompletesProperly(job, AlreadyComplete, e);
    }
  }

  // ---------------------------------------------------------------- fresh runs over existing outputs

  /** A run without --resume keeps a good disk good, wherever it stops, exactly if no output has rows
      yet or it refuses at once. */
  lemma FreshRunKeepsGoodIff(job: Job, d: Disk, t: nat)
    requires job.Valid() && |d.files| == |job.outputs| && Good(job, d)
    ensures (forall outcome, e :: RunLeaves(job, d, false, t, outcome, e) ==> Good(job, e))
       <==> !HasRows(d.files) || !HeadersFit(job, d.files)
  {
    if HasRows(d.files) && HeadersFit(job, d.files) {
      var e := Disk(Torn, d.files);
      assert RunLeaves(job, d, false, t, Killed, e);
      assert !Good(job, e);
    } else {
      forall outcome, e | RunLeaves(job, d, false, t, outcome, e) ensures Good(job, e) {
        if HeadersFit(job, d.files) {
          RunKeepsGood(job, d, false, t, outcome, e);
        }
      }
    }
  }

  /** The first n rows of every output are the same bytes under both pivot sets. */
  ghost predicate SameRows(job: Job, p: nat, t: nat, n: nat) {
    forall i :: 0 <= i < |job.outputs| ==> Rows(job.outputs[i], p, 0, n) == Rows(job.outputs[i], t, 0, n)
  }

  /** The sets the next run may load after a run that trained t was killed over pivots p. */
  ghost predicate MayLoad(job: Job, p: nat, t: nat, x: nat) {
    x == t || x in job.blends(p, t)
  }

  ghost predicate FreshThenResumeProper(job: Job, d: Disk, t: nat)
    requires job.Valid() && |d.files| == |job.outputs|
  {
    forall first: Outcome, e: Disk, u: nat, second: Outcome, f: Disk ::
      |e.files| == |job.outputs| && RunLeaves(job, d, false, t, first, e) && RunLeaves(job, e, true, u, second, f) ==>
        CompletesProperly(job, first, e) && CompletesProperly(job, second, f)
  }

  /** What the outputs may hold before a fresh run: no whole rows, or rows that are the same under the
      pivots on disk and all that the next run may load. */
  ghost predicate Replaceable(job: Job, d: Disk, t: nat)
    requires |d.files| == |job.outputs|
  {
    forall n: nat :: n > 0 && AllHold(job, d.files, n) ==>
      d.pivots.Trained? && forall x: nat :: MayLoad(job, d.pivots.id, t, x) ==> SameRows(job, d.pivots.id, x, n)
  }

  /** Over every good disk: no completion of a fresh run or of the resume behind it is improper, exactly if
      the outputs were replaceable. All rows on disk are no exception. */
  lemma FreshThenResumeProperIff(job: Job, d: Disk, t: nat)
    requires job.Valid() && job.rows > 0 && |d.files| == |job.outputs| && Good(job, d)
    ensures FreshThenResumeProper(job, d, t) <==> Replaceable(job, d, t)
  {
    if Replaceable(job, d, t) {
      forall first: Outcome, e: Disk, u: nat, second: Outcome, f: Disk |
        |e.files| == |job.outputs| && RunLeaves(job, d, false, t, first, e) && RunLeaves(job, e, true, u, second, f)
        ensures CompletesProperly(job, first, e) && CompletesProperly(job, second, f)
      {
        AfterFreshRun(job, d, t, first, e);
        if Good(job, e) {
          RunKeepsGood(job, e, true, u, second, f);
        }
      }
    } else {
      var n: nat :| n > 0 && AllHold(job, d.files, n)
                    && !(d.pivots.Trained? && forall x: nat :: MayLoad(job, d.pivots.id, t, x) ==> SameRows(job, d.pivots.id, x, n));
      RowsHeld(job, d.files, n);
      var x: nat :| MayLoad(job, d.pivots.id, t, x) && !SameRows(job, d.pivots.id, x, n);
      ImproperCompletion(job, d, t, x, n);
    }
  }

  /** A fresh run over replaceable outputs completes properly, or leaves a good disk or one that the next
      resume refuses. */
  lemma AfterFreshRun(job: Job, d: Disk, t: nat, first: Outcome, e: Disk)
    requires job.Valid() && job.rows > 0 && |d.files| == |job.outputs| && Good(job, d) && Replaceable(job, d, t)
    requires RunLeaves(job, d, false, t, first, e) && |e.files| == |job.outputs|
    ensures CompletesProperly(job, first, e)
    ensures Good(job, e) || e.pivots == Torn || StartRow(job, e.files, true).Err?
  {
    var q :| GoodFor(job, d, q);
    if !RefusesAtOnce(job, d, false) {
      if first.Complete? {
        CompleteIsFull(job, t, d.files, 0, e.files);
        FullIsPrefix(job, t, e.files);
        assert GoodFor(job, e, t);
      } else if e.files == d.files {
        if e.pivots.Trained? && e.pivots != d.pivots && HasRows(d.files) {
          OtherPivots(job, d, t, e, q);
        } else {
          assert e.pivots == Torn || GoodFor(job, e, q);
        }
      } else if AllPartly(job, t, d.files, 0, e.files) {
        PartlyIsPrefix(job, t, d.files, 0, e.files);
        assert GoodFor(job, e, t);
      } else {
        var count: nat :| Opening(d.files, 0, count, e.files);
        assert count > 0 && e.files[0] == Some([]);
      }
    }
  }

  /** The rows are as before, the pivots are not. */
  lemma OtherPivots(job: Job, d: Disk, t: nat, e: Disk, q: nat)
    requires job.Valid() && |d.files| == |job.outputs| && GoodFor(job, d, q) && Replaceable(job, d, t) && HasRows(d.files)
    requires e.files == d.files && e.pivots.Trained? && MayLoad(job, q, t, e.pivots.id)
    ensures Good(job, e) || StartRow(job, e.files, true).Err?
  {
    var start, x := StartRow(job, e.files, true), e.pivots.id;
    if start.Ok? {
      StartIff(job, q, d.files, start.value);
      RowsHeld(job, d.files, start.value);
      forall i | 0 <= i < |e.files| && e.files[i].Some? ensures e.files[i].value <= Content(job, job.outputs[i], x, job.rows) {
        assert Holds(job.outputs[i], e.files[i], start.value);
        HeldContent(job, job.outputs[i], q, e.files[i].value, start.value);
        assert Rows(job.outputs[i], q, 0, start.value) == Rows(job.outputs[i], x, 0, start.value);
        ContentPrefix(job, job.outputs[i], x, start.value, job.rows);
      }
      assert GoodFor(job, e, x);
    }
  }

  /** One resumed output: the rows that were there and the others under pivots x. */
  function Resumed(job: Job, x: nat, files: Files, n: nat): (r: Files)
    requires |files| == |job.outputs| && n <= job.rows && forall i :: 0 <= i < |files| ==> files[i].Some?
    ensures |r| == |files| && forall i :: 0 <= i < |r| ==> r[i] == Some(files[i].value + Rows(job.outputs[i], x, n, job.rows))
  {
    seq(|files|, i requires 0 <= i < |files| => Some(files[i].value + Rows(job.outputs[i], x, n, job.rows)))
  }

  /** Otherwise a fresh run, killed with pivots x in place, and a resume end in a completion that no
      build explains. */
  lemma ImproperCompletion(job: Job, d: Disk, t: nat, x: nat, n: nat)
    requires job.Valid() && job.rows > 0 && |d.files| == |job.outputs| && Good(job, d) && n > 0 && AllHold(job, d.files, n)
    requires d.pivots.Trained? && MayLoad(job, d.pivots.id, t, x) && !SameRows(job, d.pivots.id, x, n)
    ensures !FreshThenResumeProper(job, d, t)
  {
    var q :| GoodFor(job, d, q);
    RowsHeld(job, d.files, n);
    HeldHeadersFit(job, q, d.files, n);
    var e := Disk(Trained(x), d.files);
    assert RunLeaves(job, d, false, t, Killed, e);
    var outcome, f := ResumedWrongly(job, e, q, x, n);
    assert RunLeaves(job, e, true, t, outcome, f) && !CompletesProperly(job, outcome, f);
  }

  /** Resuming n rows of pivots q with pivots x in place. */
  lemma ResumedWrongly(job: Job, e: Disk, q: nat, x: nat, n: nat) returns (outcome: Outcome, f: Disk)
    requires job.Valid() && PrefixState(job, q, e.files) && e.pivots == Trained(x) && HeadersFit(job, e.files)
    requires n > 0 && AllHold(job, e.files, n) && !SameRows(job, q, x, n)
    ensures forall t :: RunLeaves(job, e, true, t, outcome, f)
    ensures !CompletesProperly(job, outcome, f)
  {
    StartIff(job, q, e.files, n);
    SomeHeld(job, e.files, n);
    if n == job.rows {
      outcome, f := AlreadyComplete, e;
    } else {
      outcome, f := Complete(SelectedIn(job, x, n, job.rows)), Disk(Trained(x), Resumed(job, x, e.files, n));
      ResumedIsComplete(job, x, e.files, n);
    }
    FullMeansSame(job, q, x, e.files, f.files, n);
  }

  lemma SomeHeld(job: Job, files: Files, n: nat)
    requires |files| == |job.outputs| && n > 0 && AllHold(job, files, n)
    ensures forall i :: 0 <= i < |files| ==> files[i].Some?
  {
    forall i | 0 <= i < |files| ensures files[i].Some? {
      assert Holds(job.outputs[i], files[i], n);
    }
  }

  lemma ResumedIsComplete(job: Job, x: nat, files: Files, n: nat)
    requires job.Valid() && |files| == |job.outputs| && 0 < n <= job.rows && forall i :: 0 <= i < |files| ==> files[i].Some?
    ensures AllComplete(job, x, files, n, Resumed(job, x, files, n))
  {
    var r := Resumed(job, x, files, n);
    forall i | 0 <= i < |files| ensures Wrote(job, job.outputs[i], x, files[i], n, job.rows, r[i], []) {
      assert files[i].value + [] == files[i].value;
      assert r[i].value + [] == r[i].value;
    }
  }

  /** Outputs that start with n rows of q are a build under x only when those rows are the same. */
  lemma FullMeansSame(job: Job, q: nat, x: nat, files: Files, later: Files, n: nat)
    requires job.Valid() && PrefixState(job, q, files) && AllHold(job, files, n) && 0 < n <= job.rows
    requires |later| == |files| && forall i :: 0 <= i < |files| ==> files[i].Some? && later[i].Some? && files[i].value <= later[i].value
    ensures Full(job, x, later) ==> SameRows(job, q, x, n)
  {
    if Full(job, x, later) {
      forall i | 0 <= i < |files| ensures Rows(job.outputs[i], q, 0, n) == Rows(job.outputs[i], x, 0, n) {
        assert Holds(job.outputs[i], files[i], n);
        HeldContent(job, job.outputs[i], q, files[i].value, n);
        SameContent(job, job.outputs[i], q, x, n, later[i].value);
      }
    }
  }

  lemma SameContent(job: Job, o: Output, q: nat, x: nat, n: nat, bytes: seq<Byte>)
    requires o.Valid() && n <= job.rows && Content(job, o, q, n) <= bytes && bytes == Content(job, o, x, job.rows)
    ensures Rows(o, q, 0, n) == Rows(o, x, 0, n)
  {
    ContentLength(job, o, q, n);
    ContentLength(job, o, x, n);
    ContentPrefix(job, o, x, n, job.rows);
    assert Content(job, o, q, n) == Content(job, o, x, n);
    assert Rows(o, q, 0, n) == Content(job, o, q, n)[8..];
    assert Rows(o, x, 0, n) == Content(job, o, x, n)[8..];
  }

  // ---------------------------------------------------------------- the reported count

  lemma {:induction false} SelectedSplit(job: Job, p: nat, lo: nat, mid: nat, hi: nat)
    requires lo <= mid <= hi
    ensures SelectedIn(job, p, lo, hi) == SelectedIn(job, p, lo, mid) + SelectedIn(job, p, mid, hi)
    decreases hi
  {
    if mid < hi {
      SelectedSplit(job, p, lo, mid, hi - 1);
    }
  }

  /** A completing run reports the selected subspaces of the rows it encoded itself, which are all of
      them exactly when no row encoded earlier uses the outlier table. */
  lemma CountIsTotalIff(job: Job, d: Disk, resume: bool, trained: nat, outcome: Outcome, e: Disk)
    requires job.Valid() && |d.files| == |job.outputs| && RunLeaves(job, d, resume, trained, outcome, e) && outcome.Complete?
    ensures StartRow(job, d.files, resume).Ok? && e.pivots.Trained?
    ensures outcome.selectedSubspaces == SelectedIn(job, e.pivots.id, 0, job.rows)
       <==> SelectedIn(job, e.pivots.id, 0, StartRow(job, d.files, resume).value) == 0
  {
    SelectedSplit(job, e.pivots.id, 0, StartRow(job, d.files, resume).value, job.rows);
  }
}
