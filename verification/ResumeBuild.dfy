/** The residual-PQ builder on disk: two output files written side by side, a pivot file, kills
    at any byte, and --resume. */
module ResumeBuild {
  import opened Bytes
  import opened PivotFiles
  import opened Wrappers

  datatype Disk = Disk(pivots: PivotFile, codes: Option<seq<Byte>>, errors: Option<seq<Byte>>)

  /** rows x chunks to encode; encode and error give the stored bytes of a row under a pivot
      set, value is the float a stored error stands for. */
  datatype Job = Job(rows: nat, chunks: nat, blockPoints: nat,
                     encode: (nat, nat) -> seq<Byte>, error: (nat, nat) -> seq<Byte>, value: seq<Byte> -> real) {
    ghost predicate Valid() {
      && rows < 0x8000_0000 && 0 < chunks < 0x8000_0000 && blockPoints > 0
      && (forall p, r :: |encode(p, r)| == chunks)
      && (forall p, r :: |error(p, r)| == 4)
    }
  }

  datatype ErrorStats = ErrorStats(sum: real, min: Option<real>, max: real)

  datatype Outcome = Refused | Complete(stats: Option<ErrorStats>) | Killed

  // ---------------------------------------------------------------- file contents

  function Header(rows: nat, cols: nat): (h: seq<Byte>)
    ensures |h| == 8
  {
    U32(rows) + U32(cols)
  }

  /** Rows lo <= r < hi of one column of the job, concatenated. */
  function RowBytes(f: (nat, nat) -> seq<Byte>, p: nat, lo: nat, hi: nat): seq<Byte>
    requires lo <= hi
    decreases hi
  {
    if lo == hi then [] else RowBytes(f, p, lo, hi - 1) + f(p, hi - 1)
  }

  function CodeFile(job: Job, p: nat, rows: nat): seq<Byte> {
    Header(job.rows, job.chunks) + RowBytes(job.encode, p, 0, rows)
  }

  function ErrorFile(job: Job, p: nat, rows: nat): seq<Byte> {
    Header(job.rows, 1) + RowBytes(job.error, p, 0, rows)
  }

  lemma {:induction false} RowBytesLength(f: (nat, nat) -> seq<Byte>, p: nat, lo: nat, hi: nat, width: nat)
    requires lo <= hi && forall p, r :: |f(p, r)| == width
    ensures |RowBytes(f, p, lo, hi)| == (hi - lo) * width
    decreases hi
  {
    if lo < hi {
      RowBytesLength(f, p, lo, hi - 1, width);
      assert (hi - lo) * width == (hi - 1 - lo) * width + width;
    }
  }

  lemma {:induction false} RowBytesSplit(f: (nat, nat) -> seq<Byte>, p: nat, lo: nat, mid: nat, hi: nat)
    requires lo <= mid <= hi
    ensures RowBytes(f, p, lo, hi) == RowBytes(f, p, lo, mid) + RowBytes(f, p, mid, hi)
    decreases hi
  {
    if mid < hi {
      RowBytesSplit(f, p, lo, mid, hi - 1);
    }
  }

  // ---------------------------------------------------------------- InspectOutputFile

  datatype Inspection = Missing | Malformed | Found(rows: nat, cols: nat, encodedRows: nat)

  function Inspect(file: Option<seq<Byte>>, elementBytes: nat): Inspection {
    match file
    case None => Missing
    case Some(bytes) =>
      if |bytes| < 8 then Malformed
      else
        var rows, cols := FromLE(bytes[..4]), FromLE(bytes[4..8]);
        if rows >= 0x8000_0000 || cols >= 0x8000_0000 then Malformed
        else if cols * elementBytes == 0 || (|bytes| - 8) % (cols * elementBytes) != 0 then Malformed
        else Found(rows, cols, (|bytes| - 8) / (cols * elementBytes))
  }

  /** What a file that is a byte prefix of the full output looks like to the inspection. */
  lemma InspectPrefix(bytes: seq<Byte>, full: seq<Byte>, rows: nat, cols: nat, elementBytes: nat)
    requires rows < 0x8000_0000 && 0 < cols < 0x8000_0000 && elementBytes > 0
    requires bytes <= full && |full| >= 8 && full[..8] == Header(rows, cols)
    ensures var i := Inspect(Some(bytes), elementBytes);
      && (i.Malformed? || (i.Found? && i.rows == rows && i.cols == cols && |bytes| == 8 + i.encodedRows * (cols * elementBytes)))
      && (i.Found? <==> |bytes| >= 8 && (|bytes| - 8) % (cols * elementBytes) == 0)
  {
    if |bytes| >= 8 {
      assert bytes[..8] == full[..8];
      assert bytes[..4] == Header(rows, cols)[..4] == U32(rows);
      assert bytes[4..8] == Header(rows, cols)[4..8] == U32(cols);
      U32RoundTrip(rows);
      U32RoundTrip(cols);
    }
  }

  // ---------------------------------------------------------------- the resume decision

  datatype Decision = Refuse | AlreadyComplete | Start(from: nat, reusePivots: bool)

  function Decide(job: Job, d: Disk, resume: bool): Decision {
    if !resume then Start(0, false)
    else
      var code, err := Inspect(d.codes, 1), Inspect(d.errors, 4);
      if code.Malformed? || err.Malformed? || code.Missing? != err.Missing? then Refuse
      else if code.Found? &&
        (code.rows != job.rows || code.cols != job.chunks || err.rows != job.rows || err.cols != 1
         || code.encodedRows != err.encodedRows || code.encodedRows > job.rows) then Refuse
      else
        var from := if code.Found? then code.encodedRows else 0;
        var reuse := d.pivots != Absent;
        if from != 0 && !reuse then Refuse
        else if from == job.rows then AlreadyComplete
        else Start(from, reuse)
  }

  // ---------------------------------------------------------------- error statistics

  function AddError(stats: ErrorStats, v: real): ErrorStats {
    ErrorStats(stats.sum + v,
               Some(if stats.min.Some? && stats.min.value < v then stats.min.value else v),
               if stats.max < v then v else stats.max)
  }

  const NO_STATS := ErrorStats(0.0, None, 0.0)

  /** Statistics continued over rows lo <= r < hi of a pivot set, in row order. */
  function ExtendStats(job: Job, stats: ErrorStats, p: nat, lo: nat, hi: nat): ErrorStats
    requires lo <= hi
    decreases hi
  {
    if lo == hi then stats else AddError(ExtendStats(job, stats, p, lo, hi - 1), job.value(job.error(p, hi - 1)))
  }

  /** ReadExistingErrorStats: statistics of the first n errors stored in a file. */
  function FileStats(job: Job, bytes: seq<Byte>, n: nat): ErrorStats
    requires 8 + 4 * n <= |bytes|
  {
    if n == 0 then NO_STATS
    else AddError(FileStats(job, bytes, n - 1), job.value(bytes[8 + 4 * (n - 1)..8 + 4 * n]))
  }

  // What the statistics of a list of errors are, without the fold.

  function Sum(errors: seq<real>): real {
    if errors == [] then 0.0 else Sum(errors[..|errors| - 1]) + errors[|errors| - 1]
  }

  /** The sum, the least error if there is one, and the greatest one or 0. */
  ghost predicate Summarizes(stats: ErrorStats, errors: seq<real>) {
    && stats.sum == Sum(errors)
    && (errors == [] ==> stats.min == None)
    && (errors != [] ==> stats.min.Some? && stats.min.value in errors && forall v :: v in errors ==> stats.min.value <= v)
    && 0.0 <= stats.max && (stats.max == 0.0 || stats.max in errors) && forall v :: v in errors ==> v <= stats.max
  }

  lemma AddErrorSummarizes(stats: ErrorStats, errors: seq<real>, v: real)
    requires Summarizes(stats, errors)
    ensures Summarizes(AddError(stats, v), errors + [v])
  {
    var longer := errors + [v];
    assert longer[..|errors|] == errors && longer[|errors|] == v;
    assert forall x :: x in longer <==> x in errors || x == v;
  }

  /** The first n errors stored in a file. */
  function StoredErrors(job: Job, bytes: seq<Byte>, n: nat): (errors: seq<real>)
    requires 8 + 4 * n <= |bytes|
    ensures |errors| == n
  {
    seq(n, i requires 0 <= i < n => job.value(bytes[8 + 4 * i..8 + 4 * i + 4]))
  }

  /** The errors of rows lo <= r < hi of a pivot set. */
  function RowErrors(job: Job, p: nat, lo: nat, hi: nat): (errors: seq<real>)
    requires lo <= hi
    ensures |errors| == hi - lo
  {
    seq(hi - lo, i requires 0 <= i < hi - lo => job.value(job.error(p, lo + i)))
  }

  lemma {:induction false} FileStatsSummarize(job: Job, bytes: seq<Byte>, n: nat)
    requires 8 + 4 * n <= |bytes|
    ensures Summarizes(FileStats(job, bytes, n), StoredErrors(job, bytes, n))
  {
    if n > 0 {
      FileStatsSummarize(job, bytes, n - 1);
      var last := job.value(bytes[8 + 4 * (n - 1)..8 + 4 * n]);
      AddErrorSummarizes(FileStats(job, bytes, n - 1), StoredErrors(job, bytes, n - 1), last);
      assert StoredErrors(job, bytes, n) == StoredErrors(job, bytes, n - 1) + [last];
    }
  }

  /** Continuing the statistics of some errors over further rows gives those of all of them. */
  lemma {:induction false} ExtendStatsSummarize(job: Job, stats: ErrorStats, errors: seq<real>, p: nat, lo: nat, hi: nat)
    requires lo <= hi && Summarizes(stats, errors)
    ensures Summarizes(ExtendStats(job, stats, p, lo, hi), errors + RowErrors(job, p, lo, hi))
    decreases hi
  {
    if lo == hi {
      assert errors + RowErrors(job, p, lo, hi) == errors;
    } else {
      ExtendStatsSummarize(job, stats, errors, p, lo, hi - 1);
      var last := job.value(job.error(p, hi - 1));
      AddErrorSummarizes(ExtendStats(job, stats, p, lo, hi - 1), errors + RowErrors(job, p, lo, hi - 1), last);
      assert errors + RowErrors(job, p, lo, hi) == errors + RowErrors(job, p, lo, hi - 1) + [last];
    }
  }

  // ---------------------------------------------------------------- one run of the tool

  /** What an output holds when a run starts writing at row `from`, and what the run adds. */
  function Base(file: Option<seq<Byte>>, from: nat): seq<Byte> {
    if from == 0 || file.None? then [] else file.value
  }

  function CodeRest(job: Job, p: nat, from: nat): seq<Byte>
    requires from <= job.rows
  {
    (if from == 0 then Header(job.rows, job.chunks) else []) + RowBytes(job.encode, p, from, job.rows)
  }

  function ErrorRest(job: Job, p: nat, from: nat): seq<Byte>
    requires from <= job.rows
  {
    (if from == 0 then Header(job.rows, 1) else []) + RowBytes(job.error, p, from, job.rows)
  }

  /** Some prefix of the run's output has reached the disk behind the base. */
  ghost predicate Partly(file: Option<seq<Byte>>, base: seq<Byte>, rest: seq<Byte>) {
    file.Some? && base <= file.value <= base + rest
  }

  lemma DecideFrom(job: Job, d: Disk, resume: bool)
    requires job.Valid() && Decide(job, d, resume).Start?
    ensures Decide(job, d, resume).from <= job.rows
    ensures Decide(job, d, resume).from > 0 ==>
      resume && d.codes.Some? && d.errors.Some? && |d.errors.value| == 8 + 4 * Decide(job, d, resume).from
  {
  }

  /** How a run started on disk d may stop, or be killed, and the disk e it leaves. Until the
      outputs are opened only the pivot file changes; codes are truncated before errors; after
      that each output holds its base plus some byte prefix of what the run writes. */
  ghost predicate RunLeaves(job: Job, d: Disk, resume: bool, trained: nat, outcome: Outcome, e: Disk)
    requires job.Valid()
  {
    match Decide(job, d, resume)
    case Refuse => outcome == Refused && e == d
    case AlreadyComplete => outcome == Complete(None) && e == d
    case Start(from, reuse) =>
      DecideFrom(job, d, resume);
      if reuse && d.pivots == Torn then outcome == Refused && e == d
      else if reuse && d.pivots == Absent then false
      else
        var p := if reuse then d.pivots.id else trained;
        match outcome
        case Refused => false
        case Killed =>
          || (!reuse && e.codes == d.codes && e.errors == d.errors && (e.pivots == d.pivots || !e.pivots.Trained?))
          || (e.pivots == Trained(p) && e.errors == d.errors && (e.codes == d.codes || (from == 0 && e.codes == Some([]))))
          || (e.pivots == Trained(p) && Partly(e.codes, Base(d.codes, from), CodeRest(job, p, from))
              && Partly(e.errors, Base(d.errors, from), ErrorRest(job, p, from)))
        case Complete(stats) =>
          && stats == Some(ExtendStats(job, if from == 0 then NO_STATS else FileStats(job, d.errors.value, from), p, from, job.rows))
          && e.pivots == Trained(p)
          && e.codes == Some(Base(d.codes, from) + CodeRest(job, p, from))
          && e.errors == Some(Base(d.errors, from) + ErrorRest(job, p, from))
  }

  class OutputDirectory {
    var pivots: PivotFile
    var codes: Option<seq<Byte>>
    var errors: Option<seq<Byte>>

    function Image(): Disk
      reads this
    {
      Disk(pivots, codes, errors)
    }

    /** The file streams may hand any prefix of what they buffer to the disk at any time. */
    method Flush(codePending: seq<Byte>, errorPending: seq<Byte>) returns (codeLeft: seq<Byte>, errorLeft: seq<Byte>)
      requires codes.Some? && errors.Some?
      modifies this
      ensures codes.Some? && errors.Some? && pivots == old(pivots)
      ensures codes.value + codeLeft == old(codes.value) + codePending && old(codes.value) <= codes.value
      ensures errors.value + errorLeft == old(errors.value) + errorPending && old(errors.value) <= errors.value
    {
      var m :| 0 <= m <= |codePending|;
      var n :| 0 <= n <= |errorPending|;
      codes := Some(codes.value + codePending[..m]);
      errors := Some(errors.value + errorPending[..n]);
      codeLeft, errorLeft := codePending[m..], errorPending[n..];
    }

    /** ReadExistingErrorStats, in buffers of at most 2^20 rows. */
    method ReadExistingErrorStats(job: Job, rowCount: nat) returns (stats: ErrorStats)
      requires errors.Some? && 8 + 4 * rowCount <= |errors.value|
      ensures stats == FileStats(job, errors.value, rowCount)
      ensures Summarizes(stats, StoredErrors(job, errors.value, rowCount))
    {
      var bytes := errors.value;
      stats := NO_STATS;
      var rowsRead: nat := 0;
      while rowsRead < rowCount
        invariant rowsRead <= rowCount && stats == FileStats(job, bytes, rowsRead)
      {
        var chunk := if rowCount - rowsRead < 0x10_0000 then rowCount - rowsRead else 0x10_0000;
        stats := AddChunk(job, bytes, rowsRead, rowsRead + chunk, stats);
        rowsRead := rowsRead + chunk;
      }
      FileStatsSummarize(job, errors.value, rowCount);
    }

    /** One buffer of stored errors. */
    static method AddChunk(job: Job, bytes: seq<Byte>, begin: nat, end: nat, before: ErrorStats) returns (stats: ErrorStats)
      requires begin <= end && 8 + 4 * end <= |bytes| && before == FileStats(job, bytes, begin)
      ensures stats == FileStats(job, bytes, end)
    {
      stats := before;
      for i := begin to end
        invariant stats == FileStats(job, bytes, i)
      {
        var at := 8 + 4 * i;
        stats := AddError(stats, job.value(bytes[at..at + 4]));
      }
    }

    /** One run. A kill can strike at every `if *`; `trained` is the pivot set that training
        would produce. */
    method Run(job: Job, resume: bool, trained: nat) returns (outcome: Outcome)
      requires job.Valid()
      modifies this
      ensures RunLeaves(job, old(Image()), resume, trained, outcome, Image())
    {
      var decision := Decide(job, Image(), resume);
      if decision.Refuse? {
        return Refused;
      }
      if decision.AlreadyComplete? {
        return Complete(None);
      }
      DecideFrom(job, Image(), resume);
      var from := decision.from;
      if !decision.reusePivots {
        if * { return Killed; }
        pivots := Absent;
        if * { return Killed; }
        pivots := Torn;
        if * { return Killed; }
        pivots := Trained(trained);
        if * { return Killed; }
      }
      if !pivots.Trained? {
        return Refused;
      }
      outcome := Encode(job, pivots.id, from);
    }

    /** From opening the outputs to closing them. */
    method Encode(job: Job, p: nat, from: nat) returns (outcome: Outcome)
      requires job.Valid() && from <= job.rows && pivots == Trained(p)
      requires from > 0 ==> codes.Some? && errors.Some? && |errors.value| == 8 + 4 * from
      modifies this
      ensures pivots == Trained(p)
      ensures outcome.Killed? ==>
        || (errors == old(errors) && (codes == old(codes) || (from == 0 && codes == Some([]))))
        || (Partly(codes, Base(old(codes), from), CodeRest(job, p, from))
            && Partly(errors, Base(old(errors), from), ErrorRest(job, p, from)))
      ensures !outcome.Killed? ==>
        && outcome == Complete(Some(ExtendStats(job, if from == 0 then NO_STATS else FileStats(job, old(errors).value, from), p, from, job.rows)))
        && codes == Some(Base(old(codes), from) + CodeRest(job, p, from))
        && errors == Some(Base(old(errors), from) + ErrorRest(job, p, from))
    {
      if * { return Killed; }
      var codePending, errorPending: seq<Byte> := [], [];
      var stats := NO_STATS;
      if from == 0 {
        codes := Some([]);
        if * { return Killed; }
        errors := Some([]);
        codePending, errorPending := Header(job.rows, job.chunks), Header(job.rows, 1);
      } else {
        stats := ReadExistingErrorStats(job, from);
      }
      outcome := WriteBlocks(job, p, from, stats, codePending, errorPending, codes.value, errors.value);
    }

    /** The block loop and the final close. */
    method WriteBlocks(job: Job, p: nat, from: nat, first: ErrorStats, codeHead: seq<Byte>, errorHead: seq<Byte>,
                       ghost codeBase: seq<Byte>, ghost errorBase: seq<Byte>)
      returns (outcome: Outcome)
      requires job.Valid() && from <= job.rows && codes == Some(codeBase) && errors == Some(errorBase)
      modifies this
      ensures pivots == old(pivots)
      ensures outcome.Killed? ==>
        && Partly(codes, codeBase, codeHead + RowBytes(job.encode, p, from, job.rows))
        && Partly(errors, errorBase, errorHead + RowBytes(job.error, p, from, job.rows))
      ensures !outcome.Killed? ==>
        && outcome == Complete(Some(ExtendStats(job, first, p, from, job.rows)))
        && codes == Some(codeBase + (codeHead + RowBytes(job.encode, p, from, job.rows)))
        && errors == Some(errorBase + (errorHead + RowBytes(job.error, p, from, job.rows)))
    {
      var codePending, errorPending, stats := codeHead, errorHead, first;
      var rowBegin := from;
      while rowBegin < job.rows
        invariant from <= rowBegin && pivots == old(pivots) && codes.Some? && errors.Some?
        invariant stats == ExtendStats(job, first, p, from, Upto(rowBegin, job.rows))
        invariant Wrote(codes.value, codePending, codeBase, codeHead, job.encode, p, from, Upto(rowBegin, job.rows))
        invariant Wrote(errors.value, errorPending, errorBase, errorHead, job.error, p, from, Upto(rowBegin, job.rows))
      {
        codePending, errorPending := Flush(codePending, errorPending);
        if * {
          WrotePrefix(codes.value, codePending, codeBase, codeHead, job.encode, p, from, rowBegin, job.rows);
          WrotePrefix(errors.value, errorPending, errorBase, errorHead, job.error, p, from, rowBegin, job.rows);
          return Killed;
        }
        var rowEnd := Upto(rowBegin + job.blockPoints, job.rows);
        var blockCodes, blockErrors;
        blockCodes, blockErrors, stats := EncodeBlock(job, p, rowBegin, rowEnd, stats, first, from);
        WroteMore(codes.value, codePending, codeBase, codeHead, job.encode, p, from, rowBegin, rowEnd);
        WroteMore(errors.value, errorPending, errorBase, errorHead, job.error, p, from, rowBegin, rowEnd);
        codePending, errorPending := codePending + blockCodes, errorPending + blockErrors;
        rowBegin := rowBegin + job.blockPoints;
      }
      codePending, errorPending := Flush(codePending, errorPending);
      if * {
        WrotePrefix(codes.value, codePending, codeBase, codeHead, job.encode, p, from, job.rows, job.rows);
        WrotePrefix(errors.value, errorPending, errorBase, errorHead, job.error, p, from, job.rows, job.rows);
        return Killed;
      }
      codes := Some(codes.value + codePending);
      errors := Some(errors.value + errorPending);
      return Complete(Some(stats));
    }

    /** One block: codes and errors of rows [rowBegin, rowEnd), statistics updated row by row. */
    method EncodeBlock(job: Job, p: nat, rowBegin: nat, rowEnd: nat, before: ErrorStats, ghost first: ErrorStats, ghost from: nat)
      returns (blockCodes: seq<Byte>, blockErrors: seq<Byte>, stats: ErrorStats)
      requires from <= rowBegin <= rowEnd && before == ExtendStats(job, first, p, from, rowBegin)
      ensures blockCodes == RowBytes(job.encode, p, rowBegin, rowEnd) && blockErrors == RowBytes(job.error, p, rowBegin, rowEnd)
      ensures stats == ExtendStats(job, first, p, from, rowEnd)
      ensures forall errors :: Summarizes(before, errors) ==> Summarizes(stats, errors + RowErrors(job, p, rowBegin, rowEnd))
    {
      blockCodes, blockErrors, stats := [], [], before;
      for row := rowBegin to rowEnd
        invariant blockCodes == RowBytes(job.encode, p, rowBegin, row) && blockErrors == RowBytes(job.error, p, rowBegin, row)
        invariant stats == ExtendStats(job, first, p, from, row) == ExtendStats(job, before, p, rowBegin, row)
      {
        blockCodes := blockCodes + job.encode(p, row);
        blockErrors := blockErrors + job.error(p, row);
        stats := AddError(stats, job.value(job.error(p, row)));
      }
      forall errors | Summarizes(before, errors) ensures Summarizes(stats, errors + RowErrors(job, p, rowBegin, rowEnd)) {
        ExtendStatsSummarize(job, before, errors, p, rowBegin, rowEnd);
      }
    }
  }

  function Upto(n: nat, rows: nat): nat { if n < rows then n else rows }

  /** Disk content plus stream buffer: the base, the header if new, and rows [from, row). */
  ghost predicate Wrote(disk: seq<Byte>, pending: seq<Byte>, base: seq<Byte>, head: seq<Byte>,
                        f: (nat, nat) -> seq<Byte>, p: nat, from: nat, row: nat) {
    from <= row && base <= disk && disk + pending == base + (head + RowBytes(f, p, from, row))
  }

  lemma WroteMore(disk: seq<Byte>, pending: seq<Byte>, base: seq<Byte>, head: seq<Byte>,
                  f: (nat, nat) -> seq<Byte>, p: nat, from: nat, mid: nat, row: nat)
    requires mid <= row && Wrote(disk, pending, base, head, f, p, from, mid)
    ensures Wrote(disk, pending + RowBytes(f, p, mid, row), base, head, f, p, from, row)
  {
    RowBytesSplit(f, p, from, mid, row);
    var done, block := RowBytes(f, p, from, mid), RowBytes(f, p, mid, row);
    calc {
      disk + (pending + block);
      (disk + pending) + block;
      (base + (head + done)) + block;
      base + (head + (done + block));
    }
  }

  lemma WrotePrefix(disk: seq<Byte>, pending: seq<Byte>, base: seq<Byte>, head: seq<Byte>,
                    f: (nat, nat) -> seq<Byte>, p: nat, from: nat, mid: nat, rows: nat)
    requires mid <= rows && Wrote(disk, pending, base, head, f, p, from, mid)
    ensures Partly(Some(disk), base, head + RowBytes(f, p, from, rows))
  {
    WroteMore(disk, pending, base, head, f, p, from, mid, rows);
    assert disk <= disk + (pending + RowBytes(f, p, mid, rows));
  }
}
