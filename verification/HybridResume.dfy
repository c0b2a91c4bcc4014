/** The hybrid-PQ builder on disk: outlier pivots, several output files extended block by block,
    kills at any byte, and --resume by whole rows. */
module HybridResume {
  import opened Arithmetic
  import opened Bytes
  import opened PivotFiles
  import opened Wrappers

  /** One output: its row width in bytes, which its header also states, its rows under an outlier pivot
      set, and whether every run first checks the header of an existing file. */
  datatype Output = Output(width: nat, row: (nat, nat) -> seq<Byte>, checked: bool) {
    ghost predicate Valid() {
      0 < width < 0x8000_0000 && forall p, r :: |row(p, r)| == width
    }
  }

  /** Hybrid codes, selector bits and, when base PQ is trained too, base codes (the checked ones);
      selected counts the subspaces of a row that use the outlier table. Pivots are overwritten in
      place: blends(p, t) are the sets that loading can find after a write of t over p was cut short. */
  datatype Job = Job(rows: nat, blockPoints: nat, outputs: seq<Output>, selected: (nat, nat) -> nat, blends: (nat, nat) -> set<nat>) {
    ghost predicate Valid() {
      rows < 0x8000_0000 && blockPoints > 0 && outputs != [] && forall i :: 0 <= i < |outputs| ==> outputs[i].Valid()
    }
  }

  type Files = seq<Option<seq<Byte>>>

  datatype Disk = Disk(pivots: PivotFile, files: Files)

  datatype Outcome = Refused | AlreadyComplete | Complete(selectedSubspaces: nat) | Killed

  // ---------------------------------------------------------------- file contents

  function Rows(o: Output, p: nat, lo: nat, hi: nat): seq<Byte>
    requires lo <= hi
    decreases hi
  {
    if lo == hi then [] else Rows(o, p, lo, hi - 1) + o.row(p, hi - 1)
  }

  function Header(job: Job, o: Output): (h: seq<Byte>)
    ensures |h| == 8
  {
    U32(job.rows) + U32(o.width)
  }

  function Content(job: Job, o: Output, p: nat, n: nat): seq<Byte> {
    Header(job, o) + Rows(o, p, 0, n)
  }

  lemma {:induction false} RowsLength(o: Output, p: nat, lo: nat, hi: nat)
    requires o.Valid() && lo <= hi
    ensures |Rows(o, p, lo, hi)| == Times(hi - lo, o.width)
    decreases hi
  {
    if lo < hi {
      RowsLength(o, p, lo, hi - 1);
    }
  }

  lemma {:induction false} RowsSplit(o: Output, p: nat, lo: nat, mid: nat, hi: nat)
    requires lo <= mid <= hi
    ensures Rows(o, p, lo, hi) == Rows(o, p, lo, mid) + Rows(o, p, mid, hi)
    decreases hi
  {
    if mid < hi {
      RowsSplit(o, p, lo, mid, hi - 1);
      Rejoin(Rows(o, p, lo, mid), Rows(o, p, mid, hi - 1), o.row(p, hi - 1), Rows(o, p, lo, hi - 1), Rows(o, p, mid, hi), Rows(o, p, lo, hi));
    }
  }

  lemma ContentLength(job: Job, o: Output, p: nat, n: nat)
    requires o.Valid()
    ensures |Content(job, o, p, n)| == 8 + n * o.width
  {
    RowsLength(o, p, 0, n);
    TimesIsProduct(n, o.width);
  }

  lemma ContentPrefix(job: Job, o: Output, p: nat, n: nat, m: nat)
    requires n <= m
    ensures Content(job, o, p, n) <= Content(job, o, p, m) && Content(job, o, p, n) + Rows(o, p, n, m) == Content(job, o, p, m)
  {
    RowsSplit(o, p, 0, n, m);
    Rejoin(Header(job, o), Rows(o, p, 0, n), Rows(o, p, n, m), Content(job, o, p, n), Rows(o, p, 0, m), Content(job, o, p, n) + Rows(o, p, n, m));
  }

  // ---------------------------------------------------------------- the resume decision

  function CompletedRows(file: Option<seq<Byte>>, rowBytes: nat): Result<nat>
    requires rowBytes > 0
  {
    match file
    case None => Ok(0)
    case Some(bytes) => if |bytes| < 8 || (|bytes| - 8) % rowBytes != 0 then Err else Ok((|bytes| - 8) / rowBytes)
  }

  predicate Agree(job: Job, d: Files, n: nat)
    requires |d| == |job.outputs| && forall i :: 0 <= i < |d| ==> job.outputs[i].width > 0
  {
    forall i :: 0 <= i < |d| ==> CompletedRows(d[i], job.outputs[i].width) == Ok(n)
  }

  predicate HeaderFits(job: Job, o: Output, file: Option<seq<Byte>>) {
    o.checked && file.Some? ==>
      |file.value| >= 8 && FromLE(file.value[..4]) == job.rows && FromLE(file.value[4..8]) == o.width
  }

  predicate HeadersFit(job: Job, d: Files)
    requires |d| == |job.outputs|
  {
    forall i :: 0 <= i < |d| ==> HeaderFits(job, job.outputs[i], d[i])
  }

  /** The row to start from, found once the pivots are in place; an error, when resuming, on a malformed
      output, on outputs that differ, or on more rows than there are. */
  function StartRow(job: Job, d: Files, resume: bool): (r: Result<nat>)
    requires |d| == |job.outputs| > 0 && forall i :: 0 <= i < |d| ==> job.outputs[i].width > 0
    ensures r.Ok? ==> r.value <= job.rows && (r.value > 0 ==> resume && Agree(job, d, r.value))
  {
    if !resume then Ok(0)
    else
      var first := CompletedRows(d[0], job.outputs[0].width);
      if first.Err? || !Agree(job, d, first.value) || first.value > job.rows then Err else first
  }

  /** A resume loads pivots if there is a file; every other run trains and writes them. */
  predicate Reuses(d: Disk, resume: bool) {
    resume && d.pivots != Absent
  }

  /** Nothing is touched: a checked header is bad, or the pivots to load are torn. */
  predicate RefusesAtOnce(job: Job, d: Disk, resume: bool)
    requires |d.files| == |job.outputs|
  {
    !HeadersFit(job, d.files) || (resume && d.pivots == Torn)
  }

  // ---------------------------------------------------------------- one run of the tool

  function Base(file: Option<seq<Byte>>, from: nat): seq<Byte> {
    if from == 0 || file.None? then [] else file.value
  }

  function Head(job: Job, o: Output, from: nat): seq<Byte> {
    if from == 0 then Header(job, o) else []
  }

  /** Disk content and stream buffer of one output when rows [from, row) have been written. */
  ghost predicate Wrote(job: Job, o: Output, p: nat, before: Option<seq<Byte>>, from: nat, row: nat, file: Option<seq<Byte>>, pending: seq<Byte>) {
    && from <= row && file.Some? && Base(before, from) <= file.value
    && file.value + pending == Base(before, from) + Head(job, o, from) + Rows(o, p, from, row)
  }

  /** Some prefix of what the run writes has reached the disk. */
  ghost predicate Partly(job: Job, o: Output, p: nat, before: Option<seq<Byte>>, from: nat, file: Option<seq<Byte>>)
    requires from <= job.rows
  {
    && file.Some? && Base(before, from) <= file.value
    && file.value <= Base(before, from) + Head(job, o, from) + Rows(o, p, from, job.rows)
  }

  function SelectedIn(job: Job, p: nat, lo: nat, hi: nat): nat
    requires lo <= hi
    decreases hi
  {
    if lo == hi then 0 else SelectedIn(job, p, lo, hi - 1) + job.selected(p, hi - 1)
  }

  function Sum(counts: seq<nat>): nat {
    if counts == [] then 0 else Sum(counts[..|counts| - 1]) + counts[|counts| - 1]
  }

  /** It adds up the counts of these rows, each once. */
  lemma {:induction false} SelectedIsSum(job: Job, p: nat, lo: nat, hi: nat, counts: seq<nat>)
    requires lo <= hi && |counts| == hi - lo && forall i :: 0 <= i < hi - lo ==> counts[i] == job.selected(p, lo + i)
    ensures SelectedIn(job, p, lo, hi) == Sum(counts)
    decreases hi
  {
    if lo < hi {
      SelectedIsSum(job, p, lo, hi - 1, counts[..hi - lo - 1]);
    }
  }

  /** A kill inside the write of the pivots t. */
  ghost predicate CutShort(job: Job, before: PivotFile, t: nat, file: PivotFile) {
    file == Torn || (before.Trained? && file.Trained? && file.id in job.blends(before.id, t))
  }

  /** Outputs are opened in turn; from row 0 on that truncates them. */
  ghost predicate Opening(before: Files, from: nat, count: nat, files: Files) {
    && |files| == |before| && count <= |before|
    && forall j :: 0 <= j < |files| ==> files[j] == if j < count && from == 0 then Some([]) else before[j]
  }

  ghost predicate AllPartly(job: Job, p: nat, before: Files, from: nat, files: Files)
    requires from <= job.rows
  {
    |files| == |before| == |job.outputs| && forall i :: 0 <= i < |files| ==> Partly(job, job.outputs[i], p, before[i], from, files[i])
  }

  ghost predicate AllComplete(job: Job, p: nat, before: Files, from: nat, files: Files) {
    |files| == |before| == |job.outputs| && forall i :: 0 <= i < |files| ==> Wrote(job, job.outputs[i], p, before[i], from, job.rows, files[i], [])
  }

  /** How a run started on disk d may end, and the disk e it leaves. First come the pivots, then the
      count of completed rows, then the outputs. */
  ghost predicate RunLeaves(job: Job, d: Disk, resume: bool, trained: nat, outcome: Outcome, e: Disk)
    requires job.Valid() && |d.files| == |job.outputs|
  {
    if RefusesAtOnce(job, d, resume) then (outcome == Refused || outcome == Killed) && e == d
    else
      var p := if Reuses(d, resume) then d.pivots.id else trained;
      var start := StartRow(job, d.files, resume);
      match outcome
      case Refused => start.Err? && e == Disk(Trained(p), d.files)
      case AlreadyComplete => start == Ok(job.rows) && e == Disk(Trained(p), d.files)
      case Complete(selected) =>
        && start.Ok? && start.value < job.rows && e.pivots == Trained(p)
        && selected == SelectedIn(job, p, start.value, job.rows) && AllComplete(job, p, d.files, start.value, e.files)
      case Killed =>
        || (e.files == d.files && (e.pivots == d.pivots || (!Reuses(d, resume) && CutShort(job, d.pivots, p, e.pivots))))
        || (e.files == d.files && e.pivots == Trained(p))
        || (start.Ok? && start.value < job.rows && e.pivots == Trained(p)
            && ((exists count: nat :: Opening(d.files, start.value, count, e.files)) || AllPartly(job, p, d.files, start.value, e.files)))
  }

  lemma WroteIsPartly(job: Job, o: Output, p: nat, before: Option<seq<Byte>>, from: nat, row: nat, file: Option<seq<Byte>>, pending: seq<Byte>)
    requires row <= job.rows && Wrote(job, o, p, before, from, row, file, pending)
    ensures Partly(job, o, p, before, from, file)
  {
    var base, head := Base(before, from), Head(job, o, from);
    RowsSplit(o, p, from, row, job.rows);
    Rejoin(base + head, Rows(o, p, from, row), Rows(o, p, row, job.rows), file.value + pending, Rows(o, p, from, job.rows),
           file.value + pending + Rows(o, p, row, job.rows));
    assert file.value <= file.value + pending + Rows(o, p, row, job.rows);
  }

  class OutputFiles {
    var pivots: PivotFile
    var files: Files

    function Image(): Disk
      reads this
    {
      Disk(pivots, files)
    }

    /** One run. A kill can strike at every `if *`; `trained` is the pivot set that training would produce. */
    method Run(job: Job, resume: bool, trained: nat) returns (outcome: Outcome)
      requires job.Valid() && |files| == |job.outputs|
      modifies this
      ensures RunLeaves(job, old(Image()), resume, trained, outcome, Image())
    {
      if * { return Killed; }
      if !HeadersFit(job, files) {
        return Refused;
      }
      if resume && pivots != Absent {
        if pivots == Torn {
          return Refused;
        }
      } else {
        var before := pivots;
        pivots := Torn;
        if * { return Killed; }
        if before.Trained? && job.blends(before.id, trained) != {} {
          if * {
            var x :| x in job.blends(before.id, trained);
            pivots := Trained(x);
            return Killed;
          }
        }
        pivots := Trained(trained);
      }
      if * { return Killed; }
      var from := StartRow(job, files, resume);
      if from.Err? {
        return Refused;
      }
      if from.value == job.rows {
        return AlreadyComplete;
      }
      outcome := Encode(job, pivots.id, from.value);
    }

    /** From opening the outputs to closing them. */
    method Encode(job: Job, p: nat, from: nat) returns (outcome: Outcome)
      requires job.Valid() && |files| == |job.outputs| && from < job.rows && (from > 0 ==> Agree(job, files, from))
      modifies this`files
      ensures outcome.Killed? || outcome == Complete(SelectedIn(job, p, from, job.rows))
      ensures outcome.Killed? ==>
        (exists count: nat :: Opening(old(files), from, count, files)) || AllPartly(job, p, old(files), from, files)
      ensures outcome.Complete? ==> AllComplete(job, p, old(files), from, files)
    {
      ghost var before := files;
      var pending: seq<seq<Byte>> := [];
      for i := 0 to |job.outputs|
        invariant |files| == |job.outputs| && |pending| == i && Opening(before, from, i, files)
        invariant forall j :: 0 <= j < i ==> Wrote(job, job.outputs[j], p, before[j], from, from, files[j], pending[j])
      {
        if * { return Killed; }
        if from == 0 {
          files := files[i := Some([])];
          pending := pending + [Header(job, job.outputs[i])];
        } else {
          assert CompletedRows(files[i], job.outputs[i].width) == Ok(from);
          pending := pending + [[]];
        }
      }
      outcome := WriteBlocks(job, p, from, pending, before);
    }

    /** The block loop and the final close. */
    method WriteBlocks(job: Job, p: nat, from: nat, head: seq<seq<Byte>>, ghost before: Files) returns (outcome: Outcome)
      requires job.Valid() && from <= job.rows && AllWrote(job, p, before, from, from, files, head)
      modifies this`files
      ensures outcome.Killed? || outcome == Complete(SelectedIn(job, p, from, job.rows))
      ensures outcome.Killed? ==> AllPartly(job, p, before, from, files)
      ensures outcome.Complete? ==> AllComplete(job, p, before, from, files)
    {
      var pending, selected, row := head, 0, from;
      while row < job.rows
        invariant from <= row <= job.rows && selected == SelectedIn(job, p, from, row)
        invariant AllWrote(job, p, before, from, row, files, pending)
        decreases job.rows - row
      {
        var rowEnd := Min(row + job.blockPoints, job.rows);
        var killed;
        killed, pending := WriteBlock(job, p, from, row, rowEnd, pending, before);
        if killed {
          return Killed;
        }
        for r := row to rowEnd
          invariant selected == SelectedIn(job, p, from, r)
        {
          selected := selected + job.selected(p, r);
        }
        row := rowEnd;
      }
      var killed := CloseAll(job, p, from, pending, before);
      return if killed then Killed else Complete(selected);
    }

    /** One block to every output in turn. */
    method WriteBlock(job: Job, p: nat, ghost from: nat, row: nat, rowEnd: nat, pendingBefore: seq<seq<Byte>>, ghost before: Files)
      returns (killed: bool, pending: seq<seq<Byte>>)
      requires from <= row <= rowEnd <= job.rows && AllWrote(job, p, before, from, row, files, pendingBefore)
      modifies this`files
      ensures killed ==> AllPartly(job, p, before, from, files)
      ensures !killed ==> AllWrote(job, p, before, from, rowEnd, files, pending)
    {
      pending := pendingBefore;
      for i := 0 to |job.outputs|
        invariant |files| == |before| == |job.outputs| == |pending|
        invariant forall j :: 0 <= j < i ==> Wrote(job, job.outputs[j], p, before[j], from, rowEnd, files[j], pending[j])
        invariant forall j :: i <= j < |files| ==> Wrote(job, job.outputs[j], p, before[j], from, row, files[j], pending[j])
      {
        if * {
          MixedPartly(job, p, before, from, row, rowEnd, i, files, pending);
          return true, pending;
        }
        var left := Append(job, p, i, before[i], from, row, rowEnd, pending[i]);
        pending := pending[i := left];
      }
      killed := false;
    }

    /** Closing an output flushes its buffer. */
    method CloseAll(job: Job, ghost p: nat, ghost from: nat, pending: seq<seq<Byte>>, ghost before: Files) returns (killed: bool)
      requires from <= job.rows && AllWrote(job, p, before, from, job.rows, files, pending)
      modifies this`files
      ensures killed ==> AllPartly(job, p, before, from, files)
      ensures !killed ==> AllComplete(job, p, before, from, files)
    {
      for i := 0 to |job.outputs|
        invariant |files| == |before| == |job.outputs| == |pending|
        invariant forall j :: 0 <= j < i ==> Wrote(job, job.outputs[j], p, before[j], from, job.rows, files[j], [])
        invariant forall j :: i <= j < |files| ==> Wrote(job, job.outputs[j], p, before[j], from, job.rows, files[j], pending[j])
      {
        if * {
          ClosingPartly(job, p, before, from, i, files, pending);
          return true;
        }
        assert files[i].value + pending[i] + [] == files[i].value + pending[i];
        files := files[i := Some(files[i].value + pending[i])];
      }
      killed := false;
    }

    /** One output takes a block; any prefix of its buffer may reach the disk. */
    method Append(job: Job, p: nat, i: nat, ghost before: Option<seq<Byte>>, ghost from: nat, rowBegin: nat, rowEnd: nat, pending: seq<Byte>)
      returns (left: seq<Byte>)
      requires i < |files| == |job.outputs| && rowBegin <= rowEnd
      requires Wrote(job, job.outputs[i], p, before, from, rowBegin, files[i], pending)
      modifies this`files
      ensures |files| == |old(files)| && forall j :: 0 <= j < |files| && j != i ==> files[j] == old(files[j])
      ensures Wrote(job, job.outputs[i], p, before, from, rowEnd, files[i], left)
    {
      var o := job.outputs[i];
      var block: seq<Byte> := [];
      for row := rowBegin to rowEnd
        invariant block == Rows(o, p, rowBegin, row) && files == old(files)
      {
        block := block + o.row(p, row);
      }
      RowsSplit(o, p, from, rowBegin, rowEnd);
      Rejoin(Base(before, from) + Head(job, o, from), Rows(o, p, from, rowBegin), block, files[i].value + pending,
             Rows(o, p, from, rowEnd), files[i].value + pending + block);
      var buffered := pending + block;
      var m :| 0 <= m <= |buffered|;
      Assoc(files[i].value, pending, block);
      Assoc(files[i].value, buffered[..m], buffered[m..]);
      assert buffered[..m] + buffered[m..] == buffered;
      files := files[i := Some(files[i].value + buffered[..m])];
      left := buffered[m..];
    }
  }

  ghost predicate AllWrote(job: Job, p: nat, before: Files, from: nat, row: nat, files: Files, pending: seq<seq<Byte>>) {
    && |files| == |before| == |job.outputs| == |pending|
    && forall i :: 0 <= i < |files| ==> Wrote(job, job.outputs[i], p, before[i], from, row, files[i], pending[i])
  }

  /** Outputs below i have the new block, the others do not. */
  lemma MixedPartly(job: Job, p: nat, before: Files, from: nat, row: nat, rowEnd: nat, i: nat, files: Files, pending: seq<seq<Byte>>)
    requires |files| == |before| == |job.outputs| == |pending| && from <= row <= rowEnd <= job.rows && i <= |files|
    requires forall j :: 0 <= j < i ==> Wrote(job, job.outputs[j], p, before[j], from, rowEnd, files[j], pending[j])
    requires forall j :: i <= j < |files| ==> Wrote(job, job.outputs[j], p, before[j], from, row, files[j], pending[j])
    ensures AllPartly(job, p, before, from, files)
  {
    forall j | 0 <= j < |files| ensures Partly(job, job.outputs[j], p, before[j], from, files[j]) {
      WroteIsPartly(job, job.outputs[j], p, before[j], from, if j < i then rowEnd else row, files[j], pending[j]);
    }
  }

  lemma ClosingPartly(job: Job, p: nat, before: Files, from: nat, i: nat, files: Files, pending: seq<seq<Byte>>)
    requires |files| == |before| == |job.outputs| == |pending| && from <= job.rows && i <= |files|
    requires forall j :: 0 <= j < i ==> Wrote(job, job.outputs[j], p, before[j], from, job.rows, files[j], [])
    requires forall j :: i <= j < |files| ==> Wrote(job, job.outputs[j], p, before[j], from, job.rows, files[j], pending[j])
    ensures AllPartly(job, p, before, from, files)
  {
    forall j | 0 <= j < |files| ensures Partly(job, job.outputs[j], p, before[j], from, files[j]) {
      WroteIsPartly(job, job.outputs[j], p, before[j], from, job.rows, files[j], if j < i then [] else pending[j]);
    }
  }
}
