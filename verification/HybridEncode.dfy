/** One block of the hybrid PQ builder: sharded tasks in any interleaving, selector bits, errors. */
module HybridEncode {
  import opened Arithmetic
  import opened VectorMath
  import opened ProductQuantizer

  const SHARD_ROWS: nat := 16384

  // ---------------------------------------------------------------- the block and its cells

  datatype Block = Block(base: PqPivots, outlier: PqPivots, vectors: seq<Vec>, baseCodes: seq<seq<Code>>, closest: seq<seq<Code>>) {
    /** Outlier tables share the base layout and centroid; closest[row][chunk] is the nearest outlier center. */
    ghost predicate Valid() {
      && base.Valid() && base.Tiles() && outlier.Valid()
      && outlier.ndims == base.ndims && outlier.chunkOffsets == base.chunkOffsets && outlier.centroid == base.centroid
      && |baseCodes| == |closest| == |vectors|
      && forall r :: 0 <= r < |vectors| ==>
           |vectors[r]| == base.ndims && |baseCodes[r]| == base.NumChunks() && |closest[r]| == base.NumChunks()
    }

    function Rows(): nat { |vectors| }

    function Chunks(): nat
      requires |base.chunkOffsets| >= 2
    {
      base.NumChunks()
    }

    function Shards(): nat { (|vectors| + SHARD_ROWS - 1) / SHARD_ROWS }

    /** Rows of a shard: the last one may be short. */
    function ShardSize(shard: nat): nat {
      if |vectors| <= shard * SHARD_ROWS then 0
      else if |vectors| - shard * SHARD_ROWS < SHARD_ROWS then |vectors| - shard * SHARD_ROWS else SHARD_ROWS
    }

    function Tasks(): nat
      requires |base.chunkOffsets| >= 2
    {
      Product(Chunks(), Shards())
    }

    ghost predicate HasCell(row: nat, chunk: nat)
      requires Valid()
    {
      row < Rows() && chunk < Chunks()
    }
  }

  /** Squared error of one center against one vector over begin <= d < end, around the base centroid. */
  function CellError(p: PqPivots, v: Vec, code: Code, begin: nat, end: nat): (e: real)
    requires p.Valid() && |v| == p.ndims && begin <= end <= p.ndims
    decreases end
  {
    if begin == end then 0.0
    else
      RowEnd(p.ndims, code, NUM_PQ_CENTROIDS);
      var diff := v[end - 1] - p.centroid[end - 1] - p.tables[code * p.ndims + (end - 1)];
      CellError(p, v, code, begin, end - 1) + diff * diff
  }

  function ErrorOf(b: Block, p: PqPivots, codes: seq<seq<Code>>, row: nat, chunk: nat): real
    requires b.Valid() && b.HasCell(row, chunk) && p.Valid() && p.ndims == b.base.ndims
    requires |codes| == b.Rows() && |codes[row]| == b.Chunks()
  {
    CellError(p, b.vectors[row], codes[row][chunk], b.base.chunkOffsets[chunk], b.base.chunkOffsets[chunk + 1])
  }

  /** The outlier table is used exactly where it is strictly better. */
  predicate Picked(b: Block, row: nat, chunk: nat)
    requires b.Valid() && b.HasCell(row, chunk)
  {
    ErrorOf(b, b.outlier, b.closest, row, chunk) < ErrorOf(b, b.base, b.baseCodes, row, chunk)
  }

  function HybridCode(b: Block, row: nat, chunk: nat): Code
    requires b.Valid() && b.HasCell(row, chunk)
  {
    if Picked(b, row, chunk) then b.closest[row][chunk] else b.baseCodes[row][chunk]
  }

  // ---------------------------------------------------------------- tasks and cells

  function Owner(b: Block, row: nat, chunk: nat): nat
    requires |b.base.chunkOffsets| >= 2
  {
    Product(chunk, b.Shards()) + row / SHARD_ROWS
  }

  /** The k-th row of a task's shard. */
  function TaskRow(b: Block, task: nat, k: nat): nat
    requires b.Shards() > 0
  {
    task % b.Shards() * SHARD_ROWS + k
  }

  function TaskChunk(b: Block, task: nat): nat
    requires b.Shards() > 0
  {
    task / b.Shards()
  }

  /** Every task works on cells of the block that it owns. */
  lemma TaskOwnsItsCells(b: Block, task: nat, k: nat)
    requires b.Valid() && task < b.Tasks() && b.Shards() > 0 && k < b.ShardSize(task % b.Shards())
    ensures b.HasCell(TaskRow(b, task, k), TaskChunk(b, task))
    ensures Owner(b, TaskRow(b, task, k), TaskChunk(b, task)) == task && TaskRow(b, task, k) % SHARD_ROWS == k
  {
    var shards, shard, chunk := b.Shards(), task % b.Shards(), task / b.Shards();
    DivMod(task, shards);
    DivModUnique(shard, SHARD_ROWS, k);
    if chunk >= b.Chunks() {
      MulLe(b.Chunks(), chunk, shards);
    }
  }

  /** Every cell belongs to one task, at one position: with TaskOwnsItsCells, each cell is written exactly once. */
  lemma CellHasOwner(b: Block, row: nat, chunk: nat)
    requires b.Valid() && b.HasCell(row, chunk)
    ensures b.Shards() > 0 && Owner(b, row, chunk) < b.Tasks()
    ensures row % SHARD_ROWS < b.ShardSize(Owner(b, row, chunk) % b.Shards())
    ensures TaskRow(b, Owner(b, row, chunk), row % SHARD_ROWS) == row && TaskChunk(b, Owner(b, row, chunk)) == chunk
  {
    var shards, shard := b.Shards(), row / SHARD_ROWS;
    assert shard < shards;
    DivModUnique(chunk, shards, shard);
    MulLe(chunk + 1, b.Chunks(), shards);
    assert (chunk + 1) * shards == chunk * shards + shards;
  }

  // ---------------------------------------------------------------- writing one cell

  ghost predicate CellsOf(b: Block, done: set<(nat, nat)>)
    requires b.Valid()
  {
    forall x :: x in done ==> b.HasCell(x.0, x.1)
  }

  ghost function PickedIn(b: Block, done: set<(nat, nat)>): set<(nat, nat)>
    requires b.Valid() && CellsOf(b, done)
  {
    set x | x in done && Picked(b, x.0, x.1)
  }

  /** Where a cell is in the row-major buffers. */
  function At(b: Block, row: nat, chunk: nat): (i: nat)
    requires b.Valid() && b.HasCell(row, chunk)
    ensures i < Product(b.Rows(), b.Chunks())
  {
    Cell(b.Rows(), b.Chunks(), row, chunk)
  }

  /** The block's buffers when the cells in done have been written. */
  ghost predicate Tables(b: Block, done: set<(nat, nat)>, hybrid: array<Code>, choices: array<nat>, selected: nat)
    requires b.Valid()
    reads hybrid, choices
  {
    && hybrid.Length == choices.Length == Product(b.Rows(), b.Chunks())
    && CellsOf(b, done)
    && (forall r: nat, c: nat :: b.HasCell(r, c) ==>
          hybrid[At(b, r, c)] == if (r, c) in done then HybridCode(b, r, c) else b.baseCodes[r][c])
    && (forall r: nat, c: nat :: b.HasCell(r, c) ==>
          choices[At(b, r, c)] == if (r, c) in done && Picked(b, r, c) then 1 else 0)
    && selected == |PickedIn(b, done)|
  }

  /** The loop over the dimensions of one cell. */
  method ComputeCellError(p: PqPivots, v: Vec, code: Code, begin: nat, end: nat) returns (error: real)
    requires p.Valid() && |v| == p.ndims && begin <= end <= p.ndims
    ensures error == CellError(p, v, code, begin, end)
  {
    error := 0.0;
    for d := begin to end
      invariant error == CellError(p, v, code, begin, d)
    {
      RowEnd(p.ndims, code, NUM_PQ_CENTROIDS);
      var diff := v[d] - p.centroid[d] - p.tables[code * p.ndims + d];
      error := error + diff * diff;
    }
  }

  method EncodeCell(b: Block, ghost done: set<(nat, nat)>, row: nat, chunk: nat, hybrid: array<Code>, choices: array<nat>, selectedBefore: nat)
    returns (selected: nat)
    requires b.Valid() && b.HasCell(row, chunk) && (row, chunk) !in done
    requires Tables(b, done, hybrid, choices, selectedBefore)
    modifies hybrid, choices
    ensures Tables(b, done + {(row, chunk)}, hybrid, choices, selected)
  {
    var begin, end := b.base.chunkOffsets[chunk], b.base.chunkOffsets[chunk + 1];
    var baseError := ComputeCellError(b.base, b.vectors[row], b.baseCodes[row][chunk], begin, end);
    var outlierError := ComputeCellError(b.outlier, b.vectors[row], b.closest[row][chunk], begin, end);
    selected := selectedBefore;
    PickedOneMore(b, done, row, chunk);
    OtherCells(b, row, chunk);
    if outlierError < baseError {
      hybrid[At(b, row, chunk)] := b.closest[row][chunk];
      choices[At(b, row, chunk)] := 1;
      selected := selected + 1;
    }
  }

  /** No two cells share a place. */
  lemma OtherCells(b: Block, row: nat, chunk: nat)
    requires b.Valid() && b.HasCell(row, chunk)
    ensures forall r: nat, c: nat :: b.HasCell(r, c) && (r != row || c != chunk) ==> At(b, r, c) != At(b, row, chunk)
  {
    forall r: nat, c: nat | b.HasCell(r, c) && (r != row || c != chunk) ensures At(b, r, c) != At(b, row, chunk) {
      CellInjective(b.Rows(), b.Chunks(), r, c, row, chunk);
    }
  }

  lemma PickedOneMore(b: Block, done: set<(nat, nat)>, row: nat, chunk: nat)
    requires b.Valid() && CellsOf(b, done) && b.HasCell(row, chunk) && (row, chunk) !in done
    ensures CellsOf(b, done + {(row, chunk)})
    ensures |PickedIn(b, done + {(row, chunk)})| == |PickedIn(b, done)| + if Picked(b, row, chunk) then 1 else 0
  {
    var next := PickedIn(b, done + {(row, chunk)});
    if Picked(b, row, chunk) {
      assert next == PickedIn(b, done) + {(row, chunk)};
    } else {
      assert next == PickedIn(b, done);
    }
  }

  // ---------------------------------------------------------------- any interleaving

  /** progress[t] is the number of rows task t has finished. */
  ghost predicate Progress(b: Block, progress: seq<nat>)
    requires b.Valid()
  {
    |progress| == b.Tasks()
  }

  ghost predicate Written(b: Block, progress: seq<nat>, row: nat, chunk: nat)
    requires b.Valid() && b.HasCell(row, chunk) && Progress(b, progress)
  {
    CellHasOwner(b, row, chunk);
    row % SHARD_ROWS < progress[Owner(b, row, chunk)]
  }

  ghost function WrittenCells(b: Block, progress: seq<nat>): set<(nat, nat)>
    requires b.Valid() && Progress(b, progress)
  {
    set r: nat, c: nat | r < b.Rows() && c < b.Chunks() && Written(b, progress, r, c) :: (r, c)
  }

  ghost function AllCells(b: Block): set<(nat, nat)>
    requires b.Valid()
  {
    set r: nat, c: nat | r < b.Rows() && c < b.Chunks() :: (r, c)
  }

  /** A task's next step writes one cell, and one not written before. */
  lemma StepWritesOneCell(b: Block, progress: seq<nat>, task: nat)
    requires b.Valid() && Progress(b, progress) && task < b.Tasks() && b.Shards() > 0
    requires progress[task] < b.ShardSize(task % b.Shards())
    ensures b.HasCell(TaskRow(b, task, progress[task]), TaskChunk(b, task))
    ensures (TaskRow(b, task, progress[task]), TaskChunk(b, task)) !in WrittenCells(b, progress)
    ensures WrittenCells(b, progress[task := progress[task] + 1])
         == WrittenCells(b, progress) + {(TaskRow(b, task, progress[task]), TaskChunk(b, task))}
  {
    var row, chunk := TaskRow(b, task, progress[task]), TaskChunk(b, task);
    TaskOwnsItsCells(b, task, progress[task]);
    forall r: nat, c: nat | b.HasCell(r, c)
      ensures Written(b, progress[task := progress[task] + 1], r, c) <==> Written(b, progress, r, c) || (r == row && c == chunk)
    {
      CellHasOwner(b, r, c);
    }
  }

  /** Nothing is written at first, everything once every task has finished its shard. */
  lemma FirstAndLast(b: Block, progress: seq<nat>)
    requires b.Valid() && Progress(b, progress)
    ensures (forall t :: 0 <= t < b.Tasks() ==> progress[t] == 0) ==> WrittenCells(b, progress) == {}
    ensures b.Shards() > 0 && (forall t :: 0 <= t < b.Tasks() ==> progress[t] == b.ShardSize(t % b.Shards())) ==>
      WrittenCells(b, progress) == AllCells(b)
  {
    forall r: nat, c: nat | b.HasCell(r, c)
      ensures (forall t :: 0 <= t < b.Tasks() ==> progress[t] == 0) ==> !Written(b, progress, r, c)
      ensures b.Shards() > 0 && (forall t :: 0 <= t < b.Tasks() ==> progress[t] == b.ShardSize(t % b.Shards())) ==>
        Written(b, progress, r, c)
    {
      CellHasOwner(b, r, c);
    }
  }

  /** A schedule names, step by step, the task that takes its next row; all tasks run to their end. */
  ghost predicate IsSchedule(b: Block, schedule: seq<nat>)
    requires b.Valid()
  {
    && (forall i :: 0 <= i < |schedule| ==> schedule[i] < b.Tasks())
    && (b.Tasks() > 0 && b.Shards() > 0 ==> forall t :: 0 <= t < b.Tasks() ==> multiset(schedule)[t] == b.ShardSize(t % b.Shards()))
  }

  ghost function Repeat(t: nat, n: nat): (s: seq<nat>)
    ensures |s| == n
  {
    seq(n, _ => t)
  }

  /** One task after the other, task t taking sizes[t] steps: the order of a single thread. */
  ghost function Sequential(sizes: seq<nat>): seq<nat> {
    if sizes == [] then []
    else Sequential(sizes[..|sizes| - 1]) + Repeat(|sizes| - 1, sizes[|sizes| - 1])
  }

  lemma {:induction false} RepeatedCount(n: nat, t: nat)
    ensures multiset(Repeat(t, n))[t] == n && forall u :: u in Repeat(t, n) ==> u == t
  {
    if n > 0 {
      RepeatedCount(n - 1, t);
      assert Repeat(t, n) == Repeat(t, n - 1) + [t];
    }
  }

  lemma {:induction false} SequentialCounts(sizes: seq<nat>)
    ensures forall u: nat :: u < |sizes| ==> multiset(Sequential(sizes))[u] == sizes[u]
    ensures forall i :: 0 <= i < |Sequential(sizes)| ==> Sequential(sizes)[i] < |sizes|
  {
    if sizes != [] {
      var front := sizes[..|sizes| - 1];
      SequentialCounts(front);
      AppendCounts(Sequential(front), |front|, sizes[|front|]);
    }
  }

  lemma AppendCounts(front: seq<nat>, t: nat, n: nat)
    requires forall i :: 0 <= i < |front| ==> front[i] < t
    ensures multiset(front + Repeat(t, n))[t] == n
    ensures forall u: nat :: u < t ==> multiset(front + Repeat(t, n))[u] == multiset(front)[u]
  {
    RepeatedCount(n, t);
    assert multiset(front + Repeat(t, n)) == multiset(front) + multiset(Repeat(t, n));
    assert t !in front;
    assert forall u: nat :: u < t ==> u !in Repeat(t, n);
  }

  /** So schedules exist, among them the order of a single thread. */
  lemma SequentialIsSchedule(b: Block, sizes: seq<nat>)
    requires b.Valid() && b.Shards() > 0
    requires |sizes| == b.Tasks() && forall t :: 0 <= t < b.Tasks() ==> sizes[t] == b.ShardSize(t % b.Shards())
    ensures IsSchedule(b, Sequential(sizes))
  {
    SequentialCounts(sizes);
  }

  lemma StepsTaken(schedule: seq<nat>, i: nat)
    requires i < |schedule|
    ensures multiset(schedule[..i + 1]) == multiset(schedule[..i]) + multiset{schedule[i]}
    ensures multiset(schedule[..i])[schedule[i]] < multiset(schedule)[schedule[i]]
  {
    assert schedule[..i + 1] == schedule[..i] + [schedule[i]];
    assert schedule == schedule[..i] + [schedule[i]] + schedule[i + 1..];
  }

  lemma NextStepFits(b: Block, schedule: seq<nat>, i: nat)
    requires b.Valid() && IsSchedule(b, schedule) && i < |schedule|
    ensures b.Shards() > 0 && schedule[i] < b.Tasks()
    ensures multiset(schedule[..i])[schedule[i]] < b.ShardSize(schedule[i] % b.Shards())
  {
    StepsTaken(schedule, i);
    TasksNeedShards(b);
  }

  lemma TasksNeedShards(b: Block)
    requires b.Valid()
    ensures b.Tasks() > 0 ==> b.Shards() > 0
  {
  }

  /** Task t takes its next row. */
  method TakeStep(b: Block, progress: seq<nat>, task: nat, hybrid: array<Code>, choices: array<nat>, selectedBefore: nat) returns (selected: nat)
    requires b.Valid() && Progress(b, progress) && task < b.Tasks() && b.Shards() > 0
    requires progress[task] < b.ShardSize(task % b.Shards())
    requires Tables(b, WrittenCells(b, progress), hybrid, choices, selectedBefore)
    modifies hybrid, choices
    ensures Tables(b, WrittenCells(b, progress[task := progress[task] + 1]), hybrid, choices, selected)
  {
    StepWritesOneCell(b, progress, task);
    selected := EncodeCell(b, WrittenCells(b, progress), TaskRow(b, task, progress[task]), TaskChunk(b, task), hybrid, choices, selectedBefore);
  }

  /** The base codes of the block, row after row. */
  function BaseCode(b: Block, i: nat): Code
    requires b.Valid() && i < Product(b.Rows(), b.Chunks())
  {
    CellSplit(b.Rows(), b.Chunks(), i);
    b.baseCodes[i / b.Chunks()][i % b.Chunks()]
  }

  /** Hybrid codes start as the base codes, choices as zeros. */
  method StartTables(b: Block) returns (hybrid: array<Code>, choices: array<nat>)
    requires b.Valid()
    ensures fresh(hybrid) && fresh(choices) && Tables(b, {}, hybrid, choices, 0)
  {
    hybrid := new Code[Product(b.Rows(), b.Chunks())](i requires 0 <= i < Product(b.Rows(), b.Chunks()) && b.Valid() => BaseCode(b, i));
    choices := new nat[Product(b.Rows(), b.Chunks())](_ => 0);
    forall r: nat, c: nat | b.HasCell(r, c) ensures BaseCode(b, At(b, r, c)) == b.baseCodes[r][c] {
      DivModUnique(r, b.Chunks(), c);
    }
  }

  /** The block's cells under any interleaving of the tasks: the tables and the count are always the same. */
  method EncodeBlock(b: Block, schedule: seq<nat>) returns (hybrid: array<Code>, choices: array<nat>, selected: nat)
    requires b.Valid() && IsSchedule(b, schedule)
    ensures Tables(b, AllCells(b), hybrid, choices, selected)
  {
    hybrid, choices := StartTables(b);
    selected := 0;
    var progress: seq<nat> := seq(b.Tasks(), _ => 0);
    FirstAndLast(b, progress);
    for i := 0 to |schedule|
      invariant Progress(b, progress)
      invariant forall t :: 0 <= t < |progress| ==> progress[t] == multiset(schedule[..i])[t]
      invariant fresh(hybrid) && fresh(choices)
      invariant Tables(b, WrittenCells(b, progress), hybrid, choices, selected)
    {
      NextStepFits(b, schedule, i);
      StepsTaken(schedule, i);
      selected := TakeStep(b, progress, schedule[i], hybrid, choices, selected);
      progress := progress[schedule[i] := progress[schedule[i]] + 1];
    }
    assert schedule[..|schedule|] == schedule;
    AllDone(b, schedule, progress);
  }

  lemma AllDone(b: Block, schedule: seq<nat>, progress: seq<nat>)
    requires b.Valid() && IsSchedule(b, schedule) && Progress(b, progress)
    requires forall t :: 0 <= t < |progress| ==> progress[t] == multiset(schedule)[t]
    ensures WrittenCells(b, progress) == AllCells(b)
  {
    FirstAndLast(b, progress);
    if b.Shards() == 0 {
      assert b.Rows() == 0;
    }
  }

  // ---------------------------------------------------------------- selector bits

  predicate BitOf(byte: bv8, k: nat)
    requires k < 8
  {
    byte & (1 << k) != 0
  }

  function SetBit(byte: bv8, k: nat): bv8
    requires k < 8
  {
    byte | (1 << k)
  }

  lemma SetBitSetsOne(byte: bv8, k: nat, j: nat)
    requires k < 8 && j < 8
    ensures BitOf(SetBit(byte, k), j) <==> j == k || BitOf(byte, j)
  {
  }

  /** Bit k counts from the least significant one. */
  lemma BitIsShifted(byte: bv8, k: nat)
    requires k < 8
    ensures BitOf(byte, k) <==> (byte >> k) & 1 == 1
  {
  }

  /** As few bytes as the choices of a row need. */
  lemma StrideIsLeast(chunks: nat, stride: nat)
    ensures Stride(chunks) <= stride <==> chunks <= 8 * stride
  {
  }

  function Stride(chunks: nat): nat { (chunks + 7) / 8 }

  /** Selector bytes of `rows` rows, `stride` to a row. */
  ghost predicate Sized(bits: array<bv8>, rows: nat, stride: nat) {
    bits.Length == Product(rows, stride)
  }

  /** Bit p of a row of selector bytes. */
  ghost predicate Selector(bits: array<bv8>, rows: nat, stride: nat, row: nat, p: nat)
    requires Sized(bits, rows, stride) && row < rows && p < 8 * stride
    reads bits
  {
    BitOf(bits[Cell(rows, stride, row, p / 8)], p % 8)
  }

  /** Unpacking bit c of row r gives choice (r, c); the padding bits of each row are zero. */
  method PackSelectors(choices: array<nat>, rows: nat, chunks: nat) returns (bits: array<bv8>)
    requires choices.Length == Product(rows, chunks)
    ensures Sized(bits, rows, Stride(chunks))
    ensures forall r: nat, p: nat :: r < rows && p < 8 * Stride(chunks) ==>
      (Selector(bits, rows, Stride(chunks), r, p) <==> p < chunks && choices[Cell(rows, chunks, r, p)] != 0)
  {
    var stride := Stride(chunks);
    bits := new bv8[Product(rows, stride)](_ => 0);
    for row := 0 to rows
      invariant forall r: nat, p: nat :: r < rows && p < 8 * stride ==>
        (Selector(bits, rows, stride, r, p) <==> r < row && p < chunks && choices[Cell(rows, chunks, r, p)] != 0)
    {
      for chunk := 0 to chunks
        invariant forall r: nat, p: nat :: r < rows && p < 8 * stride ==>
          (Selector(bits, rows, stride, r, p)
           <==> (r < row || (r == row && p < chunk)) && p < chunks && choices[Cell(rows, chunks, r, p)] != 0)
      {
        if choices[Cell(rows, chunks, row, chunk)] != 0 {
          SetSelector(bits, rows, stride, row, chunk);
        }
      }
    }
  }

  method SetSelector(bits: array<bv8>, rows: nat, stride: nat, row: nat, chunk: nat)
    requires Sized(bits, rows, stride) && row < rows && chunk < 8 * stride
    modifies bits
    ensures forall r: nat, p: nat :: r < rows && p < 8 * stride ==>
      (Selector(bits, rows, stride, r, p) <==> (r == row && p == chunk) || old(Selector(bits, rows, stride, r, p)))
  {
    var at := Cell(rows, stride, row, chunk / 8);
    ghost var before := bits[at];
    bits[at] := SetBit(bits[at], chunk % 8);
    forall j: nat | j < 8 ensures BitOf(bits[at], j) <==> j == chunk % 8 || BitOf(before, j) {
      SetBitSetsOne(before, chunk % 8, j);
    }
    forall r: nat, i: nat | r < rows && i < stride && (r != row || i != chunk / 8) ensures Cell(rows, stride, r, i) != at {
      CellInjective(rows, stride, r, i, row, chunk / 8);
    }
  }

  ghost function SetBits(bits: array<bv8>, rows: nat, stride: nat): set<(nat, nat)>
    requires Sized(bits, rows, stride)
    reads bits
  {
    set r: nat, p: nat | r < rows && p < 8 * stride && Selector(bits, rows, stride, r, p) :: (r, p)
  }

  /** What is written for a block: under any interleaving the hybrid codes are those of the better table,
      unpacking the bits tells which, and the count of selected subspaces is the number of bits set. */
  method EncodeHybridBlock(b: Block, schedule: seq<nat>) returns (hybrid: array<Code>, bits: array<bv8>, selected: nat)
    requires b.Valid() && IsSchedule(b, schedule)
    ensures hybrid.Length == Product(b.Rows(), b.Chunks()) && Sized(bits, b.Rows(), Stride(b.Chunks()))
    ensures forall r: nat, c: nat :: b.HasCell(r, c) ==> hybrid[At(b, r, c)] == HybridCode(b, r, c)
    ensures forall r: nat, p: nat :: r < b.Rows() && p < 8 * Stride(b.Chunks()) ==>
      (Selector(bits, b.Rows(), Stride(b.Chunks()), r, p) <==> p < b.Chunks() && Picked(b, r, p))
    ensures selected == |SetBits(bits, b.Rows(), Stride(b.Chunks()))|
  {
    var choices;
    hybrid, choices, selected := EncodeBlock(b, schedule);
    bits := PackSelectors(choices, b.Rows(), b.Chunks());
    forall r: nat, p: nat | r < b.Rows() && p < 8 * Stride(b.Chunks())
      ensures Selector(bits, b.Rows(), Stride(b.Chunks()), r, p) <==> p < b.Chunks() && Picked(b, r, p)
    {
      if p < b.Chunks() {
        assert Cell(b.Rows(), b.Chunks(), r, p) == At(b, r, p);
      }
    }
    assert SetBits(bits, b.Rows(), Stride(b.Chunks())) == PickedIn(b, AllCells(b));
  }

  // ---------------------------------------------------------------- the error of a hybrid row

  /** Dimension d of what a reader of hybrid codes and selector bits reconstructs. */
  function HybridAt(b: Block, code: seq<Code>, pick: seq<bool>, chunks: nat, d: nat): real
    requires b.Valid() && |code| == |pick| == b.Chunks() && chunks <= |code| && d < b.base.ndims
  {
    if chunks == 0 then 0.0
    else if b.base.chunkOffsets[chunks - 1] <= d < b.base.chunkOffsets[chunks] then
      CenterValue(if pick[chunks - 1] then b.outlier else b.base, code[chunks - 1], d)
    else HybridAt(b, code, pick, chunks - 1, d)
  }

  function HybridReconstruct(b: Block, code: seq<Code>, pick: seq<bool>): (v: Vec)
    requires b.Valid() && |code| == |pick| == b.Chunks()
    ensures |v| == b.base.ndims
  {
    seq(b.base.ndims, d requires 0 <= d < b.base.ndims => HybridAt(b, code, pick, |code|, d))
  }

  lemma {:induction false} HybridInChunk(b: Block, code: seq<Code>, pick: seq<bool>, chunks: nat, chunk: nat, d: nat)
    requires b.Valid() && |code| == |pick| == b.Chunks() && chunk < chunks <= |code|
    requires b.base.chunkOffsets[chunk] <= d < b.base.chunkOffsets[chunk + 1]
    ensures d < b.base.ndims
    ensures HybridAt(b, code, pick, chunks, d) == CenterValue(if pick[chunk] then b.outlier else b.base, code[chunk], d)
    decreases chunks
  {
    if chunk < chunks - 1 {
      OffsetsMonotone(b.base, chunk + 1, chunks - 1);
      HybridInChunk(b, code, pick, chunks - 1, chunk, d);
    }
  }

  lemma {:induction false} CellErrorIsRange(p: PqPivots, x: Vec, code: Code, v: Vec, begin: nat, end: nat)
    requires p.Valid() && |x| == |v| == p.ndims && begin <= end <= p.ndims
    requires forall d :: begin <= d < end ==> v[d] == CenterValue(p, code, d)
    ensures CellError(p, x, code, begin, end) == DotRange(Sub(x, v), Sub(x, v), begin, end)
    decreases end
  {
    if begin < end {
      CellErrorIsRange(p, x, code, v, begin, end - 1);
      RowEnd(p.ndims, code, NUM_PQ_CENTROIDS);
    }
  }

  ghost predicate PickedBefore(b: Block, row: nat, chunks: nat)
    requires b.Valid() && row < b.Rows() && chunks <= b.Chunks()
  {
    exists c: nat :: c < chunks && Picked(b, row, c)
  }

  /** Chunk by chunk the hybrid error is the smaller one, so its sum is at most the base error. */
  lemma {:induction false} HybridPrefix(b: Block, row: nat, hybrid: Vec, base: Vec, chunks: nat)
    requires b.Valid() && row < b.Rows() && chunks <= b.Chunks() && |hybrid| == |base| == b.base.ndims
    requires forall c: nat, d: nat :: c < b.Chunks() && b.base.chunkOffsets[c] <= d < b.base.chunkOffsets[c + 1] ==>
      hybrid[d] == CenterValue(if Picked(b, row, c) then b.outlier else b.base, HybridCode(b, row, c), d)
      && base[d] == CenterValue(b.base, b.baseCodes[row][c], d)
    ensures var hi, h, e := b.base.chunkOffsets[chunks], Sub(b.vectors[row], hybrid), Sub(b.vectors[row], base);
      && DotRange(h, h, 0, hi) <= DotRange(e, e, 0, hi)
      && (DotRange(h, h, 0, hi) < DotRange(e, e, 0, hi) <==> PickedBefore(b, row, chunks))
    decreases chunks
  {
    if chunks > 0 {
      var c, x := chunks - 1, b.vectors[row];
      var lo, hi, h, e := b.base.chunkOffsets[c], b.base.chunkOffsets[chunks], Sub(x, hybrid), Sub(x, base);
      HybridPrefix(b, row, hybrid, base, c);
      CellErrorIsRange(if Picked(b, row, c) then b.outlier else b.base, x, HybridCode(b, row, c), hybrid, lo, hi);
      CellErrorIsRange(b.base, x, b.baseCodes[row][c], base, lo, hi);
      DotRangeSplit(h, h, 0, lo, hi);
      DotRangeSplit(e, e, 0, lo, hi);
      assert PickedBefore(b, row, chunks) <==> PickedBefore(b, row, c) || Picked(b, row, c);
    }
  }

  function HybridRow(b: Block, row: nat): (code: seq<Code>)
    requires b.Valid() && row < b.Rows()
    ensures |code| == b.Chunks()
  {
    seq(b.Chunks(), c requires 0 <= c < b.Chunks() => HybridCode(b, row, c))
  }

  function PickedRow(b: Block, row: nat): (pick: seq<bool>)
    requires b.Valid() && row < b.Rows()
    ensures |pick| == b.Chunks()
  {
    seq(b.Chunks(), c requires 0 <= c < b.Chunks() => Picked(b, row, c))
  }

  /** No row gets worse, and a row gets better exactly when one of its selector bits is set. */
  lemma HybridNeverWorse(b: Block, row: nat)
    requires b.Valid() && row < b.Rows()
    ensures var hybrid := SqDist(b.vectors[row], HybridReconstruct(b, HybridRow(b, row), PickedRow(b, row)));
      var base := SqDist(b.vectors[row], Reconstruct(b.base, b.baseCodes[row]));
      hybrid <= base && (hybrid < base <==> exists c: nat :: c < b.Chunks() && Picked(b, row, c))
  {
    var hybrid := HybridReconstruct(b, HybridRow(b, row), PickedRow(b, row));
    var base := Reconstruct(b.base, b.baseCodes[row]);
    forall c: nat, d: nat | c < b.Chunks() && b.base.chunkOffsets[c] <= d < b.base.chunkOffsets[c + 1]
      ensures hybrid[d] == CenterValue(if Picked(b, row, c) then b.outlier else b.base, HybridCode(b, row, c), d)
      ensures base[d] == CenterValue(b.base, b.baseCodes[row][c], d)
    {
      HybridInChunk(b, HybridRow(b, row), PickedRow(b, row), b.Chunks(), c, d);
      ReconstructInChunk(b.base, b.baseCodes[row], b.Chunks(), c, d);
    }
    HybridPrefix(b, row, hybrid, base, b.Chunks());
    assert PickedBefore(b, row, b.Chunks()) <==> exists c: nat :: c < b.Chunks() && Picked(b, row, c);
  }
}
