/** Recording stop prefixes and replaying them, over several trace files in one process. */
module PrefixTrace {
  import opened Bytes
  import opened Wrappers

  const MAGIC: Word := 0x5253_5031
  const TWO32: nat := 0x1_0000_0000

  /** One prefix for each query of a call. */
  type Prefixes = p: seq<Word> | |p| < 0x1_0000_0000

  datatype Record = Record(budget: Word, prefixes: Prefixes)

  // ---------------------------------------------------------------- the file format

  function Encode(r: Record): (s: seq<Byte>)
    ensures |s| == 12 + 4 * |r.prefixes|
  {
    U32(MAGIC) + U32(r.budget) + U32(|r.prefixes|) + Words(r.prefixes)
  }

  // ---------------------------------------------------------------- one path

  /** A stream that could not be opened stays so; one that hit the end of the file keeps failing. */
  datatype Stream = NotOpen | Open(pos: nat, failed: bool)

  /** The file, whether this process has appended to it, and the replay stream. */
  datatype PathState = PathState(file: Option<seq<Byte>>, initialized: bool, stream: Option<Stream>)

  /** The first append truncates, later ones extend; the size check comes after the open. */
  function AppendStep(p: PathState, budget: nat, prefixes: seq<Word>): (PathState, Result<()>) {
    var start := if p.initialized && p.file.Some? then p.file.value else [];
    if budget >= TWO32 || |prefixes| >= TWO32 then (p.(file := Some(start)), Err)
    else (PathState(Some(start + Encode(Record(budget, prefixes))), true, p.stream), Ok(()))
  }

  function OpenForReading(p: PathState): Stream {
    if p.stream.Some? then p.stream.value else if p.file.Some? then Open(0, false) else NotOpen
  }

  function ReadStep(p: PathState, budget: nat, numQueries: nat): (PathState, Result<seq<Word>>) {
    var stream := OpenForReading(p);
    if stream.NotOpen? || stream.failed || p.file.None? then (p.(stream := Some(stream)), Err)
    else
      var (next, r) := ReadRecord(p.file.value, stream.pos, budget, numQueries);
      (p.(stream := Some(next)), r)
  }

  function ReadRecord(file: seq<Byte>, pos: nat, budget: nat, numQueries: nat): (Stream, Result<seq<Word>>) {
    if pos + 12 > |file| then (Open(pos, true), Err)
    else if WordAt(file, pos) != MAGIC || WordAt(file, pos + 4) != budget || WordAt(file, pos + 8) != numQueries then
      (Open(pos + 12, false), Err)
    else if pos + 12 + 4 * numQueries > |file| then (Open(pos + 12, true), Err)
    else (Open(pos + 12 + 4 * numQueries, false), Ok(ParseWords(file, pos + 12, numQueries)))
  }

  // ---------------------------------------------------------------- the process

  class TraceFiles {
    var files: map<string, seq<Byte>>
    var initialized: set<string>
    var streams: map<string, Stream>

    ghost function At(path: string): PathState
      reads this
    {
      PathState(if path in files then Some(files[path]) else None, path in initialized,
                if path in streams then Some(streams[path]) else None)
    }

    /** A new process: whatever files there are, no append and no read has happened. */
    constructor (files: map<string, seq<Byte>>)
      ensures forall path :: At(path) == PathState(if path in files then Some(files[path]) else None, false, None)
    {
      this.files, initialized, streams := files, {}, map[];
    }

    method AppendRerankStopPrefixTrace(path: string, budget: nat, prefixes: seq<Word>) returns (r: Result<()>)
      modifies this
      ensures (At(path), r) == AppendStep(old(At(path)), budget, prefixes)
      ensures forall other :: other != path ==> At(other) == old(At(other))
    {
      if path !in initialized || path !in files {
        files := files[path := []];
      }
      if budget >= TWO32 || |prefixes| >= TWO32 {
        return Err;
      }
      files := files[path := files[path] + U32(MAGIC) + U32(budget) + U32(|prefixes|) + Words(prefixes)];
      initialized := initialized + {path};
      assert files[path] == (if old(path in initialized && path in files) then old(files)[path] else [])
                            + Encode(Record(budget, prefixes));
      return Ok(());
    }

    method ReadRerankStopPrefixTrace(path: string, budget: nat, numQueries: nat) returns (r: Result<seq<Word>>)
      modifies this
      ensures (At(path), r) == ReadStep(old(At(path)), budget, numQueries)
      ensures forall other :: other != path ==> At(other) == old(At(other))
    {
      if path !in streams {
        streams := streams[path := if path in files then Open(0, false) else NotOpen];
      }
      var stream := streams[path];
      if stream.NotOpen? || stream.failed || path !in files {
        return Err;
      }
      var (next, result) := ReadRecord(files[path], stream.pos, budget, numQueries);
      streams := streams[path := next];
      return result;
    }
  }

  // ---------------------------------------------------------------- runs over many paths

  datatype Op = Append(budget: nat, prefixes: seq<Word>) | Read(budget: nat, numQueries: nat)

  datatype Outcome = Appended(ok: bool) | Replayed(r: Result<seq<Word>>)

  function Step(p: PathState, op: Op): (PathState, Outcome) {
    match op
    case Append(budget, prefixes) => var (q, r) := AppendStep(p, budget, prefixes); (q, Appended(r.Ok?))
    case Read(budget, numQueries) => var (q, r) := ReadStep(p, budget, numQueries); (q, Replayed(r))
  }

  function AfterPath(p: PathState, ops: seq<Op>): PathState {
    if ops == [] then p else Step(AfterPath(p, ops[..|ops| - 1]), ops[|ops| - 1]).0
  }

  datatype Call = Call(path: string, op: Op)

  type World = string -> PathState

  function After(w: World, calls: seq<Call>): World {
    if calls == [] then w
    else
      var before, last := After(w, calls[..|calls| - 1]), calls[|calls| - 1];
      (path: string) => if path == last.path then Step(before(path), last.op).0 else before(path)
  }

  function Project(calls: seq<Call>, path: string): seq<Op> {
    if calls == [] then []
    else Project(calls[..|calls| - 1], path) + if calls[|calls| - 1].path == path then [calls[|calls| - 1].op] else []
  }

  /** Paths do not interfere: each sees only its own calls, in order. */
  lemma {:induction false} PathsAreIndependent(w: World, calls: seq<Call>, path: string)
    ensures After(w, calls)(path) == AfterPath(w(path), Project(calls, path))
  {
    if calls != [] {
      PathsAreIndependent(w, calls[..|calls| - 1], path);
      var ops := Project(calls, path);
      if calls[|calls| - 1].path == path {
        assert ops[..|ops| - 1] == Project(calls[..|calls| - 1], path);
      } else {
        assert ops == Project(calls[..|calls| - 1], path);
      }
    }
  }
}
