/** What replaying a trace returns, read by read, on any run, mismatched reads included. */
module PrefixReplay {
  import opened Bytes
  import opened PrefixTrace
  import opened Wrappers

  // ---------------------------------------------------------------- the file as words

  function RecordWords(r: Record): (w: seq<Word>)
    ensures |w| == 3 + |r.prefixes|
  {
    [MAGIC, r.budget, |r.prefixes|] + r.prefixes
  }

  lemma EncodeIsWords(r: Record)
    ensures Encode(r) == Words(RecordWords(r))
  {
    var n: Word := |r.prefixes|;
    WordsConcat([MAGIC, r.budget, n], r.prefixes);
    assert [MAGIC, r.budget, n][..2] == [MAGIC, r.budget] && [MAGIC, r.budget][..1] == [MAGIC] && [MAGIC][..0] == [];
    assert Words([MAGIC]) == U32(MAGIC);
    assert Words([MAGIC, r.budget]) == U32(MAGIC) + U32(r.budget);
    assert Words([MAGIC, r.budget, n]) == U32(MAGIC) + U32(r.budget) + U32(n);
  }

  // ---------------------------------------------------------------- reading words

  /** Where a replay stands: at a word of the file, or unable to read any more. */
  datatype Reader = At(pos: nat) | Exhausted | NeverOpened

  /** The words at q look like the header of a record with these dimensions. */
  predicate HeaderAt(w: seq<Word>, q: nat, budget: nat, numQueries: nat) {
    q + 3 <= |w| && w[q] == MAGIC && w[q + 1] == budget && w[q + 2] == numQueries
  }

  /** A read succeeds on a matching header with enough words behind it. */
  predicate Succeeds(w: seq<Word>, q: nat, budget: nat, numQueries: nat) {
    HeaderAt(w, q, budget, numQueries) && q + 3 + numQueries <= |w|
  }

  function ReadWords(w: seq<Word>, q: nat, budget: nat, numQueries: nat): (Reader, Result<seq<Word>>) {
    if Succeeds(w, q, budget, numQueries) then (At(q + 3 + numQueries), Ok(w[q + 3..q + 3 + numQueries]))
    else if q + 3 <= |w| && !HeaderAt(w, q, budget, numQueries) then (At(q + 3), Err)
    else (Exhausted, Err)
  }

  ghost predicate SameReader(stream: Stream, r: Reader) {
    match r
    case At(q) => stream == Open(4 * q, false)
    case Exhausted => stream.Open? && stream.failed
    case NeverOpened => stream == NotOpen
  }

  lemma HeaderOfWords(w: seq<Word>, q: nat, budget: nat, numQueries: nat)
    requires q + 3 <= |w|
    ensures HeaderAt(w, q, budget, numQueries) <==>
      WordAt(Words(w), 4 * q) == MAGIC && WordAt(Words(w), 4 * q + 4) == budget && WordAt(Words(w), 4 * q + 8) == numQueries
  {
    WordOfWords(w, q, 4 * q);
    WordOfWords(w, q + 1, 4 * q + 4);
    WordOfWords(w, q + 2, 4 * q + 8);
  }

  lemma ReadRecordIsReadWords(w: seq<Word>, q: nat, budget: nat, numQueries: nat)
    ensures var (stream, r) := ReadRecord(Words(w), 4 * q, budget, numQueries);
      var (reader, s) := ReadWords(w, q, budget, numQueries);
      SameReader(stream, reader) && r == s
  {
    if q + 3 <= |w| {
      HeaderOfWords(w, q, budget, numQueries);
      if q + 3 + numQueries <= |w| {
        WordsSlice(w, q + 3, numQueries);
      }
    }
  }

  // ---------------------------------------------------------------- every run, exactly

  /** A path whose file holds whole words. */
  datatype Trace = Trace(words: Option<seq<Word>>, initialized: bool, reader: Reader)

  function Content(s: Trace): seq<Word> {
    if s.words.Some? then s.words.value else []
  }

  function TraceAppend(s: Trace, budget: nat, prefixes: seq<Word>): Trace {
    var start := if s.initialized then Content(s) else [];
    if budget >= TWO32 || |prefixes| >= TWO32 then s.(words := Some(start))
    else s.(words := Some(start + RecordWords(Record(budget, prefixes))), initialized := true)
  }

  function TraceRead(s: Trace, budget: nat, numQueries: nat): (Trace, Result<seq<Word>>) {
    if !s.reader.At? then (s, Err)
    else if s.words.None? then (s.(reader := NeverOpened), Err)
    else
      var (reader, r) := ReadWords(Content(s), s.reader.pos, budget, numQueries);
      (s.(reader := reader), r)
  }

  function TraceStep(s: Trace, op: Op): (Trace, Outcome) {
    match op
    case Append(budget, prefixes) => (TraceAppend(s, budget, prefixes), Appended(budget < TWO32 && |prefixes| < TWO32))
    case Read(budget, numQueries) => var (t, r) := TraceRead(s, budget, numQueries); (t, Replayed(r))
  }

  function AfterTrace(s: Trace, ops: seq<Op>): Trace {
    if ops == [] then s else TraceStep(AfterTrace(s, ops[..|ops| - 1]), ops[|ops| - 1]).0
  }

  /** The bytes on disk are the words, and the stream stands where the reader does. */
  ghost predicate Refines(p: PathState, s: Trace) {
    && p.initialized == s.initialized && p.file.Some? == s.words.Some? && (s.initialized ==> s.words.Some?)
    && (p.file.Some? ==> p.file.value == Words(Content(s)))
    && if p.stream.None? then s.reader == At(0)
       else SameReader(p.stream.value, s.reader) && (s.reader.At? ==> p.file.Some?)
  }

  /** One call keeps the correspondence and has the same outcome. */
  lemma StepRefines(p: PathState, s: Trace, op: Op)
    requires Refines(p, s)
    ensures Refines(Step(p, op).0, TraceStep(s, op).0) && Step(p, op).1 == TraceStep(s, op).1
  {
    match op
    case Append(budget, prefixes) =>
      if budget < TWO32 && |prefixes| < TWO32 {
        EncodeIsWords(Record(budget, prefixes));
        WordsConcat(if s.initialized then Content(s) else [], RecordWords(Record(budget, prefixes)));
      }
    case Read(budget, numQueries) =>
      if s.reader.At? && s.words.Some? {
        assert OpenForReading(p) == Open(4 * s.reader.pos, false);
        ReadRecordIsReadWords(Content(s), s.reader.pos, budget, numQueries);
      }
  }

  lemma {:induction false} RunRefines(p: PathState, s: Trace, ops: seq<Op>)
    requires Refines(p, s)
    ensures Refines(AfterPath(p, ops), AfterTrace(s, ops))
  {
    if ops != [] {
      RunRefines(p, s, ops[..|ops| - 1]);
      StepRefines(AfterPath(p, ops[..|ops| - 1]), AfterTrace(s, ops[..|ops| - 1]), ops[|ops| - 1]);
    }
  }

  /** For every run over any mix of paths, whatever has been rejected before: the next call on a path has
      the outcome of its words and its reader. */
  lemma NextCallOutcome(w: World, calls: seq<Call>, path: string, s: Trace, op: Op)
    requires Refines(w(path), s)
    ensures Step(After(w, calls)(path), op).1 == TraceStep(AfterTrace(s, Project(calls, path)), op).1
  {
    PathsAreIndependent(w, calls, path);
    RunRefines(w(path), s, Project(calls, path));
    StepRefines(AfterPath(w(path), Project(calls, path)), AfterTrace(s, Project(calls, path)), op);
  }

  /** The first append of a process discards whatever the file held. */
  lemma {:induction false} OldContentsIgnored(p: PathState, ops: seq<Op>)
    requires !p.initialized && p.stream == None && ops != [] && ops[0].Append?
    ensures AfterPath(p, ops) == AfterPath(p.(file := Some([])), ops)
  {
    var front := ops[..|ops| - 1];
    if front != [] {
      OldContentsIgnored(p, front);
    } else {
      assert AfterPath(p, front) == p && AfterPath(p.(file := Some([])), front) == p.(file := Some([]));
    }
  }

  /** Once a replay has run past the end it fails for good, even after further appends. */
  lemma ExhaustedForGood(s: Trace, op: Op)
    requires s.reader == Exhausted
    ensures TraceStep(s, op).0.reader == Exhausted && (op.Read? ==> TraceStep(s, op).1 == Replayed(Err))
  {
  }

  // ---------------------------------------------------------------- a log of records

  function LogWords(log: seq<Record>): seq<Word> {
    if log == [] then [] else LogWords(log[..|log| - 1]) + RecordWords(log[|log| - 1])
  }

  /** Where record k starts. */
  function Begin(log: seq<Record>, k: nat): nat
    requires k <= |log|
  {
    |LogWords(log[..k])|
  }

  predicate Matches(r: Record, budget: nat, numQueries: nat) {
    r.budget == budget && |r.prefixes| == numQueries
  }

  /** Record k fills the words from its start to the start of the next. */
  lemma {:induction false} RecordAt(log: seq<Record>, k: nat)
    requires k < |log|
    ensures Begin(log, k + 1) == Begin(log, k) + 3 + |log[k].prefixes| <= |LogWords(log)|
    ensures LogWords(log)[Begin(log, k)..Begin(log, k + 1)] == RecordWords(log[k])
  {
    assert log[..k + 1][..k] == log[..k];
    var front := log[..|log| - 1];
    if k < |log| - 1 {
      RecordAt(front, k);
      assert front[..k] == log[..k] && front[..k + 1] == log[..k + 1];
    } else {
      assert log[..k + 1] == log && log[..k] == front;
    }
  }

  lemma RecordHeader(log: seq<Record>, k: nat)
    requires k < |log|
    ensures var q, w := Begin(log, k), LogWords(log);
      && Begin(log, k + 1) == q + 3 + |log[k].prefixes| <= |w|
      && w[q] == MAGIC && w[q + 1] == log[k].budget && w[q + 2] == |log[k].prefixes|
      && w[q + 3..q + 3 + |log[k].prefixes|] == log[k].prefixes
  {
    RecordAt(log, k);
    WordsOfRecord(LogWords(log), Begin(log, k), Begin(log, k + 1), log[k]);
  }

  lemma WordsOfRecord(w: seq<Word>, q: nat, end: nat, r: Record)
    requires end == q + 3 + |r.prefixes| <= |w| && w[q..end] == RecordWords(r)
    ensures w[q] == MAGIC && w[q + 1] == r.budget && w[q + 2] == |r.prefixes| && w[q + 3..end] == r.prefixes
  {
    var record := w[q..end];
    assert record[0] == w[q] && record[1] == w[q + 1] && record[2] == w[q + 2];
    assert record[3..] == w[q + 3..end];
  }

  /** A read at the start of record k succeeds exactly when the dimensions match and then stands at the next
      record; a rejected one stands three words on. */
  lemma ReadAtRecord(log: seq<Record>, k: nat, budget: nat, numQueries: nat)
    requires k < |log|
    ensures Matches(log[k], budget, numQueries) ==>
      ReadWords(LogWords(log), Begin(log, k), budget, numQueries) == (At(Begin(log, k + 1)), Ok(log[k].prefixes))
    ensures !Matches(log[k], budget, numQueries) ==>
      ReadWords(LogWords(log), Begin(log, k), budget, numQueries) == (At(Begin(log, k) + 3), Err)
  {
    var w, q := LogWords(log), Begin(log, k);
    RecordHeader(log, k);
    ReadAtHeader(w, q, log[k], budget, numQueries, Begin(log, k + 1));
  }

  /** One past the last record exhausts the reader. */
  lemma ReadPastEnd(log: seq<Record>, budget: nat, numQueries: nat)
    ensures ReadWords(LogWords(log), Begin(log, |log|), budget, numQueries) == (Exhausted, Err)
  {
    assert log[..|log|] == log;
  }

  lemma ReadAtHeader(w: seq<Word>, q: nat, r: Record, budget: nat, numQueries: nat, end: nat)
    requires end == q + 3 + |r.prefixes| <= |w| && w[q] == MAGIC && w[q + 1] == r.budget && w[q + 2] == |r.prefixes|
    requires w[q + 3..q + 3 + |r.prefixes|] == r.prefixes
    ensures Matches(r, budget, numQueries) ==> ReadWords(w, q, budget, numQueries) == (At(end), Ok(r.prefixes))
    ensures !Matches(r, budget, numQueries) ==> ReadWords(w, q, budget, numQueries) == (At(q + 3), Err)
  {
  }

  /** After a read at record k was rejected, the next read takes the three words behind the header for a
      header. Exactly when it succeeds, by the number of prefixes: with none the reader is at the next record;
      with one or two, words of the next header complete them; from three on the prefixes alone decide. */
  lemma MismatchedReadLosesPlace(log: seq<Record>, k: nat, budget: nat, numQueries: nat)
    requires k < |log|
    ensures var ps, w, q := log[k].prefixes, LogWords(log), Begin(log, k) + 3;
      && (|ps| == 0 ==> q == Begin(log, k + 1))
      && (|ps| == 1 ==>
           (Succeeds(w, q, budget, numQueries)
            <==> k + 1 < |log| && ps[0] == MAGIC && budget == MAGIC && numQueries == log[k + 1].budget && q + 3 + numQueries <= |w|))
      && (|ps| == 2 ==>
           (Succeeds(w, q, budget, numQueries)
            <==> k + 1 < |log| && ps[0] == MAGIC && ps[1] == budget && numQueries == MAGIC && q + 3 + numQueries <= |w|))
      && (|ps| >= 3 ==>
           (Succeeds(w, q, budget, numQueries)
            <==> ps[0] == MAGIC && ps[1] == budget && ps[2] == numQueries && q + 3 + numQueries <= |w|))
  {
    var ps := log[k].prefixes;
    RecordHeader(log, k);
    if |ps| > 0 {
      PrefixAt(log, k, 0);
    }
    if |ps| > 1 {
      PrefixAt(log, k, 1);
    }
    if |ps| > 2 {
      PrefixAt(log, k, 2);
    } else if k + 1 < |log| {
      NextHeader(log, k + 1);
    } else {
      assert log[..k + 1] == log;
    }
  }

  lemma PrefixAt(log: seq<Record>, k: nat, i: nat)
    requires k < |log| && i < |log[k].prefixes|
    ensures Begin(log, k) + 3 + i < |LogWords(log)| && LogWords(log)[Begin(log, k) + 3 + i] == log[k].prefixes[i]
  {
    RecordHeader(log, k);
    var q, w := Begin(log, k) + 3, LogWords(log);
    assert w[q..q + |log[k].prefixes|][i] == w[q + i];
  }

  lemma NextHeader(log: seq<Record>, k: nat)
    requires k < |log|
    ensures var q, w := Begin(log, k), LogWords(log); q + 3 <= |w| && w[q] == MAGIC && w[q + 1] == log[k].budget
  {
    RecordHeader(log, k);
  }

  // ---------------------------------------------------------------- record, then replay

  function Appends(records: seq<Record>): (ops: seq<Op>)
    ensures |ops| == |records| && forall i :: 0 <= i < |records| ==> ops[i] == Append(records[i].budget, records[i].prefixes)
  {
    seq(|records|, i requires 0 <= i < |records| => Append(records[i].budget, records[i].prefixes))
  }

  function Reads(records: seq<Record>): (ops: seq<Op>)
    ensures |ops| == |records| && forall i :: 0 <= i < |records| ==> ops[i] == Read(records[i].budget, |records[i].prefixes|)
  {
    seq(|records|, i requires 0 <= i < |records| => Read(records[i].budget, |records[i].prefixes|))
  }

  const FRESH := Trace(Some([]), false, At(0))

  lemma {:induction false} TraceAfterAppends(records: seq<Record>)
    ensures AfterTrace(FRESH, Appends(records)) == Trace(Some(LogWords(records)), records != [], At(0))
  {
    if records != [] {
      var front := records[..|records| - 1];
      TraceAfterAppends(front);
      assert Appends(records)[..|records| - 1] == Appends(front);
    }
  }

  lemma {:induction false} TraceAfterReads(records: seq<Record>, k: nat)
    requires k <= |records|
    ensures AfterTrace(FRESH, Appends(records) + Reads(records[..k])) == Trace(Some(LogWords(records)), records != [], At(Begin(records, k)))
  {
    if k == 0 {
      TraceAfterAppends(records);
      assert Appends(records) + Reads(records[..0]) == Appends(records);
    } else {
      TraceAfterReads(records, k - 1);
      ReadsNext(records, k);
      ReadMatching(records, k - 1, records != []);
      AfterTraceNext(FRESH, Appends(records) + Reads(records[..k - 1]), Read(records[k - 1].budget, |records[k - 1].prefixes|));
    }
  }

  lemma ReadMatching(log: seq<Record>, k: nat, initialized: bool)
    requires k < |log|
    ensures TraceStep(Trace(Some(LogWords(log)), initialized, At(Begin(log, k))), Read(log[k].budget, |log[k].prefixes|)).0
         == Trace(Some(LogWords(log)), initialized, At(Begin(log, k + 1)))
  {
    ReadAtRecord(log, k, log[k].budget, |log[k].prefixes|);
  }

  lemma ReadsNext(records: seq<Record>, k: nat)
    requires 0 < k <= |records|
    ensures Appends(records) + Reads(records[..k])
         == Appends(records) + Reads(records[..k - 1]) + [Read(records[k - 1].budget, |records[k - 1].prefixes|)]
  {
  }

  lemma AfterTraceNext(s: Trace, ops: seq<Op>, op: Op)
    ensures AfterTrace(s, ops + [op]) == TraceStep(AfterTrace(s, ops), op).0
  {
    assert (ops + [op])[..|ops|] == ops;
  }

  /** Whatever the files held before and whatever happens on other paths: after records have been
      appended to a path and the first k read back, a read with the dimensions of record k returns
      its prefixes; any other read, and any read past the last record, is rejected. */
  lemma ReplayReturnsRecords(w: World, calls: seq<Call>, path: string, records: seq<Record>, k: nat, budget: nat, numQueries: nat)
    requires !w(path).initialized && w(path).stream == None && records != [] && k <= |records|
    requires Project(calls, path) == Appends(records) + Reads(records[..k])
    ensures Step(After(w, calls)(path), Read(budget, numQueries)).1
         == Replayed(if k < |records| && Matches(records[k], budget, numQueries) then Ok(records[k].prefixes) else Err)
  {
    var p, ops := w(path).(file := Some([])), Project(calls, path);
    PathsAreIndependent(w, calls, path);
    assert AfterPath(w(path), ops) == AfterPath(p, ops) by {
      assert ops[0] == Appends(records)[0];
      OldContentsIgnored(w(path), ops);
    }
    TraceAfterReads(records, k);
    if k < |records| {
      ReadAtRecord(records, k, budget, numQueries);
    } else {
      ReadPastEnd(records, budget, numQueries);
    }
    assert Refines(p, FRESH);
    RunRefines(p, FRESH, ops);
    StepRefines(AfterPath(p, ops), AfterTrace(FRESH, ops), Read(budget, numQueries));
  }

  // ---------------------------------------------------------------- traces without the magic number

  /** The magic number occurs in the headers only. */
  predicate MagicFree(r: Record) {
    r.budget != MAGIC && |r.prefixes| != MAGIC && MAGIC !in r.prefixes
  }

  ghost predicate AllMagicFree(log: seq<Record>) {
    forall i :: 0 <= i < |log| ==> MagicFree(log[i])
  }

  /** Then it marks the record starts. */
  lemma {:induction false} MagicIsStart(log: seq<Record>, q: nat) returns (k: nat)
    requires AllMagicFree(log) && q < |LogWords(log)| && LogWords(log)[q] == MAGIC
    ensures k < |log| && q == Begin(log, k)
  {
    var front, last := log[..|log| - 1], log[|log| - 1];
    if q < |LogWords(front)| {
      k := MagicIsStart(front, q);
      assert front[..k] == log[..k];
    } else {
      k := |log| - 1;
      var i := q - |LogWords(front)|;
      assert log[..k] == front;
      assert RecordWords(last)[i] == MAGIC;
      if i > 0 {
        NoMagicInside(last, i);
      }
    }
  }

  lemma NoMagicInside(r: Record, i: nat)
    requires MagicFree(r) && 0 < i < 3 + |r.prefixes|
    ensures RecordWords(r)[i] != MAGIC
  {
    if i >= 3 {
      assert r.prefixes[i - 3] in r.prefixes;
    }
  }

  /** So a read that succeeds, at whatever word, returns a whole record. */
  lemma SuccessIsRecord(log: seq<Record>, q: nat, budget: nat, numQueries: nat) returns (k: nat)
    requires AllMagicFree(log) && Succeeds(LogWords(log), q, budget, numQueries)
    ensures k < |log| && q == Begin(log, k) && Matches(log[k], budget, numQueries)
    ensures ReadWords(LogWords(log), q, budget, numQueries).1 == Ok(log[k].prefixes)
  {
    k := MagicIsStart(log, q);
    RecordHeader(log, k);
  }

  /** The records on a path after a run: those before, gone at the process's first append, and those appended. */
  function LogAfter(log: seq<Record>, initialized: bool, ops: seq<Op>): (seq<Record>, bool) {
    if ops == [] then (log, initialized)
    else
      var (before, init) := LogAfter(log, initialized, ops[..|ops| - 1]);
      match ops[|ops| - 1]
      case Read(_, _) => (before, init)
      case Append(budget, prefixes) =>
        var start := if init then before else [];
        if budget >= TWO32 || |prefixes| >= TWO32 then (start, init) else (start + [Record(budget, prefixes)], true)
  }

  lemma {:induction false} TraceIsLog(s: Trace, log: seq<Record>, ops: seq<Op>)
    requires Content(s) == LogWords(log)
    ensures var (after, init) := LogAfter(log, s.initialized, ops);
      Content(AfterTrace(s, ops)) == LogWords(after) && AfterTrace(s, ops).initialized == init
  {
    if ops != [] {
      TraceIsLog(s, log, ops[..|ops| - 1]);
      var (before, init) := LogAfter(log, s.initialized, ops[..|ops| - 1]);
      var op := ops[|ops| - 1];
      if op.Append? && op.budget < TWO32 && |op.prefixes| < TWO32 {
        var start := if init then before else [];
        assert (start + [Record(op.budget, op.prefixes)])[..|start|] == start;
      }
    }
  }

  /** For every run over any mix of paths: if no budget, length or prefix on the path equals the magic number,
      every read that succeeds returns the prefixes of some record of the file with the dimensions asked
      for, whatever was rejected before. */
  lemma SuccessfulReadsReturnRecords(w: World, calls: seq<Call>, path: string, s: Trace, log: seq<Record>, budget: nat, numQueries: nat, list: seq<Word>)
    requires Refines(w(path), s) && Content(s) == LogWords(log)
    requires AllMagicFree(LogAfter(log, s.initialized, Project(calls, path)).0)
    requires Step(After(w, calls)(path), Read(budget, numQueries)).1 == Replayed(Ok(list))
    ensures exists r :: r in LogAfter(log, s.initialized, Project(calls, path)).0 && Matches(r, budget, numQueries) && r.prefixes == list
  {
    var ops := Project(calls, path);
    var t, after := AfterTrace(s, ops), LogAfter(log, s.initialized, ops).0;
    NextCallOutcome(w, calls, path, s, Read(budget, numQueries));
    TraceIsLog(s, log, ops);
    var k := SuccessIsRecord(after, t.reader.pos, budget, numQueries);
    assert after[k] in after;
  }
}
