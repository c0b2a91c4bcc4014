/** The fixed-degree topology file: padding, writing, reading. */
module TopologyFile {
  import opened Bytes
  import opened Wrappers

  const DEGREE: nat := 64
  const VERSION: nat := 1
  const HEADER_SIZE: nat := 4096
  const TWO64: nat := 0x1_0000_0000 * 0x1_0000_0000

  type NodeId = Word
  const INVALID: NodeId := 0xffff_ffff

  const MAGIC: seq<Byte> := [84, 79, 80, 79, 65, 78, 78, 83] // "TOPOANNS"

  datatype Dataset = Dataset(numNodes: nat, degree: nat, adjacency: seq<NodeId>) {
    predicate Valid() {
      degree == DEGREE && |adjacency| == numNodes * DEGREE
    }
  }

  // ---------------------------------------------------------------- writing and reading

  function Header(degree: nat, numNodes: nat, payloadBytes: nat): (h: seq<Byte>)
    ensures |h| == HEADER_SIZE
  {
    MAGIC + U32(VERSION) + U32(degree) + U64(numNodes) + U64(HEADER_SIZE) + U64(payloadBytes) + Zeros(4056)
  }

  function WriteFile(d: Dataset): Result<seq<Byte>> {
    if !d.Valid() then Err else Ok(Header(d.degree, d.numNodes, 4 * |d.adjacency|) + Words(d.adjacency))
  }

  /** Sizes are computed modulo 2^64; an adjacency of 2^61 words or more cannot be allocated. */
  function ReadFile(file: seq<Byte>): Result<Dataset> {
    if |file| < HEADER_SIZE then Err
    else if file[..8] != MAGIC || FromLE(file[8..12]) != VERSION || FromLE(file[12..16]) != DEGREE then Err
    else ReadRows(file, FromLE(file[16..24]))
  }

  function ReadRows(file: seq<Byte>, numNodes: nat): Result<Dataset> {
    var adjacencySize := numNodes * DEGREE % TWO64;
    if |file| != (HEADER_SIZE + adjacencySize * 4) % TWO64 || adjacencySize >= TWO64 / 8 then Err
    else if |file| < HEADER_SIZE + adjacencySize * 4 then Err
    else Ok(Dataset(numNodes, DEGREE, ParseWords(file, HEADER_SIZE, adjacencySize)))
  }

  /** Reading returns what was written. A file has fewer than 2^63 bytes. */
  lemma ReadsWhatWasWritten(d: Dataset)
    requires d.Valid() && HEADER_SIZE + 4 * |d.adjacency| < TWO64 / 2
    ensures WriteFile(d).Ok? && ReadFile(WriteFile(d).value) == Ok(d)
  {
    HeaderRead(d.numNodes, 4 * |d.adjacency|, Words(d.adjacency));
    RowsRead(Header(d.degree, d.numNodes, 4 * |d.adjacency|), d);
  }

  lemma RowsRead(header: seq<Byte>, d: Dataset)
    requires d.Valid() && HEADER_SIZE + 4 * |d.adjacency| < TWO64 / 2 && |header| == HEADER_SIZE
    ensures ReadRows(header + Words(d.adjacency), d.numNodes) == Ok(d)
  {
    WordsRoundTrip(header, d.adjacency, []);
    assert header + Words(d.adjacency) + [] == header + Words(d.adjacency);
    SmallSize(|d.adjacency|);
  }

  lemma SmallSize(words: nat)
    requires HEADER_SIZE + 4 * words < TWO64 / 2
    ensures words % TWO64 == words < TWO64 / 8 && (HEADER_SIZE + words * 4) % TWO64 == HEADER_SIZE + words * 4
  {
  }

  lemma HeaderFields(degree: nat, numNodes: nat, payloadBytes: nat, body: seq<Byte>)
    ensures var file := Header(degree, numNodes, payloadBytes) + body;
      && file[..8] == MAGIC && file[8..12] == U32(VERSION) && file[12..16] == U32(degree) && file[16..24] == U64(numNodes)
  {
  }

  /** What ReadFile does with a file that starts with a written header. */
  lemma HeaderRead(numNodes: nat, payloadBytes: nat, body: seq<Byte>)
    requires numNodes < TWO64
    ensures ReadFile(Header(DEGREE, numNodes, payloadBytes) + body) == ReadRows(Header(DEGREE, numNodes, payloadBytes) + body, numNodes)
  {
    HeaderFields(DEGREE, numNodes, payloadBytes, body);
    U32RoundTrip(VERSION);
    U32RoundTrip(DEGREE);
    U64RoundTrip(numNodes);
  }

  /** The checked part of a header. */
  lemma CheckedHeader(file: seq<Byte>)
    requires |file| >= 16
    ensures file[..16] == MAGIC + U32(VERSION) + U32(DEGREE)
       <==> file[..8] == MAGIC && FromLE(file[8..12]) == VERSION && FromLE(file[12..16]) == DEGREE
  {
    TwoNumbers(file[8..], VERSION, DEGREE);
    assert file[8..][..8] == file[8..16] && file[8..][..4] == file[8..12] && file[8..][4..8] == file[12..16];
    assert file[..16] == file[..8] + file[8..16];
    Assoc(MAGIC, U32(VERSION), U32(DEGREE));
    if file[..16] == MAGIC + (U32(VERSION) + U32(DEGREE)) {
      assert file[..8] == file[..16][..8] && file[8..16] == file[..16][8..];
    }
  }

  /** A file is accepted exactly if it starts as a written one does, with magic, version and degree, and is as long
      as the rows its header counts, in 64-bit arithmetic. */
  lemma AcceptedIff(file: seq<Byte>)
    requires |file| < TWO64 / 2
    ensures ReadFile(file).Ok?
       <==> |file| >= HEADER_SIZE && file[..16] == MAGIC + U32(VERSION) + U32(DEGREE)
            && |file| == HEADER_SIZE + 4 * (FromLE(file[16..24]) * DEGREE % TWO64)
  {
    if |file| >= HEADER_SIZE {
      CheckedHeader(file);
      WrappedSize(|file|, FromLE(file[16..24]) * DEGREE % TWO64);
    }
  }

  lemma WrappedSize(length: nat, words: nat)
    requires length < TWO64 / 2 && words < TWO64
    ensures length == (HEADER_SIZE + words * 4) % TWO64 && words < TWO64 / 8 && length >= HEADER_SIZE + words * 4
       <==> length == HEADER_SIZE + 4 * words
  {
  }

  lemma HeaderStarts(numNodes: nat, payloadBytes: nat, body: seq<Byte>)
    ensures (Header(DEGREE, numNodes, payloadBytes) + body)[..24] == MAGIC + U32(VERSION) + U32(DEGREE) + U64(numNodes)
    ensures (Header(DEGREE, numNodes, payloadBytes) + body)[HEADER_SIZE..] == body
  {
  }

  lemma FileStarts(file: seq<Byte>)
    requires |file| >= 24 && file[..16] == MAGIC + U32(VERSION) + U32(DEGREE)
    ensures file[..24] == MAGIC + U32(VERSION) + U32(DEGREE) + U64(FromLE(file[16..24]))
  {
    LEInverse(file[16..24]);
    assert file[..24] == file[..16] + file[16..24];
  }

  /** Reading and writing again changes nothing but header bytes that are not read. */
  lemma WritesWhatWasRead(file: seq<Byte>)
    requires |file| < TWO64 / 2 && ReadFile(file).Ok? && ReadFile(file).value.Valid()
    ensures WriteFile(ReadFile(file).value).Ok?
    ensures var out := WriteFile(ReadFile(file).value).value;
      |out| == |file| && out[..24] == file[..24] && out[HEADER_SIZE..] == file[HEADER_SIZE..]
  {
    AcceptedIff(file);
    FileStarts(file);
    RewrittenRows(file, ReadFile(file).value);
  }

  lemma RewrittenRows(file: seq<Byte>, d: Dataset)
    requires |file| == HEADER_SIZE + 4 * |d.adjacency| && d.Valid() && d.adjacency == ParseWords(file, HEADER_SIZE, |d.adjacency|)
    ensures WriteFile(d).Ok?
    ensures var out := WriteFile(d).value;
      |out| == |file| && out[..24] == MAGIC + U32(VERSION) + U32(DEGREE) + U64(d.numNodes) && out[HEADER_SIZE..] == file[HEADER_SIZE..]
  {
    HeaderStarts(d.numNodes, 4 * |d.adjacency|, Words(d.adjacency));
    WordsInverse(file, HEADER_SIZE, |d.adjacency|);
  }

  /** Everything ReadFile accepts has degree 64, but its node count can exceed its rows: the two
      agree exactly when the count in the header is below 2^58, where the product wraps. */
  lemma ReadFileValidIff(file: seq<Byte>)
    requires ReadFile(file).Ok?
    ensures ReadFile(file).value.Valid() <==> FromLE(file[16..24]) < 0x400_0000_0000_0000
    ensures ReadFile(file).value.Valid() ==> |file| == HEADER_SIZE + 256 * ReadFile(file).value.numNodes
  {
    var numNodes := FromLE(file[16..24]);
    FromLEBound(file[16..24]);
    Power256Values();
    assert numNodes < 0x400_0000_0000_0000 <==> numNodes * DEGREE < TWO64;
  }

  /** A bare header that counts 2^58 nodes is accepted as a data set without any row. */
  lemma WrappedCountAccepted(numNodes: nat)
    requires numNodes == 0x400_0000_0000_0000
    ensures ReadFile(Header(DEGREE, numNodes, 0)) == Ok(Dataset(numNodes, DEGREE, []))
  {
    var file := Header(DEGREE, numNodes, 0);
    HeaderRead(numNodes, 0, []);
    assert file + [] == file;
    BareHeader(file, numNodes);
  }

  lemma BareHeader(file: seq<Byte>, numNodes: nat)
    requires |file| == HEADER_SIZE && numNodes * DEGREE % TWO64 == 0
    ensures ReadRows(file, numNodes) == Ok(Dataset(numNodes, DEGREE, []))
  {
  }

  // ---------------------------------------------------------------- padding adjacency lists

  function Invalids(n: nat): (s: seq<NodeId>)
    ensures |s| == n
  {
    seq(n, _ => INVALID)
  }

  function PaddedRows(lists: seq<seq<NodeId>>): (s: seq<NodeId>)
    requires forall i :: 0 <= i < |lists| ==> |lists[i]| <= DEGREE
    ensures |s| == DEGREE * |lists|
  {
    if lists == [] then []
    else
      var last := lists[|lists| - 1];
      PaddedRows(lists[..|lists| - 1]) + last + Invalids(DEGREE - |last|)
  }

  /** Row i of the padded table is list i, then invalid ids. */
  lemma {:induction false} PaddedRow(lists: seq<seq<NodeId>>, i: nat)
    requires forall j :: 0 <= j < |lists| ==> |lists[j]| <= DEGREE
    requires i < |lists|
    ensures PaddedRows(lists)[DEGREE * i..DEGREE * i + DEGREE] == lists[i] + Invalids(DEGREE - |lists[i]|)
    ensures forall j :: 0 <= j < DEGREE ==>
      PaddedRows(lists)[DEGREE * i..DEGREE * i + DEGREE][j] == if j < |lists[i]| then lists[i][j] else INVALID
  {
    var front := lists[..|lists| - 1];
    if i < |lists| - 1 {
      PaddedRow(front, i);
      assert PaddedRows(lists)[..DEGREE * |front|] == PaddedRows(front);
      assert PaddedRows(lists)[DEGREE * i..DEGREE * i + DEGREE] == PaddedRows(front)[DEGREE * i..DEGREE * i + DEGREE];
    }
  }

  /** MakePadded: fails exactly on a wrong number of lists or a list of more than 64 neighbours. */
  method MakePadded(numNodes: nat, lists: seq<seq<NodeId>>) returns (r: Result<Dataset>)
    ensures r.Ok? <==> |lists| == numNodes && forall i :: 0 <= i < |lists| ==> |lists[i]| <= DEGREE
    ensures r.Ok? ==> r.value.Valid() && r.value.numNodes == numNodes && r.value.adjacency == PaddedRows(lists)
  {
    if |lists| != numNodes {
      return Err;
    }
    var adjacency := new NodeId[numNodes * DEGREE](_ => INVALID);
    for node := 0 to numNodes
      invariant forall i :: 0 <= i < node ==> |lists[i]| <= DEGREE
      invariant adjacency[..DEGREE * node] == PaddedRows(lists[..node])
      invariant forall j :: DEGREE * node <= j < adjacency.Length ==> adjacency[j] == INVALID
    {
      var neighbors := lists[node];
      if |neighbors| > DEGREE {
        return Err;
      }
      CopyRow(adjacency, DEGREE * node, neighbors);
      assert lists[..node + 1][..node] == lists[..node];
      assert adjacency[..DEGREE * node + DEGREE]
          == adjacency[..DEGREE * node] + neighbors + Invalids(DEGREE - |neighbors|);
    }
    assert lists[..numNodes] == lists && adjacency[..] == adjacency[..DEGREE * numNodes];
    return Ok(Dataset(numNodes, DEGREE, adjacency[..]));
  }

  method CopyRow(adjacency: array<NodeId>, dst: nat, neighbors: seq<NodeId>)
    requires dst + |neighbors| <= adjacency.Length
    modifies adjacency
    ensures adjacency[..dst] == old(adjacency[..dst])
    ensures adjacency[dst..dst + |neighbors|] == neighbors
    ensures forall j :: dst + |neighbors| <= j < adjacency.Length ==> adjacency[j] == old(adjacency[j])
  {
    for i := 0 to |neighbors|
      invariant adjacency[..dst] == old(adjacency[..dst])
      invariant adjacency[dst..dst + i] == neighbors[..i]
      invariant forall j :: dst + i <= j < adjacency.Length ==> adjacency[j] == old(adjacency[j])
    {
      adjacency[dst + i] := neighbors[i];
    }
  }
}
