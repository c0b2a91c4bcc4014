/** Extracting a fixed-degree topology from a DiskANN disk index, sector by sector or node by node. */
module TopologyExtract {
  import opened Arithmetic
  import opened Bytes
  import opened TopologyFile
  import opened Wrappers

  const SECTOR_BYTES: nat := 4096

  // ---------------------------------------------------------------- the disk index layout

  datatype DiskIndex = DiskIndex(numNodes: nat, vectorDim: nat, maxNodeLen: nat, nodesPerSector: nat) {
    function CoordBytes(): nat { 4 * vectorDim }

    /** How many neighbours a node record has room for. */
    function NeighborCapacity(): Result<nat> {
      if maxNodeLen < CoordBytes() + 4 then Err else Ok((maxNodeLen - CoordBytes() - 4) / 4)
    }

    function SectorsPerNode(): nat { (maxNodeLen + SECTOR_BYTES - 1) / SECTOR_BYTES }

    function Offset(id: nat): nat {
      if nodesPerSector > 0 then
        SECTOR_BYTES + id / nodesPerSector * SECTOR_BYTES + id % nodesPerSector * maxNodeLen
      else SECTOR_BYTES + id * (SectorsPerNode() * SECTOR_BYTES)
    }

    function NodeOffsetBytes(id: nat): Result<nat> {
      if id >= numNodes then Err else Ok(Offset(id))
    }

    predicate EnoughNeighbors() {
      NeighborCapacity().Ok? && NeighborCapacity().value >= DEGREE
    }

    /** Nodes that share a sector must fit in it. */
    predicate NodesFit() {
      nodesPerSector * maxNodeLen <= SECTOR_BYTES
    }

    function TotalSectors(n: nat): nat
      requires nodesPerSector > 0
    {
      (n + nodesPerSector - 1) / nodesPerSector
    }

    /** The file is long enough for the reads that the first n nodes take. */
    predicate Readable(file: seq<Byte>, n: nat) {
      n > 0 ==>
        if nodesPerSector > 0 then SECTOR_BYTES + TotalSectors(n) * SECTOR_BYTES <= |file|
        else SECTOR_BYTES + n * (SectorsPerNode() * SECTOR_BYTES) <= |file|
    }

    ghost predicate NodeInFile(file: seq<Byte>, id: nat) {
      Offset(id) + maxNodeLen <= |file|
    }
  }

  lemma RoomForRow(ix: DiskIndex)
    ensures ix.EnoughNeighbors() <==> ix.CoordBytes() + 260 <= ix.maxNodeLen
  {
  }

  /** Nodes of a sector start at multiples of the node length and end inside the sector. */
  lemma NodeOfSector(ix: DiskIndex, sector: nat, local: nat, begin: nat, start: nat)
    requires ix.NodesFit() && local < ix.nodesPerSector
    requires begin == Times(sector, ix.nodesPerSector) && start == local * ix.maxNodeLen
    ensures ix.Offset(begin + local) == SECTOR_BYTES + sector * SECTOR_BYTES + start
    ensures start + ix.maxNodeLen <= SECTOR_BYTES
  {
    TimesIsProduct(sector, ix.nodesPerSector);
    DivModUnique(sector, ix.nodesPerSector, local);
    MulLe(local + 1, ix.nodesPerSector, ix.maxNodeLen);
  }

  /** A node that fills sectors of its own starts on a sector, the first one behind the header sector, and the
      next node follows after the least number of sectors that hold it. */
  lemma NodeOfItsOwn(ix: DiskIndex, id: nat, sectors: nat)
    requires ix.nodesPerSector == 0
    ensures ix.Offset(0) == SECTOR_BYTES && ix.Offset(id) % SECTOR_BYTES == 0
    ensures ix.Offset(id) + ix.maxNodeLen <= ix.Offset(id + 1)
    ensures ix.maxNodeLen <= sectors * SECTOR_BYTES ==> ix.Offset(id + 1) <= ix.Offset(id) + sectors * SECTOR_BYTES
  {
    var k := ix.SectorsPerNode();
    assert (id + 1) * (k * SECTOR_BYTES) == id * (k * SECTOR_BYTES) + k * SECTOR_BYTES;
    assert id * (k * SECTOR_BYTES) == (id * k) * SECTOR_BYTES;
    MultipleMod(SECTOR_BYTES, 1 + id * k);
  }

  /** The index is readable exactly if the last sector of the last node is in the file. */
  lemma ReadableIff(ix: DiskIndex, file: seq<Byte>, n: nat)
    requires n > 0
    ensures ix.nodesPerSector > 0 ==>
      (ix.Readable(file, n) <==> SECTOR_BYTES + (n - 1) / ix.nodesPerSector * SECTOR_BYTES + SECTOR_BYTES <= |file|)
    ensures ix.nodesPerSector == 0 ==> (ix.Readable(file, n) <==> ix.Offset(n) <= |file|)
  {
    if ix.nodesPerSector > 0 {
      var k, q := ix.nodesPerSector, (n - 1) / ix.nodesPerSector;
      DivMod(n - 1, k);
      assert n + k - 1 == (q + 1) * k + (n - 1) % k;
      DivModUnique(q + 1, k, (n - 1) % k);
    }
  }

  // ---------------------------------------------------------------- one node record

  predicate HasRow(bytes: seq<Byte>, start: nat, coord: nat) {
    start + coord + 260 <= |bytes|
  }

  function Limit(bytes: seq<Byte>, start: nat, coord: nat): nat
    requires HasRow(bytes, start, coord)
  {
    var degree := WordAt(bytes, start + coord);
    if degree < DEGREE then degree else DEGREE
  }

  function Neighbor(bytes: seq<Byte>, start: nat, coord: nat, i: nat): NodeId
    requires HasRow(bytes, start, coord) && i < DEGREE
  {
    WordAt(bytes, start + coord + 4 + 4 * i)
  }

  function Entry(bytes: seq<Byte>, start: nat, coord: nat, n: nat, i: nat): NodeId
    requires HasRow(bytes, start, coord) && i < DEGREE
  {
    if i < Limit(bytes, start, coord) && Neighbor(bytes, start, coord, i) < n then Neighbor(bytes, start, coord, i) else INVALID
  }

  /** The first k entries of the row the tool writes for a node record. */
  function Row(bytes: seq<Byte>, start: nat, coord: nat, n: nat, k: nat): (row: seq<NodeId>)
    requires HasRow(bytes, start, coord) && k <= DEGREE
    ensures |row| == k
  {
    if k == 0 then [] else Row(bytes, start, coord, n, k - 1) + [Entry(bytes, start, coord, n, k - 1)]
  }

  /** Out-of-range neighbours among the first k. */
  function Filtered(bytes: seq<Byte>, start: nat, coord: nat, n: nat, k: nat): nat
    requires HasRow(bytes, start, coord) && k <= DEGREE
  {
    if k == 0 then 0
    else Filtered(bytes, start, coord, n, k - 1) + if k <= Limit(bytes, start, coord) && Neighbor(bytes, start, coord, k - 1) >= n then 1 else 0
  }

  lemma {:induction false} FilteredStops(bytes: seq<Byte>, start: nat, coord: nat, n: nat, k: nat)
    requires HasRow(bytes, start, coord) && Limit(bytes, start, coord) <= k <= DEGREE
    ensures Filtered(bytes, start, coord, n, k) == Filtered(bytes, start, coord, n, Limit(bytes, start, coord))
  {
    if k > Limit(bytes, start, coord) {
      FilteredStops(bytes, start, coord, n, k - 1);
    }
  }

  lemma {:induction false} RowEntry(bytes: seq<Byte>, start: nat, coord: nat, n: nat, k: nat, i: nat)
    requires HasRow(bytes, start, coord) && i < k <= DEGREE
    ensures Row(bytes, start, coord, n, k)[i] == Entry(bytes, start, coord, n, i)
  {
    if i < k - 1 {
      RowEntry(bytes, start, coord, n, k - 1, i);
    }
  }

  /** A record read from a window of the file is the record in the file. */
  lemma {:induction false} RowInWindow(file: seq<Byte>, from: nat, to: nat, start: nat, coord: nat, n: nat, k: nat)
    requires from <= to <= |file| && HasRow(file[from..to], start, coord) && k <= DEGREE
    ensures HasRow(file, from + start, coord)
    ensures Row(file[from..to], start, coord, n, k) == Row(file, from + start, coord, n, k)
    ensures Filtered(file[from..to], start, coord, n, k) == Filtered(file, from + start, coord, n, k)
  {
    if k > 0 {
      EntryInWindow(file, from, to, start, coord, k - 1);
      RowInWindow(file, from, to, start, coord, n, k - 1);
    }
  }

  lemma EntryInWindow(file: seq<Byte>, from: nat, to: nat, start: nat, coord: nat, i: nat)
    requires from <= to <= |file| && HasRow(file[from..to], start, coord) && i < DEGREE
    ensures HasRow(file, from + start, coord)
    ensures Limit(file[from..to], start, coord) == Limit(file, from + start, coord)
    ensures Neighbor(file[from..to], start, coord, i) == Neighbor(file, from + start, coord, i)
  {
    WordInWindow(file, from, to, start + coord);
    WordInWindow(file, from, to, start + coord + 4 + 4 * i);
  }

  lemma WordInWindow(file: seq<Byte>, from: nat, to: nat, at: nat)
    requires from <= to <= |file| && at + 4 <= to - from
    ensures WordAt(file[from..to], at) == WordAt(file, from + at)
  {
    SliceOfSlice(file, from, to - from, at, 4);
  }

  /** Fills the row for one record and counts the neighbours dropped from it. */
  method ExtractRow(bytes: seq<Byte>, start: nat, coord: nat, n: nat, neighbors: array<NodeId>) returns (filtered: nat)
    requires HasRow(bytes, start, coord) && neighbors.Length == DEGREE
    modifies neighbors
    ensures neighbors[..] == Row(bytes, start, coord, n, DEGREE)
    ensures filtered == Filtered(bytes, start, coord, n, DEGREE)
  {
    for i := 0 to DEGREE
      invariant forall j :: 0 <= j < i ==> neighbors[j] == INVALID
    {
      neighbors[i] := INVALID;
    }
    var limit := Limit(bytes, start, coord);
    filtered := 0;
    for i := 0 to limit
      invariant forall j :: 0 <= j < i ==> neighbors[j] == Entry(bytes, start, coord, n, j)
      invariant forall j :: i <= j < DEGREE ==> neighbors[j] == INVALID
      invariant filtered == Filtered(bytes, start, coord, n, i)
    {
      var neighbor := Neighbor(bytes, start, coord, i);
      if neighbor < n {
        neighbors[i] := neighbor;
      } else {
        filtered := filtered + 1;
      }
    }
    FilteredStops(bytes, start, coord, n, DEGREE);
    forall j | 0 <= j < DEGREE ensures neighbors[j] == Row(bytes, start, coord, n, DEGREE)[j] {
      RowEntry(bytes, start, coord, n, DEGREE, j);
    }
  }

  // ---------------------------------------------------------------- the whole table

  ghost predicate NodesInFile(file: seq<Byte>, ix: DiskIndex, count: nat) {
    ix.EnoughNeighbors() && forall id :: 0 <= id < count ==> ix.NodeInFile(file, id)
  }

  /** Rows of the first count nodes, each taken from the bytes at NodeOffsetBytes. */
  ghost function Rows(file: seq<Byte>, ix: DiskIndex, n: nat, count: nat): (rows: seq<NodeId>)
    requires NodesInFile(file, ix, count)
    ensures |rows| == DEGREE * count
  {
    if count == 0 then []
    else
      RoomForRow(ix);
      assert ix.NodeInFile(file, count - 1);
      Rows(file, ix, n, count - 1) + Row(file, ix.Offset(count - 1), ix.CoordBytes(), n, DEGREE)
  }

  ghost function FilteredTotal(file: seq<Byte>, ix: DiskIndex, n: nat, count: nat): nat
    requires NodesInFile(file, ix, count)
  {
    if count == 0 then 0
    else
      RoomForRow(ix);
      assert ix.NodeInFile(file, count - 1);
      FilteredTotal(file, ix, n, count - 1) + Filtered(file, ix.Offset(count - 1), ix.CoordBytes(), n, DEGREE)
  }

  /** The header of the extracted file. */
  function HeaderFor(n: nat): seq<Byte> { Header(DEGREE, n, 4 * DEGREE * n) }

  /** What has been written after count nodes. */
  ghost predicate Extracted(file: seq<Byte>, ix: DiskIndex, n: nat, count: nat, header: seq<Byte>, out: seq<Byte>, filtered: nat) {
    && NodesInFile(file, ix, count)
    && out == header + Words(Rows(file, ix, n, count))
    && filtered == FilteredTotal(file, ix, n, count)
  }

  lemma OneMoreNode(file: seq<Byte>, ix: DiskIndex, n: nat, count: nat, header: seq<Byte>, out: seq<Byte>, filtered: nat, at: nat)
    requires Extracted(file, ix, n, count, header, out, filtered)
    requires at == ix.Offset(count) && at + ix.maxNodeLen <= |file|
    ensures HasRow(file, at, ix.CoordBytes())
    ensures Extracted(file, ix, n, count + 1, header, out + Words(Row(file, at, ix.CoordBytes(), n, DEGREE)),
                      filtered + Filtered(file, at, ix.CoordBytes(), n, DEGREE))
  {
    RoomForRow(ix);
    assert ix.NodeInFile(file, count);
    WordsConcat(Rows(file, ix, n, count), Row(file, at, ix.CoordBytes(), n, DEGREE));
    Assoc(header, Words(Rows(file, ix, n, count)), Words(Row(file, at, ix.CoordBytes(), n, DEGREE)));
  }

  /** One node record, at `start` of a buffer read from the file at `from`. */
  method ExtractNode(file: seq<Byte>, ix: DiskIndex, n: nat, ghost id: nat, from: nat, bytes: seq<Byte>, start: nat,
                     neighbors: array<NodeId>, ghost header: seq<Byte>, written: seq<Byte>, filteredBefore: nat)
    returns (out: seq<Byte>, filtered: nat)
    requires from + |bytes| <= |file| && bytes == file[from..from + |bytes|] && start + ix.maxNodeLen <= |bytes|
    requires from + start == ix.Offset(id) && neighbors.Length == DEGREE
    requires Extracted(file, ix, n, id, header, written, filteredBefore)
    modifies neighbors
    ensures Extracted(file, ix, n, id + 1, header, out, filtered)
  {
    RoomForRow(ix);
    var dropped := ExtractRow(bytes, start, ix.CoordBytes(), n, neighbors);
    RowInWindow(file, from, from + |bytes|, start, ix.CoordBytes(), n, DEGREE);
    OneMoreNode(file, ix, n, id, header, written, filteredBefore, from + start);
    out, filtered := written + Words(neighbors[..]), filteredBefore + dropped;
  }

  /** One sector that holds several nodes. */
  method ExtractSector(file: seq<Byte>, ix: DiskIndex, n: nat, sector: nat, nodes: nat, neighbors: array<NodeId>, begin: nat,
                       ghost header: seq<Byte>, written: seq<Byte>, filteredBefore: nat)
    returns (out: seq<Byte>, filtered: nat, processed: nat)
    requires ix.NodesFit() && nodes <= ix.nodesPerSector && begin == Times(sector, ix.nodesPerSector)
    requires SECTOR_BYTES + sector * SECTOR_BYTES + SECTOR_BYTES <= |file| && neighbors.Length == DEGREE
    requires Extracted(file, ix, n, begin, header, written, filteredBefore)
    modifies neighbors
    ensures processed == begin + nodes && Extracted(file, ix, n, processed, header, out, filtered)
  {
    var from := SECTOR_BYTES + sector * SECTOR_BYTES;
    var bytes := file[from..from + SECTOR_BYTES];
    out, filtered, processed := written, filteredBefore, begin;
    for local := 0 to nodes
      invariant processed == begin + local && Extracted(file, ix, n, processed, header, out, filtered)
    {
      var start := Product(local, ix.maxNodeLen);
      NodeOfSector(ix, sector, local, begin, start);
      out, filtered := ExtractNode(file, ix, n, processed, from, bytes, start, neighbors, header, out, filtered);
      processed := processed + 1;
    }
  }

  method ExtractBySector(file: seq<Byte>, ix: DiskIndex, n: nat, header: seq<Byte>) returns (r: Result<(seq<Byte>, nat)>)
    requires ix.nodesPerSector > 0 && ix.NodesFit() && ix.EnoughNeighbors()
    ensures r.Ok? <==> ix.Readable(file, n)
    ensures r.Ok? ==> Extracted(file, ix, n, n, header, r.value.0, r.value.1)
  {
    var out, filtered: nat := header, 0;
    var neighbors := new NodeId[DEGREE](_ => INVALID);
    var total := ix.TotalSectors(n);
    var processed: nat := 0;
    assert out + Words([]) == out;
    TotalCovers(n, ix.nodesPerSector, total);
    for sector := 0 to total
      invariant sector > 0 ==> SECTOR_BYTES + sector * SECTOR_BYTES <= |file|
      invariant processed == if sector < total then Times(sector, ix.nodesPerSector) else n
      invariant Extracted(file, ix, n, processed, header, out, filtered)
    {
      if |file| < SECTOR_BYTES + sector * SECTOR_BYTES + SECTOR_BYTES {
        return Err;
      }
      SectorNodes(n, ix.nodesPerSector, total, sector);
      var nodes := if ix.nodesPerSector <= n - processed then ix.nodesPerSector else n - processed;
      out, filtered, processed := ExtractSector(file, ix, n, sector, nodes, neighbors, processed, header, out, filtered);
    }
    return Ok((out, filtered));
  }

  lemma TotalCovers(n: nat, perSector: nat, total: nat)
    requires perSector > 0 && total == (n + perSector - 1) / perSector
    ensures total == 0 <==> n == 0
    ensures total > 0 ==> (total - 1) * perSector < n <= total * perSector
  {
    DivMod(n + perSector - 1, perSector);
    if total == 0 {
      assert n + perSector - 1 == (n + perSector - 1) % perSector;
    } else {
      assert total * perSector == (total - 1) * perSector + perSector;
    }
    if n == 0 {
      DivModUnique(0, perSector, perSector - 1);
    }
  }

  /** Every sector but the last is full. */
  lemma SectorNodes(n: nat, perSector: nat, total: nat, sector: nat)
    requires perSector > 0 && sector < total && (total - 1) * perSector < n <= total * perSector
    ensures Times(sector, perSector) < n
    ensures sector + 1 < total ==> Times(sector + 1, perSector) == Times(sector, perSector) + perSector < n
    ensures sector + 1 == total ==> n <= Times(sector, perSector) + perSector
  {
    TimesIsProduct(sector, perSector);
    MulLe(sector, total - 1, perSector);
    assert (sector + 1) * perSector == sector * perSector + perSector;
    if sector + 1 < total {
      MulLe(sector + 1, total - 1, perSector);
    }
  }

  /** Nodes of one sector or more are read one at a time at their offsets. */
  method ExtractByNode(file: seq<Byte>, ix: DiskIndex, n: nat, header: seq<Byte>) returns (r: Result<(seq<Byte>, nat)>)
    requires ix.nodesPerSector == 0 && ix.EnoughNeighbors() && n <= ix.numNodes
    ensures r.Ok? <==> ix.Readable(file, n)
    ensures r.Ok? ==> Extracted(file, ix, n, n, header, r.value.0, r.value.1)
  {
    var out, filtered: nat := header, 0;
    var neighbors := new NodeId[DEGREE](_ => INVALID);
    var size := ix.SectorsPerNode() * SECTOR_BYTES;
    assert out + Words([]) == out;
    NodeWithinSectors(ix.maxNodeLen, size);
    for id := 0 to n
      invariant id > 0 ==> SECTOR_BYTES + id * size <= |file|
      invariant Extracted(file, ix, n, id, header, out, filtered)
    {
      var offset := ix.NodeOffsetBytes(id).value;
      NextNode(id, n, size);
      if |file| < offset + size {
        return Err;
      }
      var node := file[offset..offset + size];
      out, filtered := ExtractNode(file, ix, n, id, offset, node, 0, neighbors, header, out, filtered);
    }
    return Ok((out, filtered));
  }

  lemma NodeWithinSectors(length: nat, size: nat)
    requires size == (length + SECTOR_BYTES - 1) / SECTOR_BYTES * SECTOR_BYTES
    ensures length <= size
  {
  }

  lemma NextNode(id: nat, n: nat, size: nat)
    requires id < n
    ensures id * size + size == (id + 1) * size <= n * size
  {
    MulLe(id + 1, n, size);
  }

  /** ExtractTopology: both read paths produce the rows found at NodeOffsetBytes. It fails exactly
      when a node has room for fewer than 64 neighbours or the index file is too short. */
  method ExtractTopology(file: seq<Byte>, ix: DiskIndex, n: nat) returns (r: Result<(seq<Byte>, nat)>)
    requires n <= ix.numNodes && (ix.nodesPerSector > 0 ==> ix.NodesFit())
    ensures r.Ok? <==> ix.EnoughNeighbors() && ix.Readable(file, n)
    ensures r.Ok? ==> Extracted(file, ix, n, n, HeaderFor(n), r.value.0, r.value.1)
    ensures r.Ok? && n < 0x8000_0000 ==> forall lists | |lists| == n && StoresLists(file, ix, lists) ::
      ReadFile(r.value.0) == Ok(Dataset(n, DEGREE, KeptTable(lists, n))) && r.value.1 == OutOfRangeTotal(lists, n)
  {
    var header := HeaderFor(n);
    var capacity := ix.NeighborCapacity();
    if capacity.Err? || capacity.value < DEGREE {
      return Err;
    }
    if ix.nodesPerSector > 0 {
      r := ExtractBySector(file, ix, n, header);
    } else {
      r := ExtractByNode(file, ix, n, header);
    }
    if r.Ok? && n < 0x8000_0000 {
      forall lists | |lists| == n && StoresLists(file, ix, lists)
        ensures ReadFile(r.value.0) == Ok(Dataset(n, DEGREE, KeptTable(lists, n))) && r.value.1 == OutOfRangeTotal(lists, n)
      {
        ExtractedLists(file, ix, lists, r.value.0, r.value.1);
      }
    }
  }

  // ---------------------------------------------------------------- what the output means

  lemma WrittenFileReads(rows: seq<NodeId>, n: nat, out: seq<Byte>)
    requires n < 0x8000_0000 && |rows| == DEGREE * n && out == HeaderFor(n) + Words(rows)
    ensures WriteFile(Dataset(n, DEGREE, rows)) == Ok(out) && ReadFile(out) == Ok(Dataset(n, DEGREE, rows))
  {
    BytesOfRows(n, |rows|);
    ReadsWhatWasWritten(Dataset(n, DEGREE, rows));
  }

  lemma BytesOfRows(n: nat, words: nat)
    requires words == DEGREE * n && n < 0x8000_0000
    ensures words == n * DEGREE && 4 * DEGREE * n == 4 * words && HEADER_SIZE + 4 * words < TWO64 / 2
  {
  }

  /** The extracted file is what WriteFile writes for the table of rows, so ReadFile returns it. */
  lemma ExtractedFileReads(file: seq<Byte>, ix: DiskIndex, n: nat, out: seq<Byte>, filtered: nat)
    requires Extracted(file, ix, n, n, HeaderFor(n), out, filtered) && n < 0x8000_0000
    ensures var d := Dataset(n, DEGREE, Rows(file, ix, n, n)); WriteFile(d) == Ok(out) && ReadFile(out) == Ok(d)
  {
    WrittenFileReads(Rows(file, ix, n, n), n, out);
  }

  /** Entry i of a node's row is neighbour i when the node has one and it is in range, else invalid. */
  lemma {:induction false} ExtractedEntry(file: seq<Byte>, ix: DiskIndex, n: nat, count: nat, id: nat, i: nat)
    requires NodesInFile(file, ix, count) && id < count && i < DEGREE
    ensures HasRow(file, ix.Offset(id), ix.CoordBytes())
    ensures Rows(file, ix, n, count)[DEGREE * id + i] == Entry(file, ix.Offset(id), ix.CoordBytes(), n, i)
  {
    RoomForRow(ix);
    assert ix.NodeInFile(file, id);
    if id < count - 1 {
      ExtractedEntry(file, ix, n, count - 1, id, i);
    } else {
      RowEntry(file, ix.Offset(id), ix.CoordBytes(), n, DEGREE, i);
    }
  }

  // ---------------------------------------------------------------- round trip from stored neighbour lists

  /** Behind the coordinates of the record at start: the degree, then that many neighbours. */
  ghost predicate HoldsList(bytes: seq<Byte>, start: nat, coord: nat, list: seq<NodeId>) {
    && |list| < 0x1_0000_0000 && start + coord + 4 + 4 * |list| <= |bytes|
    && bytes[start + coord..start + coord + 4 + 4 * |list|] == U32(|list|) + Words(list)
  }

  lemma ListWords(bytes: seq<Byte>, start: nat, coord: nat, list: seq<NodeId>)
    requires HoldsList(bytes, start, coord, list)
    ensures WordAt(bytes, start + coord) == |list|
    ensures forall i :: 0 <= i < |list| ==> WordAt(bytes, start + coord + 4 + 4 * i) == list[i]
  {
    var n: Word := |list|;
    var words, from, to := [n] + list, start + coord, start + coord + 4 + 4 * |list|;
    WordsConcat([n], list);
    assert [n][..0] == [] && Words([n]) == U32(n);
    WordInWindow(bytes, from, to, 0);
    WordOfWords(words, 0, 0);
    forall i | 0 <= i < |list| ensures WordAt(bytes, from + 4 + 4 * i) == list[i] {
      WordInWindow(bytes, from, to, 4 + 4 * i);
      WordOfWords(words, i + 1, 4 + 4 * i);
    }
  }

  /** What the tool keeps of a list: the first 64 neighbours, those outside the n vectors made invalid. */
  function KeptRow(list: seq<NodeId>, n: nat): (row: seq<NodeId>)
    ensures |row| == DEGREE
  {
    seq(DEGREE, i => if 0 <= i < |list| && list[i] < n then list[i] else INVALID)
  }

  /** How many of the first k neighbours are outside the n vectors. */
  function OutOfRange(list: seq<NodeId>, n: nat, k: nat): nat {
    if k == 0 then 0 else OutOfRange(list, n, k - 1) + if k <= |list| && list[k - 1] >= n then 1 else 0
  }

  lemma ListRow(bytes: seq<Byte>, start: nat, coord: nat, n: nat, list: seq<NodeId>)
    requires HasRow(bytes, start, coord) && HoldsList(bytes, start, coord, list)
    ensures Row(bytes, start, coord, n, DEGREE) == KeptRow(list, n)
    ensures Filtered(bytes, start, coord, n, DEGREE) == OutOfRange(list, n, DEGREE)
  {
    ListWords(bytes, start, coord, list);
    forall i | 0 <= i < DEGREE ensures Row(bytes, start, coord, n, DEGREE)[i] == KeptRow(list, n)[i] {
      RowEntry(bytes, start, coord, n, DEGREE, i);
    }
    ListFiltered(bytes, start, coord, n, list, DEGREE);
  }

  lemma {:induction false} ListFiltered(bytes: seq<Byte>, start: nat, coord: nat, n: nat, list: seq<NodeId>, k: nat)
    requires HasRow(bytes, start, coord) && HoldsList(bytes, start, coord, list) && k <= DEGREE
    ensures Filtered(bytes, start, coord, n, k) == OutOfRange(list, n, k)
  {
    if k > 0 {
      ListFiltered(bytes, start, coord, n, list, k - 1);
      ListWords(bytes, start, coord, list);
    }
  }

  ghost predicate StoresLists(file: seq<Byte>, ix: DiskIndex, lists: seq<seq<NodeId>>) {
    forall id :: 0 <= id < |lists| ==> HoldsList(file, ix.Offset(id), ix.CoordBytes(), lists[id])
  }

  function KeptTable(lists: seq<seq<NodeId>>, n: nat): (table: seq<NodeId>)
    ensures |table| == DEGREE * |lists|
  {
    if lists == [] then [] else KeptTable(lists[..|lists| - 1], n) + KeptRow(lists[|lists| - 1], n)
  }

  function OutOfRangeTotal(lists: seq<seq<NodeId>>, n: nat): nat {
    if lists == [] then 0
    else OutOfRangeTotal(lists[..|lists| - 1], n) + OutOfRange(lists[|lists| - 1], n, DEGREE)
  }

  lemma {:induction false} ListsRows(file: seq<Byte>, ix: DiskIndex, n: nat, lists: seq<seq<NodeId>>)
    requires NodesInFile(file, ix, |lists|) && StoresLists(file, ix, lists)
    ensures Rows(file, ix, n, |lists|) == KeptTable(lists, n)
    ensures FilteredTotal(file, ix, n, |lists|) == OutOfRangeTotal(lists, n)
  {
    if lists != [] {
      var front, id := lists[..|lists| - 1], |lists| - 1;
      assert StoresLists(file, ix, front);
      ListsRows(file, ix, n, front);
      RoomForRow(ix);
      assert ix.NodeInFile(file, id);
      ListRow(file, ix.Offset(id), ix.CoordBytes(), n, lists[id]);
    }
  }

  lemma {:induction false} KeptTableEntry(lists: seq<seq<NodeId>>, n: nat, id: nat, i: nat)
    requires id < |lists| && i < DEGREE
    ensures KeptTable(lists, n)[DEGREE * id + i] == if i < |lists[id]| && lists[id][i] < n then lists[id][i] else INVALID
  {
    if id < |lists| - 1 {
      KeptTableEntry(lists[..|lists| - 1], n, id, i);
    }
  }

  /** Round trip: from an index that stores these lists, ReadFile gets of the extracted file, for every node, its
      first 64 neighbours in order with those outside the data set made invalid, and their number is reported. */
  lemma ExtractedLists(file: seq<Byte>, ix: DiskIndex, lists: seq<seq<NodeId>>, out: seq<Byte>, filtered: nat)
    requires var n := |lists|;
      n < 0x8000_0000 && StoresLists(file, ix, lists) && Extracted(file, ix, n, n, HeaderFor(n), out, filtered)
    ensures ReadFile(out) == Ok(Dataset(|lists|, DEGREE, KeptTable(lists, |lists|)))
    ensures forall id, i :: 0 <= id < |lists| && 0 <= i < DEGREE ==>
      KeptTable(lists, |lists|)[DEGREE * id + i] == if i < |lists[id]| && lists[id][i] < |lists| then lists[id][i] else INVALID
    ensures filtered == OutOfRangeTotal(lists, |lists|)
  {
    ExtractedFileReads(file, ix, |lists|, out, filtered);
    ListsRows(file, ix, |lists|, lists);
    forall id, i | 0 <= id < |lists| && 0 <= i < DEGREE
      ensures KeptTable(lists, |lists|)[DEGREE * id + i] == if i < |lists[id]| && lists[id][i] < |lists| then lists[id][i] else INVALID
    {
      KeptTableEntry(lists, |lists|, id, i);
    }
  }

  function CountValid(ids: seq<NodeId>): nat {
    if ids == [] then 0 else CountValid(ids[..|ids| - 1]) + if ids[|ids| - 1] != INVALID then 1 else 0
  }

  lemma {:induction false} CountValidConcat(a: seq<NodeId>, b: seq<NodeId>)
    ensures CountValid(a + b) == CountValid(a) + CountValid(b)
  {
    if b == [] {
      assert a + b == a;
    } else {
      assert (a + b)[..|a + b| - 1] == a + b[..|b| - 1];
      CountValidConcat(a, b[..|b| - 1]);
    }
  }

  lemma {:induction false} RowConserves(bytes: seq<Byte>, start: nat, coord: nat, n: nat, k: nat)
    requires HasRow(bytes, start, coord) && k <= DEGREE && n <= INVALID
    ensures CountValid(Row(bytes, start, coord, n, k)) + Filtered(bytes, start, coord, n, k)
         == if k < Limit(bytes, start, coord) then k else Limit(bytes, start, coord)
  {
    if k > 0 {
      RowConserves(bytes, start, coord, n, k - 1);
      assert Row(bytes, start, coord, n, k)[..k - 1] == Row(bytes, start, coord, n, k - 1);
    }
  }

  ghost function DegreeTotal(file: seq<Byte>, ix: DiskIndex, count: nat): nat
    requires NodesInFile(file, ix, count)
  {
    if count == 0 then 0
    else
      RoomForRow(ix);
      assert ix.NodeInFile(file, count - 1);
      DegreeTotal(file, ix, count - 1) + Limit(file, ix.Offset(count - 1), ix.CoordBytes())
  }

  /** Neighbours kept plus neighbours filtered are all neighbours, at most 64 for each node. */
  lemma {:induction false} KeptPlusFiltered(file: seq<Byte>, ix: DiskIndex, n: nat, count: nat)
    requires NodesInFile(file, ix, count) && n <= INVALID
    ensures CountValid(Rows(file, ix, n, count)) + FilteredTotal(file, ix, n, count) == DegreeTotal(file, ix, count)
  {
    if count > 0 {
      KeptPlusFiltered(file, ix, n, count - 1);
      RoomForRow(ix);
      assert ix.NodeInFile(file, count - 1);
      var at := ix.Offset(count - 1);
      RowConserves(file, at, ix.CoordBytes(), n, DEGREE);
      CountValidConcat(Rows(file, ix, n, count - 1), Row(file, at, ix.CoordBytes(), n, DEGREE));
    }
  }
}
