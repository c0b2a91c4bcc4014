/** The residual-PQ cross-term table, the distance tables, and what their sum recovers. */
module CrossTerms {
  import opened Arithmetic
  import opened VectorMath
  import opened ProductQuantizer
  import opened Wrappers

  /** All dimensions of one center, centroid included. */
  function CenterVector(p: PqPivots, center: Code): (v: Vec)
    requires p.Valid()
    ensures |v| == p.ndims
  {
    seq(p.ndims, d requires 0 <= d < p.ndims => CenterValue(p, center, d))
  }

  /** The same value as the table-building loop reads it: table entry first. */
  function StoredCenter(p: PqPivots, center: Code, d: nat): (v: real)
    requires p.Valid() && d < p.ndims
    ensures v == CenterVector(p, center)[d]
  {
    RowEnd(p.ndims, center, NUM_PQ_CENTROIDS);
    p.tables[center * p.ndims + d] + p.centroid[d]
  }

  function ChunkEnd(p: PqPivots, chunk: nat): (e: nat)
    requires p.Valid() && chunk < p.NumChunks()
    ensures p.chunkOffsets[chunk] <= e <= p.ndims
  {
    if p.chunkOffsets[chunk + 1] < p.chunkOffsets[chunk] then p.chunkOffsets[chunk] else p.chunkOffsets[chunk + 1]
  }

  /** The layout checks under which the table is built. */
  predicate SameLayout(base: PqPivots, residual: PqPivots) {
    base.ndims == residual.ndims && base.chunkOffsets == residual.chunkOffsets
  }

  function CrossTerm(base: PqPivots, residual: PqPivots, chunk: nat, b: Code, r: Code): real
    requires base.Valid() && residual.Valid() && SameLayout(base, residual) && chunk < base.NumChunks()
  {
    2.0 * DotRange(CenterVector(base, b), CenterVector(residual, r), base.chunkOffsets[chunk], ChunkEnd(base, chunk))
  }

  /** Cell i of the flat table: chunk-major, then base center, then residual center. */
  function CrossCell(base: PqPivots, residual: PqPivots, i: nat): real
    requires base.Valid() && residual.Valid() && SameLayout(base, residual) && i < base.NumChunks() * 65536
  {
    CrossTerm(base, residual, i / 65536, i / 256 % 256, i % 256)
  }

  function Index(chunk: nat, b: Code, r: Code): nat { (chunk * 256 + b) * 256 + r }

  lemma CrossCellAt(base: PqPivots, residual: PqPivots, chunk: nat, b: Code, r: Code)
    requires base.Valid() && residual.Valid() && SameLayout(base, residual) && chunk < base.NumChunks()
    ensures Index(chunk, b, r) < base.NumChunks() * 65536
    ensures CrossCell(base, residual, Index(chunk, b, r)) == CrossTerm(base, residual, chunk, b, r)
  {
    IndexParts(chunk, b, r);
  }

  lemma IndexParts(chunk: nat, b: Code, r: Code)
    ensures Index(chunk, b, r) / 65536 == chunk && Index(chunk, b, r) / 256 % 256 == b && Index(chunk, b, r) % 256 == r
  {
    DivModUnique(chunk * 256 + b, 256, r);
    DivModUnique(chunk, 256, b);
    DivModUnique(chunk, 65536, b * 256 + r);
  }

  method ChunkDot(base: PqPivots, residual: PqPivots, chunk: nat, b: Code, r: Code) returns (dot: real)
    requires base.Valid() && residual.Valid() && SameLayout(base, residual) && chunk < base.NumChunks()
    ensures 2.0 * dot == CrossTerm(base, residual, chunk, b, r)
  {
    dot := 0.0;
    var dim := base.chunkOffsets[chunk];
    while dim < base.chunkOffsets[chunk + 1]
      invariant base.chunkOffsets[chunk] <= dim <= ChunkEnd(base, chunk)
      invariant dot == DotRange(CenterVector(base, b), CenterVector(residual, r), base.chunkOffsets[chunk], dim)
    {
      dot := AddProduct(base, residual, b, r, base.chunkOffsets[chunk], dim, dot);
      dim := dim + 1;
    }
  }

  /** One dimension's contribution to the dot product of two centers. */
  function AddProduct(base: PqPivots, residual: PqPivots, b: Code, r: Code, lo: nat, dim: nat, dot: real): (sum: real)
    requires base.Valid() && residual.Valid() && SameLayout(base, residual) && lo <= dim < base.ndims
    ensures dot == DotRange(CenterVector(base, b), CenterVector(residual, r), lo, dim) ==>
      sum == DotRange(CenterVector(base, b), CenterVector(residual, r), lo, dim + 1)
  {
    var baseValue, residualValue := StoredCenter(base, b, dim), StoredCenter(residual, r, dim);
    dot + baseValue * residualValue
  }

  /** BuildPq2CrossTerms: rejects differing layouts, otherwise fills the flat table so that
      entry (chunk, b, r) is twice the inner product of the two centers on that chunk. */
  method BuildPq2CrossTerms(base: PqPivots, residual: PqPivots) returns (table: Result<seq<real>>)
    requires base.Valid() && residual.Valid()
    ensures table.Ok? <==> SameLayout(base, residual)
    ensures table.Ok? ==> IsCrossTable(base, residual, table.value)
  {
    if base.ndims != residual.ndims || base.chunkOffsets != residual.chunkOffsets {
      return Err;
    }
    var chunks := base.NumChunks();
    var cross := new real[chunks * 65536](_ => 0.0);
    for chunk := 0 to chunks
      invariant forall i :: 0 <= i < chunk * 65536 ==> cross[i] == CrossCell(base, residual, i)
    {
      for b := 0 to 256
        invariant forall i :: 0 <= i < chunk * 65536 + b * 256 ==> cross[i] == CrossCell(base, residual, i)
      {
        for r := 0 to 256
          invariant forall i :: 0 <= i < chunk * 65536 + b * 256 + r ==> cross[i] == CrossCell(base, residual, i)
        {
          var dot := ChunkDot(base, residual, chunk, b, r);
          CrossCellAt(base, residual, chunk, b, r);
          cross[chunk * 65536 + (b * 256 + r)] := 2.0 * dot;
        }
      }
    }
    forall chunk: nat, b: Code, r: Code | chunk < chunks
      ensures Index(chunk, b, r) < chunks * 65536
      ensures cross[Index(chunk, b, r)] == CrossTerm(base, residual, chunk, b, r)
    {
      CrossCellAt(base, residual, chunk, b, r);
    }
    return Ok(cross[..]);
  }

  ghost predicate IsCrossTable(base: PqPivots, residual: PqPivots, table: seq<real>)
    requires base.Valid() && residual.Valid() && SameLayout(base, residual)
  {
    && |table| == base.NumChunks() * 65536
    && forall chunk: nat, b: Code, r: Code :: chunk < base.NumChunks() ==>
         Index(chunk, b, r) < |table| && table[Index(chunk, b, r)] == CrossTerm(base, residual, chunk, b, r)
  }

  // ---------------------------------------------------------------- the refined distance

  /** Query shifted by the centroid, as the table kernel stores it. */
  function Shifted(p: PqPivots, query: Vec): (v: Vec)
    requires p.Valid() && |query| == p.ndims
    ensures |v| == p.ndims
  {
    Sub(query, p.centroid)
  }

  function TableRow(p: PqPivots, center: Code): (v: Vec)
    requires p.Valid()
    ensures |v| == p.ndims
  {
    RowOf(p.tables, p.ndims, NUM_PQ_CENTROIDS, center)
  }

  /** One entry of the query's distance table. */
  function TableEntry(p: PqPivots, query: Vec, chunk: nat, center: Code): real
    requires p.Valid() && |query| == p.ndims && chunk < p.NumChunks()
  {
    var diff := Sub(TableRow(p, center), Shifted(p, query));
    DotRange(diff, diff, p.chunkOffsets[chunk], ChunkEnd(p, chunk))
  }

  /** Base-PQ distance that graph traversal attaches to a candidate. */
  function BaseDistance(p: PqPivots, query: Vec, code: seq<Code>, chunks: nat): real
    requires p.Valid() && |query| == p.ndims && |code| == p.NumChunks() && chunks <= |code|
  {
    if chunks == 0 then 0.0
    else BaseDistance(p, query, code, chunks - 1) + TableEntry(p, query, chunks - 1, code[chunks - 1])
  }

  /** What the refine kernel adds: residual table entry plus cross term, chunk by chunk. */
  function RefineTerm(residual: PqPivots, query: Vec, table: seq<real>, baseCode: seq<Code>, residualCode: seq<Code>, chunks: nat): real
    requires residual.Valid() && |query| == residual.ndims && |table| == residual.NumChunks() * 65536
    requires |baseCode| == |residualCode| == residual.NumChunks() && chunks <= |baseCode|
  {
    if chunks == 0 then 0.0
    else
      RefineTerm(residual, query, table, baseCode, residualCode, chunks - 1)
      + TableEntry(residual, query, chunks - 1, residualCode[chunks - 1])
      + (assert Index(chunks - 1, baseCode[chunks - 1], residualCode[chunks - 1]) < |table|;
         table[Index(chunks - 1, baseCode[chunks - 1], residualCode[chunks - 1])])
  }

  /** Distance of a refined candidate, query norm still included. */
  function RefinedDistance(base: PqPivots, residual: PqPivots, table: seq<real>, query: Vec,
                           baseCode: seq<Code>, residualCode: seq<Code>): real
    requires base.Valid() && residual.Valid() && SameLayout(base, residual)
    requires |query| == base.ndims && |table| == base.NumChunks() * 65536
    requires |baseCode| == |residualCode| == base.NumChunks()
  {
    BaseDistance(base, query, baseCode, |baseCode|)
    + RefineTerm(residual, query, table, baseCode, residualCode, |baseCode|)
  }

  /** ||q-b||^2 + ||q-r||^2 + 2 b.r == ||q||^2 + ||q-(b+r)||^2, on a range of dimensions. */
  lemma {:induction false} PolarizeRange(q: Vec, b: Vec, r: Vec, db: Vec, dr: Vec, e: Vec, lo: nat, hi: nat)
    requires |q| == |b| == |r| == |db| == |dr| == |e| && lo <= hi <= |q|
    requires forall i :: lo <= i < hi ==> db[i] == b[i] - q[i] && dr[i] == r[i] - q[i] && e[i] == q[i] - (b[i] + r[i])
    ensures DotRange(db, db, lo, hi) + DotRange(dr, dr, lo, hi) + 2.0 * DotRange(b, r, lo, hi)
         == DotRange(q, q, lo, hi) + DotRange(e, e, lo, hi)
    decreases hi
  {
    if lo < hi {
      PolarizeRange(q, b, r, db, dr, e, lo, hi - 1);
      var i := hi - 1;
      Polarize(q[i], b[i], r[i], db[i], dr[i], e[i], db[i] * db[i], dr[i] * dr[i], b[i] * r[i], q[i] * q[i], e[i] * e[i]);
    }
  }

  lemma Polarize(q: real, b: real, r: real, db: real, dr: real, e: real, dbdb: real, drdr: real, br: real, qq: real, ee: real)
    requires db == b - q && dr == r - q && e == q - (b + r)
    requires dbdb == db * db && drdr == dr * dr && br == b * r && qq == q * q && ee == e * e
    ensures dbdb + drdr + 2.0 * br == qq + ee
  {
  }

  lemma TableDiffAt(p: PqPivots, query: Vec, center: Code, d: nat)
    requires p.Valid() && |query| == p.ndims && d < p.ndims
    ensures Sub(TableRow(p, center), Shifted(p, query))[d] == CenterValue(p, center, d) - query[d]
  {
    RowEnd(p.ndims, center, NUM_PQ_CENTROIDS);
  }

  lemma ChunkIdentity(base: PqPivots, residual: PqPivots, query: Vec, baseCode: seq<Code>, residualCode: seq<Code>, chunk: nat)
    requires base.Valid() && residual.Valid() && SameLayout(base, residual) && base.Tiles()
    requires |query| == base.ndims && |baseCode| == |residualCode| == base.NumChunks() && chunk < base.NumChunks()
    ensures var e := Sub(query, FullReconstruction(base, residual, baseCode, residualCode));
      var lo, hi := base.chunkOffsets[chunk], base.chunkOffsets[chunk + 1];
      TableEntry(base, query, chunk, baseCode[chunk]) + TableEntry(residual, query, chunk, residualCode[chunk])
      + CrossTerm(base, residual, chunk, baseCode[chunk], residualCode[chunk])
      == DotRange(query, query, lo, hi) + DotRange(e, e, lo, hi)
  {
    var lo, hi := base.chunkOffsets[chunk], base.chunkOffsets[chunk + 1];
    var bc, rc := baseCode[chunk], residualCode[chunk];
    var b, r := CenterVector(base, bc), CenterVector(residual, rc);
    var db, dr := Sub(TableRow(base, bc), Shifted(base, query)), Sub(TableRow(residual, rc), Shifted(residual, query));
    var e := Sub(query, FullReconstruction(base, residual, baseCode, residualCode));
    forall i | lo <= i < hi
      ensures db[i] == b[i] - query[i] && dr[i] == r[i] - query[i] && e[i] == query[i] - (b[i] + r[i])
    {
      TableDiffAt(base, query, bc, i);
      TableDiffAt(residual, query, rc, i);
      ReconstructInChunk(base, baseCode, |baseCode|, chunk, i);
      ReconstructInChunk(residual, residualCode, |residualCode|, chunk, i);
    }
    PolarizeRange(query, b, r, db, dr, e, lo, hi);
  }

  lemma {:induction false} PrefixIdentity(base: PqPivots, residual: PqPivots, table: seq<real>, query: Vec,
                                          baseCode: seq<Code>, residualCode: seq<Code>, chunks: nat)
    requires base.Valid() && residual.Valid() && SameLayout(base, residual) && base.Tiles()
    requires IsCrossTable(base, residual, table)
    requires |query| == base.ndims && |baseCode| == |residualCode| == base.NumChunks() && chunks <= base.NumChunks()
    ensures var e := Sub(query, FullReconstruction(base, residual, baseCode, residualCode));
      BaseDistance(base, query, baseCode, chunks) + RefineTerm(residual, query, table, baseCode, residualCode, chunks)
      == DotRange(query, query, 0, base.chunkOffsets[chunks]) + DotRange(e, e, 0, base.chunkOffsets[chunks])
    decreases chunks
  {
    if chunks > 0 {
      var e := Sub(query, FullReconstruction(base, residual, baseCode, residualCode));
      var mid, hi := base.chunkOffsets[chunks - 1], base.chunkOffsets[chunks];
      PrefixIdentity(base, residual, table, query, baseCode, residualCode, chunks - 1);
      ChunkIdentity(base, residual, query, baseCode, residualCode, chunks - 1);
      DotRangeSplit(query, query, 0, mid, hi);
      DotRangeSplit(e, e, 0, mid, hi);
    }
  }

  /** Summing base table, residual table and cross terms over any chunk partition gives the
      squared query norm plus the squared distance to the summed reconstruction. */
  lemma RefinedDistanceIdentity(base: PqPivots, residual: PqPivots, table: seq<real>, query: Vec,
                                baseCode: seq<Code>, residualCode: seq<Code>)
    requires base.Valid() && residual.Valid() && SameLayout(base, residual) && base.Tiles()
    requires IsCrossTable(base, residual, table)
    requires |query| == base.ndims && |baseCode| == |residualCode| == base.NumChunks()
    ensures RefinedDistance(base, residual, table, query, baseCode, residualCode)
         == NormSq(query) + SqDist(query, FullReconstruction(base, residual, baseCode, residualCode))
  {
    PrefixIdentity(base, residual, table, query, baseCode, residualCode, base.NumChunks());
  }
}
