/** PQ pivots, reconstruction, and one block of the residual-PQ builder: the per-row
    error stored on disk is the L2 norm of what base PQ plus residual PQ leave over. */
module ProductQuantizer {
  import opened Arithmetic
  import opened VectorMath
  import opened Wrappers

  const NUM_PQ_CENTROIDS: nat := 256

  type Code = c: nat | c < 256

  /** tables is row-major: one row of ndims values per center. */
  datatype PqPivots = PqPivots(ndims: nat, tables: seq<real>, chunkOffsets: seq<nat>, centroid: seq<real>) {
    ghost predicate Valid() {
      && |tables| == NUM_PQ_CENTROIDS * ndims
      && |centroid| == ndims
      && |chunkOffsets| >= 2
      && forall i :: 0 <= i < |chunkOffsets| ==> chunkOffsets[i] <= ndims
    }

    function NumChunks(): nat
      requires |chunkOffsets| >= 2
    {
      |chunkOffsets| - 1
    }

    /** The chunks partition the dimensions. */
    ghost predicate Tiles()
      requires Valid()
    {
      && chunkOffsets[0] == 0
      && chunkOffsets[NumChunks()] == ndims
      && forall c :: 0 <= c < NumChunks() ==> chunkOffsets[c] <= chunkOffsets[c + 1]
    }
  }

  lemma RowEnd(n: nat, row: nat, rows: nat)
    requires row < rows
    ensures row * n + n == (row + 1) * n <= rows * n
  {
  }

  function RowOf<T>(flat: seq<T>, n: nat, rows: nat, row: nat): (r: seq<T>)
    requires row < rows && |flat| == rows * n
    ensures |r| == n
  {
    RowEnd(n, row, rows);
    flat[row * n..row * n + n]
  }

  /** Value of one center in one dimension, as every consumer of the tables computes it. */
  function CenterValue(p: PqPivots, center: Code, d: nat): real
    requires p.Valid() && d < p.ndims
  {
    RowEnd(p.ndims, center, NUM_PQ_CENTROIDS);
    p.centroid[d] + p.tables[center * p.ndims + d]
  }

  /** Dimension d after the first `chunks` chunks were written over a zeroed row. */
  function ReconstructAt(p: PqPivots, code: seq<Code>, chunks: nat, d: nat): real
    requires p.Valid() && |code| == p.NumChunks() && chunks <= |code| && d < p.ndims
  {
    if chunks == 0 then 0.0
    else if p.chunkOffsets[chunks - 1] <= d < p.chunkOffsets[chunks] then CenterValue(p, code[chunks - 1], d)
    else ReconstructAt(p, code, chunks - 1, d)
  }

  function Reconstruct(p: PqPivots, code: seq<Code>): (v: Vec)
    requires p.Valid() && |code| == p.NumChunks()
    ensures |v| == p.ndims
  {
    seq(p.ndims, d requires 0 <= d < p.ndims => ReconstructAt(p, code, |code|, d))
  }

  lemma {:induction false} OffsetsMonotone(p: PqPivots, i: nat, j: nat)
    requires p.Valid() && p.Tiles() && i <= j <= p.NumChunks()
    ensures p.chunkOffsets[i] <= p.chunkOffsets[j]
    decreases j
  {
    if i < j {
      OffsetsMonotone(p, i, j - 1);
    }
  }

  /** When the chunks tile the dimensions, a chunk's dimensions hold that chunk's center. */
  lemma {:induction false} ReconstructInChunk(p: PqPivots, code: seq<Code>, chunks: nat, chunk: nat, d: nat)
    requires p.Valid() && p.Tiles() && |code| == p.NumChunks()
    requires chunk < chunks <= |code| && p.chunkOffsets[chunk] <= d < p.chunkOffsets[chunk + 1]
    ensures d < p.ndims && ReconstructAt(p, code, chunks, d) == CenterValue(p, code[chunk], d)
    decreases chunks
  {
    if chunk < chunks - 1 {
      OffsetsMonotone(p, chunk + 1, chunks - 1);
      ReconstructInChunk(p, code, chunks - 1, chunk, d);
    }
  }

  // ---------------------------------------------------------------- ReconstructVectors

  function ReconstructRows(p: PqPivots, codes: seq<Code>, rows: nat, upTo: nat): (flat: seq<real>)
    requires p.Valid() && |codes| == rows * p.NumChunks() && upTo <= rows
    ensures |flat| == upTo * p.ndims
  {
    if upTo == 0 then []
    else
      RowEnd(p.ndims, upTo - 1, upTo);
      ReconstructRows(p, codes, rows, upTo - 1) + Reconstruct(p, RowOf(codes, p.NumChunks(), rows, upTo - 1))
  }

  lemma {:induction false} ReconstructRowsRow(p: PqPivots, codes: seq<Code>, rows: nat, upTo: nat, row: nat)
    requires p.Valid() && |codes| == rows * p.NumChunks() && row < upTo <= rows
    ensures RowOf(ReconstructRows(p, codes, rows, upTo), p.ndims, upTo, row)
         == Reconstruct(p, RowOf(codes, p.NumChunks(), rows, row))
    decreases upTo
  {
    var n := p.ndims;
    RowEnd(n, upTo - 1, upTo);
    RowEnd(n, row, upTo);
    if row < upTo - 1 {
      ReconstructRowsRow(p, codes, rows, upTo - 1, row);
      RowEnd(n, row, upTo - 1);
      var head := ReconstructRows(p, codes, rows, upTo - 1);
      assert ReconstructRows(p, codes, rows, upTo)[..|head|] == head;
      assert RowOf(ReconstructRows(p, codes, rows, upTo), n, upTo, row) == RowOf(head, n, upTo - 1, row);
    }
  }

  method ReconstructRow(p: PqPivots, code: seq<Code>, out: array<real>, dst: nat)
    requires p.Valid() && |code| == p.NumChunks() && dst + p.ndims <= out.Length
    requires forall i :: dst <= i < dst + p.ndims ==> out[i] == 0.0
    modifies out
    ensures out[dst..dst + p.ndims] == Reconstruct(p, code)
    ensures out[..dst] == old(out[..dst]) && out[dst + p.ndims..] == old(out[dst + p.ndims..])
  {
    for chunk := 0 to |code|
      invariant forall i :: dst <= i < dst + p.ndims ==> out[i] == ReconstructAt(p, code, chunk, i - dst)
      invariant forall i :: 0 <= i < dst || dst + p.ndims <= i < out.Length ==> out[i] == old(out[i])
    {
      WriteCenter(p, code[chunk], p.chunkOffsets[chunk], p.chunkOffsets[chunk + 1], out, dst);
    }
  }

  /** One chunk's center over the row that starts at dst. */
  method WriteCenter(p: PqPivots, center: Code, begin: nat, end: nat, out: array<real>, dst: nat)
    requires p.Valid() && begin <= p.ndims && end <= p.ndims && dst + p.ndims <= out.Length
    modifies out
    ensures forall i :: 0 <= i < out.Length ==>
      out[i] == if dst + begin <= i < dst + end then CenterValue(p, center, i - dst) else old(out[i])
  {
    var dim := begin;
    while dim < end
      invariant begin <= dim && (dim <= end || dim == begin)
      invariant forall i :: 0 <= i < out.Length ==>
        out[i] == if dst + begin <= i < dst + dim then CenterValue(p, center, i - dst) else old(out[i])
    {
      RowEnd(p.ndims, center, NUM_PQ_CENTROIDS);
      out[dst + dim] := p.centroid[dim] + p.tables[center * p.ndims + dim];
      dim := dim + 1;
    }
  }

  method ReconstructVectors(p: PqPivots, codes: seq<Code>, rowCount: nat) returns (out: array<real>)
    requires p.Valid() && |codes| == rowCount * p.NumChunks()
    ensures fresh(out) && out[..] == ReconstructRows(p, codes, rowCount, rowCount)
  {
    var n := p.ndims;
    out := new real[Product(rowCount, n)](_ => 0.0);
    TimesIsProduct(rowCount, n);
    var dst: nat := 0;
    for row := 0 to rowCount
      invariant dst == Times(row, n) && out.Length == Times(rowCount, n) && dst <= out.Length
      invariant out[..dst] == ReconstructRows(p, codes, rowCount, row)
      invariant forall i :: dst <= i < out.Length ==> out[i] == 0.0
    {
      TimesMonotone(row + 1, rowCount, n);
      ReconstructNextRow(p, codes, rowCount, row, out, dst);
      dst := dst + n;
    }
    assert out[..] == out[..dst];
  }

  method ReconstructNextRow(p: PqPivots, codes: seq<Code>, rowCount: nat, row: nat, out: array<real>, dst: nat)
    requires p.Valid() && |codes| == rowCount * p.NumChunks() && row < rowCount
    requires dst + p.ndims <= out.Length
    requires out[..dst] == ReconstructRows(p, codes, rowCount, row)
    requires forall i :: dst <= i < out.Length ==> out[i] == 0.0
    modifies out
    ensures out[..dst + p.ndims] == ReconstructRows(p, codes, rowCount, row + 1)
    ensures forall i :: dst + p.ndims <= i < out.Length ==> out[i] == 0.0
  {
    var code := RowOf(codes, p.NumChunks(), rowCount, row);
    ghost var rest := out[dst + p.ndims..];
    ReconstructRow(p, code, out, dst);
    assert out[..dst + p.ndims] == out[..dst] + out[dst..dst + p.ndims];
    forall i | dst + p.ndims <= i < out.Length ensures out[i] == 0.0 {
      assert out[i] == out[dst + p.ndims..][i - dst - p.ndims];
    }
  }

  // ---------------------------------------------------------------- residuals and errors

  method ComputeResiduals(base: seq<real>, reconstructed: seq<real>) returns (r: Result<seq<real>>)
    ensures |base| != |reconstructed| ==> r.Err?
    ensures |base| == |reconstructed| ==> r == Ok(Sub(base, reconstructed))
  {
    if |base| != |reconstructed| {
      return Err;
    }
    var residuals := new real[|base|](_ => 0.0);
    for i := 0 to |base|
      invariant residuals[..i] == Sub(base, reconstructed)[..i]
    {
      residuals[i] := base[i] - reconstructed[i];
      assert residuals[..i + 1] == residuals[..i] + [residuals[i]];
    }
    assert residuals[..] == residuals[..|base|];
    assert residuals[..] == Sub(base, reconstructed);
    return Ok(residuals[..]);
  }

  /** The builder's per-row error loop. */
  method RowErrors(residuals: seq<real>, recon: seq<real>, rows: nat, n: nat, sqrt: real -> real)
    returns (errors: seq<real>)
    requires |residuals| == |recon| == rows * n
    ensures |errors| == rows
    ensures forall r :: 0 <= r < rows ==>
      errors[r] == sqrt(SqDist(RowOf(residuals, n, rows, r), RowOf(recon, n, rows, r)))
  {
    errors := [];
    for row := 0 to rows
      invariant |errors| == row
      invariant forall r :: 0 <= r < row ==>
        errors[r] == sqrt(SqDist(RowOf(residuals, n, rows, r), RowOf(recon, n, rows, r)))
    {
      RowEnd(n, row, rows);
      ghost var diffs := Sub(RowOf(residuals, n, rows, row), RowOf(recon, n, rows, row));
      var accum := 0.0;
      for dim := 0 to n
        invariant accum == DotRange(diffs, diffs, 0, dim)
      {
        var diff := residuals[row * n + dim] - recon[row * n + dim];
        assert diff == diffs[dim];
        accum := accum + diff * diff;
      }
      errors := errors + [sqrt(accum)];
    }
  }

  /** Rows encoded one after another; encode stands for the PQ encoder, which picks a
      code per chunk from the residual row alone. */
  function EncodeRows(encode: Vec -> seq<Code>, residuals: seq<real>, n: nat, rows: nat, chunks: nat, upTo: nat)
    : (flat: seq<Code>)
    requires |residuals| == rows * n && upTo <= rows && forall v :: |encode(v)| == chunks
    ensures |flat| == upTo * chunks
  {
    if upTo == 0 then []
    else
      RowEnd(chunks, upTo - 1, upTo);
      EncodeRows(encode, residuals, n, rows, chunks, upTo - 1) + encode(RowOf(residuals, n, rows, upTo - 1))
  }

  lemma SubRows(a: seq<real>, b: seq<real>, n: nat, rows: nat, row: nat)
    requires |a| == |b| == rows * n && row < rows
    ensures RowOf(Sub(a, b), n, rows, row) == Sub(RowOf(a, n, rows, row), RowOf(b, n, rows, row))
  {
    RowEnd(n, row, rows);
  }

  lemma SubSub(x: Vec, b: Vec, r: Vec)
    requires |x| == |b| == |r|
    ensures Sub(Sub(x, b), r) == Sub(x, Add(b, r))
  {
  }

  /** What a search can reconstruct of a row from its two codes. */
  function FullReconstruction(basePq: PqPivots, residualPq: PqPivots, baseCode: seq<Code>, residualCode: seq<Code>): (v: Vec)
    requires basePq.Valid() && residualPq.Valid() && basePq.ndims == residualPq.ndims
    requires |baseCode| == basePq.NumChunks() && |residualCode| == residualPq.NumChunks()
    ensures |v| == basePq.ndims
  {
    Add(Reconstruct(basePq, baseCode), Reconstruct(residualPq, residualCode))
  }

  /** One iteration of the builder's block loop: whatever codes the encoder picks, each
      stored error is the distance between the vector and its full reconstruction. */
  method BuildResidualBlock(basePq: PqPivots, residualPq: PqPivots, vectors: seq<real>, baseCodes: seq<Code>,
                            rows: nat, encode: Vec -> seq<Code>, sqrt: real -> real)
    returns (codes: seq<Code>, errors: seq<real>)
    requires basePq.Valid() && residualPq.Valid() && basePq.ndims == residualPq.ndims
    requires forall v :: |encode(v)| == residualPq.NumChunks()
    requires |vectors| == rows * basePq.ndims && |baseCodes| == rows * basePq.NumChunks()
    ensures |codes| == rows * residualPq.NumChunks() && |errors| == rows
    ensures forall r :: 0 <= r < rows ==>
      RowOf(codes, residualPq.NumChunks(), rows, r)
      == encode(Sub(RowOf(vectors, basePq.ndims, rows, r), Reconstruct(basePq, RowOf(baseCodes, basePq.NumChunks(), rows, r))))
    ensures forall r :: 0 <= r < rows ==>
      errors[r] == sqrt(SqDist(RowOf(vectors, basePq.ndims, rows, r),
                               FullReconstruction(basePq, residualPq,
                                                  RowOf(baseCodes, basePq.NumChunks(), rows, r),
                                                  RowOf(codes, residualPq.NumChunks(), rows, r))))
  {
    var n, chunks := basePq.ndims, residualPq.NumChunks();
    var baseRecon := ReconstructVectors(basePq, baseCodes, rows);
    ghost var baseRows := baseRecon[..];
    var residualsOrErr := ComputeResiduals(vectors, baseRecon[..]);
    var residuals := residualsOrErr.value;
    codes := EncodeRows(encode, residuals, n, rows, chunks, rows);
    var residualRecon := ReconstructVectors(residualPq, codes, rows);
    errors := RowErrors(residuals, residualRecon[..], rows, n, sqrt);
    forall r | 0 <= r < rows
      ensures RowOf(codes, chunks, rows, r)
        == encode(Sub(RowOf(vectors, n, rows, r), Reconstruct(basePq, RowOf(baseCodes, basePq.NumChunks(), rows, r))))
      ensures errors[r] == sqrt(SqDist(RowOf(vectors, n, rows, r),
                               FullReconstruction(basePq, residualPq, RowOf(baseCodes, basePq.NumChunks(), rows, r),
                                                  RowOf(codes, chunks, rows, r))))
    {
      var x := RowOf(vectors, n, rows, r);
      ReconstructRowsRow(basePq, baseCodes, rows, rows, r);
      ReconstructRowsRow(residualPq, codes, rows, rows, r);
      SubRows(vectors, baseRows, n, rows, r);
      EncodeRowsRow(encode, residuals, n, rows, chunks, rows, r);
      SubSub(x, Reconstruct(basePq, RowOf(baseCodes, basePq.NumChunks(), rows, r)),
             Reconstruct(residualPq, RowOf(codes, chunks, rows, r)));
    }
  }

  lemma {:induction false} EncodeRowsRow(encode: Vec -> seq<Code>, residuals: seq<real>, n: nat, rows: nat, chunks: nat,
                                         upTo: nat, row: nat)
    requires |residuals| == rows * n && row < upTo <= rows && forall v :: |encode(v)| == chunks
    ensures RowOf(EncodeRows(encode, residuals, n, rows, chunks, upTo), chunks, upTo, row)
         == encode(RowOf(residuals, n, rows, row))
    decreases upTo
  {
    RowEnd(chunks, upTo - 1, upTo);
    RowEnd(chunks, row, upTo);
    if row < upTo - 1 {
      EncodeRowsRow(encode, residuals, n, rows, chunks, upTo - 1, row);
      RowEnd(chunks, row, upTo - 1);
      var head := EncodeRows(encode, residuals, n, rows, chunks, upTo - 1);
      assert RowOf(EncodeRows(encode, residuals, n, rows, chunks, upTo), chunks, upTo, row)
          == RowOf(head, chunks, upTo - 1, row);
    }
  }
}
