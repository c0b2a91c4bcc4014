/** The vector store file: one writer by pages, one by streaming, one reader by node id. */
module VectorStore {
  import opened Arithmetic
  import opened Bytes
  import opened PageLayout
  import opened Wrappers

  const VERSION: nat := 1
  const FLOAT32: nat := 2
  const HEADER_SIZE: nat := 4096

  const MAGIC: seq<Byte> := [84, 80, 86, 69, 67, 84, 79, 82] // "TPVECTOR"

  // ---------------------------------------------------------------- header

  function Header(layout: Layout, scalarKind: nat, dim: nat, numVectors: nat): (h: seq<Byte>)
    ensures |h| == HEADER_SIZE
  {
    MAGIC + U32(VERSION) + U32(scalarKind) + U32(dim) + U32(0) + U64(numVectors) + U64(layout.pageSizeBytes)
    + U64(layout.vectorBytes) + U64(layout.vectorsPerPage) + Zeros(4040)
  }

  datatype StoreHeader = StoreHeader(scalarKind: nat, dim: nat, numVectors: nat, pageSizeBytes: nat, vectorBytes: nat, vectorsPerPage: nat)

  /** Fails on a short file, another magic or another version. */
  function ReadHeader(file: seq<Byte>): Result<StoreHeader> {
    if |file| < HEADER_SIZE || file[..8] != MAGIC || FromLE(file[8..12]) != VERSION then Err
    else Ok(StoreHeader(FromLE(file[12..16]), FromLE(file[16..20]), FromLE(file[24..32]), FromLE(file[32..40]),
                        FromLE(file[40..48]), FromLE(file[48..56])))
  }

  lemma HeaderFields(layout: Layout, scalarKind: nat, dim: nat, numVectors: nat, body: seq<Byte>)
    ensures var file := Header(layout, scalarKind, dim, numVectors) + body;
      && file[..8] == MAGIC && file[8..12] == U32(VERSION) && file[12..16] == U32(scalarKind) && file[16..20] == U32(dim)
      && file[24..32] == U64(numVectors) && file[32..40] == U64(layout.pageSizeBytes)
      && file[40..48] == U64(layout.vectorBytes) && file[48..56] == U64(layout.vectorsPerPage)
  {
  }

  /** A written header is accepted, its count is read back, and so is every other field that fits its width. */
  lemma HeaderRoundTrip(layout: Layout, scalarKind: nat, dim: nat, numVectors: nat, body: seq<Byte>)
    requires numVectors < 0x1_0000_0000 * 0x1_0000_0000
    ensures var r := ReadHeader(Header(layout, scalarKind, dim, numVectors) + body);
      && r.Ok? && r.value.numVectors == numVectors
      && (scalarKind < 0x1_0000_0000 ==> r.value.scalarKind == scalarKind)
      && (dim < 0x1_0000_0000 ==> r.value.dim == dim)
      && (layout.pageSizeBytes < 0x1_0000_0000 * 0x1_0000_0000 ==> r.value.pageSizeBytes == layout.pageSizeBytes)
      && (layout.vectorBytes < 0x1_0000_0000 * 0x1_0000_0000 ==> r.value.vectorBytes == layout.vectorBytes)
      && (layout.vectorsPerPage < 0x1_0000_0000 * 0x1_0000_0000 ==> r.value.vectorsPerPage == layout.vectorsPerPage)
  {
    HeaderFields(layout, scalarKind, dim, numVectors, body);
    U32RoundTrip(VERSION);
    U64RoundTrip(numVectors);
    if scalarKind < 0x1_0000_0000 { U32RoundTrip(scalarKind); }
    if dim < 0x1_0000_0000 { U32RoundTrip(dim); }
    if layout.pageSizeBytes < 0x1_0000_0000 * 0x1_0000_0000 { U64RoundTrip(layout.pageSizeBytes); }
    if layout.vectorBytes < 0x1_0000_0000 * 0x1_0000_0000 { U64RoundTrip(layout.vectorBytes); }
    if layout.vectorsPerPage < 0x1_0000_0000 * 0x1_0000_0000 { U64RoundTrip(layout.vectorsPerPage); }
  }

  /** A header is accepted exactly if it starts with the magic and version that are written. */
  lemma HeaderAcceptedIff(file: seq<Byte>)
    ensures ReadHeader(file).Ok? <==> |file| >= HEADER_SIZE && file[..12] == MAGIC + U32(VERSION)
  {
    if |file| >= HEADER_SIZE {
      U32RoundTrip(VERSION);
      LEInverse(file[8..12]);
      assert file[..12] == file[..8] + file[8..12];
      if file[..12] == MAGIC + U32(VERSION) {
        assert file[..8] == file[..12][..8] && file[8..12] == file[..12][8..];
      }
    }
  }

  // ---------------------------------------------------------------- page contents

  function Flatten(slots: seq<seq<Byte>>): seq<Byte> {
    if slots == [] then [] else Flatten(slots[..|slots| - 1]) + slots[|slots| - 1]
  }

  ghost predicate AllSized(vectors: seq<seq<Byte>>, size: nat) {
    forall i :: 0 <= i < |vectors| ==> |vectors[i]| == size
  }

  lemma {:induction false} FlattenLength(slots: seq<seq<Byte>>, size: nat)
    requires AllSized(slots, size)
    ensures |Flatten(slots)| == Times(|slots|, size)
  {
    if slots != [] {
      FlattenLength(slots[..|slots| - 1], size);
    }
  }

  lemma {:induction false} FlattenSlot(slots: seq<seq<Byte>>, size: nat, i: nat, at: nat)
    requires AllSized(slots, size) && i < |slots| && at == Times(i, size)
    ensures at + size <= |Flatten(slots)| && Flatten(slots)[at..at + size] == slots[i]
  {
    var front, last := slots[..|slots| - 1], slots[|slots| - 1];
    FlattenLength(front, size);
    if i < |slots| - 1 {
      FlattenSlot(front, size, i, at);
      SliceLeft(Flatten(front), last, at, at + size);
    } else {
      SliceLast(Flatten(front), last, at, size);
    }
  }

  /** At most n vectors from position begin on. */
  function Span(vectors: seq<seq<Byte>>, begin: nat, n: nat): (span: seq<seq<Byte>>)
    ensures |span| <= n
  {
    vectors[Min(begin, |vectors|)..Min(begin + n, |vectors|)]
  }

  lemma SpanNext(vectors: seq<seq<Byte>>, begin: nat, n: nat)
    requires begin + n < |vectors|
    ensures |Span(vectors, begin, n)| == n && Span(vectors, begin, n + 1) == Span(vectors, begin, n) + [vectors[begin + n]]
  {
  }

  lemma SpanEnds(vectors: seq<seq<Byte>>, begin: nat, n: nat, m: nat)
    requires n <= m && (n == m || begin + n >= |vectors|)
    ensures Span(vectors, begin, m) == Span(vectors, begin, n)
  {
  }

  lemma SpanSized(vectors: seq<seq<Byte>>, begin: nat, n: nat, size: nat)
    requires AllSized(vectors, size)
    ensures AllSized(Span(vectors, begin, n), size)
  {
  }

  /** Vectors stored on page p. */
  function SlotsOf(layout: Layout, vectors: seq<seq<Byte>>, p: nat): (slots: seq<seq<Byte>>)
    ensures |slots| <= layout.vectorsPerPage
  {
    Span(vectors, Times(p, layout.vectorsPerPage), layout.vectorsPerPage)
  }

  /** Slots packed from the front of the page, zeros behind. */
  function PageWith(layout: Layout, slots: seq<seq<Byte>>): seq<Byte> {
    Flatten(slots) + Zeros(if |Flatten(slots)| <= layout.pageSizeBytes then layout.pageSizeBytes - |Flatten(slots)| else 0)
  }

  lemma PageWithLength(layout: Layout, slots: seq<seq<Byte>>)
    requires layout.Valid() && AllSized(slots, layout.vectorBytes) && |slots| <= layout.vectorsPerPage
    ensures |Flatten(slots)| == Times(|slots|, layout.vectorBytes) <= layout.pageSizeBytes
    ensures |PageWith(layout, slots)| == layout.pageSizeBytes
  {
    FlattenLength(slots, layout.vectorBytes);
    TimesMonotone(|slots|, layout.vectorsPerPage, layout.vectorBytes);
  }

  function PageList(layout: Layout, vectors: seq<seq<Byte>>, p: nat): (pages: seq<seq<Byte>>)
    ensures |pages| == p && forall i :: 0 <= i < p ==> pages[i] == PageWith(layout, SlotsOf(layout, vectors, i))
  {
    seq(p, i requires 0 <= i < p => PageWith(layout, SlotsOf(layout, vectors, i)))
  }

  /** The first p pages. */
  function Pages(layout: Layout, vectors: seq<seq<Byte>>, p: nat): seq<Byte> {
    Flatten(PageList(layout, vectors, p))
  }

  lemma PagesNext(layout: Layout, vectors: seq<seq<Byte>>, p: nat)
    ensures Pages(layout, vectors, p + 1) == Pages(layout, vectors, p) + PageWith(layout, SlotsOf(layout, vectors, p))
  {
    assert PageList(layout, vectors, p + 1)[..p] == PageList(layout, vectors, p);
  }

  /** The whole file both writers must produce. */
  function StoreFile(layout: Layout, scalarKind: nat, dim: nat, vectors: seq<seq<Byte>>): seq<Byte>
    requires layout.Valid()
  {
    Header(layout, scalarKind, dim, |vectors|) + Pages(layout, vectors, layout.PageCountForVectors(|vectors|))
  }

  lemma PageLength(layout: Layout, vectors: seq<seq<Byte>>, p: nat)
    requires layout.Valid() && AllSized(vectors, layout.vectorBytes)
    ensures |PageWith(layout, SlotsOf(layout, vectors, p))| == layout.pageSizeBytes
  {
    SpanSized(vectors, Times(p, layout.vectorsPerPage), layout.vectorsPerPage, layout.vectorBytes);
    PageWithLength(layout, SlotsOf(layout, vectors, p));
  }

  lemma PagesSized(layout: Layout, vectors: seq<seq<Byte>>, p: nat)
    requires layout.Valid() && AllSized(vectors, layout.vectorBytes)
    ensures AllSized(PageList(layout, vectors, p), layout.pageSizeBytes)
  {
    forall i: nat | i < p ensures |PageList(layout, vectors, p)[i]| == layout.pageSizeBytes {
      PageLength(layout, vectors, i);
    }
  }

  lemma PagesLength(layout: Layout, vectors: seq<seq<Byte>>, p: nat)
    requires layout.Valid() && AllSized(vectors, layout.vectorBytes)
    ensures |Pages(layout, vectors, p)| == Times(p, layout.pageSizeBytes)
  {
    PagesSized(layout, vectors, p);
    FlattenLength(PageList(layout, vectors, p), layout.pageSizeBytes);
  }

  lemma PageAt(layout: Layout, vectors: seq<seq<Byte>>, p: nat, i: nat, at: nat)
    requires layout.Valid() && AllSized(vectors, layout.vectorBytes) && i < p && at == Times(i, layout.pageSizeBytes)
    ensures at + layout.pageSizeBytes <= |Pages(layout, vectors, p)|
    ensures Pages(layout, vectors, p)[at..at + layout.pageSizeBytes] == PageWith(layout, SlotsOf(layout, vectors, i))
  {
    PagesSized(layout, vectors, p);
    FlattenSlot(PageList(layout, vectors, p), layout.pageSizeBytes, i, at);
  }

  // ---------------------------------------------------------------- the page-by-page writer

  method CopyInto(page: array<Byte>, offset: nat, src: seq<Byte>)
    requires offset + |src| <= page.Length
    modifies page
    ensures page[..] == Put(old(page[..]), offset, src)
  {
    for i := 0 to |src|
      invariant forall j :: 0 <= j < page.Length ==> page[j] == if offset <= j < offset + i then src[j - offset] else old(page[j])
    {
      page[offset + i] := src[i];
    }
  }

  method Clear(page: array<Byte>)
    modifies page
    ensures page[..] == Zeros(page.Length)
  {
    for i := 0 to page.Length
      invariant forall j :: 0 <= j < i ==> page[j] == 0
    {
      page[i] := 0;
    }
  }

  function Put(page: seq<Byte>, offset: nat, src: seq<Byte>): (r: seq<Byte>)
    requires offset + |src| <= |page|
    ensures |r| == |page|
  {
    page[..offset] + src + page[offset + |src|..]
  }

  /** Writing one more vector behind the packed slots of a zero-filled page. */
  lemma PutSlot(layout: Layout, page: seq<Byte>, slots: seq<seq<Byte>>, vector: seq<Byte>)
    requires layout.Valid() && AllSized(slots, layout.vectorBytes) && |vector| == layout.vectorBytes
    requires |slots| < layout.vectorsPerPage && page == PageWith(layout, slots)
    ensures |slots| * layout.vectorBytes + |vector| <= |page| == layout.pageSizeBytes
    ensures Put(page, |slots| * layout.vectorBytes, vector) == PageWith(layout, slots + [vector])
  {
    PageWithLength(layout, slots);
    PageWithLength(layout, slots + [vector]);
    SlotInPage(layout, |slots|);
    TimesIsProduct(|slots|, layout.vectorBytes);
    assert (slots + [vector])[..|slots|] == slots;
  }

  /** WriteFile: rejects vectors of the wrong width, otherwise writes header and pages. */
  method WriteFile(layout: Layout, scalarKind: nat, dim: nat, vectors: seq<seq<Byte>>) returns (r: Result<seq<Byte>>)
    requires layout.Valid()
    ensures r.Ok? <==> AllSized(vectors, layout.vectorBytes)
    ensures r.Ok? ==> r.value == StoreFile(layout, scalarKind, dim, vectors)
  {
    for i := 0 to |vectors|
      invariant AllSized(vectors[..i], layout.vectorBytes)
    {
      if |vectors[i]| != layout.vectorBytes {
        return Err;
      }
    }
    assert vectors[..|vectors|] == vectors;
    var header := Header(layout, scalarKind, dim, |vectors|);
    var out := WritePages(layout, header, vectors, layout.PageCountForVectors(|vectors|));
    return Ok(out);
  }

  method WritePages(layout: Layout, header: seq<Byte>, vectors: seq<seq<Byte>>, pageCount: nat) returns (out: seq<Byte>)
    requires layout.Valid() && AllSized(vectors, layout.vectorBytes)
    ensures out == header + Pages(layout, vectors, pageCount)
  {
    out := header;
    var page := new Byte[layout.pageSizeBytes](_ => 0);
    for pageId := 0 to pageCount
      invariant out == header + Pages(layout, vectors, pageId)
    {
      FillPage(layout, vectors, pageId, page);
      PagesNext(layout, vectors, pageId);
      Assoc(header, Pages(layout, vectors, pageId), page[..]);
      out := out + page[..];
    }
  }

  method PutVector(layout: Layout, page: array<Byte>, ghost slots: seq<seq<Byte>>, slot: nat, vector: seq<Byte>)
    requires layout.Valid() && AllSized(slots, layout.vectorBytes) && |vector| == layout.vectorBytes
    requires slot == |slots| < layout.vectorsPerPage && page[..] == PageWith(layout, slots)
    modifies page
    ensures page[..] == PageWith(layout, slots + [vector])
  {
    PutSlot(layout, page[..], slots, vector);
    CopyInto(page, slot * layout.vectorBytes, vector);
  }

  lemma EmptySpan(layout: Layout, vectors: seq<seq<Byte>>, begin: nat)
    ensures PageWith(layout, Span(vectors, begin, 0)) == Zeros(layout.pageSizeBytes)
  {
    assert Flatten(Span(vectors, begin, 0)) == [];
  }

  method FillPage(layout: Layout, vectors: seq<seq<Byte>>, pageId: nat, page: array<Byte>)
    requires layout.Valid() && AllSized(vectors, layout.vectorBytes) && page.Length == layout.pageSizeBytes
    modifies page
    ensures page[..] == PageWith(layout, SlotsOf(layout, vectors, pageId))
  {
    Clear(page);
    var begin := Product(pageId, layout.vectorsPerPage);
    TimesIsProduct(pageId, layout.vectorsPerPage);
    EmptySpan(layout, vectors, begin);
    var slot := 0;
    while slot < layout.vectorsPerPage
      invariant slot <= layout.vectorsPerPage && page[..] == PageWith(layout, Span(vectors, begin, slot))
    {
      var vectorId := begin + slot;
      if vectorId >= |vectors| {
        SpanEnds(vectors, begin, slot, layout.vectorsPerPage);
        break;
      }
      SpanNext(vectors, begin, slot);
      SpanSized(vectors, begin, slot, layout.vectorBytes);
      PutVector(layout, page, Span(vectors, begin, slot), slot, vectors[vectorId]);
      slot := slot + 1;
    }
  }

  // ---------------------------------------------------------------- the streaming packer

  /** A float bin file holds n vectors behind its 8-byte header. */
  predicate Holds(input: seq<Byte>, size: nat, n: nat) {
    8 + Times(n, size) <= |input|
  }

  lemma HoldsFewer(input: seq<Byte>, size: nat, n: nat, m: nat)
    requires Holds(input, size, n) && m <= n
    ensures Holds(input, size, m)
  {
    TimesMonotone(m, n, size);
  }

  function VectorAt(input: seq<Byte>, size: nat, i: nat): (v: seq<Byte>)
    requires Holds(input, size, i + 1)
    ensures |v| == size
  {
    input[8 + Times(i, size)..8 + Times(i, size) + size]
  }

  function VectorsOf(input: seq<Byte>, size: nat, n: nat): (vs: seq<seq<Byte>>)
    requires n == 0 || Holds(input, size, n)
    ensures |vs| == n && AllSized(vs, size)
  {
    if n == 0 then []
    else
      HoldsFewer(input, size, n, n - 1);
      VectorsOf(input, size, n - 1) + [VectorAt(input, size, n - 1)]
  }

  lemma {:induction false} VectorsOfAt(input: seq<Byte>, size: nat, n: nat, i: nat)
    requires Holds(input, size, n) && i < n
    ensures Holds(input, size, i + 1) && VectorsOf(input, size, n)[i] == VectorAt(input, size, i)
  {
    HoldsFewer(input, size, n, n - 1);
    HoldsFewer(input, size, n, i + 1);
    if i < n - 1 {
      VectorsOfAt(input, size, n - 1, i);
    }
  }

  /** These vectors, one after another, follow the input's header. */
  ghost predicate StoresVectors(input: seq<Byte>, size: nat, vectors: seq<seq<Byte>>) {
    AllSized(vectors, size) && 8 + |Flatten(vectors)| <= |input| && input[8..8 + |Flatten(vectors)|] == Flatten(vectors)
  }

  lemma StoredVectors(input: seq<Byte>, size: nat, vectors: seq<seq<Byte>>)
    requires StoresVectors(input, size, vectors)
    ensures Holds(input, size, |vectors|) && VectorsOf(input, size, |vectors|) == vectors
  {
    FlattenLength(vectors, size);
    forall i | 0 <= i < |vectors| ensures VectorsOf(input, size, |vectors|)[i] == vectors[i] {
      VectorsOfAt(input, size, |vectors|, i);
      FlattenSlot(vectors, size, i, Times(i, size));
      SliceOfSlice(input, 8, |Flatten(vectors)|, Times(i, size), size);
    }
  }

  /** What the streaming packer carries: the bytes written, and the page buffer with its fill. */
  datatype Packer = Packer(out: seq<Byte>, fill: nat, page: seq<Byte>) {
    ghost predicate Fits(layout: Layout) {
      layout.Valid() && |page| == layout.pageSizeBytes && fill < layout.vectorsPerPage
    }
  }

  /** One vector goes into the page buffer; a full buffer goes to the file and is cleared. */
  function Pack(layout: Layout, s: Packer, vector: seq<Byte>): (t: Packer)
    requires s.Fits(layout) && |vector| == layout.vectorBytes
    ensures t.Fits(layout)
  {
    SlotInPage(layout, s.fill);
    var page := Put(s.page, s.fill * layout.vectorBytes, vector);
    if s.fill + 1 == layout.vectorsPerPage then Packer(s.out + page, 0, Zeros(layout.pageSizeBytes))
    else Packer(s.out, s.fill + 1, page)
  }

  function PackAll(layout: Layout, s: Packer, vectors: seq<seq<Byte>>): (t: Packer)
    requires s.Fits(layout) && AllSized(vectors, layout.vectorBytes)
    ensures t.Fits(layout)
  {
    if vectors == [] then s
    else Pack(layout, PackAll(layout, s, vectors[..|vectors| - 1]), vectors[|vectors| - 1])
  }

  lemma {:induction false} PackAllConcat(layout: Layout, s: Packer, a: seq<seq<Byte>>, b: seq<seq<Byte>>)
    requires s.Fits(layout) && AllSized(a, layout.vectorBytes) && AllSized(b, layout.vectorBytes)
    ensures PackAll(layout, s, a + b) == PackAll(layout, PackAll(layout, s, a), b)
  {
    if b == [] {
      assert a + b == a;
    } else {
      assert (a + b)[..|a + b| - 1] == a + b[..|b| - 1];
      PackAllConcat(layout, s, a, b[..|b| - 1]);
    }
  }

  method PackNext(layout: Layout, page: array<Byte>, vector: seq<Byte>, fill: nat, written: seq<Byte>) returns (out: seq<Byte>, pageFill: nat)
    requires Packer(written, fill, page[..]).Fits(layout) && |vector| == layout.vectorBytes
    modifies page
    ensures Packer(out, pageFill, page[..]) == Pack(layout, Packer(written, fill, old(page[..])), vector)
  {
    SlotInPage(layout, fill);
    CopyInto(page, fill * layout.vectorBytes, vector);
    out, pageFill := written, fill + 1;
    if pageFill == layout.vectorsPerPage {
      out := out + page[..];
      Clear(page);
      pageFill := 0;
    }
  }

  /** The vectors of one chunk, in order, through the page buffer. */
  method PackChunk(layout: Layout, page: array<Byte>, chunk: seq<seq<Byte>>, fill: nat, written: seq<Byte>)
    returns (out: seq<Byte>, pageFill: nat)
    requires Packer(written, fill, page[..]).Fits(layout) && AllSized(chunk, layout.vectorBytes)
    modifies page
    ensures Packer(out, pageFill, page[..]) == PackAll(layout, Packer(written, fill, old(page[..])), chunk)
  {
    out, pageFill := written, fill;
    assert chunk[..0] == [];
    for i := 0 to |chunk|
      invariant Packer(out, pageFill, page[..]) == PackAll(layout, Packer(written, fill, old(page[..])), chunk[..i])
    {
      assert chunk[..i + 1][..i] == chunk[..i];
      out, pageFill := PackNext(layout, page, chunk[i], pageFill, out);
    }
    assert chunk[..|chunk|] == chunk;
  }

  /** ConvertVectors: streams numVectors vectors through one page buffer, chunk by chunk. It fails
      exactly when a vector does not fit a page or the input is too short; otherwise it emits,
      for every chunk size, the file that WriteFile emits for the same vectors. */
  method ConvertVectors(input: seq<Byte>, dim: nat, numVectors: nat, chunkVectors: nat) returns (r: Result<seq<Byte>>)
    requires chunkVectors >= 1
    ensures r.Ok? <==> 0 < 4 * dim <= DEFAULT_PAGE_SIZE_BYTES && (numVectors > 0 ==> Holds(input, 4 * dim, numVectors))
    ensures r.Ok? ==>
      r.value == StoreFile(CreateFromVectorBytes(4 * dim, DEFAULT_PAGE_SIZE_BYTES).value, FLOAT32, dim,
                           VectorsOf(input, 4 * dim, numVectors))
    ensures r.Ok? ==> forall vectors | |vectors| == numVectors && StoresVectors(input, 4 * dim, vectors) ::
      r.value == StoreFile(CreateFromVectorBytes(4 * dim, DEFAULT_PAGE_SIZE_BYTES).value, FLOAT32, dim, vectors)
  {
    forall vectors | |vectors| == numVectors && StoresVectors(input, 4 * dim, vectors)
      ensures Holds(input, 4 * dim, numVectors) && VectorsOf(input, 4 * dim, numVectors) == vectors
    {
      StoredVectors(input, 4 * dim, vectors);
    }
    var created := CreateFromVectorBytes(4 * dim, DEFAULT_PAGE_SIZE_BYTES);
    if created.Err? {
      return Err;
    }
    if numVectors == 0 || Holds(input, 4 * dim, numVectors) {
      PackedIsStoreFile(created.value, Header(created.value, FLOAT32, dim, numVectors), VectorsOf(input, 4 * dim, numVectors));
    }
    r := Stream(created.value, Header(created.value, FLOAT32, dim, numVectors), input, numVectors, chunkVectors);
  }

  method Stream(layout: Layout, header: seq<Byte>, input: seq<Byte>, numVectors: nat, chunkVectors: nat) returns (r: Result<seq<Byte>>)
    requires layout.Valid() && chunkVectors >= 1
    ensures r.Ok? <==> (numVectors > 0 ==> Holds(input, layout.vectorBytes, numVectors))
    ensures r.Ok? ==> r.value == Flushed(Streamed(layout, header, input, numVectors))
  {
    var out := header;
    var page := new Byte[layout.pageSizeBytes](_ => 0);
    var pageFill: nat := 0;
    var processed: nat := 0;
    assert page[..] == Zeros(layout.pageSizeBytes);
    while processed < numVectors
      invariant processed <= numVectors && (processed == 0 || Holds(input, layout.vectorBytes, processed))
      invariant Packer(out, pageFill, page[..]) == Streamed(layout, header, input, processed)
      decreases numVectors - processed
    {
      var current := Min(chunkVectors, numVectors - processed);
      if !Holds(input, layout.vectorBytes, processed + current) {
        TooShort(input, layout.vectorBytes, numVectors, processed + current);
        return Err;
      }
      out, pageFill := StreamChunk(layout, header, input, processed, current, page, pageFill, out);
      processed := processed + current;
    }
    if pageFill > 0 {
      out := out + page[..];
    }
    return Ok(out);
  }

  /** One bulk read and its way through the page buffer. */
  method StreamChunk(layout: Layout, ghost header: seq<Byte>, input: seq<Byte>, processed: nat, current: nat, page: array<Byte>, fill: nat, written: seq<Byte>)
    returns (out: seq<Byte>, pageFill: nat)
    requires layout.Valid() && (processed == 0 || Holds(input, layout.vectorBytes, processed))
    requires Holds(input, layout.vectorBytes, processed + current)
    requires Packer(written, fill, page[..]) == Streamed(layout, header, input, processed)
    modifies page
    ensures Packer(out, pageFill, page[..]) == Streamed(layout, header, input, processed + current)
  {
    var chunk := ChunkOf(input, layout.vectorBytes, processed, current);
    NextChunk(layout, header, input, processed, current);
    out, pageFill := PackChunk(layout, page, chunk, fill, written);
  }

  ghost function Flushed(s: Packer): seq<Byte> {
    if s.fill > 0 then s.out + s.page else s.out
  }

  ghost function Streamed(layout: Layout, header: seq<Byte>, input: seq<Byte>, n: nat): (s: Packer)
    requires layout.Valid() && (n == 0 || Holds(input, layout.vectorBytes, n))
    ensures s.Fits(layout)
  {
    PackAll(layout, Packer(header, 0, Zeros(layout.pageSizeBytes)), VectorsOf(input, layout.vectorBytes, n))
  }

  lemma NextChunk(layout: Layout, header: seq<Byte>, input: seq<Byte>, n: nat, current: nat)
    requires layout.Valid() && (n == 0 || Holds(input, layout.vectorBytes, n)) && Holds(input, layout.vectorBytes, n + current)
    ensures Streamed(layout, header, input, n + current)
         == PackAll(layout, Streamed(layout, header, input, n), ChunkOf(input, layout.vectorBytes, n, current))
  {
    PackAllConcat(layout, Packer(header, 0, Zeros(layout.pageSizeBytes)), VectorsOf(input, layout.vectorBytes, n),
                  ChunkOf(input, layout.vectorBytes, n, current));
  }

  lemma TooShort(input: seq<Byte>, size: nat, n: nat, m: nat)
    requires m <= n && !Holds(input, size, m)
    ensures !Holds(input, size, n)
  {
    TimesMonotone(m, n, size);
  }

  /** The packer's state after the vectors in done: whole pages written, the rest in the buffer. */
  ghost predicate Packed(layout: Layout, done: seq<seq<Byte>>, full: nat, header: seq<Byte>, s: Packer) {
    && Counted(|done|, full, layout.vectorsPerPage, s.fill)
    && s.out == header + Pages(layout, done, full)
    && s.page == PageWith(layout, Buffered(done, s.fill))
  }

  ghost predicate Counted(n: nat, full: nat, perPage: nat, fill: nat)
    ensures Counted(n, full, perPage, fill) ==> fill < perPage && fill <= n
  {
    n == Times(full, perPage) + fill && fill < perPage
  }

  lemma CountedNext(n: nat, full: nat, perPage: nat, fill: nat)
    requires Counted(n, full, perPage, fill)
    ensures fill + 1 < perPage ==> Counted(n + 1, full, perPage, fill + 1)
    ensures fill + 1 == perPage ==> Counted(n + 1, full + 1, perPage, 0)
  {
  }

  ghost function Buffered(done: seq<seq<Byte>>, fill: nat): seq<seq<Byte>> {
    if fill <= |done| then done[|done| - fill..] else []
  }

  lemma PagesPrefix(layout: Layout, vectors: seq<seq<Byte>>, more: seq<seq<Byte>>, p: nat)
    requires Times(p, layout.vectorsPerPage) <= |vectors|
    ensures Pages(layout, vectors + more, p) == Pages(layout, vectors, p)
  {
    var longer, shorter := PageList(layout, vectors + more, p), PageList(layout, vectors, p);
    forall i | 0 <= i < p ensures longer[i] == shorter[i] {
      SlotsPrefix(layout, vectors, more, p, i);
    }
    assert longer == shorter;
  }

  lemma SlotsPrefix(layout: Layout, vectors: seq<seq<Byte>>, more: seq<seq<Byte>>, p: nat, i: nat)
    requires Times(p, layout.vectorsPerPage) <= |vectors| && i < p
    ensures SlotsOf(layout, vectors + more, i) == SlotsOf(layout, vectors, i)
  {
    TimesMonotone(i + 1, p, layout.vectorsPerPage);
    SpanPrefix(vectors, more, Times(i, layout.vectorsPerPage), layout.vectorsPerPage);
  }

  lemma SpanPrefix(vectors: seq<seq<Byte>>, more: seq<seq<Byte>>, begin: nat, n: nat)
    requires begin + n <= |vectors|
    ensures Span(vectors + more, begin, n) == Span(vectors, begin, n)
  {
  }

  /** The vectors behind the full pages are those of the next page. */
  lemma LastSlots(layout: Layout, done: seq<seq<Byte>>, full: nat, pageFill: nat)
    requires |done| == Times(full, layout.vectorsPerPage) + pageFill && pageFill <= layout.vectorsPerPage
    ensures SlotsOf(layout, done, full) == Buffered(done, pageFill)
  {
  }

  lemma PackedPages(layout: Layout, n: nat, full: nat, pageFill: nat)
    requires layout.Valid() && Counted(n, full, layout.vectorsPerPage, pageFill)
    ensures layout.PageCountForVectors(n) == full + if pageFill > 0 then 1 else 0
  {
    var k := layout.vectorsPerPage;
    TimesIsProduct(full, k);
    if pageFill > 0 {
      assert n + k - 1 == (full + 1) * k + (pageFill - 1);
      DivModUnique(full + 1, k, pageFill - 1);
    } else {
      if full > 0 {
        TimesMonotone(1, full, k);
      }
      DivModUnique(full, k, k - 1);
    }
  }

  /** Writing out a partly filled buffer completes the last page. */
  lemma AllPacked(layout: Layout, done: seq<seq<Byte>>, full: nat, pageFill: nat, count: nat)
    requires Counted(|done|, full, layout.vectorsPerPage, pageFill)
    requires count == full + if pageFill > 0 then 1 else 0
    ensures Pages(layout, done, count)
         == if pageFill > 0 then Pages(layout, done, full) + PageWith(layout, Buffered(done, pageFill)) else Pages(layout, done, full)
  {
    if pageFill > 0 {
      LastSlots(layout, done, full, pageFill);
      PagesNext(layout, done, full);
    }
  }

  /** One more vector in the buffer. */
  lemma VectorBuffered(done: seq<seq<Byte>>, fill: nat, size: nat, vector: seq<Byte>)
    requires AllSized(done, size) && |vector| == size && fill <= |done|
    ensures Buffered(done + [vector], fill + 1) == Buffered(done, fill) + [vector]
    ensures AllSized(done + [vector], size)
    ensures AllSized(Buffered(done, fill), size) && |Buffered(done, fill)| == fill
  {
  }

  /** Full pages do not change; a full buffer is the next page. */
  lemma PagesBuffered(layout: Layout, done: seq<seq<Byte>>, full: nat, fill: nat, vector: seq<Byte>)
    requires Counted(|done|, full, layout.vectorsPerPage, fill)
    ensures Pages(layout, done + [vector], full) == Pages(layout, done, full)
  {
    PagesPrefix(layout, done, [vector], full);
  }

  lemma PageFilled(layout: Layout, done: seq<seq<Byte>>, full: nat, fill: nat, vector: seq<Byte>)
    requires Counted(|done|, full, layout.vectorsPerPage, fill) && fill + 1 == layout.vectorsPerPage
    ensures Pages(layout, done + [vector], full + 1) == Pages(layout, done, full) + PageWith(layout, Buffered(done + [vector], fill + 1))
  {
    PagesPrefix(layout, done, [vector], full);
    LastSlots(layout, done + [vector], full, fill + 1);
    PagesNext(layout, done + [vector], full);
  }

  lemma PackKeeps(layout: Layout, done: seq<seq<Byte>>, full: nat, header: seq<Byte>, s: Packer, vector: seq<Byte>) returns (full': nat)
    requires s.Fits(layout) && AllSized(done, layout.vectorBytes) && |vector| == layout.vectorBytes
    requires Packed(layout, done, full, header, s)
    ensures Packed(layout, done + [vector], full', header, Pack(layout, s, vector))
  {
    if s.fill + 1 == layout.vectorsPerPage {
      full' := full + 1;
      PackFills(layout, done, full, header, s, vector);
    } else {
      full' := full;
      PackAdds(layout, done, full, header, s, vector);
    }
  }

  /** The buffer is full: its page is written. */
  lemma PackFills(layout: Layout, done: seq<seq<Byte>>, full: nat, header: seq<Byte>, s: Packer, vector: seq<Byte>)
    requires s.Fits(layout) && AllSized(done, layout.vectorBytes) && |vector| == layout.vectorBytes
    requires Packed(layout, done, full, header, s) && s.fill + 1 == layout.vectorsPerPage
    ensures Packed(layout, done + [vector], full + 1, header, Pack(layout, s, vector))
  {
    CountedNext(|done|, full, layout.vectorsPerPage, s.fill);
    BufferedPage(layout, done, s.fill, s.page, vector);
    PageFilled(layout, done, full, s.fill, vector);
    Assoc(header, Pages(layout, done, full), PageWith(layout, Buffered(done + [vector], s.fill + 1)));
    EmptyBuffer(layout, done + [vector]);
  }

  lemma PackAdds(layout: Layout, done: seq<seq<Byte>>, full: nat, header: seq<Byte>, s: Packer, vector: seq<Byte>)
    requires s.Fits(layout) && AllSized(done, layout.vectorBytes) && |vector| == layout.vectorBytes
    requires Packed(layout, done, full, header, s) && s.fill + 1 < layout.vectorsPerPage
    ensures Packed(layout, done + [vector], full, header, Pack(layout, s, vector))
  {
    CountedNext(|done|, full, layout.vectorsPerPage, s.fill);
    BufferedPage(layout, done, s.fill, s.page, vector);
    PagesBuffered(layout, done, full, s.fill, vector);
  }

  lemma EmptyBuffer(layout: Layout, done: seq<seq<Byte>>)
    ensures PageWith(layout, Buffered(done, 0)) == Zeros(layout.pageSizeBytes)
  {
    assert Buffered(done, 0) == [];
  }

  lemma BufferedPage(layout: Layout, done: seq<seq<Byte>>, fill: nat, page: seq<Byte>, vector: seq<Byte>)
    requires layout.Valid() && AllSized(done, layout.vectorBytes) && |vector| == layout.vectorBytes
    requires fill <= |done| && fill < layout.vectorsPerPage && page == PageWith(layout, Buffered(done, fill))
    ensures fill * layout.vectorBytes + |vector| <= |page|
    ensures Put(page, fill * layout.vectorBytes, vector) == PageWith(layout, Buffered(done + [vector], fill + 1))
  {
    VectorBuffered(done, fill, layout.vectorBytes, vector);
    PutSlot(layout, page, Buffered(done, fill), vector);
  }

  lemma {:induction false} PackAllPacked(layout: Layout, header: seq<Byte>, done: seq<seq<Byte>>) returns (full: nat)
    requires layout.Valid() && AllSized(done, layout.vectorBytes)
    ensures Packed(layout, done, full, header, PackAll(layout, Packer(header, 0, Zeros(layout.pageSizeBytes)), done))
  {
    if done == [] {
      full := 0;
      assert header + [] == header;
    } else {
      var front := done[..|done| - 1];
      full := PackAllPacked(layout, header, front);
      assert front + [done[|done| - 1]] == done;
      full := PackKeeps(layout, front, full, header, PackAll(layout, Packer(header, 0, Zeros(layout.pageSizeBytes)), front), done[|done| - 1]);
    }
  }

  /** Writing out a partly filled buffer completes the file. */
  lemma PackedIsStoreFile(layout: Layout, header: seq<Byte>, done: seq<seq<Byte>>)
    requires layout.Valid() && AllSized(done, layout.vectorBytes)
    ensures Flushed(PackAll(layout, Packer(header, 0, Zeros(layout.pageSizeBytes)), done)) == header + Pages(layout, done, layout.PageCountForVectors(|done|))
  {
    var s := PackAll(layout, Packer(header, 0, Zeros(layout.pageSizeBytes)), done);
    var full := PackAllPacked(layout, header, done);
    PackedPages(layout, |done|, full, s.fill);
    AllPacked(layout, done, full, s.fill, layout.PageCountForVectors(|done|));
    Assoc(header, Pages(layout, done, full), s.page);
  }

  /** The vectors of one bulk read. */
  function ChunkOf(input: seq<Byte>, size: nat, processed: nat, current: nat): (chunk: seq<seq<Byte>>)
    requires Holds(input, size, processed + current)
    requires processed == 0 || Holds(input, size, processed)
    ensures |chunk| == current && AllSized(chunk, size)
    ensures VectorsOf(input, size, processed) + chunk == VectorsOf(input, size, processed + current)
  {
    if current == 0 then []
    else
      HoldsFewer(input, size, processed + current, processed + current - 1);
      ChunkOf(input, size, processed, current - 1) + [VectorAt(input, size, processed + current - 1)]
  }
}
