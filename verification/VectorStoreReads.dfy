/** Reading vectors back by node id: when the file that was written is the file that is read. */
module VectorStoreReads {
  import opened Arithmetic
  import opened Bytes
  import opened PageLayout
  import opened VectorStore
  import opened Wrappers

  /** Fails on a bad header, an id out of range or a read past the end of the file. */
  function ReadVectorById(file: seq<Byte>, layout: Layout, nodeId: nat): (r: Result<seq<Byte>>)
    requires layout.Valid()
    ensures r.Ok? ==> |r.value| == layout.vectorBytes
  {
    var header := ReadHeader(file);
    if header.Err? then Err
    else if nodeId >= header.value.numVectors then Err
    else
      var offset := layout.Resolve(nodeId).byteOffset;
      if offset + layout.vectorBytes <= |file| then Ok(file[offset..offset + layout.vectorBytes]) else Err
  }

  /** Page p holds the vector of every id that resolves to it, at the slot it resolves to. */
  lemma SlotHoldsVector(layout: Layout, vectors: seq<seq<Byte>>, id: nat)
    requires layout.Valid() && AllSized(vectors, layout.vectorBytes) && id < |vectors|
    ensures var a := layout.Resolve(id);
      a.slotId < |SlotsOf(layout, vectors, a.pageId)| && SlotsOf(layout, vectors, a.pageId)[a.slotId] == vectors[id]
  {
    DivMod(id, layout.vectorsPerPage);
    TimesIsProduct(id / layout.vectorsPerPage, layout.vectorsPerPage);
  }

  lemma PageOfId(layout: Layout, n: nat, id: nat)
    requires layout.Valid() && id < n
    ensures layout.Resolve(id).pageId < layout.PageCountForVectors(n)
  {
    var k := layout.vectorsPerPage;
    DivMod(id, k);
    DivMod(n + k - 1, k);
    var p, q := id / k, (n + k - 1) / k;
    if q <= p {
      MulLe(q, p, k);
    }
  }

  lemma SlotOnPage(layout: Layout, slots: seq<seq<Byte>>, slot: nat, at: nat)
    requires layout.Valid() && AllSized(slots, layout.vectorBytes) && slot < |slots| <= layout.vectorsPerPage
    requires at == slot * layout.vectorBytes
    ensures at + layout.vectorBytes <= |PageWith(layout, slots)| == layout.pageSizeBytes
    ensures PageWith(layout, slots)[at..at + layout.vectorBytes] == slots[slot]
  {
    PageWithLength(layout, slots);
    TimesIsProduct(slot, layout.vectorBytes);
    FlattenSlot(slots, layout.vectorBytes, slot, at);
    SliceLeft(Flatten(slots), Zeros(layout.pageSizeBytes - |Flatten(slots)|), at, at + layout.vectorBytes);
  }

  /** With 4096-byte pages every vector comes back, and no other id is readable. */
  lemma ReadsBack(layout: Layout, scalarKind: nat, dim: nat, vectors: seq<seq<Byte>>, id: nat)
    requires layout.Valid() && AllSized(vectors, layout.vectorBytes) && |vectors| < 0x1_0000_0000 * 0x1_0000_0000
    requires layout.pageSizeBytes == HEADER_SIZE
    ensures ReadVectorById(StoreFile(layout, scalarKind, dim, vectors), layout, id)
         == if id < |vectors| then Ok(vectors[id]) else Err
  {
    var header, pages := Header(layout, scalarKind, dim, |vectors|), Pages(layout, vectors, layout.PageCountForVectors(|vectors|));
    HeaderRoundTrip(layout, scalarKind, dim, |vectors|, pages);
    assert StoreFile(layout, scalarKind, dim, vectors) == header + pages;
    if id < |vectors| {
      BytesOfVector(layout, header, vectors, id);
      ReadBehindHeader(header + pages, layout, id, vectors[id]);
    }
  }

  lemma ReadBehindHeader(file: seq<Byte>, layout: Layout, id: nat, vector: seq<Byte>)
    requires layout.Valid() && ReadHeader(file).Ok? && id < ReadHeader(file).value.numVectors
    requires var at := layout.Resolve(id).byteOffset; at + layout.vectorBytes <= |file| && file[at..at + layout.vectorBytes] == vector
    ensures ReadVectorById(file, layout, id) == Ok(vector)
  {
  }

  lemma BytesOfVector(layout: Layout, header: seq<Byte>, vectors: seq<seq<Byte>>, id: nat)
    requires layout.Valid() && AllSized(vectors, layout.vectorBytes) && id < |vectors| && |header| == layout.headerBytes
    ensures var file, at := header + Pages(layout, vectors, layout.PageCountForVectors(|vectors|)), layout.Resolve(id).byteOffset;
      at + layout.vectorBytes <= |file| && file[at..at + layout.vectorBytes] == vectors[id]
  {
    var a := layout.Resolve(id);
    var pageStart, slotStart := Product(a.pageId, layout.pageSizeBytes), Product(a.slotId, layout.vectorBytes);
    BytesInPages(layout, vectors, id, pageStart, slotStart);
    SliceBehind(header, Pages(layout, vectors, layout.PageCountForVectors(|vectors|)), pageStart + slotStart, a.byteOffset, layout.vectorBytes);
  }

  lemma BytesInPages(layout: Layout, vectors: seq<seq<Byte>>, id: nat, pageStart: nat, slotStart: nat)
    requires layout.Valid() && AllSized(vectors, layout.vectorBytes) && id < |vectors|
    requires pageStart == layout.Resolve(id).pageId * layout.pageSizeBytes
    requires slotStart == layout.Resolve(id).slotId * layout.vectorBytes
    ensures var pages := Pages(layout, vectors, layout.PageCountForVectors(|vectors|));
      && pageStart + slotStart + layout.vectorBytes <= |pages|
      && pages[pageStart + slotStart..pageStart + slotStart + layout.vectorBytes] == vectors[id]
  {
    PageOfId(layout, |vectors|, id);
    SlotHoldsVector(layout, vectors, id);
    TimesIsProduct(layout.Resolve(id).pageId, layout.pageSizeBytes);
    BytesInPage(layout, vectors, layout.PageCountForVectors(|vectors|), layout.Resolve(id).pageId, layout.Resolve(id).slotId, pageStart, slotStart);
  }

  lemma BytesInPage(layout: Layout, vectors: seq<seq<Byte>>, count: nat, pageId: nat, slotId: nat, pageStart: nat, slotStart: nat)
    requires layout.Valid() && AllSized(vectors, layout.vectorBytes)
    requires pageId < count && slotId < |SlotsOf(layout, vectors, pageId)|
    requires pageStart == Times(pageId, layout.pageSizeBytes) && slotStart == slotId * layout.vectorBytes
    ensures pageStart + slotStart + layout.vectorBytes <= |Pages(layout, vectors, count)|
    ensures Pages(layout, vectors, count)[pageStart + slotStart..pageStart + slotStart + layout.vectorBytes]
         == SlotsOf(layout, vectors, pageId)[slotId]
  {
    var slots := SlotsOf(layout, vectors, pageId);
    PageAt(layout, vectors, count, pageId, pageStart);
    SpanSized(vectors, Times(pageId, layout.vectorsPerPage), layout.vectorsPerPage, layout.vectorBytes);
    SlotInBytes(layout, slots, slotId, slotStart, Pages(layout, vectors, count), pageStart);
  }

  lemma SlotInBytes(layout: Layout, slots: seq<seq<Byte>>, slotId: nat, slotStart: nat, pages: seq<Byte>, pageStart: nat)
    requires layout.Valid() && AllSized(slots, layout.vectorBytes) && slotId < |slots| <= layout.vectorsPerPage
    requires slotStart == slotId * layout.vectorBytes && pageStart + layout.pageSizeBytes <= |pages|
    requires pages[pageStart..pageStart + layout.pageSizeBytes] == PageWith(layout, slots)
    ensures pageStart + slotStart + layout.vectorBytes <= |pages|
    ensures pages[pageStart + slotStart..pageStart + slotStart + layout.vectorBytes] == slots[slotId]
  {
    SlotOnPage(layout, slots, slotId, slotStart);
    SliceWithin(pages, pageStart, layout.pageSizeBytes, PageWith(layout, slots), slotStart, layout.vectorBytes, slots[slotId]);
  }

  // ---------------------------------------------------------------- when the round trip holds

  ghost predicate RoundTrips(layout: Layout, scalarKind: nat, dim: nat)
    requires layout.Valid()
  {
    forall vectors: seq<seq<Byte>>, id: nat |
      AllSized(vectors, layout.vectorBytes) && |vectors| < 0x1_0000_0000 * 0x1_0000_0000 && id < |vectors| ::
      ReadVectorById(StoreFile(layout, scalarKind, dim, vectors), layout, id) == Ok(vectors[id])
  }

  /** The header always takes 4096 bytes, but Resolve skips one page: the two agree, and reading back
      what was written works, for exactly one page size. */
  lemma RoundTripsIff(layout: Layout, scalarKind: nat, dim: nat)
    requires layout.Valid()
    ensures RoundTrips(layout, scalarKind, dim) <==> layout.pageSizeBytes == HEADER_SIZE
  {
    if layout.pageSizeBytes == HEADER_SIZE {
      forall vectors: seq<seq<Byte>>, id: nat |
        AllSized(vectors, layout.vectorBytes) && |vectors| < 0x1_0000_0000 * 0x1_0000_0000 && id < |vectors|
        ensures ReadVectorById(StoreFile(layout, scalarKind, dim, vectors), layout, id) == Ok(vectors[id])
      {
        ReadsBack(layout, scalarKind, dim, vectors, id);
      }
    } else {
      var v := OffendingVector(layout, scalarKind, dim);
      assert [v][0] == v;
      assert !RoundTrips(layout, scalarKind, dim);
    }
  }

  /** A single vector that does not come back: its first byte differs from the one found at the offset. */
  lemma OffendingVector(layout: Layout, scalarKind: nat, dim: nat) returns (v: seq<Byte>)
    requires layout.Valid() && layout.pageSizeBytes != HEADER_SIZE
    ensures |v| == layout.vectorBytes
    ensures ReadVectorById(StoreFile(layout, scalarKind, dim, [v]), layout, 0) != Ok(v)
  {
    var size := layout.pageSizeBytes;
    var header := Header(layout, scalarKind, dim, 1);
    var first: Byte := if size < HEADER_SIZE && header[size] == 1 then 0 else 1;
    v := [first] + Zeros(layout.vectorBytes - 1);
    OnePage(layout, v);
    FirstByteDiffers(layout, StoreFile(layout, scalarKind, dim, [v]), header, v);
  }

  lemma FirstByteDiffers(layout: Layout, file: seq<Byte>, header: seq<Byte>, v: seq<Byte>)
    requires layout.Valid() && layout.pageSizeBytes != HEADER_SIZE == |header| && |v| == layout.vectorBytes <= layout.pageSizeBytes
    requires if layout.pageSizeBytes < HEADER_SIZE then v[0] != header[layout.pageSizeBytes] else v[0] == 1
    requires forall i :: 0 < i < |v| ==> v[i] == 0
    requires file == header + (v + Zeros(layout.pageSizeBytes - layout.vectorBytes))
    ensures ReadVectorById(file, layout, 0) != Ok(v)
  {
    var size := layout.pageSizeBytes;
    assert layout.Resolve(0).byteOffset == size by {
      DivModUnique(0, layout.vectorsPerPage, 0);
    }
    assert file[size] != v[0];
    assert size + layout.vectorBytes <= |file| ==> file[size..size + layout.vectorBytes][0] == file[size];
  }

  lemma OnePage(layout: Layout, v: seq<Byte>)
    requires layout.Valid() && |v| == layout.vectorBytes
    ensures layout.vectorBytes <= layout.pageSizeBytes
    ensures Pages(layout, [v], layout.PageCountForVectors(1)) == v + Zeros(layout.pageSizeBytes - layout.vectorBytes)
  {
    TimesMonotone(1, layout.vectorsPerPage, layout.vectorBytes);
    DivModUnique(1, layout.vectorsPerPage, 0);
    assert layout.PageCountForVectors(1) == 1;
    assert SlotsOf(layout, [v], 0) == [v];
    assert Flatten([v]) == Flatten([]) + v == v;
    PagesNext(layout, [v], 0);
    assert Pages(layout, [v], 0) == [];
  }
}
