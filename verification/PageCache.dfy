/** The host reader's page cache: first in, first out, at most 4096 pages. */
module PageCache {
  import opened Arithmetic
  import opened Bytes
  import opened PageLayout
  import opened VectorStore
  import opened VectorStoreReads
  import opened Wrappers

  const MAX_CACHED_PAGES: nat := 4096

  // ---------------------------------------------------------------- reading the file directly

  /** Where page p starts in the file. */
  function PageOffset(layout: Layout, p: nat): nat {
    layout.headerBytes + p * layout.pageSizeBytes
  }

  predicate PageInFile(file: seq<Byte>, layout: Layout, p: nat) {
    PageOffset(layout, p) + layout.pageSizeBytes <= |file|
  }

  function PageBytes(file: seq<Byte>, layout: Layout, p: nat): (page: seq<Byte>)
    requires PageInFile(file, layout, p)
    ensures |page| == layout.pageSizeBytes
  {
    file[PageOffset(layout, p)..PageOffset(layout, p) + layout.pageSizeBytes]
  }

  /** The bytes at the resolved offset, provided the file holds the whole page. */
  function DirectRead(file: seq<Byte>, layout: Layout, nodeId: nat): Result<seq<Byte>>
    requires layout.Valid()
  {
    var a := layout.Resolve(nodeId);
    if PageInFile(file, layout, a.pageId) then
      SlotInOwnPage(layout, nodeId);
      NextPage(layout, a.pageId);
      Ok(file[a.byteOffset..a.byteOffset + layout.vectorBytes])
    else Err
  }

  // ---------------------------------------------------------------- the cache as a value

  datatype Cache = Cache(pages: map<nat, seq<Byte>>, order: seq<nat>)

  ghost predicate NoDuplicates(order: seq<nat>) {
    forall i, j :: 0 <= i < j < |order| ==> order[i] != order[j]
  }

  /** The queue lists every cached page once, within the capacity, and every page is as in the file. */
  ghost predicate Good(c: Cache, file: seq<Byte>, layout: Layout) {
    && NoDuplicates(c.order) && (forall p :: p in c.order <==> p in c.pages) && |c.order| <= MAX_CACHED_PAGES
    && forall p | p in c.pages :: PageInFile(file, layout, p) && c.pages[p] == PageBytes(file, layout, p)
  }

  function Remembered(order: seq<nat>): seq<nat> {
    if |order| > MAX_CACHED_PAGES then order[|order| - MAX_CACHED_PAGES..] else order
  }

  /** The cache after page p has been read from the file. */
  function Loaded(c: Cache, p: nat, page: seq<Byte>): Cache {
    var pages, order := c.pages[p := page], c.order + [p];
    if |order| > MAX_CACHED_PAGES then Cache(pages - {order[0]}, order[1..]) else Cache(pages, order)
  }

  function AfterRead(c: Cache, file: seq<Byte>, layout: Layout, nodeId: nat): Cache
    requires layout.Valid()
  {
    var p := layout.Resolve(nodeId).pageId;
    if p in c.pages || !PageInFile(file, layout, p) then c else Loaded(c, p, PageBytes(file, layout, p))
  }

  lemma QueueKeeps(order: seq<nat>, p: nat)
    requires NoDuplicates(order) && p !in order
    ensures NoDuplicates(order + [p])
    ensures order != [] ==> NoDuplicates((order + [p])[1..]) && p in (order + [p])[1..]
    ensures order != [] ==> forall q :: q in (order + [p])[1..] <==> q != order[0] && q in order + [p]
  {
    var longer := order + [p];
    if order != [] {
      assert longer == [longer[0]] + longer[1..];
      assert longer[1..][|order| - 1] == p;
    }
  }

  /** Loading an absent page keeps the cache good and never evicts that page. */
  lemma LoadKeeps(c: Cache, file: seq<Byte>, layout: Layout, p: nat)
    requires Good(c, file, layout) && p !in c.pages && PageInFile(file, layout, p)
    ensures Good(Loaded(c, p, PageBytes(file, layout, p)), file, layout)
    ensures p in Loaded(c, p, PageBytes(file, layout, p)).pages
  {
    QueueKeeps(c.order, p);
    assert forall q :: q in c.order + [p] <==> q in c.order || q == p;
    var added := Cache(c.pages[p := PageBytes(file, layout, p)], c.order + [p]);
    if |added.order| > MAX_CACHED_PAGES {
      assert added.order[0] == c.order[0];
      EvictKeeps(added, file, layout);
    }
  }

  /** Dropping the oldest page of a queue that matches the pages. */
  lemma EvictKeeps(c: Cache, file: seq<Byte>, layout: Layout)
    requires c.order != [] && |c.order| <= MAX_CACHED_PAGES + 1 && NoDuplicates(c.order[1..])
    requires (forall p :: p in c.order <==> p in c.pages) && (forall p :: p in c.order[1..] <==> p != c.order[0] && p in c.order)
    requires forall p | p in c.pages :: PageInFile(file, layout, p) && c.pages[p] == PageBytes(file, layout, p)
    ensures Good(Cache(c.pages - {c.order[0]}, c.order[1..]), file, layout)
  {
  }

  // ---------------------------------------------------------------- the reader

  class HostVectorStoreReader {
    const file: seq<Byte>
    const layout: Layout
    var pages: map<nat, seq<Byte>>
    var pageOrder: seq<nat>

    ghost predicate Valid()
      reads this
    {
      layout.Valid() && Good(Contents(), file, layout)
    }

    ghost function Contents(): Cache
      reads this
    {
      Cache(pages, pageOrder)
    }

    constructor (file: seq<Byte>, layout: Layout)
      requires layout.Valid()
      ensures Valid() && this.file == file && this.layout == layout && Contents() == Cache(map[], [])
    {
      this.file, this.layout := file, layout;
      pages, pageOrder := map[], [];
    }

    /** Whatever was read before, the result is that of a direct read. A failed read changes nothing. */
    method ReadVector(nodeId: nat) returns (r: Result<seq<Byte>>)
      requires Valid()
      modifies this
      ensures Valid() && r == DirectRead(file, layout, nodeId)
      ensures Contents() == AfterRead(old(Contents()), file, layout, nodeId)
      ensures r.Ok? ==> layout.Resolve(nodeId).pageId in pages
    {
      var address := layout.Resolve(nodeId);
      if address.pageId !in pages {
        var ok := LoadPage(address.pageId);
        if !ok {
          return Err;
        }
      }
      var start := Product(address.slotId, layout.vectorBytes);
      SlotOfPage(file, layout, nodeId, start);
      return Ok(pages[address.pageId][start..start + layout.vectorBytes]);
    }

    method LoadPage(pageId: nat) returns (ok: bool)
      requires Valid() && pageId !in pages
      modifies this
      ensures Valid() && ok == PageInFile(file, layout, pageId)
      ensures !ok ==> Contents() == old(Contents())
      ensures ok ==> Contents() == Loaded(old(Contents()), pageId, PageBytes(file, layout, pageId)) && pageId in pages
    {
      var offset := layout.headerBytes + pageId * layout.pageSizeBytes;
      if offset + layout.pageSizeBytes > |file| {
        return false;
      }
      LoadKeeps(Contents(), file, layout, pageId);
      ghost var next := Loaded(Contents(), pageId, PageBytes(file, layout, pageId));
      pages := pages[pageId := file[offset..offset + layout.pageSizeBytes]];
      pageOrder := pageOrder + [pageId];
      if |pageOrder| > MAX_CACHED_PAGES {
        pages := pages - {pageOrder[0]};
        pageOrder := pageOrder[1..];
      }
      assert Contents() == next;
      return true;
    }
  }

  /** A slot cut out of its page is the vector at the resolved offset. */
  lemma SlotOfPage(file: seq<Byte>, layout: Layout, nodeId: nat, start: nat)
    requires layout.Valid() && PageInFile(file, layout, layout.Resolve(nodeId).pageId)
    requires start == Product(layout.Resolve(nodeId).slotId, layout.vectorBytes)
    ensures start + layout.vectorBytes <= layout.pageSizeBytes
    ensures DirectRead(file, layout, nodeId)
         == Ok(PageBytes(file, layout, layout.Resolve(nodeId).pageId)[start..start + layout.vectorBytes])
  {
    var a := layout.Resolve(nodeId);
    DivMod(nodeId, layout.vectorsPerPage);
    SlotInPage(layout, a.slotId);
    SliceOfSlice(file, PageOffset(layout, a.pageId), layout.pageSizeBytes, a.slotId * layout.vectorBytes, layout.vectorBytes);
  }

  // ---------------------------------------------------------------- whole runs

  /** The cache after a run of reads, and the pages it loaded, in order. */
  function After(file: seq<Byte>, layout: Layout, ids: seq<nat>): Cache
    requires layout.Valid()
  {
    if ids == [] then Cache(map[], [])
    else AfterRead(After(file, layout, ids[..|ids| - 1]), file, layout, ids[|ids| - 1])
  }

  function Loads(file: seq<Byte>, layout: Layout, ids: seq<nat>): seq<nat>
    requires layout.Valid()
  {
    if ids == [] then []
    else
      var p := layout.Resolve(ids[|ids| - 1]).pageId;
      Loads(file, layout, ids[..|ids| - 1])
      + if p in After(file, layout, ids[..|ids| - 1]).pages || !PageInFile(file, layout, p) then [] else [p]
  }

  /** After any run the cache is good and holds exactly the 4096 most recent loads. */
  lemma {:induction false} CacheIsLatestLoads(file: seq<Byte>, layout: Layout, ids: seq<nat>)
    requires layout.Valid()
    ensures Good(After(file, layout, ids), file, layout)
    ensures After(file, layout, ids).order == Remembered(Loads(file, layout, ids))
  {
    if ids != [] {
      var front, p := ids[..|ids| - 1], layout.Resolve(ids[|ids| - 1]).pageId;
      CacheIsLatestLoads(file, layout, front);
      if p !in After(file, layout, front).pages && PageInFile(file, layout, p) {
        LoadStep(After(file, layout, front), file, layout, Loads(file, layout, front), p);
      }
    }
  }

  lemma LoadStep(c: Cache, file: seq<Byte>, layout: Layout, loads: seq<nat>, p: nat)
    requires Good(c, file, layout) && p !in c.pages && PageInFile(file, layout, p) && c.order == Remembered(loads)
    ensures Good(Loaded(c, p, PageBytes(file, layout, p)), file, layout)
    ensures Loaded(c, p, PageBytes(file, layout, p)).order == Remembered(loads + [p])
  {
    LoadKeeps(c, file, layout, p);
    LoadedOrder(c, loads, p, PageBytes(file, layout, p));
  }

  lemma LoadedOrder(c: Cache, loads: seq<nat>, p: nat, page: seq<Byte>)
    requires c.order == Remembered(loads)
    ensures Loaded(c, p, page).order == Remembered(loads + [p])
  {
  }

  /** Against a well-formed store, the cached reader and ReadVectorById agree except on the unused
      slots of the last page: the cached reader does not check the id and returns the padding. */
  lemma CachedReadAgreesIff(layout: Layout, scalarKind: nat, dim: nat, vectors: seq<seq<Byte>>, id: nat)
    requires layout.Valid() && layout.pageSizeBytes == HEADER_SIZE
    requires AllSized(vectors, layout.vectorBytes) && |vectors| < 0x1_0000_0000 * 0x1_0000_0000
    ensures var file := StoreFile(layout, scalarKind, dim, vectors);
      DirectRead(file, layout, id) == ReadVectorById(file, layout, id)
      <==> id < |vectors| || layout.Resolve(id).pageId >= layout.PageCountForVectors(|vectors|)
  {
    var file, a, count := StoreFile(layout, scalarKind, dim, vectors), layout.Resolve(id), layout.PageCountForVectors(|vectors|);
    ReadsBack(layout, scalarKind, dim, vectors, id);
    PagesLength(layout, vectors, count);
    TimesIsProduct(count, layout.pageSizeBytes);
    PageInStoreIff(layout, |file|, count, a.pageId);
    if id < |vectors| {
      PageOfId(layout, |vectors|, id);
    }
  }

  lemma PageInStoreIff(layout: Layout, length: nat, count: nat, p: nat)
    requires layout.Valid() && length == layout.headerBytes + count * layout.pageSizeBytes
    ensures PageOffset(layout, p) + layout.pageSizeBytes <= length <==> p < count
  {
    NextPage(layout, p);
    if p < count {
      MulLe(p + 1, count, layout.pageSizeBytes);
    } else {
      MulLe(count, p, layout.pageSizeBytes);
    }
  }
}
