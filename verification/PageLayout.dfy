/** Fixed-size pages of whole vectors behind a one-page header. */
module PageLayout {
  import opened Arithmetic
  import opened Wrappers

  const DEFAULT_PAGE_SIZE_BYTES: nat := 4096

  datatype Address = Address(pageId: nat, slotId: nat, byteOffset: nat)

  datatype Layout = Layout(pageSizeBytes: nat, headerBytes: nat, vectorBytes: nat, vectorsPerPage: nat) {
    ghost predicate Valid() {
      && headerBytes == pageSizeBytes > 0 && vectorBytes > 0 && vectorsPerPage > 0
      && Times(vectorsPerPage, vectorBytes) <= pageSizeBytes < Times(vectorsPerPage + 1, vectorBytes)
    }

    function PageCountForVectors(numVectors: nat): nat
      requires Valid()
    {
      if numVectors == 0 then 0 else (numVectors + vectorsPerPage - 1) / vectorsPerPage
    }

    function Resolve(nodeId: nat): Address
      requires Valid()
    {
      var pageId, slotId := nodeId / vectorsPerPage, nodeId % vectorsPerPage;
      Address(pageId, slotId, headerBytes + pageId * pageSizeBytes + slotId * vectorBytes)
    }
  }

  /** Fails when either size is zero or a vector does not fit a page; otherwise packs as many
      whole vectors per page as fit. */
  function CreateFromVectorBytes(vectorBytes: nat, pageSizeBytes: nat): (r: Result<Layout>)
    ensures r.Err? <==> pageSizeBytes == 0 || vectorBytes == 0 || vectorBytes > pageSizeBytes
    ensures r.Ok? ==> r.value.Valid() && r.value.vectorBytes == vectorBytes && r.value.pageSizeBytes == pageSizeBytes
  {
    if pageSizeBytes == 0 || vectorBytes == 0 then Err
    else
      var vectorsPerPage := pageSizeBytes / vectorBytes;
      DivMod(pageSizeBytes, vectorBytes);
      TimesIsProduct(vectorsPerPage, vectorBytes);
      TimesIsProduct(vectorsPerPage + 1, vectorBytes);
      QuotientZero(pageSizeBytes, vectorBytes);
      if vectorsPerPage == 0 then Err
      else Ok(Layout(pageSizeBytes, pageSizeBytes, vectorBytes, vectorsPerPage))
  }

  lemma QuotientZero(x: nat, m: nat)
    requires m > 0
    ensures x / m == 0 <==> x < m
    ensures x < (x / m + 1) * m
  {
    DivMod(x, m);
    if x < m {
      DivModUnique(0, m, x);
    }
  }

  lemma SlotInOwnPage(layout: Layout, i: nat)
    requires layout.Valid()
    ensures var a := layout.Resolve(i);
      && layout.headerBytes + a.pageId * layout.pageSizeBytes <= a.byteOffset
      && a.byteOffset + layout.vectorBytes <= layout.headerBytes + (a.pageId + 1) * layout.pageSizeBytes
  {
    DivMod(i, layout.vectorsPerPage);
    SlotInPage(layout, layout.Resolve(i).slotId);
    NextPage(layout, layout.Resolve(i).pageId);
  }

  /** A slot lies inside its page, behind the header, and slots never overlap. */
  lemma SlotsDisjointInPage(layout: Layout, i: nat, j: nat)
    requires layout.Valid() && i < j
    ensures var a, b := layout.Resolve(i), layout.Resolve(j);
      && layout.headerBytes + a.pageId * layout.pageSizeBytes <= a.byteOffset
      && a.byteOffset + layout.vectorBytes <= layout.headerBytes + (a.pageId + 1) * layout.pageSizeBytes
      && a.byteOffset + layout.vectorBytes <= b.byteOffset
  {
    var a, b := layout.Resolve(i), layout.Resolve(j);
    DivMod(i, layout.vectorsPerPage);
    DivMod(j, layout.vectorsPerPage);
    SlotInOwnPage(layout, i);
    SlotInOwnPage(layout, j);
    LaterAddress(layout.vectorsPerPage, a.pageId, a.slotId, b.pageId, b.slotId);
    if a.pageId == b.pageId {
      MulLe(a.slotId + 1, b.slotId, layout.vectorBytes);
    } else {
      MulLe(a.pageId + 1, b.pageId, layout.pageSizeBytes);
    }
  }

  lemma NextPage(layout: Layout, p: nat)
    ensures (p + 1) * layout.pageSizeBytes == p * layout.pageSizeBytes + layout.pageSizeBytes
  {
  }

  /** Ids in increasing order have (page, slot) pairs in lexicographic order. */
  lemma LaterAddress(n: nat, p: nat, s: nat, q: nat, t: nat)
    requires s < n && t < n && p * n + s < q * n + t
    ensures p < q || (p == q && s < t)
  {
    if q < p {
      MulLe(q + 1, p, n);
    }
  }

  lemma SlotInPage(layout: Layout, slot: nat)
    requires layout.Valid() && slot < layout.vectorsPerPage
    ensures slot * layout.vectorBytes + layout.vectorBytes == (slot + 1) * layout.vectorBytes <= layout.pageSizeBytes
  {
    TimesMonotone(slot + 1, layout.vectorsPerPage, layout.vectorBytes);
    TimesIsProduct(slot, layout.vectorBytes);
    TimesIsProduct(slot + 1, layout.vectorBytes);
  }
}
