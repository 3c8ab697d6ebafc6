// The paged table used for large previews: how many pages there are,
// whether to page at all, which rows the current page shows, the
// "start-end of n rows" caption, and the Previous/Next buttons. The only
// state is the current page number, which the buttons replace; every
// value shown is a function of the rows, the page size and that number.

module Pagination {

  import opened JsValues
  import opened Rows
  import ExcelUtils

  /** What the table shows for one page. */
  datatype PageView = PageView(
    columns: seq<string>,
    totalPages: nat,
    shouldPaginate: bool,
    displayData: seq<Row>,
    startRow: nat,
    endRow: nat)

  function Min(a: nat, b: nat): nat {
    if a <= b then a else b
  }

  /** `array.slice(start, end)` for non-negative bounds: both are clamped
      to the length, and an empty range gives no rows. */
  function Slice<T>(s: seq<T>, start: nat, end: nat): (r: seq<T>)
    ensures |r| <= |s|
  {
    var e := Min(end, |s|);
    if start < e then s[start..e] else []
  }

  /** `Math.ceil(n / pageSize)`. */
  function TotalPages(n: nat, pageSize: nat): nat
    requires pageSize > 0
  {
    ExcelUtils.Ceil(n, pageSize)
  }

  /** The table for the given rows and current page; nothing at all for
      no rows. */
  function Render(data: seq<Row>, pageSize: nat, currentPage: nat): (v: Option<PageView>)
    requires pageSize > 0
    ensures v.None? <==> data == []
    ensures v.Some? ==> v.value.columns == data[0].keys
  {
    if data == [] then None
    else
      var shouldPaginate := |data| > pageSize;
      var displayData :=
        if shouldPaginate then Slice(data, currentPage * pageSize, (currentPage + 1) * pageSize)
        else data;
      Some(PageView(
        data[0].keys,
        TotalPages(|data|, pageSize),
        shouldPaginate,
        displayData,
        currentPage * pageSize + 1,
        Min((currentPage + 1) * pageSize, |data|)))
  }

  /** The page count is the least number of pages that hold every row. */
  lemma PageCount(data: seq<Row>, pageSize: nat, currentPage: nat)
    requires pageSize > 0 && data != []
    ensures var v := Render(data, pageSize, currentPage).value;
      && v.totalPages >= 1
      && (v.totalPages - 1) * pageSize < |data| <= v.totalPages * pageSize
  {
    var t := TotalPages(|data|, pageSize);
    ExcelUtils.CeilBounds(|data|, pageSize);
    assert (t - 1) * pageSize == t * pageSize - pageSize;
  }

  /** Up to one page of rows, everything is shown on a single page. */
  lemma SmallDataShowsAll(data: seq<Row>, pageSize: nat, currentPage: nat)
    requires pageSize > 0 && data != [] && |data| <= pageSize
    ensures var v := Render(data, pageSize, currentPage).value;
      && !v.shouldPaginate && v.displayData == data && v.totalPages == 1
  {
  }

  /** The i-th chunk of `chunkArray(a, k)` covers rows i*k up to (i+1)*k. */
  lemma ChunkAt<T>(a: seq<T>, k: nat, i: nat, j: nat)
    requires k > 0 && i <= |a| && j < ExcelUtils.Ceil(|a| - i, k)
    ensures i + j * k < |a|
    ensures ExcelUtils.ChunksFrom(a, k, i)[j] == a[i + j * k..Min(i + j * k + k, |a|)]
  {
    ChunkAtStart(a, k, i, j);
    StartIsProduct(i, j, k);
  }

  /** The start of the j-th slice after i, counted in steps of k. */
  function Start(i: nat, j: nat, k: nat): nat
    decreases j
  {
    if j == 0 then i else Start(i + k, j - 1, k)
  }

  lemma {:induction false} StartIsProduct(i: nat, j: nat, k: nat)
    ensures Start(i, j, k) == i + j * k
    decreases j
  {
    if j > 0 {
      StartIsProduct(i + k, j - 1, k);
      assert j * k == (j - 1) * k + k;
    }
  }

  lemma {:induction false} ChunkAtStart<T>(a: seq<T>, k: nat, i: nat, j: nat)
    requires k > 0 && i <= |a| && j < ExcelUtils.Ceil(|a| - i, k)
    ensures Start(i, j, k) < |a|
    ensures ExcelUtils.ChunksFrom(a, k, i)[j] == a[Start(i, j, k)..Min(Start(i, j, k) + k, |a|)]
    decreases j
  {
    var cs := ExcelUtils.ChunksFrom(a, k, i);
    assert i < |a|;
    assert cs == [a[i..Min(i + k, |a|)]] + ExcelUtils.ChunksFrom(a, k, i + k);
    if j > 0 {
      assert |a| - i > k;
      ChunkAtStart(a, k, i + k, j - 1);
      assert cs[j] == ExcelUtils.ChunksFrom(a, k, i + k)[j - 1];
    }
  }

  /** When paging, the page shown is the page-th slice of
      `chunkArray(data, pageSize)`; since the slices laid end to end give
      back the rows, every row is on exactly one page. */
  lemma PageIsChunk(data: seq<Row>, pageSize: nat, currentPage: nat)
    requires pageSize > 0 && |data| > pageSize
    requires currentPage < TotalPages(|data|, pageSize)
    ensures var v := Render(data, pageSize, currentPage).value;
      && v.shouldPaginate
      && v.displayData == ExcelUtils.Chunks(data, pageSize)[currentPage]
      && |ExcelUtils.Chunks(data, pageSize)| == v.totalPages
    ensures ExcelUtils.Concat(ExcelUtils.Chunks(data, pageSize)) == data
  {
    ChunkAt(data, pageSize, 0, currentPage);
    assert (currentPage + 1) * pageSize == currentPage * pageSize + pageSize;
    ExcelUtils.ConcatChunks(data, pageSize);
  }

  /** For a page in range, the caption's rows are the rows shown: the
      page holds rows startRow..endRow (counting from 1), between one and
      pageSize of them. */
  lemma PageCaption(data: seq<Row>, pageSize: nat, currentPage: nat)
    requires pageSize > 0 && |data| > pageSize
    requires currentPage < TotalPages(|data|, pageSize)
    ensures var v := Render(data, pageSize, currentPage).value;
      && 1 <= v.startRow <= v.endRow <= |data|
      && v.displayData == data[v.startRow - 1..v.endRow]
      && |v.displayData| == v.endRow - v.startRow + 1
      && |v.displayData| <= pageSize
  {
    ChunkAt(data, pageSize, 0, currentPage);
    assert (currentPage + 1) * pageSize == currentPage * pageSize + pageSize;
  }

  /** Consecutive pages meet: a full page ends where the next one starts,
      the first page starts at row 1, and the last page ends at the last
      row. */
  lemma PagesTile(data: seq<Row>, pageSize: nat, page: nat)
    requires pageSize > 0 && data != []
    ensures Render(data, pageSize, 0).value.startRow == 1
    ensures page + 1 < TotalPages(|data|, pageSize) ==>
      Render(data, pageSize, page).value.endRow + 1 == Render(data, pageSize, page + 1).value.startRow
    ensures Render(data, pageSize, TotalPages(|data|, pageSize) - 1).value.endRow == |data|
  {
    var t := TotalPages(|data|, pageSize);
    ExcelUtils.CeilBounds(|data|, pageSize);
    assert (page + 1) * pageSize == page * pageSize + pageSize;
    assert (t - 1 + 1) * pageSize == t * pageSize;
    if page + 1 < t {
      ExcelUtils.MulMonotone(page + 2, t, pageSize);
      assert (page + 2) * pageSize == (page + 1) * pageSize + pageSize;
    }
  }

  /** A page number left over from a longer table shows no rows. */
  lemma StalePageEmpty(data: seq<Row>, pageSize: nat, currentPage: nat)
    requires pageSize > 0 && |data| > pageSize
    requires currentPage >= TotalPages(|data|, pageSize)
    ensures var v := Render(data, pageSize, currentPage).value;
      && v.displayData == [] && v.startRow > v.endRow
  {
    var t := TotalPages(|data|, pageSize);
    ExcelUtils.CeilBounds(|data|, pageSize);
    ExcelUtils.MulMonotone(t, currentPage, pageSize);
  }

  /** Previous: `Math.max(0, currentPage - 1)`. */
  function Previous(currentPage: nat): (p: nat)
    ensures p <= currentPage
    ensures currentPage > 0 ==> p + 1 == currentPage
  {
    if currentPage == 0 then 0 else currentPage - 1
  }

  /** Next: `Math.min(totalPages - 1, currentPage + 1)`. */
  function Next(currentPage: nat, totalPages: nat): (p: nat)
    requires totalPages >= 1
    ensures p <= totalPages - 1
    ensures currentPage < totalPages - 1 ==> p == currentPage + 1
  {
    if currentPage + 1 < totalPages - 1 then currentPage + 1 else totalPages - 1
  }

  /** The buttons keep an in-range page in range, and each undoes the
      other away from the ends. */
  lemma NavigationInRange(currentPage: nat, totalPages: nat)
    requires totalPages >= 1 && currentPage <= totalPages - 1
    ensures Previous(currentPage) <= totalPages - 1
    ensures Next(currentPage, totalPages) <= totalPages - 1
    ensures currentPage < totalPages - 1 ==> Previous(Next(currentPage, totalPages)) == currentPage
    ensures currentPage > 0 ==> Next(Previous(currentPage), totalPages) == currentPage
  {
  }
}
