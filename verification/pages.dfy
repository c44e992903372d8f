/** What `data_pagination` of datasets/utils.py returns for each page
    number, stated over the rows of the content rather than over the chunks. */
module Pages {
  import opened Results
  import opened Pagination

  /** The rows of chunk `p`: from `Start(p, n)` up to `n` of them. */
  function PageSlice<T>(content: seq<T>, n: nat, p: nat): (rows: seq<T>)
    requires 0 < n && p < NumPages(|content|, n)
    ensures 0 < |rows| <= n
  {
    ChunkAt(content, n, p);
    content[Start(p, n) .. Min(Start(p, n) + n, |content|)]
  }

  /** A page number that selects chunk `i` yields the truthy rows of chunk `i`. */
  lemma PageAt<T>(content: seq<T>, page: int, pageSize: int, truthy: T -> bool, i: nat)
    requires 0 < Abs(pageSize)
    requires PyIndex(NumPages(|content|, Abs(pageSize)), page - 1) == Some(i)
    ensures i < NumPages(|content|, Abs(pageSize))
    ensures DataPagination(content, page, pageSize, truthy)
         == Ok(Truthy(PageSlice(content, Abs(pageSize), i), truthy))
  {
    KeepChunk(content, Abs(pageSize), truthy, i);
  }

  /** Filtering chunk `i` keeps the truthy rows of its slice. */
  lemma KeepChunk<T>(content: seq<T>, n: nat, truthy: T -> bool, i: nat)
    requires 0 < n && i < NumPages(|content|, n)
    ensures i < |Chunks(content, n)|
    ensures Keep(Chunks(content, n)[i], truthy) == Truthy(PageSlice(content, n, i), truthy)
  {
    ChunkIsPage(content, n, i);
    KeepPad(PageSlice(content, n, i), n, truthy);
  }

  /** Chunk `i` is the rows of its slice followed by padding. */
  lemma ChunkIsPage<T>(content: seq<T>, n: nat, i: nat)
    requires 0 < n && i < NumPages(|content|, n)
    ensures i < |Chunks(content, n)|
    ensures Chunks(content, n)[i] == Pad(PageSlice(content, n, i), n)
  {
    ChunkAt(content, n, i);
  }

  /** Page `page` in `1..NumPages` is the truthy part of chunk `page - 1`. */
  lemma PositivePage<T>(content: seq<T>, page: int, pageSize: int, truthy: T -> bool)
    requires Abs(pageSize) > 0
    requires 1 <= page <= NumPages(|content|, Abs(pageSize))
    ensures DataPagination(content, page, pageSize, truthy)
         == Ok(Truthy(PageSlice(content, Abs(pageSize), page - 1), truthy))
  {
    PageAt(content, page, pageSize, truthy, page - 1);
  }

  /** Without falsy rows, page `page` in `1..NumPages` is exactly rows
      `Start(page-1) .. min(Start(page-1) + n, len)`, that is (by
      `StartIsProduct`) rows `(page-1)*n .. min(page*n, len)`. */
  lemma PositivePageSlice<T>(content: seq<T>, page: int, pageSize: int, truthy: T -> bool)
    requires forall i :: 0 <= i < |content| ==> truthy(content[i])
    requires Abs(pageSize) > 0
    requires 1 <= page <= NumPages(|content|, Abs(pageSize))
    ensures Start(page - 1, Abs(pageSize)) < |content|
    ensures DataPagination(content, page, pageSize, truthy)
         == Ok(content[Start(page - 1, Abs(pageSize)) .. Min(Start(page - 1, Abs(pageSize)) + Abs(pageSize), |content|)])
  {
    PositivePage(content, page, pageSize, truthy);
    ChunkAt(content, Abs(pageSize), page - 1);
    TruthyAll(PageSlice(content, Abs(pageSize), page - 1), truthy);
  }

  /** A page number of zero or below counts chunks from the end, as Python list
      indexing does: while `-page` is below the number of chunks `k`, page
      `page` is page `k + page`. */
  lemma NonPositivePage<T>(content: seq<T>, page: int, pageSize: int, truthy: T -> bool)
    requires page <= 0 && -page < NumPages(|content|, Abs(pageSize))
    ensures 1 <= NumPages(|content|, Abs(pageSize)) + page
    ensures DataPagination(content, page, pageSize, truthy)
         == DataPagination(content, NumPages(|content|, Abs(pageSize)) + page, pageSize, truthy)
  {
    var k := NumPages(|content|, Abs(pageSize));
    WrapIndex(k, page);
    SameChunk(content, page, k + page, pageSize, truthy);
  }

  /** Python indexing: position `page - 1 < 0` is position `k + page - 1`. */
  lemma WrapIndex(k: nat, page: int)
    requires page <= 0 && -page < k
    ensures PyIndex(k, page - 1) == PyIndex(k, (k + page) - 1) == Some(k + page - 1)
  {
  }

  /** Two page numbers that pick the same chunk give the same answer. */
  lemma SameChunk<T>(content: seq<T>, page: int, other: int, pageSize: int, truthy: T -> bool)
    requires PyIndex(NumPages(|content|, Abs(pageSize)), page - 1) == PyIndex(NumPages(|content|, Abs(pageSize)), other - 1)
    ensures DataPagination(content, page, pageSize, truthy) == DataPagination(content, other, pageSize, truthy)
  {
  }

  /** A negative page size behaves exactly as its absolute value. */
  lemma NegativePageSize<T>(content: seq<T>, page: int, pageSize: int, truthy: T -> bool)
    ensures DataPagination(content, page, -pageSize, truthy) == DataPagination(content, page, pageSize, truthy)
  {
  }

  /** Pages `1..k` of the content, concatenated. */
  function PagesUpTo<T>(content: seq<T>, pageSize: int, truthy: T -> bool, k: nat): seq<T>
    requires k <= NumPages(|content|, Abs(pageSize))
  {
    if k == 0 then []
    else PagesUpTo(content, pageSize, truthy, k - 1) + DataPagination(content, k, pageSize, truthy).value
  }

  /** The pages together are long enough for every row. */
  lemma {:induction false} PagesSuffice(len: nat, n: nat)
    requires 0 < n
    ensures len <= Start(NumPages(len, n), n)
    decreases len
  {
    if len > 0 {
      PagesSuffice(len - Min(n, len), n);
    }
  }

  /** Without falsy rows, the pages in order reassemble the content. */
  lemma PagesCoverContent<T>(content: seq<T>, pageSize: int, truthy: T -> bool)
    requires forall i :: 0 <= i < |content| ==> truthy(content[i])
    requires Abs(pageSize) > 0
    ensures PagesUpTo(content, pageSize, truthy, NumPages(|content|, Abs(pageSize))) == content
  {
    var n := Abs(pageSize);
    var k := NumPages(|content|, n);
    PagesPrefix(content, pageSize, truthy, k);
    PagesSuffice(|content|, n);
    assert Min(Start(k, n), |content|) == |content|;
  }

  /** Pages `1..k` reassemble the first `min(Start(k), len)` rows. */
  lemma {:induction false} PagesPrefix<T>(content: seq<T>, pageSize: int, truthy: T -> bool, k: nat)
    requires forall i :: 0 <= i < |content| ==> truthy(content[i])
    requires Abs(pageSize) > 0 && k <= NumPages(|content|, Abs(pageSize))
    ensures PagesUpTo(content, pageSize, truthy, k) == content[..Min(Start(k, Abs(pageSize)), |content|)]
    decreases k
  {
    if k > 0 {
      PagesPrefix(content, pageSize, truthy, k - 1);
      PagesStep(content, pageSize, truthy, k);
    }
  }

  /** Page `k` continues the rows that pages `1..k-1` stopped at. */
  lemma PagesStep<T>(content: seq<T>, pageSize: int, truthy: T -> bool, k: nat)
    requires forall i :: 0 <= i < |content| ==> truthy(content[i])
    requires Abs(pageSize) > 0 && 0 < k <= NumPages(|content|, Abs(pageSize))
    requires PagesUpTo(content, pageSize, truthy, k - 1) == content[..Min(Start(k - 1, Abs(pageSize)), |content|)]
    ensures PagesUpTo(content, pageSize, truthy, k) == content[..Min(Start(k, Abs(pageSize)), |content|)]
  {
    var n := Abs(pageSize);
    PositivePageSlice(content, k, pageSize, truthy);
    var lo := Start(k - 1, n);
    var hi := Min(lo + n, |content|);
    assert PagesUpTo(content, pageSize, truthy, k) == content[..lo] + content[lo..hi];
    assert content[..lo] + content[lo..hi] == content[..hi];
  }
}
