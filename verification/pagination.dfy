/** `data_pagination` of datasets/utils.py: rows are grouped into chunks of
    `abs(page_size)` with `zip_longest` over one shared iterator, the requested
    chunk is picked with Python list indexing, and `filter(None, ...)` drops the
    falsy entries of that chunk. Rows are of any type; Python truthiness of a row
    is the caller-supplied `truthy`. */
module Pagination {
  import opened Results

  const PageNotFound := "The specified page does not exist"

  function Abs(x: int): nat {
    if x < 0 then -x else x
  }

  function Min(a: int, b: int): int {
    if a <= b then a else b
  }

  /** The number of chunks of `n` rows that `len` rows fill, the last one
      possibly short; none at all when `n` is zero (`zip_longest` over no
      iterators yields nothing). `NumPagesIsCeil` shows it is `ceil(len / n)`. */
  function NumPages(len: nat, n: nat): nat
    decreases len
  {
    if n == 0 || len == 0 then 0 else 1 + NumPages(len - Min(n, len), n)
  }

  /** Rows of a chunk that came from the content. */
  function Lift<T>(xs: seq<T>): (ys: seq<Option<T>>)
    ensures |ys| == |xs|
  {
    if |xs| == 0 then [] else [Some(xs[0])] + Lift(xs[1..])
  }

  /** The `None` fill `zip_longest` appends to a short last chunk. */
  function Fill<T>(k: nat): (ys: seq<Option<T>>)
    ensures |ys| == k
  {
    if k == 0 then [] else [None] + Fill(k - 1)
  }

  /** One chunk of `n` entries holding `xs` followed by padding. */
  function Pad<T>(xs: seq<T>, n: nat): (ys: seq<Option<T>>)
    requires |xs| <= n
    ensures |ys| == n
  {
    Lift(xs) + Fill(n - |xs|)
  }

  /** `list(zip_longest(*(iter(content),) * n))`: consecutive chunks of `n`
      rows, the last one padded. */
  function Chunks<T>(content: seq<T>, n: nat): (chunks: seq<seq<Option<T>>>)
    ensures |chunks| == NumPages(|content|, n)
    decreases |content|
  {
    if n == 0 || |content| == 0 then []
    else
      var m := Min(n, |content|);
      [Pad(content[..m], n)] + Chunks(content[m..], n)
  }

  /** Python's `xs[i]` on a list of length `len`: negative positions count from
      the end; anything else outside the list raises `IndexError`. */
  function PyIndex(len: nat, i: int): (r: Option<nat>)
    ensures r.Some? <==> -(len as int) <= i < len
    ensures r.Some? ==> r.value < len && (r.value == i || r.value == len + i)
  {
    if 0 <= i < len then Some(i)
    else if -(len as int) <= i < 0 then Some(len + i)
    else None
  }

  /** `filter(None, chunk)`: keeps the present, truthy entries in order. */
  function Keep<T>(chunk: seq<Option<T>>, truthy: T -> bool): (r: seq<T>)
    ensures |r| <= |chunk|
    ensures forall i :: 0 <= i < |r| ==> truthy(r[i])
    decreases |chunk|
  {
    if |chunk| == 0 then []
    else
      var rest := Keep(chunk[1..], truthy);
      match chunk[0]
      case Some(x) => if truthy(x) then [x] + rest else rest
      case None => rest
  }

  /** The truthy rows of `xs` in order. */
  function Truthy<T>(xs: seq<T>, truthy: T -> bool): seq<T>
    decreases |xs|
  {
    if |xs| == 0 then []
    else if truthy(xs[0]) then [xs[0]] + Truthy(xs[1..], truthy)
    else Truthy(xs[1..], truthy)
  }

  /** `data_pagination(content, page, page_size)`. */
  function DataPagination<T>(content: seq<T>, page: int, pageSize: int, truthy: T -> bool): (r: Result<seq<T>>)
    ensures r.Err? <==> !(1 - NumPages(|content|, Abs(pageSize)) <= page <= NumPages(|content|, Abs(pageSize)))
    ensures r.Err? ==> r.error == Error(NotFound, PageNotFound)
    ensures r.Ok? ==> |r.value| <= Abs(pageSize)
    ensures r.Ok? ==> forall i :: 0 <= i < |r.value| ==> truthy(r.value[i])
  {
    var chunks := Chunks(content, Abs(pageSize));
    match PyIndex(|chunks|, page - 1)
    case None => Err(Error(NotFound, PageNotFound))
    case Some(i) => ChunkLength(content, Abs(pageSize), i); Ok(Keep(chunks[i], truthy))
  }

  lemma DivUnique(x: int, n: int, q: int, r: int)
    requires 0 < n && 0 <= r < n && x == q * n + r
    ensures x / n == q
  {
    var q' := x / n;
    var r' := x % n;
    assert x == q' * n + r';
    if q' < q {
      assert q' * n + n <= q * n by { MulMono(q' + 1, q, n); MulSucc(q', n); }
    } else if q' > q {
      assert q * n + n <= q' * n by { MulMono(q + 1, q', n); MulSucc(q, n); }
    }
  }

  lemma MulSucc(i: int, n: int)
    ensures (i + 1) * n == i * n + n
  {
  }

  lemma MulMono(a: int, b: int, n: int)
    requires a <= b && 0 <= n
    ensures a * n <= b * n
  {
  }

  /** Removing one full chunk removes one page. */
  lemma DivStep(len: nat, n: nat)
    requires 0 < n <= len
    ensures (len + n - 1) / n == 1 + (len - n + n - 1) / n
  {
    var a := len - 1;
    DivUnique(a, n, a / n, a % n);
    DivUnique(a + n, n, a / n + 1, a % n);
    MulSucc(a / n, n);
    DivUnique(a - n + n, n, a / n, a % n);
  }

  /** A non-empty content shorter than one chunk fills exactly one page. */
  lemma DivOne(len: nat, n: nat)
    requires 0 < len <= n
    ensures (len + n - 1) / n == 1
  {
    DivUnique(len + n - 1, n, 1, len - 1);
  }

  /** For a positive page size the number of pages is `ceil(len / n)`. */
  lemma {:induction false} NumPagesIsCeil(len: nat, n: nat)
    requires 0 < n
    ensures NumPages(len, n) == (len + n - 1) / n
    decreases len
  {
    if len == 0 {
      DivUnique(n - 1, n, 0, n - 1);
    } else if len <= n {
      NumPagesIsCeil(0, n);
      DivOne(len, n);
    } else {
      NumPagesIsCeil(len - n, n);
      DivStep(len, n);
    }
  }

  /** Every chunk holds exactly `n` entries. */
  lemma {:induction false} ChunkLength<T>(content: seq<T>, n: nat, i: nat)
    requires i < |Chunks(content, n)|
    ensures |Chunks(content, n)[i]| == n
    decreases |content|
  {
    var m := Min(n, |content|);
    assert Chunks(content, n) == [Pad(content[..m], n)] + Chunks(content[m..], n);
    if i > 0 {
      ChunkLength(content[m..], n, i - 1);
    }
  }

  /** The first chunk, then the chunks of the rest. */
  lemma ChunksCons<T>(content: seq<T>, n: nat, i: nat)
    requires 0 < n && 0 < |content|
    requires i < |Chunks(content, n)|
    ensures i == 0 ==> Chunks(content, n)[i] == Pad(content[..Min(n, |content|)], n)
    ensures 0 < i ==> i - 1 < |Chunks(content[Min(n, |content|)..], n)|
                      && Chunks(content, n)[i] == Chunks(content[Min(n, |content|)..], n)[i - 1]
  {
    var m := Min(n, |content|);
    assert Chunks(content, n) == [Pad(content[..m], n)] + Chunks(content[m..], n);
  }

  /** The first row of chunk `i`: `i * n`, written as repeated addition so
      that the chunk lemmas stay within linear arithmetic. */
  function Start(i: nat, n: nat): nat {
    if i == 0 then 0 else Start(i - 1, n) + n
  }

  lemma {:induction false} StartIsProduct(i: nat, n: nat)
    ensures Start(i, n) == i * n
  {
    if i > 0 {
      StartIsProduct(i - 1, n);
      MulSucc(i - 1, n);
    }
  }

  /** Chunk `i` holds rows `Start(i)` up to `Start(i+1)` (or the end), then padding. */
  lemma {:induction false} ChunkAt<T>(content: seq<T>, n: nat, i: nat)
    requires 0 < n && i < NumPages(|content|, n)
    ensures Start(i, n) < |content|
    ensures i < |Chunks(content, n)|
    ensures Chunks(content, n)[i] == Pad(content[Start(i, n) .. Min(Start(i, n) + n, |content|)], n)
    decreases i
  {
    if i == 0 {
      ChunksCons(content, n, 0);
    } else {
      assert n < |content|;
      ChunkAt(content[n..], n, i - 1);
      ChunkAtStep(content, n, i);
    }
  }

  /** Chunk `i` of the content is chunk `i-1` of the rows after the first chunk. */
  lemma ChunkAtStep<T>(content: seq<T>, n: nat, i: nat)
    requires 0 < n < |content| && 0 < i < |Chunks(content, n)|
    requires Start(i - 1, n) < |content[n..]|
    requires i - 1 < |Chunks(content[n..], n)|
    requires Chunks(content[n..], n)[i - 1]
          == Pad(content[n..][Start(i - 1, n) .. Min(Start(i - 1, n) + n, |content[n..]|)], n)
    ensures Start(i, n) < |content|
    ensures Chunks(content, n)[i] == Pad(content[Start(i, n) .. Min(Start(i, n) + n, |content|)], n)
  {
    ChunksCons(content, n, i);
    assert Min(n, |content|) == n;
    ShiftedChunk(content, n, i);
  }

  /** Rows `Start(i-1) ..` of the content without its first chunk are rows
      `Start(i) ..` of the content. */
  lemma ShiftedChunk<T>(content: seq<T>, n: nat, i: nat)
    requires 0 < n < |content| && 0 < i && Start(i - 1, n) < |content| - n
    ensures Start(i, n) < |content|
    ensures content[n..][Start(i - 1, n) .. Min(Start(i - 1, n) + n, |content| - n)]
         == content[Start(i, n) .. Min(Start(i, n) + n, |content|)]
  {
    var a := Start(i - 1, n);
    var lo := Start(i, n);
    assert lo == a + n;
    var rest := content[n..];
    var e := Min(a + n, |rest|);
    assert e + n == Min(lo + n, |content|);
    assert rest[a..e] == content[a + n .. e + n];
  }

  /** Filtering a padded chunk keeps exactly the truthy rows it was made from. */
  lemma {:induction false} KeepPad<T>(xs: seq<T>, n: nat, truthy: T -> bool)
    requires |xs| <= n
    ensures Keep(Pad(xs, n), truthy) == Truthy(xs, truthy)
    decreases |xs|
  {
    if |xs| == 0 {
      assert Pad(xs, n) == Fill(n);
      KeepFill<T>(n, truthy);
    } else {
      var c := Pad(xs, n);
      PadCons(xs, n);
      assert c[0] == Some(xs[0]) && c[1..] == Pad(xs[1..], n - 1);
      KeepPad(xs[1..], n - 1, truthy);
    }
  }

  /** A padded chunk starts with its first row, then pads the rest. */
  lemma PadCons<T>(xs: seq<T>, n: nat)
    requires 0 < |xs| <= n
    ensures Pad(xs, n) == [Some(xs[0])] + Pad(xs[1..], n - 1)
  {
    assert Lift(xs) == [Some(xs[0])] + Lift(xs[1..]);
    assert n - |xs| == (n - 1) - |xs[1..]|;
  }

  lemma {:induction false} KeepFill<T>(k: nat, truthy: T -> bool)
    ensures Keep(Fill<T>(k), truthy) == []
    decreases k
  {
    if k > 0 {
      assert Fill<T>(k)[1..] == Fill<T>(k - 1);
      KeepFill<T>(k - 1, truthy);
    }
  }

  lemma {:induction false} TruthyAll<T>(xs: seq<T>, truthy: T -> bool)
    requires forall i :: 0 <= i < |xs| ==> truthy(xs[i])
    ensures Truthy(xs, truthy) == xs
    decreases |xs|
  {
    if |xs| > 0 {
      TruthyAll(xs[1..], truthy);
    }
  }
}
