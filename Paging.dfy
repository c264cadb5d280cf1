/** Count-then-window pagination of a query and the page it returns. The
    query is the sequence of rows it would yield, in its order. */
module Paging {

  const MinInt32: int := -0x8000_0000
  const MaxInt32: int := 0x7fff_ffff

  type Int32 = x: int | MinInt32 <= x <= MaxInt32

  /** Unchecked 32-bit arithmetic: the result wraps around. */
  function Wrap32(x: int): (r: Int32)
    ensures MinInt32 <= x <= MaxInt32 ==> r == x
  {
    (x - MinInt32) % 0x1_0000_0000 + MinInt32
  }

  /** A page of results. The two flags are read from `index` and
      `totalPages` every time and are never stored. */
  datatype Paginate<T> = Paginate(size: Int32, index: Int32, totalCount: nat, totalPages: nat, items: seq<T>)
  {
    predicate HasPreviousPage() {
      index > 0
    }

    predicate HasNextPage() {
      Wrap32(index + 1) < totalPages
    }
  }

  /** `new Paginate<T>()`: every number zero and no items. */
  function NewPaginate<T>(): (p: Paginate<T>)
    ensures p.items == [] && p.totalCount == 0
    ensures !p.HasPreviousPage() && !p.HasNextPage()
  {
    Paginate(0, 0, 0, 0, [])
  }

  /** LINQ `Skip`: a count of zero or less skips nothing. */
  function Skip<T>(s: seq<T>, n: int): (r: seq<T>)
    ensures n <= 0 ==> r == s
    ensures 0 <= n <= |s| ==> r == s[n..]
    ensures n >= |s| ==> r == []
  {
    if n <= 0 then s else if n >= |s| then [] else s[n..]
  }

  /** LINQ `Take`: at most `n` leading elements. */
  function Take<T>(s: seq<T>, n: int): (r: seq<T>)
    ensures n <= 0 ==> r == []
    ensures 0 <= n <= |s| ==> r == s[..n]
    ensures n >= |s| ==> r == s
  {
    if n <= 0 then [] else if n >= |s| then s else s[..n]
  }

  /** `(int)Math.Ceiling(count / (double)size)`; for counts that fit an int
      the double quotient is close enough that the ceiling is exact. */
  function CeilDiv(count: nat, size: nat): nat
    requires size > 0
  {
    (count + size - 1) / size
  }

  /** `PaginateAsync(query, index, size)`: count the whole query, then take
      the window that starts at `index * size` (a 32-bit product). */
  function PaginateQuery<T>(query: seq<T>, index: Int32, size: Int32): (p: Paginate<T>)
    requires size > 0
    ensures p.index == index && p.size == size
    ensures p.totalCount == |query|
    ensures |p.items| <= size
    ensures forall x :: x in p.items ==> x in query
  {
    var count := |query|;
    var items := Take(Skip(query, Wrap32(index * size)), size);
    Paginate(size, index, count, CeilDiv(count, size), items)
  }

  /** m * s <= n exactly when m <= n / s (for s > 0). */
  lemma DivFloor(n: nat, s: nat, m: nat)
    requires s > 0
    ensures m * s <= n <==> m <= n / s
  {
    var q, r := n / s, n % s;
    assert n == q * s + r && 0 <= r < s;
    if m <= q {
      MulMono(m, q, s);
    } else {
      MulMono(q + 1, m, s);
    }
  }

  lemma MulMono(a: nat, b: nat, s: nat)
    requires a <= b
    ensures a * s <= b * s
  {
    assert b * s == a * s + (b - a) * s;
  }

  lemma DivLeLemma(n: nat, s: nat, bound: nat)
    requires s > 0 && n < bound + s
    ensures n / s <= bound
  {
    DivFloor(n, s, bound + 1);
    MulMono(1, s, bound);
    assert (bound + 1) * s == bound * s + s;
  }

  /** `TotalPages` is the ceiling of count / size: enough pages to hold every
      row, and one fewer would not be. No rows means no pages. */
  lemma TotalPagesIsCeiling(count: nat, size: nat)
    requires size > 0
    ensures CeilDiv(count, size) * size >= count
    ensures CeilDiv(count, size) == 0 || (CeilDiv(count, size) - 1) * size < count
    ensures count == 0 <==> CeilDiv(count, size) == 0
  {
    var t := CeilDiv(count, size);
    var n := count + size - 1;
    DivFloor(n, size, t);
    assert t * size <= n;
    var r := n % size;
    assert n == t * size + r && r < size;
    if t > 0 {
      assert (t - 1) * size == t * size - size;
    }
    if count == 0 {
      DivLeLemma(n, size, 0);
    } else {
      DivFloor(n, size, 1);
    }
  }

  /** Away from 32-bit overflow the items are the contiguous slice that
      starts at `index * size`, at most `size` rows, in query order; a
      window past the end is empty while the counts stay right. */
  lemma PaginateWindow<T>(query: seq<T>, index: Int32, size: Int32)
    requires size > 0
    requires 0 <= index && 0 <= index * size <= MaxInt32
    ensures var p := PaginateQuery(query, index, size);
      p.items == Window(query, index * size, size) &&
      p.totalPages == CeilDiv(|query|, size)
  {
    MulMono(0, index, size);
    assert Wrap32(index * size) == index * size;
    WindowIsSlice(query, index * size, size);
  }

  /** The rows from `start`, at most `size` of them, clamped to the query. */
  function Window<T>(query: seq<T>, start: nat, size: nat): seq<T> {
    if start >= |query| then []
    else if start + size >= |query| then query[start..]
    else query[start .. start + size]
  }

  lemma WindowIsSlice<T>(query: seq<T>, start: nat, size: nat)
    ensures Take(Skip(query, start), size) == Window(query, start, size)
  {
    if start < |query| && start + size < |query| {
      assert query[start..][..size] == query[start .. start + size];
    }
  }

  /** There is a next page exactly when rows remain after this page, and a
      previous one exactly when this is not the first page. */
  lemma PageFlags<T>(query: seq<T>, index: Int32, size: Int32)
    requires size > 0
    requires 0 <= index < MaxInt32
    ensures var p := PaginateQuery(query, index, size);
      (p.HasNextPage() <==> (index + 1) * size < |query|) &&
      (p.HasPreviousPage() <==> index > 0)
  {
    var c := |query|;
    var t := CeilDiv(c, size);
    assert Wrap32(index + 1) == index + 1;
    TotalPagesIsCeiling(c, size);
    var k := index + 1;
    if k < t {
      MulMono(k, t - 1, size);
    } else {
      MulMono(t, k, size);
    }
  }

  /** On the last page, and on the empty result at index 0, there is no next page. */
  lemma NoNextPageAtEnd<T>(p: Paginate<T>)
    requires 0 <= p.index < MaxInt32
    requires p.index + 1 == p.totalPages || (p.index == 0 && p.totalPages == 0)
    ensures !p.HasNextPage()
    ensures p.HasPreviousPage() <==> p.totalPages > 1
  {
  }

  /** `Index + 1` overflows at the largest index, so that page claims a next page
      whatever the page count. */
  lemma NextPageAtLargestIndex<T>(p: Paginate<T>)
    requires p.index == MaxInt32
    ensures p.HasNextPage()
  {
    assert Wrap32(p.index + 1) == MinInt32;
  }
}
