/** The paging arithmetic of the posts listing: which slice of the
    newest-first result a page number and a page size select. */
module Pagination {

  const DEFAULT_PAGE: int := 1
  const DEFAULT_LIMIT: int := 10

  /** `skip = (page - 1) * limit`: the rows in front of the requested page. */
  function Offset(page: int, limit: int): nat
    requires page >= 1 && limit >= 0
  {
    MulNonNegative(page - 1, limit);
    (page - 1) * limit
  }

  lemma MulNonNegative(a: int, b: int)
    requires a >= 0 && b >= 0
    ensures a * b >= 0
  {
  }

  /** The query's `skip`/`take` over an ordered result: at most `take` rows,
      read in order from position `skip`, and as many as remain when fewer than
      `take` do. */
  function Window<T>(s: seq<T>, skip: nat, take: nat): (w: seq<T>)
    ensures |w| <= take
    ensures forall i :: 0 <= i < |w| ==> skip + i < |s| && w[i] == s[skip + i]
    ensures |w| == take || skip + |w| >= |s|
  {
    if skip >= |s| then []
    else s[skip .. if skip + take < |s| then skip + take else |s|]
  }

  /** Every position of the result is shown on page `k / limit + 1`. */
  lemma PositionOnItsPage<T>(s: seq<T>, limit: int, k: int)
    requires limit >= 1 && 0 <= k < |s|
    ensures var skip := Offset(k / limit + 1, limit);
      && skip <= k < skip + |Window(s, skip, limit)|
      && Window(s, skip, limit)[k - skip] == s[k]
  {
    var q := k / limit;
    assert k == q * limit + k % limit;
    assert Offset(q + 1, limit) == q * limit;
  }

  /** No position is shown on two pages: the i-th row of page `page` is the
      position whose page is `page`. */
  lemma PageHoldsOnlyItsPositions<T>(s: seq<T>, page: int, limit: int, i: int)
    requires limit >= 1 && page >= 1
    requires 0 <= i < |Window(s, Offset(page, limit), limit)|
    ensures (Offset(page, limit) + i) / limit + 1 == page
  {
    var q := page - 1;
    DivOfMultiplePlus(q, limit, i);
  }

  lemma DivOfMultiplePlus(q: int, d: int, r: int)
    requires q >= 0 && d >= 1 && 0 <= r < d
    ensures (q * d + r) / d == q
  {
    var n := q * d + r;
    var q' := n / d;
    assert n == q' * d + n % d;
    if q' < q {
      assert (q - q') * d >= d by { MulAtLeast(q - q', d); }
    } else if q' > q {
      assert (q' - q) * d >= d by { MulAtLeast(q' - q, d); }
    }
  }

  lemma MulAtLeast(a: int, d: int)
    requires a >= 1 && d >= 1
    ensures a * d >= d
  {
  }
}
