/**
 * The index pages (compose/index.go): the page number from the URL, the
 * page count over the published posts, the validity test and the window of
 * the listing each page shows.
 */
module Index {
  import opened Store
  import Posts

  /** The "page" URL parameter: empty, or the result of strconv.Atoi on it
      (the value Atoi returns and whether it reported an error). */
  datatype PageParam = Empty | Digits(value: int, atoiFailed: bool)

  /** The page the handler goes on with: 1 for an empty parameter, otherwise
      whatever Atoi returned, even after an error. */
  function RequestedPage(param: PageParam): (page: int)
    ensures param.Empty? ==> page == 1
  {
    match param
    case Empty => 1
    case Digits(value, _) => value
  }

  /** numPages: total / perPage, plus one when the division leaves a remainder,
      which is the ceiling of total / perPage. */
  function NumPages(total: nat, perPage: nat): (n: nat)
    requires perPage > 0
    ensures total <= n * perPage
    ensures n == 0 || (n - 1) * perPage < total
    ensures n == 0 <==> total == 0
  {
    var q := total / perPage;
    assert total == q * perPage + total % perPage;
    if total % perPage != 0 then q + 1 else q
  }

  /** NumPages is the only count of pages that covers `total` without an empty last page. */
  lemma {:induction false} NumPagesIsCeiling(total: nat, perPage: nat, n: nat)
    requires perPage > 0
    requires total <= n * perPage && (n == 0 || (n - 1) * perPage < total)
    ensures n == NumPages(total, perPage)
  {
    var m := NumPages(total, perPage);
    if n < m {
      MultiplyMonotone(n, m - 1, perPage);
      assert false;
    } else if m < n {
      MultiplyMonotone(m, n - 1, perPage);
      assert false;
    }
  }

  lemma MultiplyMonotone(a: nat, b: nat, c: nat)
    requires a <= b
    ensures a * c <= b * c
  {
  }

  /** The validity test: page 1 always, any other page only within 1..numPages. */
  function PageIsValid(page: int, numPages: nat): (valid: bool)
    ensures valid <==> page == 1 || 1 < page <= numPages
  {
    !(page < 1 || (page != 1 && page > numPages))
  }

  /** The listing offset of a page: the pages before it, each perPage posts long. */
  function Offset(page: int, perPage: nat): (o: int)
    ensures 1 <= page ==> 0 <= o
    ensures 1 <= page && perPage > 0 ==> o / perPage == page - 1 && o % perPage == 0
  {
    var o := (page - 1) * perPage;
    assert 1 <= page && perPage > 0 ==> o / perPage == page - 1 && o % perPage == 0 by {
      if 1 <= page && perPage > 0 { ExactDivision(page - 1, perPage); }
    }
    o
  }

  /** Euclidean division of a multiple of `b` by `b` is exact. */
  lemma {:induction false} ExactDivision(a: int, b: nat)
    requires b > 0
    ensures (a * b) / b == a && (a * b) % b == 0
  {
    var x := a * b;
    var q, r := x / b, x % b;
    assert x == q * b + r;
    assert (a - q) * b == r;
    if a - q >= 1 {
      MultiplyMonotone(1, a - q, b);
    } else if a - q <= -1 {
      assert (q - a) * b == -r;
      MultiplyMonotone(1, q - a, b);
    }
  }

  /** Every valid page after the first starts inside the published posts. */
  lemma {:induction false} ValidPageStartsInside(total: nat, perPage: nat, page: int)
    requires perPage > 0
    requires PageIsValid(page, NumPages(total, perPage)) && page > 1
    ensures 0 <= Offset(page, perPage) < total
  {
    var n := NumPages(total, perPage);
    MultiplyMonotone(page - 1, n - 1, perPage);
  }

  /** Every published post, the k-th of the listing, is shown on a valid page:
      page k / perPage + 1, whose window starts at or before k and ends after it. */
  lemma {:induction false} EveryPostHasAPage(total: nat, perPage: nat, k: nat)
    requires perPage > 0 && k < total
    ensures var page := k / perPage + 1;
            && PageIsValid(page, NumPages(total, perPage))
            && Offset(page, perPage) <= k < Offset(page, perPage) + perPage
  {
    var q := k / perPage;
    var n := NumPages(total, perPage);
    assert k == q * perPage + k % perPage;
    assert Offset(q + 1, perPage) == q * perPage;
    if n <= q {
      MultiplyMonotone(n, q, perPage);
      assert false;
    }
  }

  /** What the template receives, 404 for an invalid page, or the panic of
      the integer division when config.IndexPostsPerPage is 0. */
  datatype IndexOutcome =
    | IndexNotFound
    | IndexRender(posts: seq<Post>, currentPage: int, totalPages: nat)
    | IndexPanic

  /** `internalError` records the 500 that a failed Atoi writes before the handler goes on. */
  datatype IndexResponse = IndexResponse(internalError: bool, outcome: IndexOutcome)

  /**
   * IndexHandler: counts the published posts, computes the page count and
   * answers 404 for an invalid page, performing no listing. A valid page
   * lists perPage published posts starting at its offset. `perPage` is
   * config.IndexPostsPerPage; when it is 0 the page count divides by zero
   * and the handler panics.
   */
  function IndexHandler(posts: map<ObjectId, Post>, param: PageParam, perPage: nat): (r: IndexResponse)
    ensures r.internalError <==> param.Digits? && param.atoiFailed
    ensures r.outcome.IndexPanic? <==> perPage == 0
    ensures perPage > 0 ==>
            var page := RequestedPage(param);
            var total := Posts.CountPosts(posts, false);
            && (r.outcome.IndexNotFound? <==> !PageIsValid(page, NumPages(total, perPage)))
            && (r.outcome.IndexRender? ==>
                  && r.outcome.currentPage == page
                  && r.outcome.totalPages == NumPages(total, perPage)
                  && r.outcome.posts == Posts.ListPosts(posts, Offset(page, perPage), perPage, false)
                  && 1 <= page
                  && |r.outcome.posts| <= perPage
                  && (|r.outcome.posts| == 0 <==> total == 0)
                  && forall i | 0 <= i < |r.outcome.posts| :: !r.outcome.posts[i].header.draft)
  {
    var atoiFailed := param.Digits? && param.atoiFailed;
    if perPage == 0 then
      IndexResponse(atoiFailed, IndexPanic)
    else
      var page := RequestedPage(param);
      var total := Posts.CountPosts(posts, false);
      var numPages := NumPages(total, perPage);
      if !PageIsValid(page, numPages) then
        IndexResponse(atoiFailed, IndexNotFound)
      else
        var listed := Posts.ListPosts(posts, Offset(page, perPage), perPage, false);
        assert page > 1 ==> Offset(page, perPage) < total by {
          if page > 1 { ValidPageStartsInside(total, perPage, page); }
        }
        IndexResponse(atoiFailed, IndexRender(listed, page, numPages))
  }

  /** An empty page parameter shows page 1, which is valid even when nothing is published. */
  lemma EmptyParamShowsFirstPage(posts: map<ObjectId, Post>, perPage: nat)
    requires perPage > 0
    ensures IndexHandler(posts, Empty, perPage)
            == IndexResponse(false, IndexRender(Posts.ListPosts(posts, 0, perPage, false), 1,
                                                NumPages(Posts.CountPosts(posts, false), perPage)))
  {
  }
}
