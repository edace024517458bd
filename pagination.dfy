/**
  The infinite-scroll listing of the product picker: the products loaded so
  far, the next page to ask for, whether the service may have more, and
  whether a request is in flight. The search service itself is not part of
  the model: a request is returned to the caller and its outcome comes back
  as a parameter (`Some(page)` when the call succeeded, `None` when it threw).
 */
module Pagination {
  import opened Catalog

  /** The `limit` sent with every request; a full page has this many products. */
  const PageSize: nat := 10

  /** The query parameters of one call to the product search service. */
  datatype Request = Request(search: string, page: nat, limit: nat)

  /** The four pieces of state of the listing. */
  datatype Listing = Listing(products: seq<Product>, page: nat, hasMore: bool, loading: bool)

  /** The state the listing starts in. */
  const Fresh: Listing := Listing([], 0, true, false)

  /** The guard of a fetch: nothing happens while a request is in flight or once the service ran out. */
  predicate Blocked(l: Listing) {
    l.loading || !l.hasMore
  }

  /**
    The request a fetch sends: none when blocked; otherwise the given term
    and page, each defaulting to the listing's own `search` and current page.
   */
  function Requested(l: Listing, search: string, searchTerm: Option<string>, pageNum: Option<nat>): (req: Option<Request>)
    ensures req.None? <==> Blocked(l)
    ensures req.Some? ==> req.value.limit == PageSize
    ensures req.Some? && searchTerm.None? ==> req.value.search == search
    ensures req.Some? && pageNum.None? ==> req.value.page == l.page
  {
    if Blocked(l) then None
    else Some(Request(searchTerm.GetOr(search), pageNum.GetOr(l.page), PageSize))
  }

  /**
    The listing once the outcome of a request for page `pageNum` is known:
    on success page 0 replaces the products and any other page is appended,
    `hasMore` says whether the page was full and the next page is the one
    after `pageNum`; on failure only `loading` changes.
   */
  function Settled(l: Listing, pageNum: nat, response: Option<seq<Product>>): Listing {
    match response
    case None => l.(loading := false)
    case Some(batch) =>
      Listing(if pageNum == 0 then batch else l.products + batch, pageNum + 1, |batch| == PageSize, false)
  }

  /** A whole fetch: the guard, then the outcome. */
  function Fetched(l: Listing, pageNum: Option<nat>, response: Option<seq<Product>>): Listing {
    if Blocked(l) then l else Settled(l.(loading := true), pageNum.GetOr(l.page), response)
  }

  /** The three writes of a new search, before it asks for page 0. */
  function Cleared(l: Listing): (r: Listing)
    ensures r.products == [] && r.page == 0 && r.hasMore
    ensures r.loading == l.loading
  {
    l.(products := [], page := 0, hasMore := true)
  }

  /** A blocked fetch changes nothing and sends nothing. */
  lemma BlockedFetchIsInert(l: Listing, search: string, searchTerm: Option<string>, pageNum: Option<nat>, response: Option<seq<Product>>)
    requires Blocked(l)
    ensures Fetched(l, pageNum, response) == l
    ensures Requested(l, search, searchTerm, pageNum) == None
  {
  }

  /** After a fetch that was let through, nothing is in flight any more, whatever the outcome. */
  lemma FetchEndsLoading(l: Listing, pageNum: Option<nat>, response: Option<seq<Product>>)
    requires !Blocked(l)
    ensures !Fetched(l, pageNum, response).loading
  {
  }

  /**
    A successful fetch: page 0 replaces the products and a later page is
    appended to them; `hasMore` is true exactly when the page was full; the
    page counter moves past the page fetched.
   */
  lemma SuccessfulFetch(l: Listing, pageNum: Option<nat>, batch: seq<Product>)
    requires !Blocked(l)
    ensures var r := Fetched(l, pageNum, Some(batch));
      && (pageNum.GetOr(l.page) == 0 ==> r.products == batch)
      && (pageNum.GetOr(l.page) != 0 ==> r.products == l.products + batch)
      && (r.hasMore <==> |batch| == PageSize)
      && r.page == pageNum.GetOr(l.page) + 1
  {
  }

  /** A failed fetch keeps the products, the page counter and `hasMore`. */
  lemma FailedFetch(l: Listing, pageNum: Option<nat>)
    ensures var r := Fetched(l, pageNum, None);
      r.products == l.products && r.page == l.page && r.hasMore == l.hasMore && (!Blocked(l) ==> !r.loading)
  {
  }

  /**
    What the listing keeps true while pages are fetched in order (each call
    asking for the current page, as the scroll handler does, and the service
    returning at most `PageSize` products): every page fetched so far
    delivered at most a page of products, and all of them were full while
    `hasMore` holds.
   */
  ghost predicate Counted(l: Listing) {
    |l.products| <= PageSize * l.page && (l.hasMore ==> |l.products| == PageSize * l.page)
  }

  /** Fetching the current page keeps the listing counted. */
  lemma {:induction false} FetchKeepsCounted(l: Listing, response: Option<seq<Product>>)
    requires Counted(l)
    requires response.Some? ==> |response.value| <= PageSize
    ensures Counted(Fetched(l, None, response))
  {
    if !Blocked(l) && response.Some? {
      var batch := response.value;
      var r := Fetched(l, None, response);
      if l.page == 0 {
        assert r.products == batch;
      } else {
        assert r.products == l.products + batch;
        assert |r.products| == |l.products| + |batch|;
      }
      assert r.page == l.page + 1;
      assert PageSize * r.page == PageSize * l.page + PageSize;
    }
  }

  /** Pages of 10, 10 and 7 products loaded in order from the start give 27 products and no more to load. */
  lemma ThreePages(p1: seq<Product>, p2: seq<Product>, p3: seq<Product>)
    requires |p1| == 10 && |p2| == 10 && |p3| == 7
    ensures var r := Fetched(Fetched(Fetched(Fresh, None, Some(p1)), None, Some(p2)), None, Some(p3));
      r.products == p1 + p2 + p3 && |r.products| == 27 && !r.hasMore && r.page == 3 && !r.loading
  {
    var a := Fetched(Fresh, None, Some(p1));
    assert a.products == p1 && a.hasMore && a.page == 1;
    var b := Fetched(a, None, Some(p2));
    assert b.products == p1 + p2 && b.hasMore && b.page == 2;
  }

  /** Once a short page arrives, further scroll fetches ask for nothing. */
  lemma ShortPageStopsFetching(l: Listing, search: string, batch: seq<Product>)
    requires !Blocked(l) && |batch| < PageSize
    ensures var r := Fetched(l, None, Some(batch));
      Requested(r, search, None, None) == None && Fetched(r, None, Some(batch)) == r
  {
    SuccessfulFetch(l, None, batch);
  }

  /**
    A fetch without arguments after a new search asks for the next page under
    the listing's own default term, not under the term just searched for.
   */
  lemma ScrollAfterSearch(l: Listing, search: string, term: string, batch: seq<Product>)
    requires !l.loading && |batch| == PageSize
    ensures var r := Fetched(Cleared(l), Some(0), Some(batch));
      && r.products == batch
      && Requested(r, search, None, None) == Some(Request(search, 1, PageSize))
      && (term != search ==> Requested(r, search, None, None).value.search != term)
  {
    SuccessfulFetch(Cleared(l), Some(0), batch);
  }

  /**
    The hook's state. `search` is the hook's argument, the default term of a
    fetch called without one.
   */
  class Pager {
    const search: string
    var products: seq<Product>
    var page: nat
    var hasMore: bool
    var loading: bool

    /** The four fields as one value. */
    function State(): Listing
      reads this
    {
      Listing(products, page, hasMore, loading)
    }

    constructor(search: string)
      ensures this.search == search && State() == Fresh
    {
      this.search := search;
      products, page, hasMore, loading := [], 0, true, false;
    }

    /** The start of a fetch: the guard, then `loading` goes up and the request is sent. */
    method Begin(searchTerm: Option<string>, pageNum: Option<nat>) returns (req: Option<Request>)
      modifies this
      ensures req == Requested(old(State()), search, searchTerm, pageNum)
      ensures State() == if req.None? then old(State()) else old(State()).(loading := true)
    {
      if loading || !hasMore {
        return None;
      }
      loading := true;
      req := Some(Request(searchTerm.GetOr(search), pageNum.GetOr(page), PageSize));
    }

    /** The end of a fetch for page `pageNum`: the outcome is written, and `loading` goes down either way. */
    method Complete(pageNum: nat, response: Option<seq<Product>>)
      modifies this
      ensures State() == Settled(old(State()), pageNum, response)
    {
      match response {
        case Some(batch) =>
          if pageNum == 0 {
            products := batch;
          } else {
            products := products + batch;
          }
          hasMore := |batch| == PageSize;
          page := pageNum + 1;
        case None =>
      }
      loading := false;
    }

    /** `fetchProducts(searchTerm, pageNum)`, with the service's answer given as `response`. */
    method Fetch(searchTerm: Option<string>, pageNum: Option<nat>, response: Option<seq<Product>>) returns (req: Option<Request>)
      modifies this
      ensures req == Requested(old(State()), search, searchTerm, pageNum)
      ensures State() == Fetched(old(State()), pageNum, response)
    {
      req := Begin(searchTerm, pageNum);
      if req.Some? {
        Complete(req.value.page, response);
      }
    }

    /** `resetSearch(term)`: clear the listing, then fetch page 0 for `term`. */
    method ResetSearch(term: string, response: Option<seq<Product>>) returns (req: Option<Request>)
      modifies this
      ensures req == Requested(Cleared(old(State())), search, Some(term), Some(0))
      ensures !old(loading) ==> req == Some(Request(term, 0, PageSize))
      ensures State() == Fetched(Cleared(old(State())), Some(0), response)
    {
      products, page, hasMore := [], 0, true;
      req := Fetch(Some(term), Some(0), response);
    }
  }
}
