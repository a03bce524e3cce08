/** Cursor pagination of the list endpoint (`get_reader_books`). The endpoint
    is modelled as the finite sequence of responses it gives, in the order the
    requests are issued: response `i` answers request `i`. */
module Pagination {
  import opened Wrappers
  import opened Reader

  /** A cursor leads to another request only when present and non-empty. */
  predicate Continues(cursor: Option<string>) {
    cursor.Some? && cursor.value != ""
  }

  /** The `pageCursor` query parameter, sent only for a present, non-empty cursor. */
  function CursorParam(cursor: Option<string>): Option<string> {
    if Continues(cursor) then cursor else None
  }

  function RequestFor(category: Category, cursor: Option<string>): Request {
    Request(category, PageLimit, CursorParam(cursor))
  }

  /** The items of one page; an absent `results` key contributes none. */
  function PageItems(page: Response): seq<Item> {
    page.results.GetOr([])
  }

  /** The items of a run of pages, concatenated in page order. */
  function AllResults(pages: seq<Response>): seq<Item> {
    if |pages| == 0 then [] else PageItems(pages[0]) + AllResults(pages[1..])
  }

  /** The first `k` pages are all successful and all hand over a cursor. */
  ghost predicate Continuing(pages: seq<Response>, k: nat)
    requires k <= |pages|
  {
    forall j :: 0 <= j < k ==> pages[j].status == StatusOk && Continues(pages[j].nextPageCursor)
  }

  /** A successful page that ends the walk over its category. */
  predicate LastPage(page: Response) {
    page.status == StatusOk && !Continues(page.nextPageCursor)
  }

  /** What a walk over one category issued and collected. */
  datatype Walk = Walk(requests: seq<Request>, items: seq<Item>)

  /** One `while True` loop of `get_reader_books`: request a page of `category`
      with `cursor`, abort on a non-200 status, collect the page's results, and
      follow `nextPageCursor` until it is absent or empty. */
  function FetchCategory(category: Category, cursor: Option<string>, pages: seq<Response>): (r: Result<Walk, Error>)
    ensures r.Success? ==> 1 <= |r.value.requests| <= |pages|
    ensures r.Success? ==> Continuing(pages, |r.value.requests| - 1) && LastPage(pages[|r.value.requests| - 1])
    ensures r.Success? ==> r.value.items == AllResults(pages[..|r.value.requests|])
    ensures r.Success? ==> r.value.requests[0] == RequestFor(category, cursor)
    ensures r.Success? ==> forall i :: 0 < i < |r.value.requests| ==>
              r.value.requests[i] == Request(category, PageLimit, pages[i - 1].nextPageCursor)
    ensures r.Failure? ==> r.error.ResponsesExhausted? || (r.error.HttpStatus? && r.error.category == category && r.error.status != StatusOk)
    decreases |pages|
  {
    if |pages| == 0 then Failure(ResponsesExhausted)
    else
      var page := pages[0];
      var request := RequestFor(category, cursor);
      if page.status != StatusOk then Failure(HttpStatus(category, page.status))
      else if !Continues(page.nextPageCursor) then Success(Walk([request], PageItems(page)))
      else
        var rest :- FetchCategory(category, page.nextPageCursor, pages[1..]);
        assert pages[..|rest.requests| + 1] == [page] + pages[1..][..|rest.requests|];
        Success(Walk([request] + rest.requests, PageItems(page) + rest.items))
  }

  /** The result of `get_reader_books`: every request issued (the first
      `epubPages` of them for e-books, the rest for PDFs) and every item collected. */
  datatype Fetched = Fetched(requests: seq<Request>, items: seq<Item>, epubPages: nat)

  predicate HasToken(token: Option<string>) {
    token.Some? && token.value != ""
  }

  /** `get_reader_books`: check the token, walk the e-book pages, then the PDF pages. */
  function GetReaderBooks(token: Option<string>, pages: seq<Response>): (r: Result<Fetched, Error>)
    ensures !HasToken(token) ==> r == Failure(MissingToken)
    ensures r.Success? ==> 1 <= r.value.epubPages < |r.value.requests| <= |pages|
    ensures r.Success? ==> r.value.items == AllResults(pages[..|r.value.requests|])
    ensures r.Success? ==> r.value.items == AllResults(pages[..r.value.epubPages]) + AllResults(pages[r.value.epubPages..|r.value.requests|])
    ensures r.Success? ==> forall i :: 0 <= i < |r.value.requests| ==>
              && r.value.requests[i].limit == PageLimit
              && r.value.requests[i].category == (if i < r.value.epubPages then Epub else Pdf)
    ensures r.Success? ==> r.value.requests[0].pageCursor == None && r.value.requests[r.value.epubPages].pageCursor == None
    ensures r.Success? ==> forall i :: 0 < i < |r.value.requests| && i != r.value.epubPages ==>
              r.value.requests[i].pageCursor == pages[i - 1].nextPageCursor
    ensures r.Success? ==> Continuing(pages, r.value.epubPages - 1) && LastPage(pages[r.value.epubPages - 1])
    ensures r.Success? ==> Continuing(pages[r.value.epubPages..], |r.value.requests| - r.value.epubPages - 1)
                           && LastPage(pages[|r.value.requests| - 1])
    ensures r.Failure? && r.error.HttpStatus? ==> r.error.status != StatusOk
  {
    if !HasToken(token) then Failure(MissingToken)
    else
      var epub :- FetchCategory(Epub, None, pages);
      var pdf :- FetchCategory(Pdf, None, pages[|epub.requests|..]);
      CombinedRequests(pages, epub, pdf);
      CombinedItems(pages, epub, pdf);
      Success(Fetched(epub.requests + pdf.requests, epub.items + pdf.items, |epub.requests|))
  }

  /** What a successful walk over `category` from `cursor` guarantees about its result. */
  ghost predicate Walked(category: Category, cursor: Option<string>, pages: seq<Response>, w: Walk) {
    && 1 <= |w.requests| <= |pages|
    && Continuing(pages, |w.requests| - 1)
    && LastPage(pages[|w.requests| - 1])
    && w.items == AllResults(pages[..|w.requests|])
    && w.requests[0] == RequestFor(category, cursor)
    && forall i :: 0 < i < |w.requests| ==> w.requests[i] == Request(category, PageLimit, pages[i - 1].nextPageCursor)
  }

  /** The requests of the two walks, one after the other. */
  lemma CombinedRequests(pages: seq<Response>, epub: Walk, pdf: Walk)
    requires Walked(Epub, None, pages, epub)
    requires Walked(Pdf, None, pages[|epub.requests|..], pdf)
    ensures 1 <= |epub.requests| < |epub.requests + pdf.requests| <= |pages|
    ensures forall i :: 0 <= i < |epub.requests + pdf.requests| ==>
              && (epub.requests + pdf.requests)[i].limit == PageLimit
              && (epub.requests + pdf.requests)[i].category == (if i < |epub.requests| then Epub else Pdf)
    ensures (epub.requests + pdf.requests)[0].pageCursor == None
    ensures (epub.requests + pdf.requests)[|epub.requests|].pageCursor == None
    ensures forall i :: 0 < i < |epub.requests + pdf.requests| && i != |epub.requests| ==>
              (epub.requests + pdf.requests)[i].pageCursor == pages[i - 1].nextPageCursor
    ensures LastPage(pages[|epub.requests| - 1]) && LastPage(pages[|epub.requests + pdf.requests| - 1])
  {
    var n, rs := |epub.requests|, epub.requests + pdf.requests;
    var rest := pages[n..];
    assert rs[n] == pdf.requests[0];
    forall i | 0 <= i < |rs|
      ensures rs[i].limit == PageLimit && rs[i].category == (if i < n then Epub else Pdf)
      ensures 0 < i && i != n ==> rs[i].pageCursor == pages[i - 1].nextPageCursor
    {
      if i < n {
        assert rs[i] == epub.requests[i];
      } else {
        assert rs[i] == pdf.requests[i - n];
        if i > n {
          assert rest[i - n - 1] == pages[i - 1];
        }
      }
    }
    assert rest[|pdf.requests| - 1] == pages[|rs| - 1];
  }

  /** The items of the two walks, one after the other. */
  lemma CombinedItems(pages: seq<Response>, epub: Walk, pdf: Walk)
    requires Walked(Epub, None, pages, epub)
    requires Walked(Pdf, None, pages[|epub.requests|..], pdf)
    ensures epub.items + pdf.items
            == AllResults(pages[..|epub.requests|]) + AllResults(pages[|epub.requests|..|epub.requests| + |pdf.requests|])
    ensures epub.items + pdf.items == AllResults(pages[..|epub.requests| + |pdf.requests|])
  {
    var n := |epub.requests|;
    var m := n + |pdf.requests|;
    assert pages[n..][..|pdf.requests|] == pages[n..m];
    AllResultsAppend(pages[..n], pages[n..m]);
    assert pages[..n] + pages[n..m] == pages[..m];
  }

  /** Collecting page by page is the same as collecting both runs of pages and concatenating. */
  lemma {:induction false} AllResultsAppend(xs: seq<Response>, ys: seq<Response>)
    ensures AllResults(xs + ys) == AllResults(xs) + AllResults(ys)
    decreases |xs|
  {
    if |xs| == 0 {
      assert xs + ys == ys;
    } else {
      assert (xs + ys)[1..] == xs[1..] + ys;
      AllResultsAppend(xs[1..], ys);
    }
  }

  /** Dropping the first page of a run of continuing pages leaves a run of continuing pages. */
  lemma ContinuingTail(pages: seq<Response>, k: nat)
    requires 0 < k <= |pages| && Continuing(pages, k)
    ensures Continuing(pages[1..], k - 1)
  {
    forall j | 0 <= j < k - 1
      ensures pages[1..][j].status == StatusOk && Continues(pages[1..][j].nextPageCursor)
    {
      assert pages[1..][j] == pages[j + 1];
    }
  }

  /** The walk stops exactly at the first successful page without a cursor: after
      `k` continuing pages and a last page it has issued `k + 1` requests. */
  lemma {:induction false} FetchStopsAtLastPage(category: Category, cursor: Option<string>, pages: seq<Response>, k: nat)
    requires k < |pages| && Continuing(pages, k) && LastPage(pages[k])
    ensures FetchCategory(category, cursor, pages).Success?
    ensures |FetchCategory(category, cursor, pages).value.requests| == k + 1
    decreases k
  {
    if k > 0 {
      ContinuingTail(pages, k);
      FetchStopsAtLastPage(category, pages[0].nextPageCursor, pages[1..], k - 1);
    }
  }

  /** A non-200 status after `k` continuing pages aborts the walk with that status. */
  lemma {:induction false} FetchFailsAtStatus(category: Category, cursor: Option<string>, pages: seq<Response>, k: nat)
    requires k < |pages| && Continuing(pages, k) && pages[k].status != StatusOk
    ensures FetchCategory(category, cursor, pages) == Failure(HttpStatus(category, pages[k].status))
    decreases k
  {
    if k > 0 {
      ContinuingTail(pages, k);
      FetchFailsAtStatus(category, pages[0].nextPageCursor, pages[1..], k - 1);
    }
  }

  /** A script in which every page hands over a cursor never ends the walk. */
  lemma {:induction false} FetchRunsOut(category: Category, cursor: Option<string>, pages: seq<Response>)
    requires Continuing(pages, |pages|)
    ensures FetchCategory(category, cursor, pages) == Failure(ResponsesExhausted)
    decreases |pages|
  {
    if |pages| > 0 {
      ContinuingTail(pages, |pages|);
      FetchRunsOut(category, pages[0].nextPageCursor, pages[1..]);
    }
  }

  /** Two pages, the first with cursor "X" and the second with an empty cursor,
      give the items of both after exactly two requests. */
  lemma TwoPageExample(category: Category, a: Item, b: Item, c: Item)
    ensures FetchCategory(category, None,
              [Response(200, Some([a, b]), Some("X")), Response(200, Some([c]), Some(""))])
            == Success(Walk([Request(category, 100, None), Request(category, 100, Some("X"))], [a, b, c]))
  {
    var pages := [Response(200, Some([a, b]), Some("X")), Response(200, Some([c]), Some(""))];
    var second := FetchCategory(category, Some("X"), pages[1..]);
    assert pages[1..] == [Response(200, Some([c]), Some(""))];
    assert !Continues(Some(""));
    assert second == Success(Walk([Request(category, 100, Some("X"))], [c]));
    assert Continues(Some("X")) by { assert |"X"| == 1; }
    assert pages[0].nextPageCursor == Some("X");
    assert FetchCategory(category, None, pages)
           == Success(Walk([RequestFor(category, None)] + second.value.requests, PageItems(pages[0]) + second.value.items));
    assert [a, b] + [c] == [a, b, c];
    assert [RequestFor(category, None)] + second.value.requests == [Request(category, 100, None), Request(category, 100, Some("X"))];
    assert PageItems(pages[0]) + second.value.items == [a, b, c];
  }

  /** A failing PDF page loses the e-book items already collected: the call
      returns the error alone. */
  lemma PdfFailureDiscardsEpubItems(token: Option<string>, pages: seq<Response>)
    requires HasToken(token)
    requires FetchCategory(Epub, None, pages).Success?
    requires FetchCategory(Pdf, None, pages[|FetchCategory(Epub, None, pages).value.requests|..]).Failure?
    ensures GetReaderBooks(token, pages)
            == Failure(FetchCategory(Pdf, None, pages[|FetchCategory(Epub, None, pages).value.requests|..]).error)
  {
  }

  /** A failing e-book page fails the whole call before any PDF is requested. */
  lemma EpubFailureFailsCall(token: Option<string>, pages: seq<Response>)
    requires HasToken(token)
    requires FetchCategory(Epub, None, pages).Failure?
    ensures GetReaderBooks(token, pages) == Failure(FetchCategory(Epub, None, pages).error)
  {
  }

  /** The call succeeds exactly when the token is there and both walks succeed,
      the PDF walk starting on the page after the e-book walk's last; it then
      returns the two walks' requests and items, e-books first. */
  lemma FetchedIsBothWalks(token: Option<string>, pages: seq<Response>)
    ensures GetReaderBooks(token, pages).Success?
            <==> && HasToken(token)
                 && FetchCategory(Epub, None, pages).Success?
                 && FetchCategory(Pdf, None, pages[|FetchCategory(Epub, None, pages).value.requests|..]).Success?
    ensures GetReaderBooks(token, pages).Success? ==>
              var epub := FetchCategory(Epub, None, pages).value;
              var pdf := FetchCategory(Pdf, None, pages[|epub.requests|..]).value;
              && GetReaderBooks(token, pages).value.requests == epub.requests + pdf.requests
              && GetReaderBooks(token, pages).value.items == epub.items + pdf.items
              && GetReaderBooks(token, pages).value.epubPages == |epub.requests|
  {
  }

  /** A well-formed script, `k` continuing e-book pages then a last one, and `m`
      continuing PDF pages then a last one, makes the call succeed after exactly
      `k + 1` e-book and `m + 1` PDF requests. */
  lemma WellFormedScriptSucceeds(token: Option<string>, pages: seq<Response>, k: nat, m: nat)
    requires HasToken(token)
    requires k + 1 + m < |pages|
    requires Continuing(pages, k) && LastPage(pages[k])
    requires Continuing(pages[k + 1..], m) && LastPage(pages[k + 1 + m])
    ensures GetReaderBooks(token, pages).Success?
    ensures GetReaderBooks(token, pages).value.epubPages == k + 1
    ensures |GetReaderBooks(token, pages).value.requests| == k + m + 2
  {
    FetchStopsAtLastPage(Epub, None, pages, k);
    assert pages[k + 1..][m] == pages[k + 1 + m];
    FetchStopsAtLastPage(Pdf, None, pages[k + 1..], m);
  }
}
