/** The two entry points. The API script fetches, classifies, renders and
    always writes; the CLI script receives its items from an external tool and
    writes nothing when it receives none. Printing and the file write itself
    are left out: a function returns the text that would be written. */
module Sync {
  import opened Wrappers
  import opened Reader
  import opened Classifier
  import opened Pagination
  import opened Readings

  /** `main` of the API script: the page to write, or the error that aborts
      the run before anything is written. */
  function SyncReaderApi(token: Option<string>, pages: seq<Response>, now: string, today: string, showPercent: real -> string)
    : (r: Result<string, Error>)
    ensures !HasToken(token) ==> r == Failure(MissingToken)
    ensures r.Failure? <==> GetReaderBooks(token, pages).Failure?
    ensures r.Failure? ==> r.error == GetReaderBooks(token, pages).error
    ensures r.Success? ==> r.value == RenderPage(now, SyncedDescription(today), Categorize(GetReaderBooks(token, pages).value.items), showPercent)
  {
    var fetched :- GetReaderBooks(token, pages);
    var buckets := Categorize(fetched.items);
    Success(GenerateReadingsContent(now, SyncedDescription(today), buckets, showPercent))
  }

  /** `main` of the CLI script: no items means no page and no write (a soft
      stop, not an error); otherwise the page without a sync date. */
  function SyncReadings(books: seq<Item>, now: string, showPercent: real -> string): (r: Option<string>)
    ensures r.None? <==> |books| == 0
    ensures r.Some? ==> r.value == RenderPage(now, Description, Categorize(books), showPercent)
  {
    if |books| == 0 then None
    else
      var buckets := Categorize(books);
      Some(GenerateReadingsContent(now, Description, buckets, showPercent))
  }

  /** The API script has no soft stop: when both categories come back empty it
      still writes a page, whose every table holds only its placeholder. */
  lemma ApiWritesEmptyPage(token: Option<string>, pages: seq<Response>, now: string, today: string, showPercent: real -> string)
    requires GetReaderBooks(token, pages).Success? && GetReaderBooks(token, pages).value.items == []
    ensures SyncReaderApi(token, pages, now, today, showPercent) == Success(RenderPage(now, SyncedDescription(today), NoBuckets, showPercent))
  {
    assert Categorize([]) == NoBuckets;
  }
}
