/** The records the synchronisation scripts handle: raw items as the reading
    tracker returns them, the normalised entries the classifier produces, and
    the requests and responses of the paginated list endpoint. */
module Reader {
  import opened Wrappers

  /** A raw item. Each field is `None` when its key is absent from the JSON object. */
  datatype Item = Item(title: Option<string>, author: Option<string>, readingProgress: Option<real>)

  /** A normalised entry; `percent` is the progress ratio scaled to a percentage
      (the one-decimal rounding is part of how it is displayed). */
  datatype Entry = Entry(title: string, author: string, percent: real)

  /** The two document categories the list endpoint is asked for. */
  datatype Category = Epub | Pdf

  /** One request to the list endpoint: its query parameters. */
  datatype Request = Request(category: Category, limit: nat, pageCursor: Option<string>)

  /** One response of the list endpoint: the HTTP status and the decoded body's
      `results` and `nextPageCursor` keys (`None` when the key is absent). */
  datatype Response = Response(status: int, results: Option<seq<Item>>, nextPageCursor: Option<string>)

  /** Why a fetch fails. `ResponsesExhausted` only arises in the model, whose
      endpoint is a finite script of responses. */
  datatype Error =
    | MissingToken
    | HttpStatus(category: Category, status: int)
    | ResponsesExhausted

  /** The page size sent with every request. */
  const PageLimit: nat := 100

  /** The HTTP status the fetcher accepts. */
  const StatusOk: int := 200
}
