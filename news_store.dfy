/** What the news handlers see of the database and of the request context. The store is an
    oracle: its answers are fixed functions of the arguments (the store's contents while the
    request is served), and every call made on it is logged so that "no store call" can be
    stated. The request context carries the store under the key "DB" and the request id set
    by the router's request-id middleware. */
module NewsStore {
  import opened Wrappers
  import opened NewsModels

  /** The number of posts per page, a constant of the database package. Its value is not
      modelled: every property here holds whatever it is. */
  const ItemsOnPage: int

  /** What a successful search returns: the posts of one page, the number of pages and the
      page actually returned. */
  datatype PostsPage = PostsPage(posts: seq<Post>, pagesNumber: int, currentPage: int)

  /** A call made on the store. */
  datatype StoreCall = NewsByID(id: int) | NewsByRegExp(regExp: string, page: int)

  /** A `*database.DB`. */
  class DB {
    const newsByID: int -> Result<Post>
    const newsByRegExp: (string, int) -> Result<PostsPage>
    var calls: seq<StoreCall>

    constructor (byID: int -> Result<Post>, byRegExp: (string, int) -> Result<PostsPage>)
      ensures newsByID == byID && newsByRegExp == byRegExp && calls == []
    {
      newsByID, newsByRegExp, calls := byID, byRegExp, [];
    }

    /** `db.GetNewsByID(id)`. */
    method GetNewsByID(id: int) returns (r: Result<Post>)
      modifies this`calls
      ensures r == newsByID(id)
      ensures calls == old(calls) + [NewsByID(id)]
    {
      r := newsByID(id);
      calls := calls + [NewsByID(id)];
    }

    /** `db.GetNewsByRegExp(regExp, page)`. */
    method GetNewsByRegExp(regExp: string, page: int) returns (r: Result<PostsPage>)
      modifies this`calls
      ensures r == newsByRegExp(regExp, page)
      ensures calls == old(calls) + [NewsByRegExp(regExp, page)]
    {
      r := newsByRegExp(regExp, page);
      calls := calls + [NewsByRegExp(regExp, page)];
    }
  }

  /** What the store's own pagination promises: a successful search reports a non-negative
      number of pages and a page clamped into [1, max(pagesNumber, 1)]. The handlers do not
      rely on it; it is stated only as an assumption a caller may make about a store. */
  ghost predicate ClampsPages(db: DB) {
    forall regExp: string, page: int {:trigger db.newsByRegExp(regExp, page)} ::
      db.newsByRegExp(regExp, page).Success? ==>
        var p := db.newsByRegExp(regExp, page).value;
        0 <= p.pagesNumber && 1 <= p.currentPage <= (if p.pagesNumber < 1 then 1 else p.pagesNumber)
  }

  /** A value stored in the request context: the store, or something of another type. */
  datatype ContextValue = DBValue(db: DB) | OtherValue(description: string)

  /** The request context: its keyed values and the id the request-id middleware assigned,
      if it ran. */
  datatype Context = Context(values: map<string, ContextValue>, requestID: Option<string>)

  /** `r.Context().Value("DB").(*database.DB)`: the store when the key is present and holds
      a store, nothing when the key is absent or holds a value of another type. */
  function DBFromContext(ctx: Context): Option<DB>
  {
    if "DB" in ctx.values && ctx.values["DB"].DBValue? then Some(ctx.values["DB"].db) else None
  }

  /** The objects a handler may change through the context: the store it finds there. */
  function ContextFrame(ctx: Context): set<DB> {
    if DBFromContext(ctx).Some? then {DBFromContext(ctx).value} else {}
  }

  /** `middleware.GetReqID(ctx)`: the request id, or the empty string when none was set. */
  function GetReqID(ctx: Context): string {
    match ctx.requestID
    case Some(id) => id
    case None => ""
  }
}
