/** The request and response structures the news handlers decode and encode. Only the
    fields the handlers read or set are modelled; a post is carried through unread. */
module NewsModels {

  /** A stored news item; the handlers never look inside it. */
  datatype Post = Post(id: int, title: string, content: string)

  /** Page metadata attached to a successful search. */
  datatype Pagination = Pagination(currentPage: int, pagesNumber: int, itemsOnPage: int)

  /** Body of a `/news/id` request. */
  datatype GetPostByIDRequest = GetPostByIDRequest(id: int)

  /** Body of a `/news/reg` request; a `currentPage` of 0 means "not given". */
  datatype GetPostsByRegExpRequest = GetPostsByRegExpRequest(regExp: string, currentPage: int)

  /** The JSON envelopes the handlers write. An empty `requestID` is the Go zero value,
      that is, a request id that was never set. */
  datatype Envelope =
    | BadResponse(success: bool, error: string, requestID: string)
    | GetPostByIDResponse(success: bool, post: Post)
    | GetPostsByRegExpResponse(success: bool, posts: seq<Post>, pagination: Pagination, requestID: string)
}
