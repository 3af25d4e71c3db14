/** The two news retrieval handlers, `getPostByID` and `getPostsByRegExp`. Each is a short
    decision procedure: decode the request or fail, find the store in the context or fail,
    (for the search) default the page, call the store or fail, and build the success
    envelope. Every path ends by writing one envelope and one status, in one of three
    orders, captured by `Reply`. The decoded request, the context and the fate of the
    final `Encode` call are inputs; the store answers through its oracle functions. */
module NewsApi {
  import opened Wrappers
  import opened NewsModels
  import opened ResponseWriter
  import opened NewsStore

  /** The error text of the missing-store envelope. */
  const DBMissingError: string := "could not get the DB from context"

  /** How a path responds:
      - `EncodeThenStatus`: encode the envelope, log an encoding error, then `WriteHeader(code)`
        (the decode-failure and missing-store paths);
      - `StatusThenEncode`: `WriteHeader(code)`, then encode, logging an encoding error
        (the store-error paths);
      - `EncodeThenConfirm`: encode; on an encoding error `WriteHeader(400)`, otherwise
        `WriteHeader(200)` (the success paths). */
  datatype Reply =
    | EncodeThenStatus(env: Envelope, code: int)
    | StatusThenEncode(env: Envelope, code: int)
    | EncodeThenConfirm(env: Envelope)

  /** The writer calls a reply makes when its one `Encode` call meets `enc`. */
  function Actions(reply: Reply, enc: EncodeOutcome): seq<Action> {
    match reply
    case EncodeThenStatus(env, code) => [EncodeCall(env, enc), WriteHeaderCall(code)]
    case StatusThenEncode(env, code) => [WriteHeaderCall(code), EncodeCall(env, enc)]
    case EncodeThenConfirm(env) =>
      [EncodeCall(env, enc), WriteHeaderCall(if enc.Encoded? then StatusOK else StatusBadRequest)]
  }

  /** The page the search handler asks the store for: 0 ("not given") becomes 1, any other
      value is passed on as it is. */
  function EffectivePage(page: int): int {
    if page == 0 then 1 else page
  }

  /** The decision procedure of `getPostByID`. Its envelopes never carry a request id. */
  function ByIDReply(decoded: Result<GetPostByIDRequest>, ctx: Context): Reply {
    match decoded
    case Failure(e) => EncodeThenStatus(BadResponse(false, e, ""), StatusBadRequest)
    case Success(req) =>
      match DBFromContext(ctx)
      case None => EncodeThenStatus(BadResponse(false, DBMissingError, ""), StatusBadRequest)
      case Some(db) =>
        match db.newsByID(req.id)
        case Failure(e) => StatusThenEncode(BadResponse(false, e, ""), StatusBadRequest)
        case Success(post) => EncodeThenConfirm(GetPostByIDResponse(true, post))
  }

  /** The store calls `getPostByID` makes. */
  function ByIDStoreCalls(decoded: Result<GetPostByIDRequest>, ctx: Context): seq<StoreCall> {
    if decoded.Success? && DBFromContext(ctx).Some? then [NewsByID(decoded.value.id)] else []
  }

  /** The decision procedure of `getPostsByRegExp`. Every envelope carries the request id. */
  function RegExpReply(decoded: Result<GetPostsByRegExpRequest>, ctx: Context): Reply {
    var rid := GetReqID(ctx);
    match decoded
    case Failure(e) => EncodeThenStatus(BadResponse(false, e, rid), StatusBadRequest)
    case Success(req) =>
      match DBFromContext(ctx)
      case None => EncodeThenStatus(BadResponse(false, DBMissingError, rid), StatusBadRequest)
      case Some(db) =>
        match db.newsByRegExp(req.regExp, EffectivePage(req.currentPage))
        case Failure(e) => StatusThenEncode(BadResponse(false, e, rid), StatusBadRequest)
        case Success(page) =>
          EncodeThenConfirm(GetPostsByRegExpResponse(
            true, page.posts, Pagination(page.currentPage, page.pagesNumber, ItemsOnPage), rid))
  }

  /** The store calls `getPostsByRegExp` makes. */
  function RegExpStoreCalls(decoded: Result<GetPostsByRegExpRequest>, ctx: Context): seq<StoreCall> {
    if decoded.Success? && DBFromContext(ctx).Some?
    then [NewsByRegExp(decoded.value.regExp, EffectivePage(decoded.value.currentPage))]
    else []
  }

  /** Performs a reply on the writer. An encoding error is only logged, except on the
      success path, where it turns the final `WriteHeader` into 400. */
  method Respond(w: Writer, reply: Reply, enc: EncodeOutcome)
    modifies w
    ensures w.trace == old(w.trace) + Actions(reply, enc)
    ensures w.State() == Run(old(w.State()), Actions(reply, enc))
  {
    ghost var s0 := w.State();
    match reply
    case EncodeThenStatus(env, code) =>
      var err := w.Encode(env, enc);
      w.WriteHeader(code);
      RunTwo(s0, EncodeCall(env, enc), WriteHeaderCall(code));
    case StatusThenEncode(env, code) =>
      w.WriteHeader(code);
      var err := w.Encode(env, enc);
      RunTwo(s0, WriteHeaderCall(code), EncodeCall(env, enc));
    case EncodeThenConfirm(env) =>
      var err := w.Encode(env, enc);
      if err.Some? {
        w.WriteHeader(StatusBadRequest);
      } else {
        w.WriteHeader(StatusOK);
      }
      RunTwo(s0, EncodeCall(env, enc), WriteHeaderCall(if enc.Encoded? then StatusOK else StatusBadRequest));
  }

  /** `getPostByID(w, r)`: `decoded` is what decoding the body gave, `ctx` is the request
      context, `enc` the fate of the response encoding. */
  method GetPostByID(w: Writer, decoded: Result<GetPostByIDRequest>, ctx: Context, enc: EncodeOutcome)
    modifies w, ContextFrame(ctx)
    ensures w.trace == old(w.trace) + Actions(ByIDReply(decoded, ctx), enc)
    ensures w.State() == Run(old(w.State()), Actions(ByIDReply(decoded, ctx), enc))
    ensures DBFromContext(ctx).Some? ==>
      DBFromContext(ctx).value.calls == old(DBFromContext(ctx).value.calls) + ByIDStoreCalls(decoded, ctx)
  {
    if decoded.Failure? {
      Respond(w, EncodeThenStatus(BadResponse(false, decoded.error, ""), StatusBadRequest), enc);
      return;
    }
    var req := decoded.value;

    var found := DBFromContext(ctx);
    if found.None? {
      Respond(w, EncodeThenStatus(BadResponse(false, DBMissingError, ""), StatusBadRequest), enc);
      return;
    }
    var db := found.value;

    var post := db.GetNewsByID(req.id);
    if post.Failure? {
      Respond(w, StatusThenEncode(BadResponse(false, post.error, ""), StatusBadRequest), enc);
      return;
    }

    Respond(w, EncodeThenConfirm(GetPostByIDResponse(true, post.value)), enc);
  }

  /** `getPostsByRegExp(w, r)`, with the same inputs as `GetPostByID`. */
  method GetPostsByRegExp(w: Writer, decoded: Result<GetPostsByRegExpRequest>, ctx: Context, enc: EncodeOutcome)
    modifies w, ContextFrame(ctx)
    ensures w.trace == old(w.trace) + Actions(RegExpReply(decoded, ctx), enc)
    ensures w.State() == Run(old(w.State()), Actions(RegExpReply(decoded, ctx), enc))
    ensures DBFromContext(ctx).Some? ==>
      DBFromContext(ctx).value.calls == old(DBFromContext(ctx).value.calls) + RegExpStoreCalls(decoded, ctx)
  {
    if decoded.Failure? {
      Respond(w, EncodeThenStatus(BadResponse(false, decoded.error, GetReqID(ctx)), StatusBadRequest), enc);
      return;
    }
    var req := decoded.value;

    var found := DBFromContext(ctx);
    if found.None? {
      Respond(w, EncodeThenStatus(BadResponse(false, DBMissingError, GetReqID(ctx)), StatusBadRequest), enc);
      return;
    }
    var db := found.value;

    // The first page is shown by default.
    if req.currentPage == 0 {
      req := req.(currentPage := 1);
    }

    var result := db.GetNewsByRegExp(req.regExp, req.currentPage);
    if result.Failure? {
      Respond(w, StatusThenEncode(BadResponse(false, result.error, GetReqID(ctx)), StatusBadRequest), enc);
      return;
    }

    var page := result.value;
    var res := GetPostsByRegExpResponse(
      true, page.posts, Pagination(page.currentPage, page.pagesNumber, ItemsOnPage), GetReqID(ctx));
    Respond(w, EncodeThenConfirm(res), enc);
  }

  // ---------------------------------------------------------------------------------------
  // What a reply does to a writer whose status is not yet committed (a handler is the first
  // and only code to use its writer).

  /** The effect of each reply on an uncommitted writer. */
  lemma ReplyOnUncommitted(s: WriterState, reply: Reply, enc: EncodeOutcome)
    requires !s.headerWritten
    ensures var t := Run(s, Actions(reply, enc));
      && t.headerWritten
      && t.body == (if enc.Encoded? then s.body + [reply.env] else s.body)
      && FinalStatus(t) == match reply
         case EncodeThenStatus(_, code) => if enc.MarshalFailed? then code else StatusOK
         case StatusThenEncode(_, code) => code
         case EncodeThenConfirm(_) => if enc.MarshalFailed? then StatusBadRequest else StatusOK
  {
    match reply
    case EncodeThenStatus(env, code) =>
      RunTwo(s, EncodeCall(env, enc), WriteHeaderCall(code));
    case StatusThenEncode(env, code) =>
      RunTwo(s, WriteHeaderCall(code), EncodeCall(env, enc));
    case EncodeThenConfirm(env) =>
      RunTwo(s, EncodeCall(env, enc), WriteHeaderCall(if enc.Encoded? then StatusOK else StatusBadRequest));
  }

  /** Each reply asks to encode exactly one envelope, and its last call is a `WriteHeader`
      or the `Encode`; nothing is written after the reply's two calls. */
  lemma OneEnvelopePerReply(reply: Reply, enc: EncodeOutcome)
    ensures |Actions(reply, enc)| == 2
    ensures EncodeRequests(Actions(reply, enc)) == [reply.env]
    ensures reply.EncodeThenConfirm? ==>
      Actions(reply, enc)[0] == EncodeCall(reply.env, enc) &&
      Actions(reply, enc)[1] == WriteHeaderCall(if enc.Encoded? then StatusOK else StatusBadRequest)
  {
    var acts := Actions(reply, enc);
    assert acts[1..][1..] == [];
    assert EncodeRequests(acts[1..][1..]) == [];
  }

  // ---------------------------------------------------------------------------------------
  // The decode-failure paths.

  /** A decode failure yields a `BadResponse` carrying the decoder's error text, written
      before `WriteHeader(400)`, and no store call; the outcome does not depend on what the
      context holds under "DB". */
  lemma DecodeFailure(
    byID: Result<GetPostByIDRequest>, byRegExp: Result<GetPostsByRegExpRequest>, ctx: Context, other: Context)
    requires byID.Failure? && byRegExp.Failure?
    requires other.requestID == ctx.requestID
    ensures ByIDReply(byID, ctx) == EncodeThenStatus(BadResponse(false, byID.error, ""), StatusBadRequest)
    ensures RegExpReply(byRegExp, ctx) ==
      EncodeThenStatus(BadResponse(false, byRegExp.error, GetReqID(ctx)), StatusBadRequest)
    ensures ByIDStoreCalls(byID, ctx) == [] && RegExpStoreCalls(byRegExp, ctx) == []
    ensures ByIDReply(byID, other) == ByIDReply(byID, ctx)
    ensures RegExpReply(byRegExp, other) == RegExpReply(byRegExp, ctx)
  {
  }

  // ---------------------------------------------------------------------------------------
  // The missing-store paths.

  /** When "DB" is absent from the context or holds a value that is not a store, the body is
      a `BadResponse` with exactly the missing-store text, and the store is not called. */
  lemma MissingStore(
    byID: Result<GetPostByIDRequest>, byRegExp: Result<GetPostsByRegExpRequest>, ctx: Context)
    requires byID.Success? && byRegExp.Success?
    requires "DB" !in ctx.values || ctx.values["DB"].OtherValue?
    ensures ByIDReply(byID, ctx) == EncodeThenStatus(BadResponse(false, DBMissingError, ""), StatusBadRequest)
    ensures RegExpReply(byRegExp, ctx) ==
      EncodeThenStatus(BadResponse(false, DBMissingError, GetReqID(ctx)), StatusBadRequest)
    ensures ByIDStoreCalls(byID, ctx) == [] && RegExpStoreCalls(byRegExp, ctx) == []
  {
  }

  /** On the decode-failure and missing-store paths the envelope is encoded before
      `WriteHeader(400)`; the write commits 200, so the failure envelope goes out with
      status 200. Only when marshalling fails, so that nothing is written, does the 400
      take effect. */
  lemma EarlyFailureKeepsStatusOK(
    s: WriterState, byID: Result<GetPostByIDRequest>, byRegExp: Result<GetPostsByRegExpRequest>,
    ctx: Context, enc: EncodeOutcome)
    requires !s.headerWritten
    requires byID.Failure? || DBFromContext(ctx).None?
    requires byRegExp.Failure? || DBFromContext(ctx).None?
    ensures var t := Run(s, Actions(ByIDReply(byID, ctx), enc));
      && ByIDReply(byID, ctx).env.BadResponse?
      && t.body == (if enc.Encoded? then s.body + [ByIDReply(byID, ctx).env] else s.body)
      && FinalStatus(t) == (if enc.MarshalFailed? then StatusBadRequest else StatusOK)
    ensures var t := Run(s, Actions(RegExpReply(byRegExp, ctx), enc));
      && RegExpReply(byRegExp, ctx).env.BadResponse?
      && t.body == (if enc.Encoded? then s.body + [RegExpReply(byRegExp, ctx).env] else s.body)
      && FinalStatus(t) == (if enc.MarshalFailed? then StatusBadRequest else StatusOK)
  {
    ReplyOnUncommitted(s, ByIDReply(byID, ctx), enc);
    ReplyOnUncommitted(s, RegExpReply(byRegExp, ctx), enc);
  }

  /** A concrete instance: a malformed body on a fresh writer yields a failure envelope and
      status 200. */
  lemma MalformedBodyAnswersOK(ctx: Context)
    ensures var decoded: Result<GetPostByIDRequest> := Failure("unexpected EOF");
      var t := Run(Fresh, Actions(ByIDReply(decoded, ctx), Encoded));
      t.body == [BadResponse(false, "unexpected EOF", "")] && FinalStatus(t) == 200
  {
    var decoded: Result<GetPostByIDRequest> := Failure("unexpected EOF");
    ReplyOnUncommitted(Fresh, ByIDReply(decoded, ctx), Encoded);
  }

  // ---------------------------------------------------------------------------------------
  // The store-error paths.

  /** On a lookup store error `WriteHeader(400)` comes first, so the committed status is
      400 whatever becomes of the encoding, and the body gets a `BadResponse` with the
      store's error text. */
  lemma ByIDStoreError(s: WriterState, decoded: Result<GetPostByIDRequest>, ctx: Context, enc: EncodeOutcome)
    requires !s.headerWritten
    requires decoded.Success? && DBFromContext(ctx).Some?
    requires DBFromContext(ctx).value.newsByID(decoded.value.id).Failure?
    ensures var e := DBFromContext(ctx).value.newsByID(decoded.value.id).error;
      var t := Run(s, Actions(ByIDReply(decoded, ctx), enc));
      && Actions(ByIDReply(decoded, ctx), enc)[0] == WriteHeaderCall(StatusBadRequest)
      && t.body == (if enc.Encoded? then s.body + [BadResponse(false, e, "")] else s.body)
      && FinalStatus(t) == StatusBadRequest
  {
    ReplyOnUncommitted(s, ByIDReply(decoded, ctx), enc);
  }

  /** The same for a search store error; the envelope also carries the request id. */
  lemma RegExpStoreError(
    s: WriterState, decoded: Result<GetPostsByRegExpRequest>, ctx: Context, enc: EncodeOutcome)
    requires !s.headerWritten
    requires decoded.Success? && DBFromContext(ctx).Some?
    requires DBFromContext(ctx).value.newsByRegExp(decoded.value.regExp, EffectivePage(decoded.value.currentPage)).Failure?
    ensures var e := DBFromContext(ctx).value.newsByRegExp(
        decoded.value.regExp, EffectivePage(decoded.value.currentPage)).error;
      var t := Run(s, Actions(RegExpReply(decoded, ctx), enc));
      && Actions(RegExpReply(decoded, ctx), enc)[0] == WriteHeaderCall(StatusBadRequest)
      && t.body == (if enc.Encoded? then s.body + [BadResponse(false, e, GetReqID(ctx))] else s.body)
      && FinalStatus(t) == StatusBadRequest
  {
    ReplyOnUncommitted(s, RegExpReply(decoded, ctx), enc);
  }

  // ---------------------------------------------------------------------------------------
  // Paging and the success paths.

  /** The search handler asks the store for page 1 when the request's page is 0 and for the
      request's page otherwise, negative pages included. */
  lemma PageDefaulting(decoded: Result<GetPostsByRegExpRequest>, ctx: Context)
    requires decoded.Success? && DBFromContext(ctx).Some?
    ensures decoded.value.currentPage == 0 ==>
      RegExpStoreCalls(decoded, ctx) == [NewsByRegExp(decoded.value.regExp, 1)]
    ensures decoded.value.currentPage != 0 ==>
      RegExpStoreCalls(decoded, ctx) == [NewsByRegExp(decoded.value.regExp, decoded.value.currentPage)]
  {
  }

  /** A successful search writes one envelope whose posts, page and page count are the
      store's (the page is the one the store returned, not the one requested), whose page
      size is `ItemsOnPage` and which carries the request id. It goes out with 200, except
      when marshalling fails: then nothing is written and the status is 400. */
  lemma RegExpSuccess(
    s: WriterState, decoded: Result<GetPostsByRegExpRequest>, ctx: Context, enc: EncodeOutcome)
    requires !s.headerWritten
    requires decoded.Success? && DBFromContext(ctx).Some?
    requires DBFromContext(ctx).value.newsByRegExp(decoded.value.regExp, EffectivePage(decoded.value.currentPage)).Success?
    ensures var page := DBFromContext(ctx).value.newsByRegExp(
        decoded.value.regExp, EffectivePage(decoded.value.currentPage)).value;
      var env := RegExpReply(decoded, ctx).env;
      var t := Run(s, Actions(RegExpReply(decoded, ctx), enc));
      && env.GetPostsByRegExpResponse? && env.success
      && env.posts == page.posts
      && env.pagination.currentPage == page.currentPage
      && env.pagination.pagesNumber == page.pagesNumber
      && env.pagination.itemsOnPage == ItemsOnPage
      && env.requestID == GetReqID(ctx)
      && t.body == (if enc.Encoded? then s.body + [env] else s.body)
      && FinalStatus(t) == (if enc.MarshalFailed? then StatusBadRequest else StatusOK)
  {
    ReplyOnUncommitted(s, RegExpReply(decoded, ctx), enc);
  }

  /** A successful lookup writes one envelope holding the store's post, with 200, except
      when marshalling fails. */
  lemma ByIDSuccess(s: WriterState, decoded: Result<GetPostByIDRequest>, ctx: Context, enc: EncodeOutcome)
    requires !s.headerWritten
    requires decoded.Success? && DBFromContext(ctx).Some?
    requires DBFromContext(ctx).value.newsByID(decoded.value.id).Success?
    ensures var post := DBFromContext(ctx).value.newsByID(decoded.value.id).value;
      var t := Run(s, Actions(ByIDReply(decoded, ctx), enc));
      && ByIDReply(decoded, ctx).env == GetPostByIDResponse(true, post)
      && t.body == (if enc.Encoded? then s.body + [GetPostByIDResponse(true, post)] else s.body)
      && FinalStatus(t) == (if enc.MarshalFailed? then StatusBadRequest else StatusOK)
  {
    ReplyOnUncommitted(s, ByIDReply(decoded, ctx), enc);
  }

  /** If the store clamps its pages, every successful search reports a page in
      [1, max(pagesNumber, 1)]. */
  lemma ClampedStorePagination(decoded: Result<GetPostsByRegExpRequest>, ctx: Context)
    requires decoded.Success? && DBFromContext(ctx).Some? && ClampsPages(DBFromContext(ctx).value)
    ensures var env := RegExpReply(decoded, ctx).env;
      env.GetPostsByRegExpResponse? ==>
        1 <= env.pagination.currentPage <= (if env.pagination.pagesNumber < 1 then 1 else env.pagination.pagesNumber)
  {
    var db := DBFromContext(ctx).value;
    var r := db.newsByRegExp(decoded.value.regExp, EffectivePage(decoded.value.currentPage));
    assert r.Success? ==> 0 <= r.value.pagesNumber;
  }

  // ---------------------------------------------------------------------------------------
  // Request ids.

  /** Every envelope of the search handler carries the request id, on all four paths; the
      lookup handler's failure envelopes never set one, and its success envelope has none. */
  lemma RequestIDs(
    byID: Result<GetPostByIDRequest>, byRegExp: Result<GetPostsByRegExpRequest>, ctx: Context)
    ensures RegExpReply(byRegExp, ctx).env.BadResponse? || RegExpReply(byRegExp, ctx).env.GetPostsByRegExpResponse?
    ensures RegExpReply(byRegExp, ctx).env.requestID == GetReqID(ctx)
    ensures ByIDReply(byID, ctx).env.BadResponse? ==> ByIDReply(byID, ctx).env.requestID == ""
    ensures !ByIDReply(byID, ctx).env.GetPostsByRegExpResponse?
  {
  }

  // ---------------------------------------------------------------------------------------
  // The status order, corrected.

  /** The early failure replies with `WriteHeader` moved before `Encode`, the order the
      store-error paths already use. */
  function StatusFirst(reply: Reply): Reply {
    match reply
    case EncodeThenStatus(env, code) => StatusThenEncode(env, code)
    case _ => reply
  }

  /** With the status written first, every failure envelope of either handler goes out with
      400, whatever becomes of the encoding. */
  lemma StatusFirstFailuresAreBadRequest(
    s: WriterState, byID: Result<GetPostByIDRequest>, byRegExp: Result<GetPostsByRegExpRequest>,
    ctx: Context, enc: EncodeOutcome)
    requires !s.headerWritten
    ensures ByIDReply(byID, ctx).env.BadResponse? ==>
      FinalStatus(Run(s, Actions(StatusFirst(ByIDReply(byID, ctx)), enc))) == StatusBadRequest
    ensures RegExpReply(byRegExp, ctx).env.BadResponse? ==>
      FinalStatus(Run(s, Actions(StatusFirst(RegExpReply(byRegExp, ctx)), enc))) == StatusBadRequest
    ensures !ByIDReply(byID, ctx).env.BadResponse? ==>
      StatusFirst(ByIDReply(byID, ctx)) == ByIDReply(byID, ctx)
    ensures !RegExpReply(byRegExp, ctx).env.BadResponse? ==>
      StatusFirst(RegExpReply(byRegExp, ctx)) == RegExpReply(byRegExp, ctx)
  {
    ReplyOnUncommitted(s, StatusFirst(ByIDReply(byID, ctx)), enc);
    ReplyOnUncommitted(s, StatusFirst(RegExpReply(byRegExp, ctx)), enc);
  }
}
