# News retrieval handlers and content censor, in Dafny

This project models two pieces of a small set of Go HTTP services that sit in front of a
news database.

- **The news retrieval handlers** `getPostByID` and `getPostsByRegExp`. Each one decodes
  the JSON request, finds the database in the request context, defaults the page (search
  only) and calls the store. It then writes one JSON envelope and one status to the
  response writer.
- **The content censor** `IsCensored`. It checks whether a text, lower-cased, contains
  one of three fixed words, lower-cased.

Modules:

- `Wrappers`: `Option` and `Result`. A `Result` keeps a Go error as its `Error()` text.
- `NewsModels`: the request structs, the pagination struct and the three envelopes
  (`BadResponse`, `GetPostByIDResponse`, `GetPostsByRegExpResponse`).
- `ResponseWriter`: the response writer, following Go `net/http` semantics.
  - The first `WriteHeader` commits the status.
  - Otherwise the first body write commits 200.
  - Any later `WriteHeader` has no effect.
  - A response that was never committed goes out with 200.
  - The pure state machine (`WriterState`, `Step`, `Run`, `FinalStatus`) is the
    specification of the `Writer` class. The class's `trace` field records every call, in
    order.
- `NewsStore`: the store is a `DB` object whose answers are fixed oracle functions. Its
  methods log every call, so that "the store is not called" can be stated. This module also
  holds the request context, with its `"DB"` value and the request id.
- `NewsApi`:
  - Each handler's decision is a pure function (`ByIDReply`, `RegExpReply`). Its result
    says which envelope is written, and whether the status comes before or after the body.
  - The two handler methods carry out that decision on the writer and the store.
  - Lemmas state what each path leaves on a writer whose status was not yet committed.
- `Censor`:
  - `strings.ToLower` and `strings.Contains` are modelled as functions.
  - The spec `CensoredBy` says some listed word, lower-cased, occurs in the lower-cased text.
  - The loop method `IsCensoredBy` runs over any word list and is proved equal to it.
    `IsCensored` calls it with the fixed list.

Inputs from outside the code are parameters:

- the result of decoding the request body: a request, or the decoder's error text;
- the request context;
- what becomes of the one `Encode` call a path makes: `Encoded`, `MarshalFailed` (nothing
  is written) or `WriteFailed` (the status is committed, but the envelope is lost).

`ItemsOnPage` lives in `news/pkg/postgres`, which is not part of this model. It is declared
without a value, so every property holds whatever the page size is.

`NewsStore.DBFromContext` is the definition of the type assertion
`r.Context().Value("DB").(*database.DB)`. It gives a store when the key "DB" holds a store
value, and nothing when the key is absent or holds a value of another type.

## Model

| member | source | states |
|---|---|---|
| `ResponseWriter.Writer.WriteHeader` | news/pkg/api/api.go:44 | the first `WriteHeader` commits its code; a later one leaves the status unchanged and never touches the body |
| `ResponseWriter.Writer.Encode` | news/pkg/api/api.go:40 | a write commits 200 when no status was set, even if the write then fails; the envelope is appended only when it was written; the error returned is the encoder's |
| `ResponseWriter.CommitIsFinal` | news/pkg/api/api.go:40-44 | once a status is committed, no sequence of writer calls changes it, and it is the status the client receives |
| `ResponseWriter.BodyOnlyGrows` | news/pkg/api/api.go:85-90 | the body is never retracted: the old body stays a prefix, and it grows by at most one envelope per `Encode` call |
| `NewsStore.DB.GetNewsByID` | news/pkg/api/api.go:63 | returns the store's answer for the id and logs exactly that one call |
| `NewsStore.DB.GetNewsByRegExp` | news/pkg/api/api.go:134 | returns the store's answer for the pattern and page, and logs exactly that one call |
| `NewsApi.Respond` | news/pkg/api/api.go:40-91 | the writer's calls and new state are exactly those of the reply's two calls, in the reply's order |
| `NewsApi.GetPostByID` | news/pkg/api/api.go:31-93 | the writer receives exactly the calls of `ByIDReply`; the context's store is called only as `ByIDStoreCalls` says (once on the lookup path, never otherwise) |
| `NewsApi.GetPostsByRegExp` | news/pkg/api/api.go:95-169 | the writer receives exactly the calls of `RegExpReply`; the context's store is called only as `RegExpStoreCalls` says, with the defaulted page |
| `NewsApi.ReplyOnUncommitted` | news/pkg/api/api.go:40-91 | on an uncommitted writer: encode-then-400 ends with 200 unless marshalling failed; 400-then-encode ends with 400; the success order ends with 200 unless marshalling failed; the envelope is appended only when encoded |
| `NewsApi.OneEnvelopePerReply` | news/pkg/api/api.go:85-92 | every path asks to encode exactly one envelope, with two writer calls in all; the success path encodes first, then calls `WriteHeader(200)`, or `WriteHeader(400)` if encoding failed |
| `NewsApi.DecodeFailure` | news/pkg/api/api.go:35-46 | a decode failure gives a `BadResponse` with the decoder's text, then `WriteHeader(400)`; the store is not called; the result does not depend on what "DB" holds; the search handler's envelope also carries the request id (lines 99-111) |
| `NewsApi.MissingStore` | news/pkg/api/api.go:48-61 | "DB" absent or not a store gives a `BadResponse` with exactly "could not get the DB from context", and no store call; same for the search handler (lines 113-127) |
| `NewsApi.EarlyFailureKeepsStatusOK` | news/pkg/api/api.go:40-44 | on the decode-failure and missing-store paths of both handlers, the failure envelope goes out with status 200; only a marshalling failure lets the 400 take effect (also lines 55-59, 105-109, 121-125) |
| `NewsApi.MalformedBodyAnswersOK` | news/pkg/api/api.go:33-45 | concrete case: the decode error "unexpected EOF" on a fresh writer gives body `[BadResponse(false, "unexpected EOF", "")]` and status 200 |
| `NewsApi.ByIDStoreError` | news/pkg/api/api.go:65-77 | on a lookup store error the first call is `WriteHeader(400)`, the final status is 400 whatever the encoding does, and the body gets a `BadResponse` with the store's error text |
| `NewsApi.RegExpStoreError` | news/pkg/api/api.go:135-148 | on a search store error the first call is `WriteHeader(400)`, the final status is 400 whatever the encoding does, and the body gets a `BadResponse` with the store's error text and the request id |
| `NewsApi.PageDefaulting` | news/pkg/api/api.go:129-134 | a requested page of 0 reaches the store as 1; any other page, negatives included, reaches it unchanged |
| `NewsApi.RegExpSuccess` | news/pkg/api/api.go:151-168 | the success envelope holds the store's posts, page count and returned page (not the requested one), `ItemsOnPage` and the request id; status 200 unless marshalling failed (then 400 and no body) |
| `NewsApi.ByIDSuccess` | news/pkg/api/api.go:80-92 | the success envelope holds the store's post; status 200 unless marshalling failed |
| `NewsApi.ClampedStorePagination` | news/pkg/api/api.go:151-158 | if the store clamps its pages, the reported current page lies in [1, max(pagesNumber, 1)] |
| `NewsApi.RequestIDs` | news/pkg/api/api.go:99-160 | every search envelope, on all four paths, carries the request id; the lookup handler's failure envelopes have an empty request id (lines 36-39, 51-54, 67-70), and its success envelope has none |
| `NewsApi.StatusFirstFailuresAreBadRequest` | news/pkg/api/api.go:72-76 | corrected order: if `WriteHeader` comes before `Encode` on every failure path, every failure envelope of both handlers goes out with 400; success replies are unchanged |
| `Censor.LowerAppend` | censor/pkg/censor/censor.go:12 | lower-casing works character by character, so it distributes over concatenation |
| `Censor.LowerSlice` | censor/pkg/censor/censor.go:12 | lower-casing commutes with taking a slice, so an occurrence of a word stays an occurrence of its lower-cased form |
| `Censor.Contains` | censor/pkg/censor/censor.go:12 | true exactly when the word occurs at some position of the text |
| `Censor.IsCensored` | censor/pkg/censor/censor.go:8-19 | answers true exactly when one of "qwerty", "йцуке", "123", lower-cased, occurs in the lower-cased text |
| `Censor.IsCensoredBy` | censor/pkg/censor/censor.go:9-18 | the early-exit loop answers true exactly when some word of the list, lower-cased, occurs in the lower-cased text, so it returns false only after checking every word |
| `Censor.ReorderedAgrees` | censor/pkg/censor/censor.go:11-18 | the early-exit loop gives the same answer on any reordering of the word list |
| `Censor.AnyCaseIsCensored` | censor/pkg/censor/censor.go:12 | a text holding any spelling of a listed word that lower-cases to the word's own lower-case form is censored |
| `Censor.QwertyInAnyCase` | censor/pkg/censor/censor.go:5-12 | a text containing "QWERTY" or "Qwerty" is censored |
| `Censor.DigitsAreCensored` | censor/pkg/censor/censor.go:5-12 | a text containing "123" is censored |
| `Censor.EmptyIsNotCensored` | censor/pkg/censor/censor.go:5-12 | the empty text is not censored |
| `Censor.CaseInsensitive` | censor/pkg/censor/censor.go:12 | a text and its lower-cased form get the same verdict |
| `Censor.OrderIndependent` | censor/pkg/censor/censor.go:11-18 | reordering the word list does not change any verdict |
| `Censor.ExtendedStaysCensored` | censor/pkg/censor/censor.go:12 | adding text before or after a censored text keeps it censored |

## Findings

| source | as written | input that shows it | evidently intended | confidence | as-written member | corrected member |
|---|---|---|---|---|---|---|
| news/pkg/api/api.go:40-44 | on the decode-failure path the `BadResponse` is encoded before `WriteHeader(400)`. The write commits 200, so the 400 is superfluous. The same order is used at lines 55-59, 105-109 and 121-125. | a request body the decoder rejects (decode error "unexpected EOF"), or a context without "DB" | the failure envelope goes out with 400, as on the store-error paths, which write the status first (lines 72-76) | high; not executed | `NewsApi.MalformedBodyAnswersOK` | `NewsApi.StatusFirstFailuresAreBadRequest` |

The handler models keep the order as written, because they model the code. `StatusFirst`
is the corrected order, and the store-error paths already use it.

## Left out

- `StartAPI` and the liveness route (news/pkg/api/api.go:14-29): router and middleware wiring.
- The process entry points (news/cmd/news.go, censor/cmd/censor.go,
  comments/cmd/comments.go, api-gateway/cmd/api-gateway.go): environment loading and
  listening.
- JSON decoding and encoding internals. A decode is a given `Result`, and an encode is a
  given outcome. The model does not say whether an empty request id is omitted from the
  JSON, because the struct tags are not part of this model.
- The store, news/pkg/postgres: queries, regular-expression semantics, page clamping and
  page counting. It is an oracle whose answers are fixed functions of the arguments.
  Clamping appears only as an assumption (`ClampsPages`) in `ClampedStorePagination`.
- A typed nil `*database.DB` in the context passes the type check in the source. The model
  has no nil store, and what the store does when called on nil is not modelled.
- A failed write may leave part of an envelope on the wire. The model's body records only
  envelopes written in full.
- Informational 1xx status codes, which net/http does not treat as committing. The
  handlers only use 200 and 400.
- Logging of encoding errors, request-id generation, and concurrent requests.
- `Censor.LowerRune`: only Latin A-Z and Cyrillic U+0400-U+042F capitals are lower-cased.
  Every other character is left unchanged, rather than using Go's full Unicode case tables.
  No other capital lower-cases to a letter of the listed words. So the verdicts are the
  same as with the full tables, and only `Lower` itself differs on other scripts.
- Go strings are bytes; the model's strings are Unicode characters. A text that is not valid
  UTF-8 is outside the model. `strings.ToLower` would turn each invalid byte into U+FFFD,
  which no listed word contains, so the verdict would be the one for the repaired text. In
  particular `Censor.LowerAppend` holds for character sequences, not for arbitrary byte
  strings split inside a multi-byte character.
