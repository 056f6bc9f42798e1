# S3 content search: a Dafny model of the search engine

This project models the search engine of an S3 content-search service
(`server/internal/search/search.go`). Given a bucket, a byte pattern, a wanted
result count and an optional last-modified window, the engine works as follows:

- It checks that the bucket exists (HeadBucket).
- It lists the bucket page by page.
- On each page it skips objects outside the time window or above the 500 MiB size cap.
- It downloads every remaining object and feeds the bytes, one at a time, to a fresh
  Rabin–Karp matcher.
- It keeps the objects whose matcher reports a hit.
- It stops listing once at least the wanted number of hits has been gathered after
  a page.

The model is organised in four modules:

- `SearchTypes` (`types.dfy`): the request `SReq`, the listed `Object`, the
  outcomes of the storage calls (`Download`, `ListResponse`) and the constants
  `MaxAllowedFileSize` (500·2^20) and `MaxObjectSizePerRequest` (1000). The
  storage service and the matcher are not modelled. They appear as inputs:
  - an `Env` with `fetch(bucket, key, size)`, the outcome of a download;
  - `detects(pattern, consumed)`, which says whether a fresh matcher reports a hit
    on the last byte after being fed exactly `consumed`.
- `Matching` (`matching.dfy`):
  - the class `RabinKarp`, a stateful matcher whose answer depends only on the bytes
    it has consumed;
  - the method `Found`, the early-exit loop of `found`, proved against the predicate
    `Matches`.
- `Selection` (`selection.dfy`):
  - the eligibility filter (`InWindow`, `Eligible`);
  - the method `Search`, the per-page loop of `search`. It is proved to hand
    exactly the eligible objects to `Found`. Its result is proved equal, as a
    multiset, to `PageHits`, the page's selected objects.
  - lemmas on both.
- `Pagination` (`pagination.dfy`):
  - the specification `Paginate` of the listing walk with its stop rule. It runs
    over page outcomes (`PageOutcome`): either a page's hits or the listing
    error. `Walk` applies it to the outcomes of a bucket's listing responses;
  - the methods `Start` and `ListPages`, proved against it;
  - lemmas for page order, the stop rule, the overshoot bound and the error paths.

The source checks a page's objects concurrently and appends hits in whatever
order the checks complete. The model checks them one after another. `Search`
promises only the multiset of its result. `Start` returns, as the ghost `pages`,
the chunk each page appended. Each chunk is a permutation of that page's hits
in listing order. The chunks themselves are joined in page order.

## Model

| member | source | states |
|---|---|---|
| `Matching.RabinKarp.constructor` | server/internal/search/search.go:166 | a fresh matcher for the pattern has consumed nothing |
| `Matching.RabinKarp.SearchNextChar` | server/internal/search/search.go:166-169 | feeding one byte extends the consumed bytes by that byte; the answer is the matcher's verdict on the consumed bytes |
| `Matching.Found` | server/internal/search/search.go:150-175 | a download error gives `false` without feeding any byte; otherwise the result is `true` iff some prefix of the bytes makes the matcher report a hit; on `true` exactly the bytes up to the first hit were fed and no earlier byte hit; on `false` all bytes were fed |
| `Matching.ExactMatcherFindsSubstring` | server/internal/search/search.go:159-174 | for a non-empty pattern and a matcher that reports a hit exactly when the consumed bytes end with the pattern, `found` is true iff the download succeeds and the pattern occurs in the bytes |
| `Selection.Candidates` | server/internal/search/search.go:117-129 | every object that passes the filter is on the page and eligible |
| `Selection.CandidatesCount` | server/internal/search/search.go:117-129 | the filter passes on an object as often as the page lists it when it is eligible, and never otherwise; so every eligible object on the page, including one of exactly 500·2^20 bytes, is handed to `found` |
| `Selection.Search` | server/internal/search/search.go:111-145 | the objects handed to `found` are exactly the page's eligible objects, in listing order; so none is above the size cap or outside the window. The result equals the page's eligible-and-matching objects as a multiset |
| `Selection.SizeCap` | server/internal/search/search.go:127-129 | an object above `MaxAllowedFileSize` (line 22) is never eligible; one of exactly 500·2^20 bytes is eligible iff it passes the time filter |
| `Selection.TimeFilterInert` | server/internal/search/search.go:118-125 | when `EndDate <= StartDate`, eligibility depends on the size alone |
| `Selection.TimeWindowInclusive` | server/internal/search/search.go:119-124 | when the time filter is active, `StartDate` and `EndDate` themselves pass; one second before a non-zero start or after a non-zero end does not |
| `Selection.PageHitsCount` | server/internal/search/search.go:117-144 | an object occurs in a page's result as often as in the page when it is eligible and matches, and never otherwise |
| `Selection.PageHitsExactly` | server/internal/search/search.go:117-144 | a page's result holds exactly the page's eligible and matching objects; nothing from outside the page; each at most as often as the page lists it; no more objects than the page |
| `Selection.ScheduleIndependent` | server/internal/search/search.go:131-143 | checking a page's objects in any order selects the same multiset of hits |
| `Pagination.Start` | server/internal/search/search.go:70-106 | a failed HeadBucket returns that error with no listing request; otherwise the result fails iff the listing walk hits an error, with that error and no partial hits; on success the result is the pages' chunks joined in page order; each chunk is a permutation of that page's hits; the number of listing requests is the walk's |
| `Pagination.ListPages` | server/internal/search/search.go:84-106 | the listing loop's result, chunks and request count agree with `Walk`: an error discards the gathered hits; success returns the chunks joined in page order |
| `Pagination.PaginateVisitsPrefix` | server/internal/search/search.go:90-100 | the walk delivers a prefix of the listing in page order; the k-th chunk is exactly the k-th page's hits; an error stops it at the failed response |
| `Pagination.PaginateStopRule` | server/internal/search/search.go:96-99 | after a page that is not the last, the next page is requested iff fewer than `ResultCount` hits have been gathered; a walk that stops early without error has gathered at least `ResultCount` |
| `Pagination.PaginateReachesError` | server/internal/search/search.go:92-104 | if every page before a failed response leaves fewer than `ResultCount` hits, the walk fails with that error, whatever hits it had gathered |
| `Pagination.PaginateWithoutErrors` | server/internal/search/search.go:92-106 | a listing with no failed response never fails |
| `Pagination.WholePageKept` | server/internal/search/search.go:92-100 | when a page that is not the last brings the count to `ResultCount`, no further page is requested and all of that page's hits are kept |
| `Pagination.PaginateOvershoot` | server/internal/search/search.go:94-99 | the hits gathered before the final page are at most `ResultCount - 1` (or the starting count), so the result exceeds the request by at most the final page's hits |
| `Pagination.StartOvershootBound` | server/internal/search/search.go:84-99 | with pages of at most `MaxKeys` = 1000 objects (line 87), a successful search returns at most `max(ResultCount - 1, 0) + 1000` objects |
| `Pagination.FlattenPrefix` | server/internal/search/search.go:94-97 | the hits of the first k pages are a prefix of the joined result: earlier pages' hits are never removed or reordered |
| `Pagination.SameUpToOrderFlatten` | server/internal/search/search.go:94-97 | reordering hits within pages leaves the joined result the same multiset |

## Left out

- `internal/api/api.go` is not part of this model. It covers HTTP routing, request binding and validation, status-code mapping, server shutdown and the process-wide globals. It is all I/O and lifecycle.
- `NewS`, `GetBuckets`, `newSession` and the Localstack endpoint are left out: session and credential set-up and bucket enumeration are network clients.
- The AWS SDK calls become inputs:
  - HeadBucket is an `Option<Error>`.
  - The paginated listing is a sequence of responses, each a page or an error. A page is the last one when no response follows it.
  - A download is `Env.fetch`, which gives the bytes of the download buffer or an error.
- `S3DownloadPartSize` and the downloader's part-wise transfer are left out. They are internals of the download call.
- `Env.fetch` gives the buffer's final contents directly. Pre-sizing the buffer to the listed size is left inside that call.
- The `context.Context` argument, cancellation and the log line on a download error are not modelled.
- Goroutines, the `WaitGroup` and the mutex in `search` are not modelled. `Search` checks the objects sequentially, in listing order. It promises only the multiset of its result, because the source's append order depends on scheduling.
- The internals of the `rabinkarp` package (hash, base, modulus, rolling update) are not part of this model. The matcher is the opaque oracle `detects` over the bytes consumed.
- `Matching.ExactMatcherFindsSubstring` states substring exactness only under an explicit assumption about the matcher. The `rabinkarp` package's code is outside this model, so nothing here establishes this assumption.
- Not modelled, because `search.go` does not implement them: a bounded worker pool, streaming the download into the matcher, exact verification after a hash hit, partial results on cancellation.
- Go's nil-pointer dereferences (`*c.Size`, `*obj.Key`) are not modelled. Object sizes are `nat`, since `make([]byte, size)` rejects negative sizes.
- The 64-bit width of sizes, dates and counts is not modelled. The engine only compares them, and the hit count cannot approach that width.
