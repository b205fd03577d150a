# URL shortener: a verified Dafny model

This project models the core of a small URL-shortening service. The service
stores slug-to-URL mappings in a single `urls` table. `POST /shorten` turns a
long URL into `https://tiny.io/<slug>`. `GET /<slug>` redirects to the long
URL, unless the mapping is missing or expired.

The model is a state machine over an immutable table
`map<string, Row>`. The key is the `slug` primary key. A row holds
`long_url`, an optional `expires_at` and a `click_count` that starts at 0.
Each operation is a function from the table before the call to a
`Step(db, out)`, which pairs the table after the call with the call's result.

- `DataAccess` (`data_access.dfy`) models the table and its three statements:
  insert, lookup by slug with a click increment, and lookup by long URL.
- `UrlService` (`url_service.dfy`) models slug generation, de-duplicated
  shortening, and resolution with lazy expiry.
- `Api` (`api.dfy`) models the decision logic of the two endpoints.
- `Sessions` (`sessions.dfy`) runs sequences of requests against one table.
  It states what holds over time: counters only grow, long URLs stay unique,
  and N visits add N clicks.
- `Wrappers` (`wrappers.dfy`) defines Option, Result and Outcome.

Two things are parameters, so the verified core is deterministic:

- Randomness: `generate_slug` takes the indices that `random.choices` drew,
  each below 62.
- The clock: `now` is an integer number of seconds since the Unix epoch.

`get_slug_by_url` uses `fetchone()` on a query with no `ORDER BY`, so the
row it returns is not fixed. The model picks a matching row with a ghost
choice. That makes `GetSlugByUrl`, `ShortenUrl` and everything built on them
ghost. The choice is a fixed function of the table and the long URL, so the
model also returns the same row for the same table every time; the
database does not promise that when several rows match. Under the
service's invariant (no two rows share a long URL) only one row matches,
`GetSlugByUrlUnderInvariant` proves which row it is, and the lemmas that
compare two lookups (`ShortenUrlIdempotent`) require that invariant.

Behaviour worth knowing, all proved below:

- De-duplication ignores expiry. Shortening a long URL whose row has expired
  returns that row's short URL, and that URL no longer resolves
  (`ShortenExpiredGivesDeadLink`).
- A slug collision is not retried. The primary-key error propagates, and
  the endpoint answers 500 (`CollisionIsServerError`).
- The expiry test is strict `<`. The click is counted before the test, so an
  expired link's counter still grows, and the row is never deleted.
- `expires_in_days` is checked for truthiness (`if request.expires_in_days:`),
  so `0` means no expiry, exactly like `None`. `ZeroDaysNeverExpires` proves
  that a link created with 0 days still redirects at any later time.
- The redirect endpoint checks the resolved URL for truthiness. A row whose
  `long_url` is the empty string therefore answers 404.
- `datetime + timedelta` raises `OverflowError` when the day count or the
  resulting date is out of range. `api_shorten_url` catches that as a
  generic exception and answers 500. `ExpiresAt` models the range checks.

## Model

| member | source | states |
|---|---|---|
| DataAccess.InsertUrl | api/database/data_access.py:58-69 | a fresh slug gains exactly the row (long_url, expires_at, 0) and every other row is kept; a present slug fails with the primary-key error and the table is unchanged |
| DataAccess.GetUrl | api/database/data_access.py:72-87 | an absent slug gives None and no change; a present slug returns the row as it was before the update, its click_count goes up by exactly 1, and its long_url, its expires_at and every other row stay the same |
| DataAccess.GetSlugByUrl | api/database/data_access.py:90-102 | returns a row iff some row holds that long_url, and the row returned is a row of the table with that long_url; the call returns no table, so it cannot change one |
| DataAccess.GetSlugByUrlUnique | api/database/data_access.py:101-102 | when exactly one row holds the long_url, that row is the one found |
| DataAccess.GetSlugByUrlUnderInvariant | api/database/data_access.py:101-102 | when long URLs are unique across rows, looking up any row's long_url finds that row |
| DataAccess.InsertThenGet | api/database/data_access.py:68-87 | after inserting a fresh slug, looking it up returns exactly the inserted row with count 0 and records one click; a new long URL's lookup by URL finds that row |
| DataAccess.InsertKeepsUnique | api/services/url_service.py:51-57 | inserting a row for a long URL that no row holds keeps long URLs unique |
| DataAccess.GetUrlKeepsUnique | api/database/data_access.py:83-86 | the click update keeps long URLs unique |
| UrlService.AlphabetFacts | api/services/url_service.py:33 | the alphabet has 62 symbols, each an ASCII letter or digit, each at its own index |
| UrlService.AlphabetIndexInverse | api/services/url_service.py:33 | every ASCII letter or digit occurs in the alphabet |
| UrlService.GenerateSlug | api/services/url_service.py:23-33 | the slug has the requested length and only ASCII letters and digits |
| UrlService.DrawsOfGenerateSlug | api/services/url_service.py:33 | distinct draws give distinct slugs: the draws can be read back from the slug |
| UrlService.GenerateSlugDrawsOf | api/services/url_service.py:33 | every string of ASCII letters and digits is an outcome of generate_slug, so with the default length its outcomes are exactly the valid 6-character slugs |
| UrlService.ShortUrl | api/services/url_service.py:58 | the short URL is the prefix https://tiny.io/ followed by exactly the slug |
| UrlService.LastSegment | tests/test_api.py:27 | the result is the longest suffix of the URL that contains no slash |
| UrlService.LastSegmentOfShortUrl | tests/test_api.py:26-27 | splitting a short URL on "/" and taking the last part gives back a slash-free slug |
| UrlService.ShortenUrl | api/services/url_service.py:36-62 | a long URL with a row gives that row's short URL and no change, whatever the expiry; otherwise a fresh slug adds exactly one row (given expires_at, count 0), or a colliding slug raises the primary-key error with the table unchanged; the table only evolves |
| UrlService.FetchLongUrl | api/services/url_service.py:65-89 | the click is counted whenever the slug exists; the result is present iff the slug exists and is not expired (expires_at unset or not strictly before now), and it is then the row's long_url |
| UrlService.ExpiredStaysExpired | api/services/url_service.py:82 | a row expired at some time is expired at every later time |
| UrlService.ExpiryBoundary | api/services/url_service.py:82 | a link expiring one second ago does not resolve; one expiring now or in an hour does |
| UrlService.ShortenUrlKeepsInvariant | api/services/url_service.py:51-59 | shortening keeps long URLs unique and every key a valid slug |
| UrlService.FetchLongUrlKeepsInvariant | api/services/url_service.py:80-86 | resolving keeps long URLs unique and every key a valid slug |
| UrlService.ShortenUrlExisting | api/services/url_service.py:51-53 | under the invariant, shortening a long URL that already has a row returns exactly that row's short URL and changes nothing |
| UrlService.ShortenUrlIdempotent | api/services/url_service.py:51-59 | on a table whose long URLs are unique, after a successful shorten, shortening the same URL again returns the same short URL and leaves the table as it was, whatever expiry and draws the second call gets |
| UrlService.ShortenThenFetch | api/services/url_service.py:51-86 | the last path segment of a short URL names a row for the long URL, and resolving it gives the long URL unless that row is expired |
| UrlService.RoundTripWithoutExpiry | api/services/url_service.py:54-85 | shortening a new long URL without expiry and then resolving its slug gives the long URL back at any time |
| UrlService.ShortenExpiredGivesDeadLink | api/services/url_service.py:51-53 | an expired long URL is shortened to its old short URL, which then does not resolve |
| Api.ExpiresAt | api/api.py:54-56 | None or 0 days gives no expiry; otherwise now + days*86400, which is in the past iff days is negative, or an overflow error outside timedelta's and datetime's range |
| Api.ExpiryWindow | api/api.py:54-56 | a link created for a nonzero number of days resolves until exactly now + days*86400 and is expired at every later second; one created for 0 days never expires |
| Api.ApiShortenUrl | api/api.py:53-64 | the answer is 200 with the service's short URL, which starts with https://tiny.io/, iff the expiry computation and the shortening both succeed; otherwise 500 |
| Api.ApiRedirectUrl | api/api.py:82-88 | a redirect to exactly the row's long_url iff the slug exists, is not expired and its long_url is non-empty; otherwise 404; the table changes as the resolution changes it |
| Api.StatusCode | api/api.py:58-88 | a 2xx status is exactly the shortened-URL answer, a 3xx exactly the redirect, a 4xx exactly the not-found answer and a 5xx exactly the server error |
| Api.StatusCodes | api/api.py:53-88 | shortening answers 200 or 500; redirecting answers 307 or 404 |
| Api.CollisionIsServerError | api/services/url_service.py:56-62 | a new long URL whose generated slug is taken gets 500 and the table is unchanged |
| Api.ZeroDaysNeverExpires | api/api.py:55 | a link created with expires_in_days = 0 still redirects at any later time |
| Api.ShortenThenRedirect | tests/test_api.py:23-32 | after a 200 from shortening, requesting the short URL's last segment redirects to the long URL iff its row is not expired |
| Sessions.Handle | api/api.py:38-88 | a shorten request answers 200 or 500, a redirect request 307 or 404, a visit of an unknown slug is a 404 that changes nothing, and the table only evolves |
| Sessions.Serve | api/api.py:38-88 | a run gives one response per request, in order: a redirect or 404 for each visit, a 200 or 500 for each shorten |
| Sessions.ServeEvolves | api/database/data_access.py:83-86 | over any run no row is deleted, no long_url or expires_at changes, and no click_count decreases |
| Sessions.HandleKeepsInvariant | api/services/url_service.py:51-59 | one request keeps long URLs unique and every key a valid slug |
| Sessions.ServeKeepsInvariant | api/services/url_service.py:51-57 | over any run long URLs stay unique across rows and every key stays a valid slug |
| Sessions.VisitsCountClicks | api/database/data_access.py:84-86 | N visits of an existing slug add exactly N clicks, expired or not, and change nothing else |
| Sessions.VisitsOfUnknownSlug | api/services/url_service.py:80-86 | visits of a slug that was never issued all answer 404 and change nothing |

## Left out

- Database plumbing is not modelled: the SQLAlchemy engine, sessions, `get_db`, table creation and the `DATABASE_URL` setting. The table is an abstract map instead.
- Storage faults other than the primary-key violation are not modelled, such as a lost connection. So the log-and-re-raise path of `fetch_long_url` is never taken, and neither is the 500 a failure there would give `api_redirect_url`.
- FastAPI routing, uvicorn startup and logging are framework behaviour and are left out. A `RedirectRequest` models only a request that reaches `api_redirect_url`. `FastAPI()` registers `/openapi.json`, `/docs`, `/docs/oauth2-redirect` and `/redoc` ahead of `/{slug}`, so a `GET` of one of those paths never reaches it, even when a row has that slug.
- Pydantic's `AnyHttpUrl` validation and normalisation are left out. The model takes the long URL as the string the service receives. For example, it does not add the trailing `/` the test expects.
- The distribution of `random.choices` and the odds of a collision are left out. A slug is whatever the given draws spell.
- UrlService.GenerateSlug: `length` is a `nat`, so the model leaves out `generate_slug` with a negative length, which Python answers with `""`. The service only ever uses the default length 6.
- `datetime.utcnow()` and sub-second precision are not modelled. Times are whole seconds passed in as `now`, so a comparison within one second is not modelled.
- Concurrent requests and the atomicity of the click increment are outside a sequential model.
- The 64-bit limit of SQLite's INTEGER column is not modelled. `click_count` is an unbounded natural number.
- DataAccess.GetSlugByUrl: SQL fixes no row order. The model returns some matching row, and the same row for the same table on every call; the database promises neither when several rows match. Under the unique-long-URL invariant only one row matches, and `GetSlugByUrlUnderInvariant` pins it down.
- `Redirect(location)` is the URL handed to `RedirectResponse`, not the `Location` header. Starlette percent-quotes that URL (keeping `:/%#?=@[]!$&'()*+,;`), so a stored long URL with other special characters, such as `|` or `^`, is not sent verbatim. The quoting is not modelled.
