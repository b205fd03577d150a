/** The decision logic of the two HTTP endpoints: how `POST /shorten` turns
`expires_in_days` into an expiry and a service result into a response, and
how `GET /{slug}` turns a resolution into a redirect or a 404.
 */
module Api {
  import opened Wrappers
  import opened DataAccess
  import opened UrlService

  const SecondsPerDay := 86400
  /** `timedelta` refuses more than this many days either way. */
  const TimedeltaMaxDays := 999999999
  /** `datetime.min` and `datetime.max` (years 1 and 9999) in whole seconds
      since the Unix epoch. */
  const DatetimeMin := -62135596800
  const DatetimeMax := 253402300799

  /** The response an endpoint sends. */
  datatype Response =
    | Shortened(shortUrl: string)   // 200 with body {"short_url": ...}
    | Redirect(location: string)    // RedirectResponse
    | NotFound                      // HTTPException(404)
    | InternalError                 // HTTPException(500)

  /** The HTTP status each response carries: FastAPI's default 200, the 307
      of `RedirectResponse`, and the codes of the two `HTTPException`s. */
  function StatusCode(r: Response): (code: int)
    ensures 200 <= code < 300 <==> r.Shortened?
    ensures 300 <= code < 400 <==> r.Redirect?
    ensures 400 <= code < 500 <==> r == NotFound
    ensures 500 <= code < 600 <==> r == InternalError
  {
    match r
    case Shortened(_) => 200
    case Redirect(_) => 307
    case NotFound => 404
    case InternalError => 500
  }

  /** The exception `datetime + timedelta` raises outside its range. */
  datatype ApiError = DateOverflow

  /** The expiry `api_shorten_url` passes on: none when `expires_in_days` is
      falsy (None or 0); otherwise `now` plus that many days, which raises
      when the day count or the resulting date is out of range. */
  function ExpiresAt(now: int, expiresInDays: Option<int>): (r: Result<Option<int>, ApiError>)
    ensures expiresInDays == None || expiresInDays == Some(0) ==> r == Success(None)
    ensures expiresInDays.Some? && expiresInDays.value != 0 ==>
      var t := now + expiresInDays.value * SecondsPerDay;
      && (r.Success? <==> -TimedeltaMaxDays <= expiresInDays.value <= TimedeltaMaxDays && DatetimeMin <= t <= DatetimeMax)
      && (r.Success? ==> r.value == Some(t))
    ensures r.Success? && r.value.Some? ==> (r.value.value < now <==> expiresInDays.value < 0)
  {
    match expiresInDays
    case None => Success(None)
    case Some(days) =>
      if days == 0 then Success(None)
      else if days < -TimedeltaMaxDays || days > TimedeltaMaxDays then Failure(DateOverflow)
      else
        var t := now + days * SecondsPerDay;
        if t < DatetimeMin || t > DatetimeMax then Failure(DateOverflow)
        else Success(Some(t))
  }

  /** A link created for `days` days at `now` resolves up to and including
      `now + days * 86400` and is expired at every later time. */
  lemma ExpiryWindow(now: int, days: int, row: Row)
    requires ExpiresAt(now, Some(days)).Success?
    requires row.expiresAt == ExpiresAt(now, Some(days)).value
    ensures days != 0 ==> forall later :: Expired(row, later) <==> later > now + days * SecondsPerDay
    ensures days == 0 ==> forall later :: !Expired(row, later)
  {
  }

  /** `api_shorten_url`: any exception raised while computing the expiry or
      shortening becomes a 500; otherwise the short URL is returned with 200. */
  ghost function ApiShortenUrl(db: Table, now: int, url: string, expiresInDays: Option<int>, draws: seq<Draw>): (r: Step<Response>)
    requires |draws| == SlugLength
    ensures r.out.Shortened? || r.out == InternalError
    ensures r.out.Shortened? ==> ShortUrlPrefix <= r.out.shortUrl
    ensures ExpiresAt(now, expiresInDays).Failure? ==> r == Step(db, InternalError)
    ensures ExpiresAt(now, expiresInDays).Success? ==>
      var s := ShortenUrl(db, url, ExpiresAt(now, expiresInDays).value, draws);
      && r.db == s.db
      && (r.out.Shortened? <==> s.out.Success?)
      && (s.out.Success? ==> r.out.shortUrl == s.out.value)
    ensures Evolves(db, r.db)
  {
    match ExpiresAt(now, expiresInDays)
    case Failure(_) => Step(db, InternalError)
    case Success(expiresAt) =>
      var s := ShortenUrl(db, url, expiresAt, draws);
      match s.out
      case Success(shortUrl) => Step(s.db, Shortened(shortUrl))
      case Failure(_) => Step(s.db, InternalError)
  }

  /** `api_redirect_url`: a truthy (found, unexpired, non-empty) long URL is a
      redirect to exactly that URL; anything else is a 404. */
  function ApiRedirectUrl(db: Table, slug: string, now: int): (r: Step<Response>)
    ensures r.out.Redirect? || r.out == NotFound
    ensures r.db == FetchLongUrl(db, slug, now).db
    ensures r.out.Redirect? <==> slug in db && !Expired(db[slug], now) && db[slug].longUrl != ""
    ensures r.out.Redirect? ==> r.out.location == db[slug].longUrl
  {
    var fetched := FetchLongUrl(db, slug, now);
    match fetched.out
    case Some(longUrl) =>
      if longUrl != "" then Step(fetched.db, Redirect(longUrl))
      else Step(fetched.db, NotFound)
    case None => Step(fetched.db, NotFound)
  }

  /** The status codes the two endpoints can answer with. */
  lemma StatusCodes(db: Table, now: int, url: string, expiresInDays: Option<int>, draws: seq<Draw>, slug: string)
    requires |draws| == SlugLength
    ensures StatusCode(ApiShortenUrl(db, now, url, expiresInDays, draws).out) in {200, 500}
    ensures StatusCode(ApiRedirectUrl(db, slug, now).out) in {307, 404}
  {
  }

  /** A slug that collides with another long URL's row makes the request fail
      with 500 and writes nothing: there is no retry with a fresh slug. */
  lemma CollisionIsServerError(db: Table, now: int, url: string, expiresInDays: Option<int>, draws: seq<Draw>)
    requires |draws| == SlugLength
    requires !HasUrl(db, url)
    requires GenerateSlug(SlugLength, draws) in db
    ensures ApiShortenUrl(db, now, url, expiresInDays, draws) == Step(db, InternalError)
  {
  }

  /** `expires_in_days = 0` is falsy, so the link never expires: the fresh
      link still redirects at any later time. */
  lemma ZeroDaysNeverExpires(db: Table, now: int, later: int, url: string, draws: seq<Draw>)
    requires |draws| == SlugLength
    requires SlugsValid(db)
    requires !HasUrl(db, url) && url != ""
    requires GenerateSlug(SlugLength, draws) !in db
    ensures
      var r := ApiShortenUrl(db, now, url, Some(0), draws);
      && r.out.Shortened?
      && ApiRedirectUrl(r.db, LastSegment(r.out.shortUrl), later).out == Redirect(url)
  {
    RoundTripWithoutExpiry(db, url, draws, later);
  }

  /** Shortening then redirecting by the last path segment of the returned
      short URL lands on the long URL, unless its row is expired by then. */
  lemma ShortenThenRedirect(db: Table, now: int, later: int, url: string, expiresInDays: Option<int>, draws: seq<Draw>)
    requires |draws| == SlugLength
    requires SlugsValid(db)
    requires url != ""
    requires ApiShortenUrl(db, now, url, expiresInDays, draws).out.Shortened?
    ensures
      var r := ApiShortenUrl(db, now, url, expiresInDays, draws);
      var slug := LastSegment(r.out.shortUrl);
      && slug in r.db
      && (ApiRedirectUrl(r.db, slug, later).out == Redirect(url) <==> !Expired(r.db[slug], later))
  {
    var e := ExpiresAt(now, expiresInDays).value;
    ShortenThenFetch(db, url, e, draws, later);
  }
}
