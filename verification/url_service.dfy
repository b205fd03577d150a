/** The shortening service: slug generation, de-duplication by long URL,
short-URL formatting, and lazy expiry on resolution.

Randomness enters as the sequence of alphabet indices `random.choices`
drew; the clock enters as `now`, a timestamp in seconds.
 */
module UrlService {
  import opened Wrappers
  import opened DataAccess

  const AsciiLowercase := "abcdefghijklmnopqrstuvwxyz"
  const AsciiUppercase := "ABCDEFGHIJKLMNOPQRSTUVWXYZ"
  const Digits := "0123456789"
  /** `string.ascii_letters + string.digits`, in that order. */
  const Alphabet := AsciiLowercase + AsciiUppercase + Digits

  /** The default `length` of `generate_slug`. */
  const SlugLength := 6
  const ShortUrlPrefix := "https://tiny.io/"

  /** One draw of `random.choices`: an index into the 62-symbol alphabet. */
  type Draw = i: nat | i < 62

  predicate IsAsciiAlnum(c: char) {
    'a' <= c <= 'z' || 'A' <= c <= 'Z' || '0' <= c <= '9'
  }

  /** The shape of every slug the service generates. */
  predicate ValidSlug(s: string) {
    |s| == SlugLength && forall i :: 0 <= i < |s| ==> IsAsciiAlnum(s[i])
  }

  /** The position of an ASCII letter or digit in the alphabet. */
  function AlphabetIndex(c: char): Draw
    requires IsAsciiAlnum(c)
  {
    if 'a' <= c <= 'z' then c as int - 'a' as int
    else if 'A' <= c <= 'Z' then 26 + (c as int - 'A' as int)
    else 52 + (c as int - '0' as int)
  }

  /** The alphabet is exactly the ASCII letters and digits, each once. */
  lemma AlphabetFacts(k: Draw)
    ensures |Alphabet| == 62
    ensures IsAsciiAlnum(Alphabet[k])
    ensures AlphabetIndex(Alphabet[k]) == k
  {
  }

  lemma AlphabetIndexInverse(c: char)
    requires IsAsciiAlnum(c)
    ensures |Alphabet| == 62 && Alphabet[AlphabetIndex(c)] == c
  {
  }

  /** `generate_slug(length)`: one alphabet symbol per draw. */
  function GenerateSlug(length: nat, draws: seq<Draw>): (s: string)
    requires |draws| == length
    ensures |s| == length
    ensures forall i :: 0 <= i < |s| ==> IsAsciiAlnum(s[i])
  {
    seq(length, i requires 0 <= i < length => AlphabetSymbol(draws[i]))
  }

  /** The alphabet symbol a draw selects. */
  function AlphabetSymbol(k: Draw): (c: char)
    ensures IsAsciiAlnum(c) && AlphabetIndex(c) == k
  {
    AlphabetFacts(k);
    Alphabet[k]
  }

  /** The draws that make `generate_slug` produce `s`. */
  function DrawsOf(s: string): (d: seq<Draw>)
    requires forall i :: 0 <= i < |s| ==> IsAsciiAlnum(s[i])
    ensures |d| == |s|
  {
    seq(|s|, i requires 0 <= i < |s| => AlphabetIndex(s[i]))
  }

  /** Reading a generated slug back gives the draws it came from. */
  lemma DrawsOfGenerateSlug(length: nat, draws: seq<Draw>)
    requires |draws| == length
    ensures DrawsOf(GenerateSlug(length, draws)) == draws
  {
  }

  /** Every string of letters and digits is some outcome of `generate_slug`. */
  lemma GenerateSlugDrawsOf(s: string)
    requires forall i :: 0 <= i < |s| ==> IsAsciiAlnum(s[i])
    ensures GenerateSlug(|s|, DrawsOf(s)) == s
  {
    forall i | 0 <= i < |s|
      ensures AlphabetSymbol(AlphabetIndex(s[i])) == s[i]
    {
      AlphabetIndexInverse(s[i]);
    }
  }

  /** `f"https://tiny.io/{slug}"`. */
  function ShortUrl(slug: string): (u: string)
    ensures |u| == |ShortUrlPrefix| + |slug|
    ensures u[..|ShortUrlPrefix|] == ShortUrlPrefix && u[|ShortUrlPrefix|..] == slug
  {
    ShortUrlPrefix + slug
  }

  /** `url.split("/")[-1]`: the longest suffix of `s` without a slash. */
  function LastSegment(s: string): (r: string)
    ensures |r| <= |s| && r == s[|s| - |r|..]
    ensures '/' !in r
    ensures |r| < |s| ==> s[|s| - |r| - 1] == '/'
    decreases |s|
  {
    if s == [] then []
    else if s[|s| - 1] == '/' then []
    else
      var p := LastSegment(s[..|s| - 1]);
      assert s[|s| - 1 - |p|..] == s[..|s| - 1][|s| - 1 - |p|..] + [s[|s| - 1]];
      p + [s[|s| - 1]]
  }

  /** The slug of a short URL is recovered the way a client splits it. */
  lemma LastSegmentOfShortUrl(slug: string)
    requires '/' !in slug
    ensures LastSegment(ShortUrl(slug)) == slug
  {
    var u := ShortUrl(slug);
    assert u[|ShortUrlPrefix| - 1] == '/';
  }

  /** The row has an expiry and it lies strictly before `now`. */
  predicate Expired(row: Row, now: int) {
    row.expiresAt.Some? && row.expiresAt.value < now
  }

  /** Expiry is lazy but final: a row expired at `now` is expired at every
      later time, since nothing ever changes its `expires_at`. */
  lemma ExpiredStaysExpired(row: Row, now: int, later: int)
    requires Expired(row, now) && now <= later
    ensures Expired(row, later)
  {
  }

  /** `shorten_url`: an existing row for `longUrl` is reused as is (its
      expiry is not looked at and `expiresAt` is ignored); otherwise one fresh
      slug is generated and inserted, and a collision propagates as the
      insert's error with no retry. */
  ghost function ShortenUrl(db: Table, longUrl: string, expiresAt: Option<int>, draws: seq<Draw>): (r: Step<Result<string, StoreError>>)
    requires |draws| == SlugLength
    ensures HasUrl(db, longUrl) ==>
      && r.db == db
      && r.out.Success?
      && exists s :: s in db && db[s].longUrl == longUrl && r.out.value == ShortUrl(s)
    ensures !HasUrl(db, longUrl) ==>
      var slug := GenerateSlug(SlugLength, draws);
      if slug in db then
        r.db == db && r.out == Failure(DuplicateSlug(slug))
      else
        && r.out == Success(ShortUrl(slug))
        && r.db.Keys == db.Keys + {slug}
        && r.db[slug] == Row(longUrl, expiresAt, 0)
        && (forall s :: s in db ==> r.db[s] == db[s])
    ensures r.out.Success? ==> HasUrl(r.db, longUrl)
    ensures Evolves(db, r.db)
  {
    match GetSlugByUrl(db, longUrl)
    case Some(existing) => Step(db, Success(ShortUrl(existing.slug)))
    case None =>
      var slug := GenerateSlug(SlugLength, draws);
      var inserted := InsertUrl(db, slug, longUrl, expiresAt);
      match inserted.out
      case Pass => Step(inserted.db, Success(ShortUrl(slug)))
      case Fail(e) => Step(inserted.db, Failure(e))
  }

  /** `fetch_long_url`: resolves through `get_url`, so the click is counted
      even when the row then turns out to be expired; an expired row is
      reported as absent and stays in the table. */
  function FetchLongUrl(db: Table, slug: string, now: int): (r: Step<Option<string>>)
    ensures r.db == GetUrl(db, slug).db
    ensures slug in db ==> r.db.Keys == db.Keys && r.db[slug].clickCount == db[slug].clickCount + 1
    ensures r.out.Some? <==> slug in db && !Expired(db[slug], now)
    ensures r.out.Some? ==> r.out.value == db[slug].longUrl
  {
    var got := GetUrl(db, slug);
    match got.out
    case None => Step(got.db, None)
    case Some(row) =>
      if row.expiresAt.Some? && row.expiresAt.value < now then Step(got.db, None)
      else Step(got.db, Some(row.longUrl))
  }

  /** The expiry test is strict: a link resolves up to and including its
      expiry instant and stops one second later. */
  lemma ExpiryBoundary(db: Table, slug: string, now: int)
    requires slug in db && db[slug].expiresAt.Some?
    ensures db[slug].expiresAt.value == now - 1 ==> FetchLongUrl(db, slug, now).out == None
    ensures db[slug].expiresAt.value == now ==> FetchLongUrl(db, slug, now).out == Some(db[slug].longUrl)
    ensures db[slug].expiresAt.value == now + 3600 ==> FetchLongUrl(db, slug, now).out == Some(db[slug].longUrl)
  {
  }

  /** Every key of the table is a generated-shape slug. */
  predicate SlugsValid(db: Table) {
    forall s :: s in db ==> ValidSlug(s)
  }

  /** The invariant the service keeps over the table. */
  predicate ServiceInvariant(db: Table) {
    UniqueLongUrls(db) && SlugsValid(db)
  }

  lemma ShortenUrlKeepsInvariant(db: Table, longUrl: string, expiresAt: Option<int>, draws: seq<Draw>)
    requires |draws| == SlugLength
    requires ServiceInvariant(db)
    ensures ServiceInvariant(ShortenUrl(db, longUrl, expiresAt, draws).db)
  {
    if !HasUrl(db, longUrl) {
      InsertKeepsUnique(db, GenerateSlug(SlugLength, draws), longUrl, expiresAt);
    }
  }

  lemma FetchLongUrlKeepsInvariant(db: Table, slug: string, now: int)
    requires ServiceInvariant(db)
    ensures ServiceInvariant(FetchLongUrl(db, slug, now).db)
  {
    GetUrlKeepsUnique(db, slug);
  }

  /** Under the invariant, shortening a long URL that already has a row
      returns exactly that row's short URL, whatever its expiry. */
  lemma ShortenUrlExisting(db: Table, slug: string, expiresAt: Option<int>, draws: seq<Draw>)
    requires |draws| == SlugLength
    requires UniqueLongUrls(db)
    requires slug in db
    ensures ShortenUrl(db, db[slug].longUrl, expiresAt, draws) == Step(db, Success(ShortUrl(slug)))
  {
    GetSlugByUrlUnderInvariant(db, slug);
  }

  /** Shortening the same long URL twice on a table whose long URLs are
      unique: once the first call has succeeded, the second returns the same
      short URL and leaves the table alone. */
  lemma ShortenUrlIdempotent(db: Table, longUrl: string, e1: Option<int>, d1: seq<Draw>, e2: Option<int>, d2: seq<Draw>)
    requires |d1| == SlugLength && |d2| == SlugLength
    requires UniqueLongUrls(db)
    requires ShortenUrl(db, longUrl, e1, d1).out.Success?
    ensures
      var first := ShortenUrl(db, longUrl, e1, d1);
      ShortenUrl(first.db, longUrl, e2, d2) == first
  {
    var first := ShortenUrl(db, longUrl, e1, d1);
    if HasUrl(db, longUrl) {
      var slug :| slug in db && db[slug].longUrl == longUrl;
      ShortenUrlExisting(db, slug, e1, d1);
      ShortenUrlExisting(db, slug, e2, d2);
    } else {
      var slug := GenerateSlug(SlugLength, d1);
      GetSlugByUrlUnique(first.db, slug, longUrl);
    }
  }

  /** The slug of a successful short URL names a row for that long URL, and
      resolving it yields the long URL unless that row is expired. */
  lemma ShortenThenFetch(db: Table, longUrl: string, expiresAt: Option<int>, draws: seq<Draw>, now: int)
    requires |draws| == SlugLength
    requires SlugsValid(db)
    requires ShortenUrl(db, longUrl, expiresAt, draws).out.Success?
    ensures
      var r := ShortenUrl(db, longUrl, expiresAt, draws);
      var slug := LastSegment(r.out.value);
      && r.out.value == ShortUrl(slug)
      && slug in r.db
      && r.db[slug].longUrl == longUrl
      && FetchLongUrl(r.db, slug, now).out == (if Expired(r.db[slug], now) then None else Some(longUrl))
  {
    var r := ShortenUrl(db, longUrl, expiresAt, draws);
    var slug: string;
    if HasUrl(db, longUrl) {
      slug :| slug in db && db[slug].longUrl == longUrl && r.out.value == ShortUrl(slug);
    } else {
      slug := GenerateSlug(SlugLength, draws);
    }
    LastSegmentOfShortUrl(slug);
  }

  /** The round trip of a fresh long URL without expiry: resolving its slug
      gives the long URL back, at any time. */
  lemma RoundTripWithoutExpiry(db: Table, longUrl: string, draws: seq<Draw>, now: int)
    requires |draws| == SlugLength
    requires SlugsValid(db)
    requires !HasUrl(db, longUrl)
    requires ShortenUrl(db, longUrl, None, draws).out.Success?
    ensures
      var r := ShortenUrl(db, longUrl, None, draws);
      FetchLongUrl(r.db, LastSegment(r.out.value), now).out == Some(longUrl)
  {
    ShortenThenFetch(db, longUrl, None, draws, now);
  }

  /** De-duplication ignores expiry: a long URL whose row has expired is
      shortened to that same row's short URL, which then does not resolve. */
  lemma ShortenExpiredGivesDeadLink(db: Table, slug: string, expiresAt: Option<int>, draws: seq<Draw>, now: int)
    requires |draws| == SlugLength
    requires UniqueLongUrls(db)
    requires slug in db && Expired(db[slug], now)
    ensures
      var r := ShortenUrl(db, db[slug].longUrl, expiresAt, draws);
      && r == Step(db, Success(ShortUrl(slug)))
      && FetchLongUrl(r.db, slug, now).out == None
  {
    ShortenUrlExisting(db, slug, expiresAt, draws);
  }
}
