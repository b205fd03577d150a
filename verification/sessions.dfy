/** Sequences of requests against one table: what the endpoints, taken
together and in order, do to the store over time.
 */
module Sessions {
  import opened Wrappers
  import opened DataAccess
  import opened UrlService
  import opened Api

  /** One HTTP request, with the clock reading and the random draws it sees. */
  datatype Request =
    | ShortenRequest(url: string, expiresInDays: Option<int>, now: int, draws: seq<Draw>)
    | RedirectRequest(slug: string, now: int)

  /** Every shorten request carries one draw per slug character. */
  predicate WellFormed(reqs: seq<Request>) {
    forall r :: r in reqs && r.ShortenRequest? ==> |r.draws| == SlugLength
  }

  /** Routes a request to its endpoint: `POST /shorten` or `GET /{slug}`. */
  ghost function Handle(db: Table, req: Request): (r: Step<Response>)
    requires req.ShortenRequest? ==> |req.draws| == SlugLength
    ensures req.ShortenRequest? ==> StatusCode(r.out) == 200 || StatusCode(r.out) == 500
    ensures req.RedirectRequest? ==> StatusCode(r.out) == 307 || StatusCode(r.out) == 404
    ensures req.RedirectRequest? && req.slug !in db ==> r == Step(db, NotFound)
    ensures Evolves(db, r.db)
  {
    match req
    case ShortenRequest(url, days, now, draws) => ApiShortenUrl(db, now, url, days, draws)
    case RedirectRequest(slug, now) => ApiRedirectUrl(db, slug, now)
  }

  /** Serves the requests one after another, each on the table the previous
      one left; one response per request, in order. */
  ghost function Serve(db: Table, reqs: seq<Request>): (r: Step<seq<Response>>)
    requires WellFormed(reqs)
    ensures |r.out| == |reqs|
    ensures forall i :: 0 <= i < |reqs| && reqs[i].RedirectRequest? ==> r.out[i].Redirect? || r.out[i] == NotFound
    ensures forall i :: 0 <= i < |reqs| && reqs[i].ShortenRequest? ==> r.out[i].Shortened? || r.out[i] == InternalError
    decreases |reqs|
  {
    if reqs == [] then Step(db, [])
    else
      var first := Handle(db, reqs[0]);
      var rest := Serve(first.db, reqs[1..]);
      Step(rest.db, [first.out] + rest.out)
  }

  /** Over any run of requests no row is deleted, no `long_url` or
      `expires_at` changes and no `click_count` decreases. */
  lemma {:induction false} ServeEvolves(db: Table, reqs: seq<Request>)
    requires WellFormed(reqs)
    ensures Evolves(db, Serve(db, reqs).db)
    decreases |reqs|
  {
    if reqs == [] {
      EvolvesReflexive(db);
    } else {
      var first := Handle(db, reqs[0]);
      ServeEvolves(first.db, reqs[1..]);
      EvolvesTransitive(db, first.db, Serve(first.db, reqs[1..]).db);
    }
  }

  lemma HandleKeepsInvariant(db: Table, req: Request)
    requires req.ShortenRequest? ==> |req.draws| == SlugLength
    requires ServiceInvariant(db)
    ensures ServiceInvariant(Handle(db, req).db)
  {
    match req
    case ShortenRequest(url, days, now, draws) =>
      if ExpiresAt(now, days).Success? {
        ShortenUrlKeepsInvariant(db, url, ExpiresAt(now, days).value, draws);
      }
    case RedirectRequest(slug, now) =>
      FetchLongUrlKeepsInvariant(db, slug, now);
  }

  /** Over any run of requests long URLs stay unique across rows and every
      key stays a valid slug. */
  lemma {:induction false} ServeKeepsInvariant(db: Table, reqs: seq<Request>)
    requires WellFormed(reqs)
    requires ServiceInvariant(db)
    ensures ServiceInvariant(Serve(db, reqs).db)
    decreases |reqs|
  {
    if reqs != [] {
      HandleKeepsInvariant(db, reqs[0]);
      ServeKeepsInvariant(Handle(db, reqs[0]).db, reqs[1..]);
    }
  }

  /** Every request is a visit of `slug`, at whatever time. */
  predicate AllVisit(reqs: seq<Request>, slug: string) {
    forall r :: r in reqs ==> r.RedirectRequest? && r.slug == slug
  }

  /** N visits of an existing slug add exactly N clicks to it, expired or
      not, and touch no other row. */
  lemma {:induction false} VisitsCountClicks(db: Table, slug: string, reqs: seq<Request>)
    requires slug in db
    requires AllVisit(reqs, slug)
    ensures WellFormed(reqs)
    ensures
      var after := Serve(db, reqs).db;
      && after.Keys == db.Keys
      && after[slug].clickCount == db[slug].clickCount + |reqs|
      && after[slug].longUrl == db[slug].longUrl
      && after[slug].expiresAt == db[slug].expiresAt
      && (forall s :: s in db && s != slug ==> after[s] == db[s])
    decreases |reqs|
  {
    if reqs != [] {
      assert reqs[0] in reqs;
      var first := Handle(db, reqs[0]);
      assert AllVisit(reqs[1..], slug) by {
        forall r | r in reqs[1..] ensures r in reqs { }
      }
      VisitsCountClicks(first.db, slug, reqs[1..]);
    }
  }

  /** Visits of a slug nobody issued change nothing and all answer 404. */
  lemma {:induction false} VisitsOfUnknownSlug(db: Table, slug: string, reqs: seq<Request>)
    requires slug !in db
    requires AllVisit(reqs, slug)
    ensures WellFormed(reqs)
    ensures Serve(db, reqs).db == db
    ensures forall i :: 0 <= i < |reqs| ==> Serve(db, reqs).out[i] == NotFound
    decreases |reqs|
  {
    if reqs != [] {
      assert reqs[0] in reqs;
      assert Handle(db, reqs[0]) == Step(db, NotFound);
      assert AllVisit(reqs[1..], slug) by {
        forall r | r in reqs[1..] ensures r in reqs { }
      }
      VisitsOfUnknownSlug(db, slug, reqs[1..]);
    }
  }
}
