/** The `urls` table and the three statements the service issues against it.

The database is an immutable map from the primary key `slug` to the rest of
the row. Every operation is a function from the table before the statement
to the table after it, paired with what the statement returns.
 */
module DataAccess {
  import opened Wrappers

  /** A row of `urls` without its key. `expiresAt` is a timestamp in seconds,
      None when the column is NULL; `clickCount` starts at the column default 0. */
  datatype Row = Row(longUrl: string, expiresAt: Option<int>, clickCount: nat)

  /** A row together with its primary key, as a `select` returns it. */
  datatype Mapping = Mapping(slug: string, row: Row)

  type Table = map<string, Row>

  /** The only failure a statement here can raise: the primary-key violation. */
  datatype StoreError = DuplicateSlug(slug: string)

  /** The table after a statement, and the statement's result. */
  datatype Step<+T> = Step(db: Table, out: T)

  /** Some row of `db` holds `longUrl`. */
  predicate HasUrl(db: Table, longUrl: string) {
    exists s :: s in db && db[s].longUrl == longUrl
  }

  /** No two rows share a `long_url`: the schema does not enforce it, the
      service keeps it. */
  predicate UniqueLongUrls(db: Table) {
    forall s, t :: s in db && t in db && s != t ==> db[s].longUrl != db[t].longUrl
  }

  /** How the table may change over time: no row disappears, `long_url` and
      `expires_at` never change, and no `click_count` decreases. */
  predicate Evolves(db: Table, db': Table) {
    forall s :: s in db ==>
      && s in db'
      && db'[s].longUrl == db[s].longUrl
      && db'[s].expiresAt == db[s].expiresAt
      && db'[s].clickCount >= db[s].clickCount
  }

  lemma EvolvesReflexive(db: Table)
    ensures Evolves(db, db)
  {
  }

  lemma EvolvesTransitive(a: Table, b: Table, c: Table)
    requires Evolves(a, b) && Evolves(b, c)
    ensures Evolves(a, c)
  {
  }

  /** `insert_url`: inserts (slug, long_url, expires_at) and lets `click_count`
      take its default; a slug already present violates the primary key, the
      statement raises and nothing is written. */
  function InsertUrl(db: Table, slug: string, longUrl: string, expiresAt: Option<int>): (r: Step<Outcome<StoreError>>)
    ensures slug in db ==> r.out == Fail(DuplicateSlug(slug)) && r.db == db
    ensures slug !in db ==>
      && r.out == Pass
      && r.db.Keys == db.Keys + {slug}
      && r.db[slug] == Row(longUrl, expiresAt, 0)
      && (forall s :: s in db ==> r.db[s] == db[s])
    ensures Evolves(db, r.db)
  {
    if slug in db then Step(db, Fail(DuplicateSlug(slug)))
    else Step(db[slug := Row(longUrl, expiresAt, 0)], Pass)
  }

  /** `get_url`: selects the row by slug and, when there is one, bumps its
      `click_count`; the row returned is the one read before the update. */
  function GetUrl(db: Table, slug: string): (r: Step<Option<Row>>)
    ensures slug !in db ==> r.out == None && r.db == db
    ensures slug in db ==>
      && r.out == Some(db[slug])
      && r.db.Keys == db.Keys
      && r.db[slug].longUrl == db[slug].longUrl
      && r.db[slug].expiresAt == db[slug].expiresAt
      && r.db[slug].clickCount == db[slug].clickCount + 1
      && (forall s :: s in db && s != slug ==> r.db[s] == db[s])
    ensures Evolves(db, r.db)
  {
    if slug in db then
      var row := db[slug];
      Step(db[slug := row.(clickCount := row.clickCount + 1)], Some(row))
    else
      Step(db, None)
  }

  /** `get_slug_by_url`: the first row a `select ... where long_url = ?`
      yields. SQL fixes no order, so the model picks some matching row; it
      reads the table and returns no new one, so the table cannot change. */
  ghost function GetSlugByUrl(db: Table, longUrl: string): (r: Option<Mapping>)
    ensures r.Some? <==> HasUrl(db, longUrl)
    ensures r.Some? ==>
      && r.value.slug in db
      && db[r.value.slug] == r.value.row
      && r.value.row.longUrl == longUrl
  {
    if HasUrl(db, longUrl) then
      var s :| s in db && db[s].longUrl == longUrl;
      Some(Mapping(s, db[s]))
    else
      None
  }

  /** When `long_url` is held by one row only, that is the row found. */
  lemma GetSlugByUrlUnique(db: Table, slug: string, longUrl: string)
    requires slug in db && db[slug].longUrl == longUrl
    requires forall s :: s in db && s != slug ==> db[s].longUrl != longUrl
    ensures GetSlugByUrl(db, longUrl) == Some(Mapping(slug, db[slug]))
  {
  }

  /** Under the service's invariant every long URL finds its own row. */
  lemma GetSlugByUrlUnderInvariant(db: Table, slug: string)
    requires UniqueLongUrls(db)
    requires slug in db
    ensures GetSlugByUrl(db, db[slug].longUrl) == Some(Mapping(slug, db[slug]))
  {
    GetSlugByUrlUnique(db, slug, db[slug].longUrl);
  }

  /** A row just inserted is what the next lookup by slug returns, with a
      click counted; when its long URL was new, the lookup by URL finds it. */
  lemma InsertThenGet(db: Table, slug: string, longUrl: string, expiresAt: Option<int>)
    requires slug !in db
    ensures
      var after := InsertUrl(db, slug, longUrl, expiresAt).db;
      && GetUrl(after, slug).out == Some(Row(longUrl, expiresAt, 0))
      && GetUrl(after, slug).db[slug].clickCount == 1
      && (!HasUrl(db, longUrl) ==> GetSlugByUrl(after, longUrl) == Some(Mapping(slug, Row(longUrl, expiresAt, 0))))
  {
    var after := InsertUrl(db, slug, longUrl, expiresAt).db;
    if !HasUrl(db, longUrl) {
      GetSlugByUrlUnique(after, slug, longUrl);
    }
  }

  /** Inserting a fresh slug for a long URL nobody holds keeps long URLs unique. */
  lemma InsertKeepsUnique(db: Table, slug: string, longUrl: string, expiresAt: Option<int>)
    requires UniqueLongUrls(db)
    requires !HasUrl(db, longUrl)
    ensures UniqueLongUrls(InsertUrl(db, slug, longUrl, expiresAt).db)
  {
  }

  /** `get_url` changes counters only, so it keeps long URLs unique. */
  lemma GetUrlKeepsUnique(db: Table, slug: string)
    requires UniqueLongUrls(db)
    ensures UniqueLongUrls(GetUrl(db, slug).db)
  {
  }
}
