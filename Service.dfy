/**
 * The service's shared state: the `URLMapping` table, held in one object whose
 * create handler inserts into it and whose redirect handler only reads it.
 */
module Service {

  import opened Wrappers
  import opened UrlFormat
  import opened MappingTable

  class MappingStore {
    /** The rows of the `URLMapping` table, keyed by their unique short code. */
    var table: Table

    /** Every stored URL passed the format check. */
    ghost predicate Valid()
      reads this
    {
      AllUrlsValid(table)
    }

    /** A freshly created database: the table exists and is empty. */
    constructor ()
      ensures Valid() && table == map[]
    {
      table := map[];
    }

    /**
     * `create_mapping`: check the payload shape, then the URL format, then whether the
     * code is taken; only when all three pass is the row inserted.
     */
    method CreateMapping(p: Payload) returns (r: CreateOutcome)
      requires Valid()
      modifies this
      ensures Valid()
      ensures r == Decide(old(table), p)
      ensures table == Commit(old(table), r)
    {
      if p.shortCode.None? || p.longUrl.None? {
        return InvalidPayload;
      }
      var shortCode, longUrl := p.shortCode.value, p.longUrl.value;
      if !IsValidUrl(longUrl) {
        return InvalidUrl;
      }
      if shortCode in table {
        return Duplicate;
      }
      table := table[shortCode := longUrl];
      r := Created(shortCode, longUrl);
    }

    /** `redirect_short_url`: a read-only, exact lookup of the code. */
    method RedirectShortUrl(shortCode: string) returns (r: RedirectOutcome)
      requires Valid()
      ensures r.Redirect302? ==> IsValidUrl(r.location)
      ensures shortCode in table ==> r == Redirect302(table[shortCode])
      ensures shortCode !in table ==> r == NotFound404
      ensures r == Lookup(table, shortCode)
    {
      if shortCode in table {
        r := Redirect302(table[shortCode]);
      } else {
        r := NotFound404;
      }
    }
  }

  /** A client of the store: the round trip and the duplicate follow from the contracts alone. */
  method CreateTwiceThenRedirect(store: MappingStore, shortCode: string, longUrl: string)
    returns (first: CreateOutcome, second: CreateOutcome, target: RedirectOutcome)
    requires store.Valid()
    modifies store
    ensures old(shortCode in store.table) ==> first == Duplicate || first == InvalidUrl
    ensures first.Created? ==> second == Duplicate && target == Redirect302(longUrl)
    ensures !first.Created? ==> store.table == old(store.table)
  {
    first := store.CreateMapping(Payload(Some(shortCode), Some(longUrl)));
    second := store.CreateMapping(Payload(Some(shortCode), Some(longUrl)));
    target := store.RedirectShortUrl(shortCode);
  }
}
