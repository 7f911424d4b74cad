/**
 * The URL-mapping table and the two request handlers as functions on it.
 *
 * The table maps a short code to its long URL; a `map` is unique by key, as the
 * table's unique `short_code` column is. `Decide` is the create handler's ordered
 * validation, `Commit` the insert it leads to, `Lookup` the redirect handler's read.
 * `Replay` runs a sequence of creates, for the properties that hold over a history.
 */
module MappingTable {

  import opened Wrappers
  import opened UrlFormat

  /** Short code to long URL. */
  type Table = map<string, string>

  /** The JSON body of a create request: a field is None when its key is missing. */
  datatype Payload = Payload(shortCode: Option<string>, longUrl: Option<string>)

  /** The create handler's four responses: three 400 errors and the 201 echo. */
  datatype CreateOutcome =
    | InvalidPayload
    | InvalidUrl
    | Duplicate
    | Created(shortCode: string, longUrl: string)

  /** The redirect handler's two responses. */
  datatype RedirectOutcome = Redirect302(location: string) | NotFound404

  /** Both keys present. */
  predicate WellShaped(p: Payload) {
    p.shortCode.Some? && p.longUrl.Some?
  }

  /** The create handler's checks, in its order: payload shape, URL format, duplicate code. */
  function Decide(t: Table, p: Payload): CreateOutcome {
    if !WellShaped(p) then InvalidPayload
    else if !IsValidUrl(p.longUrl.value) then InvalidUrl
    else if p.shortCode.value in t then Duplicate
    else Created(p.shortCode.value, p.longUrl.value)
  }

  /** The table after a create with outcome `o`: only a `Created` outcome inserts. */
  function Commit(t: Table, o: CreateOutcome): Table {
    if o.Created? then t[o.shortCode := o.longUrl] else t
  }

  /** One create request against `t`: the table it leaves behind. */
  function Step(t: Table, p: Payload): Table {
    Commit(t, Decide(t, p))
  }

  /** The redirect handler: exact lookup of the code. */
  function Lookup(t: Table, code: string): RedirectOutcome {
    if code in t then Redirect302(t[code]) else NotFound404
  }

  /** The table after the create requests `ps`, in order. */
  function Replay(t: Table, ps: seq<Payload>): Table
    decreases |ps|
  {
    if ps == [] then t else Replay(Step(t, ps[0]), ps[1..])
  }

  /** Every stored URL passed the format check: what the create handler guarantees of its table. */
  ghost predicate AllUrlsValid(t: Table) {
    forall c :: c in t ==> IsValidUrl(t[c])
  }

  // ----- One create -----

  /**
   * A missing key is reported before the URL is looked at and before the table is
   * consulted, and `InvalidPayload` is reported for nothing else.
   */
  lemma MissingFieldFirst(t: Table, p: Payload)
    ensures Decide(t, p) == InvalidPayload <==> !WellShaped(p)
    ensures !WellShaped(p) ==> Step(t, p) == t
  {
  }

  /** The URL-format gate: a complete payload with a malformed URL is `InvalidUrl`, whatever the table holds. */
  lemma UrlGate(t: Table, p: Payload)
    requires WellShaped(p) && !IsValidUrl(p.longUrl.value)
    ensures Decide(t, p) == InvalidUrl
    ensures Step(t, p) == t
  {
  }

  /** A malformed URL is reported as such even when its short code is already taken. */
  lemma InvalidUrlBeforeDuplicate(t: Table, code: string, url: string)
    requires code in t && !IsValidUrl(url)
    ensures Decide(t, Payload(Some(code), Some(url))) == InvalidUrl
  {
  }

  /** `Duplicate` is reported only for a complete payload with a valid URL whose code is taken. */
  lemma DuplicateOnlyAfterOtherChecks(t: Table, p: Payload)
    ensures Decide(t, p) == Duplicate <==>
      WellShaped(p) && IsValidUrl(p.longUrl.value) && p.shortCode.value in t
  {
  }

  /** A create succeeds exactly when the payload has both keys, its URL is valid and its code is not yet taken. */
  lemma CreatedIffValidAndFresh(t: Table, p: Payload)
    ensures Decide(t, p).Created? <==>
      WellShaped(p) && IsValidUrl(p.longUrl.value) && p.shortCode.value !in t
  {
  }

  /** Every failing create leaves the table exactly as it was. */
  lemma FailureChangesNothing(t: Table, p: Payload)
    requires !Decide(t, p).Created?
    ensures Step(t, p) == t
  {
  }

  /**
   * A successful create echoes the request's code and URL and adds exactly that entry:
   * the code was new, it now maps to the URL, and no other entry changed.
   */
  lemma CreatedAddsExactlyOneEntry(t: Table, p: Payload, c: string, u: string)
    requires Decide(t, p) == Created(c, u)
    ensures p == Payload(Some(c), Some(u))
    ensures c !in t && Step(t, p).Keys == t.Keys + {c} && Step(t, p)[c] == u
    ensures forall d :: d in t ==> Step(t, p)[d] == t[d]
  {
  }

  /** No create, successful or not, replaces the URL stored under an existing code. */
  lemma StepKeepsEntries(t: Table, p: Payload)
    ensures t.Keys <= Step(t, p).Keys
    ensures forall c :: c in t ==> Step(t, p)[c] == t[c]
  {
  }

  /** Creates only ever store URLs that passed the format check. */
  lemma StepKeepsUrlsValid(t: Table, p: Payload)
    requires AllUrlsValid(t)
    ensures AllUrlsValid(Step(t, p))
  {
  }

  // ----- Redirect -----

  /** Round trip: right after `Created(c, u)`, the redirect for `c` points at exactly `u`. */
  lemma CreateThenRedirect(t: Table, p: Payload, c: string, u: string)
    requires Decide(t, p) == Created(c, u)
    ensures Lookup(Step(t, p), c) == Redirect302(u)
  {
  }

  /** A code that is not in the table is not found; a code that is redirects to its stored URL. */
  lemma LookupMatchesTable(t: Table, code: string)
    ensures Lookup(t, code) == NotFound404 <==> code !in t
    ensures code in t ==> Lookup(t, code) == Redirect302(t[code])
  {
  }

  /** Every redirect the service issues points at a URL that passed the format check. */
  lemma RedirectTargetsValid(t: Table, code: string)
    requires AllUrlsValid(t) && Lookup(t, code).Redirect302?
    ensures IsValidUrl(Lookup(t, code).location)
  {
  }

  // ----- Histories of creates -----

  /**
   * Records are immutable: through any sequence of creates an existing code keeps its
   * URL, so at most one URL is ever associated with a short code.
   */
  lemma {:induction false} ReplayKeepsEntries(t: Table, ps: seq<Payload>, c: string)
    requires c in t
    ensures c in Replay(t, ps) && Replay(t, ps)[c] == t[c]
    decreases |ps|
  {
    if ps != [] {
      StepKeepsEntries(t, ps[0]);
      ReplayKeepsEntries(Step(t, ps[0]), ps[1..], c);
    }
  }

  /** A history of creates keeps every stored URL well-formed. */
  lemma {:induction false} ReplayKeepsUrlsValid(t: Table, ps: seq<Payload>)
    requires AllUrlsValid(t)
    ensures AllUrlsValid(Replay(t, ps))
    decreases |ps|
  {
    if ps != [] {
      StepKeepsUrlsValid(t, ps[0]);
      ReplayKeepsUrlsValid(Step(t, ps[0]), ps[1..]);
    }
  }

  /** The `i`-th create of the history `ps`, run against the table the earlier ones left, succeeded for `c`. */
  predicate CreatedAt(t: Table, ps: seq<Payload>, i: nat, c: string)
    requires i < |ps|
  {
    var o := Decide(Replay(t, ps[..i]), ps[i]);
    o.Created? && o.shortCode == c
  }

  /** The creates after the first one of a history run against the table the first one left. */
  lemma CreatedAtShift(t: Table, ps: seq<Payload>, i: nat, c: string)
    requires i + 1 < |ps|
    ensures CreatedAt(Step(t, ps[0]), ps[1..], i, c) == CreatedAt(t, ps, i + 1, c)
  {
    assert ps[..i + 1][0] == ps[0];
    assert ps[..i + 1][1..] == ps[1..][..i];
  }

  /**
   * A code ends up in the table only if it was there before or some create of the
   * history succeeded for it; requests for it that failed add nothing.
   */
  lemma {:induction false} ReplayKeysFromRequests(t: Table, ps: seq<Payload>, c: string)
    requires c in Replay(t, ps)
    ensures c in t || exists i :: 0 <= i < |ps| && CreatedAt(t, ps, i, c)
    decreases |ps|
  {
    if ps != [] {
      var t' := Step(t, ps[0]);
      ReplayKeysFromRequests(t', ps[1..], c);
      if c !in t' {
        var i :| 0 <= i < |ps[1..]| && CreatedAt(t', ps[1..], i, c);
        CreatedAtShift(t, ps, i, c);
      } else if c !in t {
        assert ps[..0] == [];
        assert CreatedAt(t, ps, 0, c);
      }
    }
  }

  /** Lookup miss: a code for which no create of the history succeeded is not found afterwards. */
  lemma NeverCreatedNotFound(t: Table, ps: seq<Payload>, c: string)
    requires c !in t
    requires forall i :: 0 <= i < |ps| ==> !CreatedAt(t, ps, i, c)
    ensures Lookup(Replay(t, ps), c) == NotFound404
  {
    if c in Replay(t, ps) {
      ReplayKeysFromRequests(t, ps, c);
    }
  }

  /** A code that requests carried only with a malformed URL or a missing key is not found afterwards. */
  lemma FailedCreatesNotFound(c: string, u: string)
    requires !IsValidUrl(u)
    ensures Lookup(Replay(map[], [Payload(Some(c), Some(u)), Payload(Some(c), None)]), c) == NotFound404
  {
    var ps := [Payload(Some(c), Some(u)), Payload(Some(c), None)];
    forall i | 0 <= i < |ps| ensures !CreatedAt(map[], ps, i, c) {
      if i == 1 {
        assert ps[..1] == [ps[0]];
      }
    }
    NeverCreatedNotFound(map[], ps, c);
  }

  /** Round trip over a history: once `Created(c, u)`, every later redirect for `c` points at `u`. */
  lemma CreatedStaysRedirectable(t: Table, p: Payload, ps: seq<Payload>, c: string, u: string)
    requires Decide(t, p) == Created(c, u)
    ensures Lookup(Replay(Step(t, p), ps), c) == Redirect302(u)
  {
    ReplayKeepsEntries(Step(t, p), ps, c);
  }

  /**
   * Uniqueness over a history: once `c` was created, every later complete request for `c`
   * with a valid URL is a `Duplicate` and leaves the table unchanged.
   */
  lemma LaterCreateIsDuplicate(t: Table, p: Payload, ps: seq<Payload>, q: Payload)
    requires Decide(t, p).Created?
    requires q.shortCode == Some(Decide(t, p).shortCode)
    requires q.longUrl.Some? && IsValidUrl(q.longUrl.value)
    ensures Decide(Replay(Step(t, p), ps), q) == Duplicate
    ensures Step(Replay(Step(t, p), ps), q) == Replay(Step(t, p), ps)
  {
    ReplayKeepsEntries(Step(t, p), ps, Decide(t, p).shortCode);
  }

  /** A sample session: create, repeat, a malformed URL, a missing key, two redirects. */
  lemma ServiceScenario()
    ensures
      var abc := Payload(Some("abc"), Some("https://example.com"));
      var t := Step(map[], abc);
      && Decide(map[], abc) == Created("abc", "https://example.com")
      && Decide(t, abc) == Duplicate
      && Decide(t, Payload(Some("xyz"), Some("not-a-url"))) == InvalidUrl
      && Decide(t, Payload(Some("q"), None)) == InvalidPayload
      && Lookup(t, "abc") == Redirect302("https://example.com")
      && Lookup(t, "does-not-exist") == NotFound404
  {
    ExampleUrlAccepted();
    NoSchemeRejected();
  }
}
