# url-mapper, modelled in Dafny

url-mapper is a small URL-shortening service. A client posts a JSON body with a
`short_code` and a `long_url` to `/api/mappings`. The service checks the body, checks
the URL's format, and refuses a code that is already taken. Otherwise it stores the
pair in its `URLMapping` table. A `GET /<short_code>` then redirects (302) to the
stored URL, or answers 404.

This project models the three pieces of behaviour in `app.py`:

- `UrlFormat.dfy`: `is_valid_url`, Python's `re.match` of `^(?:http|ftp)s?://\S+$` with
  `re.IGNORECASE`. `IsValidUrl` follows the matcher one step at a time: the scheme
  alternation, the optional `s`, `://`, the greedy `\S+` run, and the `$` anchor.
  `$` also matches just before one final `"\n"`. `ValidUrlSpec` is an independent,
  declarative definition, and `IsValidUrlIffSpec` proves the two agree on every string.
- `MappingTable.dfy`: the table as a `map<string, string>` from short code to long URL.
  A map has one value per key, as the unique `short_code` column does. The create
  handler's ordered checks are `Decide`, the insert is `Commit`, and the redirect
  handler's read is `Lookup`. `Replay` runs a history of creates. The lemmas state the
  check order, "failure changes nothing", exact insertion, the round trip, lookup misses,
  and that records never change.
- `Service.dfy`: class `MappingStore`, whose `table` field is the database table.
  `CreateMapping` mutates it (`modifies this`) and is proved against `Decide`/`Commit`.
  `RedirectShortUrl` only reads it. The object invariant `Valid()` says every stored URL
  passed the format check.
- `Wrappers.dfy`: `Option`, for a JSON key that is present or missing.

Modelling decisions:

- A request body is a `Payload` of two `Option<string>` fields; `None` means the key is
  missing. A body that fails `not data` (JSON `null`, `{}`, `[]`, `""`, `0`, `false`) or
  lacks a key at app.py:31 gives `WellShaped` false. So does a non-empty list or string
  body that does not contain both key names. Extra keys are ignored, as in the source.
- `\s` is an explicit set of code points: those for which Python's `str.isspace()` holds.
  This is an approximation if the Python build uses a different Unicode version.
- `re.IGNORECASE` lets an ASCII letter match either case. The pattern's letters are
  h, t, p, f and s. For them, Python's matcher adds one non-ASCII variant:
  U+017F LATIN SMALL LETTER LONG S counts as `s`. The model includes it.
- The constructor models a fresh database, so the table starts empty.
- `create_mapping` never checks that `short_code` is non-empty, so the model accepts `""`,
  like any other string, as a code.

## Model

| member | source | states |
|---|---|---|
| UrlFormat.RunEnd | app.py:24 | the greedy `\S+` run from `i` ends at the first whitespace at or after `i`, or at the end of the string; every character it passes is non-whitespace |
| UrlFormat.SchemeEnd | app.py:23 | the position after the matched scheme (`http` or `ftp`, an optional `s`, then `://`) lies within the string |
| UrlFormat.SchemeEndFindsScheme | app.py:23 | the scheme matcher succeeds exactly when the string starts, ignoring case, with one of `http://`, `https://`, `ftp://`, `ftps://`, and it ends right after that scheme |
| UrlFormat.RestMatches | app.py:24 | after the scheme, `\S+$` matches exactly when the rest is one or more non-whitespace characters, optionally followed by a single final newline |
| UrlFormat.IsValidUrlIffSpec | app.py:21-25 | `is_valid_url` holds exactly when the string starts, ignoring case, with one of the four schemes, and the remainder is non-empty with no whitespace, apart from one final `\n` |
| UrlFormat.SchemeHasNoSpace | app.py:23 | the characters a scheme match consumes are never whitespace |
| UrlFormat.BareSchemeRejected | app.py:24 | a scheme alone, in any case, with nothing after it (e.g. `http://`), is rejected |
| UrlFormat.WhitespaceRejected | app.py:23-24 | a string with whitespace anywhere is rejected, except for a single newline as its very last character |
| UrlFormat.TrailingNewline | app.py:24 | appending one `\n` keeps a URL valid unless it already ends in a newline; `\n` after nothing valid stays invalid |
| UrlFormat.SchemeThenNonSpaceAccepted | app.py:21-25 | a string that starts with one of the four schemes, in any case, and continues with one or more non-whitespace characters is accepted |
| UrlFormat.LowerCaseSchemeAccepted | app.py:23-24 | a lower-case scheme followed by one or more non-whitespace characters is accepted |
| UrlFormat.ExampleUrlAccepted | app.py:21-25 | an ordinary https URL, `https://example.com`, is accepted |
| UrlFormat.NoSchemeRejected | app.py:21-25 | a string without a scheme, `not-a-url`, is rejected |
| UrlFormat.SchemeCaseIgnored | app.py:22-24 | `HTTP://a` is accepted: the case of the scheme does not matter |
| UrlFormat.LongSExample | app.py:22-24 | `http` + U+017F + `://a` is accepted: Python's IGNORECASE treats the long s as `s` |
| UrlFormat.FinalNewlineExamples | app.py:24 | `http://a\n` is accepted and `http://a\n\n` is rejected |
| UrlFormat.BareAndSpacedExamples | app.py:24 | `http://` and `http://a b` are rejected |
| MappingTable.MissingFieldFirst | app.py:31-32 | `InvalidPayload` is returned exactly when a key is missing, whatever the URL and the table, and then the table is unchanged |
| MappingTable.UrlGate | app.py:37-38 | a payload with both keys and a malformed URL yields `InvalidUrl` whether or not its code is taken, and the table is unchanged |
| MappingTable.InvalidUrlBeforeDuplicate | app.py:37-42 | a malformed URL yields `InvalidUrl` even when its short code is already taken |
| MappingTable.DuplicateOnlyAfterOtherChecks | app.py:31-42 | `Duplicate` is returned exactly when the payload has both keys, the URL is valid and the code is already in the table |
| MappingTable.CreatedIffValidAndFresh | app.py:31-47 | a create succeeds exactly when both keys are present, the URL is valid and the code is new |
| MappingTable.FailureChangesNothing | app.py:31-42 | every create that does not return `Created` leaves the table exactly as it was |
| MappingTable.CreatedAddsExactlyOneEntry | app.py:44-47 | a successful create echoes the request's code and URL; the code was new, now maps to the URL, and every other entry is unchanged |
| MappingTable.StepKeepsEntries | app.py:41-42 | no create removes a code or replaces the URL stored under an existing one |
| MappingTable.StepKeepsUrlsValid | app.py:37-46 | a create only ever stores a URL that passed the format check |
| MappingTable.CreateThenRedirect | app.py:44-54 | after `Created(c, u)`, the redirect for `c` points at exactly `u` |
| MappingTable.LookupMatchesTable | app.py:52-56 | the redirect is `NotFound404` exactly when the code is not in the table, and otherwise targets the stored URL |
| MappingTable.RedirectTargetsValid | app.py:37-54 | in a table built by creates, every redirect target is a well-formed URL |
| MappingTable.ReplayKeepsEntries | app.py:11-42 | through any sequence of creates an existing code keeps its URL: at most one URL per short code, ever |
| MappingTable.ReplayKeepsUrlsValid | app.py:37-46 | any sequence of creates keeps every stored URL well-formed |
| MappingTable.ReplayKeysFromRequests | app.py:31-46 | after a history of creates, every code in the table was there before or some create of the history succeeded for it, so failed requests for a code add nothing |
| MappingTable.NeverCreatedNotFound | app.py:52-56 | a code for which no create of the history succeeded is not found afterwards, even if failed requests carried it |
| MappingTable.FailedCreatesNotFound | app.py:31-56 | after a create with a malformed URL and a create missing its URL, both for `c`, the redirect for `c` is not found |
| MappingTable.CreatedStaysRedirectable | app.py:44-54 | once `Created(c, u)`, the redirect for `c` points at `u` after any later creates |
| MappingTable.LaterCreateIsDuplicate | app.py:41-42 | once `c` was created, any later complete request for `c` with a valid URL is `Duplicate` and changes nothing |
| MappingTable.ServiceScenario | app.py:29-56 | a sample session on a fresh table: create `abc` succeeds, repeating it is `Duplicate`, `not-a-url` is `InvalidUrl`, a missing `long_url` is `InvalidPayload`, `abc` redirects to `https://example.com`, and an unknown code is not found |
| Service.MappingStore.constructor | app.py:16-18 | a fresh database holds an empty table, which satisfies the invariant |
| Service.MappingStore.CreateMapping | app.py:29-47 | the response is the ordered decision (payload, URL, duplicate) on the old table; the new table is the old one plus the created entry, or unchanged; the invariant is kept |
| Service.MappingStore.RedirectShortUrl | app.py:51-56 | returns `Redirect302` with the stored URL when the code is in the table, and `NotFound404` otherwise; under the store's invariant every redirect target is a well-formed URL; the method cannot modify the store |
| Service.CreateTwiceThenRedirect | app.py:29-56 | a store client: creating a taken code never succeeds; after a successful create, repeating it is `Duplicate` and the redirect targets the URL; a failed create changes nothing |

## Left out

- Flask plumbing is not modelled: routing, `request.get_json()`, `jsonify`, `redirect`, `abort` and `app.run` (app.py:1-8, 28, 50, 58-59). Their results are datatypes. A missing, unparsable or non-JSON body is refused by `get_json()` itself in current Flask, with Flask's own error, before app.py:31 runs. Such a request is not modelled.
- Path routing limits are not modelled: `GET /<short_code>` never passes an empty code or one containing `/`. The create handler still accepts such codes, but they cannot be reached by redirect. `RedirectShortUrl` takes any string.
- SQLAlchemy/SQLite persistence and `db.create_all()` are not modelled (app.py:6-8, 16-18). The `table` map stands in for them. A database file left by an earlier run is not modelled: the constructor starts empty.
- `Redirect302(u)` stands for the argument passed to `redirect`, not for the HTTP reply. A URL accepted with the final `\n` that `$` tolerates is stored with it. Werkzeug does not put a newline into a `Location` header, so the exact round trip from create to redirect holds for the model's outcome, not for the header bytes.
- The race between the duplicate check (app.py:41) and the insert (app.py:44-46) under concurrent requests is not modelled. Each create runs as one step. The unique-constraint error a losing writer would get is not modelled.
- The auto-assigned `id` column (app.py:12) is not modelled. It is managed by the database and no handler reads it.
- The declared `String(80)` and `String(2083)` limits are not enforced (app.py:13-14). SQLite does not enforce them and the code never checks them.
- Bodies and field values for which the source raises a server error instead of answering are not modelled: a list containing both key names, a number or `true` body, a non-string `long_url`, and a `null` or list `short_code`. Present fields are assumed to be strings.
- A numeric or boolean `short_code` with a valid URL is not modelled. It passes app.py:31 and 37, and SQLite stores it in the text column as its text form. The create then echoes the number, and afterwards `123` and `"123"` count as the same code.
- A Python `str` can hold a lone surrogate (JSON `"\ud800"`), which a Dafny `char` cannot. Such a URL passes `is_valid_url`, but `sqlite3` cannot encode it at commit. This case is not modelled.
- `\S` uses an explicit whitespace set taken from Python's Unicode table, not Python's runtime table.
- Case-insensitive matching of the scheme covers ASCII case and the long s only. Python's other non-ASCII case equivalences (for `i` and `k`) do not involve the pattern's letters.
