# fast-link URL shortener: a verified model of the mapping table

fast-link maps long URLs to short keys. It has three endpoints. `create_url`
draws an 11-character URL-safe key and inserts a row for the target. The
redirect endpoint finds the *active* row with a key, adds one to its click
counter and redirects to the target. `get_url_info` returns a row's fields
whether the row is active or not. This project models the `urls` table and
those three operations with the HTTP layer removed, and proves the table's
invariants and the promises each operation makes.

Files:

- `keys.dfy` (module `Keys`): the key format. `ValidKey` means 11 characters
  from the base64url alphabet (`A-Z a-z 0-9 - _`). `Encode` is base64url
  without padding (section 5 of RFC 4648). `Decode` is its inverse, and
  `DecodeEncode` proves the round trip, so the characters of a key are exactly
  the base64url digits of its bytes. `TokenUrlsafe` is the encoding of 8 random
  bytes. Its contract is shown to produce only valid keys, and distinct bytes
  give distinct keys. The random source is outside the model: the bytes are a
  parameter.
- `links.dfy` (module `Links`): the `url` and `admin_url` strings that
  `create_url` returns, and the fact that the key is the text after their last
  `/`.
- `table.dfy` (module `Table`): the table as a value. A `Store` holds rows by
  key plus the next primary key. `WellFormed` gives the invariants:
  - every map key equals the row's `key`, and that key is valid;
  - ids are positive, below the next id and pairwise distinct;
  - counters are not negative.

  `Next` is the effect of one request and `Run` the effect of a sequence of
  requests. The lemmas cover whole request sequences: the invariants hold, rows
  only evolve (clicks never decrease and inactive rows never change), `n`
  resolves count exactly `n`, and a create followed by a resolve gives back the
  target.
- `service.dfy` (module `Service`): class `UrlTable`. Its fields are the row
  map and the next id, and both are updated in place. `CreateUrl` and
  `RedirectToUrl` are methods with `modifies this`. Each is proved to leave the
  table equal to `Table.Next` of the old table, and to return the answer the
  `Table` functions predict. `GetUrlInfo` is a read-only function.

The model starts from any well-formed table (the constructor takes one). It
therefore covers inactive rows, although no code path in the application sets
`is_active` to false.

## Model

| member | source | states |
|---|---|---|
| Keys.Encode | app/main.py:74 | base64url without padding maps `n` bytes to `(4n+2)/3` characters, all from the URL-safe alphabet |
| Keys.DecodeEncode | app/main.py:74 | decoding the encoding of any byte string gives that byte string back, so the characters are exactly the base64url digits of the bytes |
| Keys.TokenUrlsafeInjective | app/main.py:74 | two draws of 8 bytes give the same key only if the bytes are the same, so a key collision means the generator repeated its bytes |
| Keys.TokenUrlsafe | app/main.py:74 | the token for 8 random bytes is a valid key: 11 URL-safe characters |
| Keys.ValidKeyHasNoSlash | app/main.py:74 | a valid key contains no `/` |
| Links.FullUrl | app/main.py:82 | the short link is `scheme://`, then `netloc`, then `/` and the key, and is exactly as long as those parts |
| Links.AdminUrl | app/main.py:83 | the admin link is `scheme://`, then `netloc`, then `/admin/` and the key, and is exactly as long as those parts |
| Links.LastSegment | app/main.py:82-83 | the result has no `/`, is a suffix of the input, and is either the whole input or comes right after a `/` |
| Links.LastSegmentAfterSlash | app/main.py:82-83 | the last segment of `prefix + "/" + seg` is `seg` when `seg` has no `/` |
| Links.KeyIsLastSegment | app/main.py:82-83 | for a valid key, the key is exactly the text after the last `/` of both the short link and the admin link |
| Table.EmptyWellFormed | app/main.py:43-44 | the empty table the application creates meets every table invariant |
| Table.KeysUnique | app/main.py:37 | in a well-formed table no two rows carry the same `key` |
| Table.Insert | app/main.py:76-79 | a create adds exactly one row. The row has the given key and target, `is_active` true and `clicks` 0, and an id unlike every existing id. Every existing row is unchanged |
| Table.InsertPreservesWellFormed | app/main.py:34-40 | inserting under a valid, unused key keeps every table invariant |
| Table.Click | app/main.py:100 | a counted resolve raises that row's `clicks` by exactly 1. It changes no other field, no other row and not the next id, and it keeps the invariants |
| Table.Target | app/main.py:97-103 | the redirect answers `Found(target_url)` exactly when the key's row exists and is active, and `NotFound` otherwise |
| Table.Next | app/main.py:71-117 | a create under a taken key leaves the table unchanged. A create under a free key is `Insert`. A resolve of a missing or inactive key leaves it unchanged. A resolve of an active key is `Click`. An inspect leaves it unchanged |
| Table.NextPreservesWellFormed | app/main.py:34-40 | each request keeps the table invariants |
| Table.RunPreservesWellFormed | app/main.py:34-40 | any sequence of requests keeps the invariants: unique keys that agree with their rows, distinct ids, counters at least 0 |
| Table.NextPersists | app/main.py:76-100 | after one request every existing row is still there. Its id, key, target and active flag are unchanged and its clicks have not decreased. An inactive row is unchanged entirely |
| Table.RunPersists | app/main.py:76-100 | the same holds across any sequence of requests: no row disappears, no counter decreases, no inactive row changes, the next id never goes down, and every row added has an id at or above the old next id |
| Table.RunFreshIds | app/main.py:36 | starting from a well-formed table, a row created by any sequence of requests has an id different from every row that was already there |
| Table.ResolveRepeatedCounts | app/main.py:97-101 | `n` resolves of an active key raise its `clicks` by exactly `n` and change nothing else |
| Table.ResolveRepeatedHidden | app/main.py:97-103 | any number of resolves of a missing or inactive key leave the table unchanged |
| Table.CreateThenResolve | app/main.py:76-102 | after a successful create, resolving the key answers the given target, and the new row has 0 clicks |
| Service.UrlTable.constructor | app/main.py:34-44 | the table object starts from any well-formed table contents |
| Service.UrlTable.CreateUrl | app/main.py:71-91 | the new table is `Next` of the old for this create. The call returns `Collision` exactly when the key was already present. On success it returns the target, `is_active` true, `clicks` 0 and the two links. The new id differs from every earlier id. Inspecting the key then yields the key, the target, 0 clicks and active, and resolving it yields the target. The invariants are kept |
| Service.UrlTable.RedirectToUrl | app/main.py:95-103 | the call answers the target exactly when the key's row is active, and `NotFound` otherwise. The new table is `Next` of the old for this resolve, so only that row's counter moves, by exactly one. The invariants are kept |
| Service.UrlTable.GetUrlInfo | app/main.py:107-117 | the call answers `NotFound` exactly when no row has the key, whether or not that row is active. When found it gives the row's key, target, clicks and active flag. It reads the table and never changes it |

## Left out

- HTTP transport is not modelled: routing, the root endpoint, `HTTPException`
  404s and `RedirectResponse` (app/main.py:58-66, 95-96, 102-103, 107, 117).
  The outcomes are the `NotFound` and `Collision` values instead.
- Configuration and database plumbing are not modelled: environment loading,
  engine and session setup, and table creation (app/main.py:14-30, 43-53).
  Each request is one atomic step on the in-memory table. SQLAlchemy's
  `commit` and `refresh` are not modelled beyond that.
- Randomness is not modelled. `secrets.token_urlsafe(8)` (app/main.py:74)
  becomes the `key` parameter of `CreateUrl`, and only its encoding of the
  bytes is modelled.
- Collision retry: create_url draws one key and inserts it once
  (app/main.py:74-78). The code has no retry loop, no retry cap and no
  exhaustion error, so the model has none either. A duplicate key yields
  `Collision` with the table unchanged. In the application it would surface
  as an integrity error from the database.
- Concurrency is not modelled. `db_url.clicks += 1` (app/main.py:100) is an
  unprotected read-modify-write across requests. A sequential model cannot
  speak about lost updates, so nothing is claimed about them.
- Service.UrlTable.RedirectToUrl: counters are unbounded integers. The
  database's integer column width, and what happens when it overflows, are
  not modelled.
- Primary keys are assigned from a `nextId` counter. This abstracts the
  database's autoincrement: the model promises only that ids are fresh and
  distinct, not which numbers the database picks.
- The model only states the shape of `admin_url` (`/admin/{key}`,
  app/main.py:83). It does not claim that an endpoint serves that path:
  inspection is served at `/info/{key}` (app/main.py:107).
- No operation deactivates, reactivates or deletes a row, because the code has
  none. Inactive rows enter only through the initial table.
- app/schemas.py holds Pydantic classes with no logic. `URLInfo` is the
  `UrlInfo` datatype. `Info` is the plain dictionary that get_url_info
  returns (app/main.py:111-116), which has no schema class.
- The `target_url` string is stored as given; its validation by the request
  schema is not modelled.
