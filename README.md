# Announcement resource handler, modelled in Dafny

This project models the announcements endpoints of a school management
API: a credential check against a teacher directory, and list, create,
update and delete over a collection of time-bounded announcements.

- `lex_order.dfy`, module `LexOrder`: the strict string order that the
  document store applies when it filters on `expiration` greater than the
  current time. Characters are compared by code point, and a proper
  prefix sorts first. Its laws are proved: irreflexive, asymmetric,
  transitive, total. It is also proved equal to a reference definition
  stated by the first differing position.
- `announcements.dfy`, module `Announcements`:
  - the stored `Announcement` (message, expiration, optional start);
  - the `Record` returned to callers (the same fields plus `id`);
  - the `Error` kinds `Unauthenticated` (401), `InvalidInput` (400) and
    `NotFound` (404), each with the detail text the handler raises;
  - a `Result` type;
  - `RequireAuth` as a pure function;
  - `BuildPatch`, which builds the partial update one field at a time;
  - the class `AnnouncementService`. It holds the announcement table
    (`map<string, Announcement>`), the set of ids the store has issued,
    and the read-only teacher directory (`set<string>`).

Every handler method that can fail returns a `Result`, and its contract states the whole
new table. Error precedence is stated in each contract: first
`Unauthenticated`, then `InvalidInput`, then `NotFound`. Two client
methods state the properties that need more than one call: create followed
by list, and delete twice.

The time of a list is the parameter `now`. When the store gives a new
announcement an id, the model picks any non-empty id that is not in
`issued`. `issued` holds every id issued so far, so an id is never reused,
even after its announcement is deleted. `Valid()` says that every key in
the table is in `issued`.

Two behaviours of the code that a reader may not expect:
- The credential check rejects an empty username as well as an absent one,
  both with "Authentication required" (`not username`, line 16).
- An update may set `message` or `expiration` to the empty string. So a
  stored announcement can later hold an empty message, even though create
  never stores one.

## Model

| member | source | states |
|---|---|---|
| `LexOrder.LessIrreflexive` | src/backend/routers/announcements.py:27 | no timestamp is strictly greater than itself |
| `LexOrder.LessAsymmetric` | src/backend/routers/announcements.py:27 | if `a` sorts before `b`, `b` does not sort before `a` |
| `LexOrder.LessTransitive` | src/backend/routers/announcements.py:27 | the string order used by the expiration filter is transitive |
| `LexOrder.LessTotal` | src/backend/routers/announcements.py:27 | any two distinct strings are ordered one way or the other |
| `LexOrder.PrefixLess` | src/backend/routers/announcements.py:27 | a proper prefix sorts before the longer string, so a less precise timestamp sorts first |
| `LexOrder.LessIffFirstDifference` | src/backend/routers/announcements.py:27 | the order holds exactly when `a` is a proper prefix of `b` or has the smaller character at the first difference (both directions) |
| `Announcements.RequireAuth` | src/backend/routers/announcements.py:15-21 | succeeds exactly when the username is present, non-empty and a teacher key, returning it; "Authentication required" exactly when absent or empty; "Invalid credentials" exactly when present, non-empty and not a teacher |
| `Announcements.ExpiringNowIsNotCurrent` | src/backend/routers/announcements.py:26-27 | an announcement whose expiration equals `now` is not current (strict comparison) |
| `Announcements.BuildPatch` | src/backend/routers/announcements.py:61-68 | the patch holds exactly the supplied fields with their values, empty strings included; it is empty exactly when no field is supplied |
| `Announcements.FreshIdExists` | src/backend/routers/announcements.py:48-49 | the store can always assign a non-empty id not issued before |
| `Announcements.AnnouncementService.constructor` | src/backend/routers/announcements.py:8 | the handler starts over a given table and teacher directory, with every stored id counted as issued |
| `Announcements.AnnouncementService.GetAnnouncements` | src/backend/routers/announcements.py:24-31 | lists exactly the records whose expiration is strictly later than `now`, each once, with `id` equal to its key and the stored fields; needs no credential and changes nothing |
| `Announcements.AnnouncementService.CreateAnnouncement` | src/backend/routers/announcements.py:34-50 | an auth failure returns that error, then an empty message or expiration returns InvalidInput, both leaving the state unchanged; otherwise adds exactly one entry under a fresh, never-issued, non-empty id with the given message, expiration and start, and returns that record |
| `Announcements.AnnouncementService.UpdateAnnouncement` | src/backend/routers/announcements.py:53-76 | an auth failure returns that error; no supplied field returns InvalidInput whether or not the id exists; an absent id returns NotFound; all three leave the table unchanged; otherwise only the supplied fields of that entry are overwritten, every other entry is kept, and the updated record is returned |
| `Announcements.AnnouncementService.DeleteAnnouncement` | src/backend/routers/announcements.py:79-84 | an auth failure returns that error, an absent id returns NotFound, both leaving the table unchanged; otherwise removes exactly that key and returns `{id, deleted: true}` |
| `Announcements.CreateThenList` | src/backend/routers/announcements.py:24-50 | after a successful create expiring after `now`, a list at `now` contains the created record with its message, expiration and start, under a non-empty id never issued before, exactly once (listed ids are distinct); one not expiring after `now` is not listed |
| `Announcements.DeleteTwice` | src/backend/routers/announcements.py:79-84 | deleting the same id twice: when the first succeeds the second returns NotFound; with valid credentials the key is gone afterwards |

## Left out

- Web routing, `HTTPException` and response serialisation are not modelled. Errors are an `Error` value that carries its status code and detail text.
- The document store's query engine and the internals of `insert_one`, `update_one`, `find_one` and `delete_one` are not modelled. The collection is one abstract map from string id to announcement.
- The store's native id type is not modelled. Create, update and delete use the same string id, so the model does not capture a native-id versus string mismatch between create and update or delete.
- The `_id` field that the store client adds to the dict returned by create is not modelled. The returned record holds `id` and the given fields.
- The clock (`datetime.utcnow().isoformat()`, line 26) is not modelled. `now` is a parameter, and timestamp format is never checked, as in the code.
- The order of listed records is not stated. The store's iteration order is not visible here.
- The teacher record returned by the credential check is represented by its username. Callers never use it beyond the check.
- Concurrent requests and races between them are not modelled. Each operation runs alone over the state.
