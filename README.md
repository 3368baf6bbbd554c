# Team/Hero API and toy token service, modelled in Dafny

This project models the two services of the repository.

- **The team/hero CRUD service** (`main.py`). The SQL store becomes a `Store`
  object holding two tables, `teams: map<int, Team>` and
  `heroes: map<int, Hero>`. Each HTTP handler becomes one method of `Store`.
  A handler either raises an error (NotFound, Conflict, or an uncaught
  exception) and leaves both tables unchanged, or makes exactly one change,
  stated in full in its postconditions. `Store.Valid()` is the business rule
  that no two heroes share a stored password form. Hero creation enforces it,
  and every other handler is proved to keep it.
- **The toy authentication service** (`First_app/main.py`). It becomes pure
  functions over the constant user table: the prefix "hasher", user lookup,
  token decoding, the active-user check, the token endpoint and `/users/me`.

Files:

- `outcomes.dfy` (module `Outcomes`): error kinds, `Result`, `Option`.
- `tables.dfy` (module `Tables`): what every handler does first.
  - `ListRows` lists a whole table, in an order left unspecified.
  - `IdList` builds the `id_list` from that listing.
  - `FreshKey` picks an id not yet in use.
- `models.dfy` (module `Models`): the row and request types, plus the pure pieces.
  - `hash_password` and the hero row built from a creation request.
  - The partial update.
  - The nulling of team references when a team is deleted.
- `api.dfy` (module `Api`): the `Store` class, with one method per handler.
  - Also four client methods that replay the service's documented scenarios.
- `auth.dfy` (module `Auth`): the token service.

Modelling choices that follow the code:

- Listing a table and then scanning the list is modelled as a loop that picks
  the remaining rows one at a time (`ListRows`). The `id_list`/`pwd_list`
  loops then run over that listing.
- New ids are "some id not in use" (`FreshKey`). No numbering scheme is assumed.
- Deleting a team sets `team_id` to None on exactly the heroes that referred
  to it. This is the object mapper's own behaviour for the non-cascading
  team-to-heroes relationship: before deleting a team it sets the foreign
  key of the team's heroes to null. The column's `SET NULL` rule plays no
  part, because SQLite applies ON DELETE rules only with
  `PRAGMA foreign_keys` on, and the engine setup (main.py:79-82) never
  turns it on.
  - `delete_all_team` deletes the teams one by one, so it does the same for
    every deleted team.
  - A hero whose `team_id` names no team is left alone. This can happen because
    `create_hero` and `update_heroes` never check the team exists.
- `update_heroes` behaves like this:
  - It accepts a body's `password` only when its stored form equals the hero's
    current one. Any other password gives Conflict.
  - When accepted, it rewrites `hashed_password` to that same value, so a
    password can never change (`OnlyCurrentPasswordAccepted`).
  - The body's `password` key is not a column of the row, so the object update
    ignores it.
  - `age` and `team_id` may be sent as an explicit null, which is written.
- Both list endpoints answer NotFound when their table is empty.
- `/users/me` hands back the stored user row, including its stored password
  form. The handler has no response model that would strip it.

Behaviour taken from the code as written:

- Deleting an absent team id fails with an uncaught exception, not 404 (see
  Findings).
- A hero's `team_id` is not checked against the team table.
- `delete_one_hero` looks the id up directly rather than scanning an id list.
  Its behaviour is the same.

## Model

| member | source | states |
|---|---|---|
| `Tables.ListRows` | main.py:116-117 | selecting all rows yields each table entry exactly once, with nothing else |
| `Tables.IdList` | main.py:127-129 | `id_list` holds the id of every listed row, in listing order |
| `Tables.ListedIds` | main.py:127-131 | an id is in the `id_list` of a full listing exactly when it is a key of the table |
| `Tables.ListedEmpty` | main.py:117-118 | a listing is empty exactly when its table is |
| `Tables.FreshKey` | main.py:17 | a newly stored row gets an id no existing row has |
| `Models.HashPassword` | main.py:70-71 | the stored form is `#$%` followed by the password, so the password can be read back from it |
| `Models.HashPasswordInjective` | main.py:70-71 | two passwords have the same stored form exactly when they are equal |
| `Models.NewHero` | main.py:212-226 | a created hero row stores the stored form of the request's password |
| `Models.AddKeepsHashesUnique` | main.py:228-237 | adding a hero whose stored password form is unused keeps all forms pairwise distinct |
| `Models.ApplyUpdate` | main.py:314-327 | a partial update writes exactly the fields the body sends and never changes `hashed_password` |
| `Models.ApplyUpdateIdempotent` | main.py:314-327 | sending the same partial update twice has the same effect as sending it once |
| `Models.ApplyNoChange` | main.py:314-327 | an update body that sends no field leaves the hero unchanged |
| `Models.UpdateKeepsHashesUnique` | main.py:319-327 | a partial update keeps the stored password forms pairwise distinct |
| `Models.PasswordAccepted` | main.py:319-320 | a body without a password is accepted; an accepted password is the one behind the hero's stored form |
| `Models.OnlyCurrentPasswordAccepted` | main.py:319-325 | an update body's password is accepted exactly when it is the hero's current password |
| `Models.NullTeamRefs` | main.py:41 | after teams are deleted, no hero refers to them; their former members lose only `team_id`; every other hero is unchanged |
| `Models.NullTeamRefsTwice` | main.py:198-199 | deleting teams one after another nulls the same references as deleting them all at once |
| `Models.NullTeamRefsKeepsHashesUnique` | main.py:41 | nulling team references keeps stored password forms distinct |
| `Api.Store.constructor` | main.py:84-86 | the service starts with both tables empty, which satisfies the store invariant |
| `Api.Store.CreateTeam` | main.py:99-110 | the team is stored under a previously unused id; no other row changes |
| `Api.Store.FetchAllTeams` | main.py:112-120 | NotFound exactly when there is no team; otherwise every team, each once |
| `Api.Store.FetchOneTeam` | main.py:122-136 | NotFound exactly when the id is not a team's; otherwise that team; nothing changes |
| `Api.Store.DeleteOneTeam` | main.py:168-189 | intended behaviour. Absent id: NotFound, no change. Otherwise removes exactly that team, nulls `team_id` on its heroes only, returns the confirmation with the team's name |
| `Api.Store.DeleteOneTeamAsWritten` | main.py:168-189 | as written. Absent id: uncaught exception, no change. Present id: behaves like DeleteOneTeam |
| `Api.Store.DeleteAllTeam` | main.py:191-202 | the team table ends empty; exactly the heroes of the deleted teams lose their `team_id`; returns the fixed confirmation |
| `Api.Store.AllListed` | main.py:198-199 | the loop over a full listing visits every key of the table |
| `Api.Store.HashList` | main.py:217-223 | `pwd_list` holds the stored password form of every listed hero, in listing order |
| `Api.Store.ListedHashes` | main.py:217-229 | a form is in `pwd_list` exactly when some hero has it |
| `Api.Store.CreateHero` | main.py:205-240 | Conflict with no change exactly when the new stored form is already some hero's; otherwise adds exactly one hero under an unused id; forms stay distinct |
| `Api.Store.GetAllHero` | main.py:267-275 | NotFound exactly when there is no hero; otherwise every hero, each once |
| `Api.Store.GetOneHero` | main.py:277-291 | NotFound exactly when the id is not a hero's; otherwise that hero; nothing changes |
| `Api.Store.UpdateHeroes` | main.py:293-332 | NotFound for an unknown id; Conflict for a password other than the current one (no change in either case); otherwise writes the sent fields on that one hero only; no `hashed_password` ever changes |
| `Api.Store.DeleteAllHero` | main.py:336-346 | the hero table ends empty; teams unchanged; returns the fixed confirmation |
| `Api.Store.DeleteOneHero` | main.py:348-358 | NotFound with no change for an absent id; otherwise removes exactly that hero and returns the confirmation with its name |
| `Api.CreatedTeamIsFetched` | main.py:99-136 | fetching a team by the id it was just created under gives back the same team |
| `Api.DeletedTeamUnlinksHero` | main.py:168-189 | a hero created in a team can still be fetched after the team is deleted, with `team_id` None and nothing else changed |
| `Api.SamePasswordConflicts` | main.py:212-231 | of two heroes created with the same password, the second gets Conflict |
| `Api.DeleteMissingTeam` | main.py:179-180 | for an absent team id, the handler as written raises an uncaught exception instead of NotFound |
| `Auth.FakeUsersDb` | First_app/main.py:24-39 | the user table holds exactly johndoe and alice, each stored under its own user name; johndoe is disabled, alice is not |
| `Auth.FakePasswordHasher` | First_app/main.py:41-42 | the stored form is `fakehashed` followed by the password, so the password can be read back from it |
| `Auth.FakePasswordHasherInjective` | First_app/main.py:41-42 | two passwords have the same stored form exactly when they are equal |
| `Auth.GetUser` | First_app/main.py:44-48 | the stored user exactly when the name is a key of the table; nothing otherwise |
| `Auth.FakeDecodeToken` | First_app/main.py:50-54 | 400 exactly when the token is not a user name; otherwise the user whose name is the token |
| `Auth.GetCurrentUser` | First_app/main.py:56-60 | same outcome as decoding the token; its second check never fires |
| `Auth.GetCurrentActiveUser` | First_app/main.py:63-66 | 400 exactly when the user is disabled; otherwise the user unchanged |
| `Auth.ReadUsersMe` | First_app/main.py:81-83 | the stored record exactly when the token names a user who is not disabled; 400 otherwise |
| `Auth.Login` | First_app/main.py:68-79 | succeeds exactly when the user exists and `fakehashed` + password equals the stored form; the token is the user name with type `Bearer`; 400 otherwise; `disabled` is not consulted |
| `Auth.LoginThenReadUsersMe` | First_app/main.py:63-79 | a token from a successful login reads the user's record exactly when the user is not disabled |
| `Auth.LoginNeedsStoredPassword` | First_app/main.py:73-78 | only the password behind the stored form logs the user in |
| `Auth.AliceLogsIn` | First_app/main.py:32-38 | alice/secret2 gets token `alice` and reads her record; alice/secret is refused |
| `Auth.JohnDoeIsInactive` | First_app/main.py:25-31 | johndoe/secret gets token `johndoe`, but `/users/me` answers 400 because he is disabled |

## Left out

- `update_team` (main.py:138-166). Its id-scan loop reuses the name `team`, so
  the payload is lost. The handler then writes the fields the object mapper
  considers set on a stored team. What that writes depends on the mapper's
  internals, so the handler is not modelled.
- Web framework plumbing: routing, dependency injection, request validation,
  `uvicorn.run`. HTTP status objects become the `Error` datatype, and error
  detail messages are dropped. The confirmation strings the delete handlers
  return are kept.
- Response models. The team list nested in team responses
  (`TeamPublicWithHeroes`) and the team nested in hero responses
  (`HeroPublicWithTeam`) are not modelled.
  The other handlers' results are the stored rows or the confirmation
  strings, except as the next lines say.
- Api.Store.CreateTeam: returns the new id rather than the stored row
  (main.py:110); the row is `teams[id]` afterwards.
- Api.Store.CreateHero: returns the new id rather than the stored row
  (main.py:240); the row is `heroes[id]` afterwards. An `age` or `team_id`
  outside the 64-bit range (see the integer-range line) is stored, where the
  commit would fail.
- Api.Store.GetOneHero: returns the whole stored row, `secretName` and
  `hashedPassword` included, where the `HeroPublicWithTeam` response
  (main.py:58-61) drops both.
- Api.Store.GetAllHero: returns whole stored rows, `secretName` and
  `hashedPassword` included, where `HeroPublicWithTeam` drops both.
- Api.Store.UpdateHeroes: returns the whole stored row, `secretName` and
  `hashedPassword` included, where `HeroPublicWithTeam` drops both. An `age`
  or `team_id` outside the 64-bit range is stored, where the commit would fail.
- The SQL engine, sessions, `commit`/`refresh`, table creation at start-up, and
  the engine's id numbering. The store is two maps, and a new id is any
  unused one.
- The integer range. Dafny's `int` is unbounded; SQLite stores 64-bit
  integers, and its driver raises an overflow error (a 500) for a value
  outside that range.
  The id-scan handlers compare the id with a Python list and never pass an
  absent id to the engine, so they answer NotFound as modelled.
- Api.Store.DeleteOneHero: for an id outside the 64-bit range, `session.get`
  (main.py:350) fails with the overflow error, where the model answers
  NotFound.
- Concurrency between requests. Each handler is one atomic step on the store.
- HeroUpdate contents:
  - An explicit null sent for `name`, `secret_name` or `password` is not
    modelled. The first two are columns that cannot be null, and the third
    would be hashed as the text `None`.
  - A sent field is present with a value.
- Auth.GetUser: the handler takes the table as an argument, tests membership
  in it, and then reads the global table. Its only caller passes the global
  table, so the model has no table argument.
- Auth.Login: `secrets.compare_digest` is modelled as string equality. Its
  constant running time is not modelled, nor the exception it raises for
  non-ASCII text.
- The bearer-token extraction from the request header. A missing header is
  answered by the framework, not by the handlers.
- The commented-out code at main.py:91-96 and main.py:242-265.

## Findings

| source | as written | input that shows it | evidently intended | confidence | as-written member | corrected member |
|---|---|---|---|---|---|---|
| main.py:179-180 | the not-found branch of `delete_one_team` formats its message with `hero_id`, a name the handler does not define, so it raises a NameError (an HTTP 500) | DELETE /teams/{id} for any id that is not a team's | HTTP 404, the table unchanged | not executed; high (the name is not bound anywhere in the handler or module) | `Api.Store.DeleteOneTeamAsWritten`, exhibited by `Api.DeleteMissingTeam` | `Api.Store.DeleteOneTeam` |
