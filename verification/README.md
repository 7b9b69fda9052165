# Badge IN/OUT tracker — Dafny model

This project models the request handlers of a small badge check-in/check-out API
(`server.js`, an Express service over MySQL). It has two tables. `users` holds
registrations: badge id, name, optional email and role. `movements` is an
append-only log of `IN`/`OUT` events per badge.

The one piece of real logic is the **alternator** behind `POST /api/movements`.
A badge's presence is never stored. The handler reads the badge's most recent
movement. It writes `OUT` if that row's type is exactly `'IN'`, and `IN` in every
other case, including when the badge has no movement yet.

The database is modelled as an immutable `Store` of two sequences. A row's id is
its position plus one: AUTO_INCREMENT starting at 1, and the modelled code never
deletes. So `ORDER BY id DESC` is the reverse of a sequence and `LIMIT 1` after
it is the last matching element. Each handler is a pure function:

- a writing handler returns a `Reply`: the new store plus the response (status and payload);
- a reading handler returns only the `Response`, so the store is unchanged by construction.

Request fields are modelled as `Field = Absent | Null | Text(s)`. JavaScript's
`!x` holds exactly for `Absent`, `Null` and `Text("")`.

Modules:

- `Rows` (`rows.dfy`): fields, table rows, store, responses, and the response messages.
- `Registry` (`registry.dfy`): `POST /api/users`, `GET /api/users`, and the name lookup used to enrich movement responses.
- `Alternator` (`alternator.dfy`): the latest-row query, the next-type rule, the per-badge projection of the log, and the alternation invariant.
- `Movements` (`movements.dfy`): `POST /api/movements`, plus sequential replays of many requests. Alternation and per-badge independence are proved over these replays.
- `History` (`history.dfy`): `GET /api/movements` with its LEFT JOIN, modelled literally: one row per matching user row, and one row with a null name when no user matches.
- `Scenarios` (`scenarios.dfy`): concrete end-to-end request sequences.

The response field `type` is called `kind` in the model, because `type` is a Dafny keyword.

## Model

| member | source | states |
|---|---|---|
| Rows.OrNull | server.js:37 | `email \|\| null` binds the string exactly when it is truthy (non-empty), SQL NULL otherwise |
| Registry.FirstMatch | server.js:87-91 | the lookup returns the lowest-id user row carrying the badge, or nothing exactly when no row carries it |
| Registry.NameFor | server.js:87-91 | the name in the movement response is null iff no user row has the badge, and otherwise the name on such a row |
| Registry.PostUser | server.js:28-40 | 201 iff `badge_id` and `name` are both truthy. Otherwise 400 with the store unchanged. On success exactly one user row is appended (earlier rows and movements unchanged), holding the given badge and name, and email/role are NULL exactly when falsy |
| Registry.ListUsers | server.js:48-55 | 200 with every user row, in reverse insertion (id descending) order |
| Registry.ReRegistrationDuplicates | server.js:33-40 | there is no duplicate check: registering an already-registered badge succeeds and leaves at least two rows for it |
| Registry.ReRegistrationKeepsName | server.js:87-91 | because the lookup takes the first row, any later registration leaves the name reported for an already-registered badge unchanged |
| Registry.RegisterThenList | server.js:33-55 | after a successful registration, the listing is the new row followed by the previous listing |
| Registry.CountBadgeZero | server.js:33-40 | a badge has zero user rows exactly when no row carries it |
| Registry.FirstMatchAppend | server.js:87-91 | appending a user row changes the lookup only when the badge had no row before, and then finds the new row |
| Alternator.LatestIndex | server.js:72-75 | the position of the badge's highest-id movement, or none exactly when the badge has no movement |
| Alternator.LatestKind | server.js:72-75 | the type of the badge's most recent movement, or none exactly when the query returns no row |
| Alternator.NextKind | server.js:77-80 | the next type is IN or OUT. It is OUT iff the badge's latest movement has type exactly `'IN'`. A badge with no movement gets IN |
| Alternator.LatestIsLastOfProjection | server.js:72-75 | the latest row for a badge is the last element of that badge's filtered log: the query depends only on that badge's rows |
| Alternator.NextKindFromProjection | server.js:72-80 | the next type is a function of the badge's own filtered log only |
| Alternator.StepKindParity | server.js:77-80 | on an alternating history the rule yields IN after an even number of movements and OUT after an odd number |
| Alternator.NextKindParity | server.js:72-80 | on a log where the badge's history alternates, the next type is IN iff that history has even length |
| Alternator.LatestKindParity | server.js:72-75 | on a badge whose non-empty history alternates, the latest type is IN iff the history has odd length |
| Alternator.StepKeepsAlternation | server.js:77-85 | appending the rule's choice to an alternating history keeps it alternating |
| Movements.PostMovement | server.js:63-99 | falsy `badge_id` gives 400 with the store unchanged. Otherwise it answers 200 and echoes the badge. The type is OUT iff the latest row's type is `'IN'`, and IN otherwise. The name is null iff the badge is unregistered. Users are unchanged, and exactly one row (badge, type) is appended |
| Movements.FirstReportIsIn | server.js:72-85 | a badge with no movement row is reported IN and that row is appended |
| Movements.OtherBadgesUnaffected | server.js:72-85 | a report (valid or not) leaves every other badge's filtered log and next type unchanged |
| Movements.ReportExtendsProjection | server.js:72-85 | a report extends its own badge's filtered log by exactly the rule's choice |
| Movements.PostMovementPreservesConsistency | server.js:72-85 | if every badge's history alternates IN, OUT, IN, … before a report, it still does after |
| Movements.RunOnlyAppends | server.js:82-85 | a sequence of reports leaves users untouched and only appends movements, one per request that passes validation |
| Movements.RunProjection | server.js:72-85 | after any sequence of reports, a badge's history depends only on its history before and on how many requests named it |
| Movements.Independence | server.js:72-85 | interleaving other badges' reports does not change a badge's sequence of types |
| Movements.IterateKeepsAlternation | server.js:77-85 | repeated application of the rule keeps a history alternating and grows it by one per step |
| Movements.RunPreservesConsistency | server.js:72-85 | the alternation invariant holds after any sequence of reports that starts from a consistent log |
| Movements.AlternationFromEmpty | server.js:72-85 | from an empty log, a badge reported N times (in any interleaving with other badges) has the history IN, OUT, IN, … of length exactly N |
| Movements.LatestAfterReports | server.js:72-85 | after N > 0 reports of a badge from an empty log, its latest type is IN iff N is odd |
| Movements.NextAfterReports | server.js:72-80 | after N reports of a badge from an empty log, its next report gets IN iff N is even |
| History.MatchingNames | server.js:110-114 | the join matches as many user rows as carry the badge |
| History.MatchingNameAt | server.js:110-114 | every user row carrying the badge contributes its own name to the join, at the position given by the number of earlier user rows with that badge (so the matches are exactly those rows' names, in id order) |
| History.MatchingNameSource | server.js:110-114 | every matched name is the name on a user row carrying the badge |
| History.JoinRows | server.js:110-114 | a movement yields max(1, matching users) rows, each with its id, badge and type, and a null name exactly when no user matches |
| History.JoinedRowAt | server.js:110-114 | every history row names an existing movement and carries its badge and type. Its name is null iff the badge is unregistered, and otherwise it is a registered name for that badge |
| History.JoinedDescending | server.js:114 | history rows are ordered by movement id, descending |
| History.JoinedCoversMovements | server.js:110-114 | every movement appears in the history |
| History.JoinedRowsFor | server.js:110-114 | the history rows for movement i are exactly that movement's joined rows: one per matching user row, carrying that row's name, or a single row with a null name |
| History.ListMovements | server.js:107-117 | 200 with the joined rows. Each row describes its movement: id, badge and type, and a name that is null iff the badge is unregistered and otherwise the name of a user row carrying it. Ids are non-increasing, every movement is listed, and the rows for each movement are exactly its joined rows (max(1, matching users) of them) |
| History.MatchingNamesUnique | server.js:87-114 | when no two user rows share a badge, the join matches exactly the row the movement handler's lookup finds |
| History.JoinedWithUniqueBadges | server.js:107-117 | when no two user rows share a badge, the history has one row per movement. Row k is movement N−k, named as `POST /api/movements` would name it |
| Scenarios.AliceChecksInAndOut | server.js:28-117 | register B1 as Alice, then report B1 twice: IN then OUT, both named Alice. The history lists OUT (id 2) and then IN (id 1) |
| Scenarios.UnknownBadgeChecksIn | server.js:63-99 | an unregistered badge with no movement is reported IN with a null name |
| Scenarios.DuplicateRegistrationRepeatsMovement | server.js:28-117 | a badge registered twice gets each of its movements listed twice in the history, once per user row |

## Left out

- Express setup, CORS, the JSON body parser, the `/` health route and `app.listen` (server.js:1-7, 23-25, 124-126): framework wiring with no logic.
- The MySQL connection, environment configuration and `getConnection` (server.js:10-20): foreign I/O, replaced by the abstract store.
- The 500 responses in every `catch` and the `console.error` calls: they arise only from store failures, and the abstract store does not fail.
- Concurrency: the read-then-insert in `POST /api/movements` is not atomic. Two concurrent reports for the same badge can both read the same latest row and write the same type. The model applies requests one at a time, so every alternation result above assumes no interleaving of two requests' steps.
- `created_at` columns and their values in both listings: they come from the database clock, and all ordering here is by id.
- Request fields that are JSON numbers, booleans, arrays or objects: binding them into a query depends on MySQL type coercion. Only missing, `null` and string fields are modelled.
- Badge comparison is exact string equality. MySQL collations (case- and accent-insensitive matching) are not modelled, because the table definitions are not part of this model.
- `SELECT name … LIMIT 1` has no `ORDER BY`, and the order of LEFT JOIN rows that share a movement id is unspecified in SQL. The model fixes both as user id order.
- The movement `type` column is modelled as free text, because the handler compares it with `'IN'` by strict equality. A column restricted to `IN`/`OUT` is not assumed.
- server.js has no delete endpoints, and its users carry only `badge_id`, `name`, `email` and `role`. The model follows it.
