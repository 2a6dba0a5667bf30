# Volunteer coordination store — a Dafny model

The system is a small HTTP API for a Kraków volunteer centre. Organizations
publish initiatives. Volunteers (often school students) apply to them.
Organizations approve applications and record hours. Certificates are issued
for completed participations. Everything lives in one SQLite file with four
tables: `users`, `initiatives`, `participations` and `certificates`.

This project models that store and the code that reads and writes it:

- `sql.dfy` (module `Sql`): the parts of SQLite the code relies on.
  - An AUTOINCREMENT table whose rowids are issued from a counter and never reused.
  - A scan in rowid order.
  - `ORDER BY … DESC` over text under BINARY collation, as a stable sort.
  - `LIMIT`.
  - `LIKE '%x%'` as substring search.
  - Three-valued `IN`, and how a CHECK treats its result.
- `schema.dfy` (module `Schema`):
  - the schema `create_database` declares: row records, enumerated columns, CHECK and UNIQUE clauses, and the `hours_completed` DEFAULT 0;
  - the other defaults are not needed: every INSERT of the code writes `status` itself, and the `created_at` default (CURRENT_TIMESTAMP) is a time the caller supplies;
  - the class `Database`, whose four table fields the storage statements update in place.
- `handlers.dfy` (module `Handlers`): the write endpoints.
  - `create_initiative`, `apply_to_initiative`, `approve_participation` and `create_certificate`, as methods on a `Database`.
  - Each has its error path (`Http.Error`).
- `queries.dfy` (module `Queries`): the read endpoints, as functions of the tables.
  - `get_initiatives`, `get_initiative`, `get_organization_initiatives`, `get_statistics` and `get_users`.
  - Lemmas relate the read endpoints to each other and to the writes.
- `seed.dfy` (module `Seed`): `populate_test_data`, with its loops as methods.
  - The random draws and the current time are parameters.
- `http.dfy`, `results.dfy`: error codes and the `Option`/`Result` wrappers.

Text columns are `string`. Timestamps are opaque text supplied by the
caller. A nullable column is an `Option` when some statement of the code
can store NULL in it. A handler that raises returns `Failure(e)` and
leaves the database unchanged.

## Model

| member | source | states |
|---|---|---|
| Sql.Table.Insert | init_database.py:14 | An AUTOINCREMENT insert takes rowid `lastId + 1`. That rowid is larger than every rowid present, and it becomes the new counter. The old rows are kept. |
| Sql.Table.Scan | main.py:519-527 | An unordered SELECT returns exactly the rows present, each once, in increasing rowid order |
| Sql.InsertAll | init_database.py:109-113 | Inserting a list row by row advances the rowid counter by the length of the list |
| Sql.InsertAllStep | init_database.py:109-113 | One loop iteration appends exactly the next row of the list |
| Sql.InsertAllRows | init_database.py:109-113 | After inserting a list, the k-th row has rowid `lastId + k + 1`. Earlier rows are untouched, and no other rowid appears. |
| Sql.InsertAllKeeps | init_database.py:109-113 | A row present before a run of inserts is still there, unchanged, after it |
| Sql.InsertAllPlaces | init_database.py:109-113 | The k-th inserted row sits at rowid `lastId + k + 1` |
| Sql.IdsUpToAgree | main.py:519-527 | Two tables with the same rowids have the same scan |
| Sql.Select | main.py:111-126 | A WHERE clause keeps exactly the scanned rows that satisfy it and preserves their order |
| Sql.DistinctPermutation | main.py:128 | Reordering a list of distinct rowids keeps them distinct |
| Sql.DistinctCardinality | main.py:522-527 | A list of distinct rowids is as long as the set of its elements |
| Sql.TextLeTotal | main.py:128 | Any two texts are comparable under BINARY collation |
| Sql.TextLeAntisymmetric | main.py:128 | Texts that compare both ways are equal |
| Sql.TextLeTransitive | main.py:128 | BINARY collation order is transitive |
| Sql.OrderByDesc | main.py:128 | `ORDER BY … DESC` returns a permutation of its input |
| Sql.InsertDesc | main.py:128 | One step of the sort adds exactly the new rowid to the list |
| Sql.InsertDescKeepsOrder | main.py:128 | Inserting one rowid into a list sorted by descending key keeps it sorted |
| Sql.OrderByDescIsDescending | main.py:128 | The output of `ORDER BY … DESC` is in non-increasing key order |
| Sql.SelectOrdered | main.py:107-131 | A filtered, descending-ordered query returns exactly the matching rows, each once, in non-increasing key order |
| Sql.BeyondLimitIsNoGreater | main.py:586-587 | A row cut off by `LIMIT n` has a key no greater than that of any row kept |
| Sql.Limited | main.py:587 | `LIMIT n` keeps a prefix of the ordered rows, at most n long, and cuts rows only when there are more than n |
| Sql.In | init_database.py:18-19 | SQL `IN` is true exactly when the value is non-NULL and listed. It is false exactly when the list is empty, or when the value is non-NULL, not listed, and the list holds no NULL. Otherwise it is unknown. |
| Schema.ParseUserType | init_database.py:18 | Reading a stored `user_type` accepts exactly the three names, each to its own type |
| Schema.ParseAgeCategory | init_database.py:19 | Exactly "minor" and "adult" are age categories |
| Schema.ParseInitiativeStatus | init_database.py:44 | Exactly "active", "completed" and "cancelled" are initiative statuses |
| Schema.ParseParticipationStatus | init_database.py:56 | Exactly the four participation status names parse |
| Schema.UserTypeAllowed | init_database.py:18 | The NOT NULL CHECK on `user_type` admits exactly the three type names |
| Schema.InitiativeStatusAllowed | init_database.py:44 | The CHECK on the nullable `status` admits NULL and the three status names, nothing else |
| Schema.ParticipationStatusAllowed | init_database.py:56 | The CHECK on a participation's `status` admits NULL and the four status names, nothing else |
| Schema.AgeCategoryAllowedAsWritten | init_database.py:19 | The `age_category` CHECK as declared passes for every value |
| Schema.AgeCategoryAsWrittenAdmitsAnyText | init_database.py:19 | The declared CHECK admits "teenager", which is not an age category |
| Schema.AgeCategoryAllowed | init_database.py:19 | The intended CHECK admits NULL, "minor" and "adult", and nothing else |
| Schema.ApplySet | main.py:331-348 | An UPDATE's SET list leaves every unnamed column alone, and the final item sets the column it names. The volunteer, initiative, application date, message and feedback never change. |
| Schema.LastAssignmentWins | main.py:331-348 | Each column named in a SET list takes the value of the last item that names it, whatever items for other columns follow |
| Schema.Database.constructor | init_database.py:6-86 | A fresh database has four empty tables with no rowid issued, and satisfies every table constraint |
| Schema.Database.InsertUser | init_database.py:13-16 | A user insert fails, changing nothing, exactly when the e-mail is taken. Otherwise it adds one row under a fresh rowid. Other tables are untouched. UNIQUE(email) keeps holding. |
| Schema.Database.InsertInitiative | init_database.py:30-46 | An initiative insert always adds one row under a fresh rowid and touches nothing else; foreign keys are not enforced |
| Schema.Database.InsertParticipation | init_database.py:52-64 | A participation insert fails exactly when the (volunteer, initiative) pair exists. Otherwise it adds one row. UNIQUE(volunteer_id, initiative_id) keeps holding. |
| Schema.Database.UpdateParticipation | main.py:344-348 | `UPDATE … WHERE id = ?` rewrites at most that one row, by its SET list, and keeps the rowid counter |
| Schema.Database.InsertCertificate | init_database.py:70-81 | A certificate insert always adds one row under a fresh rowid and touches nothing else |
| Handlers.CertificateSourceRow | main.py:365-376 | The joined row exists exactly when the participation exists and is completed and its initiative, volunteer and organization rows all exist. It carries the volunteer's name and the initiative's title. |
| Handlers.CreateInitiative | main.py:170-199 | Fails with OrganizationNotFound, changing nothing, exactly when no organization-type user has the id. Otherwise it inserts one active initiative echoing the request under a fresh id and returns that id. |
| Handlers.ApplyToInitiative | main.py:202-237 | Fails with InitiativeNotFound exactly when the path's initiative is missing. Fails with AlreadyApplied exactly when the volunteer already has a participation there. On success it inserts one pending row with zero hours under a fresh id. Failures change nothing. |
| Handlers.ApproveParticipation | main.py:320-353 | Fails with ParticipationNotFound exactly when the row is missing. Otherwise it writes the requested status, overwrites hours only when supplied, and sets the approval date only for `approved`. Nothing else changes. |
| Handlers.ApprovalUpdate | main.py:331-348 | The SET list the handler builds changes exactly status, supplied hours and, when approving, the approval date |
| Handlers.CreateCertificate | main.py:358-407 | Fails with CompletedParticipationNotFound, changing nothing, exactly when the joined row is missing. Otherwise it inserts one certificate. The certificate carries the participation's volunteer and hours, the request's organization id and a snapshot of the joined row. The response repeats the volunteer's name, the title and the hours. |
| Handlers.ReapplicationIsRejected | main.py:215-223 | Applying twice for the same pair: the second call is always refused with a 400 |
| Handlers.CertificateIssuedTwice | main.py:383-395 | Nothing stops a second certificate for the same participation; the two get distinct ids |
| Queries.JoinOrganization | main.py:107-110 | A listed row is the initiative joined with its organization's name and e-mail |
| Queries.ListedIds | main.py:107-131 | `get_initiatives` returns exactly the initiatives whose organization exists and which match every truthy filter (category equal, location substring, status equal, organization equal). Each appears once, newest start date first. |
| Queries.LocationFilterNarrows | main.py:118-120 | Adding a location parameter keeps exactly the listed initiatives whose location contains it; an empty parameter keeps them all |
| Queries.OwnLocationMatches | main.py:118-120 | A listed initiative stays listed when filtered by its own location |
| Queries.GetInitiatives | main.py:96-134 | The response lists one joined row per listed id, in that order |
| Queries.GetInitiative | main.py:137-167 | Fails with InitiativeNotFound exactly when the initiative or its organization is missing. Otherwise it returns the joined row with the organization's phone and the number of pending or approved applications. |
| Queries.ApplicationsArePendingPlusApproved | main.py:156-160 | `applications_count` is the pending count plus the approved count of the organization view |
| Queries.ListedInitiativeIsFound | main.py:96-167 | Every row of the list is also found by `get_initiative`, with the same initiative |
| Queries.DefaultListsActive | main.py:100 | With no query parameters an initiative is listed exactly when it is active and its organization exists |
| Queries.ApplicationAddsOne | main.py:156-160 | A new pending application raises that initiative's `applications_count` by one and no other initiative's |
| Queries.OwnedIds | main.py:273-282 | `get_organization_initiatives` lists exactly that organization's initiatives, each once, newest start date first |
| Queries.GetOrganizationInitiatives | main.py:267-287 | Each row carries its initiative and the counts of its pending and approved participations |
| Queries.TotalHours | main.py:566 | `SUM(hours_completed)` is NULL exactly when no participation is completed |
| Queries.GetOverview | main.py:559-569 | Each user count is the number of users of that type, and the three add up to the number of users. The active and completed counts count those rows. Total hours is `TotalHours`, NULL exactly when nothing is completed. |
| Queries.UserTypesPartition | main.py:561-563 | Every user has exactly one of the three types |
| Queries.CompletedHoursAppend | main.py:566 | Summing one more row adds its hours if it is completed, nothing otherwise |
| Queries.CompletedHoursUpdate | main.py:566 | Replacing one row changes the sum by exactly the difference of the two rows' contributions |
| Queries.NoneCompletedSumsToZero | main.py:566 | A sum over no completed row is zero |
| Queries.TotalIsSum | main.py:566 | The reported total, NULL read as zero, is the sum of completed hours over the table |
| Queries.UpdateMovesTotal | main.py:344-348 | Rewriting one participation moves total hours by the new row's contribution minus the old one's |
| Queries.CompletionAddsHours | main.py:338-348 | Marking a not-yet-completed participation completed adds its hours to the total |
| Queries.ScanAfterInsert | main.py:226-234 | A fresh rowid appears at the end of the scan |
| Queries.ApplicationKeepsTotal | main.py:226-231 | A new pending application leaves total hours unchanged |
| Queries.ApplicationKeepsOverview | main.py:226-231 | A new pending application leaves the whole statistics overview unchanged |
| Queries.CategoryCounts | main.py:572-579 | Exactly the categories that occur are reported, each with the number of its initiatives, never zero |
| Queries.JoinedByCreation | main.py:582-586 | The initiatives with an existing organization, each once, newest creation first |
| Queries.RecentIds | main.py:582-590 | At most five initiatives with an existing organization, each once, newest creation first. Fewer than five only when there are no more. |
| Queries.RecentAreNewest | main.py:586-587 | An initiative left out of the recent list was created no later than any listed one |
| Queries.GetStatistics | main.py:552-598 | The response is the overview, the category counts and one recent row per recent initiative |
| Queries.UserIds | main.py:519-527 | `get_users` returns exactly the users of the given type, or all users when the parameter is absent or empty, in rowid order |
| Queries.GetUsers | main.py:513-530 | One row per listed user, in order |
| Queries.UserListMatchesOverview | main.py:513-566 | Listing users of a type returns as many rows as the statistics count for that type |
| Queries.UnknownTypeListsNobody | main.py:522-524 | An unknown non-empty type lists nobody |
| Seed.EmailTakenAfter | init_database.py:109-168 | After inserting users, an e-mail is taken exactly when it was before or one of the new rows has it |
| Seed.FreshEmailsConcat | init_database.py:109-168 | The three user lists are accepted together exactly when each is accepted after the ones before it |
| Seed.FreshEmailsStep | init_database.py:109-113 | One more user keeps the list accepted exactly when its e-mail is not taken by then; if it is taken, the whole list is refused |
| Seed.SeedUsers | init_database.py:109-113 | The users loop succeeds exactly when no e-mail clashes. It then inserts the list in order and touches no other table. |
| Seed.SeededUserIds | init_database.py:96-168 | Seeding ten volunteers, then seven organizations, then coordinators, into an empty table gives rowids 1–10 to volunteers and 11–17 to organizations |
| Seed.SeededInitiative | init_database.py:251-266 | A seeded initiative is active and carries the literal's title, category and requirements, and the draw's organization and location |
| Seed.SeededInitiatives | init_database.py:251-266 | One row per literal, in order, each with its own draw |
| Seed.SeedInitiatives | init_database.py:251-266 | The initiatives loop inserts exactly those rows in order and touches no other table |
| Seed.SeededInitiativeIds | init_database.py:249-273 | Fifteen literals seeded into an empty table occupy rowids 1–15. All are active, and each organization id is in 11–17. |
| Seed.SeededParticipation | init_database.py:289-313 | The approval date is set exactly for approved or completed rows. Hours are the draw's for completed rows and zero otherwise. The message is the fixed text or NULL. Feedback is NULL. |
| Seed.SeededHoursInRange | init_database.py:298-302 | For an in-range draw, a row's hours lie in 2–8 exactly when it is completed |
| Seed.SeedApplications | init_database.py:276-315 | The applications loop keeps the table valid |
| Seed.SeedApplicationsStep | init_database.py:280-315 | One iteration skips a draw whose pair exists and otherwise inserts its row |
| Seed.SeedCoversDraws | init_database.py:276-315 | After the loop every drawn pair has a participation |
| Seed.SeedAddsOnlyDrawnRows | init_database.py:276-315 | Every row the loop adds is the row of one of the draws; rows present before are untouched |
| Seed.SeedInsertsAtMostOnePerDraw | init_database.py:276-315 | The loop issues at most one rowid per draw |
| Seed.SeedKeepsPairsUnique | init_database.py:280-287 | The duplicate check keeps every (volunteer, initiative) pair unique |
| Seed.SeedParticipations | init_database.py:272-317 | The method runs thirty draws through the loop and counts the rows inserted, at most thirty |
| Seed.Completions | init_database.py:322-326 | Exactly the completed participations whose initiative exists, in rowid order |
| Seed.CertificateCandidates | init_database.py:322-330 | At most ten completed participations whose initiative exists, in rowid order |
| Seed.CandidatesAreFirst | init_database.py:322-328 | The candidates are the first ones in rowid order. One is left out only when ten were taken, and then it has a larger rowid than every candidate. |
| Seed.SeededCertificate | init_database.py:332-343 | A seeded certificate copies the participation's volunteer and hours and the initiative's organization, and carries the fixed marker |
| Seed.SeededCertificates | init_database.py:322-343 | At most ten certificates, each for a distinct completed participation, in increasing participation order |
| Seed.SeedCertificates | init_database.py:332-345 | The certificates loop inserts exactly those certificates and touches no other table |
| Seed.PopulateTestData | init_database.py:89-348 | The whole routine succeeds exactly when no seeded e-mail clashes. The tables then hold the users, the seeded initiatives, the surviving applications and their certificates, in that order. |

## Left out

- HTTP transport, routing, CORS, request validation and the uvicorn entry point: the model starts at the parsed request record.
- Connections and transactions: each handler is one atomic step.
- Seed.SeededInitiatives: every seeded initiative gets the same `created_at`, the one time passed in. The source evaluates CURRENT_TIMESTAMP at each INSERT, so rows inserted across a second boundary could differ.
- Seed.PopulateTestData: when an e-mail clashes, the routine raises and its uncommitted transaction is lost. The model only reports `ok == false` and does not state what the tables hold.
- The current time and every `random` draw are parameters. So are the literal users and initiatives, which the model takes as sequences of rows.
- Seed.SeedParticipations: the status weights (30/40/25/5) and the coin toss for the message are not modelled. A draw carries its status and its message choice directly.
- Latitude and longitude of initiatives are not stored in the model.
- `certificate_data` is not JSON text. It is the joined row itself (`Snapshot`) or the fixed seed marker (`SeedMarker`).
- Queries.ListedIds: `LIKE` is modelled as a case-sensitive substring match. SQLite's ASCII case-folding and the `%`/`_` wildcards inside a user-supplied location are not modelled.
- Queries.CategoryCounts: returns a map from category to count. The `ORDER BY count DESC` of the category list is not modelled.
- Ties under `ORDER BY … DESC` are kept in rowid order. SQLite does not promise any order for ties.
- A SELECT without ORDER BY is modelled as returning rows in rowid order. SQLite does not promise this order. For the single-table scans of `get_users` and the statistics it is the usual plan.
- Seed.CertificateCandidates: the candidate query at init_database.py:322-328 is a JOIN with `LIMIT 10` and no ORDER BY. The model takes the first ten in participation rowid order, which assumes the planner scans `participations` in the outer loop. Another plan could pick a different ten.
- Nullable columns that no statement of the code sets to NULL are plain values: `status` of initiatives and of participations, `hours_completed`, `created_at` of users and of initiatives, and `certificate_data`. Their NULL state is not modelled.
- Queries.ListedIds: `start_date` is declared `DATE` and `created_at` `TIMESTAMP`, so both columns have NUMERIC affinity. A number-like `start_date` such as "3000" would be stored as an INTEGER, and `ORDER BY start_date DESC` puts integers after all text. The model compares every date as text.
- Queries.OwnedIds: the same NUMERIC affinity of `start_date` is not modelled; dates are compared as text.
- Queries.RecentIds: the same NUMERIC affinity of `created_at` is not modelled; creation times are compared as text.
- Handlers.CreateInitiative: integers are unbounded. An `hours_required` or `spots_available` outside the signed 64-bit range (below -2^63, or 2^63 and above) makes the database driver raise OverflowError, so the handler fails and nothing changes. The model stores the value.
- Handlers.ApproveParticipation: likewise, an `hours_completed` outside the signed 64-bit range (below -2^63, or 2^63 and above) raises OverflowError in the driver; the model stores it.
- Handlers.ApplyToInitiative: integers are unbounded. The source answers 500 and writes nothing when a bound integer is outside the signed 64-bit range (below -2^63, or 2^63 and above), because the driver raises OverflowError. A path `initiative_id` out of that range fails at the first SELECT. A `volunteer_id` out of that range fails at the duplicate check. The model instead fails with InitiativeNotFound, or inserts the application.
- Handlers.CreateCertificate: likewise, a `participation_id` outside the signed 64-bit range (below -2^63, or 2^63 and above) fails at the joined SELECT in the source. An `organization_id` out of that range fails at the INSERT. The model fails with CompletedParticipationNotFound, or inserts the certificate.
- Handlers.ApproveParticipation and Queries.GetInitiative: a path id outside the signed 64-bit range (below -2^63, or 2^63 and above) gets a 500 from the source. The model answers with its 404 error.
- Queries.ListedIds and Queries.OwnedIds: an `organization_id` query parameter or an `org_id` path id outside the signed 64-bit range (below -2^63, or 2^63 and above) gets a 500 from the source. The model filters with the unbounded integer.
- Queries.TotalHours: `SUM` over 64-bit integers raises an overflow error when the total leaves that range. The model's sum is unbounded.
- Rowids are unbounded integers. SQLite's 64-bit limit and its "database full" error are not modelled.
- Queries.TotalHours follows the code: the total is NULL, not zero, when no participation is completed.
- Not part of this model: `get_volunteer_participations`, `get_organization_applications`, `get_volunteer_certificates`, `get_coordinator_students`, `get_coordinator_reports`, `get_user`, the root endpoint, the summary printed by `main()` in init_database.py, and test_api.py.
- Enumerated columns are datatypes in the row records. The `Parse*` and `*Name` functions relate them to the stored text. A row whose `user_type` or `status` text lies outside the CHECK lists cannot be represented. The CHECK constraints themselves rule such rows out.
- `age_category` is stored as `Option<AgeCategory>`, i.e. under the corrected constraint (see Findings).

## Findings

| source | as written | input that shows it | evidently intended | confidence | as-written member | corrected member |
|---|---|---|---|---|---|---|
| init_database.py:19 | `CHECK(age_category IN ('minor', 'adult', NULL))`: the NULL in the list makes `IN` unknown, never false, for any value not listed, so the CHECK passes | inserting a user with `age_category = 'teenager'` is accepted | `age_category IS NULL OR age_category IN ('minor', 'adult')` | high, not executed | Schema.AgeCategoryAsWrittenAdmitsAnyText | Schema.AgeCategoryAllowed |
