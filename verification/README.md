# Traffic-hazard service, modelled in Dafny

A model of the back end of a small traffic-safety service. The service ranks
accident hotspots by a weighted risk index and classifies each into a tier
(위험 / 경계 / 주의). It attaches per-tier safety advice, finds hotspots near
a coordinate, and lets users register, log in and keep their own hazard
reports. A bootstrap creates the schema, seeds the advice table and loads the
hotspot CSV. A separate loader rebuilds the hotspot table from a JSON export.
Finally, the HTTP entry point filters requests by CORS origin and decides
whether the bootstrap runs.

Modules:

- `Wrappers`: `Option`.
- `Text`: JavaScript's `split` on one character, `join`, and `trim` with
  the ECMAScript white-space set, with their round-trip lemmas.
- `Ranking`: `ORDER BY key DESC [LIMIT k]` as admissible-answer predicates
  (`IsOrderedBy`, `IsTopK`). SQL leaves the order of tied rows open, so these
  accept every tie order. `SortDesc` and `Take` give one answer among them.
- `Analysis` (`backend/routes/analysis.js`): the top-10 query, the advice
  lookup, the merge of advice into the reply, and the nearby search. All of
  it is pure functions over the table contents.
- `Reports` (`backend/routes/reports.js`): `ReportStore`, a class whose
  `rows` map is the USER_HAZARD_REPORTS table, with one method per endpoint.
- `Auth` (`routes/auth.js`): `UserRegistry`, a class whose `users` map is the
  USERS table keyed by login id. The password hasher is a value given to the
  registry, and the only property assumed of it is `Sound` (a password
  matches its own hash).
- `DbSetup` (`db/db_setup.js`):
  - Pure parts: the DDL split and clean pipeline, the seed rows, and the
    CSV-row mapping.
  - Imperative part: the `Database` class, whose methods run the statement
    loop, the seeding and the CSV load.
- `JsonLoader` (`data_manage/load_json_to_db.js`):
  - Pure parts: building rows from JSON records, and the column clause.
  - Imperative part: the `MySqlServer` class, whose `LoadJsonToMysql` runs
    DROP, CREATE and the bulk INSERT, and opens and closes one connection.
- `Server` (`backend/server.js`): the origin callback, the preflight
  short-cut, and the `RUN_DB_INIT` start-up switch.

Behaviour the model keeps exactly as the code has it:

- The tier labels are the Korean strings the SQL `CASE` writes
  (backend/routes/analysis.js:22-24), and they are also the RISK_LEVEL keys of
  the seeded advice rows (db/db_setup.js:55-57).
- Advice is attached with `adviceMap[level] || fallback`
  (backend/routes/analysis.js:52). The fallback text is therefore used when
  the level has no advice row, and also when its advice is NULL or the empty
  string.
- Nothing makes RISK_LEVEL unique in the advice lookup. When several rows
  share a level, the `reduce` keeps the last row read
  (backend/routes/analysis.js:44-47). The model keeps that behaviour
  (`LastAdvice`).
- The top-10 query orders by the risk index alone
  (backend/routes/analysis.js:27). Tied rows are left in any order, and no
  secondary key is invented.
- The JSON loader sends its bulk INSERT even for an empty array
  (data_manage/load_json_to_db.js:92-105). The empty value list expands to
  nothing, so that INSERT always fails.

## Model

| member | source | states |
|---|---|---|
| Text.Split | db/db_setup.js:22 | `split(';')` always yields at least one piece, and no piece contains the separator |
| Text.SplitConcat | db/db_setup.js:22 | splitting `a;b` gives the pieces of `a` followed by the pieces of `b` |
| Text.SplitFree | db/db_setup.js:22 | a string without the separator splits into itself alone |
| Text.JoinSplit | db/db_setup.js:22 | joining the pieces of a split with the separator rebuilds the original string |
| Text.SplitJoin | data_manage/load_json_to_db.js:101 | splitting a join gives back the pieces when none contains the separator |
| Text.TrimStart | db/db_setup.js:24 | the result is a suffix that does not start with white space, and only white space was dropped |
| Text.TrimEnd | db/db_setup.js:24 | the result is a prefix that does not end with white space, and only white space was dropped |
| Text.Trim | db/db_setup.js:24 | `trim()` keeps only characters of its input, is no longer than it, and neither starts nor ends with ECMAScript white space |
| Text.TrimIsInfix | db/db_setup.js:24 | `trim()` returns an infix of its input, and every character before it and after it is ECMAScript white space; with the clauses of `Text.Trim`, it is the longest such infix |
| Text.JoinSpaced | data_manage/load_json_to_db.js:101 | the spaced items joined by "," are the items joined by ", " with a leading space |
| Text.JoinCommaSpace | data_manage/load_json_to_db.js:101 | joining with ", " equals joining with "," after prefixing every item but the first with a space |
| Text.SplitCommaSpaced | data_manage/load_json_to_db.js:101 | a comma-free list joined with ", " splits at commas into its first item and then every other item after one space |
| Ranking.Insert | backend/routes/analysis.js:27 | inserting into a descending sequence keeps it descending and adds exactly that row |
| Ranking.SortDesc | backend/routes/analysis.js:27 | the result is an admissible `ORDER BY ... DESC`: the same rows (as a multiset), highest key first |
| Ranking.Take | backend/routes/analysis.js:28 | `LIMIT k` returns the first min(k, n) rows |
| Ranking.TakeOfSortedIsTopK | backend/routes/analysis.js:27-28 | cutting any admissible ordering after k rows gives min(k, n) rows, and no row left out ranks above one kept |
| Ranking.OrderedKeysUnique | backend/routes/analysis.js:27 | two admissible orderings of the same rows differ only among ties: position by position, their keys agree |
| Analysis.RiskIndex | backend/routes/analysis.js:20 | the risk index of non-negative counts is never negative |
| Analysis.RiskIndexWeights | backend/routes/analysis.js:20 | one more death adds 10 to the index, one more accident 5, one more casualty 1, whatever the other counts |
| Analysis.ScoreAll | backend/routes/analysis.js:10-25 | one scored row per table row, in table order, each carrying its own hotspot with index and tier in sync with its counts |
| Analysis.TierOf | backend/routes/analysis.js:21-25 | 위험 exactly when the index is at least 500, 경계 exactly for 300..499, 주의 exactly below 300 |
| Analysis.TierMonotone | backend/routes/analysis.js:21-25 | a higher risk index never gets a milder tier |
| Analysis.RiskIndexExample | backend/routes/analysis.js:20-25 | (example) counts (death 10, accidents 20, casualties 5) give index 205 and tier 주의 |
| Analysis.TopHotspotsQuery | backend/routes/analysis.js:9-29 | the result is an admissible top-10 by risk index over the scored table; every row's index and tier are those its counts give, and its hotspot is in the table |
| Analysis.ScoredRowsInSync | backend/routes/analysis.js:20-25 | any rows taken from the scored table have index and tier in sync with their counts |
| Analysis.AddNew | backend/routes/analysis.js:35 | adding levels to a duplicate-free list keeps it duplicate-free, keeps the earlier entries in place, and holds exactly the old entries and the new levels |
| Analysis.DistinctTiers | backend/routes/analysis.js:35 | `[...new Set(levels)]` has no duplicates and holds exactly the levels present |
| Analysis.SelectAdvice | backend/routes/analysis.js:41-42 | `WHERE RISK_LEVEL IN (...)` keeps exactly the advice rows whose level is among the requested ones |
| Analysis.AdviceMap | backend/routes/analysis.js:44-47 | the reduced map has a key exactly for the levels that have a row, and each value is the advice of that level's last row |
| Analysis.SelectKeepsLast | backend/routes/analysis.js:41-47 | for a requested level, filtering the table first does not change which advice row is found last |
| Analysis.LastAdvice | backend/routes/analysis.js:44-47 | no advice is found for a level exactly when no row has that level |
| Analysis.LastAdviceIsLast | backend/routes/analysis.js:44-47 | when advice is found for a level, it is the advice of a row of that level after which no row of that level follows |
| Analysis.AdviceText | backend/routes/analysis.js:52 | the advice is the stored text or the fallback; stored non-empty text is always used as it is; a missing row, NULL or "" gives the fallback, and the advice is never empty |
| Analysis.Respond | backend/routes/analysis.js:35-55 | no hotspots means no advice lookup; otherwise the lookup asks for each tier present exactly once; each row is returned unchanged with the advice of its tier's last row, or the fallback |
| Analysis.TopHotspots | backend/routes/analysis.js:7-60 | the rows of the reply are an admissible `ORDER BY total_risk_index DESC LIMIT 10` over the scored table: min(10, n) rows, descending, none left out ranking above one kept; each row is a hotspot of the table with index and tier in sync, carrying the advice of its tier's last advice row or the fallback; the advice lookup is skipped exactly when the table is empty |
| Analysis.Within | backend/routes/analysis.js:79-81 | the `BETWEEN` filter keeps every copy of each in-box row and no other row |
| Analysis.Given | backend/routes/analysis.js:68 | a missing parameter and an empty one are both refused; a non-empty text such as "0" is accepted |
| Analysis.InBox | backend/routes/analysis.js:79-81 | no row is in a box of negative radius; with a non-negative radius the requested point itself is always inside |
| Analysis.Nearby | backend/routes/analysis.js:64-93 | 400 exactly when lat or lon is missing or empty; otherwise exactly the table's rows within the inclusive box, ordered by accident count descending |
| Analysis.NearbyZeroRadius | backend/routes/analysis.js:79-81 | with radius 0, a row is found exactly when its coordinates equal the query's |
| Analysis.NearbyNegativeRadius | backend/routes/analysis.js:79-81 | a negative radius makes both BETWEEN ranges empty, so nothing is found |
| Reports.ActingUser | backend/routes/reports.js:9 | a given non-zero user id is used as it is; an absent or zero id acts as user 1; the acting user is never 0 |
| Reports.ReportStore.constructor | backend/routes/reports.js:1-4 | an empty table |
| Reports.ReportStore.Create | backend/routes/reports.js:7-28 | 400, with nothing changed, exactly when title, district or description is missing or empty; otherwise 201 and one new row under a fresh id, owned by `user_id || 1` |
| Reports.ReportStore.ListByUser | backend/routes/reports.js:31-40 | exactly the rows whose owner is the given user, with their contents |
| Reports.ReportStore.Update | backend/routes/reports.js:43-64 | 200 exactly when the report exists and is owned by the acting user; then only its title, description, district and photo change; otherwise 404 and nothing changes; owners never change |
| Reports.ReportStore.Delete | backend/routes/reports.js:67-81 | 200 exactly when the acting user owns the report, and then only that row is removed; otherwise 404 and nothing changes |
| Reports.OwnershipScenario | backend/routes/reports.js:7-81 | for a report created by one user: it is listed for that user and not for another; the other user's update and delete both get 404; the owner's delete gets 200; a second delete gets 404; the table ends as it began |
| Auth.UserRegistry.constructor | routes/auth.js:1-7 | an empty USERS table |
| Auth.UserRegistry.Register | routes/auth.js:10-28 | 400 exactly when login id, name or password is missing or empty; 409 exactly when the id is taken; otherwise 201 and one new user holding the hash of the password; nothing changes on failure |
| Auth.UserRegistry.Login | routes/auth.js:31-50 | 200 with the user's id exactly when the login id exists and the password matches its stored hash; 401 otherwise |
| Auth.RegisterThenLogin | routes/auth.js:10-50 | with a sound hasher, after a 201 registration, logging in with the same credentials succeeds and registering the id again gives 409 |
| DbSetup.ReplaceBreaks | db/db_setup.js:24 | the result has no CR, LF or tab, keeps only spaces and input characters, and is no longer than the input |
| DbSetup.ReplaceBreaksKeepsPlainText | db/db_setup.js:24 | text with no line break or tab is left as it is |
| DbSetup.ReplaceBreaksPointwise | db/db_setup.js:24 | without CR, the result has the input's length and maps each LF or tab to a space and every other character to itself |
| DbSetup.ReplaceBreaksCrLf | db/db_setup.js:24 | a CR LF pair becomes one space wherever it stands, and the text on either side is replaced independently |
| DbSetup.ReplaceBreaksLoneCr | db/db_setup.js:24 | a CR not followed by LF becomes one space wherever it stands, and the text on either side is replaced independently |
| DbSetup.NormalizeFacts | db/db_setup.js:24 | a normalised piece has no line break or tab, no edge white space, and gains no `;` |
| DbSetup.NormalizedIsStatement | db/db_setup.js:24-25 | a normalised `;`-free piece that survives the length filter is a statement |
| DbSetup.MapNonEmptyConcat | db/db_setup.js:24-25 | mapping and then dropping empty results commutes with concatenating the inputs |
| DbSetup.CleanYieldsStatements | db/db_setup.js:22-25 | cleaning `;`-free pieces yields only statements (non-empty, no `;`, no breaks, trimmed), never more than there were pieces |
| DbSetup.Statements | db/db_setup.js:19-25 | every statement sent is non-empty, `;`-free, single-line and trimmed |
| DbSetup.StatementsOfPiece | db/db_setup.js:22-25 | a script without `;` yields its normalised text as its only statement, or nothing when that text is empty |
| DbSetup.CleanConcat | db/db_setup.js:24-25 | cleaning two lists of pieces one after the other equals cleaning their concatenation |
| DbSetup.StatementsConcat | db/db_setup.js:22-29 | the statements of `a;b` are those of `a` followed by those of `b`, in order |
| DbSetup.Seeded | db/db_setup.js:51-66 | after seeding the advice table is never empty, and a table that had rows is left as it was |
| DbSetup.SeedIdempotent | db/db_setup.js:51-66 | seeding twice is seeding once |
| DbSetup.SeedMatchesTiers | db/db_setup.js:54-58 | every seed row's level is a tier label; each tier finds exactly its own seed advice; no seed advice is empty |
| DbSetup.SeededAdviceNeverFallsBack | db/db_setup.js:54-58 | with the seeded advice table, no hotspot in a reply ever gets the fallback text |
| DbSetup.MapCsvRow | db/db_setup.js:106-125 | a CSV record becomes 15 values; value i comes from header i with that column's parseInt/parseFloat/text conversion |
| DbSetup.MapCsvRows | db/db_setup.js:106-125 | one row per CSV record, in record order: row i is the 15-value mapping of record i |
| DbSetup.CsvLoaded | db/db_setup.js:71-137 | a non-empty table, a missing file or a refused INSERT leaves the table unchanged; otherwise an empty table receives one mapped row per record, in order |
| DbSetup.CsvLoadOnce | db/db_setup.js:71-138 | loading the CSV twice is loading it once |
| DbSetup.SeedQueries | db/db_setup.js:51-61 | the seeding always counts the advice rows first, and sends the one INSERT of the three seed rows exactly when the count was 0 |
| DbSetup.CsvQueries | db/db_setup.js:71-132 | the CSV load always counts the hotspot rows first, and sends one INSERT exactly when the table was empty, the file exists and it holds at least one record; that INSERT carries the mapped rows and is never empty |
| DbSetup.Database.constructor | db/db_setup.js:1-9 | a connection with the given table contents and nothing executed |
| DbSetup.Database.RunStatements | db/db_setup.js:27-29 | the statements are sent in order, one query each, and no table changes |
| DbSetup.Database.InsertSafetyMeasures | db/db_setup.js:51-66 | the queries sent are `SeedQueries` of the old table; the advice table gets the three seed rows if it was empty, and is otherwise unchanged |
| DbSetup.Database.LoadCsvData | db/db_setup.js:71-138 | the queries sent are `CsvQueries` of the old table and the file; the hotspot table becomes `CsvLoaded` of its old contents, the file and whether MySQL accepts the INSERT; it fails exactly when an INSERT is sent and refused |
| DbSetup.Database.InitDb | db/db_setup.js:13-46 | the schema statements are sent in order, then the seeding queries, then the CSV queries; the advice table is seeded, the CSV is loaded unless MySQL refuses its INSERT, and `initDB` fails exactly on that refusal |
| JsonLoader.ColumnNamesDistinct | data_manage/load_json_to_db.js:12-17 | the 15 column names are pairwise distinct |
| JsonLoader.SameColumnsAsCsvLoader | data_manage/load_json_to_db.js:12-17 | the JSON loader's columns are the CSV loader's insert columns, in the same order |
| JsonLoader.ParamOf | data_manage/load_json_to_db.js:94-96 | NULL exactly when the key is absent or null; otherwise the stored value itself |
| JsonLoader.BuildRow | data_manage/load_json_to_db.js:93-97 | one value per column, which is NULL exactly when the key is absent or null |
| JsonLoader.BuildRows | data_manage/load_json_to_db.js:92-98 | one row per record, in record order: row i is the row built from record i |
| JsonLoader.FalsyValuesPassThrough | data_manage/load_json_to_db.js:96 | 0, the empty string and false are bound as they are, not turned into NULL |
| JsonLoader.BuildRowRoundTrip | data_manage/load_json_to_db.js:92-98 | reading a built row back gives exactly the record's listed, non-null fields |
| JsonLoader.NamesHaveNoComma | data_manage/load_json_to_db.js:12-17 | no column name contains a comma |
| JsonLoader.ColumnClause | data_manage/load_json_to_db.js:101-102 | the column clause, split at its commas, lists the columns in row-value order, each after the first preceded by one space |
| JsonLoader.FieldsOf | data_manage/load_json_to_db.js:45 | a parsed object has exactly the keys that appear in it, and each key holds the value of its last occurrence |
| JsonLoader.AsRecord | data_manage/load_json_to_db.js:92-96 | an object element has exactly its own keys; any other element makes every column NULL |
| JsonLoader.RecordsOf | data_manage/load_json_to_db.js:92-98 | the row-building walk succeeds exactly on an array without null elements, giving one record per element |
| JsonLoader.MySqlServer.constructor | data_manage/load_json_to_db.js:20-27 | a server with the given table, no connection and nothing executed |
| JsonLoader.MySqlServer.LoadJsonToMysql | data_manage/load_json_to_db.js:31-117 | a missing file, a parse failure or a failed connection changes nothing; otherwise DROP, CREATE, then INSERT with one row per record; a non-array or an array with a null element leaves the table empty without INSERT; an empty array or a refused INSERT leaves it empty and reports failure; the one connection opened is always closed |
| Server.CheckOrigin | backend/server.js:24-39 | allowed exactly for no or an empty Origin or one of the three listed origins; otherwise refused with "CORS blocked: " and the origin |
| Server.Gate | backend/server.js:30-50 | refused exactly when the origin is refused; 204 exactly for allowed OPTIONS requests; on to the routes exactly for allowed other methods |
| Server.AllowedOriginExamples | backend/server.js:24-50 | (example) no origin and a listed origin reach the routes; a preflight from a listed origin gets 204 |
| Server.BlockedOriginExamples | backend/server.js:24-39 | (example) the origin must match exactly, scheme and port included; a refused origin is refused for OPTIONS as well |
| Server.InitSwitchExamples | backend/server.js:75 | (example) only the exact text "true" turns on the bootstrap; "TRUE", "1" and an unset variable do not |
| Server.Boot | backend/server.js:75-81 | `initDB` runs exactly when `RUN_DB_INIT` is "true", sending the `initDB` queries and seeding and loading the tables (a refused CSV INSERT leaves the hotspot table as it was); otherwise the database is untouched |

## Left out

- HTTP transport, JSON encoding of replies, `express.static`, `listen`,
  `/health`, the body parsers, the frontend and the Python data scripts are
  not part of this model.
- Every 500 path (a database or library error, `err.message` passed through)
  is left out. Each handler's contract covers the statuses the handler
  chooses itself.
- `NOW()` is a `now` parameter. AUTO_INCREMENT is a counter held by the
  class (`nextId`, `nextUserId`).
- bcrypt's salt, cost and internals are left out. `hash` and `compare` are
  parameters, and `Sound` is the only assumption about them.
- Login with a missing password: bcrypt rejects the call and the handler
  answers 500. `Auth.UserRegistry.Login` takes the password as a string.
- Registration relies on a unique index on LOGIN_ID, which the schema file
  must provide. db_schema.sql is not part of this model.
- `DbSetup.Database.RunStatements` records the statements it sends but does
  not interpret them, so it does not model schema creation.
- `DbSetup.Database.InsertSafetyMeasures` and
  `DbSetup.Database.LoadCsvData` read the `COUNT(*)` result from the table
  the class holds. The INSERT is recorded with the rows it carries, not as
  SQL text.
- `parseInt` and `parseFloat` are kept symbolic in the CSV mapping
  (`IntOf`/`FloatOf` of the cell text). A cell they read as NaN is sent as
  a bare `NaN`, which MySQL refuses, so the whole CSV INSERT fails and
  `initDB` rethrows. That refusal is the `insertAccepted` parameter of
  `DbSetup.Database.LoadCsvData`; which cells are NaN is not computed.
- Nearby search: `lat` and `lon` are given as their query text together
  with the number `parseFloat` reads from it. `radius` is given only as its
  parsed number, or as absent, in which case 0.01 is used. A text that does
  not parse as a number (a NaN bound) is not modelled for any of the three.
  This includes an empty `radius`, which the default does not replace.
- Reading the CSV stream and reading the JSON file are left out. The CSV is
  given as its parsed records, or None when the file is missing. The JSON
  file is given as missing, malformed or its parsed value.
- The database's own refusals of an INSERT are not computed: type errors,
  NaN values, and a duplicate or NULL `fid` primary key. They are the
  `insertAccepted` parameter of `JsonLoader.MySqlServer.LoadJsonToMysql`
  and of `DbSetup.Database.LoadCsvData`, `DbSetup.Database.InitDb` and
  `Server.Boot`.
- `DbSetup.Database.InitDb`: a schema statement or the advice seed INSERT
  that MySQL refuses (db/db_setup.js:27-29 and 60) would abort `initDB`
  before the later steps. The model assumes these succeed; only the CSV
  INSERT may be refused.
- `JsonLoader.MySqlServer.LoadJsonToMysql`: DROP and CREATE are assumed to
  succeed once connected, and the CREATE statement's column types are not
  modelled.
- `Reports.ReportStore.Update`, `Reports.ReportStore.Delete`: `affectedRows`
  is read as the number of matched rows. An update that writes identical
  values therefore still gives 200.
- Tie order in `ORDER BY` is unconstrained: `IsOrderedBy` and `IsTopK`
  accept any order of equal keys.
- `Analysis.TopHotspots`: the DECIMAL and INT widths of the columns are
  unbounded here.
- Concurrency between requests and the connection pool is left out.
- `Analysis.Hotspot`: the death, accident and casualty counts and the
  coordinates are never NULL here. In MySQL a NULL count would make the index
  NULL. The `CASE` would then fall through to 주의, and the row would sort
  after every other row. A row with a NULL coordinate would never pass
  `BETWEEN`. None of this is modelled.
- `Analysis.SelectAdvice` returns the advice rows in table order. The advice
  `SELECT` has no `ORDER BY`, so MySQL may return them in any order. When
  several rows share a RISK_LEVEL, which advice wins then depends on that
  order. The model fixes it to table order.
- `Auth.UserRegistry.Register` compares login ids by exact string equality.
  Under MySQL's usual case- and accent-insensitive collation, ids that
  differ only in letter case or accents collide and give 409; trailing
  spaces collide too, but only under a PAD SPACE collation (MySQL 8's
  default utf8mb4_0900_ai_ci is NO PAD). The model keeps all of them apart. `Auth.UserRegistry.Login` looks ids up the same exact way.
  No unique column other than LOGIN_ID is assumed; a unique
  EMAIL would add 409 cases the model does not have.
