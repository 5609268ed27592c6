# letterboxd-loader, modelled in Dafny

letterboxd-loader copies a Letterboxd data export into MariaDB. It then
links each film to a JustWatch title, records the streaming offers for
watchlist films, and enriches the linked titles with TMDb details and an
OMDb box-office figure. This project models the three programs that do
that work. Each step is stated as Dafny functions over the tables, and
each state change as a method on a `Database` object.

- `loader.py`:
  - `latest_zip`, `to_int`, `to_bool`, `ensure_unique` and `ensure_schema`.
  - The per-row `INSERT … ON DUPLICATE KEY UPDATE` of `watchlist`,
    `watched` and `diary`, as written: MySQL's rule that a NULL in a unique
    key never collides is part of the load. A null-safe key comparison is
    modelled beside it, and a lemma shows where the two agree.
- `jw_update.py`:
  - `g`, and the stale-candidate query.
  - `pick_best_match`: scoring, the stable sort by descending score, and
    confidence.
  - `fetch_offers` and its offer normalisation.
  - The offer-history upsert, a valid-from/valid-to interval table.
  - `update_one`, and the run over the selected candidates.
- `enrich_details.py`:
  - `tmdb_search`, `tmdb_bundle` and `omdb_box_office`.
  - `enrich_one`: the `film_details` upsert, the id lookup, and the
    back-fill of `jw_title_map.film_id`.

Modules, one per file:

| file | module | what it holds |
|---|---|---|
| `text.dfy` | `Text` | `str.strip`, `lower`, `upper`, `in`, slicing, `int()` on text, string ordering |
| `records.dfy` | `Records` | dynamic JSON values, Python truthiness, `or`, `dict.get`, `g` |
| `store.dfy` | `Store` | the rows of every table and the `Database` class whose fields are the tables |
| `matching.dfy` | `Matching` | `pick_best_match` |
| `offers.dfy` | `Offers` | `fetch_offers` |
| `history.dfy` | `History` | `upsert_offer_history_watchlist` and its three statements |
| `jwupdate.dfy` | `JwUpdate` | candidate selection, `update_one`, `main` of the mapper |
| `loader.dfy` | `Loader` | `loader.py` |
| `enrich.dfy` | `Enrich` | `enrich_details.py` |

The model replaces outside services with parameters:

- `NOW()` is an integer timestamp `now`.
- Each HTTP call is a function parameter (`tmdbGet`, `omdbGet`, `searchFor`, `offersFor`).
- Where the code catches a failed request (the JustWatch search and offers,
  OMDb), the model gives the value the code falls back to: `None`, or an
  empty list. A failed TMDb request is not caught; see "Left out".

## Model

| member | source | states |
|---|---|---|
| Text.TrimSpec | jw_update.py:128 | `strip()` returns a contiguous piece of its input, and everything removed on either side is whitespace |
| Text.TrimKeeps | jw_update.py:239 | every character of the input that is not whitespace survives `strip()` |
| Text.TrimUnpadded | jw_update.py:239 | text without surrounding whitespace is its own strip |
| Text.TrimTrim | loader.py:39 | stripping twice is stripping once |
| Text.TrimDigits | loader.py:38-41 | stripping does not touch a string of digits |
| Text.UpperUpper | jw_update.py:167 | `upper()` is idempotent |
| Text.UpperFixed | enrich_details.py:160 | text without lower-case letters is unchanged by `upper()` |
| Text.TrimUpper | enrich_details.py:160 | `strip` and `upper` commute |
| Text.LowerUpper | loader.py:53 | lower-casing forgets a previous upper-casing |
| Text.StripLowerIgnoresCase | loader.py:53 | `strip().lower()` of the upper-cased text equals that of the text |
| Text.ContainsSpec | jw_update.py:154 | the substring test `a in b` holds exactly when `a` occurs in `b` at some position |
| Text.DigitsValueOfNatToString | loader.py:41 | decimal text of a natural number reads back as that number |
| Text.ParseIntTrimmed | loader.py:38-41 | `int()` ignores surrounding whitespace |
| Text.ParseIntDigits | enrich_details.py:112 | `int()` of a digit string is its decimal value |
| Text.ParseIntRoundTrip | loader.py:41 | `int(str(i)) == i` for every integer, negative ones included |
| Text.LexLeTotal | loader.py:26 | the string order used by `sorted` is total |
| Text.LexLeTransitive | loader.py:26 | the string order is transitive |
| Text.LexLeAntisymmetric | loader.py:26 | the string order is antisymmetric |
| Records.Or | enrich_details.py:109-111 | `a or b` is `a` when `a` is truthy and `b` otherwise; so it is truthy exactly when one of them is |
| Records.FirstPresentSpec | jw_update.py:50-60 | `g` returns `None` exactly when every name is missing, `None` or `""`; otherwise it returns the value of the first name that is present |
| Matching.CandidateYearFromDate | jw_update.py:138-145 | with no year field, a release date whose first four characters are digits gives that year |
| Matching.ScoreOf | jw_update.py:147-158 | every score is 0, 3, 5, 10 or 20, and the match is by name and year exactly for 5 and 20 |
| Matching.ScoreMeaning | jw_update.py:147-158 | iff characterisation of each score: equal titles ⇔ ≥ 10; 20 ⇔ equal titles and equal given years; 5 ⇔ contained title and a year at most one apart; 0 ⇔ unrelated or empty title |
| Matching.ZeroYearIsAbsent | jw_update.py:130-133 | a wanted year of 0 scores like no year (Python truthiness) |
| Matching.FirstMax | jw_update.py:165-166 | the index chosen is the first one holding the largest score, where a stable descending sort puts it |
| Matching.FirstBestUnique | jw_update.py:165-166 | exactly one index is the first best, so the winner is determined |
| Matching.ConfidenceOfScore | jw_update.py:169 | on the possible scores, the clamped confidence is five times the score |
| Matching.PickBestMatch | jw_update.py:120-170 | no match exactly for an empty result list; the confidence is 0, 15, 25, 50 or 100, and it is 25 or 100 exactly for a name-and-year match |
| Matching.PickBestMatchWinner | jw_update.py:160-170 | the reported match is the first best-scoring result, with its own score's confidence and media type |
| Matching.ExactTitleAndYear | jw_update.py:149-151 | "Heat" (1995) wanted as "heat" (1995) scores 20 by name and year |
| Matching.ContainedTitleNearYear | jw_update.py:152-155 | "Heat 2" (1996) against "heat" (1995) scores 5 by name and year |
| Offers.OrChainSpec | jw_update.py:192-199 | a chain of `or`s gives the first truthy operand, or the last operand when none is truthy |
| Offers.OfferUrlSpec | jw_update.py:192-199 | an offer's URL is the first truthy of `standard_web`, `deeplink_web`, `urls.url` and the offer's own `url` |
| Offers.NormalizeOffers | jw_update.py:184-205 | one normalised offer per raw offer, in the same order, none merged or dropped |
| Offers.FetchOffers | jw_update.py:172-206 | a failed request gives no offers; otherwise the normalised offers of the country's list |
| History.LastRow | jw_update.py:99-105 | the chosen row is of the key, and it is absent exactly when the key has no row |
| History.LastRowIsValidPick | jw_update.py:99-105 | in a chronological table the last row of a key is one the `ORDER BY valid_from DESC LIMIT 1` query may return |
| History.AppendOpenKeepsWellFormed | jw_update.py:113-117 | inserting an open interval dated `now` keeps at most one open interval per key and keeps the table chronological |
| History.CloseOpenKeepsWellFormed | jw_update.py:107-111 | closing the open intervals of a key keeps the table well formed, and leaves no open interval for that key |
| History.UpsertKeepsWellFormed | jw_update.py:208-230 | the corrected upsert keeps at most one open interval per (watchlist id, provider), and keeps the table chronological and not after `now` |
| History.UpsertFrame | jw_update.py:208-230 | the upsert only closes open rows of its own key and changes no other row |
| History.UpsertRecordsOffer | jw_update.py:213-230 | after a change, or when the key has no row yet, the new open interval holds exactly the offer's values and the key has no other open interval; otherwise nothing changes |
| History.UnchangedClosedStaysClosed | jw_update.py:213-230 | an unchanged offer whose latest interval is closed is not reopened |
| History.AsWrittenAgrees | jw_update.py:223-230 | whenever the returned row is open, or the key has no open row, the code as written equals the corrected upsert |
| History.AsWrittenLeavesTwoOpen | jw_update.py:223-230 | a tie on `valid_from` lets the code as written leave two open intervals for one key |
| History.SelectLast | jw_update.py:99-105 | the SELECT method returns the row chosen by `LastRow` |
| History.CloseOffer | jw_update.py:107-111 | the UPDATE closes exactly the open intervals of the key at `now` |
| History.UpsertOfferHistory | jw_update.py:208-230 | the new history is the code as written (close only when the returned row is open, then insert) applied with the row the SELECT returns |
| History.AsWrittenOnLastRow | jw_update.py:223-230 | when each key's only open row is its newest, the code as written with the newest-insert pick equals the corrected upsert and keeps that property |
| History.AsWrittenFrame | jw_update.py:223-230 | the code as written never shortens the history, and leaves other keys and closed rows alone |
| JwUpdate.EligibleRowsSpec | jw_update.py:68-82 | a row is selected exactly when it has no mapping for the source, or its mapping was checked more than `STALE_DAYS` days before `now`; the selection keeps ascending ids |
| JwUpdate.SelectCandidatesSpec | jw_update.py:68-82 | the batch holds at most `limit` eligible rows in ascending id order; an eligible row left out means the batch is full and every id in it is at most that row's id |
| JwUpdate.SortByIdSpec | jw_update.py:80-81 | `ORDER BY id` returns a permutation of the rows in ascending id order |
| JwUpdate.SortByIdAscending | jw_update.py:80-81 | rows already in ascending id order are left as they are |
| JwUpdate.RerunSkipsFresh | jw_update.py:78-79 | a row mapped at `now` is eligible again only after `STALE_DAYS` days |
| JwUpdate.ResolveSpec | jw_update.py:233-276 | a row with an empty title, or whose search failed or returned nothing, is skipped; a resolved row has a truthy entry id and title, a valid confidence, and the entry id of the first best search result |
| JwUpdate.MapUpsertedSpec | jw_update.py:84-96 | the mapping upsert writes the row's key, leaves every other key alone, keeps `film_id`, stamps `now`, and repeating it changes nothing |
| JwUpdate.ApplyOffersKeepsWellFormed | jw_update.py:288-308 | recording a whole offer list with the code as written, where the SELECT returns the newest insert, keeps the history well formed and each key's only open row its newest |
| JwUpdate.ApplyOffersFrame | jw_update.py:288-308 | closed intervals, other watchlist titles, and providers no longer listed are left as they were |
| JwUpdate.RecordOffers | jw_update.py:290-308 | the offers loop leaves the history that `ApplyOffers` describes |
| JwUpdate.RecordResolution | jw_update.py:278-308 | the mapping upsert and the offer history of one resolved row leave the tables `Commit` describes |
| JwUpdate.UpdateOne | jw_update.py:233-308 | `update_one` leaves the tables `Step` describes: nothing changes for a skipped row |
| JwUpdate.CommitMapping | jw_update.py:278-282 | one commit touches only its own key, and stamps it with `now` when the row resolved |
| JwUpdate.RunRowsKeepsWellFormed | jw_update.py:323-327 | a whole run of the code as written, where the SELECT returns the newest insert, keeps the offer history well formed and each key's only open row its newest |
| JwUpdate.RunRowsMapping | jw_update.py:323-327 | a run keeps every existing mapping and changes only the candidates' keys |
| JwUpdate.RunRowsStampsResolved | jw_update.py:323-327 | every candidate that resolved is mapped and stamped with `now` after the run |
| JwUpdate.RunMapper | jw_update.py:310-334 | `main` selects the candidates in id order, then applies `update_one` to each in order |
| Loader.ToIntSpec | loader.py:37-42 | `None` and blank text give `None`; other text gives `int()` of the text, `None` where it raises |
| Loader.ToIntRoundTrip | loader.py:37-42 | the decimal text of any integer reads back as that integer |
| Loader.ToBoolSpec | loader.py:51-56 | the result is `None`, 0 or 1; it is 1 exactly when the stripped, lower-cased text is one of "1", "true", "yes", "y", 0 exactly when it is one of "0", "false", "no", "n", "", and `None` otherwise or for a missing value |
| Loader.ToBoolIgnoresCase | loader.py:51-56 | `to_bool` does not depend on letter case |
| Loader.ToBoolReadsRewatch | loader.py:51-56 | "Yes" reads as 1, the empty string as 0, and a missing value as `None` |
| Loader.EnsuredSpec | loader.py:58-69 | an identifier outside the whitelist changes nothing; otherwise the index exists afterwards, an existing one keeps its columns, and a second call changes nothing |
| Loader.EnsureUnique | loader.py:58-69 | the method reports the whitelist error and leaves the indexes `Ensured` describes |
| Loader.WithTables | loader.py:71-101 | every table exists afterwards, and existing ones keep their rows |
| Loader.EnsureSchema | loader.py:71-107 | all three tables are created if missing and keep their rows, and the indexes afterwards are exactly those `SchemaIndexes` gives |
| Loader.SchemaIndexes | loader.py:103-107 | the three unique keys exist afterwards with their columns (`film_name, film_year, added_date`; `film_name, film_year, watched_date`; `logged_date, film_name, film_year`); every other index is kept and no other index is added |
| Loader.ZipsSpec | loader.py:26 | the glob keeps exactly the visible `.zip` names |
| Loader.GreatestSpec | loader.py:26-31 | `sorted(...)[-1]` is an element that no other element exceeds |
| Loader.LatestZipSpec | loader.py:25-31 | the function fails exactly when the directory has no archive, otherwise returns the greatest archive, and the result does not depend on listing order |
| Loader.FindKey | loader.py:133-138 | the duplicate-key lookup finds a row whose unique key clashes with the new one, and finds none only when no row clashes |
| Loader.UpsertFilmSpec | loader.py:133-138 | after an upsert the row's key is stored and every stored key is kept; ids stay ascending; with the unique index and null-safe keys, keys stay unique and an existing key adds no row |
| Loader.NamedSpec | loader.py:125-132 | the rows kept are exactly the parsed rows that have a `Name`, and no more than the CSV has |
| Loader.UpsertAllKeys | loader.py:126-139 | a sequence of upserts keeps every stored key and stores every upserted row's key |
| Loader.UpsertAllShape | loader.py:126-139 | a sequence of upserts keeps ids ascending and, with the index, keeps keys unique |
| Loader.UpsertAllStored | loader.py:133-138 | upserting rows whose keys are all stored adds no row |
| Loader.LoadAllSpec | loader.py:124-191 | loading a CSV keeps every stored key, stores every named row, keeps ids ascending and, with the index, keeps keys unique |
| Loader.ReloadDoesNotDuplicate | loader.py:105-107 | with null-safe keys, loading the same export twice leaves as many rows as loading it once |
| Loader.ReloadDuplicatesYearless | loader.py:105-107 | as written, a row without a year is inserted again by each reload |
| Loader.LoadStep | loader.py:126-139 | the row-by-row loop and the whole-file load agree, for either way of comparing keys, and the counter grows by one exactly for a row with a `Name` |
| Loader.LoadTable | loader.py:124-141 | the loop leaves the table `LoadAll` describes with SQL's comparison of keys (a NULL never collides), and counts the rows with a `Name` |
| Loader.CsvFor | loader.py:124 | the method finds a member named `watchlist.csv` (or `…/watchlist.csv`) exactly when one exists |
| Loader.LoadExport | loader.py:109-200 | the schema is ensured and the three CSVs are loaded in order, with SQL's comparison of keys, and with counters that match |
| Loader.LoadAllComplete | loader.py:133-138 | when every named row has a year and a date, the load as written equals the load with null-safe keys, so a reload then adds no row |
| Enrich.SearchParams | enrich_details.py:94-98 | the query is the title; the year is sent only when truthy, under `year` for films and `first_air_date_year` for shows |
| Enrich.FirstResultId | enrich_details.py:100-101 | the id of the first result, or `None` when there are no results |
| Enrich.TmdbSearch | enrich_details.py:92-101 | the search is in `movie` exactly when the upper-cased type is "MOVIE", and returns the first result's id |
| Enrich.DateYearSpec | enrich_details.py:111-112 | the year is present exactly when the date's first four characters are digits, and is then their value |
| Enrich.DateYearOfDate | enrich_details.py:112 | a date starting with a four-digit year yields that year |
| Enrich.Directors | enrich_details.py:115-119 | there are no more directors than crew members |
| Enrich.DirectorsAppend | enrich_details.py:117-119 | the director filter distributes over concatenation of crew lists |
| Enrich.DirectorsMembers | enrich_details.py:115-119 | a person is listed exactly when some crew entry is a director for the media type |
| Enrich.MovieDirectorsAreTvDirectors | enrich_details.py:117-119 | the TV rule (`"Director" in job`) accepts everyone the film rule (`job == "Director"`) does |
| Enrich.CastOf | enrich_details.py:121-122 | the first ten cast members, in order |
| Enrich.Pluck | enrich_details.py:125-127 | one field per element, in order |
| Enrich.ImageUrl | enrich_details.py:128-129 | a URL exactly when the path is truthy; it is the base followed by the path |
| Enrich.Runtime | enrich_details.py:130 | `runtime` when truthy, else the first episode run time, else `None` |
| Enrich.TmdbBundle | enrich_details.py:103-139 | the year agrees with the release date; a title exists exactly when `title` or `name` does; at most ten cast; poster and backdrop exist exactly when their paths do |
| Enrich.WithoutCounts | enrich_details.py:150 | `replace(c, "")` removes every `c` and nothing else |
| Enrich.BoxOffice | enrich_details.py:141-153 | a figure exactly when there is a key and an IMDb id, the response is "True", and the cleaned text is all digits; the figure is never negative |
| Enrich.BoxOfficeIsInt | enrich_details.py:150-151 | the figure is `int()` of the cleaned text |
| Enrich.Ungroup | enrich_details.py:150 | removing the commas from a comma-grouped number gives its digits back |
| Enrich.CleanUsd | enrich_details.py:150 | cleaning "$1,234,567" gives "1234567" for every amount |
| Enrich.BoxOfficeReadsUsd | enrich_details.py:141-153 | any dollar amount OMDb writes is read back exactly |
| Enrich.BoxOfficeNeedsDigits | enrich_details.py:150-151 | a figure containing a character other than a digit, `$`, `,` or space is read as no figure |
| Enrich.BoxOfficeNotAvailable | enrich_details.py:150-151 | "N/A" is read as no figure |
| Enrich.ObjTypeMedia | enrich_details.py:160-182 | the stored kind is MOVIE exactly when the matched type is missing or is "MOVIE" in any case |
| Enrich.KindRoundTrip | enrich_details.py:160-182 | the kind the mapper writes is the kind the enricher stores |
| Enrich.EnrichmentSpec | enrich_details.py:156-194 | an empty title gives nothing; a result has a truthy TMDb id, the mapper's entry id, the kind from the matched type, a year agreeing with the date, and at most ten cast members |
| Enrich.FindTmdb | enrich_details.py:38-63 | the row holding this TMDb id is found when one exists |
| Enrich.MaxId | enrich_details.py:38-63 | every id is at most the maximum, so a fresh id is new |
| Enrich.UpsertDetailsSpec | enrich_details.py:38-63 | ids and TMDb ids stay unique; a row is added exactly for a new TMDb id; the details are stored; other rows do not change |
| Enrich.UpsertDetailsIdempotent | enrich_details.py:38-63 | enriching the same title twice gives the same table as once |
| Enrich.UpsertedRowIsFound | enrich_details.py:66-72 | after the upsert the id lookup always finds a row |
| Enrich.SetFilmId | enrich_details.py:74-78 | only the mapping row of the key gets the `film_id`; no key is added or removed |
| Enrich.StoreDetails | enrich_details.py:180-204 | the table is upserted, and the mapping row points to a stored row matching the looked-up ids |
| Enrich.EnrichOne | enrich_details.py:156-206 | a skipped title changes nothing; otherwise the details are upserted and the mapping row points to the stored film |

## Left out

- Logging (`logger.py`, `log_to_db`) and the messages written there: they have no effect on the tables modelled.
- `fetch_export.py`, `jw_cli.py` and `justwatch_test.py` are not part of this model.
- Reading the ZIP and its CSVs (`open_csv`, UTF-8 decoding): the CSV rows are inputs.
- `to_float` and the diary's `rating` column: floating point is not modelled, and `rating` is not part of the stored row.
- `vote_average` and `vote_count` are carried as opaque values.
- The `time.sleep` pauses, the environment settings (read as a `Config` value), database connections and their closing.
- The SQL text itself: each statement is modelled by what it does to the table rows.
  - Collation, `VARCHAR` truncation and column types are not modelled.
  - An `ALTER TABLE` that fails on existing duplicates is not modelled.
  - Exact `AUTO_INCREMENT` values are modelled as "one more than the largest id".
- Failures the code catches (the JustWatch search and offers, OMDb) are modelled as the value it falls back to.
  - A missing `id` key in a TMDb result (a `KeyError`) is modelled as `None`.
  - HTTP status codes, timeouts and the API keys and base URLs of `tmdb_get` are not modelled.
- Enrich.TmdbSearch, Enrich.TmdbBundle, Enrich.EnrichOne: `tmdb_get` raises on an HTTP error or a timeout, and neither `enrich_one` nor `main` catches it, so a failed TMDb request ends the run. The model assumes every TMDb request answers.
- `JW_SOURCE_TABLE`, `JW_ID_COL`, `JW_TITLE_COL` and `JW_YEAR_COL` (jw_update.py:63-66) are fixed to their defaults. The table is `watchlist` for the WATCHLIST source and `diary` otherwise (`JwUpdate.SourceTable`), and its `id`, `film_name` and `film_year` columns are the `FilmRow` fields. An override of the table or the columns is not modelled.
- The `film_details` table's unique key is not defined anywhere in the repository; the model assumes it is `tmdb_id`.
- `json.dumps` of the list columns: the lists are stored as values.
- Unicode: `strip`, `lower`, `upper`, `isdigit` and `int()` are modelled on ASCII only, and `int()` does not accept `_` separators.
- Values of unexpected JSON types where the code calls a string method (which would raise) read as `""` or `None`.
- `getattr` access in `g` is modelled as dictionary access.
- `enrich_details.py`'s `main`: the target query with its `ORDER BY`/`LIMIT` and its loop. `Enrich.EnrichOne` models one target.
- `RunMapper`: one `now` per run, where the database takes `NOW()` per statement.
- `UpdateOne`: `last_checked_at` is written only when the row resolves. This follows the code; a skipped row stays eligible.
- `LoadTable`: the whole table is written once, at the end of the loop, so a failure part-way is not modelled. `Loader.LoadStep` relates the loop to the row-by-row upsert.
- `Loader.CsvFor`: `cand[0]` from a set is an arbitrary member, so the contract only says that some matching member is chosen.
- `History.LastRow`: the `LIMIT 1` without a tie-break may return any latest row. `History.ValidPick` states that freedom, and the as-written upsert takes the pick as a parameter.
- History.UpsertOfferHistory, JwUpdate.ApplyOffer: the SELECT is modelled as returning the most recent insert among tied rows. The database may return another tied row; that case is the first finding below, and the run-level lemmas do not cover it.
- A per-row exception in `update_one` aborts the run in the source; the model has no exceptions there.

## Findings

| source | as written | input that shows it | evidently intended | confidence | as-written member | corrected member |
|---|---|---|---|---|---|---|
| jw_update.py:223-230 | the open interval is closed only when the row the `ORDER BY valid_from DESC LIMIT 1` query returns is itself open | one offer list holding provider 8 twice (FLATRATE, then ADS) leaves two rows of that provider with the same `valid_from`, the FLATRATE one closed and the ADS one open; on the next run an ADS offer may get the closed FLATRATE row back from the SELECT, so a second open ADS interval is inserted beside the first | close every open interval of the key before inserting, so that at most one stays open | not executed | History.AsWrittenLeavesTwoOpen | History.UpsertKeepsWellFormed, History.AsWrittenOnLastRow |
| loader.py:105-107, loader.py:133-138 | the unique keys include `film_year` and the date columns, which are NULL for an empty CSV field; a NULL never collides in a MySQL unique key | a watchlist row with a `Name` and an empty `Year`, loaded twice: the second load inserts a second row | a reload updates the same row instead of inserting a duplicate | not executed | Loader.ReloadDuplicatesYearless | Loader.ReloadDoesNotDuplicate, Loader.LoadAllComplete |
