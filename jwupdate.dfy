/** The JustWatch mapper of jw_update.py: which rows of the source table are
    (re)mapped, how a search answer becomes a `jw_title_map` row, and how the
    offers of a watchlist title are folded into the offer history. */
module JwUpdate {
  import opened Text
  import opened Records
  import opened Store
  import opened Matching
  import opened Offers
  import opened History

  const SecondsPerDay := 86400

  /** The settings jw_update.py reads from the environment: `JW_SOURCE`,
      `JW_COUNTRY`, `JW_STALE_DAYS`, `JW_BATCH_SIZE`, `JW_UPDATE_OFFERS`. */
  datatype Config = Config(source: string, country: string, staleDays: int, batchSize: nat, updateOffers: bool)

  /** The table `get_source_cfg` reads for a source. */
  function SourceTable(source: string): Table {
    if source == "WATCHLIST" then Watchlist else Diary
  }

  /** The WHERE clause of `sql_select_candidates`: the row has no mapping
      for this source yet, or its mapping was last checked more than
      `staleDays` days before `now`. */
  predicate Eligible(titleMap: map<MapKey, MapRow>, source: string, r: FilmRow, now: int, staleDays: int) {
    var key := MapKey(source, r.id);
    key !in titleMap || titleMap[key].lastCheckedAt < now - staleDays * SecondsPerDay
  }

  function EligibleRows(rows: seq<FilmRow>, titleMap: map<MapKey, MapRow>, source: string, now: int, staleDays: int): seq<FilmRow>
  {
    if rows == [] then []
    else
      var last := rows[|rows| - 1];
      EligibleRows(rows[..|rows| - 1], titleMap, source, now, staleDays)
        + (if Eligible(titleMap, source, last, now, staleDays) then [last] else [])
  }

  predicate IdsAscending(rows: seq<FilmRow>) {
    forall i, j :: 0 <= i < j < |rows| ==> rows[i].id < rows[j].id
  }

  /** The filter keeps exactly the eligible rows, in table order. */
  lemma {:induction false} EligibleRowsSpec(rows: seq<FilmRow>, titleMap: map<MapKey, MapRow>, source: string, now: int, staleDays: int)
    ensures var e := EligibleRows(rows, titleMap, source, now, staleDays);
            (forall r :: r in e <==> r in rows && Eligible(titleMap, source, r, now, staleDays)) &&
            (IdsAscending(rows) ==> IdsAscending(e))
  {
    if rows != [] {
      var init, last := rows[..|rows| - 1], rows[|rows| - 1];
      assert rows == init + [last];
      EligibleRowsSpec(init, titleMap, source, now, staleDays);
      var e0 := EligibleRows(init, titleMap, source, now, staleDays);
      var tail := if Eligible(titleMap, source, last, now, staleDays) then [last] else [];
      assert EligibleRows(rows, titleMap, source, now, staleDays) == e0 + tail;
      forall r
        ensures r in e0 + tail <==> r in rows && Eligible(titleMap, source, r, now, staleDays)
      {
        assert r in rows <==> r in init || r == last;
      }
      if IdsAscending(rows) {
        assert IdsAscending(init);
        forall i | 0 <= i < |e0| ensures e0[i].id < last.id {
          assert e0[i] in init;
        }
        AscendingAppend(e0, tail);
      }
    }
  }

  lemma AscendingAppend(a: seq<FilmRow>, b: seq<FilmRow>)
    requires IdsAscending(a) && IdsAscending(b)
    requires forall i, j :: 0 <= i < |a| && 0 <= j < |b| ==> a[i].id < b[j].id
    ensures IdsAscending(a + b)
  {
  }

  /** Ids never decrease along `rows`. */
  predicate IdsSorted(rows: seq<FilmRow>) {
    forall i, j :: 0 <= i < j < |rows| ==> rows[i].id <= rows[j].id
  }

  /** `x` placed before the first row of `rows` whose id is not smaller. */
  function InsertById(x: FilmRow, rows: seq<FilmRow>): seq<FilmRow> {
    if rows == [] then [x]
    else if x.id <= rows[0].id then [x] + rows
    else [rows[0]] + InsertById(x, rows[1..])
  }

  /** `ORDER BY id`, as an insertion sort. */
  function SortById(rows: seq<FilmRow>): seq<FilmRow> {
    if rows == [] then [] else InsertById(rows[0], SortById(rows[1..]))
  }

  lemma {:induction false} InsertByIdSpec(x: FilmRow, rows: seq<FilmRow>)
    requires IdsSorted(rows)
    ensures multiset(InsertById(x, rows)) == multiset(rows) + multiset{x}
    ensures IdsSorted(InsertById(x, rows))
  {
    InsertByIdPerm(x, rows);
    if rows != [] && x.id > rows[0].id {
      var rest := rows[1..];
      InsertByIdSpec(x, rest);
      InsertByIdBound(x, rest, rows[0].id);
      SortedCons(rows[0], InsertById(x, rest));
    } else if rows != [] {
      SortedCons(x, rows);
    }
  }

  lemma {:induction false} InsertByIdPerm(x: FilmRow, rows: seq<FilmRow>)
    ensures multiset(InsertById(x, rows)) == multiset(rows) + multiset{x}
  {
    if rows != [] && x.id > rows[0].id {
      assert rows == [rows[0]] + rows[1..];
      InsertByIdPerm(x, rows[1..]);
    }
  }

  lemma SortedCons(h: FilmRow, t: seq<FilmRow>)
    requires IdsSorted(t) && forall i :: 0 <= i < |t| ==> h.id <= t[i].id
    ensures IdsSorted([h] + t)
  {
    var r := [h] + t;
    forall i, j | 0 <= i < j < |r| ensures r[i].id <= r[j].id {
      assert r[j] == t[j - 1];
      if i > 0 {
        assert r[i] == t[i - 1];
      }
    }
  }

  /** Inserting keeps a lower bound every id already respects. */
  lemma {:induction false} InsertByIdBound(x: FilmRow, rows: seq<FilmRow>, b: int)
    requires b <= x.id && forall i :: 0 <= i < |rows| ==> b <= rows[i].id
    ensures forall i :: 0 <= i < |InsertById(x, rows)| ==> b <= InsertById(x, rows)[i].id
  {
    if rows != [] && x.id > rows[0].id {
      InsertByIdBound(x, rows[1..], b);
    }
  }

  /** The sort is a permutation whose ids never decrease. */
  lemma {:induction false} SortByIdSpec(rows: seq<FilmRow>)
    ensures multiset(SortById(rows)) == multiset(rows)
    ensures IdsSorted(SortById(rows))
  {
    if rows != [] {
      assert rows == [rows[0]] + rows[1..];
      SortByIdSpec(rows[1..]);
      InsertByIdSpec(rows[0], SortById(rows[1..]));
    }
  }

  /** Rows already in ascending id order are left as they are. */
  lemma {:induction false} SortByIdAscending(rows: seq<FilmRow>)
    requires IdsAscending(rows)
    ensures SortById(rows) == rows
  {
    if rows != [] {
      assert IdsAscending(rows[1..]);
      SortByIdAscending(rows[1..]);
      assert rows == [rows[0]] + rows[1..];
    }
  }

  /** `sql_select_candidates(limit)` on the in-memory tables: the eligible
      rows, ordered by id, cut after `limit`. */
  function SelectCandidates(rows: seq<FilmRow>, titleMap: map<MapKey, MapRow>, source: string,
                            now: int, staleDays: int, limit: nat): seq<FilmRow>
  {
    var e := SortById(EligibleRows(rows, titleMap, source, now, staleDays));
    e[..Min(limit, |e|)]
  }

  /** At most `limit` rows, each of them eligible, in id order; an eligible
      row left out means the batch is full of rows whose ids are no larger;
      and on a table stored in ascending id order the batch is its first
      eligible rows. */
  lemma SelectCandidatesSpec(rows: seq<FilmRow>, titleMap: map<MapKey, MapRow>, source: string,
                             now: int, staleDays: int, limit: nat)
    ensures var c := SelectCandidates(rows, titleMap, source, now, staleDays, limit);
            |c| <= limit &&
            (forall r :: r in c ==> r in rows && Eligible(titleMap, source, r, now, staleDays)) &&
            IdsSorted(c) &&
            (forall r :: r in rows && Eligible(titleMap, source, r, now, staleDays) && r !in c ==>
                           |c| == limit && forall x :: x in c ==> x.id <= r.id) &&
            (IdsAscending(rows) ==> IdsAscending(c))
  {
    EligibleRowsSpec(rows, titleMap, source, now, staleDays);
    var e := EligibleRows(rows, titleMap, source, now, staleDays);
    SortByIdSpec(e);
    SortedCut(e, SortById(e), limit);
    if IdsAscending(rows) {
      SortByIdAscending(e);
    }
  }

  /** The first `limit` rows of a sorting of `e`. */
  lemma SortedCut(e: seq<FilmRow>, sorted: seq<FilmRow>, limit: nat)
    requires multiset(sorted) == multiset(e) && IdsSorted(sorted)
    ensures var c := sorted[..Min(limit, |sorted|)];
            |c| <= limit && IdsSorted(c) &&
            (forall r :: r in c ==> r in e) &&
            (forall r :: r in e && r !in c ==> |c| == limit && forall x :: x in c ==> x.id <= r.id)
  {
    var c := sorted[..Min(limit, |sorted|)];
    forall r | r in c ensures r in e {
      assert r in multiset(sorted);
    }
    forall r | r in e && r !in c
      ensures |c| == limit && forall x :: x in c ==> x.id <= r.id
    {
      assert r in multiset(e);
      var p :| 0 <= p < |sorted| && sorted[p] == r;
      assert p >= |c|;
      forall x | x in c ensures x.id <= r.id {
        var q :| 0 <= q < |c| && c[q] == x;
        assert sorted[q] == x;
      }
    }
  }

  /** What `update_one` writes to `jw_title_map` for a matched row. */
  datatype Resolution = Resolution(entryId: Value, via: Via, confidence: int, title: Value, year: Option<int>, kind: MediaType)

  const EntryIdFields: seq<string> := ["id", "jw_entity_id", "jwId", "jw_id"]
  const TitleFields: seq<string> := ["title", "original_title", "name"]

  /** The source row's year as the value `row.get("year")` reads. */
  function YearValue(y: Option<int>): Value {
    if y.Some? then Int(y.value) else Null
  }

  /** Steps 1 and 2 of `update_one`: search, pick, read the entry id, title
      and year. `search` is what the catalogue search returned (`None` when
      it raised). `None` is a skipped row: empty title, failed or empty
      search, no candidate picked, or a candidate without an entry id. */
  function Resolve(row: FilmRow, search: Option<seq<Record>>): Option<Resolution> {
    var title := Trim(row.name);
    if title == [] || search.None? || search.value == [] then None
    else
      var m := PickBestMatch(search.value, title, YearValue(row.year));
      if m.NoMatch? || !Truthy(Obj(m.best)) then None
      else
        var eid := FirstPresent(m.best, EntryIdFields);
        if !Truthy(eid) then None
        else Some(Resolution(eid, m.via, m.confidence, Or(FirstPresent(m.best, TitleFields), Str(title)),
                             CandidateYear(m.best), m.matchedType))
  }

  /** A resolved row carries a truthy entry id taken from the first best
      candidate, a non-empty title, and a confidence of 0, 15, 25, 50 or
      100, `name_year` exactly for 25 and 100; rows with an empty title or
      without search results are never resolved. */
  lemma ResolveSpec(row: FilmRow, search: Option<seq<Record>>)
    ensures Trim(row.name) == [] || search.None? || search == Some([]) ==> Resolve(row, search).None?
    ensures var res := Resolve(row, search);
            res.Some? ==>
              Truthy(res.value.entryId) && Truthy(res.value.title) &&
              res.value.confidence in {0, 15, 25, 50, 100} &&
              (res.value.via == NameYear <==> res.value.confidence in {25, 100}) &&
              exists k :: FirstBest(Scores(search.value, Norm(Trim(row.name)), TargetYear(YearValue(row.year))), k) &&
                          res.value.entryId == FirstPresent(search.value[k], EntryIdFields)
  {
    var res := Resolve(row, search);
    if res.Some? {
      var title := Trim(row.name);
      var m := PickBestMatch(search.value, title, YearValue(row.year));
      assert Truthy(Str(title));
      PickBestMatchWinner(search.value, title, YearValue(row.year));
      var k :| FirstBest(Scores(search.value, Norm(title), TargetYear(YearValue(row.year))), k)
               && m == MatchOf(search.value[k], Score(search.value[k], Norm(title), TargetYear(YearValue(row.year))));
      assert m.best == search.value[k];
    }
  }

  /** `SQL_UPSERT_MAP`: insert, or on the key `(source, source_row_id)`
      overwrite every column but `film_id`. */
  function MapUpserted(m: map<MapKey, MapRow>, key: MapKey, res: Resolution, now: int): map<MapKey, MapRow> {
    m[key := MapRow(res.entryId, res.via, res.confidence, res.title, res.year, res.kind, now,
                    if key in m then m[key].filmId else None)]
  }

  /** The upsert adds the key if missing and never another one, leaves other
      keys alone, keeps the enrichment's `film_id`, stamps `now`, and a
      second identical upsert changes nothing. */
  lemma MapUpsertedSpec(m: map<MapKey, MapRow>, key: MapKey, res: Resolution, now: int)
    ensures var r := MapUpserted(m, key, res, now);
            r.Keys == m.Keys + {key} &&
            (forall k :: k in m && k != key ==> r[k] == m[k]) &&
            r[key].entryId == res.entryId && r[key].confidence == res.confidence &&
            r[key].lastCheckedAt == now &&
            (key in m ==> r[key].filmId == m[key].filmId) &&
            MapUpserted(r, key, res, now) == r
  {
  }

  /** The provider name `update_one` passes on: the offer's own, else the
      provider id as text. */
  function OfferName(off: Offer): Value {
    Or(off.providerName, Str(PyStr(off.providerId)))
  }

  /** One pass of the offer loop of `update_one`: offers without a provider
      id are skipped, the others go through the history upsert as written,
      the SELECT returning the key's most recent row. */
  function ApplyOffer(rows: seq<HistoryRow>, wid: int, eid: Value, off: Offer, now: int): seq<HistoryRow> {
    if off.providerId == Null then rows
    else UpsertAsWritten(rows, wid, eid, off.providerId, OfferName(off), off.presentationType, off.url, now,
                LastRow(rows, wid, off.providerId))
  }

  /** The offer loop of `update_one`, in list order. */
  function ApplyOffers(rows: seq<HistoryRow>, wid: int, eid: Value, offers: seq<Offer>, now: int): seq<HistoryRow>
  {
    if offers == [] then rows
    else ApplyOffer(ApplyOffers(rows, wid, eid, offers[..|offers| - 1], now), wid, eid, offers[|offers| - 1], now)
  }

  /** The offer loop keeps each key down to one open interval, and that
      interval the key's most recent row. */
  lemma {:induction false} ApplyOffersKeepsWellFormed(rows: seq<HistoryRow>, wid: int, eid: Value, offers: seq<Offer>, now: int)
    requires WellFormed(rows) && NotAfter(rows, now) && OpenIsLast(rows)
    ensures var r := ApplyOffers(rows, wid, eid, offers, now);
            WellFormed(r) && NotAfter(r, now) && OpenIsLast(r)
  {
    if offers != [] {
      var before := ApplyOffers(rows, wid, eid, offers[..|offers| - 1], now);
      ApplyOffersKeepsWellFormed(rows, wid, eid, offers[..|offers| - 1], now);
      var off := offers[|offers| - 1];
      if off.providerId != Null {
        AsWrittenOnLastRow(before, wid, eid, off.providerId, OfferName(off), off.presentationType, off.url, now);
        LastRowIsValidPick(before, wid, off.providerId);
        UpsertKeepsWellFormed(before, wid, eid, off.providerId, OfferName(off), off.presentationType, off.url, now,
                              LastRow(before, wid, off.providerId));
      }
    }
  }

  predicate Listed(offers: seq<Offer>, pid: Value) {
    exists j :: 0 <= j < |offers| && offers[j].providerId == pid
  }

  /** The offer loop only appends and closes: a closed interval never
      changes, and the rows of other watchlist titles and of providers the
      offers no longer list stay as they were (they are never closed). */
  lemma {:induction false} ApplyOffersFrame(rows: seq<HistoryRow>, wid: int, eid: Value, offers: seq<Offer>, now: int)
    ensures var r := ApplyOffers(rows, wid, eid, offers, now);
            |rows| <= |r| &&
            (forall i :: 0 <= i < |rows| && !IsOpen(rows[i]) ==> r[i] == rows[i]) &&
            (forall i :: 0 <= i < |rows| && (rows[i].watchlistId != wid || !Listed(offers, rows[i].providerId)) ==> r[i] == rows[i])
  {
    if offers != [] {
      var init, off := offers[..|offers| - 1], offers[|offers| - 1];
      var before := ApplyOffers(rows, wid, eid, init, now);
      ApplyOffersFrame(rows, wid, eid, init, now);
      if off.providerId != Null {
        AsWrittenFrame(before, wid, eid, off.providerId, OfferName(off), off.presentationType, off.url, now,
                       LastRow(before, wid, off.providerId));
      }
      assert forall j :: 0 <= j < |init| ==> init[j] == offers[j];
    }
  }

  /** The offer loop of `update_one` on the table itself. */
  method RecordOffers(db: Database, wid: int, eid: Value, offers: seq<Offer>, now: int)
    modifies db`offersHistory
    ensures db.offersHistory == ApplyOffers(old(db.offersHistory), wid, eid, offers, now)
  {
    var i := 0;
    while i < |offers|
      invariant 0 <= i <= |offers|
      invariant db.offersHistory == ApplyOffers(old(db.offersHistory), wid, eid, offers[..i], now)
    {
      var off := offers[i];
      assert offers[..i + 1][..i] == offers[..i];
      if off.providerId != Null {
        UpsertOfferHistory(db, wid, eid, off.providerId, OfferName(off), off.presentationType, off.url, now);
      }
      i := i + 1;
    }
    assert offers[..i] == offers;
  }

  /** The two tables the mapper writes. */
  datatype Tables = Tables(titleMap: map<MapKey, MapRow>, history: seq<HistoryRow>)

  /** Steps 3 and 4 of `update_one` for a row resolved (or not) to `res`:
      `offersFor` is what the offer lookup returns for an entry id. */
  function Commit(t: Tables, cfg: Config, rowId: int, res: Option<Resolution>,
                  offersFor: Value -> Option<RawOffers>, now: int): Tables
  {
    if res.None? then t
    else
      Tables(MapUpserted(t.titleMap, MapKey(cfg.source, rowId), res.value, now),
             if cfg.updateOffers && cfg.source == "WATCHLIST"
             then ApplyOffers(t.history, rowId, res.value.entryId, FetchOffers(offersFor(res.value.entryId), cfg.country), now)
             else t.history)
  }

  /** `update_one` on the two tables: `search` is what the catalogue search
      returned for the row's title (`None` when it raised). */
  function Step(t: Tables, cfg: Config, row: FilmRow, search: Option<seq<Record>>,
                offersFor: Value -> Option<RawOffers>, now: int): Tables
  {
    Commit(t, cfg, row.id, Resolve(row, search), offersFor, now)
  }

  /** Steps 3 and 4 of `update_one` on the database. */
  method RecordResolution(db: Database, cfg: Config, rowId: int, res: Option<Resolution>,
                          offersFor: Value -> Option<RawOffers>, now: int)
    modifies db`titleMap, db`offersHistory
    ensures Tables(db.titleMap, db.offersHistory)
         == Commit(Tables(old(db.titleMap), old(db.offersHistory)), cfg, rowId, res, offersFor, now)
  {
    if res.None? {
      return;
    }
    db.titleMap := MapUpserted(db.titleMap, MapKey(cfg.source, rowId), res.value, now);
    if cfg.updateOffers && cfg.source == "WATCHLIST" {
      RecordOffers(db, rowId, res.value.entryId, FetchOffers(offersFor(res.value.entryId), cfg.country), now);
    }
  }

  /** `update_one(conn, row, source)`: the map row is written only for a
      resolved row, the history only for WATCHLIST with offers on. */
  method UpdateOne(db: Database, cfg: Config, row: FilmRow, search: Option<seq<Record>>,
                   offersFor: Value -> Option<RawOffers>, now: int)
    modifies db`titleMap, db`offersHistory
    ensures Tables(db.titleMap, db.offersHistory)
         == Step(Tables(old(db.titleMap), old(db.offersHistory)), cfg, row, search, offersFor, now)
  {
    var res := Resolve(row, search);
    RecordResolution(db, cfg, row.id, res, offersFor, now);
  }

  /** The loop of `main` over the selected rows, `outcome` giving what
      steps 1 and 2 of `update_one` resolve each row to. */
  function RunRows(t: Tables, cfg: Config, rows: seq<FilmRow>, outcome: FilmRow -> Option<Resolution>,
                   offersFor: Value -> Option<RawOffers>, now: int): Tables
  {
    if rows == [] then t
    else
      var last := rows[|rows| - 1];
      Commit(RunRows(t, cfg, rows[..|rows| - 1], outcome, offersFor, now), cfg, last.id, outcome(last), offersFor, now)
  }

  predicate IsCandidateKey(cfg: Config, rows: seq<FilmRow>, k: MapKey) {
    exists i :: 0 <= i < |rows| && k == MapKey(cfg.source, rows[i].id)
  }

  /** A run keeps the offer history well formed, each open interval the
      most recent row of its key. */
  lemma {:induction false} RunRowsKeepsWellFormed(t: Tables, cfg: Config, rows: seq<FilmRow>, outcome: FilmRow -> Option<Resolution>,
                                                  offersFor: Value -> Option<RawOffers>, now: int)
    requires WellFormed(t.history) && NotAfter(t.history, now) && OpenIsLast(t.history)
    ensures var r := RunRows(t, cfg, rows, outcome, offersFor, now);
            WellFormed(r.history) && NotAfter(r.history, now) && OpenIsLast(r.history)
  {
    if rows != [] {
      var init, last := rows[..|rows| - 1], rows[|rows| - 1];
      var mid := RunRows(t, cfg, init, outcome, offersFor, now);
      RunRowsKeepsWellFormed(t, cfg, init, outcome, offersFor, now);
      var res := outcome(last);
      if res.Some? && cfg.updateOffers && cfg.source == "WATCHLIST" {
        ApplyOffersKeepsWellFormed(mid.history, last.id, res.value.entryId,
                                   FetchOffers(offersFor(res.value.entryId), cfg.country), now);
      }
    }
  }

  /** One row's commit keeps every mapping, touches only the row's own
      key, and stamps that key with `now` when the row was resolved. */
  lemma CommitMapping(t: Tables, cfg: Config, rowId: int, res: Option<Resolution>,
                      offersFor: Value -> Option<RawOffers>, now: int)
    ensures var r := Commit(t, cfg, rowId, res, offersFor, now);
            (forall k :: k in t.titleMap ==> k in r.titleMap) &&
            (forall k :: k in r.titleMap && k != MapKey(cfg.source, rowId) ==> k in t.titleMap && r.titleMap[k] == t.titleMap[k]) &&
            (forall k :: k in t.titleMap && t.titleMap[k].lastCheckedAt == now ==> r.titleMap[k].lastCheckedAt == now) &&
            (res.Some? ==> MapKey(cfg.source, rowId) in r.titleMap && r.titleMap[MapKey(cfg.source, rowId)].lastCheckedAt == now)
  {
    if res.Some? {
      MapUpsertedSpec(t.titleMap, MapKey(cfg.source, rowId), res.value, now);
    }
  }

  /** A run never drops a mapping, touches only the keys of the rows it
      processes, and keeps a `now` stamp. */
  lemma {:induction false} RunRowsMapping(t: Tables, cfg: Config, rows: seq<FilmRow>, outcome: FilmRow -> Option<Resolution>,
                                          offersFor: Value -> Option<RawOffers>, now: int)
    ensures var r := RunRows(t, cfg, rows, outcome, offersFor, now);
            (forall k :: k in t.titleMap ==> k in r.titleMap) &&
            (forall k :: k in r.titleMap && !IsCandidateKey(cfg, rows, k) ==> k in t.titleMap && r.titleMap[k] == t.titleMap[k]) &&
            (forall k :: k in t.titleMap && t.titleMap[k].lastCheckedAt == now ==> r.titleMap[k].lastCheckedAt == now)
  {
    if rows != [] {
      var init, last := rows[..|rows| - 1], rows[|rows| - 1];
      var mid := RunRows(t, cfg, init, outcome, offersFor, now);
      RunRowsMapping(t, cfg, init, outcome, offersFor, now);
      CommitMapping(mid, cfg, last.id, outcome(last), offersFor, now);
      forall k | !IsCandidateKey(cfg, rows, k)
        ensures !IsCandidateKey(cfg, init, k) && k != MapKey(cfg.source, last.id)
      {
        assert forall i :: 0 <= i < |init| ==> init[i] == rows[i];
      }
    }
  }

  /** Every row a run resolved ends up mapped with `last_checked_at = now`,
      whatever later rows of the run do. */
  lemma {:induction false} RunRowsStampsResolved(t: Tables, cfg: Config, rows: seq<FilmRow>, outcome: FilmRow -> Option<Resolution>,
                                                 offersFor: Value -> Option<RawOffers>, now: int, i: int)
    requires 0 <= i < |rows| && outcome(rows[i]).Some?
    ensures var r := RunRows(t, cfg, rows, outcome, offersFor, now);
            MapKey(cfg.source, rows[i].id) in r.titleMap && r.titleMap[MapKey(cfg.source, rows[i].id)].lastCheckedAt == now
  {
    var init, last := rows[..|rows| - 1], rows[|rows| - 1];
    var mid := RunRows(t, cfg, init, outcome, offersFor, now);
    CommitMapping(mid, cfg, last.id, outcome(last), offersFor, now);
    if i < |init| {
      assert init[i] == rows[i];
      RunRowsStampsResolved(t, cfg, init, outcome, offersFor, now, i);
      RunRowsMapping(t, cfg, init, outcome, offersFor, now);
    }
  }

  /** A row the run resolved is not selected again until its mapping is
      older than the staleness window. */
  lemma RerunSkipsFresh(titleMap: map<MapKey, MapRow>, source: string, r: FilmRow, now: int, later: int, staleDays: int)
    requires MapKey(source, r.id) in titleMap && titleMap[MapKey(source, r.id)].lastCheckedAt == now
    ensures Eligible(titleMap, source, r, later, staleDays) <==> now < later - staleDays * SecondsPerDay
  {
  }

  /** `main()`: select the candidates of the configured source, then run
      `update_one` on each of them in order, searching each row's title. */
  method RunMapper(db: Database, cfg: Config, searchFor: string -> Option<seq<Record>>,
                   offersFor: Value -> Option<RawOffers>, now: int)
    modifies db`titleMap, db`offersHistory
    ensures Tables(db.titleMap, db.offersHistory)
         == RunRows(Tables(old(db.titleMap), old(db.offersHistory)), cfg,
                    SelectCandidates(old(db.Rows(SourceTable(cfg.source))), old(db.titleMap), cfg.source,
                                     now, cfg.staleDays, cfg.batchSize),
                    (row: FilmRow) => Resolve(row, searchFor(Trim(row.name))), offersFor, now)
  {
    var rows := SelectCandidates(db.Rows(SourceTable(cfg.source)), db.titleMap, cfg.source,
                                 now, cfg.staleDays, cfg.batchSize);
    ghost var outcome := (row: FilmRow) => Resolve(row, searchFor(Trim(row.name)));
    var i := 0;
    while i < |rows|
      invariant 0 <= i <= |rows|
      invariant Tables(db.titleMap, db.offersHistory)
             == RunRows(Tables(old(db.titleMap), old(db.offersHistory)), cfg, rows[..i], outcome, offersFor, now)
    {
      assert rows[..i + 1][..i] == rows[..i];
      UpdateOne(db, cfg, rows[i], searchFor(Trim(rows[i].name)), offersFor, now);
      i := i + 1;
    }
    assert rows[..i] == rows;
  }
}
