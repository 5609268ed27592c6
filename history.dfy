/** The watchlist offer history of jw_update.py: table
    `jw_offers_history`, one row per (watchlist id, provider id) interval
    `[valid_from, valid_to)`, an open row having no `valid_to`. */
module History {
  import opened Text
  import opened Records
  import opened Store

  predicate HasKey(r: HistoryRow, wid: int, pid: Value) {
    r.watchlistId == wid && r.providerId == pid
  }

  predicate SameKey(a: HistoryRow, b: HistoryRow) {
    a.watchlistId == b.watchlistId && a.providerId == b.providerId
  }

  predicate IsOpen(r: HistoryRow) { r.validTo.None? }

  /** The history invariant: each (watchlist id, provider id) has at most
      one open interval. */
  predicate AtMostOneOpen(rows: seq<HistoryRow>) {
    forall i, j :: 0 <= i < j < |rows| && IsOpen(rows[i]) && IsOpen(rows[j]) ==> !SameKey(rows[i], rows[j])
  }

  /** Rows are stored in the order of their `valid_from`, and no interval
      ends before it starts. */
  predicate Chronological(rows: seq<HistoryRow>) {
    (forall i, j :: 0 <= i < j < |rows| ==> rows[i].validFrom <= rows[j].validFrom) &&
    (forall i :: 0 <= i < |rows| && rows[i].validTo.Some? ==> rows[i].validFrom <= rows[i].validTo.value)
  }

  /** No row starts after `now`: the clock the database reads with `NOW()`
      has not gone backwards. */
  predicate NotAfter(rows: seq<HistoryRow>, now: int) {
    forall i :: 0 <= i < |rows| ==> rows[i].validFrom <= now
  }

  predicate WellFormed(rows: seq<HistoryRow>) {
    AtMostOneOpen(rows) && Chronological(rows)
  }

  /** Row `i` is one that `SQL_SELECT_LAST_OFFER` (`ORDER BY valid_from
      DESC LIMIT 1`) may return: a row of the key with the largest
      `valid_from`. Among equal `valid_from` values the database may return
      any of them. */
  predicate IsLatest(rows: seq<HistoryRow>, wid: int, pid: Value, i: int) {
    0 <= i < |rows| && HasKey(rows[i], wid, pid) &&
    forall j :: 0 <= j < |rows| && HasKey(rows[j], wid, pid) ==> rows[j].validFrom <= rows[i].validFrom
  }

  /** An answer the SELECT may give: nothing exactly when the key has no
      row, otherwise a latest row of the key. */
  predicate ValidPick(rows: seq<HistoryRow>, wid: int, pid: Value, pick: Option<nat>) {
    (pick.None? <==> forall i :: 0 <= i < |rows| ==> !HasKey(rows[i], wid, pid)) &&
    (pick.Some? ==> IsLatest(rows, wid, pid, pick.value))
  }

  /** The position of the key's most recently inserted row. */
  function LastRow(rows: seq<HistoryRow>, wid: int, pid: Value): (r: Option<nat>)
    ensures r.None? <==> forall i :: 0 <= i < |rows| ==> !HasKey(rows[i], wid, pid)
    ensures r.Some? ==> r.value < |rows| && HasKey(rows[r.value], wid, pid)
    ensures r.Some? ==> forall j :: r.value < j < |rows| ==> !HasKey(rows[j], wid, pid)
  {
    if rows == [] then None
    else if HasKey(rows[|rows| - 1], wid, pid) then Some(|rows| - 1)
    else LastRow(rows[..|rows| - 1], wid, pid)
  }

  /** In a chronological table the most recently inserted row of a key is
      an answer the SELECT may give. */
  lemma LastRowIsValidPick(rows: seq<HistoryRow>, wid: int, pid: Value)
    requires Chronological(rows)
    ensures ValidPick(rows, wid, pid, LastRow(rows, wid, pid))
  {
  }

  /** `(a or "")`: a missing or empty value compares as the empty string. */
  function Blank(v: Value): Value { Or(v, Str("")) }

  /** `changed(a, b)` */
  predicate Changed(a: Value, b: Value) { Blank(a) != Blank(b) }

  /** Whether an offer differs from a stored row in presentation type, link
      or provider name. */
  predicate Differs(last: HistoryRow, name: Value, pres: Value, url: Value) {
    Changed(last.presentationType, pres) || Changed(last.url, url) || Changed(last.providerName, name)
  }

  /** `provider_name or str(provider_id or "")` */
  function StoredName(name: Value, pid: Value): Value {
    Or(name, Str(PyStr(Or(pid, Str("")))))
  }

  /** The row `SQL_INSERT_OFFER` adds: open, starting `now`. */
  function NewRow(wid: int, eid: Value, pid: Value, name: Value, pres: Value, url: Value, now: int): HistoryRow {
    HistoryRow(wid, eid, pid, StoredName(name, pid), pres, url, now, None)
  }

  /** One row after `SQL_CLOSE_OFFER`. */
  function Closed(r: HistoryRow, wid: int, pid: Value, now: int): HistoryRow {
    if HasKey(r, wid, pid) && IsOpen(r) then r.(validTo := Some(now)) else r
  }

  /** The table after `SQL_CLOSE_OFFER`. */
  function CloseOpen(rows: seq<HistoryRow>, wid: int, pid: Value, now: int): seq<HistoryRow> {
    seq(|rows|, i requires 0 <= i < |rows| => Closed(rows[i], wid, pid, now))
  }

  /** The SELECT's answer names a row of the table. */
  predicate InRange(rows: seq<HistoryRow>, pick: Option<nat>) {
    pick.None? || pick.value < |rows|
  }

  /** `upsert_offer_history_watchlist` as written: the open interval is
      closed only when the row the SELECT returned is itself open. */
  function UpsertAsWritten(rows: seq<HistoryRow>, wid: int, eid: Value, pid: Value, name: Value,
                           pres: Value, url: Value, now: int, pick: Option<nat>): seq<HistoryRow>
    requires InRange(rows, pick)
  {
    match pick
    case None => rows + [NewRow(wid, eid, pid, name, pres, url, now)]
    case Some(k) =>
      if !Differs(rows[k], name, pres, url) then rows
      else (if IsOpen(rows[k]) then CloseOpen(rows, wid, pid, now) else rows) + [NewRow(wid, eid, pid, name, pres, url, now)]
  }

  /** `upsert_offer_history_watchlist` with the close statement issued on
      every change; `SQL_CLOSE_OFFER` only touches open rows, so this is a
      no-op whenever the key has none. */
  function Upsert(rows: seq<HistoryRow>, wid: int, eid: Value, pid: Value, name: Value,
                  pres: Value, url: Value, now: int, pick: Option<nat>): seq<HistoryRow>
    requires InRange(rows, pick)
  {
    match pick
    case None => rows + [NewRow(wid, eid, pid, name, pres, url, now)]
    case Some(k) =>
      if !Differs(rows[k], name, pres, url) then rows
      else CloseOpen(rows, wid, pid, now) + [NewRow(wid, eid, pid, name, pres, url, now)]
  }

  /** Whether an upsert records something: the key had no row, or the
      offer differs from the latest one. */
  predicate RecordsChange(rows: seq<HistoryRow>, name: Value, pres: Value, url: Value, pick: Option<nat>)
  {
    pick.None? || (pick.value < |rows| && Differs(rows[pick.value], name, pres, url))
  }

  /** Appending an open row that starts `now`, when no other open row has
      its key, keeps the table well formed. */
  lemma AppendOpenKeepsWellFormed(rows: seq<HistoryRow>, nr: HistoryRow, now: int)
    requires WellFormed(rows) && NotAfter(rows, now)
    requires IsOpen(nr) && nr.validFrom == now
    requires forall i :: 0 <= i < |rows| && IsOpen(rows[i]) ==> !SameKey(rows[i], nr)
    ensures WellFormed(rows + [nr]) && NotAfter(rows + [nr], now)
  {
    var r := rows + [nr];
    forall i, j | 0 <= i < j < |r| && IsOpen(r[i]) && IsOpen(r[j])
      ensures !SameKey(r[i], r[j])
    {
      if j == |rows| {
        assert r[i] == rows[i] && r[j] == nr;
      } else {
        assert r[i] == rows[i] && r[j] == rows[j];
      }
    }
  }

  /** Closing the key's open rows at `now` keeps the table well formed and
      leaves the key with no open row. */
  lemma CloseOpenKeepsWellFormed(rows: seq<HistoryRow>, wid: int, pid: Value, now: int)
    requires WellFormed(rows) && NotAfter(rows, now)
    ensures var c := CloseOpen(rows, wid, pid, now);
            WellFormed(c) && NotAfter(c, now) &&
            forall i :: 0 <= i < |c| && HasKey(c[i], wid, pid) ==> !IsOpen(c[i])
  {
    var c := CloseOpen(rows, wid, pid, now);
    forall i, j | 0 <= i < j < |c| && IsOpen(c[i]) && IsOpen(c[j])
      ensures !SameKey(c[i], c[j])
    {
      assert c[i] == Closed(rows[i], wid, pid, now) && c[j] == Closed(rows[j], wid, pid, now);
    }
    forall i | 0 <= i < |c| && c[i].validTo.Some?
      ensures c[i].validFrom <= c[i].validTo.value
    {
      assert c[i] == Closed(rows[i], wid, pid, now);
    }
  }

  /** An upsert keeps each key down to one open interval and keeps the
      table chronological, whatever latest row the SELECT returns. */
  lemma UpsertKeepsWellFormed(rows: seq<HistoryRow>, wid: int, eid: Value, pid: Value, name: Value,
                              pres: Value, url: Value, now: int, pick: Option<nat>)
    requires ValidPick(rows, wid, pid, pick)
    requires WellFormed(rows) && NotAfter(rows, now)
    ensures WellFormed(Upsert(rows, wid, eid, pid, name, pres, url, now, pick))
    ensures NotAfter(Upsert(rows, wid, eid, pid, name, pres, url, now, pick), now)
  {
    var nr := NewRow(wid, eid, pid, name, pres, url, now);
    if pick.None? {
      AppendOpenKeepsWellFormed(rows, nr, now);
    } else if Differs(rows[pick.value], name, pres, url) {
      var c := CloseOpen(rows, wid, pid, now);
      CloseOpenKeepsWellFormed(rows, wid, pid, now);
      AppendOpenKeepsWellFormed(c, nr, now);
    }
  }

  /** An upsert leaves the rows of every other key alone, never changes a
      closed interval, and at most sets `valid_to` of an open one to `now`;
      it adds at most one row. */
  lemma UpsertFrame(rows: seq<HistoryRow>, wid: int, eid: Value, pid: Value, name: Value,
                    pres: Value, url: Value, now: int, pick: Option<nat>)
    requires InRange(rows, pick)
    ensures var r := Upsert(rows, wid, eid, pid, name, pres, url, now, pick);
            |r| == |rows| + (if RecordsChange(rows, name, pres, url, pick) then 1 else 0) &&
            (forall i :: 0 <= i < |rows| && !HasKey(rows[i], wid, pid) ==> r[i] == rows[i]) &&
            (forall i :: 0 <= i < |rows| && !IsOpen(rows[i]) ==> r[i] == rows[i]) &&
            (forall i :: 0 <= i < |rows| ==> r[i] == rows[i] || r[i] == rows[i].(validTo := Some(now)))
  {
    var r := Upsert(rows, wid, eid, pid, name, pres, url, now, pick);
    if RecordsChange(rows, name, pres, url, pick) && pick.Some? {
      assert forall i :: 0 <= i < |rows| ==> r[i] == Closed(rows[i], wid, pid, now);
    }
  }

  /** When an upsert records something, the new row is the key's only open
      interval, starts `now` and carries the offer; otherwise the table is
      unchanged. */
  lemma UpsertRecordsOffer(rows: seq<HistoryRow>, wid: int, eid: Value, pid: Value, name: Value,
                           pres: Value, url: Value, now: int, pick: Option<nat>)
    requires ValidPick(rows, wid, pid, pick)
    ensures var r := Upsert(rows, wid, eid, pid, name, pres, url, now, pick);
            if RecordsChange(rows, name, pres, url, pick) then
              |r| == |rows| + 1 &&
              r[|rows|] == HistoryRow(wid, eid, pid, StoredName(name, pid), pres, url, now, None) &&
              forall i :: 0 <= i < |rows| && HasKey(r[i], wid, pid) ==> !IsOpen(r[i])
            else r == rows
  {
    var r := Upsert(rows, wid, eid, pid, name, pres, url, now, pick);
    var nr := NewRow(wid, eid, pid, name, pres, url, now);
    if pick.None? {
      assert r == rows + [nr];
      assert forall i :: 0 <= i < |rows| ==> r[i] == rows[i];
    } else if Differs(rows[pick.value], name, pres, url) {
      var c := CloseOpen(rows, wid, pid, now);
      assert r == c + [nr];
      assert forall i :: 0 <= i < |rows| ==> r[i] == Closed(rows[i], wid, pid, now);
    }
  }

  /** A latest row the SELECT returns is recorded again only on change: an
      unchanged offer whose latest interval is closed is not reopened. */
  lemma UnchangedClosedStaysClosed(rows: seq<HistoryRow>, wid: int, eid: Value, pid: Value, name: Value,
                                   pres: Value, url: Value, now: int, k: nat)
    requires ValidPick(rows, wid, pid, Some(k))
    requires !IsOpen(rows[k]) && !Differs(rows[k], name, pres, url)
    ensures Upsert(rows, wid, eid, pid, name, pres, url, now, Some(k)) == rows
  {
  }

  /** The code as written agrees with the corrected upsert whenever the
      SELECT returns the open row, or the key has no open row at all. */
  lemma AsWrittenAgrees(rows: seq<HistoryRow>, wid: int, eid: Value, pid: Value, name: Value,
                        pres: Value, url: Value, now: int, pick: Option<nat>)
    requires InRange(rows, pick)
    requires pick.Some? ==> IsOpen(rows[pick.value]) ||
                            forall i :: 0 <= i < |rows| && HasKey(rows[i], wid, pid) ==> !IsOpen(rows[i])
    ensures UpsertAsWritten(rows, wid, eid, pid, name, pres, url, now, pick)
         == Upsert(rows, wid, eid, pid, name, pres, url, now, pick)
  {
    if pick.Some? && !IsOpen(rows[pick.value]) {
      assert CloseOpen(rows, wid, pid, now) == rows;
    }
  }

  function TieRow(pid: Value, pres: string, validTo: Option<int>): HistoryRow {
    HistoryRow(1, Str("tm1"), pid, Str("Netflix"), Str(pres), Null, 100, validTo)
  }

  /** Two intervals of provider 8 start at the same moment (two offers of
      one provider written in one run): the first, closed, for `FLATRATE`,
      the second, open, for `ADS`. The SELECT may return the closed one; an
      `ADS` offer then differs from it, and the code as written inserts a
      second open interval without closing the first. */
  lemma AsWrittenLeavesTwoOpen()
    ensures var rows := [TieRow(Int(8), "FLATRATE", Some(100)), TieRow(Int(8), "ADS", None)];
            ValidPick(rows, 1, Int(8), Some(0)) &&
            WellFormed(rows) && NotAfter(rows, 200) &&
            !AtMostOneOpen(UpsertAsWritten(rows, 1, Str("tm1"), Int(8), Str("Netflix"), Str("ADS"), Null, 200, Some(0)))
  {
    var rows := [TieRow(Int(8), "FLATRATE", Some(100)), TieRow(Int(8), "ADS", None)];
    TieRowsWellFormed();
    var n := NewRow(1, Str("tm1"), Int(8), Str("Netflix"), Str("ADS"), Null, 200);
    assert Changed(Str("FLATRATE"), Str("ADS"));
    var r := UpsertAsWritten(rows, 1, Str("tm1"), Int(8), Str("Netflix"), Str("ADS"), Null, 200, Some(0));
    assert r == rows + [n];
    assert IsOpen(r[1]) && IsOpen(r[2]) && SameKey(r[1], r[2]);
  }

  /** Every open interval is the most recent row of its key. The code as
      written relies on this: it closes only when the returned row is open. */
  predicate OpenIsLast(rows: seq<HistoryRow>) {
    forall i, j :: 0 <= i < j < |rows| && IsOpen(rows[i]) ==> !SameKey(rows[i], rows[j])
  }

  /** When the SELECT returns the key's most recent row and open intervals
      are always the most recent, the code as written is the corrected
      upsert, and it keeps open intervals the most recent. */
  lemma AsWrittenOnLastRow(rows: seq<HistoryRow>, wid: int, eid: Value, pid: Value, name: Value,
                           pres: Value, url: Value, now: int)
    requires OpenIsLast(rows)
    ensures UpsertAsWritten(rows, wid, eid, pid, name, pres, url, now, LastRow(rows, wid, pid))
         == Upsert(rows, wid, eid, pid, name, pres, url, now, LastRow(rows, wid, pid))
    ensures OpenIsLast(Upsert(rows, wid, eid, pid, name, pres, url, now, LastRow(rows, wid, pid)))
  {
    var pick := LastRow(rows, wid, pid);
    if pick.Some? && !IsOpen(rows[pick.value]) {
      forall i | 0 <= i < |rows| && HasKey(rows[i], wid, pid) ensures !IsOpen(rows[i]) {
        if i < pick.value {
          assert SameKey(rows[i], rows[pick.value]);
        }
      }
    }
    AsWrittenAgrees(rows, wid, eid, pid, name, pres, url, now, pick);
    UpsertKeepsOpenIsLast(rows, wid, eid, pid, name, pres, url, now, pick);
  }

  lemma UpsertKeepsOpenIsLast(rows: seq<HistoryRow>, wid: int, eid: Value, pid: Value, name: Value,
                              pres: Value, url: Value, now: int, pick: Option<nat>)
    requires OpenIsLast(rows) && InRange(rows, pick)
    requires pick.None? <==> forall i :: 0 <= i < |rows| ==> !HasKey(rows[i], wid, pid)
    ensures OpenIsLast(Upsert(rows, wid, eid, pid, name, pres, url, now, pick))
  {
    var nr := NewRow(wid, eid, pid, name, pres, url, now);
    if pick.None? {
      AppendKeepsOpenIsLast(rows, nr);
    } else if Differs(rows[pick.value], name, pres, url) {
      var c := CloseOpen(rows, wid, pid, now);
      forall i, j | 0 <= i < j < |c| && IsOpen(c[i]) ensures !SameKey(c[i], c[j]) {
        assert c[i] == Closed(rows[i], wid, pid, now) && c[j] == Closed(rows[j], wid, pid, now);
      }
      forall i | 0 <= i < |c| && IsOpen(c[i]) ensures !SameKey(c[i], nr) {
        assert c[i] == Closed(rows[i], wid, pid, now);
      }
      AppendKeepsOpenIsLast(c, nr);
    }
  }

  lemma AppendKeepsOpenIsLast(rows: seq<HistoryRow>, nr: HistoryRow)
    requires OpenIsLast(rows)
    requires forall i :: 0 <= i < |rows| && IsOpen(rows[i]) ==> !SameKey(rows[i], nr)
    ensures OpenIsLast(rows + [nr])
  {
    var r := rows + [nr];
    forall i, j | 0 <= i < j < |r| && IsOpen(r[i]) ensures !SameKey(r[i], r[j]) {
      assert r[i] == rows[i];
      if j < |rows| {
        assert r[j] == rows[j];
      }
    }
  }

  /** The code as written changes no more than the corrected upsert: it
      leaves other keys and closed intervals alone. */
  lemma AsWrittenFrame(rows: seq<HistoryRow>, wid: int, eid: Value, pid: Value, name: Value,
                       pres: Value, url: Value, now: int, pick: Option<nat>)
    requires InRange(rows, pick)
    ensures var r := UpsertAsWritten(rows, wid, eid, pid, name, pres, url, now, pick);
            |rows| <= |r| &&
            (forall i :: 0 <= i < |rows| && !HasKey(rows[i], wid, pid) ==> r[i] == rows[i]) &&
            (forall i :: 0 <= i < |rows| && !IsOpen(rows[i]) ==> r[i] == rows[i])
  {
    var r := UpsertAsWritten(rows, wid, eid, pid, name, pres, url, now, pick);
    if pick.Some? && Differs(rows[pick.value], name, pres, url) && IsOpen(rows[pick.value]) {
      assert forall i :: 0 <= i < |rows| ==> r[i] == Closed(rows[i], wid, pid, now);
    }
  }

  lemma TieRowsWellFormed()
    ensures var rows := [TieRow(Int(8), "FLATRATE", Some(100)), TieRow(Int(8), "ADS", None)];
            ValidPick(rows, 1, Int(8), Some(0)) && WellFormed(rows) && NotAfter(rows, 200)
  {
  }

  /** `SQL_SELECT_LAST_OFFER` on the table: a scan for the key's most
      recently inserted row. */
  method SelectLast(rows: seq<HistoryRow>, wid: int, pid: Value) returns (last: Option<nat>)
    ensures last == LastRow(rows, wid, pid)
  {
    last := None;
    var i := 0;
    while i < |rows|
      invariant 0 <= i <= |rows|
      invariant last == LastRow(rows[..i], wid, pid)
    {
      assert rows[..i + 1][..i] == rows[..i];
      if HasKey(rows[i], wid, pid) {
        last := Some(i);
      }
      i := i + 1;
    }
    assert rows[..i] == rows;
  }

  /** `SQL_CLOSE_OFFER` on the table: the key's open rows get `valid_to =
      now`, in place. */
  method CloseOffer(db: Database, wid: int, pid: Value, now: int)
    modifies db`offersHistory
    ensures db.offersHistory == CloseOpen(old(db.offersHistory), wid, pid, now)
  {
    var rows := db.offersHistory;
    var j := 0;
    while j < |rows|
      invariant 0 <= j <= |rows| && |db.offersHistory| == |rows|
      invariant forall t :: 0 <= t < j ==> db.offersHistory[t] == Closed(rows[t], wid, pid, now)
      invariant forall t :: j <= t < |rows| ==> db.offersHistory[t] == rows[t]
    {
      if HasKey(rows[j], wid, pid) && IsOpen(rows[j]) {
        db.offersHistory := db.offersHistory[j := rows[j].(validTo := Some(now))];
      }
      j := j + 1;
    }
  }

  /** `upsert_offer_history_watchlist(conn, wid, eid, pid, name, pres, url)`
      as written, on the table itself. Ties on `valid_from` are resolved
      towards the most recent insertion, one of the answers the SELECT may
      give (`LastRowIsValidPick`). */
  method UpsertOfferHistory(db: Database, wid: int, eid: Value, pid: Value, name: Value,
                            pres: Value, url: Value, now: int)
    modifies db`offersHistory
    ensures db.offersHistory == UpsertAsWritten(old(db.offersHistory), wid, eid, pid, name, pres, url, now,
                                                LastRow(old(db.offersHistory), wid, pid))
  {
    var rows := db.offersHistory;
    var last := SelectLast(rows, wid, pid);
    var added := NewRow(wid, eid, pid, name, pres, url, now);
    if last.None? {
      db.offersHistory := rows + [added];
    } else if Differs(rows[last.value], name, pres, url) {
      if IsOpen(rows[last.value]) {
        CloseOffer(db, wid, pid, now);
      }
      db.offersHistory := db.offersHistory + [added];
    }
  }
}
