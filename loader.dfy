/** The Letterboxd export loader of loader.py: the CSV field parsers, the
    schema's unique indexes, the choice of export archive and the per-row
    upsert into `watchlist`, `watched` and `diary`. */
module Loader {
  import opened Text
  import opened Store

  datatype Result<T> = Success(value: T) | Failure(error: string)

  // ---------------------------------------------------------------- parsers

  /** `to_int(val)`: `None` for a missing or blank field and for text that
      is not an integer. */
  function ToInt(val: Option<string>): Option<int> {
    if val.None? then None
    else
      var v := Trim(val.value);
      if v == "" then None else ParseInt(v)
  }

  /** `to_int` is `int()` with `None` for a missing value and for anything
      `int()` rejects, blank text included. */
  lemma ToIntSpec(val: Option<string>)
    ensures val.None? || Trim(val.value) == [] ==> ToInt(val) == None
    ensures val.Some? ==> ToInt(val) == ParseInt(val.value)
  {
    if val.Some? {
      ParseIntTrimmed(val.value);
      if Trim(val.value) == [] {
        assert ParseInt(val.value) == None;
      }
    }
  }

  /** `to_int(str(i)) == i`. */
  lemma ToIntRoundTrip(i: int)
    ensures ToInt(Some(IntToString(i))) == Some(i)
  {
    ParseIntRoundTrip(i);
    ToIntSpec(Some(IntToString(i)));
  }

  const TrueWords: set<string> := {"yes", "y", "true", "1"}
  const FalseWords: set<string> := {"no", "n", "false", "0", ""}

  /** `to_bool(val)`: the `TINYINT` stored for a yes/no field. */
  function ToBool(val: Option<string>): Option<int> {
    if val.None? then None
    else
      var v := Lower(Trim(val.value));
      if v in TrueWords then Some(1)
      else if v in FalseWords then Some(0)
      else None
  }

  /** `to_bool` ignores the case of its input: `Yes`, `TRUE` and `yes` read
      alike, and so do `No`, `FALSE` and `no`. */
  lemma ToBoolIgnoresCase(s: string)
    ensures ToBool(Some(Upper(s))) == ToBool(Some(s))
  {
    StripLowerIgnoresCase(s);
  }

  /** `to_bool` yields only 0, 1 or `None`: 1 exactly for a yes-word, 0
      exactly for a no-word (blank text included), and `None` exactly for a
      missing field or a word it does not know. */
  lemma ToBoolSpec(val: Option<string>)
    ensures ToBool(val) in {None, Some(0), Some(1)}
    ensures ToBool(val) == Some(1) <==> val.Some? && Lower(Trim(val.value)) in TrueWords
    ensures ToBool(val) == Some(0) <==> val.Some? && Lower(Trim(val.value)) in FalseWords
    ensures ToBool(val).None? <==> val.None? || Lower(Trim(val.value)) !in TrueWords + FalseWords
  {
    if val.Some? {
      WordsDisjoint(Lower(Trim(val.value)));
    }
  }

  /** No word reads as both yes and no. */
  lemma WordsDisjoint(v: string)
    ensures v in TrueWords ==> v !in FalseWords
  {
  }

  /** The `Rewatch` column of a Letterboxd diary holds `Yes` or nothing. */
  lemma ToBoolReadsRewatch()
    ensures ToBool(Some("Yes")) == Some(1) && ToBool(Some("")) == Some(0) && ToBool(None) == None
  {
    ToBoolYes();
    ToBoolEmpty();
  }

  lemma ToBoolYes()
    ensures ToBool(Some("Yes")) == Some(1)
  {
    NormYes();
    assert "yes" in TrueWords;
  }

  lemma ToBoolEmpty()
    ensures ToBool(Some("")) == Some(0)
  {
    NormEmpty();
    EmptyIsFalse();
  }

  lemma EmptyIsFalse()
    ensures "" !in TrueWords && "" in FalseWords
  {
  }

  lemma NormEmpty()
    ensures Lower(Trim("")) == ""
  {
    var e: string := [];
    assert TrimStart(e) == e && TrimEnd(e) == e && Lower(e) == e;
  }

  lemma NormYes()
    ensures Lower(Trim("Yes")) == "yes"
  {
    TrimUnpadded("Yes");
    var l := Lower("Yes");
    assert l[0] == 'y' && l[1] == 'e' && l[2] == 's';
  }

  // ------------------------------------------------------------ ensure_unique

  datatype IndexError = UnexpectedTable | UnexpectedIndexName

  const KnownTables: set<string> := {"watchlist", "watched", "diary"}
  const KnownIndexes: set<string> := {"uq_watchlist", "uq_watched", "uq_diary"}

  /** The identifier whitelist of `ensure_unique`, table first. */
  function Whitelist(table: string, indexName: string): Option<IndexError> {
    if table !in KnownTables then Some(UnexpectedTable)
    else if indexName !in KnownIndexes then Some(UnexpectedIndexName)
    else None
  }

  /** The unique indexes after `ensure_unique(cur, table, indexName, cols)`. */
  function Ensured(ix: map<(string, string), string>, table: string, indexName: string, cols: string): map<(string, string), string> {
    if Whitelist(table, indexName).Some? || (table, indexName) in ix then ix
    else ix[(table, indexName) := cols]
  }

  /** On a rejected identifier nothing changes; otherwise the index exists
      afterwards, an existing one keeps its columns, no other index is
      touched, and a second call changes nothing. */
  lemma EnsuredSpec(ix: map<(string, string), string>, table: string, indexName: string, cols: string)
    ensures var r := Ensured(ix, table, indexName, cols);
            (Whitelist(table, indexName).Some? ==> r == ix) &&
            (Whitelist(table, indexName).None? ==>
               (table, indexName) in r && r.Keys == ix.Keys + {(table, indexName)} &&
               ((table, indexName) in ix ==> r == ix)) &&
            (forall k :: k in ix ==> k in r && r[k] == ix[k]) &&
            Ensured(r, table, indexName, cols) == r
  {
  }

  /** `ensure_unique(cur, table, indexName, cols)`: the whitelist check
      raises before any statement runs; otherwise the index is added only
      when `SHOW INDEX` does not find it. */
  method EnsureUnique(db: Database, table: string, indexName: string, cols: string) returns (err: Option<IndexError>)
    modifies db`uniqueIndexes
    ensures err == Whitelist(table, indexName)
    ensures db.uniqueIndexes == Ensured(old(db.uniqueIndexes), table, indexName, cols)
  {
    err := Whitelist(table, indexName);
    if err.Some? {
      return;
    }
    var found := (table, indexName) in db.uniqueIndexes;
    if !found {
      db.uniqueIndexes := db.uniqueIndexes[(table, indexName) := cols];
    }
  }

  function TableName(t: Table): string {
    match t
    case Watchlist => "watchlist"
    case Watched => "watched"
    case Diary => "diary"
  }

  function IndexName(t: Table): string {
    match t
    case Watchlist => "uq_watchlist"
    case Watched => "uq_watched"
    case Diary => "uq_diary"
  }

  predicate Indexed(ix: map<(string, string), string>, t: Table) {
    (TableName(t), IndexName(t)) in ix
  }

  /** The `CREATE TABLE IF NOT EXISTS` statements: a missing table is
      created empty. */
  function WithTables(films: map<Table, seq<FilmRow>>): (r: map<Table, seq<FilmRow>>)
    ensures Watchlist in r && Watched in r && Diary in r
    ensures forall t :: t in films ==> t in r && r[t] == films[t]
  {
    var f1 := if Watchlist in films then films else films[Watchlist := []];
    var f2 := if Watched in f1 then f1 else f1[Watched := []];
    if Diary in f2 then f2 else f2[Diary := []]
  }

  /** The unique indexes after the three `ensure_unique` calls of
      `ensure_schema`. */
  function SchemaIndexes(ix: map<(string, string), string>): (r: map<(string, string), string>)
    ensures Indexed(r, Watchlist) && Indexed(r, Watched) && Indexed(r, Diary)
    ensures r.Keys == ix.Keys + {("watchlist", "uq_watchlist"), ("watched", "uq_watched"), ("diary", "uq_diary")}
    ensures forall k :: k in ix ==> r[k] == ix[k]
    ensures ("watchlist", "uq_watchlist") !in ix ==> r[("watchlist", "uq_watchlist")] == "film_name, film_year, added_date"
    ensures ("watched", "uq_watched") !in ix ==> r[("watched", "uq_watched")] == "film_name, film_year, watched_date"
    ensures ("diary", "uq_diary") !in ix ==> r[("diary", "uq_diary")] == "logged_date, film_name, film_year"
  {
    var ix1 := Ensured(ix, "watchlist", "uq_watchlist", "film_name, film_year, added_date");
    var ix2 := Ensured(ix1, "watched", "uq_watched", "film_name, film_year, watched_date");
    Ensured(ix2, "diary", "uq_diary", "logged_date, film_name, film_year")
  }

  /** `ensure_schema(cur)`: the three tables exist (an existing one keeps its
      rows) and each has its unique index. */
  method EnsureSchema(db: Database)
    modifies db`films, db`uniqueIndexes
    ensures db.films == WithTables(old(db.films))
    ensures db.uniqueIndexes == SchemaIndexes(old(db.uniqueIndexes))
  {
    db.films := WithTables(db.films);
    var ix0 := db.uniqueIndexes;
    var e1 := EnsureUnique(db, "watchlist", "uq_watchlist", "film_name, film_year, added_date");
    EnsuredSpec(ix0, "watchlist", "uq_watchlist", "film_name, film_year, added_date");
    var ix1 := db.uniqueIndexes;
    var e2 := EnsureUnique(db, "watched", "uq_watched", "film_name, film_year, watched_date");
    EnsuredSpec(ix1, "watched", "uq_watched", "film_name, film_year, watched_date");
    var ix2 := db.uniqueIndexes;
    var e3 := EnsureUnique(db, "diary", "uq_diary", "logged_date, film_name, film_year");
    EnsuredSpec(ix2, "diary", "uq_diary", "logged_date, film_name, film_year");
  }

  // ---------------------------------------------------------------- latest_zip

  /** A name the pattern `*.zip` matches: `glob` skips hidden files. */
  predicate IsZipName(n: string) {
    EndsWith(n, ".zip") && !(n != [] && n[0] == '.')
  }

  function Zips(names: seq<string>): seq<string> {
    if names == [] then []
    else Zips(names[..|names| - 1]) + (if IsZipName(names[|names| - 1]) then [names[|names| - 1]] else [])
  }

  lemma {:induction false} ZipsSpec(names: seq<string>)
    ensures forall n :: n in Zips(names) <==> n in names && IsZipName(n)
  {
    if names != [] {
      ZipsSpec(names[..|names| - 1]);
      assert names == names[..|names| - 1] + [names[|names| - 1]];
    }
  }

  /** The last element of the sorted list. */
  function Greatest(xs: seq<string>): string
    requires xs != []
  {
    if |xs| == 1 then xs[0]
    else
      var m := Greatest(xs[1..]);
      if LexLe(m, xs[0]) then xs[0] else m
  }

  /** It is an element, and no element is greater. */
  lemma {:induction false} GreatestSpec(xs: seq<string>)
    requires xs != []
    ensures Greatest(xs) in xs && forall x :: x in xs ==> LexLe(x, Greatest(xs))
  {
    LexLeTotal(xs[0], xs[0]);
    if |xs| > 1 {
      var m := Greatest(xs[1..]);
      GreatestSpec(xs[1..]);
      LexLeTotal(xs[0], m);
      if LexLe(m, xs[0]) {
        forall x | x in xs ensures LexLe(x, xs[0]) {
          if x != xs[0] {
            assert x in xs[1..];
            LexLeTransitive(x, m, xs[0]);
          }
        }
      } else {
        forall x | x in xs ensures LexLe(x, m) {
          if x != xs[0] {
            assert x in xs[1..];
          }
        }
      }
    }
  }

  /** `os.path.join(path, name)` for a relative name. */
  function JoinPath(path: string, name: string): string {
    if path == "" || EndsWith(path, "/") then path + name else path + "/" + name
  }

  /** `latest_zip(path)` given the names in the directory. Every candidate
      shares the prefix `path/`, so sorting the joined paths orders them by
      name. */
  function LatestZip(path: string, names: seq<string>): Result<string> {
    var zips := Zips(names);
    if zips == [] then Failure("No export ZIPs found in " + path)
    else Success(JoinPath(path, Greatest(zips)))
  }

  /** `latest_zip` fails exactly when the directory holds no archive, and
      otherwise returns the greatest archive name, whatever order the
      directory lists its files in. */
  lemma LatestZipSpec(path: string, names: seq<string>, other: seq<string>)
    requires multiset(other) == multiset(names)
    ensures LatestZip(path, names).Failure? <==> forall n :: n in names ==> !IsZipName(n)
    ensures LatestZip(path, names).Success? ==>
              exists m :: m in names && IsZipName(m) && LatestZip(path, names).value == JoinPath(path, m) &&
                          forall n :: n in names && IsZipName(n) ==> LexLe(n, m)
    ensures LatestZip(path, other) == LatestZip(path, names)
  {
    ZipsSpec(names);
    ZipsSpec(other);
    assert forall n :: n in names <==> n in other by {
      forall n ensures n in names <==> n in other {
        assert n in names <==> n in multiset(names);
        assert n in other <==> n in multiset(other);
      }
    }
    var z1, z2 := Zips(names), Zips(other);
    if z1 != [] {
      assert z1[0] in z1 && z1[0] in z2;
      var m1, m2 := Greatest(z1), Greatest(z2);
      GreatestSpec(z1);
      GreatestSpec(z2);
      assert LexLe(m1, m2) && LexLe(m2, m1);
      LexLeAntisymmetric(m1, m2);
      assert m1 in names && IsZipName(m1) && LatestZip(path, names).value == JoinPath(path, m1);
    } else {
      assert forall i :: 0 <= i < |z2| ==> z2[i] in z1;
    }
  }

  // ------------------------------------------------------------- ingestion

  /** A row of an export CSV: column header to text. */
  type CsvRow = map<string, string>

  /** `r.get(name)` */
  function Field(r: CsvRow, name: string): Option<string> {
    if name in r then Some(r[name]) else None
  }

  /** `r.get(name) or None`: empty text is stored as NULL. */
  function FieldOrNull(r: CsvRow, name: string): Option<string> {
    if name in r && r[name] != "" then Some(r[name]) else None
  }

  /** The values one CSV row is stored as, or `None` when the row has no
      `Name` and is skipped. `Date` is the table's own date column; the
      last three columns are read for the diary only. The id is assigned on
      insertion. */
  function ParseRow(t: Table, r: CsvRow): Option<FilmRow> {
    var name := FieldOrNull(r, "Name");
    if name.None? then None
    else
      Some(FilmRow(0, FieldOrNull(r, "Date"), name.value, ToInt(Field(r, "Year")), FieldOrNull(r, "Letterboxd URI"),
                   if t == Diary then ToBool(Field(r, "Rewatch")) else None,
                   if t == Diary then FieldOrNull(r, "Tags") else None,
                   if t == Diary then FieldOrNull(r, "Watched Date") else None))
  }

  /** The columns of each table's unique index: name, year and date. */
  predicate SameFilmKey(a: FilmRow, b: FilmRow) {
    a.name == b.name && a.year == b.year && a.date == b.date
  }

  /** Whether the unique index sees two rows as duplicates. As written
      (`nullSafe` false) this is SQL's comparison, under which a NULL year
      or date equals nothing; the corrected key (`nullSafe` true) compares
      missing values as equal. */
  predicate Clash(a: FilmRow, b: FilmRow, nullSafe: bool) {
    SameFilmKey(a, b) && (nullSafe || (a.year.Some? && a.date.Some?))
  }

  function FindKey(rows: seq<FilmRow>, r: FilmRow, nullSafe: bool): (k: Option<nat>)
    ensures k.None? <==> forall i :: 0 <= i < |rows| ==> !Clash(rows[i], r, nullSafe)
    ensures k.Some? ==> k.value < |rows| && Clash(rows[k.value], r, nullSafe)
  {
    if rows == [] then None
    else if Clash(rows[|rows| - 1], r, nullSafe) then Some(|rows| - 1)
    else FindKey(rows[..|rows| - 1], r, nullSafe)
  }

  /** The `ON DUPLICATE KEY UPDATE` columns of each table. */
  function Merge(t: Table, stored: FilmRow, r: FilmRow): FilmRow {
    if t == Diary then stored.(uri := r.uri, rewatch := r.rewatch, tags := r.tags, watchedDate := r.watchedDate)
    else stored.(uri := r.uri)
  }

  /** The id `AUTO_INCREMENT` hands out: one past the newest row's. */
  function NextId(rows: seq<FilmRow>): int {
    if rows == [] then 1 else rows[|rows| - 1].id + 1
  }

  /** The `INSERT ... ON DUPLICATE KEY UPDATE` of one row; without the
      unique index every row is inserted. */
  function UpsertFilm(rows: seq<FilmRow>, t: Table, indexed: bool, nullSafe: bool, r: FilmRow): seq<FilmRow> {
    var k := if indexed then FindKey(rows, r, nullSafe) else None;
    if k.Some? then rows[k.value := Merge(t, rows[k.value], r)]
    else rows + [r.(id := NextId(rows))]
  }

  /** The rows of a CSV file that have a name, parsed, in file order. */
  function Named(t: Table, csv: seq<CsvRow>): seq<FilmRow> {
    if csv == [] then []
    else
      var p := ParseRow(t, csv[|csv| - 1]);
      Named(t, csv[..|csv| - 1]) + if p.Some? then [p.value] else []
  }

  /** `Named` holds the parse of every row with a name and nothing else,
      and has at most one entry per row. */
  lemma {:induction false} NamedSpec(t: Table, csv: seq<CsvRow>)
    ensures |Named(t, csv)| <= |csv|
    ensures forall j :: 0 <= j < |csv| && ParseRow(t, csv[j]).Some? ==> ParseRow(t, csv[j]).value in Named(t, csv)
    ensures forall x :: x in Named(t, csv) ==> exists j :: 0 <= j < |csv| && ParseRow(t, csv[j]) == Some(x)
  {
    if csv != [] {
      var init := csv[..|csv| - 1];
      NamedSpec(t, init);
      var p := ParseRow(t, csv[|csv| - 1]);
      var tail := if p.Some? then [p.value] else [];
      var n := Named(t, csv);
      assert n == Named(t, init) + tail;
      forall j | 0 <= j < |csv| && ParseRow(t, csv[j]).Some?
        ensures ParseRow(t, csv[j]).value in n
      {
        if j < |init| {
          assert csv[j] == init[j];
        }
      }
      forall x | x in n
        ensures exists j :: 0 <= j < |csv| && ParseRow(t, csv[j]) == Some(x)
      {
        if x in Named(t, init) {
          var j :| 0 <= j < |init| && ParseRow(t, init[j]) == Some(x);
          assert csv[j] == init[j];
        } else {
          assert ParseRow(t, csv[|csv| - 1]) == Some(x);
        }
      }
    }
  }

  /** The upserts of `named`, in order. */
  function UpsertAll(rows: seq<FilmRow>, t: Table, indexed: bool, nullSafe: bool, named: seq<FilmRow>): seq<FilmRow> {
    if named == [] then rows
    else UpsertFilm(UpsertAll(rows, t, indexed, nullSafe, named[..|named| - 1]), t, indexed, nullSafe, named[|named| - 1])
  }

  /** The loop over one CSV file: its named rows upserted in file order. */
  function LoadAll(rows: seq<FilmRow>, t: Table, indexed: bool, nullSafe: bool, csv: seq<CsvRow>): seq<FilmRow> {
    UpsertAll(rows, t, indexed, nullSafe, Named(t, csv))
  }

  predicate HasKey(rows: seq<FilmRow>, r: FilmRow) {
    exists i :: 0 <= i < |rows| && SameFilmKey(rows[i], r)
  }

  /** No two rows share a key. */
  predicate KeysUnique(rows: seq<FilmRow>) {
    forall i, j :: 0 <= i < j < |rows| ==> !SameFilmKey(rows[i], rows[j])
  }

  /** An upsert keeps every key already stored, stores the row's own key,
      keeps ids ascending, and grows the table by at most one row; with the
      corrected key it keeps keys unique and does not grow the table when
      the key is already stored. */
  lemma UpsertFilmSpec(rows: seq<FilmRow>, t: Table, indexed: bool, nullSafe: bool, r: FilmRow)
    ensures var u := UpsertFilm(rows, t, indexed, nullSafe, r);
            HasKey(u, r) && (forall x :: HasKey(rows, x) ==> HasKey(u, x)) &&
            |rows| <= |u| <= |rows| + 1 &&
            (IdsAscending(rows) ==> IdsAscending(u)) &&
            (indexed && nullSafe && KeysUnique(rows) ==> KeysUnique(u)) &&
            (indexed && nullSafe && HasKey(rows, r) ==> |u| == |rows|)
  {
    var u := UpsertFilm(rows, t, indexed, nullSafe, r);
    var k := if indexed then FindKey(rows, r, nullSafe) else None;
    if k.Some? {
      assert SameFilmKey(u[k.value], r);
      forall x | HasKey(rows, x) ensures HasKey(u, x) {
        var i :| 0 <= i < |rows| && SameFilmKey(rows[i], x);
        assert SameFilmKey(u[i], x);
      }
    } else {
      assert SameFilmKey(u[|rows|], r);
      forall x | HasKey(rows, x) ensures HasKey(u, x) {
        var i :| 0 <= i < |rows| && SameFilmKey(rows[i], x);
        assert u[i] == rows[i];
      }
    }
  }

  predicate IdsAscending(rows: seq<FilmRow>) {
    forall i, j :: 0 <= i < j < |rows| ==> rows[i].id < rows[j].id
  }

  /** Upserting rows keeps every stored key and stores the key of each of
      them. */
  lemma {:induction false} UpsertAllKeys(rows: seq<FilmRow>, t: Table, indexed: bool, nullSafe: bool, named: seq<FilmRow>)
    ensures var r := UpsertAll(rows, t, indexed, nullSafe, named);
            (forall x :: HasKey(rows, x) ==> HasKey(r, x)) && (forall x :: x in named ==> HasKey(r, x))
  {
    if named != [] {
      var init, last := named[..|named| - 1], named[|named| - 1];
      assert named == init + [last];
      UpsertAllKeys(rows, t, indexed, nullSafe, init);
      UpsertFilmSpec(UpsertAll(rows, t, indexed, nullSafe, init), t, indexed, nullSafe, last);
    }
  }

  /** Upserting rows adds at most one row per upsert, keeps ids ascending,
      and with the corrected key keeps keys unique. */
  lemma {:induction false} UpsertAllShape(rows: seq<FilmRow>, t: Table, indexed: bool, nullSafe: bool, named: seq<FilmRow>)
    ensures var r := UpsertAll(rows, t, indexed, nullSafe, named);
            |rows| <= |r| <= |rows| + |named| &&
            (IdsAscending(rows) ==> IdsAscending(r)) &&
            (indexed && nullSafe && KeysUnique(rows) ==> KeysUnique(r))
  {
    if named != [] {
      var init := named[..|named| - 1];
      UpsertAllShape(rows, t, indexed, nullSafe, init);
      UpsertFilmSpec(UpsertAll(rows, t, indexed, nullSafe, init), t, indexed, nullSafe, named[|named| - 1]);
    }
  }

  /** With the corrected key, upserting rows whose keys are all stored only
      updates rows: the table does not grow. */
  lemma {:induction false} UpsertAllStored(rows: seq<FilmRow>, t: Table, named: seq<FilmRow>)
    requires forall x :: x in named ==> HasKey(rows, x)
    ensures |UpsertAll(rows, t, true, true, named)| == |rows|
    ensures forall x :: HasKey(rows, x) ==> HasKey(UpsertAll(rows, t, true, true, named), x)
  {
    if named != [] {
      var init, last := named[..|named| - 1], named[|named| - 1];
      assert named == init + [last];
      UpsertAllStored(rows, t, init);
      UpsertFilmSpec(UpsertAll(rows, t, true, true, init), t, true, true, last);
    }
  }

  /** Loading a file keeps every stored key and stores the key of every
      named row; it adds at most one row per named row, keeps ids
      ascending, and with the corrected key keeps keys unique. */
  lemma LoadAllSpec(rows: seq<FilmRow>, t: Table, indexed: bool, nullSafe: bool, csv: seq<CsvRow>)
    ensures var r := LoadAll(rows, t, indexed, nullSafe, csv);
            (forall x :: HasKey(rows, x) ==> HasKey(r, x)) &&
            (forall x :: x in Named(t, csv) ==> HasKey(r, x)) &&
            |rows| <= |r| <= |rows| + |Named(t, csv)| &&
            (IdsAscending(rows) ==> IdsAscending(r)) &&
            (indexed && nullSafe && KeysUnique(rows) ==> KeysUnique(r))
  {
    UpsertAllKeys(rows, t, indexed, nullSafe, Named(t, csv));
    UpsertAllShape(rows, t, indexed, nullSafe, Named(t, csv));
  }

  /** With the corrected key, loading the same export twice stores no more
      rows than loading it once. */
  lemma ReloadDoesNotDuplicate(rows: seq<FilmRow>, t: Table, csv: seq<CsvRow>)
    ensures |LoadAll(LoadAll(rows, t, true, true, csv), t, true, true, csv)| == |LoadAll(rows, t, true, true, csv)|
  {
    var named := Named(t, csv);
    UpsertAllKeys(rows, t, true, true, named);
    UpsertAllStored(UpsertAll(rows, t, true, true, named), t, named);
  }

  /** A row with a year and a date is compared alike by both keys. */
  predicate Complete(r: FilmRow) {
    r.year.Some? && r.date.Some?
  }

  lemma {:induction false} FindKeyComplete(rows: seq<FilmRow>, r: FilmRow)
    requires Complete(r)
    ensures FindKey(rows, r, false) == FindKey(rows, r, true)
  {
    if rows != [] {
      FindKeyComplete(rows[..|rows| - 1], r);
    }
  }

  lemma {:induction false} UpsertAllComplete(rows: seq<FilmRow>, t: Table, indexed: bool, named: seq<FilmRow>)
    requires forall x :: x in named ==> Complete(x)
    ensures UpsertAll(rows, t, indexed, false, named) == UpsertAll(rows, t, indexed, true, named)
  {
    if named != [] {
      var init, last := named[..|named| - 1], named[|named| - 1];
      assert forall x :: x in init ==> x in named;
      UpsertAllComplete(rows, t, indexed, init);
      FindKeyComplete(UpsertAll(rows, t, indexed, true, init), last);
    }
  }

  /** The loader as written and the corrected one load alike any export
      whose every named row has a `Year` and a date; only rows missing one
      of them are duplicated on a reload. */
  lemma LoadAllComplete(rows: seq<FilmRow>, t: Table, indexed: bool, csv: seq<CsvRow>)
    requires forall j :: 0 <= j < |csv| && ParseRow(t, csv[j]).Some? ==> Complete(ParseRow(t, csv[j]).value)
    ensures LoadAll(rows, t, indexed, false, csv) == LoadAll(rows, t, indexed, true, csv)
    ensures indexed ==> |LoadAll(LoadAll(rows, t, true, false, csv), t, true, false, csv)| == |LoadAll(rows, t, true, false, csv)|
  {
    NamedSpec(t, csv);
    var named := Named(t, csv);
    UpsertAllComplete(rows, t, indexed, named);
    if indexed {
      var once := LoadAll(rows, t, true, true, csv);
      UpsertAllComplete(once, t, true, named);
      ReloadDoesNotDuplicate(rows, t, csv);
    }
  }

  const YearlessRow: CsvRow := map["Date" := "2024-01-02", "Name" := "Heat"]

  /** As written, a watchlist row whose `Year` is empty never matches its
      earlier copy under the unique index, so each load inserts it again. */
  lemma ReloadDuplicatesYearless()
    ensures |LoadAll([], Watchlist, true, false, [YearlessRow])| == 1
    ensures |LoadAll(LoadAll([], Watchlist, true, false, [YearlessRow]), Watchlist, true, false, [YearlessRow])| == 2
  {
    var p := ParseRow(Watchlist, YearlessRow);
    assert p.Some? && p.value.year.None?;
    assert [YearlessRow][..0] == [];
    assert Named(Watchlist, [YearlessRow]) == [p.value];
    assert [p.value][..0] == [];
    var once := LoadAll([], Watchlist, true, false, [YearlessRow]);
    assert UpsertAll([], Watchlist, true, false, [p.value]) == UpsertFilm([], Watchlist, true, false, p.value);
    assert UpsertFilm([], Watchlist, true, false, p.value) == [p.value.(id := 1)];
    assert once == [p.value.(id := 1)];
    assert !Clash(once[0], p.value, false);
    assert UpsertAll(once, Watchlist, true, false, [p.value]) == UpsertFilm(once, Watchlist, true, false, p.value);
  }

  /** One row of a loader loop: skipped without a name, else upserted. */
  function LoadRow(rows: seq<FilmRow>, t: Table, indexed: bool, nullSafe: bool, r: CsvRow): seq<FilmRow> {
    var p := ParseRow(t, r);
    if p.None? then rows else UpsertFilm(rows, t, indexed, nullSafe, p.value)
  }

  /** Loading one more row of a CSV file. */
  lemma LoadStep(rows: seq<FilmRow>, t: Table, indexed: bool, nullSafe: bool, csv: seq<CsvRow>, i: nat)
    requires i < |csv|
    ensures LoadAll(rows, t, indexed, nullSafe, csv[..i + 1]) == LoadRow(LoadAll(rows, t, indexed, nullSafe, csv[..i]), t, indexed, nullSafe, csv[i])
    ensures |Named(t, csv[..i + 1])| == |Named(t, csv[..i])| + if ParseRow(t, csv[i]).Some? then 1 else 0
  {
    var done := csv[..i + 1];
    assert done[..i] == csv[..i] && done[i] == csv[i];
    var n := Named(t, csv[..i]);
    var p := ParseRow(t, csv[i]);
    if p.Some? {
      assert Named(t, done) == n + [p.value];
      assert (n + [p.value])[..|n|] == n;
    } else {
      assert Named(t, done) == n;
    }
  }

  /** One loader loop of `main` over the CSV rows of table `t`: rows without
      a name are skipped, the others upserted in file order and counted.
      The table is written back once the file is done; nothing reads it in
      between. Keys are compared as SQL does, so a NULL year or date
      matches nothing. */
  method LoadTable(db: Database, t: Table, csv: seq<CsvRow>) returns (count: nat)
    modifies db`films
    ensures db.films == old(db.films)[t := LoadAll(old(db.Rows(t)), t, Indexed(db.uniqueIndexes, t), false, csv)]
    ensures count == |Named(t, csv)|
  {
    var rows := db.Rows(t);
    var indexed := Indexed(db.uniqueIndexes, t);
    var loaded := rows;
    count := 0;
    var i := 0;
    while i < |csv|
      invariant 0 <= i <= |csv|
      invariant db.films == old(db.films)
      invariant loaded == LoadAll(rows, t, indexed, false, csv[..i])
      invariant count == |Named(t, csv[..i])|
    {
      LoadStep(rows, t, indexed, false, csv, i);
      loaded := LoadRow(loaded, t, indexed, false, csv[i]);
      if ParseRow(t, csv[i]).Some? {
        count := count + 1;
      }
      i := i + 1;
    }
    assert csv[..i] == csv;
    db.films := db.films[t := loaded];
  }

  /** A member of the archive holding the CSV file `base`. */
  predicate IsMember(n: string, base: string) {
    EndsWith(n, "/" + base) || n == base
  }

  /** The member lookup of `main`: any member whose name fits (the archive's
      names form a set, so which one is read when several fit is not fixed),
      `None` when there is none. */
  method CsvFor(members: map<string, seq<CsvRow>>, base: string) returns (rows: Option<seq<CsvRow>>)
    ensures rows.None? <==> forall n :: n in members ==> !IsMember(n, base)
    ensures rows.Some? ==> exists n :: n in members && IsMember(n, base) && rows.value == members[n]
  {
    if n :| n in members && IsMember(n, base) {
      rows := Some(members[n]);
    } else {
      rows := None;
    }
  }

  /** `main()` once the archive is open: the schema is ensured, then each
      CSV file found is loaded into its table; a missing file is only
      reported. The counters are `ins_watchlist`, `ins_watched` and
      `ins_diary`. */
  method LoadExport(db: Database, watchlist: Option<seq<CsvRow>>, watched: Option<seq<CsvRow>>, diary: Option<seq<CsvRow>>)
    returns (insWatchlist: nat, insWatched: nat, insDiary: nat)
    modifies db`films, db`uniqueIndexes
    ensures Indexed(db.uniqueIndexes, Watchlist) && Indexed(db.uniqueIndexes, Watched) && Indexed(db.uniqueIndexes, Diary)
    ensures db.films == Loaded(Loaded(Loaded(WithTables(old(db.films)), Watchlist, watchlist), Watched, watched), Diary, diary)
    ensures insWatchlist == Counted(Watchlist, watchlist)
    ensures insWatched == Counted(Watched, watched)
    ensures insDiary == Counted(Diary, diary)
  {
    EnsureSchema(db);
    insWatchlist, insWatched, insDiary := 0, 0, 0;
    if watchlist.Some? {
      insWatchlist := LoadTable(db, Watchlist, watchlist.value);
    }
    if watched.Some? {
      insWatched := LoadTable(db, Watched, watched.value);
    }
    if diary.Some? {
      insDiary := LoadTable(db, Diary, diary.value);
    }
  }

  /** The tables after one optional CSV file is loaded, with the index in
      place and SQL's comparison of keys. */
  function Loaded(films: map<Table, seq<FilmRow>>, t: Table, csv: Option<seq<CsvRow>>): map<Table, seq<FilmRow>> {
    if csv.None? then films
    else films[t := LoadAll(if t in films then films[t] else [], t, true, false, csv.value)]
  }

  function Counted(t: Table, csv: Option<seq<CsvRow>>): nat {
    if csv.None? then 0 else |Named(t, csv.value)|
  }
}
