/** The MariaDB database the three programs share, as in-memory tables:
    the Letterboxd tables filled by the loader (`watchlist`, `watched`,
    `diary`), the title map and offer history written by the JustWatch
    mapper (`jw_title_map`, `jw_offers_history`) and the `film_details`
    table written by the enrichment step. Timestamps are whole seconds. */
module Store {
  import opened Text
  import opened Records

  /** How a title match was made (`matched_via`). */
  datatype Via = NameOnly | NameYear

  /** `matched_type`, and the `type` column of `film_details`. */
  datatype MediaType = Movie | Show

  /** The three Letterboxd export tables. */
  datatype Table = Watchlist | Watched | Diary

  /** A row of `watchlist`, `watched` or `diary`. `date` is `added_date`,
      `watched_date` or `logged_date` respectively; the last three fields are
      the diary's own and stay `None` in the other two tables (the diary's
      floating-point `rating` is not modelled). */
  datatype FilmRow = FilmRow(
    id: int,
    date: Option<string>,
    name: string,
    year: Option<int>,
    uri: Option<string>,
    rewatch: Option<int>,
    tags: Option<string>,
    watchedDate: Option<string>)

  /** The unique key of `jw_title_map`. */
  datatype MapKey = MapKey(source: string, sourceRowId: int)

  /** A row of `jw_title_map`; `filmId` is filled in by the enrichment step. */
  datatype MapRow = MapRow(
    entryId: Value,
    via: Via,
    confidence: int,
    matchedTitle: Value,
    matchedYear: Option<int>,
    matchedType: MediaType,
    lastCheckedAt: int,
    filmId: Option<int>)

  /** A row of `jw_offers_history`: the interval [validFrom, validTo) during
      which one provider offered one watchlist title; `validTo == None` is an
      open interval. */
  datatype HistoryRow = HistoryRow(
    watchlistId: int,
    entryId: Value,
    providerId: Value,
    providerName: Value,
    presentationType: Value,
    url: Value,
    validFrom: int,
    validTo: Option<int>)

  datatype Person = Person(id: Value, name: Value)

  datatype CastMember = CastMember(id: Value, name: Value, character: Value)

  /** A row of `film_details`; the JSON columns hold the lists themselves. */
  datatype DetailsRow = DetailsRow(
    id: int,
    kind: MediaType,
    title: Value,
    originalTitle: Value,
    year: Option<int>,
    releaseDate: Value,
    imdbId: Value,
    tmdbId: Value,
    jwEntryId: Value,
    genres: seq<Value>,
    runtime: Value,
    countries: seq<Value>,
    languages: seq<Value>,
    directors: seq<Person>,
    cast: seq<CastMember>,
    poster: Option<string>,
    backdrop: Option<string>,
    voteAverage: Value,
    voteCount: Value,
    boxOffice: Option<int>)

  class Database {
    var films: map<Table, seq<FilmRow>>
    /** The unique indexes: (table, index name) to its column list. */
    var uniqueIndexes: map<(string, string), string>
    var titleMap: map<MapKey, MapRow>
    var offersHistory: seq<HistoryRow>
    var filmDetails: seq<DetailsRow>

    /** The tables as `CREATE TABLE IF NOT EXISTS` leaves them on a new database. */
    constructor ()
      ensures films == map[Watchlist := [], Watched := [], Diary := []]
      ensures uniqueIndexes == map[] && titleMap == map[]
      ensures offersHistory == [] && filmDetails == []
    {
      films := map[Watchlist := [], Watched := [], Diary := []];
      uniqueIndexes := map[];
      titleMap := map[];
      offersHistory := [];
      filmDetails := [];
    }

    function Rows(t: Table): seq<FilmRow>
      reads this
    {
      if t in films then films[t] else []
    }
  }
}
