/** The enrichment step of enrich_details.py: each title-map row still
    without a `film_id` is looked up on TMDb, its details (and, optionally,
    its OMDb box office) are upserted into `film_details`, and the row found
    for them is written back into the title map. The HTTP calls are
    parameters: `tmdbGet(path, params)` is the decoded TMDb reply and
    `omdbGet(imdbId)` the decoded OMDb reply, `None` when the request or its
    decoding fails. */
module Enrich {
  import opened Text
  import opened Records
  import opened Store

  /** The TMDb media kind, `"movie"` or `"tv"`. */
  datatype Media = MovieMedia | TvMedia

  function MediaName(m: Media): string {
    if m == MovieMedia then "movie" else "tv"
  }

  /** A TMDb request: the path and the query parameters (the API key that
      `tmdb_get` adds is not modelled), answered with the decoded JSON. */
  type TmdbGet = (string, map<string, Value>) -> Record

  // ---------------------------------------------------------------- search

  /** `"movie" if (obj_type or "").upper() == "MOVIE" else "tv"`. */
  function MediaFor(objType: Value): Media {
    if Upper(AsString(Or(objType, Str("")))) == "MOVIE" then MovieMedia else TvMedia
  }

  /** The query parameters of the search: the title, and a truthy year under
      the name the media kind expects. */
  function SearchParams(title: string, year: Value, media: Media): (p: map<string, Value>)
    ensures p.Keys == {"query"} + (if !Truthy(year) then {} else if media == MovieMedia then {"year"} else {"first_air_date_year"})
    ensures p["query"] == Str(title)
    ensures forall k :: k in p && k != "query" ==> p[k] == year
  {
    if !Truthy(year) then map["query" := Str(title)]
    else if media == MovieMedia then map["query" := Str(title), "year" := year]
    else map["query" := Str(title), "first_air_date_year" := year]
  }

  function SearchPath(media: Media): string {
    "/search/" + MediaName(media)
  }

  /** `res[0]["id"] if res else None` for `res = js.get("results") or []`. */
  function FirstResultId(js: Record): (id: Value)
    ensures !Truthy(Get(js, "results")) ==> id == Null
    ensures Get(js, "results").List? && Get(js, "results").items != [] ==>
              id == Get(AsRecord(Get(js, "results").items[0]), "id")
  {
    var res := Or(Get(js, "results"), List([]));
    if res.List? && res.items != [] then Get(AsRecord(res.items[0]), "id") else Null
  }

  datatype Found = Found(tmdbId: Value, media: Media)

  /** `tmdb_search(title, year, obj_type)`. */
  function TmdbSearch(title: string, year: Value, objType: Value, tmdbGet: TmdbGet): (r: Found)
    ensures r.media == MovieMedia <==> Upper(AsString(Or(objType, Str("")))) == "MOVIE"
    ensures r.tmdbId == FirstResultId(tmdbGet(SearchPath(r.media), SearchParams(title, year, r.media)))
  {
    var media := MediaFor(objType);
    Found(FirstResultId(tmdbGet(SearchPath(media), SearchParams(title, year, media))), media)
  }

  // ---------------------------------------------------------------- bundle

  /** What `tmdb_bundle` returns. */
  datatype Bundle = Bundle(
    imdbId: Value,
    title: Value,
    originalTitle: Value,
    year: Option<int>,
    releaseDate: Value,
    genres: seq<Value>,
    runtime: Value,
    countries: seq<Value>,
    languages: seq<Value>,
    directors: seq<Person>,
    cast: seq<CastMember>,
    poster: Option<string>,
    backdrop: Option<string>,
    voteAverage: Value,
    voteCount: Value)

  /** A value iterated as `v or []`; anything but a list iterates as empty. */
  function Items(v: Value): seq<Value> {
    if v.List? then v.items else []
  }

  /** `x.get(key)` on an element of a JSON list. */
  function Field(x: Value, key: string): Value {
    Get(AsRecord(x), key)
  }

  /** `int((rdate or "")[:4]) if (rdate or "")[:4].isdigit() else None`. */
  function DateYear(rdate: Value): Option<int> {
    var p := Prefix(AsString(Or(rdate, Str(""))), 4);
    if IsDigits(p) then Some(DigitsValue(p)) else None
  }

  /** The year is there exactly when the first four characters are digits,
      and it is what `int()` reads from them. */
  lemma DateYearSpec(rdate: Value)
    ensures var p := Prefix(AsString(Or(rdate, Str(""))), 4);
            && (DateYear(rdate).Some? <==> IsDigits(p))
            && (IsDigits(p) ==> DateYear(rdate) == ParseInt(p))
  {
    var p := Prefix(AsString(Or(rdate, Str(""))), 4);
    if IsDigits(p) {
      ParseIntDigits(p);
    }
  }

  lemma FourDigits(y: nat)
    requires 1000 <= y <= 9999
    ensures |NatToString(y)| == 4
  {
    var a := y / 10;
    var b := a / 10;
    var c := b / 10;
    assert 100 <= a && 10 <= b && 1 <= c < 10;
    assert |NatToString(c)| == 1;
    assert |NatToString(b)| == |NatToString(c)| + 1;
    assert |NatToString(a)| == |NatToString(b)| + 1;
    assert |NatToString(y)| == |NatToString(a)| + 1;
  }

  /** A release date that starts with a four-digit year gives that year back. */
  lemma DateYearOfDate(y: nat, rest: string)
    requires 1000 <= y <= 9999
    ensures DateYear(Str(NatToString(y) + rest)) == Some(y)
  {
    var d := NatToString(y);
    FourDigits(y);
    DigitsValueOfNatToString(y);
    assert Prefix(d + rest, 4) == d;
  }

  /** A movie director has the job "Director"; a TV director any job that
      contains "Director". */
  predicate IsDirector(p: Value, media: Media) {
    if media == MovieMedia then Field(p, "job") == Str("Director")
    else Contains(AsString(Or(Field(p, "job"), Str(""))), "Director")
  }

  function PersonOf(p: Value): Person {
    Person(Field(p, "id"), Field(p, "name"))
  }

  /** The directors' comprehension over the crew. */
  function Directors(crew: seq<Value>, media: Media): (ds: seq<Person>)
    ensures |ds| <= |crew|
  {
    if crew == [] then []
    else
      var p := crew[|crew| - 1];
      Directors(crew[..|crew| - 1], media) + (if IsDirector(p, media) then [PersonOf(p)] else [])
  }

  /** The comprehension keeps the order of the crew list. */
  lemma {:induction false} DirectorsAppend(a: seq<Value>, b: seq<Value>, media: Media)
    ensures Directors(a + b, media) == Directors(a, media) + Directors(b, media)
    decreases |b|
  {
    if b != [] {
      var p := b[|b| - 1];
      assert (a + b)[..|a + b| - 1] == a + b[..|b| - 1];
      DirectorsAppend(a, b[..|b| - 1], media);
    } else {
      assert a + b == a;
    }
  }

  /** The directors are exactly the crew members whose job qualifies. */
  lemma {:induction false} DirectorsMembers(crew: seq<Value>, media: Media, q: Person)
    ensures q in Directors(crew, media) <==>
            exists i :: 0 <= i < |crew| && IsDirector(crew[i], media) && q == PersonOf(crew[i])
  {
    if crew != [] {
      var init := crew[..|crew| - 1];
      DirectorsMembers(init, media, q);
      assert forall i :: 0 <= i < |init| ==> init[i] == crew[i];
      if exists i :: 0 <= i < |crew| && IsDirector(crew[i], media) && q == PersonOf(crew[i]) {
        var i :| 0 <= i < |crew| && IsDirector(crew[i], media) && q == PersonOf(crew[i]);
        if i < |init| {
          assert IsDirector(init[i], media) && q == PersonOf(init[i]);
        }
      }
    }
  }

  /** Every movie director also counts as a TV director. */
  lemma MovieDirectorsAreTvDirectors(crew: seq<Value>, q: Person)
    requires q in Directors(crew, MovieMedia)
    ensures q in Directors(crew, TvMedia)
  {
    DirectorsMembers(crew, MovieMedia, q);
    DirectorsMembers(crew, TvMedia, q);
    var i :| 0 <= i < |crew| && IsDirector(crew[i], MovieMedia) && q == PersonOf(crew[i]);
    assert StartsWith("Director", "Director");
    assert IsDirector(crew[i], TvMedia);
  }

  const CastLimit := 10

  function CastMemberOf(c: Value): CastMember {
    CastMember(Field(c, "id"), Field(c, "name"), Field(c, "character"))
  }

  /** The first ten cast entries, in order. */
  function CastOf(cast: seq<Value>): (cs: seq<CastMember>)
    ensures |cs| == Min(CastLimit, |cast|)
    ensures forall i :: 0 <= i < |cs| ==> cs[i] == CastMemberOf(cast[i])
  {
    seq(Min(CastLimit, |cast|), i requires 0 <= i < Min(CastLimit, |cast|) => CastMemberOf(cast[i]))
  }

  /** `[x.get(key) for x in xs]`. */
  function Pluck(xs: seq<Value>, key: string): (r: seq<Value>)
    ensures |r| == |xs|
    ensures forall i :: 0 <= i < |xs| ==> r[i] == Field(xs[i], key)
  {
    seq(|xs|, i requires 0 <= i < |xs| => Field(xs[i], key))
  }

  const PosterBase := "https://image.tmdb.org/t/p/w500"
  const BackdropBase := "https://image.tmdb.org/t/p/w780"

  /** An image URL: the size prefix followed by the path, when a path is given. */
  function ImageUrl(base: string, path: Value): (u: Option<string>)
    ensures u.Some? <==> Truthy(path)
    ensures u.Some? ==> StartsWith(u.value, base) && u.value[|base|..] == PyStr(path)
  {
    if Truthy(path) then Some(base + PyStr(path)) else None
  }

  /** `core.get("runtime") or (core.get("episode_run_time") or [None])[0]`. */
  function Runtime(core: Record): (v: Value)
    ensures Truthy(Get(core, "runtime")) ==> v == Get(core, "runtime")
    ensures !Truthy(Get(core, "runtime")) && Items(Get(core, "episode_run_time")) != [] ==>
              v == Items(Get(core, "episode_run_time"))[0]
    ensures !Truthy(Get(core, "runtime")) && Items(Get(core, "episode_run_time")) == [] ==> v == Null
  {
    var episodes := Items(Or(Get(core, "episode_run_time"), List([Null])));
    Or(Get(core, "runtime"), if episodes != [] then episodes[0] else Null)
  }

  /** `tmdb_bundle`, given the decoded reply for the title's details. */
  function TmdbBundle(core: Record, media: Media): (b: Bundle)
    ensures b.year == DateYear(b.releaseDate)
    ensures Truthy(b.title) <==> Truthy(Get(core, "title")) || Truthy(Get(core, "name"))
    ensures |b.cast| <= CastLimit
    ensures b.poster.Some? <==> Truthy(Get(core, "poster_path"))
    ensures b.backdrop.Some? <==> Truthy(Get(core, "backdrop_path"))
  {
    var credits := AsRecord(Get(core, "credits"));
    var rdate := Or(Get(core, "release_date"), Get(core, "first_air_date"));
    Bundle(
      Get(AsRecord(Get(core, "external_ids")), "imdb_id"),
      Or(Get(core, "title"), Get(core, "name")),
      Or(Get(core, "original_title"), Get(core, "original_name")),
      DateYear(rdate),
      rdate,
      Pluck(Items(Get(core, "genres")), "name"),
      Runtime(core),
      Pluck(Items(Get(core, "production_countries")), "iso_3166_1"),
      Pluck(Items(Get(core, "spoken_languages")), "iso_639_1"),
      Directors(Items(Get(credits, "crew")), media),
      CastOf(Items(Get(credits, "cast"))),
      ImageUrl(PosterBase, Get(core, "poster_path")),
      ImageUrl(BackdropBase, Get(core, "backdrop_path")),
      Get(core, "vote_average"),
      Get(core, "vote_count"))
  }

  function DetailsPath(tmdbId: Value, media: Media): string {
    "/" + MediaName(media) + "/" + PyStr(tmdbId)
  }

  const DetailsParams: map<string, Value> := map["append_to_response" := Str("external_ids,credits,images")]

  // ------------------------------------------------------------ box office

  /** `s.replace(c, "")`. */
  function Without(s: string, c: char): string {
    if s == [] then []
    else (if s[0] == c then [] else [s[0]]) + Without(s[1..], c)
  }

  /** Removing a character drops every copy of it and keeps the rest. */
  lemma {:induction false} WithoutCounts(s: string, c: char)
    ensures multiset(Without(s, c)) == multiset(s)[c := 0]
    ensures c !in Without(s, c)
  {
    if s != [] {
      WithoutCounts(s[1..], c);
      assert s == [s[0]] + s[1..];
    }
  }

  lemma {:induction false} WithoutAppend(a: string, b: string, c: char)
    ensures Without(a + b, c) == Without(a, c) + Without(b, c)
  {
    if a != [] {
      assert (a + b)[1..] == a[1..] + b;
      WithoutAppend(a[1..], b, c);
    } else {
      assert a + b == b;
    }
  }

  lemma {:induction false} WithoutAbsent(s: string, c: char)
    requires forall i :: 0 <= i < |s| ==> s[i] != c
    ensures Without(s, c) == s
  {
    if s != [] {
      WithoutAbsent(s[1..], c);
    }
  }

  /** `(raw or "").replace("$","").replace(",","").strip()`. */
  function CleanAmount(raw: Value): string {
    Trim(Without(Without(AsString(Or(raw, Str(""))), '$'), ','))
  }

  /** `omdb_box_office(imdb_id)` given the configured key and the decoded
      reply; every failure of the request reads as `None`. */
  function BoxOffice(apiKey: Value, imdbId: Value, data: Option<Record>): (r: Option<int>)
    ensures r.Some? <==> && Truthy(apiKey) && Truthy(imdbId) && data.Some?
                         && Get(data.value, "Response") == Str("True")
                         && IsDigits(CleanAmount(Get(data.value, "BoxOffice")))
    ensures r.Some? ==> r.value >= 0
  {
    if !Truthy(apiKey) || !Truthy(imdbId) || data.None? then None
    else if Get(data.value, "Response") != Str("True") then None
    else
      var raw := CleanAmount(Get(data.value, "BoxOffice"));
      if IsDigits(raw) then Some(DigitsValue(raw)) else None
  }

  /** An amount, once found, is what `int()` reads from the cleaned text. */
  lemma BoxOfficeIsInt(apiKey: Value, imdbId: Value, data: Option<Record>)
    requires BoxOffice(apiKey, imdbId, data).Some?
    ensures BoxOffice(apiKey, imdbId, data) == ParseInt(CleanAmount(Get(data.value, "BoxOffice")))
  {
    ParseIntDigits(CleanAmount(Get(data.value, "BoxOffice")));
  }

  /** A digit string with a comma before every group of three from the
      right, as OMDb writes amounts. */
  function Grouped(d: string): string
    decreases |d|
  {
    if |d| <= 3 then d else Grouped(d[..|d| - 3]) + [','] + d[|d| - 3..]
  }

  lemma {:induction false} GroupedChars(d: string)
    requires AllDigits(d)
    ensures forall i :: 0 <= i < |Grouped(d)| ==> IsDigit(Grouped(d)[i]) || Grouped(d)[i] == ','
    decreases |d|
  {
    if |d| > 3 {
      var h, t := d[..|d| - 3], d[|d| - 3..];
      GroupedChars(h);
      var g := Grouped(h) + [','] + t;
      assert Grouped(d) == g;
      forall i | 0 <= i < |g|
        ensures IsDigit(g[i]) || g[i] == ','
      {
        if i < |Grouped(h)| {
          assert g[i] == Grouped(h)[i];
        } else if i > |Grouped(h)| {
          assert g[i] == t[i - |Grouped(h)| - 1];
        }
      }
    }
  }

  lemma DropComma(t: string)
    requires AllDigits(t)
    ensures Without([','] + t, ',') == t
  {
    assert ([','] + t)[1..] == t;
    WithoutAbsent(t, ',');
  }

  /** Dropping the commas gives the digits back. */
  lemma {:induction false} Ungroup(d: string)
    requires AllDigits(d)
    ensures Without(Grouped(d), ',') == d
    decreases |d|
  {
    if |d| <= 3 {
      WithoutAbsent(d, ',');
    } else {
      var h, t := d[..|d| - 3], d[|d| - 3..];
      assert d == h + t;
      Ungroup(h);
      var g := Grouped(h);
      assert Grouped(d) == g + ([','] + t);
      WithoutAppend(g, [','] + t, ',');
      DropComma(t);
      assert Without(Grouped(d), ',') == h + t;
    }
  }

  /** `$` and the grouped digits of a whole number of dollars. */
  function UsdAmount(n: nat): string {
    ['$'] + Grouped(NatToString(n))
  }

  lemma {:induction false} DropDollar(g: string)
    requires forall i :: 0 <= i < |g| ==> g[i] != '$'
    ensures Without(['$'] + g, '$') == g
  {
    assert (['$'] + g)[1..] == g;
    WithoutAbsent(g, '$');
  }

  lemma CleanUsd(n: nat)
    ensures CleanAmount(Str(UsdAmount(n))) == NatToString(n)
  {
    var d := NatToString(n);
    var g := Grouped(d);
    GroupedChars(d);
    DropDollar(g);
    Ungroup(d);
    var u := Without(Without(UsdAmount(n), '$'), ',');
    assert u == d;
    assert |UsdAmount(n)| > 0;
    assert Or(Str(UsdAmount(n)), Str("")) == Str(UsdAmount(n));
    assert CleanAmount(Str(UsdAmount(n))) == Trim(u);
    TrimDigits(d);
  }

  /** The parser reads back the amount OMDb formats. */
  lemma BoxOfficeReadsUsd(apiKey: Value, imdbId: Value, n: nat, data: Record)
    requires Truthy(apiKey) && Truthy(imdbId)
    requires Get(data, "Response") == Str("True") && Get(data, "BoxOffice") == Str(UsdAmount(n))
    ensures BoxOffice(apiKey, imdbId, Some(data)) == Some(n)
  {
    CleanUsd(n);
    DigitsValueOfNatToString(n);
  }

  /** A character that is neither a digit nor `$`, `,` or white space
      survives the cleaning, so the reply gives no amount. */
  lemma BoxOfficeNeedsDigits(apiKey: Value, imdbId: Value, data: Record, i: int)
    requires 0 <= i < |AsString(Get(data, "BoxOffice"))|
    requires var c := AsString(Get(data, "BoxOffice"))[i];
             !IsDigit(c) && c != '$' && c != ',' && !IsSpace(c)
    ensures BoxOffice(apiKey, imdbId, Some(data)) == None
  {
    var s := AsString(Get(data, "BoxOffice"));
    var c := s[i];
    assert Or(Get(data, "BoxOffice"), Str("")) == Get(data, "BoxOffice");
    var w1 := Without(s, '$');
    var w2 := Without(w1, ',');
    WithoutCounts(s, '$');
    WithoutCounts(w1, ',');
    assert c in multiset(s);
    assert c in multiset(w1);
    assert c in w2;
    var j :| 0 <= j < |w2| && w2[j] == c;
    TrimKeeps(w2, j);
    assert CleanAmount(Get(data, "BoxOffice")) == Trim(w2);
  }

  /** OMDb's "N/A" is no amount. */
  lemma BoxOfficeNotAvailable(apiKey: Value, imdbId: Value, data: Record)
    requires Get(data, "BoxOffice") == Str("N/A")
    ensures BoxOffice(apiKey, imdbId, Some(data)) == None
  {
    BoxOfficeNeedsDigits(apiKey, imdbId, data, 0);
  }

  // ------------------------------------------------------------ enrich_one

  /** A row of the enrichment's target query. */
  datatype Target = Target(
    source: string,
    sourceRowId: int,
    entryId: Value,
    matchedTitle: Value,
    matchedYear: Value,
    matchedType: Value)

  function TypeName(k: MediaType): string {
    if k == Movie then "MOVIE" else "SHOW"
  }

  /** The target row of a title-map entry, as the query returns it. */
  function TargetOf(key: MapKey, m: MapRow): Target {
    Target(key.source, key.sourceRowId, m.entryId, m.matchedTitle,
           if m.matchedYear.Some? then Int(m.matchedYear.value) else Null,
           Str(TypeName(m.matchedType)))
  }

  /** `(row.get("matched_type") or "MOVIE").upper()`. */
  function ObjType(matchedType: Value): string {
    Upper(AsString(Or(matchedType, Str("MOVIE"))))
  }

  /** The `type` stored in `film_details`. */
  function StoredKind(media: Media): MediaType {
    if media == MovieMedia then Movie else Show
  }

  /** A target is looked up as a movie exactly when its type, upper-cased,
      is "MOVIE", or when it has no type. */
  lemma ObjTypeMedia(t: Value)
    ensures StoredKind(MediaFor(Str(ObjType(t)))) == Movie <==> !Truthy(t) || Upper(AsString(t)) == "MOVIE"
  {
    var s := AsString(Or(t, Str("MOVIE")));
    assert ObjType(t) == Upper(s);
    MediaForUpper(s);
    MediaForStr(s);
    if !Truthy(t) {
      assert s == "MOVIE";
      MovieIsUpper();
    } else {
      assert s == AsString(t);
    }
  }

  lemma MovieIsUpper()
    ensures Upper("MOVIE") == "MOVIE"
  {
    UpperFixed("MOVIE");
  }

  lemma MediaForStr(s: string)
    ensures MediaFor(Str(s)) == MovieMedia <==> Upper(s) == "MOVIE"
  {
    assert AsString(Or(Str(s), Str(""))) == s;
  }

  /** An upper-cased type names the media it already named. */
  lemma MediaForUpper(s: string)
    ensures MediaFor(Str(Upper(s))) == MediaFor(Str(s))
  {
    UpperUpper(s);
    var u := Upper(s);
    assert AsString(Or(Str(u), Str(""))) == u;
    assert AsString(Or(Str(s), Str(""))) == s;
  }

  /** A title mapped with a type is stored with that type. */
  lemma KindRoundTrip(k: MediaType)
    ensures StoredKind(MediaFor(Str(ObjType(Str(TypeName(k)))))) == k
  {
    var n := TypeName(k);
    ObjTypeMedia(Str(n));
    if k == Movie {
      MovieIsUpper();
    } else {
      ShowIsUpper();
      assert n == "SHOW" && Upper(n) == n;
      assert n[0] != "MOVIE"[0];
    }
  }

  lemma ShowIsUpper()
    ensures Upper("SHOW") == "SHOW"
  {
    UpperFixed("SHOW");
  }

  /** The row `enrich_one` upserts; `id` is assigned by the table. */
  function DetailsOf(media: Media, b: Bundle, tmdbId: Value, entryId: Value, boxOffice: Option<int>): DetailsRow {
    DetailsRow(0, StoredKind(media), b.title, b.originalTitle, b.year, b.releaseDate, b.imdbId, tmdbId, entryId,
               b.genres, b.runtime, b.countries, b.languages, b.directors, b.cast, b.poster, b.backdrop,
               b.voteAverage, b.voteCount, boxOffice)
  }

  /** What `enrich_one` writes for a target, `None` when it returns early. */
  function Enrichment(t: Target, tmdbGet: TmdbGet, omdbKey: Value, omdbGet: Value -> Option<Record>): Option<DetailsRow> {
    var title := Trim(AsString(Or(t.matchedTitle, Str(""))));
    if title == "" then None
    else
      var found := TmdbSearch(title, t.matchedYear, Str(ObjType(t.matchedType)), tmdbGet);
      if !Truthy(found.tmdbId) then None
      else
        var b := TmdbBundle(tmdbGet(DetailsPath(found.tmdbId, found.media), DetailsParams), found.media);
        Some(DetailsOf(found.media, b, found.tmdbId, t.entryId, BoxOffice(omdbKey, b.imdbId, omdbGet(b.imdbId))))
  }

  /** Rows are skipped for an empty title and for a search without results;
      otherwise the row written carries the TMDb id found, the target's
      entry id and the type the target asked for. */
  lemma EnrichmentSpec(t: Target, tmdbGet: TmdbGet, omdbKey: Value, omdbGet: Value -> Option<Record>)
    ensures Trim(AsString(Or(t.matchedTitle, Str("")))) == "" ==> Enrichment(t, tmdbGet, omdbKey, omdbGet).None?
    ensures var e := Enrichment(t, tmdbGet, omdbKey, omdbGet);
            e.Some? ==> && Truthy(e.value.tmdbId)
                        && e.value.jwEntryId == t.entryId
                        && (e.value.kind == Movie <==> !Truthy(t.matchedType) || Upper(AsString(t.matchedType)) == "MOVIE")
                        && e.value.year == DateYear(e.value.releaseDate)
                        && |e.value.cast| <= CastLimit
  {
    ObjTypeMedia(t.matchedType);
  }

  /** `SQL_RESOLVE_FILM_ID`'s condition; a `None` parameter matches nothing. */
  predicate Matches(r: DetailsRow, imdbId: Value, tmdbId: Value, entryId: Value) {
    || (imdbId != Null && r.imdbId == imdbId)
    || (tmdbId != Null && r.tmdbId == tmdbId)
    || (entryId != Null && r.jwEntryId == entryId)
  }

  /** The first row holding a TMDb id: the row the upsert's duplicate key hits. */
  function FindTmdb(rows: seq<DetailsRow>, tmdbId: Value): (r: Option<nat>)
    ensures r.None? <==> forall i :: 0 <= i < |rows| ==> rows[i].tmdbId != tmdbId
    ensures r.Some? ==> r.value < |rows| && rows[r.value].tmdbId == tmdbId
                        && forall i :: 0 <= i < r.value ==> rows[i].tmdbId != tmdbId
  {
    if rows == [] then None
    else if rows[0].tmdbId == tmdbId then Some(0)
    else
      var r := FindTmdb(rows[1..], tmdbId);
      if r.None? then None else Some(r.value + 1)
  }

  function MaxId(rows: seq<DetailsRow>): (m: int)
    ensures forall i :: 0 <= i < |rows| ==> rows[i].id <= m
  {
    if rows == [] then 0 else Max(rows[0].id, MaxId(rows[1..]))
  }

  /** The `AUTO_INCREMENT` id of an inserted row. */
  function NextId(rows: seq<DetailsRow>): int {
    MaxId(rows) + 1
  }

  /** `INSERT ... ON DUPLICATE KEY UPDATE` with `tmdb_id` as the key: the
      row with the same TMDb id takes every new value but keeps its id; with
      no such row the new one is appended under a fresh id. */
  function UpsertDetails(rows: seq<DetailsRow>, d: DetailsRow): seq<DetailsRow> {
    var k := FindTmdb(rows, d.tmdbId);
    if k.Some? then rows[k.value := d.(id := rows[k.value].id)] else rows + [d.(id := NextId(rows))]
  }

  predicate IdsUnique(rows: seq<DetailsRow>) {
    forall i, j :: 0 <= i < j < |rows| ==> rows[i].id != rows[j].id
  }

  predicate TmdbIdsUnique(rows: seq<DetailsRow>) {
    forall i, j :: 0 <= i < j < |rows| ==> rows[i].tmdbId != rows[j].tmdbId
  }

  /** What the upsert leaves: one row more exactly when the TMDb id was new;
      the row for the TMDb id holds the new values; all other rows are
      untouched; both ids and TMDb ids stay unique. */
  lemma UpsertDetailsSpec(rows: seq<DetailsRow>, d: DetailsRow)
    requires IdsUnique(rows) && TmdbIdsUnique(rows)
    ensures var r := UpsertDetails(rows, d);
            && IdsUnique(r) && TmdbIdsUnique(r)
            && (|r| == |rows| + 1 <==> forall i :: 0 <= i < |rows| ==> rows[i].tmdbId != d.tmdbId)
            && |rows| <= |r| <= |rows| + 1
            && (exists k :: 0 <= k < |r| && r[k] == d.(id := r[k].id))
            && (forall i :: 0 <= i < |rows| && rows[i].tmdbId != d.tmdbId ==> r[i] == rows[i])
  {
    var r := UpsertDetails(rows, d);
    var k := FindTmdb(rows, d.tmdbId);
    if k.Some? {
      assert r[k.value] == d.(id := r[k.value].id);
    } else {
      assert r[|rows|] == d.(id := r[|rows|].id);
    }
  }

  /** Enriching the same title twice leaves what enriching it once left. */
  lemma UpsertDetailsIdempotent(rows: seq<DetailsRow>, d: DetailsRow)
    ensures UpsertDetails(UpsertDetails(rows, d), d) == UpsertDetails(rows, d)
  {
    var r := UpsertDetails(rows, d);
    var k := FindTmdb(rows, d.tmdbId);
    var k2 := FindTmdb(r, d.tmdbId);
    if k.Some? {
      assert r[k.value].tmdbId == d.tmdbId;
      assert forall i :: 0 <= i < k.value ==> r[i] == rows[i];
      assert k2 == k;
    } else {
      assert r[|rows|].tmdbId == d.tmdbId;
      assert forall i :: 0 <= i < |rows| ==> r[i] == rows[i];
      assert k2 == Some(|rows|);
    }
  }

  /** After the upsert the id lookup always finds a row, so the "SELECT id
      failed" branch of `enrich_one` cannot be taken. */
  lemma UpsertedRowIsFound(rows: seq<DetailsRow>, d: DetailsRow)
    requires d.tmdbId != Null
    ensures exists i :: 0 <= i < |UpsertDetails(rows, d)| && Matches(UpsertDetails(rows, d)[i], d.imdbId, d.tmdbId, d.jwEntryId)
  {
    var r := UpsertDetails(rows, d);
    var k := FindTmdb(rows, d.tmdbId);
    var i := if k.Some? then k.value else |rows|;
    assert r[i].tmdbId == d.tmdbId;
  }

  /** `SQL_SET_MAP_FILM_ID`: the film id of one title-map row, if it exists. */
  function SetFilmId(m: map<MapKey, MapRow>, key: MapKey, filmId: int): (r: map<MapKey, MapRow>)
    ensures r.Keys == m.Keys
    ensures forall k :: k in m && k != key ==> r[k] == m[k]
    ensures key in m ==> r[key] == m[key].(filmId := Some(filmId))
  {
    if key in m then m[key := m[key].(filmId := Some(filmId))] else m
  }

  /** The upsert, the id lookup and the write-back of `enrich_one`. The
      lookup's `LIMIT 1` has no order, so the film id written back is that
      of any row the lookup matches. */
  method StoreDetails(db: Database, d: DetailsRow, key: MapKey)
    requires d.tmdbId != Null
    modifies db`filmDetails, db`titleMap
    ensures db.filmDetails == UpsertDetails(old(db.filmDetails), d)
    ensures exists i :: && 0 <= i < |db.filmDetails|
                        && Matches(db.filmDetails[i], d.imdbId, d.tmdbId, d.jwEntryId)
                        && db.titleMap == SetFilmId(old(db.titleMap), key, db.filmDetails[i].id)
  {
    db.filmDetails := UpsertDetails(db.filmDetails, d);
    UpsertedRowIsFound(old(db.filmDetails), d);
    var rows := db.filmDetails;
    var i :| 0 <= i < |rows| && Matches(rows[i], d.imdbId, d.tmdbId, d.jwEntryId);
    db.titleMap := SetFilmId(db.titleMap, key, rows[i].id);
  }

  /** `enrich_one(conn, row)`: returns early for an empty title or a search
      without results, else stores the details found. */
  method EnrichOne(db: Database, t: Target, tmdbGet: TmdbGet, omdbKey: Value, omdbGet: Value -> Option<Record>)
    modifies db`filmDetails, db`titleMap
    ensures var e := Enrichment(t, tmdbGet, omdbKey, omdbGet);
            e.None? ==> db.filmDetails == old(db.filmDetails) && db.titleMap == old(db.titleMap)
    ensures var e := Enrichment(t, tmdbGet, omdbKey, omdbGet);
            e.Some? ==> && db.filmDetails == UpsertDetails(old(db.filmDetails), e.value)
                        && exists i :: && 0 <= i < |db.filmDetails|
                                       && Matches(db.filmDetails[i], e.value.imdbId, e.value.tmdbId, t.entryId)
                                       && db.titleMap == SetFilmId(old(db.titleMap), MapKey(t.source, t.sourceRowId), db.filmDetails[i].id)
  {
    var title := Trim(AsString(Or(t.matchedTitle, Str(""))));
    if title == "" {
      return;
    }
    var found := TmdbSearch(title, t.matchedYear, Str(ObjType(t.matchedType)), tmdbGet);
    if !Truthy(found.tmdbId) {
      return;
    }
    var b := TmdbBundle(tmdbGet(DetailsPath(found.tmdbId, found.media), DetailsParams), found.media);
    var boxOffice := BoxOffice(omdbKey, b.imdbId, omdbGet(b.imdbId));
    var d := DetailsOf(found.media, b, found.tmdbId, t.entryId, boxOffice);
    assert Enrichment(t, tmdbGet, omdbKey, omdbGet) == Some(d);
    StoreDetails(db, d, MapKey(t.source, t.sourceRowId));
  }
}
