/**
 The selection and shaping step of the two periodic sync tasks
 (`run_sync_movies`, `run_sync_series`): from the fetched list keep the items
 of one kind, keep those whose year lies in the configured range and whose
 rating reaches the configured minimum, and build for each survivor the
 creation record that is posted to the movie manager (Radarr) or to the
 series manager (Sonarr). Fetching the list and posting the records are
 network calls and are not modelled; the records themselves are the output.
 */
module Tasks {
  import Sequences
  import Slugs

  /** One entry of the fetched list, with every key the tasks read. */
  datatype Item = Item(
    title: string,
    kind: string,   // the entry's 'type'
    year: int,
    rating: real,
    tmdbId: int,    // 'tmdb_id', read for movies
    tvdbId: int     // 'tvdb_id', read for series
  )

  const MovieKind: string := "movie"
  const SeriesKind: string := "series"

  predicate IsMovie(it: Item) { it.kind == MovieKind }
  predicate IsSeries(it: Item) { it.kind == SeriesKind }

  /** The retention test of both filters: the year lies in the closed range
      [minYear, maxYear] and the rating is at least minRating. */
  predicate Eligible(it: Item, minYear: int, maxYear: int, minRating: real) {
    minYear <= it.year <= maxYear && it.rating >= minRating
  }

  /** `Eligible` with the configured bounds fixed, as a predicate on items. */
  function Criteria(minYear: int, maxYear: int, minRating: real): (p: Item -> bool)
    ensures forall it :: p(it) == Eligible(it, minYear, maxYear, minRating)
  {
    it => Eligible(it, minYear, maxYear, minRating)
  }

  // ---------------------------------------------------------------------------
  // Kind selection

  /** The movie entries of the fetched list, in list order. */
  function SelectMovies(list: seq<Item>): (movies: seq<Item>)
    ensures forall i :: 0 <= i < |movies| ==> movies[i].kind == MovieKind
    ensures forall it :: multiset(movies)[it] == if it.kind == MovieKind then multiset(list)[it] else 0
    ensures Sequences.IsSubsequence(movies, list)
  {
    Sequences.FilterIsSubsequence(IsMovie, list);
    Sequences.Filter(IsMovie, list)
  }

  /** The series entries of the fetched list, in list order. */
  function SelectSeries(list: seq<Item>): (series: seq<Item>)
    ensures forall i :: 0 <= i < |series| ==> series[i].kind == SeriesKind
    ensures forall it :: multiset(series)[it] == if it.kind == SeriesKind then multiset(list)[it] else 0
    ensures Sequences.IsSubsequence(series, list)
  {
    Sequences.FilterIsSubsequence(IsSeries, list);
    Sequences.Filter(IsSeries, list)
  }

  /** No entry is both a movie and a series: the two selections share nothing. */
  lemma SelectionsDisjoint(list: seq<Item>)
    ensures multiset(SelectMovies(list)) !! multiset(SelectSeries(list))
  {
    var m, s := multiset(SelectMovies(list)), multiset(SelectSeries(list));
    forall it | it in m
      ensures it !in s
    {
      assert m[it] > 0;
    }
  }

  // ---------------------------------------------------------------------------
  // Range and threshold filters

  /** The movies whose year lies in [minYear, maxYear] and whose rating is at
      least minRating: every kept movie passes the test, every movie that
      passes it is kept as often as it occurs, and the order is the input's. */
  function FilterMovies(movies: seq<Item>, minYear: int, maxYear: int, minRating: real): (r: seq<Item>)
    ensures forall i :: 0 <= i < |r| ==>
              minYear <= r[i].year <= maxYear && r[i].rating >= minRating
    ensures forall it :: multiset(r)[it] ==
              if minYear <= it.year <= maxYear && it.rating >= minRating then multiset(movies)[it] else 0
    ensures Sequences.IsSubsequence(r, movies)
  {
    Sequences.FilterIsSubsequence(Criteria(minYear, maxYear, minRating), movies);
    Sequences.Filter(Criteria(minYear, maxYear, minRating), movies)
  }

  /** The series counterpart of FilterMovies, with the same retention test. */
  function FilterSeries(series: seq<Item>, minYear: int, maxYear: int, minRating: real): (r: seq<Item>)
    ensures forall i :: 0 <= i < |r| ==>
              minYear <= r[i].year <= maxYear && r[i].rating >= minRating
    ensures forall it :: multiset(r)[it] ==
              if minYear <= it.year <= maxYear && it.rating >= minRating then multiset(series)[it] else 0
    ensures Sequences.IsSubsequence(r, series)
  {
    Sequences.FilterIsSubsequence(Criteria(minYear, maxYear, minRating), series);
    Sequences.Filter(Criteria(minYear, maxYear, minRating), series)
  }

  /** The two filters compute the same function. */
  lemma FilterSeriesIsFilterMovies(items: seq<Item>, minYear: int, maxYear: int, minRating: real)
    ensures FilterSeries(items, minYear, maxYear, minRating) == FilterMovies(items, minYear, maxYear, minRating)
  {
  }

  /** The number of kept movies is the number of eligible movies. */
  lemma FilterMoviesLength(movies: seq<Item>, minYear: int, maxYear: int, minRating: real)
    ensures |FilterMovies(movies, minYear, maxYear, minRating)|
            == Sequences.Count(Criteria(minYear, maxYear, minRating), movies)
  {
    Sequences.FilterLength(Criteria(minYear, maxYear, minRating), movies);
  }

  /** The three properties of FilterMovies determine its result: any
      order-preserving selection of eligible movies that is as long as the
      number of eligible movies is the filter's result. */
  lemma FilterMoviesUnique(movies: seq<Item>, minYear: int, maxYear: int, minRating: real, r: seq<Item>)
    requires Sequences.IsSubsequence(r, movies)
    requires forall i :: 0 <= i < |r| ==> Eligible(r[i], minYear, maxYear, minRating)
    requires |r| == Sequences.Count(Criteria(minYear, maxYear, minRating), movies)
    ensures r == FilterMovies(movies, minYear, maxYear, minRating)
  {
    Sequences.FilterUnique(Criteria(minYear, maxYear, minRating), r, movies);
  }

  /** Filtering an already filtered list with the same bounds changes nothing. */
  lemma FilterMoviesIdempotent(movies: seq<Item>, minYear: int, maxYear: int, minRating: real)
    ensures var once := FilterMovies(movies, minYear, maxYear, minRating);
            FilterMovies(once, minYear, maxYear, minRating) == once
  {
    Sequences.FilterIdempotent(Criteria(minYear, maxYear, minRating), movies);
  }

  /** An empty year range keeps nothing. */
  lemma FilterMoviesEmptyRange(movies: seq<Item>, minYear: int, maxYear: int, minRating: real)
    requires minYear > maxYear
    ensures FilterMovies(movies, minYear, maxYear, minRating) == []
  {
    Sequences.FilterKeepsNone(Criteria(minYear, maxYear, minRating), movies);
  }

  /** Filtering with wide bounds and then with narrower ones is filtering with
      the narrower ones alone. */
  lemma FilterMoviesNarrowing(movies: seq<Item>,
                              minYear: int, maxYear: int, minRating: real,
                              minYear': int, maxYear': int, minRating': real)
    requires minYear <= minYear' && maxYear' <= maxYear && minRating <= minRating'
    ensures FilterMovies(FilterMovies(movies, minYear, maxYear, minRating), minYear', maxYear', minRating')
            == FilterMovies(movies, minYear', maxYear', minRating')
  {
    var wide, narrow := Criteria(minYear, maxYear, minRating), Criteria(minYear', maxYear', minRating');
    Sequences.FilterFilter(wide, narrow, movies);
    Sequences.FilterExtensional(Sequences.And(wide, narrow), narrow, movies);
  }

  // ---------------------------------------------------------------------------
  // Creation records

  const QualityProfileId: int := 1
  const MoviesRootFolder: string := "/movies"
  const SeriesRootFolder: string := "/series"

  datatype MovieAddOptions = MovieAddOptions(searchForMovie: bool)

  /** The record posted to the movie manager. */
  datatype MoviePayload = MoviePayload(
    title: string,
    year: int,
    tmdbId: int,
    qualityProfileId: int,
    titleSlug: string,
    monitored: bool,
    rootFolderPath: string,
    addOptions: MovieAddOptions
  )

  datatype SeriesAddOptions = SeriesAddOptions(searchForSeries: bool)

  /** The record posted to the series manager. */
  datatype SeriesPayload = SeriesPayload(
    title: string,
    year: int,
    tvdbId: int,
    qualityProfileId: int,
    titleSlug: string,
    monitored: bool,
    rootFolderPath: string,
    addOptions: SeriesAddOptions
  )

  /** The movie creation record: the movie's title, year and catalogue id
      unchanged, the slug of the title, quality profile 1, monitored, under
      the movies root folder, with search on add. The last clause, the slug's
      length and absence of spaces, is a consequence of the slug clause and
      TitleSlug's contract, stated for callers. */
  function RadarrPayload(movie: Item): (p: MoviePayload)
    ensures p.title == movie.title && p.year == movie.year && p.tmdbId == movie.tmdbId
    ensures p.qualityProfileId == QualityProfileId && p.monitored
    ensures p.rootFolderPath == MoviesRootFolder && p.addOptions.searchForMovie
    ensures p.titleSlug == Slugs.TitleSlug(movie.title)
    ensures |p.titleSlug| == |movie.title| && ' ' !in p.titleSlug
  {
    MoviePayload(movie.title, movie.year, movie.tmdbId, QualityProfileId,
                 Slugs.TitleSlug(movie.title), true, MoviesRootFolder, MovieAddOptions(true))
  }

  /** The series creation record: as for movies, with the series catalogue id,
      the series root folder and search-for-series on add. The last clause is
      again a consequence of the slug clause, stated for callers. */
  function SonarrPayload(serie: Item): (p: SeriesPayload)
    ensures p.title == serie.title && p.year == serie.year && p.tvdbId == serie.tvdbId
    ensures p.qualityProfileId == QualityProfileId && p.monitored
    ensures p.rootFolderPath == SeriesRootFolder && p.addOptions.searchForSeries
    ensures p.titleSlug == Slugs.TitleSlug(serie.title)
    ensures |p.titleSlug| == |serie.title| && ' ' !in p.titleSlug
  {
    SeriesPayload(serie.title, serie.year, serie.tvdbId, QualityProfileId,
                  Slugs.TitleSlug(serie.title), true, SeriesRootFolder, SeriesAddOptions(true))
  }

  /** A movie record depends on the title, year and movie id and on nothing
      else: the rating, kind and series id of the entry do not reach it. */
  lemma RadarrPayloadDeterminedBy(a: Item, b: Item)
    ensures RadarrPayload(a) == RadarrPayload(b) <==>
            a.title == b.title && a.year == b.year && a.tmdbId == b.tmdbId
  {
  }

  /** A series record depends on the title, year and series id only. */
  lemma SonarrPayloadDeterminedBy(a: Item, b: Item)
    ensures SonarrPayload(a) == SonarrPayload(b) <==>
            a.title == b.title && a.year == b.year && a.tvdbId == b.tvdbId
  {
  }

  // ---------------------------------------------------------------------------
  // The selection and shaping step of the two sync tasks

  /** The two-stage movie pipeline (select movies, then filter) is one pass
      over the list with the combined test. */
  lemma MoviePipelineSinglePass(list: seq<Item>, minYear: int, maxYear: int, minRating: real)
    ensures FilterMovies(SelectMovies(list), minYear, maxYear, minRating)
            == Sequences.Filter(Sequences.And(IsMovie, Criteria(minYear, maxYear, minRating)), list)
  {
    Sequences.FilterFilter(IsMovie, Criteria(minYear, maxYear, minRating), list);
  }

  /** The two-stage series pipeline is one pass with the combined test. */
  lemma SeriesPipelineSinglePass(list: seq<Item>, minYear: int, maxYear: int, minRating: real)
    ensures FilterSeries(SelectSeries(list), minYear, maxYear, minRating)
            == Sequences.Filter(Sequences.And(IsSeries, Criteria(minYear, maxYear, minRating)), list)
  {
    Sequences.FilterFilter(IsSeries, Criteria(minYear, maxYear, minRating), list);
  }

  /** The records the movie task hands to the workers that post them, in list
      order. Every record comes from a movie entry of the list that passes the
      movie filter, every such entry has its record among them, and the
      records are those of the matching entries, one per position, in list
      order. */
  function SyncMoviePayloads(list: seq<Item>, minYear: int, maxYear: int, minRating: real): (payloads: seq<MoviePayload>)
    ensures forall p :: p in payloads ==>
              exists it :: it in list && IsMovie(it) && Eligible(it, minYear, maxYear, minRating)
                           && p == RadarrPayload(it)
    ensures forall it :: it in list && IsMovie(it) && Eligible(it, minYear, maxYear, minRating)
              ==> RadarrPayload(it) in payloads
    ensures |payloads| == Sequences.Count(Sequences.And(IsMovie, Criteria(minYear, maxYear, minRating)), list)
    ensures payloads == Sequences.Map(RadarrPayload,
                          Sequences.Filter(Sequences.And(IsMovie, Criteria(minYear, maxYear, minRating)), list))
  {
    MoviePipelineSinglePass(list, minYear, maxYear, minRating);
    Sequences.MapFilterMembers(RadarrPayload, Sequences.And(IsMovie, Criteria(minYear, maxYear, minRating)), list);
    Sequences.Map(RadarrPayload, FilterMovies(SelectMovies(list), minYear, maxYear, minRating))
  }

  /** The records the series task hands to the workers that post them, with
      the same exactness as for movies. */
  function SyncSeriesPayloads(list: seq<Item>, minYear: int, maxYear: int, minRating: real): (payloads: seq<SeriesPayload>)
    ensures forall p :: p in payloads ==>
              exists it :: it in list && IsSeries(it) && Eligible(it, minYear, maxYear, minRating)
                           && p == SonarrPayload(it)
    ensures forall it :: it in list && IsSeries(it) && Eligible(it, minYear, maxYear, minRating)
              ==> SonarrPayload(it) in payloads
    ensures |payloads| == Sequences.Count(Sequences.And(IsSeries, Criteria(minYear, maxYear, minRating)), list)
    ensures payloads == Sequences.Map(SonarrPayload,
                          Sequences.Filter(Sequences.And(IsSeries, Criteria(minYear, maxYear, minRating)), list))
  {
    SeriesPipelineSinglePass(list, minYear, maxYear, minRating);
    Sequences.MapFilterMembers(SonarrPayload, Sequences.And(IsSeries, Criteria(minYear, maxYear, minRating)), list);
    Sequences.Map(SonarrPayload, FilterSeries(SelectSeries(list), minYear, maxYear, minRating))
  }

  /** A worked case: of two movies from 2020 and 2019 rated 8.5 and 5.0, with
      years 2000..2025 and minimum rating 7.0, only the first is posted. */
  lemma SyncMoviesExample()
    ensures var a := Item("Movie A", MovieKind, 2020, 8.5, 1, 0);
            var b := Item("Movie B", MovieKind, 2019, 5.0, 2, 0);
            var payloads := SyncMoviePayloads([a, b], 2000, 2025, 7.0);
            |payloads| == 1 && payloads[0] == RadarrPayload(a)
  {
    var a := Item("Movie A", MovieKind, 2020, 8.5, 1, 0);
    var b := Item("Movie B", MovieKind, 2019, 5.0, 2, 0);
    var crit := Criteria(2000, 2025, 7.0);
    assert [a, b][1..] == [b] && [b][1..] == [];
    assert Sequences.Filter(IsMovie, [b]) == [b];
    assert SelectMovies([a, b]) == [a, b];
    assert !crit(b);
    assert Sequences.Filter(crit, [b]) == [];
    assert crit(a);
    assert FilterMovies([a, b], 2000, 2025, 7.0) == [a];
  }
}
