# imdb_importer sync step, modelled in Dafny

Every twelve hours, or when triggered from its web form, the importer fetches
the IMDb list at the configured URL.
It posts every entry of the right kind that passes the year and rating filter
to one of two media managers: Radarr for movies, Sonarr for series. Each of its two
sync tasks (`run_sync_movies`, `run_sync_series` in `tasks.py`) does the same
pure work between the fetch and the posts:

1. **Kind selection**: keep the list entries whose `type` is `"movie"`
   (or `"series"`).
2. **Range and threshold filter** (`filter_movies`, `filter_series`): keep the
   entries with `min_year <= year <= max_year` and `rating >= min_rating`, in
   list order.
3. **Creation record** (`add_to_radarr`, `add_to_sonarr`): for each survivor,
   build the record to post. It holds the title, year and catalogue id
   (`tmdbId` for movies, `tvdbId` for series), quality profile 1, `monitored`,
   a fixed root folder (`/movies` or `/series`), a search-on-add flag and
   `titleSlug`. The slug is the title lower-cased with every space replaced by
   `-`.

The project models these three stages and proves what they promise.

- `sequences.dfy` (module `Sequences`): the list comprehension as `Filter`,
  `executor.map` as `Map`, and generic facts about them. The filter's output
  is a subsequence of its input. It is sound and complete with multiplicities,
  and it is the only sequence with those properties. It is also idempotent and
  composes.
- `slugs.dfy` (module `Slugs`): the slug, with ASCII lower-casing.
- `tasks.dfy` (module `Tasks`): the list entry `Item`, the two selections, the
  two filters, the two creation records, and the pure part of each sync task.
  That part is the sequence of records handed to the posting workers.

`tasks.py` has no exclusion list, no existence check before creating and no
duplicate handling. Every entry of the task's kind must have a year, and
every record is posted without a check.

## Model

| member | source | states |
|---|---|---|
| Sequences.Filter | tasks.py:63 | The comprehension `[x for x in s if p(x)]`. Every kept element satisfies `p`. Each element satisfying `p` is kept exactly as often as it occurs in the input, and no other element is kept. The output is no longer than the input. |
| Sequences.FilterIsSubsequence | tasks.py:63 | The kept elements occur in the input in the same relative order (a subsequence). |
| Sequences.FilterLength | tasks.py:63 | The output length equals the number of input positions that satisfy the test. |
| Sequences.FilterKeepsAll | tasks.py:63 | A list whose elements all pass the test comes back unchanged. |
| Sequences.FilterKeepsNone | tasks.py:63 | A list none of whose elements passes the test comes back empty. |
| Sequences.FilterIdempotent | tasks.py:63 | Filtering twice with the same test equals filtering once. |
| Sequences.FilterExtensional | tasks.py:62-66 | Two tests that agree on every element give the same output. |
| Sequences.FilterFilter | tasks.py:35-36 | Filtering by one comprehension and then by another equals one pass with the conjunction of both tests. |
| Sequences.KeptSubsequenceBound | tasks.py:63 | A subsequence of the input made only of passing elements is at most as long as the number of passing input positions. |
| Sequences.FilterUnique | tasks.py:63 | Being a subsequence, all-passing and of the right length determines the filter's output uniquely (a reference definition the comprehension meets). |
| Sequences.Map | tasks.py:39 | `executor.map(f, s)` as a sequence: one result per element, the i-th result being `f` of the i-th element. |
| Sequences.MapFilterMembers | tasks.py:36-39 | Every mapped result comes from a passing input element. Every passing input element has its result in the output. There is one result per passing position. |
| Slugs.LowerChar | tasks.py:74 | `lower()` on one character, ASCII only: the result is never an upper-case ASCII letter. A capital letter moves to its small letter. Any other character is unchanged. |
| Slugs.Lower | tasks.py:74 | `title.lower()`: same length, and position by position the lower-cased character. |
| Slugs.ReplaceSpaces | tasks.py:74 | `.replace(' ', '-')`: same length, every space becomes `-`, every other character is unchanged. |
| Slugs.TitleSlug | tasks.py:74 | The slug has the title's length. It contains no space and no ASCII capital. At each position it holds the title's character, with a space turned into `-` and a capital into its small letter. |
| Slugs.SlugFixedPoint | tasks.py:74 | A title is its own slug if and only if it has no space and no ASCII capital. |
| Slugs.SlugIdempotent | tasks.py:74 | The slug of a slug is the slug. |
| Slugs.TitleSlugExample | tasks.py:74 | The slug of `"Movie A"` is `"movie-a"`. |
| Tasks.Criteria | tasks.py:63 | The definition of the filters' test, written as a predicate on entries: `min_year <= year <= max_year` and `rating >= min_rating`. Its contract only ties it to `Eligible`, the same condition as a predicate with the bounds as arguments. |
| Tasks.SelectMovies | tasks.py:35 | Keeps exactly the entries whose type is `"movie"`, each as often as it occurs, in list order (a subsequence of the list). |
| Tasks.SelectSeries | tasks.py:52 | Keeps exactly the entries whose type is `"series"`, each as often as it occurs, in list order. |
| Tasks.SelectionsDisjoint | tasks.py:35-52 | No entry is selected by both tasks. |
| Tasks.FilterMovies | tasks.py:62-63 | Soundness: every kept movie has its year in `[min_year, max_year]` and its rating at least `min_rating`. Completeness: every movie passing the test is kept as often as it occurs. The output is a subsequence of the input. |
| Tasks.FilterSeries | tasks.py:65-66 | The same three properties for series. |
| Tasks.FilterSeriesIsFilterMovies | tasks.py:62-66 | `filter_series` and `filter_movies` return the same list on the same arguments. |
| Tasks.FilterMoviesLength | tasks.py:63 | The number of kept movies equals the number of input movies that pass the test. |
| Tasks.FilterMoviesUnique | tasks.py:63 | Any order-preserving selection of passing movies that is as long as the number of passing movies equals the filter's output. |
| Tasks.FilterMoviesIdempotent | tasks.py:63 | Filtering an already filtered list with the same bounds returns it unchanged. |
| Tasks.FilterMoviesEmptyRange | tasks.py:63 | When `min_year > max_year` the result is empty. |
| Tasks.FilterMoviesNarrowing | tasks.py:63 | Filtering with wide bounds and then with narrower ones equals filtering with the narrower ones alone. |
| Tasks.RadarrPayload | tasks.py:69-80 | The movie record carries the entry's title, year and `tmdb_id` unchanged. Its `titleSlug` is `TitleSlug` of the title, whose contract gives the content at every position. It has `qualityProfileId = 1`, `monitored`, root folder `/movies` and `searchForMovie`. |
| Tasks.SonarrPayload | tasks.py:86-97 | The series record carries title, year and `tvdb_id` unchanged. Its `titleSlug` is `TitleSlug` of the title. It has `qualityProfileId = 1`, `monitored`, root folder `/series` and `searchForSeries`. |
| Tasks.RadarrPayloadDeterminedBy | tasks.py:69-80 | Two entries give the same movie record if and only if they agree on title, year and `tmdb_id`. Rating, type and `tvdb_id` do not reach it. |
| Tasks.SonarrPayloadDeterminedBy | tasks.py:86-97 | Two entries give the same series record if and only if they agree on title, year and `tvdb_id`. |
| Tasks.MoviePipelineSinglePass | tasks.py:35-36 | Selecting movies and then filtering equals one pass over the list with "is a movie and passes the test". |
| Tasks.SeriesPipelineSinglePass | tasks.py:52-53 | The same for series. |
| Tasks.SyncMoviePayloads | tasks.py:33-39 | The movie task's records equal one pass over the fetched list: keep the entries that are movies and pass the filter, then build each one's record, in list order. An entry occurring twice is posted twice. Consequences also stated: each record comes from such an entry, every such entry has its record, and the count equals the number of such entries. |
| Tasks.SyncSeriesPayloads | tasks.py:50-56 | The same for the series task: one pass over the list keeping series entries that pass the filter, one record per kept position, in list order. |
| Tasks.SyncMoviesExample | tasks.py:33-39 | Two movies are given, from 2020 rated 8.5 and from 2019 rated 5.0. With years 2000 to 2025 and minimum rating 7.0, only the first one's record is produced. |

## Left out

- Fetching the list (`requests.get`, tasks.py:58-60) and posting the records with their returned status codes (tasks.py:81-83, 98-100) are network I/O. The list is a parameter, and the records are the output.
- The Celery app, the twelve-hour beat schedule and the task decorators (tasks.py:7-18, 24, 41) are scheduler configuration.
- Reading `config.json` (tasks.py:20-31, 43-48): the bounds are parameters.
- The `ThreadPoolExecutor` fan-out (tasks.py:38-39, 55-56) is left out: the posts run concurrently in an unspecified order, and their results are discarded. The model gives the records in list order.
- The web front end in `app.py` (form parsing, flash messages, `.delay()` triggers) is not part of this model.
- Slugs.LowerChar: lower-cases ASCII letters only. Python's `str.lower()` also maps non-ASCII capitals, sometimes to more than one character. Under this model the slug always has the title's length.
- Tasks.Item: every key the tasks read is present; missing keys are not modelled. In the source they fail in two different ways:
  - A missing `type`, or a missing `year` on an entry of the task's kind, raises `KeyError` in the task itself and ends the run before any post (tasks.py:35-36, 52-53). So does a missing `rating` on such an entry whose year passes the range test, because `and` short-circuits (tasks.py:63, 66).
  - A missing `title`, `tmdb_id` or `tvdb_id` raises inside an executor worker (tasks.py:70-74, 87-91). The exception stays in its future and is never re-raised, because the results are never read (tasks.py:39, 56). Only that entry's post is lost.
- Tasks.Item: ratings are exact reals, so float rounding and NaN are not modelled. Years are unbounded integers.
- Tasks.FilterSeries: has the same body as `FilterMovies`, because the two source functions differ only in names. Their agreement is therefore immediate in the model.
