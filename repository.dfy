/**
 * The cache-merge layer between the UI and its two collaborators, the `movies`
 * table and the OMDb client
 * (app/src/main/java/sagi/shchori/asiotechapp/repositories/MovieRepository.kt).
 *
 * Each flow is given the outcome of its network call as an input and yields
 * the list of results it emits together with the table it leaves behind.
 * `SearchFlow` and `DetailsFlow` state that pair as functions of the table and
 * the outcome; the methods of `MovieRepository` run the flows step by step
 * against the DAO object and are proved to agree with them; the lemmas state
 * what each branch promises.
 */
module Repositories {
  import opened Wrappers
  import opened Models
  import opened Network
  import opened Database

  // ---------------------------------------------------------------------------
  // The two loops of searchMovies

  /** The ids of the rows marked favourite in a cached search result. */
  function FavoriteIds(cached: seq<Movie>): set<string>
  {
    set m | m in cached && m.isFavorite :: m.imdbID
  }

  /** Filling `favoriteSet` from the rows read from the table (MovieRepository.kt:43-47). */
  method CollectFavorites(dbResult: seq<Movie>) returns (favoriteSet: set<string>)
    ensures favoriteSet == FavoriteIds(dbResult)
    ensures forall id :: id in favoriteSet <==> exists m :: m in dbResult && m.isFavorite && m.imdbID == id
  {
    favoriteSet := {};
    for i := 0 to |dbResult|
      invariant favoriteSet == FavoriteIds(dbResult[..i])
    {
      assert dbResult[..i + 1] == dbResult[..i] + [dbResult[i]];
      if dbResult[i].isFavorite {
        favoriteSet := favoriteSet + {dbResult[i].imdbID};
      }
    }
    assert dbResult[..|dbResult|] == dbResult;
  }

  /**
   * One turn of the tagging loop (MovieRepository.kt:93-105): the movie gets the
   * query as its search word and is forced favourite when its id is in the set.
   */
  function Tag(movie: Movie, query: string, favoriteSet: set<string>): (m: Movie)
    ensures SameIdentity(m, movie) && m.searchWord == query
    ensures m.isFavorite <==> movie.isFavorite || movie.imdbID in favoriteSet
    ensures m.movieDetails == movie.movieDetails && m.isSelected == movie.isSelected
  {
    var tagged := movie.(searchWord := query);
    if movie.imdbID in favoriteSet then tagged.(isFavorite := true) else tagged
  }

  /** The returned list after the tagging loop. */
  function TagAll(list: seq<Movie>, query: string, favoriteSet: set<string>): (r: seq<Movie>)
    ensures |r| == |list|
  {
    seq(|list|, i requires 0 <= i < |list| => Tag(list[i], query, favoriteSet))
  }

  /** The tagging loop, entry by entry over the returned list (MovieRepository.kt:93-105). */
  method TagResults(list: seq<Movie>, query: string, favoriteSet: set<string>) returns (tagged: seq<Movie>)
    ensures tagged == TagAll(list, query, favoriteSet)
    ensures forall i :: 0 <= i < |tagged| ==> tagged[i].searchWord == query && SameIdentity(tagged[i], list[i])
  {
    tagged := list;
    for i := 0 to |list|
      invariant |tagged| == |list|
      invariant forall k :: 0 <= k < i ==> tagged[k] == Tag(list[k], query, favoriteSet)
      invariant forall k :: i <= k < |list| ==> tagged[k] == list[k]
    {
      var movie := tagged[i].(searchWord := query);
      if movie.imdbID in favoriteSet {
        movie := movie.(isFavorite := true);
      }
      tagged := tagged[i := movie];
    }
  }

  /** Looking a key up in the tagged list finds the tagged form of the list's own entry. */
  lemma {:induction false} LookupTagAll(list: seq<Movie>, query: string, favoriteSet: set<string>, movieId: string)
    ensures Lookup(TagAll(list, query, favoriteSet), movieId)
      == if Lookup(list, movieId).Some? then Some(Tag(Lookup(list, movieId).value, query, favoriteSet)) else None
  {
    if list != [] {
      var prefix := list[..|list| - 1];
      LookupTagAll(prefix, query, favoriteSet, movieId);
      assert TagAll(list, query, favoriteSet)[..|list| - 1] == TagAll(prefix, query, favoriteSet);
    }
  }

  // ---------------------------------------------------------------------------
  // The flows as functions of the table and the network outcome

  /** The emissions of a flow and the table it leaves. */
  datatype Run<+T> = Run(emitted: seq<NetworkResult<T>>, rows: seq<Movie>)

  /** A failed response emits one Error carrying its error body, if it has one. */
  function ErrorBodyEmission<T>(errorBody: Option<string>): seq<NetworkResult<T>>
  {
    if errorBody.Some? then [Error(Exception(Some(errorBody.value)))] else []
  }

  /** The cache-hit emission: the cached rows with empty `totalResults` and `response`. */
  function CacheEmission(cached: seq<Movie>): seq<NetworkResult<MovieResponse>>
  {
    if |cached| > 0 then [Success(MovieResponse(Some(cached), "", ""))] else []
  }

  /** What searchMovies emits and leaves in the table (MovieRepository.kt:27-127): Loading, the cache hit, then the network step. */
  function SearchFlow(rows: seq<Movie>, query: string, outcome: Outcome<MovieResponse>): Run<MovieResponse>
  {
    var cached := SearchMovies(rows, query);
    var fetched := SearchFetch(rows, query, cached, outcome);
    Run([Loading] + CacheEmission(cached) + fetched.emitted, fetched.rows)
  }

  /**
   * The network step of searchMovies once the rows cached under the query
   * have been read (MovieRepository.kt:55-126): it emits at most once, and a
   * step that emits an Error writes nothing.
   */
  function SearchFetch(rows: seq<Movie>, query: string, cached: seq<Movie>, outcome: Outcome<MovieResponse>): (r: Run<MovieResponse>)
    ensures |r.emitted| <= 1
    ensures r.emitted != [] && r.emitted[0].Error? ==> r.rows == rows
  {
    match outcome
    case Thrown(ex) =>
      Run(if |cached| > 0 then [] else [Error(Exception(ex.message))], rows)
    case Responded(isSuccessful, body, errorBody) =>
      if !isSuccessful then Run(ErrorBodyEmission(errorBody), rows)
      else if body.None? then Run([], rows)
      else if body.value.search.None? then Run([Success(body.value)], rows)
      else
        var list := body.value.search.value;
        if |list| == |cached| && |cached| > 0 then Run([], rows)
        else
          var tagged := TagAll(list, query, FavoriteIds(cached));
          Run([Success(body.value.(search := Some(tagged)))], UpsertAll(rows, tagged))
  }

  /** The row movieDetails reads from the table: the first row under the movie's id. */
  function RowFromDb(rows: seq<Movie>, movieId: string): Option<Movie>
  {
    var found := SearchMovie(rows, movieId);
    if |found| == 0 then None else Some(found[0])
  }

  /** The message emitted when the details of a cached movie cannot be fetched. */
  function FetchFailedMessage(title: string): string
  {
    "Trying to fetch data for " + title + " failed."
  }

  /** The details of the cached row, emitted before the network call when there are some. */
  function DetailsCacheEmission(fromDb: Option<Movie>): seq<NetworkResult<MovieDetails>>
  {
    if fromDb.Some? && fromDb.value.movieDetails.Some? then [Success(fromDb.value.movieDetails.value)] else []
  }

  /** What movieDetails emits and leaves in the table (MovieRepository.kt:134-207): Loading, the cached details, then the network step. */
  function DetailsFlow(rows: seq<Movie>, movie: Movie, outcome: Outcome<MovieDetails>): Run<MovieDetails>
  {
    var fromDb := RowFromDb(rows, movie.imdbID);
    var fetched := DetailsFetch(rows, fromDb, outcome);
    Run([Loading] + DetailsCacheEmission(fromDb) + fetched.emitted, fetched.rows)
  }

  /**
   * The network step of movieDetails once the cached row has been read
   * (MovieRepository.kt:155-206): it emits at most once, and a step that
   * emits an Error writes nothing.
   */
  function DetailsFetch(rows: seq<Movie>, fromDb: Option<Movie>, outcome: Outcome<MovieDetails>): (r: Run<MovieDetails>)
    ensures |r.emitted| <= 1
    ensures r.emitted != [] && r.emitted[0].Error? ==> r.rows == rows
  {
    match outcome
    case Thrown(ex) =>
      if fromDb.Some? && fromDb.value.movieDetails.Some? then Run([], rows)
      else if fromDb.Some? then Run([Error(Exception(Some(FetchFailedMessage(fromDb.value.title))))], rows)
      else Run([Error(ex)], rows)
    case Responded(isSuccessful, body, errorBody) =>
      if !isSuccessful then Run(ErrorBodyEmission(errorBody), rows)
      else if body.None? then Run([], rows)
      else
        var details := body.value;
        Run([Success(details)], if fromDb.Some? then Upsert(rows, WithDetails(fromDb.value, details)) else rows)
  }

  /**
   * What setMovieAsFavorite and updateFavoriteStatus leave in the table
   * (MovieRepository.kt:212-257): the row read by id, with its flag set, is
   * inserted again; with no row, `dbResult[0]` throws, the handler logs it and
   * the table is unchanged.
   */
  function FavoriteWrite(rows: seq<Movie>, movieId: string, isFavorite: bool): seq<Movie>
  {
    var found := SearchMovie(rows, movieId);
    if |found| == 0 then rows else Upsert(rows, WithFavorite(found[0], isFavorite))
  }

  // ---------------------------------------------------------------------------
  // What searchMovies promises

  /** Loading comes first; on a cache hit the next emission is the rows saved under the query, exactly. */
  lemma SearchStartsFromCache(rows: seq<Movie>, query: string, outcome: Outcome<MovieResponse>)
    ensures var e := SearchFlow(rows, query, outcome).emitted;
      var cached := SearchMovies(rows, query);
      && |e| >= 1 && e[0] == Loading
      && (|cached| > 0 ==> |e| >= 2 && e[1] == Success(MovieResponse(Some(cached), "", "")))
      && (forall m :: m in cached <==> m in rows && m.searchWord == query)
  {
  }

  /** At most one Error is emitted, it is the last emission, and a run that emits one writes nothing. */
  lemma SearchErrorIsFinal(rows: seq<Movie>, query: string, outcome: Outcome<MovieResponse>)
    ensures var r := SearchFlow(rows, query, outcome);
      forall i :: 0 <= i < |r.emitted| && r.emitted[i].Error? ==> i == |r.emitted| - 1 && r.rows == rows
  {
    var cached := SearchMovies(rows, query);
    var start := [Loading] + CacheEmission(cached);
    assert forall i :: 0 <= i < |start| ==> !start[i].Error?;
    var fetched := SearchFetch(rows, query, cached, outcome);
    assert SearchFlow(rows, query, outcome) == Run(start + fetched.emitted, fetched.rows);
  }

  /**
   * A search call that throws never writes: with a cache hit the stream ends
   * silently on the cached result, otherwise one Error carries the exception's message.
   */
  lemma SearchOnException(rows: seq<Movie>, query: string, ex: Exception)
    ensures var r := SearchFlow(rows, query, Thrown(ex));
      var cached := SearchMovies(rows, query);
      && r.rows == rows
      && (|cached| > 0 ==> r.emitted == [Loading, Success(MovieResponse(Some(cached), "", ""))])
      && (|cached| == 0 ==> r.emitted == [Loading, Error(Exception(ex.message))])
  {
  }

  /** A non-successful response never writes, and emits one Error carrying its error body if present. */
  lemma SearchOnFailedResponse(rows: seq<Movie>, query: string, body: Option<MovieResponse>, errorBody: Option<string>)
    ensures var r := SearchFlow(rows, query, Responded(false, body, errorBody));
      var start := [Loading] + CacheEmission(SearchMovies(rows, query));
      && r.rows == rows
      && r.emitted == start + (if errorBody.Some? then [Error(Exception(Some(errorBody.value)))] else [])
  {
  }

  /**
   * A returned list as long as a non-empty cache hit ends the stream with
   * nothing more emitted and nothing written, whatever its contents.
   */
  lemma SearchSameSizeStops(rows: seq<Movie>, query: string, response: MovieResponse, errorBody: Option<string>)
    requires response.search.Some?
    requires |response.search.value| == |SearchMovies(rows, query)| > 0
    ensures var r := SearchFlow(rows, query, Responded(true, Some(response), errorBody));
      && r.rows == rows
      && r.emitted == [Loading, Success(MovieResponse(Some(SearchMovies(rows, query)), "", ""))]
  {
  }

  /** The search call succeeded with a list that is stored (not the same-size case). */
  predicate StoresList(rows: seq<Movie>, query: string, response: MovieResponse)
  {
    && response.search.Some?
    && var cached := SearchMovies(rows, query);
       !(|response.search.value| == |cached| && |cached| > 0)
  }

  /**
   * The store case: the returned list is tagged (see `TagAllEntries`) and
   * the tagged list is upserted, each row replaced whole by
   * its entry (so a stored `movieDetails` is not carried over) and other keys
   * untouched; the last emission is Success of the response holding the
   * tagged list.
   */
  lemma SearchStoresTagged(rows: seq<Movie>, query: string, response: MovieResponse, errorBody: Option<string>, movieId: string)
    requires StoresList(rows, query, response)
    ensures var r := SearchFlow(rows, query, Responded(true, Some(response), errorBody));
      var list := response.search.value;
      var cached := SearchMovies(rows, query);
      var tagged := TagAll(list, query, FavoriteIds(cached));
      && r.emitted == [Loading] + CacheEmission(cached) + [Success(response.(search := Some(tagged)))]
      && Lookup(r.rows, movieId)
         == (if Lookup(list, movieId).Some? then Lookup(tagged, movieId) else Lookup(rows, movieId))
      && (UniqueKeys(rows) ==> UniqueKeys(r.rows))
  {
    var list := response.search.value;
    var favoriteSet := FavoriteIds(SearchMovies(rows, query));
    var tagged := TagAll(list, query, favoriteSet);
    assert SearchFlow(rows, query, Responded(true, Some(response), errorBody)).rows == UpsertAll(rows, tagged);
    UpsertAllOverrides(rows, tagged, movieId);
    LookupTagAll(list, query, favoriteSet, movieId);
    if UniqueKeys(rows) {
      UpsertAllKeepsUniqueKeys(rows, tagged);
    }
  }

  /**
   * Every entry of the tagged list has the query as its search word, keeps its
   * identity and details, and is favourite iff it already was or a cached row
   * with its id is favourite.
   */
  lemma TagAllEntries(list: seq<Movie>, query: string, cached: seq<Movie>)
    ensures var tagged := TagAll(list, query, FavoriteIds(cached));
      forall i :: 0 <= i < |tagged| ==>
        && tagged[i].searchWord == query
        && SameIdentity(tagged[i], list[i])
        && tagged[i].movieDetails == list[i].movieDetails
        && (tagged[i].isFavorite <==>
              list[i].isFavorite || exists c :: c in cached && c.isFavorite && c.imdbID == list[i].imdbID)
  {
  }

  /** In the store case, the row left under a returned id is the tagged form of the list's last entry with that id. */
  lemma SearchStoredRow(rows: seq<Movie>, query: string, response: MovieResponse, errorBody: Option<string>, movieId: string)
    requires StoresList(rows, query, response)
    requires Lookup(response.search.value, movieId).Some?
    ensures Lookup(SearchFlow(rows, query, Responded(true, Some(response), errorBody)).rows, movieId)
      == Some(Tag(Lookup(response.search.value, movieId).value, query, FavoriteIds(SearchMovies(rows, query))))
  {
    var favoriteSet := FavoriteIds(SearchMovies(rows, query));
    var tagged := TagAll(response.search.value, query, favoriteSet);
    UpsertAllOverrides(rows, tagged, movieId);
    LookupTagAll(response.search.value, query, favoriteSet, movieId);
  }

  /** A row cached as favourite under this query stays favourite when its id comes back from the network. */
  lemma SearchRetainsFavorite(rows: seq<Movie>, query: string, response: MovieResponse, errorBody: Option<string>, c: Movie)
    requires StoresList(rows, query, response)
    requires c in rows && c.searchWord == query && c.isFavorite
    requires Lookup(response.search.value, c.imdbID).Some?
    ensures var r := SearchFlow(rows, query, Responded(true, Some(response), errorBody));
      && Lookup(r.rows, c.imdbID).Some?
      && Lookup(r.rows, c.imdbID).value.isFavorite
      && Lookup(r.rows, c.imdbID).value.searchWord == query
  {
    assert c in SearchMovies(rows, query);
    assert c.imdbID in FavoriteIds(SearchMovies(rows, query));
    LookupFindsRow(response.search.value, c.imdbID);
    SearchStoredRow(rows, query, response, errorBody, c.imdbID);
  }

  /**
   * Favourite retention does not look past the rows cached under this query: a
   * row that is favourite under another search word is replaced by the
   * returned entry, with the entry's own flag and the entry's own details.
   */
  lemma SearchOverwritesFavoriteOfOtherSearchWord(
    rows: seq<Movie>, query: string, response: MovieResponse, errorBody: Option<string>, stored: Movie)
    requires UniqueKeys(rows)
    requires stored in rows && stored.isFavorite && stored.searchWord != query
    requires StoresList(rows, query, response)
    requires Lookup(response.search.value, stored.imdbID).Some?
    ensures var r := SearchFlow(rows, query, Responded(true, Some(response), errorBody));
      var entry := Lookup(response.search.value, stored.imdbID).value;
      && Lookup(r.rows, stored.imdbID).Some?
      && Lookup(r.rows, stored.imdbID).value.isFavorite == entry.isFavorite
      && Lookup(r.rows, stored.imdbID).value.movieDetails == entry.movieDetails
      && Lookup(r.rows, stored.imdbID).value.searchWord == query
  {
    var cached := SearchMovies(rows, query);
    forall c | c in cached && c.imdbID == stored.imdbID
      ensures false
    {
      LookupUnique(rows, c);
      LookupUnique(rows, stored);
    }
    assert stored.imdbID !in FavoriteIds(cached);
    LookupFindsRow(response.search.value, stored.imdbID);
    SearchStoredRow(rows, query, response, errorBody, stored.imdbID);
  }

  // ---------------------------------------------------------------------------
  // What movieDetails promises

  /** With unique keys, the row movieDetails reads is the one a lookup finds. */
  lemma RowFromDbIsLookup(rows: seq<Movie>, movieId: string)
    requires UniqueKeys(rows)
    ensures RowFromDb(rows, movieId) == Lookup(rows, movieId)
  {
    SearchMovieAtMostOne(rows, movieId);
  }

  /** Loading comes first; when the cached row has details they are emitted next. */
  lemma DetailsStartsFromCache(rows: seq<Movie>, movie: Movie, outcome: Outcome<MovieDetails>)
    requires UniqueKeys(rows)
    ensures var e := DetailsFlow(rows, movie, outcome).emitted;
      var row := Lookup(rows, movie.imdbID);
      && |e| >= 1 && e[0] == Loading
      && (row.Some? && row.value.movieDetails.Some? ==> |e| >= 2 && e[1] == Success(row.value.movieDetails.value))
  {
    RowFromDbIsLookup(rows, movie.imdbID);
  }

  /**
   * A details call that throws never writes: a cached row with details ends
   * the stream silently; a cached row without details emits an Error naming
   * its title; with no cached row the exception itself is emitted.
   */
  lemma DetailsOnException(rows: seq<Movie>, movie: Movie, ex: Exception)
    requires UniqueKeys(rows)
    ensures var r := DetailsFlow(rows, movie, Thrown(ex));
      var row := Lookup(rows, movie.imdbID);
      && r.rows == rows
      && (row.Some? && row.value.movieDetails.Some? ==>
            r.emitted == [Loading, Success(row.value.movieDetails.value)])
      && (row.Some? && row.value.movieDetails.None? ==>
            r.emitted == [Loading, Error(Exception(Some("Trying to fetch data for " + row.value.title + " failed.")))])
      && (row.None? ==> r.emitted == [Loading, Error(ex)])
  {
    RowFromDbIsLookup(rows, movie.imdbID);
  }

  /**
   * A successful fetch is always emitted last; it is stored into the cached
   * row when there is one, and no row is created when there is none.
   */
  lemma DetailsOnSuccess(rows: seq<Movie>, movie: Movie, details: MovieDetails, errorBody: Option<string>, movieId: string)
    requires UniqueKeys(rows)
    ensures var r := DetailsFlow(rows, movie, Responded(true, Some(details), errorBody));
      var row := Lookup(rows, movie.imdbID);
      && |r.emitted| >= 2 && r.emitted[|r.emitted| - 1] == Success(details)
      && (row.None? ==> r.rows == rows)
      && Lookup(r.rows, movieId)
         == (if movieId == movie.imdbID && row.Some? then Some(WithDetails(row.value, details)) else Lookup(rows, movieId))
      && UniqueKeys(r.rows)
  {
    RowFromDbIsLookup(rows, movie.imdbID);
    var row := Lookup(rows, movie.imdbID);
    if row.Some? {
      UpsertReplacesRow(rows, WithDetails(row.value, details), movieId);
      UpsertKeepsUniqueKeys(rows, WithDetails(row.value, details));
    }
  }

  /** At most one Error is emitted by movieDetails, it is the last emission, and a run that emits one writes nothing. */
  lemma DetailsErrorIsFinal(rows: seq<Movie>, movie: Movie, outcome: Outcome<MovieDetails>)
    ensures var r := DetailsFlow(rows, movie, outcome);
      forall i :: 0 <= i < |r.emitted| && r.emitted[i].Error? ==> i == |r.emitted| - 1 && r.rows == rows
  {
    var fromDb := RowFromDb(rows, movie.imdbID);
    var start := [Loading] + DetailsCacheEmission(fromDb);
    assert forall i :: 0 <= i < |start| ==> !start[i].Error?;
    var fetched := DetailsFetch(rows, fromDb, outcome);
    assert DetailsFlow(rows, movie, outcome) == Run(start + fetched.emitted, fetched.rows);
  }

  // ---------------------------------------------------------------------------
  // What the favourite setters promise

  /**
   * setMovieAsFavorite / updateFavoriteStatus: under every key the table ends
   * as the DAO's UPDATE would leave it (only `isFavorite` of that row changes;
   * the re-inserted row moves to the end of the row order), and an absent id
   * leaves the table untouched.
   */
  lemma FavoriteWriteAgreesWithUpdate(rows: seq<Movie>, movieId: string, isFavorite: bool, key: string)
    requires UniqueKeys(rows)
    ensures Lookup(FavoriteWrite(rows, movieId, isFavorite), key) == Lookup(SetFavorite(rows, movieId, isFavorite), key)
    ensures Lookup(rows, movieId).None? ==> FavoriteWrite(rows, movieId, isFavorite) == rows
    ensures UniqueKeys(FavoriteWrite(rows, movieId, isFavorite))
  {
    SearchMovieAtMostOne(rows, movieId);
    SetFavoriteUpdatesRow(rows, movieId, isFavorite, key);
    var row := Lookup(rows, movieId);
    if row.Some? {
      LookupFindsRow(rows, movieId);
      UpsertReplacesRow(rows, WithFavorite(row.value, isFavorite), key);
      UpsertKeepsUniqueKeys(rows, WithFavorite(row.value, isFavorite));
    }
  }

  // ---------------------------------------------------------------------------
  // The repository object

  class MovieRepository {
    const movieDao: MovieDao

    ghost predicate Valid()
      reads this, movieDao
    {
      movieDao.Valid()
    }

    constructor (movieDao: MovieDao)
      requires movieDao.Valid()
      ensures this.movieDao == movieDao && Valid()
    {
      this.movieDao := movieDao;
    }

    /** searchMovies, with the outcome of `api.searchMovies` as an input. */
    method SearchMovies(query: string, outcome: Outcome<MovieResponse>) returns (emitted: seq<NetworkResult<MovieResponse>>)
      requires Valid()
      modifies movieDao
      ensures Valid()
      ensures Run(emitted, movieDao.rows) == SearchFlow(old(movieDao.rows), query, outcome)
    {
      emitted := [Loading];
      var dbResult := Database.SearchMovies(movieDao.rows, query);
      var favoriteSet: set<string> := {};
      if |dbResult| > 0 {
        favoriteSet := CollectFavorites(dbResult);
        emitted := emitted + [Success(MovieResponse(Some(dbResult), "", ""))];
      }
      assert favoriteSet == FavoriteIds(dbResult);
      match outcome {
        case Thrown(ex) =>
          if |dbResult| > 0 {
            return;
          }
          emitted := emitted + [Error(Exception(ex.message))];
        case Responded(isSuccessful, body, errorBody) =>
          if isSuccessful {
            if body.Some? {
              var response := body.value;
              if response.search.Some? {
                var list := response.search.value;
                if |list| == |dbResult| && |dbResult| > 0 {
                  return;
                }
                var tagged := TagResults(list, query, favoriteSet);
                movieDao.InsertMovies(tagged);
                response := response.(search := Some(tagged));
              }
              emitted := emitted + [Success(response)];
            }
          } else if errorBody.Some? {
            emitted := emitted + [Error(Exception(Some(errorBody.value)))];
          }
      }
    }

    /** movieDetails, with the outcome of `api.getMovieDetails` as an input. */
    method MovieDetails(movie: Movie, outcome: Outcome<MovieDetails>) returns (emitted: seq<NetworkResult<MovieDetails>>)
      requires Valid()
      modifies movieDao
      ensures Valid()
      ensures Run(emitted, movieDao.rows) == DetailsFlow(old(movieDao.rows), movie, outcome)
    {
      emitted := [Loading];
      var dbResult := SearchMovie(movieDao.rows, movie.imdbID);
      var movieFromDB: Option<Movie> := if |dbResult| == 0 then None else Some(dbResult[0]);
      if movieFromDB.Some? && movieFromDB.value.movieDetails.Some? {
        emitted := emitted + [Success(movieFromDB.value.movieDetails.value)];
      }
      match outcome {
        case Thrown(ex) =>
          if |dbResult| > 0 && movieFromDB.value.movieDetails.Some? {
            return;
          } else if |dbResult| > 0 {
            emitted := emitted + [Error(Exception(Some(FetchFailedMessage(movieFromDB.value.title))))];
          } else {
            emitted := emitted + [Error(ex)];
          }
        case Responded(isSuccessful, body, errorBody) =>
          if isSuccessful {
            if body.Some? {
              if movieFromDB.Some? {
                movieDao.InsertMovie(WithDetails(movieFromDB.value, body.value));
              }
              emitted := emitted + [Success(body.value)];
            }
          } else if errorBody.Some? {
            emitted := emitted + [Error(Exception(Some(errorBody.value)))];
          }
      }
    }

    /** setMovieAsFavorite: read the row, set its flag, insert it again; a missing row is swallowed. */
    method SetMovieAsFavorite(movieId: string, isFavorite: bool)
      requires Valid()
      modifies movieDao
      ensures Valid()
      ensures movieDao.rows == FavoriteWrite(old(movieDao.rows), movieId, isFavorite)
    {
      var dbResult := SearchMovie(movieDao.rows, movieId);
      if |dbResult| == 0 {
        return;
      }
      var movieFromDB := dbResult[0];
      movieFromDB := movieFromDB.(isFavorite := isFavorite);
      movieDao.InsertMovie(movieFromDB);
    }

    /** updateFavoriteStatus: the same steps as setMovieAsFavorite, written out again in the source. */
    method UpdateFavoriteStatus(movieId: string, isFavorite: bool)
      requires Valid()
      modifies movieDao
      ensures Valid()
      ensures movieDao.rows == FavoriteWrite(old(movieDao.rows), movieId, isFavorite)
    {
      var dbResult := SearchMovie(movieDao.rows, movieId);
      if |dbResult| == 0 {
        return;
      }
      var movieFromDB := dbResult[0];
      movieFromDB := movieFromDB.(isFavorite := isFavorite);
      movieDao.InsertMovie(movieFromDB);
    }

    /** getFavoriteMovies: the favourite rows of the table. */
    function GetFavoriteMovies(): (r: seq<Movie>)
      reads this, movieDao
      ensures forall m :: m in r <==> m in movieDao.rows && m.isFavorite
    {
      Database.GetFavoriteMovies(movieDao.rows)
    }
  }
}
