/**
 * The view-model bookkeeping of the search screen and the favourites screen
 * (app/src/main/java/sagi/shchori/asiotechapp/ui/viewmodels/MovieViewModel.kt,
 * app/src/main/java/sagi/shchori/asiotechapp/ui/viewmodels/FavoritesViewModel.kt).
 *
 * Each observable holder becomes a field that holds its latest value (`None`
 * before the first value is posted), and a posted value takes effect at once.
 * A launched coroutine that the source keeps in a field, and so can cancel,
 * becomes a replaceable slot holding what it will do; one that it does not
 * keep runs at once.
 */
module ViewModels {
  import opened Wrappers
  import opened Models
  import opened Network
  import opened Repositories

  /** The screen state the search screen observes. */
  datatype UiState = IDLE | LOADING | ERROR(message: Option<string>)

  /** Kotlin's `Char.isWhitespace` on the JVM: the Java whitespace characters and the Unicode space separators. */
  predicate IsWhitespace(c: char)
  {
    var n := c as int;
    || 9 <= n <= 13
    || 28 <= n <= 32
    || n == 0xA0
    || n == 0x1680
    || 0x2000 <= n <= 0x200A
    || n == 0x2028 || n == 0x2029
    || n == 0x202F || n == 0x205F
    || n == 0x3000
  }

  /** Kotlin's `isBlank`: empty, or whitespace only. */
  predicate IsBlank(s: string)
  {
    forall i :: 0 <= i < |s| ==> IsWhitespace(s[i])
  }

  /** The screen state a collected result maps to (MovieViewModel.kt:100-110 and 165-182). */
  function UiStateFor<T>(result: NetworkResult<T>): (state: UiState)
    ensures result.Error? <==> state.ERROR?
    ensures result.Error? ==> state.message == result.exception.message
    ensures result.Loading? <==> state == LOADING
    ensures result.Success? <==> state == IDLE
  {
    match result
    case Error(exception) => ERROR(exception.message)
    case Loading => LOADING
    case Success(_) => IDLE
  }

  /** The list with every entry carrying `selectedId` marked selected. */
  function MarkSelection(list: seq<Movie>, selectedId: string): (r: seq<Movie>)
    ensures |r| == |list|
  {
    seq(|list|, i requires 0 <= i < |list| => if list[i].imdbID == selectedId then Selected(list[i]) else list[i])
  }

  /** The index of the last entry carrying `id`, or `otherwise` when there is none. */
  function LastIndexOf(list: seq<Movie>, id: string, otherwise: int): (r: int)
    ensures (forall i :: 0 <= i < |list| ==> list[i].imdbID != id) ==> r == otherwise
    ensures (exists i :: 0 <= i < |list| && list[i].imdbID == id) ==>
      && 0 <= r < |list|
      && list[r].imdbID == id
      && forall j :: r < j < |list| ==> list[j].imdbID != id
  {
    if list == [] then otherwise
    else if list[|list| - 1].imdbID == id then |list| - 1
    else LastIndexOf(list[..|list| - 1], id, otherwise)
  }

  /**
   * The `forEachIndexed` loop (MovieViewModel.kt:114-119): each entry with the
   * selected id is marked selected and the position becomes its index, so the
   * last match wins; without a match the position is left as it was.
   */
  method MarkSelectedById(list: seq<Movie>, selectedId: string, position: int) returns (marked: seq<Movie>, newPosition: int)
    ensures marked == MarkSelection(list, selectedId)
    ensures forall i :: 0 <= i < |list| && list[i].imdbID != selectedId ==> marked[i] == list[i]
    ensures newPosition == LastIndexOf(list, selectedId, position)
  {
    marked, newPosition := list, position;
    for index := 0 to |list|
      invariant |marked| == |list|
      invariant forall k :: 0 <= k < index ==> marked[k] == MarkSelection(list, selectedId)[k]
      invariant forall k :: index <= k < |list| ==> marked[k] == list[k]
      invariant newPosition == LastIndexOf(list[..index], selectedId, position)
    {
      assert list[..index + 1][..index] == list[..index];
      if marked[index].imdbID == selectedId {
        marked := marked[index := Selected(marked[index])];
        newPosition := index;
      }
    }
    assert list[..|list|] == list;
  }

  /**
   * The loop of addOrRemoveMovieAsFavorite over the shown list
   * (MovieViewModel.kt:231-245): every entry with the selected id gets the new
   * flag; `found` tells whether there was one.
   */
  method SetFavoriteInList(list: seq<Movie>, movieId: string, isFavorite: bool) returns (updated: seq<Movie>, found: bool)
    ensures |updated| == |list|
    ensures forall i :: 0 <= i < |list| ==>
      updated[i] == if list[i].imdbID == movieId then WithFavorite(list[i], isFavorite) else list[i]
    ensures found <==> exists i :: 0 <= i < |list| && list[i].imdbID == movieId
  {
    updated, found := list, false;
    for i := 0 to |list|
      invariant |updated| == |list|
      invariant forall k :: 0 <= k < i ==>
        updated[k] == if list[k].imdbID == movieId then WithFavorite(list[k], isFavorite) else list[k]
      invariant forall k :: i <= k < |list| ==> updated[k] == list[k]
      invariant found <==> exists k :: 0 <= k < i && list[k].imdbID == movieId
    {
      if updated[i].imdbID == movieId {
        updated := updated[i := WithFavorite(updated[i], isFavorite)];
        found := true;
      }
    }
  }

  /** The last Success among the emissions, if any. */
  function LastSuccess<T>(emitted: seq<NetworkResult<T>>): (r: Option<T>)
    ensures r.Some? ==> Success(r.value) in emitted
    ensures r.None? ==> forall e :: e in emitted ==> !e.Success?
  {
    if emitted == [] then None
    else if emitted[|emitted| - 1].Success? then Some(emitted[|emitted| - 1].data)
    else
      assert emitted == emitted[..|emitted| - 1] + [emitted[|emitted| - 1]];
      LastSuccess(emitted[..|emitted| - 1])
  }

  /**
   * The selected position after collecting `emitted` with a movie selected:
   * each Success with a list moves it to the last entry carrying `id`, if any.
   */
  function PositionAfter(emitted: seq<NetworkResult<MovieResponse>>, id: string, position: int): (r: int)
    ensures (forall e :: e in emitted ==> !(e.Success? && e.data.search.Some?)) ==> r == position
  {
    if emitted == [] then position
    else
      var before := PositionAfter(emitted[..|emitted| - 1], id, position);
      var last := emitted[|emitted| - 1];
      assert forall e :: e in emitted[..|emitted| - 1] ==> e in emitted;
      if last.Success? && last.data.search.Some? then LastIndexOf(last.data.search.value, id, before) else before
  }

  // ---------------------------------------------------------------------------
  // The search screen's view model

  class MovieViewModel {
    const repository: MovieRepository
    var selectedMovie: Option<Movie>
    var uiState: Option<UiState>
    var selectedPosition: int
    var lastSearchQuery: string
    var movies: Option<seq<Movie>>
    /** The query of the launched search job that has not run yet (`searchJob`). */
    var searchJob: Option<string>

    ghost predicate Valid()
      reads repository, repository.movieDao
    {
      repository.Valid()
    }

    constructor (repository: MovieRepository)
      requires repository.Valid()
      ensures this.repository == repository && Valid()
      ensures selectedMovie == None && uiState == None && selectedPosition == -1
      ensures lastSearchQuery == "" && movies == None && searchJob == None
    {
      this.repository := repository;
      selectedMovie, uiState, selectedPosition := None, None, -1;
      lastSearchQuery, movies, searchJob := "", None, None;
    }

    /**
     * searchMovies (MovieViewModel.kt:51-79): record the query, cancel the
     * pending search, then either clear the list for a blank query or launch
     * a new search job.
     */
    method SearchMovies(query: string)
      modifies this
      ensures lastSearchQuery == query
      ensures IsBlank(query) ==> movies == Some([]) && uiState == Some(IDLE) && searchJob == None
      ensures !IsBlank(query) ==> searchJob == Some(query) && movies == old(movies) && uiState == old(uiState)
      ensures selectedMovie == old(selectedMovie) && selectedPosition == old(selectedPosition)
    {
      lastSearchQuery := query;
      searchJob := None;
      if IsBlank(query) {
        movies := Some([]);
        uiState := Some(IDLE);
        return;
      }
      searchJob := Some(query);
    }

    /**
     * The collector of the search flow, for one result (MovieViewModel.kt:99-128).
     * Indexing the list at `selectedPosition` past its end throws; the
     * coroutine's error handler then posts ERROR with the platform's message,
     * given here as `indexError`, and the job ends (`crashed`).
     */
    method CollectSearchResult(result: NetworkResult<MovieResponse>, indexError: Option<string>) returns (crashed: bool)
      modifies this
      ensures selectedMovie == old(selectedMovie) && lastSearchQuery == old(lastSearchQuery) && searchJob == old(searchJob)
      ensures crashed <==>
        && result.Success? && result.data.search.Some?
        && old(selectedMovie).None? && old(selectedPosition) >= |result.data.search.value|
      ensures crashed ==> uiState == Some(ERROR(indexError)) && movies == old(movies) && selectedPosition == old(selectedPosition)
      ensures !crashed ==> uiState == Some(UiStateFor(result))
      ensures !result.Success? ==> movies == old(movies) && selectedPosition == old(selectedPosition)
      ensures result.Success? && result.data.search.None? ==> movies == None && selectedPosition == old(selectedPosition)
      ensures result.Success? && result.data.search.Some? && old(selectedMovie).Some? ==>
        var list := result.data.search.value;
        var id := old(selectedMovie).value.imdbID;
        && movies == Some(MarkSelection(list, id))
        && selectedPosition == LastIndexOf(list, id, old(selectedPosition))
      ensures result.Success? && result.data.search.Some? && old(selectedMovie).None? && !crashed ==>
        var list := result.data.search.value;
        var p := old(selectedPosition);
        && selectedPosition == p
        && movies == Some(if p > -1 then list[p := Selected(list[p])] else list)
    {
      crashed := false;
      match result {
        case Error(exception) =>
          uiState := Some(ERROR(exception.message));
        case Loading =>
          uiState := Some(LOADING);
        case Success(data) =>
          uiState := Some(IDLE);
          var shown := data.search;
          if data.search.Some? {
            var searchList := data.search.value;
            if selectedMovie.Some? {
              var marked, position := MarkSelectedById(searchList, selectedMovie.value.imdbID, selectedPosition);
              shown := Some(marked);
              selectedPosition := position;
            } else if selectedPosition > -1 {
              if selectedPosition >= |searchList| {
                uiState := Some(ERROR(indexError));
                crashed := true;
                return;
              }
              shown := Some(searchList[selectedPosition := Selected(searchList[selectedPosition])]);
            }
          }
          movies := shown;
      }
    }

    /**
     * The launched search job, after its debounce delay (MovieViewModel.kt:86-131):
     * reset the position, run the repository's flow and collect every result.
     * The position can only leave -1 here through a selected movie, so the
     * indexing in the collector never runs past the list within one job.
     */
    method RunSearchJob(outcome: Outcome<MovieResponse>) returns (emitted: seq<NetworkResult<MovieResponse>>)
      requires Valid() && searchJob.Some?
      modifies this, repository.movieDao
      ensures Valid() && searchJob == None
      ensures Run(emitted, repository.movieDao.rows) == SearchFlow(old(repository.movieDao.rows), old(searchJob).value, outcome)
      ensures selectedMovie == old(selectedMovie) && lastSearchQuery == old(lastSearchQuery)
      ensures |emitted| > 0 && uiState == Some(UiStateFor(emitted[|emitted| - 1]))
      ensures selectedMovie.None? ==> selectedPosition == -1
      ensures selectedMovie.Some? ==> selectedPosition == PositionAfter(emitted, selectedMovie.value.imdbID, -1)
      ensures LastSuccess(emitted).None? ==> movies == old(movies)
      ensures LastSuccess(emitted).Some? ==>
        var shown := LastSuccess(emitted).value.search;
        movies == if shown.Some? && selectedMovie.Some? then Some(MarkSelection(shown.value, selectedMovie.value.imdbID)) else shown
    {
      var query := searchJob.value;
      selectedPosition := -1;
      uiState := Some(LOADING);
      emitted := repository.SearchMovies(query, outcome);
      SearchStartsFromCache(old(repository.movieDao.rows), query, outcome);
      CollectSearchResults(emitted);
      searchJob := None;
    }

    /**
     * The collector of the search flow over every result in turn. Starting
     * from position -1 and no selection, the position stays -1, so the
     * indexing never runs past a list.
     */
    method CollectSearchResults(emitted: seq<NetworkResult<MovieResponse>>)
      requires |emitted| > 0
      requires selectedMovie.None? ==> selectedPosition == -1
      modifies this
      ensures uiState == Some(UiStateFor(emitted[|emitted| - 1]))
      ensures selectedMovie == old(selectedMovie) && lastSearchQuery == old(lastSearchQuery) && searchJob == old(searchJob)
      ensures selectedMovie.None? ==> selectedPosition == -1
      ensures selectedMovie.Some? ==> selectedPosition == PositionAfter(emitted, selectedMovie.value.imdbID, old(selectedPosition))
      ensures LastSuccess(emitted).None? ==> movies == old(movies)
      ensures LastSuccess(emitted).Some? ==>
        var shown := LastSuccess(emitted).value.search;
        movies == if shown.Some? && selectedMovie.Some? then Some(MarkSelection(shown.value, selectedMovie.value.imdbID)) else shown
    {
      var i := 0;
      while i < |emitted|
        invariant 0 <= i <= |emitted|
        invariant selectedMovie == old(selectedMovie) && lastSearchQuery == old(lastSearchQuery) && searchJob == old(searchJob)
        invariant selectedMovie.None? ==> selectedPosition == -1
        invariant selectedMovie.Some? ==>
          selectedPosition == PositionAfter(emitted[..i], selectedMovie.value.imdbID, old(selectedPosition))
        invariant i > 0 ==> uiState == Some(UiStateFor(emitted[i - 1]))
        invariant LastSuccess(emitted[..i]).None? ==> movies == old(movies)
        invariant LastSuccess(emitted[..i]).Some? ==>
          var shown := LastSuccess(emitted[..i]).value.search;
          movies == if shown.Some? && selectedMovie.Some? then Some(MarkSelection(shown.value, selectedMovie.value.imdbID)) else shown
      {
        assert emitted[..i + 1][..i] == emitted[..i];
        var crashed := CollectSearchResult(emitted[i], None);
        assert !crashed;
        i := i + 1;
      }
      assert emitted[..|emitted|] == emitted;
    }

    /**
     * getMovieDetails (MovieViewModel.kt:139-186), the job selectMovie launches
     * after its delay: run the details flow and collect every result; each
     * Success makes the movie, with those details, the selected movie.
     */
    method LoadMovieDetails(movie: Movie, outcome: Outcome<MovieDetails>) returns (emitted: seq<NetworkResult<MovieDetails>>)
      requires Valid()
      modifies this, repository.movieDao
      ensures Valid()
      ensures Run(emitted, repository.movieDao.rows) == DetailsFlow(old(repository.movieDao.rows), movie, outcome)
      ensures |emitted| > 0 && uiState == Some(UiStateFor(emitted[|emitted| - 1]))
      ensures selectedMovie
        == if LastSuccess(emitted).Some? then Some(WithDetails(movie, LastSuccess(emitted).value)) else old(selectedMovie)
      ensures movies == old(movies) && selectedPosition == old(selectedPosition)
      ensures lastSearchQuery == old(lastSearchQuery) && searchJob == old(searchJob)
    {
      uiState := Some(LOADING);
      emitted := repository.MovieDetails(movie, outcome);
      DetailsStartsFromCache(old(repository.movieDao.rows), movie, outcome);
      CollectDetailsResults(movie, emitted);
    }

    /** The collector of the details flow (MovieViewModel.kt:164-184), over every result in turn. */
    method CollectDetailsResults(movie: Movie, emitted: seq<NetworkResult<MovieDetails>>)
      requires |emitted| > 0
      modifies this
      ensures uiState == Some(UiStateFor(emitted[|emitted| - 1]))
      ensures selectedMovie
        == if LastSuccess(emitted).Some? then Some(WithDetails(movie, LastSuccess(emitted).value)) else old(selectedMovie)
      ensures movies == old(movies) && selectedPosition == old(selectedPosition)
      ensures lastSearchQuery == old(lastSearchQuery) && searchJob == old(searchJob)
    {
      var i := 0;
      while i < |emitted|
        invariant 0 <= i <= |emitted|
        invariant movies == old(movies) && selectedPosition == old(selectedPosition)
        invariant lastSearchQuery == old(lastSearchQuery) && searchJob == old(searchJob)
        invariant i > 0 ==> uiState == Some(UiStateFor(emitted[i - 1]))
        invariant selectedMovie
          == if LastSuccess(emitted[..i]).Some? then Some(WithDetails(movie, LastSuccess(emitted[..i]).value)) else old(selectedMovie)
      {
        assert emitted[..i + 1][..i] == emitted[..i];
        match emitted[i] {
          case Error(exception) =>
            uiState := Some(ERROR(exception.message));
          case Loading =>
            uiState := Some(LOADING);
          case Success(details) =>
            selectedMovie := Some(WithDetails(movie, details));
            uiState := Some(IDLE);
        }
        i := i + 1;
      }
      assert emitted[..|emitted|] == emitted;
    }

    /**
     * selectMovie (MovieViewModel.kt:188-205): the selection is cleared at once,
     * whatever the argument; loading the argument's details is the job that
     * LoadMovieDetails runs.
     */
    method SelectMovie(movie: Option<Movie>)
      modifies this
      ensures selectedMovie == None
      ensures uiState == old(uiState) && movies == old(movies) && selectedPosition == old(selectedPosition)
      ensures lastSearchQuery == old(lastSearchQuery) && searchJob == old(searchJob)
    {
      selectedMovie := None;
    }

    /** setSelectedPosition (MovieViewModel.kt:257-261). */
    method SetSelectedPosition(position: int)
      modifies this
      ensures selectedPosition == position
      ensures selectedMovie == old(selectedMovie) && uiState == old(uiState) && movies == old(movies)
      ensures lastSearchQuery == old(lastSearchQuery) && searchJob == old(searchJob)
    {
      selectedPosition := position;
    }

    /** setMovieAsFavorite (MovieViewModel.kt:211-217): hand the pair to the repository. */
    method SetMovieAsFavorite(movieId: string, isFavorite: bool)
      requires Valid()
      modifies repository.movieDao
      ensures Valid()
      ensures repository.movieDao.rows == FavoriteWrite(old(repository.movieDao.rows), movieId, isFavorite)
    {
      repository.SetMovieAsFavorite(movieId, isFavorite);
    }

    /**
     * addOrRemoveMovieAsFavorite (MovieViewModel.kt:224-252). The selected movie
     * is the list's own entry whenever the list holds its id (it was selected
     * from that list): then the entries with that id and the selection get the
     * negated flag, and the negated flag is persisted. Without a matching entry
     * nothing on screen changes and the selection's current flag is persisted.
     * Without a selection nothing happens.
     */
    method AddOrRemoveMovieAsFavorite()
      requires Valid()
      modifies this, repository.movieDao
      ensures Valid()
      ensures selectedPosition == old(selectedPosition) && uiState == old(uiState)
      ensures lastSearchQuery == old(lastSearchQuery) && searchJob == old(searchJob)
      ensures old(selectedMovie).None? ==>
        selectedMovie == None && movies == old(movies) && repository.movieDao.rows == old(repository.movieDao.rows)
      ensures old(selectedMovie).Some? ==>
        var selected := old(selectedMovie).value;
        var found := old(movies).Some? && exists i :: 0 <= i < |old(movies).value| && old(movies).value[i].imdbID == selected.imdbID;
        var persisted := if found then !selected.isFavorite else selected.isFavorite;
        && selectedMovie == Some(WithFavorite(selected, persisted))
        && repository.movieDao.rows == FavoriteWrite(old(repository.movieDao.rows), selected.imdbID, persisted)
        && (old(movies).None? ==> movies == None)
        && (old(movies).Some? ==>
              movies.Some? && |movies.value| == |old(movies).value|
              && forall i :: 0 <= i < |movies.value| ==>
                   movies.value[i] == if old(movies).value[i].imdbID == selected.imdbID
                                      then WithFavorite(old(movies).value[i], !selected.isFavorite)
                                      else old(movies).value[i])
    {
      if selectedMovie.None? {
        return;
      }
      var selected := selectedMovie.value;
      var found := false;
      if movies.Some? {
        var updated;
        updated, found := SetFavoriteInList(movies.value, selected.imdbID, !selected.isFavorite);
        movies := Some(updated);
      }
      if found {
        selected := WithFavorite(selected, !selected.isFavorite);
        selectedMovie := Some(selected);
      } else {
        selectedMovie := Some(WithFavorite(selected, selected.isFavorite));
      }
      SetMovieAsFavorite(selected.imdbID, selected.isFavorite);
    }
  }

  // ---------------------------------------------------------------------------
  // The favourites screen's view model

  /** The (id, flag) pair a toggle job will persist. */
  datatype FavoriteRequest = FavoriteRequest(movieId: string, isFavorite: bool)

  class FavoritesViewModel {
    const repository: MovieRepository
    var selectedMovie: Option<Movie>
    /** What the launched toggle job will persist once it resumes (`toggleJob`). */
    var toggleJob: Option<FavoriteRequest>

    ghost predicate Valid()
      reads repository, repository.movieDao
    {
      repository.Valid()
    }

    constructor (repository: MovieRepository)
      requires repository.Valid()
      ensures this.repository == repository && Valid()
      ensures selectedMovie == None && toggleJob == None
    {
      this.repository := repository;
      selectedMovie, toggleJob := None, None;
    }

    /**
     * toggleFavoriteStatus (FavoritesViewModel.kt:28-43): cancel the pending
     * toggle; the target is the argument, else the selection, else nothing is
     * done; the new flag is the target's negated; the selection, if any, takes
     * the new flag even when the target is another movie; the persistence of
     * (target id, new flag) is left pending.
     */
    method ToggleFavoriteStatus(movie: Option<Movie>)
      modifies this
      ensures var target := if movie.Some? then movie else old(selectedMovie);
        && (target.None? ==> selectedMovie == old(selectedMovie) && toggleJob == None)
        && (target.Some? ==>
              var newFavoriteState := !target.value.isFavorite;
              && toggleJob == Some(FavoriteRequest(target.value.imdbID, newFavoriteState))
              && selectedMovie == if old(selectedMovie).Some?
                                  then Some(WithFavorite(old(selectedMovie).value, newFavoriteState))
                                  else None)
    {
      toggleJob := None;
      var movieToUpdate := if movie.Some? then movie else selectedMovie;
      if movieToUpdate.None? {
        return;
      }
      var newFavoriteState := !movieToUpdate.value.isFavorite;
      if selectedMovie.Some? {
        selectedMovie := Some(WithFavorite(selectedMovie.value, newFavoriteState));
      }
      toggleJob := Some(FavoriteRequest(movieToUpdate.value.imdbID, newFavoriteState));
    }

    /** The pending toggle job resumes and calls the repository's updateFavoriteStatus (FavoritesViewModel.kt:41). */
    method CommitToggle()
      requires Valid() && toggleJob.Some?
      modifies this, repository.movieDao
      ensures Valid() && toggleJob == None && selectedMovie == old(selectedMovie)
      ensures repository.movieDao.rows
        == FavoriteWrite(old(repository.movieDao.rows), old(toggleJob).value.movieId, old(toggleJob).value.isFavorite)
    {
      var request := toggleJob.value;
      repository.UpdateFavoriteStatus(request.movieId, request.isFavorite);
      toggleJob := None;
    }

    /** selectMovie (FavoritesViewModel.kt:45-49): the movie becomes the selection. */
    method SelectMovie(movie: Movie)
      modifies this
      ensures selectedMovie == Some(movie) && toggleJob == old(toggleJob)
    {
      selectedMovie := Some(movie);
    }
  }

  /**
   * Two toggles in a row before the first is persisted: the first is cancelled,
   * so the table receives only the second toggle's (id, negated flag).
   */
  method ToggleTwiceCommitsLast(viewModel: FavoritesViewModel, first: Movie, second: Movie)
    requires viewModel.Valid()
    modifies viewModel, viewModel.repository.movieDao
    ensures viewModel.repository.movieDao.rows
      == FavoriteWrite(old(viewModel.repository.movieDao.rows), second.imdbID, !second.isFavorite)
  {
    viewModel.ToggleFavoriteStatus(Some(first));
    viewModel.ToggleFavoriteStatus(Some(second));
    viewModel.CommitToggle();
  }
}
