# AsioTechApp movie cache and favourites, modelled in Dafny

AsioTechApp is an Android client for the OMDb movie API. The user searches
titles and opens a movie's details. They can mark movies as favourites, and
the favourites have their own screen. Between the screens and the two outside
collaborators (the Room `movies` table and the OMDb HTTP client) sits a small
layer of cache merging and favourite bookkeeping. This project models that
layer and proves what it promises:

- `models.dfy`: the `Movie` row entity and its in-place updates.
  - The five constructor properties never change (`SameIdentity`).
  - The mutable properties start at their defaults.
- `network.dfy`: the `NetworkResult` and `MovieResponse` shapes.
  - The outcome of a network call is an input, `Outcome`: it threw, or it
    responded with a success flag, an optional body and an optional error body.
- `database.dfy`: the `movies` table behind `MovieDao` is a sequence of rows
  in rowid order.
  - `imdbID` is unique (`UniqueKeys`).
  - INSERT OR REPLACE deletes the conflicting row and appends the new one.
  - UPDATE changes a row where it stands.
  - The keyed view is `Lookup`.
  - The DAO is a class whose three writes change its `rows` field.
- `repository.dfy`: the search flow and the details flow of `MovieRepository`
  as functions (`SearchFlow`, `DetailsFlow`) from (table, network outcome) to
  (emitted results, new table).
  - The repository's methods run the same steps against the DAO and are proved
    to agree with those functions.
  - Lemmas state each branch: cache hit, silent fallback, same-size early
    return, tagging, favourite retention, upsert-then-emit, error bodies, and
    the favourite setters.
- `viewmodels.dfy`: `MovieViewModel` and `FavoritesViewModel` as classes whose
  fields hold the latest value of each observable holder.
  - A cancellable launched job is a slot holding what it will do: the pending
    search query, or the pending favourite request.
  - The loops that mark the selected item and flip favourites in the shown
    list are methods with loop invariants.

Favourite retention. The searchMovies code (MovieRepository.kt:34-47, 93-105)
keeps a returned movie favourite only if it was favourite among the rows cached
under the same query, not for any search term. The model follows the code. `Repositories.SearchOverwritesFavoriteOfOtherSearchWord`
proves the consequence: a row stored as favourite under another search word is
replaced by the returned entry, with that entry's flag and its (absent) details.

Selected position. The marking step at MovieViewModel.kt:121-123 indexes the
result list without a bounds check. The model keeps no precondition for this.
An index past the end is the exception the coroutine's error handler turns into
an ERROR state (`ViewModels.MovieViewModel.CollectSearchResult`, result
`crashed`). `ViewModels.MovieViewModel.RunSearchJob` proves that this cannot
happen within one uninterrupted search job, because the job first resets the
position to -1.

Break that is not a break. In addOrRemoveMovieAsFavorite, `return@forEach`
(MovieViewModel.kt:243) is commented as a break. In Kotlin it ends only the
current iteration, so every entry with the selected id is visited and given the
negation of the selection's flag as it stands at that moment. The model gives
every such entry the negation of the selection's original flag. That is the
same value unless the id appears more than once (see "Left out").

## Model

| member | source | states |
|---|---|---|
| Models.NewMovie | app/src/main/java/sagi/shchori/asiotechapp/ui/models/Movie.kt:10-35 | a new movie carries the five constructor values; `searchWord` is empty, `movieDetails` is null, and `isFavorite` and `isSelected` are false |
| Models.WithFavorite | app/src/main/java/sagi/shchori/asiotechapp/ui/models/Movie.kt:31-32 | assigning `isFavorite` changes that property only; the key properties and the other mutable ones are kept |
| Models.Selected | app/src/main/java/sagi/shchori/asiotechapp/ui/models/Movie.kt:34 | assigning `isSelected = true` changes that property only |
| Models.WithDetails | app/src/main/java/sagi/shchori/asiotechapp/ui/models/Movie.kt:27-29 | assigning `movieDetails` changes that property only |
| Database.SearchMovie | app/src/main/java/sagi/shchori/asiotechapp/database/MovieDao.kt:21-22 | the result holds exactly the rows whose `imdbID` is the given id |
| Database.SearchMovies | app/src/main/java/sagi/shchori/asiotechapp/database/MovieDao.kt:24-25 | the result holds exactly the rows whose `searchWord` equals the query, by exact string equality |
| Database.GetFavoriteMovies | app/src/main/java/sagi/shchori/asiotechapp/database/MovieDao.kt:27-28 | the result holds exactly the rows with `isFavorite` set |
| Database.Upsert | app/src/main/java/sagi/shchori/asiotechapp/database/MovieDao.kt:15-16 | after INSERT OR REPLACE, the table holds the new movie as its last row plus exactly the old rows under other keys |
| Database.SetFavorite | app/src/main/java/sagi/shchori/asiotechapp/database/MovieDao.kt:30-31 | the UPDATE keeps the number of rows and every row's key properties |
| Database.LookupFindsRow | app/src/main/java/sagi/shchori/asiotechapp/database/MovieDao.kt:21-22 | a lookup by id yields a row of the table with that id, and yields nothing exactly when no row has that id |
| Database.LookupUnique | app/src/main/java/sagi/shchori/asiotechapp/ui/models/Movie.kt:15-17 | with the primary key unique, looking up a stored row's id yields that very row |
| Database.UpsertReplacesRow | app/src/main/java/sagi/shchori/asiotechapp/database/MovieDao.kt:15-16 | after insertMovie, the row under the movie's id is exactly the movie (the conflicting row is replaced whole), and every other id keeps its row |
| Database.UpsertKeepsUniqueKeys | app/src/main/java/sagi/shchori/asiotechapp/database/MovieDao.kt:15-16 | insertMovie keeps `imdbID` unique across rows |
| Database.UpsertAllOverrides | app/src/main/java/sagi/shchori/asiotechapp/database/MovieDao.kt:18-19 | after insertMovies, an id the list holds maps to the list's last entry with that id; any other id keeps its old row |
| Database.UpsertAllKeepsUniqueKeys | app/src/main/java/sagi/shchori/asiotechapp/database/MovieDao.kt:18-19 | insertMovies keeps `imdbID` unique |
| Database.SearchMovieAtMostOne | app/src/main/java/sagi/shchori/asiotechapp/database/MovieDao.kt:21-22 | with a unique primary key, searchMovie returns at most one row, the one the keyed lookup finds |
| Database.SetFavoriteUpdatesRow | app/src/main/java/sagi/shchori/asiotechapp/database/MovieDao.kt:30-31 | the UPDATE changes only `isFavorite` of the row under the id, and every other id keeps its row |
| Database.SetFavoriteAbsentKey | app/src/main/java/sagi/shchori/asiotechapp/database/MovieDao.kt:30-31 | an UPDATE whose id no row has leaves the table exactly as it was |
| Database.SetFavoriteKeepsUniqueKeys | app/src/main/java/sagi/shchori/asiotechapp/database/MovieDao.kt:30-31 | the UPDATE keeps `imdbID` unique |
| Database.MovieDao.constructor | app/src/main/java/sagi/shchori/asiotechapp/database/MovieDao.kt:13 | the table starts empty, with unique keys |
| Database.MovieDao.InsertMovie | app/src/main/java/sagi/shchori/asiotechapp/database/MovieDao.kt:15-16 | the table becomes the REPLACE insert of the movie; its id now maps to the movie, and every other id is unchanged |
| Database.MovieDao.InsertMovies | app/src/main/java/sagi/shchori/asiotechapp/database/MovieDao.kt:18-19 | the table becomes the list upserted in order; the list's ids map to its entries, and other ids are unchanged |
| Database.MovieDao.UpdateFavoriteStatus | app/src/main/java/sagi/shchori/asiotechapp/database/MovieDao.kt:30-31 | only the flag of the row under the id changes, and nothing changes for an absent id |
| Repositories.CollectFavorites | app/src/main/java/sagi/shchori/asiotechapp/repositories/MovieRepository.kt:43-47 | the set built by the loop holds exactly the ids of the cached rows that are favourite |
| Repositories.Tag | app/src/main/java/sagi/shchori/asiotechapp/repositories/MovieRepository.kt:93-105 | a returned entry gets the query as its search word and is favourite iff it already was or its id is in the cached favourite set; its key properties, details and selection are kept |
| Repositories.TagResults | app/src/main/java/sagi/shchori/asiotechapp/repositories/MovieRepository.kt:93-105 | the loop tags every entry of the list in place; every entry ends with the query as its search word and its own identity |
| Repositories.LookupTagAll | app/src/main/java/sagi/shchori/asiotechapp/repositories/MovieRepository.kt:93-105 | the tagged list holds, under each id, the tagged form of the original list's entry |
| Repositories.SearchFetch | app/src/main/java/sagi/shchori/asiotechapp/repositories/MovieRepository.kt:55-126 | after the cache read, searchMovies emits at most one more result, and when that result is an Error the table is unchanged |
| Repositories.DetailsFetch | app/src/main/java/sagi/shchori/asiotechapp/repositories/MovieRepository.kt:155-206 | after the cache read, movieDetails emits at most one more result, and when that result is an Error the table is unchanged |
| Repositories.SearchStartsFromCache | app/src/main/java/sagi/shchori/asiotechapp/repositories/MovieRepository.kt:27-53 | Loading is emitted first; on a cache hit the next emission is Success of exactly the rows stored under the query, with empty `totalResults` and `response` |
| Repositories.SearchErrorIsFinal | app/src/main/java/sagi/shchori/asiotechapp/repositories/MovieRepository.kt:58-77 | at most one Error is emitted; it is the last emission, and a run that emits it leaves the table unchanged |
| Repositories.SearchOnException | app/src/main/java/sagi/shchori/asiotechapp/repositories/MovieRepository.kt:58-77 | a thrown search call writes nothing; with cached rows it ends silently after them, otherwise it emits one Error with the exception's message |
| Repositories.SearchOnFailedResponse | app/src/main/java/sagi/shchori/asiotechapp/repositories/MovieRepository.kt:120-126 | a non-successful response writes nothing and emits one Error carrying the error body, if it has one |
| Repositories.SearchSameSizeStops | app/src/main/java/sagi/shchori/asiotechapp/repositories/MovieRepository.kt:85-91 | a returned list as long as a non-empty cache hit ends the stream after the cached Success, and the table is unchanged, whatever the list holds |
| Repositories.SearchStoresTagged | app/src/main/java/sagi/shchori/asiotechapp/repositories/MovieRepository.kt:93-118 | otherwise the tagged list is upserted, so under each returned id the row is the tagged entry, replaced whole; other ids are unchanged and keys stay unique; the final emission is Success of the response holding the tagged list |
| Repositories.TagAllEntries | app/src/main/java/sagi/shchori/asiotechapp/repositories/MovieRepository.kt:93-105 | every tagged entry has the query as its search word and keeps its identity and details; it is favourite iff it already was or a row cached under the query with its id is favourite (favourites under other search words are not consulted) |
| Repositories.SearchStoredRow | app/src/main/java/sagi/shchori/asiotechapp/repositories/MovieRepository.kt:107-118 | the row left under a returned id is the tagged form of the list's entry, so any details stored for that id before are not carried over |
| Repositories.SearchRetainsFavorite | app/src/main/java/sagi/shchori/asiotechapp/repositories/MovieRepository.kt:34-47 | a row cached as favourite under this query is still favourite after its id comes back from the network |
| Repositories.SearchOverwritesFavoriteOfOtherSearchWord | app/src/main/java/sagi/shchori/asiotechapp/repositories/MovieRepository.kt:34-47 | a row favourite under another search word is replaced by the returned entry, taking that entry's own favourite flag and details |
| Repositories.RowFromDbIsLookup | app/src/main/java/sagi/shchori/asiotechapp/repositories/MovieRepository.kt:142-147 | the first row searchMovie returns is the row the keyed lookup finds |
| Repositories.DetailsStartsFromCache | app/src/main/java/sagi/shchori/asiotechapp/repositories/MovieRepository.kt:134-153 | movieDetails emits Loading first, then Success of the cached details when the cached row has them |
| Repositories.DetailsOnException | app/src/main/java/sagi/shchori/asiotechapp/repositories/MovieRepository.kt:157-182 | a thrown details call writes nothing. A cached row with details ends silently. A cached row without details emits "Trying to fetch data for <title> failed.". No cached row emits the original exception |
| Repositories.DetailsOnSuccess | app/src/main/java/sagi/shchori/asiotechapp/repositories/MovieRepository.kt:184-201 | fetched details are always emitted last; they are stored into the cached row when one exists; no row is created when none exists, and other ids are unchanged |
| Repositories.DetailsErrorIsFinal | app/src/main/java/sagi/shchori/asiotechapp/repositories/MovieRepository.kt:157-206 | movieDetails emits at most one Error; it is last, and that run writes nothing |
| Repositories.FavoriteWriteAgreesWithUpdate | app/src/main/java/sagi/shchori/asiotechapp/repositories/MovieRepository.kt:212-257 | reading the row, setting its flag and re-inserting it changes only `isFavorite` under that id, keeps keys unique, and leaves the table unchanged for an absent id |
| Repositories.MovieRepository.constructor | app/src/main/java/sagi/shchori/asiotechapp/repositories/MovieRepository.kt:17-20 | the repository works over the DAO it is given |
| Repositories.MovieRepository.SearchMovies | app/src/main/java/sagi/shchori/asiotechapp/repositories/MovieRepository.kt:27-127 | the emissions and the table it leaves are those of the search flow for the old table and the outcome; keys stay unique |
| Repositories.MovieRepository.MovieDetails | app/src/main/java/sagi/shchori/asiotechapp/repositories/MovieRepository.kt:134-207 | the emissions and the table it leaves are those of the details flow; keys stay unique |
| Repositories.MovieRepository.SetMovieAsFavorite | app/src/main/java/sagi/shchori/asiotechapp/repositories/MovieRepository.kt:212-231 | the table becomes the read-flip-reinsert of the row under the id, or is unchanged when there is none |
| Repositories.MovieRepository.UpdateFavoriteStatus | app/src/main/java/sagi/shchori/asiotechapp/repositories/MovieRepository.kt:238-257 | the same read-flip-reinsert, or no change for an absent id |
| Repositories.MovieRepository.GetFavoriteMovies | app/src/main/java/sagi/shchori/asiotechapp/repositories/MovieRepository.kt:233-235 | the favourites are exactly the table's rows with `isFavorite` set |
| ViewModels.UiStateFor | app/src/main/java/sagi/shchori/asiotechapp/ui/viewmodels/MovieViewModel.kt:100-110 | Error maps to ERROR with the exception's message, Loading to LOADING and Success to IDLE, each in both directions |
| ViewModels.LastIndexOf | app/src/main/java/sagi/shchori/asiotechapp/ui/viewmodels/MovieViewModel.kt:114-119 | the result is the index of an entry with the id after which no entry has it; it is the given fallback when no entry has the id |
| ViewModels.MarkSelectedById | app/src/main/java/sagi/shchori/asiotechapp/ui/viewmodels/MovieViewModel.kt:113-119 | every entry with the selected id is marked selected and the others are untouched; the position becomes `LastIndexOf` the selected id, that is the last matching index, or the old position without a match |
| ViewModels.SetFavoriteInList | app/src/main/java/sagi/shchori/asiotechapp/ui/viewmodels/MovieViewModel.kt:231-245 | every entry with the selected id takes the new flag and the others are untouched; `found` holds iff some entry has that id |
| ViewModels.PositionAfter | app/src/main/java/sagi/shchori/asiotechapp/ui/viewmodels/MovieViewModel.kt:112-119 | the position after a run of results with a selection; results with no list leave it unchanged |
| ViewModels.MovieViewModel.constructor | app/src/main/java/sagi/shchori/asiotechapp/ui/viewmodels/MovieViewModel.kt:26-44 | no movie is selected, no state or list has been posted, the position is -1, the last query is empty and no search is pending |
| ViewModels.MovieViewModel.SearchMovies | app/src/main/java/sagi/shchori/asiotechapp/ui/viewmodels/MovieViewModel.kt:51-79 | the query is recorded and any pending search is dropped. A blank or whitespace-only query sets the list to empty and the state to IDLE, and starts nothing. Any other query becomes the pending search |
| ViewModels.MovieViewModel.CollectSearchResult | app/src/main/java/sagi/shchori/asiotechapp/ui/viewmodels/MovieViewModel.kt:99-128 | the state follows the result mapping. A Success posts its list: with a selection, marked by the selected id, with the position moved to the last match; otherwise marked at the stored position. A position past the list's end crashes: the state is ERROR and the list is not posted |
| ViewModels.MovieViewModel.RunSearchJob | app/src/main/java/sagi/shchori/asiotechapp/ui/viewmodels/MovieViewModel.kt:86-131 | the pending search runs: it leaves the table and emissions of the repository's search flow and a state mapped from the last emission; the position, reset to -1, stays -1 without a selection, so the job cannot crash. With a selection, each Success with a list moves the position to the list's last match (`PositionAfter`). The list shown is the last Success's list, marked by the selected id, or is unchanged when there was no Success |
| ViewModels.MovieViewModel.CollectSearchResults | app/src/main/java/sagi/shchori/asiotechapp/ui/viewmodels/MovieViewModel.kt:99-130 | collecting every result leaves the state mapped from the last one and keeps the selection, query and pending search. Without a selection the position stays -1, so no result crashes the collector (asserted at each step). With a selection the position is `PositionAfter` the results. The posted list is the last Success's list, marked by the selected id, or is unchanged without a Success |
| ViewModels.MovieViewModel.LoadMovieDetails | app/src/main/java/sagi/shchori/asiotechapp/ui/viewmodels/MovieViewModel.kt:139-186 | the details flow runs; the state is mapped from the last emission; the selection becomes the movie with the last fetched details when there was a Success, and is otherwise unchanged |
| ViewModels.MovieViewModel.CollectDetailsResults | app/src/main/java/sagi/shchori/asiotechapp/ui/viewmodels/MovieViewModel.kt:164-184 | the state is mapped from the last result. After a Success the selection is the movie carrying the last fetched details; without one it is unchanged. The list, position, query and pending search are untouched |
| ViewModels.MovieViewModel.SelectMovie | app/src/main/java/sagi/shchori/asiotechapp/ui/viewmodels/MovieViewModel.kt:188-205 | the selection is cleared at once, whatever the argument, and nothing else changes |
| ViewModels.MovieViewModel.SetSelectedPosition | app/src/main/java/sagi/shchori/asiotechapp/ui/viewmodels/MovieViewModel.kt:257-261 | the position becomes the argument, and nothing else changes |
| ViewModels.MovieViewModel.SetMovieAsFavorite | app/src/main/java/sagi/shchori/asiotechapp/ui/viewmodels/MovieViewModel.kt:211-217 | the table receives the repository's favourite write for the pair |
| ViewModels.MovieViewModel.AddOrRemoveMovieAsFavorite | app/src/main/java/sagi/shchori/asiotechapp/ui/viewmodels/MovieViewModel.kt:224-252 | without a selection nothing changes. Otherwise only list entries with the selected id change, to the negated flag. The selection follows them when it is in the list, and the selected id is persisted with the selection's resulting flag |
| ViewModels.FavoritesViewModel.constructor | app/src/main/java/sagi/shchori/asiotechapp/ui/viewmodels/FavoritesViewModel.kt:17-26 | no selection and no pending toggle |
| ViewModels.FavoritesViewModel.ToggleFavoriteStatus | app/src/main/java/sagi/shchori/asiotechapp/ui/viewmodels/FavoritesViewModel.kt:28-43 | the pending toggle is replaced. The target is the argument, else the selection; with neither, nothing is pending and nothing changes. The new flag negates the target's flag, and the selection takes it even when the target is another movie. (target id, new flag) becomes the pending request |
| ViewModels.FavoritesViewModel.CommitToggle | app/src/main/java/sagi/shchori/asiotechapp/ui/viewmodels/FavoritesViewModel.kt:41 | the pending request reaches the repository's updateFavoriteStatus and is cleared; the selection is unchanged |
| ViewModels.FavoritesViewModel.SelectMovie | app/src/main/java/sagi/shchori/asiotechapp/ui/viewmodels/FavoritesViewModel.kt:45-49 | the movie becomes the selection; the pending toggle is untouched |
| ViewModels.ToggleTwiceCommitsLast | app/src/main/java/sagi/shchori/asiotechapp/ui/viewmodels/FavoritesViewModel.kt:28-32 | two toggles in a row: the first is cancelled, and the table receives exactly one write, the second toggle's (id, negated flag) |

## Left out

- Network I/O: Retrofit, OkHttp and Gson are replaced by the `Outcome` input. The two `errorBody().string()` reads in searchMovies (MovieRepository.kt:122-124) are treated as one abstract error string.
- Room internals: the database builder, its singleton and the Gson type converters are not modelled. The whole `Movie` value is stored, including `isSelected`, and `MovieDetails` round-trips unchanged.
- Row order: the three SELECTs have no ORDER BY, so SQLite promises no order. The model returns rows in rowid order.
- Concurrency and timing: the 400 ms debounce, the 1000 ms delay before loading details, dispatchers and the asynchrony of `postValue` are not modelled. A posted value takes effect at once. A launched job that is kept and can be cancelled is a slot (`searchJob`, `toggleJob`). The jobs of setMovieAsFavorite and addOrRemoveMovieAsFavorite run at once. The details job that selectMovie launches (MovieViewModel.kt:191-201) is not stored and cannot be cancelled; it is still not run at once. `ViewModels.MovieViewModel.SelectMovie` does only the immediate clearing of the selection and ignores its argument; the caller runs the job itself as `ViewModels.MovieViewModel.LoadMovieDetails` for that movie, at any later point.
- Cancellation in flight: a search job or toggle job cancelled after it has started writing is not modelled. Cancelling drops the slot before anything is done.
- The flows' `.catch` operators (MovieViewModel.kt:94-98, 159-163) catch exceptions thrown by the repository flows themselves, such as database failures. Database failures are outside this model, so those operators have nothing to catch.
- ViewModels.MovieViewModel.AddOrRemoveMovieAsFavorite: movies are values, not shared objects. The contract assumes the selected movie is the list's own entry whenever the list holds its id, as it is when the selection came from that list. Two cases differ from the source:
  - The selection is a separate copy of an entry. The source leaves the selection's flag unchanged and persists that unchanged flag; the model flips both.
  - The list holds the id more than once. The source re-reads the selection's flag at every match (MovieViewModel.kt:236), and the selection is flipped when its own entry is reached. Entries after the selection's own entry therefore get the original flag back, while the model gives them the negated flag. The selection, the persisted flag and the entries up to the selection's own entry agree with the source.
- ViewModels.MovieViewModel.LoadMovieDetails: the source stores the fetched details into the argument object itself, which may also be an entry of the shown list. The model updates only the selection.
- ViewModels.MovieViewModel.CollectSearchResult: the exception message the platform gives for the out-of-range index is a parameter, `indexError`.
- `MovieDetails.kt` and `UiState.kt` are not part of this model. `MovieDetails` keeps the id and title and the remaining fields as a map. `UiState` is IDLE, LOADING or ERROR with an optional message.
- `favoriteMovies` of FavoritesViewModel is the repository's favourites selection (`Repositories.MovieRepository.GetFavoriteMovies`). Its re-emission on each table change is not modelled.
- Logging, the UI (fragments, adapters, scroll arithmetic) and dependency wiring are not modelled.
