/**
 * The `movies` table entity and the details record it may embed
 * (app/src/main/java/sagi/shchori/asiotechapp/ui/models/Movie.kt).
 *
 * A movie is a value here: the fields that the app assigns in place
 * (`searchWord`, `movieDetails`, `isFavorite`, `isSelected`) are changed by
 * building an updated copy, and every operation says which copy it updates.
 */
module Models {
  import opened Wrappers

  /**
   * The details record that the OMDb details call returns. Only the fields this
   * core reads are named; the remaining descriptive fields are kept as a map
   * from field name to value.
   */
  datatype MovieDetails = MovieDetails(imdbID: string, title: string, fields: map<string, string>)

  /**
   * One row of the `movies` table. `title`, `year`, `imdbID`, `mediaType` (the
   * source's `type`) and `poster` are the constructor's read-only properties;
   * the other four are the mutable properties with their initialisers.
   */
  datatype Movie = Movie(
    title: string,
    year: string,
    imdbID: string,
    mediaType: string,
    poster: string,
    searchWord: string,
    movieDetails: Option<MovieDetails>,
    isFavorite: bool,
    isSelected: bool)

  /** The five properties fixed at construction agree. */
  predicate SameIdentity(a: Movie, b: Movie)
  {
    && a.title == b.title
    && a.year == b.year
    && a.imdbID == b.imdbID
    && a.mediaType == b.mediaType
    && a.poster == b.poster
  }

  /** The primary constructor: the mutable properties start at their declared defaults. */
  function NewMovie(title: string, year: string, imdbID: string, mediaType: string, poster: string): (m: Movie)
    ensures m.title == title && m.year == year && m.imdbID == imdbID
    ensures m.mediaType == mediaType && m.poster == poster
    ensures m.searchWord == "" && m.movieDetails == None
    ensures !m.isFavorite && !m.isSelected
  {
    Movie(title, year, imdbID, mediaType, poster, "", None, false, false)
  }

  /** Assigning `isFavorite` in place: only that property changes. */
  function WithFavorite(m: Movie, isFavorite: bool): (r: Movie)
    ensures SameIdentity(r, m) && r.isFavorite == isFavorite
    ensures r.searchWord == m.searchWord && r.movieDetails == m.movieDetails && r.isSelected == m.isSelected
  {
    m.(isFavorite := isFavorite)
  }

  /** Assigning `isSelected = true` in place: only that property changes. */
  function Selected(m: Movie): (r: Movie)
    ensures SameIdentity(r, m) && r.isSelected
    ensures r.searchWord == m.searchWord && r.movieDetails == m.movieDetails && r.isFavorite == m.isFavorite
  {
    m.(isSelected := true)
  }

  /** Assigning `movieDetails` in place: only that property changes. */
  function WithDetails(m: Movie, details: MovieDetails): (r: Movie)
    ensures SameIdentity(r, m) && r.movieDetails == Some(details)
    ensures r.searchWord == m.searchWord && r.isFavorite == m.isFavorite && r.isSelected == m.isSelected
  {
    m.(movieDetails := Some(details))
  }
}
