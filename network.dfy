/**
 * The result and response shapes exchanged with the OMDb client
 * (NetworkResult.kt, MovieResponse.kt), and the outcome of one client call.
 */
module Network {
  import opened Wrappers
  import opened Models

  /** A thrown exception, reduced to its (nullable) message. */
  datatype Exception = Exception(message: Option<string>)

  /** One emission of a repository flow. */
  datatype NetworkResult<+T> = Success(data: T) | Error(exception: Exception) | Loading

  /**
   * The search payload. `search` is declared non-null, but the JSON decoder
   * leaves it null when the payload has no `Search` array, and the repository
   * checks it for null, so it is optional here.
   */
  datatype MovieResponse = MovieResponse(search: Option<seq<Movie>>, totalResults: string, response: string)

  /**
   * What one call on the HTTP client yields: either it throws, or a response
   * arrives with its success flag, its decoded body and its error body (the
   * error payload read as a string).
   */
  datatype Outcome<+T> =
    | Thrown(ex: Exception)
    | Responded(isSuccessful: bool, body: Option<T>, errorBody: Option<string>)
}
