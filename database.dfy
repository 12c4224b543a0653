/**
 * The `movies` table behind MovieDao
 * (app/src/main/java/sagi/shchori/asiotechapp/database/MovieDao.kt).
 *
 * The table is the sequence of its rows in rowid order. `imdbID` is the
 * primary key, so no two rows share it (`UniqueKeys`). An insert with the
 * REPLACE conflict strategy deletes the conflicting row and appends the new
 * one; an UPDATE changes a row where it stands. The three selections have no
 * ORDER BY; the model fixes the row order as their result order. `Lookup` is
 * the keyed view of the table, in which order plays no part.
 */
module Database {
  import opened Wrappers
  import opened Models

  /** The elements of `s` that satisfy `p`, in their original order. */
  function Filter<T(!new)>(s: seq<T>, p: T -> bool): (r: seq<T>)
    ensures |r| <= |s|
    ensures forall x :: x in r <==> x in s && p(x)
  {
    if s == [] then []
    else
      var last := s[|s| - 1];
      assert s == s[..|s| - 1] + [last];
      Filter(s[..|s| - 1], p) + (if p(last) then [last] else [])
  }

  /** A filter that no element passes is empty. */
  lemma {:induction false} FilterNone<T(!new)>(s: seq<T>, p: T -> bool)
    requires forall x :: x in s ==> !p(x)
    ensures Filter(s, p) == []
  {
    if s != [] {
      assert s[..|s| - 1] + [s[|s| - 1]] == s;
      FilterNone(s[..|s| - 1], p);
    }
  }

  /** No two rows share an `imdbID`: the primary-key constraint. */
  predicate UniqueKeys(rows: seq<Movie>)
  {
    forall i, j :: 0 <= i < j < |rows| ==> rows[i].imdbID != rows[j].imdbID
  }

  /** The row stored under `movieId`, if any (the last one, were keys ever to repeat). */
  function Lookup(rows: seq<Movie>, movieId: string): Option<Movie>
  {
    if rows == [] then None
    else if rows[|rows| - 1].imdbID == movieId then Some(rows[|rows| - 1])
    else Lookup(rows[..|rows| - 1], movieId)
  }

  /** `SELECT * FROM movies WHERE imdbID = :movieId` */
  function SearchMovie(rows: seq<Movie>, movieId: string): (r: seq<Movie>)
    ensures forall m :: m in r <==> m in rows && m.imdbID == movieId
  {
    Filter(rows, (m: Movie) => m.imdbID == movieId)
  }

  /** `SELECT * FROM movies WHERE searchWord = :query`, exact string equality. */
  function SearchMovies(rows: seq<Movie>, query: string): (r: seq<Movie>)
    ensures forall m :: m in r <==> m in rows && m.searchWord == query
  {
    Filter(rows, (m: Movie) => m.searchWord == query)
  }

  /** `SELECT * FROM movies WHERE isFavorite = 1` */
  function GetFavoriteMovies(rows: seq<Movie>): (r: seq<Movie>)
    ensures forall m :: m in r <==> m in rows && m.isFavorite
  {
    Filter(rows, (m: Movie) => m.isFavorite)
  }

  /** The table with the row keyed by `movieId` deleted. */
  function WithoutKey(rows: seq<Movie>, movieId: string): (r: seq<Movie>)
    ensures forall m :: m in r <==> m in rows && m.imdbID != movieId
  {
    Filter(rows, (m: Movie) => m.imdbID != movieId)
  }

  /** INSERT OR REPLACE of one row: the conflicting row is deleted, the new one appended. */
  function Upsert(rows: seq<Movie>, movie: Movie): (r: seq<Movie>)
    ensures movie in r && r[|r| - 1] == movie
    ensures forall m :: m in r <==> m == movie || (m in rows && m.imdbID != movie.imdbID)
  {
    WithoutKey(rows, movie.imdbID) + [movie]
  }

  /** INSERT OR REPLACE of a list, one element after the other. */
  function UpsertAll(rows: seq<Movie>, movies: seq<Movie>): seq<Movie>
    decreases |movies|
  {
    if movies == [] then rows else UpsertAll(Upsert(rows, movies[0]), movies[1..])
  }

  /** `UPDATE movies SET isFavorite = :favorite WHERE imdbID = :movieId` */
  function SetFavorite(rows: seq<Movie>, movieId: string, favorite: bool): (r: seq<Movie>)
    ensures |r| == |rows|
    ensures forall i :: 0 <= i < |rows| ==> SameIdentity(r[i], rows[i])
  {
    seq(|rows|, i requires 0 <= i < |rows| =>
      if rows[i].imdbID == movieId then WithFavorite(rows[i], favorite) else rows[i])
  }

  // ---------------------------------------------------------------------------
  // The keyed view of the table

  lemma {:induction false} FilterKeepsUniqueKeys(rows: seq<Movie>, p: Movie -> bool)
    requires UniqueKeys(rows)
    ensures UniqueKeys(Filter(rows, p))
  {
    if rows != [] {
      var prefix, last := rows[..|rows| - 1], rows[|rows| - 1];
      assert UniqueKeys(prefix);
      FilterKeepsUniqueKeys(prefix, p);
      forall m | m in Filter(prefix, p) ensures m.imdbID != last.imdbID {
        var i :| 0 <= i < |prefix| && prefix[i] == m;
      }
    }
  }

  /** A lookup finds a row of the table with the key asked for, and finds one whenever there is one. */
  lemma {:induction false} LookupFindsRow(rows: seq<Movie>, movieId: string)
    ensures Lookup(rows, movieId).Some? ==>
      Lookup(rows, movieId).value in rows && Lookup(rows, movieId).value.imdbID == movieId
    ensures Lookup(rows, movieId).None? <==> forall m :: m in rows ==> m.imdbID != movieId
  {
    if rows != [] {
      var prefix, last := rows[..|rows| - 1], rows[|rows| - 1];
      assert rows == prefix + [last];
      LookupFindsRow(prefix, movieId);
    }
  }

  /** With unique keys, the lookup under a row's key yields that very row. */
  lemma {:induction false} LookupUnique(rows: seq<Movie>, m: Movie)
    requires UniqueKeys(rows) && m in rows
    ensures Lookup(rows, m.imdbID) == Some(m)
  {
    var prefix, last := rows[..|rows| - 1], rows[|rows| - 1];
    assert rows == prefix + [last];
    if m != last {
      var i :| 0 <= i < |rows| && rows[i] == m;
      assert m.imdbID != last.imdbID;
      LookupUnique(prefix, m);
    }
  }

  /** A lookup in a concatenation: rows of the second part win. */
  lemma {:induction false} LookupConcat(a: seq<Movie>, b: seq<Movie>, movieId: string)
    ensures Lookup(a + b, movieId) == if Lookup(b, movieId).Some? then Lookup(b, movieId) else Lookup(a, movieId)
  {
    if b == [] {
      assert a + b == a;
    } else {
      assert (a + b)[..|a + b| - 1] == a + b[..|b| - 1];
      LookupConcat(a, b[..|b| - 1], movieId);
    }
  }

  /** Deleting a key from the table hides that key and no other. */
  lemma {:induction false} LookupWithoutKey(rows: seq<Movie>, key: string, movieId: string)
    ensures Lookup(WithoutKey(rows, key), movieId) == if movieId == key then None else Lookup(rows, movieId)
  {
    if rows != [] {
      var prefix, last := rows[..|rows| - 1], rows[|rows| - 1];
      var kept := WithoutKey(prefix, key);
      LookupWithoutKey(prefix, key, movieId);
      if last.imdbID != key {
        assert WithoutKey(rows, key) == kept + [last];
        assert (kept + [last])[..|kept|] == kept;
      } else {
        assert WithoutKey(rows, key) == kept;
      }
    }
  }

  // ---------------------------------------------------------------------------
  // What the DAO operations do to the table

  /** insertMovie: afterwards the row under the movie's key is exactly the movie; other keys are untouched. */
  lemma UpsertReplacesRow(rows: seq<Movie>, movie: Movie, movieId: string)
    ensures Lookup(Upsert(rows, movie), movieId) == if movieId == movie.imdbID then Some(movie) else Lookup(rows, movieId)
  {
    var kept := WithoutKey(rows, movie.imdbID);
    LookupWithoutKey(rows, movie.imdbID, movieId);
    assert (kept + [movie])[..|kept|] == kept;
  }

  /** insertMovie keeps the primary key unique. */
  lemma UpsertKeepsUniqueKeys(rows: seq<Movie>, movie: Movie)
    requires UniqueKeys(rows)
    ensures UniqueKeys(Upsert(rows, movie))
  {
    var kept := WithoutKey(rows, movie.imdbID);
    FilterKeepsUniqueKeys(rows, (m: Movie) => m.imdbID != movie.imdbID);
    forall i | 0 <= i < |kept| ensures kept[i].imdbID != movie.imdbID {
      assert kept[i] in kept;
    }
  }

  /**
   * insertMovies: every element is upserted in turn, so under a key that the
   * list holds the row is the list's last element with that key, and under any
   * other key the row is unchanged.
   */
  lemma {:induction false} UpsertAllOverrides(rows: seq<Movie>, movies: seq<Movie>, movieId: string)
    ensures Lookup(UpsertAll(rows, movies), movieId)
      == if Lookup(movies, movieId).Some? then Lookup(movies, movieId) else Lookup(rows, movieId)
    decreases |movies|
  {
    if movies != [] {
      var first, rest := movies[0], movies[1..];
      UpsertReplacesRow(rows, first, movieId);
      UpsertAllOverrides(Upsert(rows, first), rest, movieId);
      assert movies == [first] + rest;
      LookupConcat([first], rest, movieId);
      assert [first][..0] == [];
    }
  }

  /** insertMovies keeps the primary key unique. */
  lemma {:induction false} UpsertAllKeepsUniqueKeys(rows: seq<Movie>, movies: seq<Movie>)
    requires UniqueKeys(rows)
    ensures UniqueKeys(UpsertAll(rows, movies))
    decreases |movies|
  {
    if movies != [] {
      UpsertKeepsUniqueKeys(rows, movies[0]);
      UpsertAllKeepsUniqueKeys(Upsert(rows, movies[0]), movies[1..]);
    }
  }

  /** searchMovie: under the primary key there is at most one row, the one a lookup finds. */
  lemma {:induction false} SearchMovieAtMostOne(rows: seq<Movie>, movieId: string)
    requires UniqueKeys(rows)
    ensures |SearchMovie(rows, movieId)| <= 1
    ensures SearchMovie(rows, movieId) == if Lookup(rows, movieId).Some? then [Lookup(rows, movieId).value] else []
  {
    if rows != [] {
      var prefix, last := rows[..|rows| - 1], rows[|rows| - 1];
      assert UniqueKeys(prefix);
      if last.imdbID == movieId {
        forall m | m in prefix
          ensures m.imdbID != movieId
        {
          var i :| 0 <= i < |prefix| && prefix[i] == m;
        }
        FilterNone(prefix, (m: Movie) => m.imdbID == movieId);
      } else {
        SearchMovieAtMostOne(prefix, movieId);
      }
    }
  }

  /**
   * updateFavoriteStatus: only `isFavorite` of the row under `movieId` changes
   * and every other key keeps its row.
   */
  lemma {:induction false} SetFavoriteUpdatesRow(rows: seq<Movie>, movieId: string, favorite: bool, key: string)
    ensures Lookup(SetFavorite(rows, movieId, favorite), key)
      == if key == movieId && Lookup(rows, key).Some? then Some(WithFavorite(Lookup(rows, key).value, favorite))
         else Lookup(rows, key)
  {
    if rows != [] {
      var prefix, last := rows[..|rows| - 1], rows[|rows| - 1];
      var r := SetFavorite(rows, movieId, favorite);
      assert r[..|r| - 1] == SetFavorite(prefix, movieId, favorite);
      assert r[|r| - 1] == if last.imdbID == movieId then WithFavorite(last, favorite) else last;
      SetFavoriteUpdatesRow(prefix, movieId, favorite, key);
    }
  }

  /** updateFavoriteStatus with an id no row has leaves the table as it was, row order included. */
  lemma SetFavoriteAbsentKey(rows: seq<Movie>, movieId: string, favorite: bool)
    requires forall m :: m in rows ==> m.imdbID != movieId
    ensures SetFavorite(rows, movieId, favorite) == rows
  {
    var r := SetFavorite(rows, movieId, favorite);
    forall i | 0 <= i < |rows|
      ensures r[i] == rows[i]
    {
      assert rows[i] in rows;
    }
  }

  /** updateFavoriteStatus keeps the primary key unique. */
  lemma SetFavoriteKeepsUniqueKeys(rows: seq<Movie>, movieId: string, favorite: bool)
    requires UniqueKeys(rows)
    ensures UniqueKeys(SetFavorite(rows, movieId, favorite))
  {
  }

  // ---------------------------------------------------------------------------
  // The DAO object: the three writes change the table in place

  class MovieDao {
    var rows: seq<Movie>

    ghost predicate Valid()
      reads this
    {
      UniqueKeys(rows)
    }

    constructor ()
      ensures Valid() && rows == []
    {
      rows := [];
    }

    /** `@Insert(onConflict = REPLACE) insertMovie` */
    method InsertMovie(movie: Movie)
      requires Valid()
      modifies this
      ensures Valid()
      ensures rows == Upsert(old(rows), movie)
      ensures Lookup(rows, movie.imdbID) == Some(movie)
      ensures forall id :: id != movie.imdbID ==> Lookup(rows, id) == Lookup(old(rows), id)
    {
      UpsertKeepsUniqueKeys(rows, movie);
      forall id {
        UpsertReplacesRow(rows, movie, id);
      }
      rows := Upsert(rows, movie);
    }

    /** `@Insert(onConflict = REPLACE) insertMovies` */
    method InsertMovies(movies: seq<Movie>)
      requires Valid()
      modifies this
      ensures Valid()
      ensures rows == UpsertAll(old(rows), movies)
      ensures forall id ::
                Lookup(rows, id) == if Lookup(movies, id).Some? then Lookup(movies, id) else Lookup(old(rows), id)
    {
      UpsertAllKeepsUniqueKeys(rows, movies);
      forall id {
        UpsertAllOverrides(rows, movies, id);
      }
      rows := UpsertAll(rows, movies);
    }

    /** `@Query("UPDATE movies SET isFavorite = :favorite WHERE imdbID = :movieId")` */
    method UpdateFavoriteStatus(movieId: string, favorite: bool)
      requires Valid()
      modifies this
      ensures Valid()
      ensures rows == SetFavorite(old(rows), movieId, favorite)
      ensures forall id ::
                Lookup(rows, id)
                == if id == movieId && Lookup(old(rows), id).Some?
                   then Some(WithFavorite(Lookup(old(rows), id).value, favorite))
                   else Lookup(old(rows), id)
    {
      SetFavoriteKeepsUniqueKeys(rows, movieId, favorite);
      forall id {
        SetFavoriteUpdatesRow(rows, movieId, favorite, id);
      }
      rows := SetFavorite(rows, movieId, favorite);
    }
  }
}
