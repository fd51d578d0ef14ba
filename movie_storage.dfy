/**
 * The first version of the store (movie_storage.py): module-level functions
 * over one JSON file, with lower-case field names.  A file that is missing or
 * cannot be decoded ends the process with status 1; a failed write raises;
 * `delete_movie` and `update_movie` index the map directly and raise
 * `KeyError` for an absent title, so callers must only pass present titles.
 */
module MovieStorage {
  import opened Catalog
  import StorageJson
  import StorageContract

  const RatingField: string := "rating"
  const YearField: string := "year"

  /** How an operation of this module stops early. */
  datatype Stop =
    | Exited(status: int)  // `exit(1)` / `sys.exit(1)` after a failed load
    | WriteRaised          // `open(..., "w")` raised

  /** The record `add_movie` stores: `{"rating": rating, "year": year}`. */
  function Entry(rating: real, year: int): (r: Record)
    ensures r.Keys == {RatingField, YearField}
    ensures r[RatingField] == Real(rating) && r[YearField] == Int(year)
  {
    map[RatingField := Real(rating), YearField := Int(year)]
  }

  /** `movies[title]["rating"] = rating`: the rating of one title changes, nothing else. */
  function Rerated(movies: Collection, title: string, rating: real): (r: Collection)
    requires title in movies
    ensures r.Keys == movies.Keys
    ensures r[title].Keys == movies[title].Keys + {RatingField}
    ensures r[title][RatingField] == Real(rating)
    ensures forall k :: k in movies[title] && k != RatingField ==> r[title][k] == movies[title][k]
    ensures forall t :: t in movies && t != title ==> r[t] == movies[t]
  {
    movies[title := movies[title][RatingField := Real(rating)]]
  }

  /** Updating the rating of a stored entry keeps its year. */
  lemma RerateKeepsYear(movies: Collection, title: string, rating: real, year: int)
    requires title in movies && YearField in movies[title] && movies[title][YearField] == Int(year)
    ensures Rerated(movies, title, rating)[title][YearField] == Int(year)
    ensures Rerated(movies, title, rating)[title].Keys == movies[title].Keys + {RatingField}
  {
  }

  /** Adding and then updating one title leaves the new rating and the first year. */
  lemma AddThenRerate(movies: Collection, title: string, rating: real, year: int, newRating: real)
    ensures title in StorageContract.Merged(movies, map[title := Entry(rating, year)])
    ensures Rerated(StorageContract.Merged(movies, map[title := Entry(rating, year)]), title, newRating)[title]
      == Entry(newRating, year)
  {
    var added := StorageContract.Merged(movies, map[title := Entry(rating, year)]);
    assert added[title][RatingField := Real(newRating)] == Entry(newRating, year);
  }

  class MovieDatabase {
    /** The file `movies_database.json`. */
    var file: StorageJson.JsonFile

    constructor (onDisk: StorageJson.JsonFile)
      ensures file == onDisk
    {
      file := onDisk;
    }

    /** `get_movies`: the decoded map, or the end of the process. */
    method GetMovies() returns (r: Result<Collection, Stop>)
      ensures file.Holds? ==> r == Ok(file.movies)
      ensures !file.Holds? ==> r == Err(Exited(1))
    {
      if file.Holds? {
        r := Ok(file.movies);
      } else {
        r := Err(Exited(1));
      }
    }

    /** The state `save_movies(movies)` leaves, starting from file `before`. */
    ghost predicate Saved(before: StorageJson.JsonFile, movies: Collection, w: WriteResult, out: Outcome<Stop>)
      reads this
    {
      if w.Written? then file == StorageJson.Holds(movies) && out == Pass
      else file == before && out == Fail(WriteRaised)
    }

    /** `save_movies`: the whole file is replaced; a failed open raises. */
    method SaveMovies(movies: Collection, w: WriteResult) returns (out: Outcome<Stop>)
      modifies this
      ensures Saved(old(file), movies, w, out)
    {
      if w.Written? {
        file := StorageJson.Holds(movies);
        out := Pass;
      } else {
        out := Fail(WriteRaised);
      }
    }

    /** `add_movie(title, rating, year)`: the title maps to `{rating, year}`; others keep theirs. */
    method AddMovie(title: string, rating: real, year: int, w: WriteResult) returns (out: Outcome<Stop>)
      modifies this
      ensures !old(file).Holds? ==> file == old(file) && out == Fail(Exited(1))
      ensures old(file).Holds? ==>
        Saved(old(file), StorageContract.Merged(old(file).movies, map[title := Entry(rating, year)]), w, out)
    {
      var loaded := GetMovies();
      if loaded.Err? {
        return Fail(loaded.error);
      }
      var movies := loaded.value;
      movies := movies + map[title := Entry(rating, year)];
      out := SaveMovies(movies, w);
    }

    /** `delete_movie(title)`: `del movies[title]` demands a present title. */
    method DeleteMovie(title: string, w: WriteResult) returns (out: Outcome<Stop>)
      requires file.Holds? ==> title in file.movies
      modifies this
      ensures !old(file).Holds? ==> file == old(file) && out == Fail(Exited(1))
      ensures old(file).Holds? ==> Saved(old(file), StorageContract.Removed(old(file).movies, title), w, out)
    {
      var loaded := GetMovies();
      if loaded.Err? {
        return Fail(loaded.error);
      }
      var movies := loaded.value;
      movies := movies - {title};
      out := SaveMovies(movies, w);
    }

    /** `update_movie(title, rating)`: `movies[title]` demands a present title. */
    method UpdateMovie(title: string, rating: real, w: WriteResult) returns (out: Outcome<Stop>)
      requires file.Holds? ==> title in file.movies
      modifies this
      ensures !old(file).Holds? ==> file == old(file) && out == Fail(Exited(1))
      ensures old(file).Holds? ==> Saved(old(file), Rerated(old(file).movies, title, rating), w, out)
    {
      var loaded := GetMovies();
      if loaded.Err? {
        return Fail(loaded.error);
      }
      var movies := loaded.value;
      movies := movies[title := movies[title][RatingField := Real(rating)]];
      out := SaveMovies(movies, w);
    }
  }
}
