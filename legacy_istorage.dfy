/**
 * The older storage interface (istorage.py).  Its `get_movies` and
 * `save_movies` are abstract, so the store is the map they exchange; the three
 * derived operations load it, change it and save all of it back.  Unlike the
 * current interface, `add_movie` takes the four fields one by one and builds a
 * record without `Notes`.
 */
module LegacyStore {
  import opened Catalog
  import StorageContract

  /** The record `add_movie` builds: Rating, Year, Poster and IMDB Link, no Notes. */
  function LegacyRecord(rating: real, year: int, poster: string, link: string): (r: Record)
    ensures r.Keys == RecordFields - {NotesKey}
    ensures NotesKey !in r
    ensures r[RatingKey] == Real(rating) && r[YearKey] == Int(year)
    ensures r[PosterKey] == Text(poster) && r[LinkKey] == Text(link)
  {
    map[RatingKey := Real(rating), YearKey := Int(year), PosterKey := Text(poster), LinkKey := Text(link)]
  }

  /** Re-adding an annotated title through the legacy `add_movie` loses its notes. */
  lemma ReAddDiscardsNotes(movies: Collection, title: string, notes: string,
                           rating: real, year: int, poster: string, link: string)
    requires title in movies
    ensures NotesKey in StorageContract.Annotated(movies, title, notes)[title]
    ensures NotesKey !in StorageContract.Annotated(movies, title, notes)[title := LegacyRecord(rating, year, poster, link)][title]
  {
  }

  class LegacyStorage {
    /** What `get_movies` returns and `save_movies` replaces. */
    var movies: Collection

    constructor (initial: Collection)
      ensures movies == initial
    {
      movies := initial;
    }

    method GetMovies() returns (r: Collection)
      ensures r == movies
    {
      r := movies;
    }

    method SaveMovies(m: Collection)
      modifies this
      ensures movies == m
    {
      movies := m;
    }

    /** `add_movie`: the title maps to a fresh four-field record; other titles keep theirs. */
    method AddMovie(title: string, rating: real, year: int, poster: string, link: string)
      modifies this
      ensures movies.Keys == old(movies).Keys + {title}
      ensures movies[title] == LegacyRecord(rating, year, poster, link)
      ensures forall t :: t in old(movies) && t != title ==> movies[t] == old(movies)[t]
    {
      var loaded := GetMovies();
      loaded := loaded[title := LegacyRecord(rating, year, poster, link)];
      SaveMovies(loaded);
    }

    /** `delete_movie`: a present title is removed and the map saved; otherwise nothing happens. */
    method DeleteMovie(title: string)
      modifies this
      ensures title in old(movies) ==> movies == StorageContract.Removed(old(movies), title)
      ensures title !in old(movies) ==> movies == old(movies)
    {
      var loaded := GetMovies();
      if title in loaded {
        loaded := loaded - {title};
        SaveMovies(loaded);
      }
    }

    /** `update_movie`: only the Notes of a present title change. */
    method UpdateMovie(title: string, notes: string)
      modifies this
      ensures title in old(movies) ==> movies == StorageContract.Annotated(old(movies), title, notes)
      ensures title !in old(movies) ==> movies == old(movies)
    {
      var loaded := GetMovies();
      if title in loaded {
        loaded := loaded[title := loaded[title][NotesKey := Text(notes)]];
        SaveMovies(loaded);
      }
    }
  }
}
