/**
 * The first version of the menu commands (crud.py), over the module-level
 * store of movie_storage.py.  The user's lines are parameters; each prompt
 * consumes a prefix of them and the next prompt reads the rest.
 */
module LegacyCrud {
  import opened Catalog
  import opened Console
  import opened StorageContract
  import opened MovieStorage

  /** The category `get_num` compares with before refusing a decimal point. */
  const IntegralLabel: string := "year"

  /** `get_num(prompt, category)`: the first line holding an acceptable number. */
  method GetNum(lines: seq<string>, category: string, nt: NumberText) returns (r: Answer<real>, used: nat)
    ensures (r, used) == NumAnswer(lines, category, IntegralLabel, nt)
  {
    var i := Prompt(lines, l => Accepted(l, nt.parseReal(l), category, IntegralLabel));
    if i == |lines| {
      return EndOfInput, |lines|;
    }
    r := Given(nt.parseReal(lines[i]).value);
    used := i + 1;
  }

  /** `is_movie_in_dict(name, movies)`: the name is a key ignoring case. */
  method IsMovieInDict(name: string, movies: Collection) returns (r: bool)
    ensures r == InDict(name, movies.Keys)
  {
    r := Lower(name) in LoweredKeys(movies.Keys);
    InDictIsLoweredMembership(name, movies.Keys);
  }

  /** `get_new_title(existing_titles)`: blank lines are asked again. */
  method GetNewTitle(lines: seq<string>, movies: Collection) returns (r: Answer<Option<string>>, used: nat)
    ensures (r, used) == NewTitleAnswer(lines, movies.Keys)
  {
    var i := Prompt(lines, NonBlank);
    if i == |lines| {
      return EndOfInput, |lines|;
    }
    var title := Strip(lines[i]);
    var known := IsMovieInDict(title, movies);
    r := Given(if known then None else Some(title));
    used := i + 1;
  }

  /** The year and rating `add_movie` asks for after the title, and the lines they take. */
  function YearAndRating(lines: seq<string>, nt: NumberText): (r: Option<(int, real)>)
    ensures r.Some? ==> 0 <= r.value.0 && 0.0 <= r.value.1
    ensures r.Some? ==> NumAnswer(lines, YearField, IntegralLabel, nt).0.Given?
    ensures r.Some? ==> r.value.0 == NumAnswer(lines, YearField, IntegralLabel, nt).0.value.Floor
    ensures r.None? <==>
      (|| NumAnswer(lines, YearField, IntegralLabel, nt).0.EndOfInput?
       || NumAnswer(lines[NumAnswer(lines, YearField, IntegralLabel, nt).1..], RatingField, IntegralLabel, nt).0.EndOfInput?)
  {
    var (year, u) := NumAnswer(lines, YearField, IntegralLabel, nt);
    var (rating, _) := NumAnswer(lines[u..], RatingField, IntegralLabel, nt);
    if year.EndOfInput? || rating.EndOfInput? then None else Some((year.value.Floor, rating.value))
  }

  /**
   * `add_movie`: a title that already exists (ignoring case) stores nothing;
   * otherwise the year (as `int()` of the accepted number) and the rating are
   * read and the store gains `{rating, year}` under the new title.
   */
  method AddMovie(db: MovieDatabase, lines: seq<string>, nt: NumberText, w: WriteResult) returns (report: Report<Stop>)
    modifies db
    ensures !old(db.file).Holds? ==> report == Raised(Exited(1)) && db.file == old(db.file)
    ensures old(db.file).Holds? ==>
      var (answer, u) := NewTitleAnswer(lines, old(db.file).movies.Keys);
      && (answer.EndOfInput? ==> report == InputEnded && db.file == old(db.file))
      && (answer == Given(None) ==> report == AlreadyExists && db.file == old(db.file))
      && (answer.Given? && answer.value.Some? && YearAndRating(lines[u..], nt).None? ==>
            report == InputEnded && db.file == old(db.file))
      && (answer.Given? && answer.value.Some? && YearAndRating(lines[u..], nt).Some? ==>
            var (year, rating) := YearAndRating(lines[u..], nt).value;
            && (report == Done(answer.value.value) || report == Raised(WriteRaised))
            && db.Saved(old(db.file), Merged(old(db.file).movies, map[answer.value.value := Entry(rating, year)]), w,
                        if report.Done? then Pass else Fail(WriteRaised)))
  {
    var movies := db.GetMovies();
    if movies.Err? {
      return Raised(movies.error);
    }
    var newName, u := GetNewTitle(lines, movies.value);
    if newName.EndOfInput? {
      return InputEnded;
    }
    if newName.value.None? {
      return AlreadyExists;
    }
    var rest := lines[u..];
    var year, u2 := GetNum(rest, YearField, nt);
    if year.EndOfInput? {
      return InputEnded;
    }
    var rating, _ := GetNum(rest[u2..], RatingField, nt);
    if rating.EndOfInput? {
      return InputEnded;
    }
    var out := db.AddMovie(newName.value.value, rating.value, year.value.Floor, w);
    report := if out.Pass? then Done(newName.value.value) else Raised(WriteRaised);
  }

  /**
   * `delete_movie`: the store is asked to delete only a name that is exactly a
   * key, so the `KeyError` of the store's `del` cannot happen.
   */
  method DeleteMovie(db: MovieDatabase, answer: string, w: WriteResult) returns (report: Report<Stop>)
    modifies db
    ensures !old(db.file).Holds? ==> report == Raised(Exited(1)) && db.file == old(db.file)
    ensures old(db.file).Holds? && old(db.file).movies == map[] ==> report == NoMovies && db.file == old(db.file)
    ensures old(db.file).Holds? && old(db.file).movies != map[] ==>
      var name := Strip(answer);
      && (name !in old(db.file).movies ==> report == NotFound(name) && db.file == old(db.file))
      && (name in old(db.file).movies ==>
            && (report == Done(name) || report == Raised(WriteRaised))
            && db.Saved(old(db.file), Removed(old(db.file).movies, name), w,
                        if report.Done? then Pass else Fail(WriteRaised)))
  {
    var movies := db.GetMovies();
    if movies.Err? {
      return Raised(movies.error);
    }
    if movies.value == map[] {
      return NoMovies;
    }
    var name := Strip(answer);
    if name in movies.value {
      var out := db.DeleteMovie(name, w);
      report := if out.Pass? then Done(name) else Raised(WriteRaised);
    } else {
      report := NotFound(name);
    }
  }

  /** `update_movie`: a present name is given the next acceptable rating; others change nothing. */
  method UpdateMovie(db: MovieDatabase, answer: string, lines: seq<string>, nt: NumberText, w: WriteResult)
    returns (report: Report<Stop>)
    modifies db
    ensures !old(db.file).Holds? ==> report == Raised(Exited(1)) && db.file == old(db.file)
    ensures old(db.file).Holds? && old(db.file).movies == map[] ==> report == NoMovies && db.file == old(db.file)
    ensures old(db.file).Holds? && old(db.file).movies != map[] ==>
      var name := Strip(answer);
      var rating := NumAnswer(lines, RatingField, IntegralLabel, nt).0;
      && (name !in old(db.file).movies ==> report == NotFound(name) && db.file == old(db.file))
      && (name in old(db.file).movies && rating.EndOfInput? ==> report == InputEnded && db.file == old(db.file))
      && (name in old(db.file).movies && rating.Given? ==>
            && (report == Done(name) || report == Raised(WriteRaised))
            && db.Saved(old(db.file), Rerated(old(db.file).movies, name, rating.value), w,
                        if report.Done? then Pass else Fail(WriteRaised)))
  {
    var movies := db.GetMovies();
    if movies.Err? {
      return Raised(movies.error);
    }
    if movies.value == map[] {
      return NoMovies;
    }
    var name := Strip(answer);
    if name !in movies.value {
      return NotFound(name);
    }
    var rating, _ := GetNum(lines, RatingField, nt);
    if rating.EndOfInput? {
      return InputEnded;
    }
    var out := db.UpdateMovie(name, rating.value, w);
    report := if out.Pass? then Done(name) else Raised(WriteRaised);
  }

  /** A title added through `add_movie` carries exactly the year and rating that were read. */
  lemma AddedEntryHasBothFields(movies: Collection, title: string, rating: real, year: int)
    ensures var added := Merged(movies, map[title := Entry(rating, year)]);
      && title in added && added[title].Keys == {RatingField, YearField}
      && added[title][YearField] == Int(year) && added[title][RatingField] == Real(rating)
  {
  }
}
