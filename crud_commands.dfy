/**
 * The menu commands that change the catalogue (commands/crud.py).  A `Crud`
 * object holds a storage object and goes through its interface only.  The
 * user's lines are parameters, and so is the downloader's answer for a new
 * title (`None` when `fetch_movie_data` raises).
 */
module CrudCommands {
  import opened Catalog
  import opened Console
  import opened StorageContract

  /** The category `get_num` compares with before refusing a decimal point. */
  const IntegralLabel: string := "Year"

  /** The exceptions that leave a command. */
  datatype CrudFault = StorageFault(fault: Fault) | ApiFailed

  /** The outcome the storage call of a command had, read back from its report. */
  function SaveOutcome(report: Report<CrudFault>): Outcome<Fault> {
    if report.Raised? && report.error.StorageFault? then Fail(report.error.fault) else Pass
  }

  class Crud {
    const movies: Storage

    constructor (storage: Storage)
      ensures movies == storage
    {
      movies := storage;
    }

    /** `get_num`: the first line holding a non-negative number (no '.' for "Year"). */
    static method GetNum(lines: seq<string>, category: string, nt: NumberText) returns (r: Answer<real>, used: nat)
      ensures (r, used) == NumAnswer(lines, category, IntegralLabel, nt)
    {
      var i := Prompt(lines, l => Accepted(l, nt.parseReal(l), category, IntegralLabel));
      if i == |lines| {
        return EndOfInput, |lines|;
      }
      r := Given(nt.parseReal(lines[i]).value);
      used := i + 1;
    }

    /** `is_movie_in_dict`: loads the map and looks the name up ignoring case. */
    method IsMovieInDict(name: string) returns (r: Result<bool, Fault>)
      requires movies.Valid()
      ensures movies.Load().Ok? ==> r == Ok(InDict(name, movies.Load().value.Keys))
      ensures movies.Load().Err? ==> r == Err(movies.Load().error)
    {
      var loaded := movies.GetMovies();
      if loaded.Err? {
        return Err(loaded.error);
      }
      r := Ok(Lower(name) in LoweredKeys(loaded.value.Keys));
      InDictIsLoweredMembership(name, loaded.value.Keys);
    }

    /** `get_new_title`: the first non-blank line decides; the store is read only then. */
    method GetNewTitle(lines: seq<string>) returns (r: Result<Answer<Option<string>>, Fault>, used: nat)
      requires movies.Valid()
      ensures FirstWhere(lines, NonBlank) == |lines| ==> r == Ok(EndOfInput) && used == |lines|
      ensures FirstWhere(lines, NonBlank) < |lines| && movies.Load().Err? ==>
        r == Err(movies.Load().error) && used == FirstWhere(lines, NonBlank) + 1
      ensures movies.Load().Ok? ==>
        (r, used) == (Ok(NewTitleAnswer(lines, movies.Load().value.Keys).0), NewTitleAnswer(lines, movies.Load().value.Keys).1)
    {
      var i := Prompt(lines, NonBlank);
      if i == |lines| {
        return Ok(EndOfInput), |lines|;
      }
      var title := Strip(lines[i]);
      used := i + 1;
      var exists_ := IsMovieInDict(title);
      if exists_.Err? {
        return Err(exists_.error), used;
      }
      r := Ok(Given(if exists_.value then None else Some(title)));
    }

    /**
     * `add_movie`: loads the map, asks for a title that does not exist yet,
     * fetches its record and adds it through the storage interface.
     */
    method AddMovie(lines: seq<string>, fetched: Option<Collection>, w: WriteResult) returns (report: Report<CrudFault>)
      requires movies.Valid()
      modifies movies
      ensures movies.Valid()
      ensures old(movies.Load()).Err? ==>
        report == Raised(StorageFault(old(movies.Load()).error)) && movies.disk == old(movies.disk)
      ensures old(movies.Load()).Ok? ==>
        var answer := NewTitleAnswer(lines, old(movies.Load()).value.Keys).0;
        && (answer.EndOfInput? ==> report == InputEnded && movies.disk == old(movies.disk))
        && (answer == Given(None) ==> report == AlreadyExists && movies.disk == old(movies.disk))
        && (answer.Given? && answer.value.Some? && fetched.None? ==>
              report == Raised(ApiFailed) && movies.disk == old(movies.disk))
        && (answer.Given? && answer.value.Some? && fetched.Some? ==>
              && (report == Done(answer.value.value) || report.Raised?)
              && movies.AfterSave(old(movies.disk), Merged(old(movies.Load()).value, fetched.value), w, SaveOutcome(report)))
    {
      var loaded := movies.GetMovies();
      if loaded.Err? {
        return Raised(StorageFault(loaded.error));
      }
      // The store loaded above, so the title prompt cannot fail to load it.
      var newName, used := GetNewTitle(lines);
      if newName.value.EndOfInput? {
        return InputEnded;
      }
      if newName.value.value.None? {
        return AlreadyExists;
      }
      if fetched.None? {
        return Raised(ApiFailed);
      }
      var out := movies.AddMovie(fetched.value, w);
      report := if out.Pass? then Done(newName.value.value.value) else Raised(StorageFault(out.error));
    }

    /**
     * `delete_movie`: the storage is asked to delete only when the stripped
     * answer is exactly (case included) one of the titles.
     */
    method DeleteMovie(answer: string, w: WriteResult) returns (report: Report<CrudFault>)
      requires movies.Valid()
      modifies movies
      ensures movies.Valid()
      ensures old(movies.Load()).Err? ==>
        report == Raised(StorageFault(old(movies.Load()).error)) && movies.disk == old(movies.disk)
      ensures old(movies.Load()).Ok? && old(movies.Load()).value == map[] ==>
        report == NoMovies && movies.disk == old(movies.disk)
      ensures old(movies.Load()).Ok? && old(movies.Load()).value != map[] ==>
        var name := Strip(answer);
        && (name !in old(movies.Load()).value ==> report == NotFound(name) && movies.disk == old(movies.disk))
        && (name in old(movies.Load()).value ==>
              && (report == Done(name) || report.Raised?)
              && movies.AfterSave(old(movies.disk), Removed(old(movies.Load()).value, name), w, SaveOutcome(report)))
      ensures movies.disk != old(movies.disk) ==> old(movies.Load()).Ok? && Strip(answer) in old(movies.Load()).value
    {
      var loaded := movies.GetMovies();
      if loaded.Err? {
        return Raised(StorageFault(loaded.error));
      }
      if loaded.value == map[] {
        return NoMovies;
      }
      var name := Strip(answer);
      if name in loaded.value {
        var out := movies.DeleteMovie(name, w);
        report := if out.Pass? then Done(name) else Raised(StorageFault(out.error));
      } else {
        report := NotFound(name);
      }
    }

    /** `update_movie`: the note is stored only when the stripped answer is exactly a title. */
    method UpdateMovie(answer: string, note: string, w: WriteResult) returns (report: Report<CrudFault>)
      requires movies.Valid()
      modifies movies
      ensures movies.Valid()
      ensures old(movies.Load()).Err? ==>
        report == Raised(StorageFault(old(movies.Load()).error)) && movies.disk == old(movies.disk)
      ensures old(movies.Load()).Ok? && old(movies.Load()).value == map[] ==>
        report == NoMovies && movies.disk == old(movies.disk)
      ensures old(movies.Load()).Ok? && old(movies.Load()).value != map[] ==>
        var name := Strip(answer);
        && (name !in old(movies.Load()).value ==> report == NotFound(name) && movies.disk == old(movies.disk))
        && (name in old(movies.Load()).value ==>
              && (report == Done(name) || report.Raised?)
              && movies.AfterSave(old(movies.disk), Annotated(old(movies.Load()).value, name, note), w, SaveOutcome(report)))
      ensures movies.disk != old(movies.disk) ==> old(movies.Load()).Ok? && Strip(answer) in old(movies.Load()).value
    {
      var loaded := movies.GetMovies();
      if loaded.Err? {
        return Raised(StorageFault(loaded.error));
      }
      if loaded.value == map[] {
        return NoMovies;
      }
      var name := Strip(answer);
      if name in loaded.value {
        var out := movies.UpdateMovie(name, note, w);
        report := if out.Pass? then Done(name) else Raised(StorageFault(out.error));
      } else {
        report := NotFound(name);
      }
    }
  }
}
