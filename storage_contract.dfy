/**
 * The storage contract (storage/istorage.py) together with its two backends.
 * `add_movie`, `delete_movie` and `update_movie` are written once, on top of
 * `get_movies` and `save_movies`: each call loads the whole title map,
 * changes it and writes all of it back.  The backend of a storage object is
 * fixed when it is built (`format`); the backing file is the field `disk`.
 */
module StorageContract {
  import opened Catalog
  import StorageJson
  import StorageCsv

  /** Which implementation of the interface an object is. */
  datatype Format = Json | Csv(numbers: NumberText)

  /** The backing file, as the backend sees it. */
  datatype Disk = JsonDisk(json: StorageJson.JsonFile) | CsvDisk(csv: StorageCsv.CsvFile)

  /** The exceptions that leave a storage method. */
  datatype Fault =
    | RowFailed(fault: StorageCsv.RowFault)  // a CSV row that `get_movies` cannot convert
    | WriteFailed                            // `to_csv` could not write the file

  /** The backend and the file agree on the format. */
  predicate Matches(format: Format, disk: Disk) {
    format.Json? <==> disk.JsonDisk?
  }

  /** What `get_movies` returns (or raises) for a file in state `disk`. */
  function LoadFrom(format: Format, disk: Disk): (r: Result<Collection, Fault>)
    requires Matches(format, disk)
    ensures disk.JsonDisk? ==> r == Ok(StorageJson.Load(disk.json))
    ensures disk.CsvDisk? && !disk.csv.Table? ==> r == Ok(map[])
    ensures r.Err? ==> disk.CsvDisk? && r.error.RowFailed?
  {
    match disk
    case JsonDisk(f) => Ok(StorageJson.Load(f))
    case CsvDisk(f) =>
      match StorageCsv.Load(f, format.numbers)
      case Ok(movies) => Ok(movies)
      case Err(e) => Err(RowFailed(e))
  }

  /** `disk` is what a successful `save_movies(movies)` leaves behind. */
  ghost predicate StoresOn(format: Format, disk: Disk, movies: Collection) {
    match format
    case Json => disk == JsonDisk(StorageJson.Holds(movies))
    case Csv(nt) =>
      && disk.CsvDisk?
      && exists order :: Enumerates(order, movies.Keys) &&
           disk.csv == StorageCsv.Table(StorageCsv.TableRows(movies, order, nt))
  }

  /** Every record carries exactly the five schema fields, with numeric rating and year. */
  predicate AllComplete(movies: Collection) {
    forall t :: t in movies ==> StorageCsv.Complete(movies[t])
  }

  /**
   * Loading a saved file gives back the saved map: always for JSON; for CSV
   * when every record is complete and the number conversions read back what
   * they wrote.
   */
  lemma ReloadAfterSave(format: Format, disk: Disk, movies: Collection)
    requires StoresOn(format, disk, movies)
    requires format.Csv? ==> RoundTrips(format.numbers) && AllComplete(movies)
    ensures Matches(format, disk) && LoadFrom(format, disk) == Ok(movies)
  {
    if format.Csv? {
      CsvReloadAfterSave(format.numbers, disk, movies);
    }
  }

  /** The CSV half of `ReloadAfterSave`. */
  lemma CsvReloadAfterSave(nt: NumberText, disk: Disk, movies: Collection)
    requires StoresOn(Csv(nt), disk, movies)
    requires RoundTrips(nt) && AllComplete(movies)
    ensures Matches(Csv(nt), disk) && LoadFrom(Csv(nt), disk) == Ok(movies)
  {
    var order :| Enumerates(order, movies.Keys) &&
      disk.csv == StorageCsv.Table(StorageCsv.TableRows(movies, order, nt));
    StorageCsv.TableRoundTrip(movies, order, nt);
    assert StorageCsv.Load(disk.csv, nt) == Ok(movies);
  }

  // ------------------------------------------------ the in-memory edits

  /** `movies.update(movie)`: every title of `movie` takes its new record. */
  function Merged(movies: Collection, movie: Collection): (r: Collection)
    ensures r.Keys == movies.Keys + movie.Keys
    ensures forall t :: t in movie ==> r[t] == movie[t]
    ensures forall t :: t in movies && t !in movie ==> r[t] == movies[t]
  {
    movies + movie
  }

  /** `del movies[title]`: the title is gone, every other title keeps its record. */
  function Removed(movies: Collection, title: string): (r: Collection)
    ensures title !in r
    ensures r.Keys == movies.Keys - {title}
    ensures forall t :: t in r ==> r[t] == movies[t]
  {
    movies - {title}
  }

  /**
   * `movies[title]["Notes"] = notes`: only the `Notes` field of `title` changes
   * (the key is added if it was missing).
   */
  function Annotated(movies: Collection, title: string, notes: string): (r: Collection)
    requires title in movies
    ensures r.Keys == movies.Keys
    ensures r[title].Keys == movies[title].Keys + {NotesKey}
    ensures r[title][NotesKey] == Text(notes)
    ensures forall k :: k in movies[title] && k != NotesKey ==> r[title][k] == movies[title][k]
    ensures forall t :: t in movies && t != title ==> r[t] == movies[t]
  {
    movies[title := movies[title][NotesKey := Text(notes)]]
  }

  /** Adding the same map twice leaves the same store as adding it once. */
  lemma MergeIdempotent(movies: Collection, movie: Collection)
    ensures Merged(Merged(movies, movie), movie) == Merged(movies, movie)
  {
  }

  /** Two additions under one title leave one entry, holding the later record. */
  lemma LaterAddWins(movies: Collection, title: string, first: Record, second: Record)
    ensures Merged(Merged(movies, map[title := first]), map[title := second])
      == Merged(movies, map[title := second])
  {
  }

  /** Adding a single-title map and then deleting that title leaves it absent. */
  lemma AddThenDelete(movies: Collection, title: string, details: Record)
    ensures title !in Removed(Merged(movies, map[title := details]), title)
    ensures Removed(Merged(movies, map[title := details]), title) == Removed(movies, title)
  {
  }

  /** Setting the same notes twice is the same as setting them once. */
  lemma AnnotateIdempotent(movies: Collection, title: string, notes: string)
    requires title in movies
    ensures Annotated(Annotated(movies, title, notes), title, notes) == Annotated(movies, title, notes)
  {
    var once := Annotated(movies, title, notes);
    assert once[title][NotesKey := Text(notes)] == once[title];
  }

  // ------------------------------------------------ the storage object

  class Storage {
    const format: Format
    var disk: Disk

    ghost predicate Valid()
      reads this
    {
      Matches(format, disk)
    }

    /** What `get_movies` would return now. */
    function Load(): Result<Collection, Fault>
      reads this
      requires Valid()
    {
      LoadFrom(format, disk)
    }

    /** The file now holds `movies` as `save_movies(movies)` writes it. */
    ghost predicate Stores(movies: Collection)
      reads this
    {
      StoresOn(format, disk, movies)
    }

    /**
     * The state `save_movies(movies)` leaves, starting from file `before`: a
     * write that succeeds stores `movies`; a refused write leaves the file as
     * it was, and raises only for CSV (the JSON backend reports and returns).
     */
    ghost predicate AfterSave(before: Disk, movies: Collection, w: WriteResult, out: Outcome<Fault>)
      reads this
    {
      if w.Written? then Stores(movies) && out == Pass
      else disk == before && out == (if format.Json? then Pass else Fail(WriteFailed))
    }

    /** `StorageJson(filepath)`: a missing file is created holding `{}`. */
    constructor OpenJson(onDisk: StorageJson.JsonFile)
      ensures Valid() && format == Json
      ensures disk == JsonDisk(StorageJson.Created(onDisk))
      ensures onDisk.Missing? ==> Stores(map[]) && Load() == Ok(map[])
    {
      format := Json;
      disk := JsonDisk(StorageJson.Created(onDisk));
    }

    /** `StorageCsv(filepath)`: a missing file is written from `{}`. */
    constructor OpenCsv(onDisk: StorageCsv.CsvFile, numbers: NumberText)
      ensures Valid() && format == Csv(numbers)
      ensures disk == CsvDisk(StorageCsv.Created(onDisk, numbers))
      ensures onDisk.Missing? ==> Stores(map[]) && Load() == Ok(map[])
    {
      format := Csv(numbers);
      disk := CsvDisk(StorageCsv.Created(onDisk, numbers));
      ghost var none: Collection := map[];
      assert Enumerates([], none.Keys);
    }

    /** `get_movies`. */
    method GetMovies() returns (r: Result<Collection, Fault>)
      requires Valid()
      ensures r == Load()
    {
      match disk
      case JsonDisk(f) =>
        r := Ok(StorageJson.Load(f));
      case CsvDisk(f) =>
        if f.Table? {
          var read := StorageCsv.ReadRows(f.rows, format.numbers);
          r := if read.Ok? then Ok(read.value) else Err(RowFailed(read.error));
        } else {
          r := Ok(map[]);
        }
    }

    /** `save_movies`: the whole file is replaced. */
    method SaveMovies(movies: Collection, w: WriteResult) returns (out: Outcome<Fault>)
      requires Valid()
      modifies this
      ensures Valid()
      ensures AfterSave(old(disk), movies, w, out)
    {
      match format
      case Json =>
        disk := JsonDisk(StorageJson.Save(disk.json, movies, w));
        out := Pass;
      case Csv(nt) =>
        if w.Refused? {
          out := Fail(WriteFailed);
        } else {
          var rows, order := StorageCsv.WriteRows(movies, nt);
          disk := CsvDisk(StorageCsv.Table(rows));
          out := Pass;
        }
    }

    /** `add_movie(movie)`: load, `update` with `movie`, save. */
    method AddMovie(movie: Collection, w: WriteResult) returns (out: Outcome<Fault>)
      requires Valid()
      modifies this
      ensures Valid()
      ensures old(Load()).Err? ==> disk == old(disk) && out == Fail(old(Load()).error)
      ensures old(Load()).Ok? ==> AfterSave(old(disk), Merged(old(Load()).value, movie), w, out)
    {
      var loaded := GetMovies();
      if loaded.Err? {
        return Fail(loaded.error);
      }
      var movies := loaded.value;
      movies := movies + movie;
      out := SaveMovies(movies, w);
    }

    /** `delete_movie(title)`: saves only when the title is present. */
    method DeleteMovie(title: string, w: WriteResult) returns (out: Outcome<Fault>)
      requires Valid()
      modifies this
      ensures Valid()
      ensures old(Load()).Err? ==> disk == old(disk) && out == Fail(old(Load()).error)
      ensures old(Load()).Ok? && title !in old(Load()).value ==> disk == old(disk) && out == Pass
      ensures old(Load()).Ok? && title in old(Load()).value ==>
        AfterSave(old(disk), Removed(old(Load()).value, title), w, out)
    {
      var loaded := GetMovies();
      if loaded.Err? {
        return Fail(loaded.error);
      }
      var movies := loaded.value;
      if title in movies {
        movies := movies - {title};
        out := SaveMovies(movies, w);
      } else {
        out := Pass;
      }
    }

    /** `update_movie(title, notes)`: sets the notes of a present title and saves. */
    method UpdateMovie(title: string, notes: string, w: WriteResult) returns (out: Outcome<Fault>)
      requires Valid()
      modifies this
      ensures Valid()
      ensures old(Load()).Err? ==> disk == old(disk) && out == Fail(old(Load()).error)
      ensures old(Load()).Ok? && title !in old(Load()).value ==> disk == old(disk) && out == Pass
      ensures old(Load()).Ok? && title in old(Load()).value ==>
        AfterSave(old(disk), Annotated(old(Load()).value, title, notes), w, out)
    {
      var loaded := GetMovies();
      if loaded.Err? {
        return Fail(loaded.error);
      }
      var movies := loaded.value;
      if title in movies {
        movies := movies[title := movies[title][NotesKey := Text(notes)]];
        out := SaveMovies(movies, w);
      } else {
        out := Pass;
      }
    }
  }
}
