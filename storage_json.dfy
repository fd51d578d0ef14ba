/**
 * The JSON backend (storage/storage_json.py).  The backing file is a small
 * state machine: missing, holding text the json module cannot decode, or
 * holding a decoded object.  Encoding and decoding themselves are library
 * code: a file in state `Holds(m)` is one that `json.load` reads back as `m`.
 */
module StorageJson {
  import opened Catalog

  /** The backing file as the json module sees it. */
  datatype JsonFile = Missing | Undecodable | Holds(movies: Collection)

  /** `get_movies`: the decoded object; `{}` when the file is missing or undecodable. */
  function Load(file: JsonFile): Collection {
    match file
    case Holds(movies) => movies
    case Missing => map[]
    case Undecodable => map[]
  }

  /**
   * `save_movies`: the whole file is replaced by the encoded map; when the file
   * cannot be opened for writing it stays as it was (the IOError is reported,
   * not raised).
   */
  function Save(file: JsonFile, movies: Collection, w: WriteResult): JsonFile {
    if w.Written? then Holds(movies) else file
  }

  /** `__init__`: a file that does not exist yet is created holding `{}`. */
  function Created(onDisk: JsonFile): JsonFile {
    if onDisk.Missing? then Save(onDisk, map[], Written) else onDisk
  }

  /** Loading after a successful save returns exactly the saved map. */
  lemma LoadAfterSave(file: JsonFile, movies: Collection)
    ensures Load(Save(file, movies, Written)) == movies
  {
  }

  /** A successful save keeps nothing of what the file held before. */
  lemma SaveOverwrites(a: JsonFile, b: JsonFile, movies: Collection)
    ensures Save(a, movies, Written) == Save(b, movies, Written)
  {
  }

  /** A refused write leaves the file as it was and nothing is raised. */
  lemma RefusedSaveKeepsFile(file: JsonFile, movies: Collection)
    ensures Save(file, movies, Refused) == file
  {
  }

  /** Missing or undecodable content degrades to the empty collection. */
  lemma LoadDegradesToEmpty(file: JsonFile)
    requires !file.Holds?
    ensures Load(file) == map[]
  {
  }

  /** Constructing on a missing path leaves a file holding the empty map. */
  lemma CreatedOnMissingPath()
    ensures Created(Missing) == Holds(map[])
    ensures Load(Created(Missing)) == map[]
  {
  }

  /** Constructing on an existing path leaves the file untouched. */
  lemma CreatedKeepsExistingFile(onDisk: JsonFile)
    requires !onDisk.Missing?
    ensures Created(onDisk) == onDisk
  {
  }
}
