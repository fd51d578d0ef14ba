/**
 * Backend selection (storage/__init__.py): a constant table from file suffix
 * to backend, looked up with `Path(path).suffix`.  The path rules are those
 * of a POSIX `pathlib` path: the name is the last component that is neither
 * empty nor ".", and the suffix is the name from its last '.' on, provided that
 * dot is neither the first nor the last character of the name.
 */
module StorageSelect {
  import opened Catalog
  import StorageJson
  import StorageCsv
  import StorageContract

  // --------------------------------------------------------------- paths

  /** `path.split('/')`. */
  function Segments(path: string): (r: seq<string>)
    ensures |r| >= 1
    ensures forall i :: 0 <= i < |r| ==> '/' !in r[i]
  {
    if path == [] then [[]]
    else if path[0] == '/' then [[]] + Segments(path[1..])
    else
      var rest := Segments(path[1..]);
      [[path[0]] + rest[0]] + rest[1..]
  }

  /** `'/'.join(parts)`. */
  function JoinSegments(parts: seq<string>): string
    requires |parts| >= 1
  {
    if |parts| == 1 then parts[0] else parts[0] + "/" + JoinSegments(parts[1..])
  }

  /** Splitting at '/' and joining again gives the path back. */
  lemma {:induction false} SegmentsRoundTrip(path: string)
    ensures JoinSegments(Segments(path)) == path
  {
    if path == [] {
    } else if path[0] == '/' {
      SegmentsRoundTrip(path[1..]);
      assert path == "/" + path[1..];
    } else {
      var rest := Segments(path[1..]);
      SegmentsRoundTrip(path[1..]);
      if |rest| == 1 {
        assert path == [path[0]] + path[1..];
      } else {
        assert ([[path[0]] + rest[0]] + rest[1..])[1..] == rest[1..];
        assert JoinSegments(rest) == rest[0] + "/" + JoinSegments(rest[1..]);
        assert path == [path[0]] + path[1..];
      }
    }
  }

  /** A component `pathlib` keeps: not empty and not ".". */
  predicate Kept(part: string) {
    part != "" && part != "."
  }

  /** The components of the path that `pathlib` keeps, in order. */
  function KeptParts(segments: seq<string>): (r: seq<string>)
    ensures forall i :: 0 <= i < |r| ==> Kept(r[i]) && r[i] in segments
  {
    if segments == [] then []
    else
      var last := segments[|segments| - 1];
      var init := KeptParts(segments[..|segments| - 1]);
      if Kept(last) then init + [last] else init
  }

  /** `Path(path).name`: the last kept component, or "" when there is none. */
  function Name(path: string): (n: string)
    ensures '/' !in n
    ensures n == "" || Kept(n)
  {
    var parts := KeptParts(Segments(path));
    if parts == [] then "" else parts[|parts| - 1]
  }

  /** `name.rfind('.')`. */
  function LastDot(name: string): (i: int)
    ensures -1 <= i < |name|
    ensures i >= 0 ==> name[i] == '.'
    ensures forall j :: i < j < |name| ==> name[j] != '.'
  {
    if name == [] then -1
    else if name[|name| - 1] == '.' then |name| - 1
    else LastDot(name[..|name| - 1])
  }

  /** `PurePath.suffix` of a name. */
  function Suffix(name: string): (r: string)
    ensures r == "" || (|r| >= 2 && r[0] == '.' && '.' !in r[1..] && |r| < |name| && r == name[|name| - |r|..])
  {
    var i := LastDot(name);
    if 0 < i < |name| - 1 then name[i..] else ""
  }

  /** The final extension of a file is its suffix, whatever the stem holds. */
  lemma SuffixOfExtension(stem: string, ext: string)
    requires stem != "" && |ext| >= 2 && ext[0] == '.' && '.' !in ext[1..]
    ensures Suffix(stem + ext) == ext
  {
    var name := stem + ext;
    assert name[|stem|] == '.';
    assert forall j :: |stem| < j < |name| ==> name[j] == ext[1..][j - |stem| - 1];
    assert name[|stem|..] == ext;
  }

  /** A name that is only a dot and an extension (a hidden file) has no suffix. */
  lemma HiddenFileHasNoSuffix(ext: string)
    requires |ext| >= 1 && ext[0] == '.' && '.' !in ext[1..]
    ensures Suffix(ext) == ""
  {
    assert forall j :: 0 < j < |ext| ==> ext[j] == ext[1..][j - 1];
  }

  lemma {:induction false} SegmentsOfChild(dir: string, file: string)
    requires '/' !in file
    ensures Segments(dir + "/" + file) == Segments(dir) + [file]
    decreases |dir|
  {
    if dir == [] {
      assert dir + "/" + file == "/" + file;
      assert ("/" + file)[1..] == file;
      FileIsOneSegment(file);
    } else {
      var path := dir + "/" + file;
      assert path[0] == dir[0];
      assert path[1..] == dir[1..] + "/" + file;
      SegmentsOfChild(dir[1..], file);
      var rest := Segments(dir[1..]);
      assert Segments(path[1..]) == rest + [file];
      if dir[0] != '/' {
        assert (rest + [file])[0] == rest[0];
        assert (rest + [file])[1..] == rest[1..] + [file];
      }
    }
  }

  lemma {:induction false} FileIsOneSegment(file: string)
    requires '/' !in file
    ensures Segments(file) == [file]
  {
    if file != [] {
      FileIsOneSegment(file[1..]);
      assert file == [file[0]] + file[1..];
    }
  }

  /** The name of `dir/file` is `file`, for any directory part. */
  lemma NameOfChild(dir: string, file: string)
    requires '/' !in file && Kept(file)
    ensures Name(dir + "/" + file) == file
  {
    SegmentsOfChild(dir, file);
    var segs := Segments(dir) + [file];
    assert segs[..|segs| - 1] == Segments(dir);
  }

  // ------------------------------------------------------- the loader table

  datatype Kind = CsvKind | JsonKind

  /** `STORAGE_LOADERS`. */
  const Loaders: map<string, Kind> := map[".csv" := CsvKind, ".json" := JsonKind]

  /** `is_valid_path`: the suffix is a key of the table. */
  predicate IsValidPath(path: string) {
    Suffix(Name(path)) in Loaders
  }

  /** `STORAGE_LOADERS.get(Path(path).suffix)`. */
  function LoaderFor(path: string): (r: Option<Kind>)
    ensures r == Some(CsvKind) <==> Suffix(Name(path)) == ".csv"
    ensures r == Some(JsonKind) <==> Suffix(Name(path)) == ".json"
    ensures r.None? <==> Suffix(Name(path)) != ".csv" && Suffix(Name(path)) != ".json"
  {
    var suffix := Suffix(Name(path));
    if suffix in Loaders then Some(Loaders[suffix]) else None
  }

  /** A path is valid exactly when its suffix is ".csv" or ".json", and then a loader is found. */
  lemma ValidIffLoaderFound(path: string)
    ensures IsValidPath(path) <==> Suffix(Name(path)) == ".csv" || Suffix(Name(path)) == ".json"
    ensures IsValidPath(path) <==> LoaderFor(path).Some?
  {
  }

  /** The suffix of `dir/stem.ext` is `.ext`. */
  lemma SuffixOfChild(dir: string, stem: string, ext: string)
    requires '/' !in stem && '/' !in ext && stem != ""
    requires |ext| >= 2 && ext[0] == '.' && '.' !in ext[1..]
    ensures Suffix(Name(dir + "/" + stem + ext)) == ext
  {
    assert dir + "/" + stem + ext == dir + "/" + (stem + ext);
    assert '/' !in stem + ext;
    NameOfChild(dir, stem + ext);
    SuffixOfExtension(stem, ext);
  }

  /** Only the last extension counts: "x.json.csv" is CSV and "x.csv.json" is JSON. */
  lemma LastExtensionDecides(dir: string, stem: string)
    requires '/' !in stem && stem != ""
    ensures LoaderFor(dir + "/" + (stem + ".json") + ".csv") == Some(CsvKind)
    ensures LoaderFor(dir + "/" + (stem + ".csv") + ".json") == Some(JsonKind)
  {
    LastExtensionOf(dir, stem + ".json", ".csv");
    LastExtensionOf(dir, stem + ".csv", ".json");
  }

  /** The loader for `dir/stem.ext`, where `ext` is one of the table's suffixes. */
  lemma LastExtensionOf(dir: string, stem: string, ext: string)
    requires '/' !in stem && stem != ""
    requires ext == ".csv" || ext == ".json"
    ensures LoaderFor(dir + "/" + stem + ext) == Some(Loaders[ext])
  {
    assert '/' !in ext && '.' !in ext[1..];
    SuffixOfChild(dir, stem, ext);
  }

  /** The lookup is case-sensitive: ".CSV" finds no loader. */
  lemma SuffixIsCaseSensitive(dir: string, stem: string)
    requires '/' !in stem && stem != ""
    ensures LoaderFor(dir + "/" + stem + ".CSV") == None
  {
    assert '.' !in ".CSV"[1..];
    SuffixOfChild(dir, stem, ".CSV");
    assert ".CSV"[1] != ".csv"[1];
  }

  /** A further extension hides ".csv": "x.csv.bak" finds no loader. */
  lemma TrailingExtensionHides(dir: string, stem: string)
    requires '/' !in stem && stem != ""
    ensures LoaderFor(dir + "/" + stem + ".csv.bak") == None
  {
    assert '.' !in ".bak"[1..];
    SuffixOfChild(dir, stem + ".csv", ".bak");
    assert dir + "/" + (stem + ".csv") + ".bak" == dir + "/" + stem + ".csv.bak";
    assert ".bak"[1] != ".csv"[1];
    assert |".bak"| != |".json"|;
  }

  /** A file named just ".csv" is a hidden file without suffix, so no loader is found. */
  lemma HiddenCsvFindsNothing(dir: string)
    ensures LoaderFor(dir + "/.csv") == None
  {
    assert dir + "/.csv" == dir + "/" + ".csv";
    NameOfChild(dir, ".csv");
    HiddenFileHasNoSuffix(".csv");
  }

  /**
   * `init_storage(path)`: builds the backend the suffix selects on the file
   * found at `path`.  A path without a known suffix makes the lookup yield
   * `None`, and calling it raises, so a valid path is required.
   */
  method InitStorage(path: string, onDisk: StorageContract.Disk, numbers: NumberText)
    returns (s: StorageContract.Storage)
    requires IsValidPath(path)
    requires onDisk.JsonDisk? <==> LoaderFor(path) == Some(JsonKind)
    ensures fresh(s) && s.Valid()
    ensures LoaderFor(path) == Some(JsonKind) ==>
      s.format == StorageContract.Json && s.disk == StorageContract.JsonDisk(StorageJson.Created(onDisk.json))
    ensures LoaderFor(path) == Some(CsvKind) ==>
      s.format == StorageContract.Csv(numbers) &&
      s.disk == StorageContract.CsvDisk(StorageCsv.Created(onDisk.csv, numbers))
  {
    var kind := Loaders[Suffix(Name(path))];
    if kind == JsonKind {
      s := new StorageContract.Storage.OpenJson(onDisk.json);
    } else {
      s := new StorageContract.Storage.OpenCsv(onDisk.csv, numbers);
    }
  }
}
