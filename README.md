# Movie catalogue: storage, commands and web page

This project models the core of a console movie catalogue. The catalogue keeps
a title-keyed map of movie records in a JSON or CSV file. Menu commands add,
delete and annotate movies, the analytics commands rank and filter them, and a
generator renders the map as an HTML page.

There are two generations of the program, and both are modelled:

- The current one: a storage interface with JSON and CSV backends, a backend
  chosen by file suffix, the `Crud` and `Analytics` command classes, and the web
  generator.
- The first one: module-level functions over `movies_database.json` with
  lower-case `rating`/`year` fields, plus an older storage interface.

The model is written in Dafny. Its modules:

| module | file | models |
|---|---|---|
| `Catalog` | catalog.dfy | records (`map<string, Value>`), the collection, field names, the library number/text conversions as a parameter |
| `StorageJson` | storage_json.dfy | the JSON backend's file as a state: missing, undecodable, holding a map |
| `StorageCsv` | storage_csv.dfy | the CSV backend: the per-row decode loop and the row flattening and padding of the save |
| `StorageContract` | storage_contract.dfy | the storage interface and both backends as one class `Storage`, with add/delete/update written once over load/save |
| `StorageSelect` | storage_select.dfy | `pathlib` suffix rules, the loader table, `is_valid_path`, `init_storage` |
| `LegacyStore` | legacy_istorage.dfy | the older storage interface, whose `add_movie` takes four fields |
| `MovieStorage` | movie_storage.dfy | the first module-level store over one JSON file |
| `Console` | console.dfy | `strip`/`lower`, the case-insensitive title check, the number-acceptance rule and the prompt loops |
| `CrudCommands` | crud_commands.dfy | the `Crud` command class |
| `LegacyCrud` | legacy_crud.dfy | the first command functions |
| `Analytics` | analytics.dfy | statistics, stable sorting, the yes/no prompt, `get_valid_input` and the filter (both generations) |
| `WebGenerator` | web_generator.dfy | the `<li>` fragment, the grid, template loading and placeholder replacement |

## How the model is built

- **Outside inputs become parameters.** User input is a `seq<string>` of lines, and each prompt loop reads a prefix of it. Running out of lines is the `EndOfInput` answer. Whether a file write succeeds is a `WriteResult`. The downloader's answer is an `Option<Collection>`. Library conversions (`float()`, `int()`, `str()`, the text pandas writes) are the fields of a `NumberText` value.
- **Dict order is explicit.** Where iteration order matters, the order is explicit: the rows the CSV save writes, the items analytics sorts and filters, and the fragments of the grid.
- **One storage class for three Python classes.** The interface and its two backends are one class, because each derived operation is the same code over `get_movies`/`save_movies`. Its `format` is fixed at construction and its `disk` is the backing file. `AfterSave` states what `save_movies` leaves:
  - a write that succeeds stores the map;
  - a refused write leaves the file unchanged;
  - the refusal raises for CSV only.

## Model

| member | source | states |
|---|---|---|
| StorageJson.LoadAfterSave | storage/storage_json.py:34-36 | loading after a successful save returns exactly the saved map |
| StorageJson.SaveOverwrites | storage/storage_json.py:54-56 | a successful save keeps nothing of the previous file: the result does not depend on it |
| StorageJson.RefusedSaveKeepsFile | storage/storage_json.py:57-58 | a write that cannot open the file leaves it unchanged and raises nothing |
| StorageJson.LoadDegradesToEmpty | storage/storage_json.py:37-42 | a missing or undecodable file loads as `{}` |
| StorageJson.CreatedOnMissingPath | storage/storage_json.py:20-21 | constructing on a missing path leaves a file holding `{}` |
| StorageJson.CreatedKeepsExistingFile | storage/storage_json.py:20 | constructing on an existing path leaves the file untouched |
| StorageCsv.DecodeRow | storage/storage_csv.py:40-46 | a row decodes iff Rating parses as a float, Year as an int, and Poster, IMDB Link and Title exist; the record then has exactly the five fields, with the parsed numbers and Notes defaulting to "" |
| StorageCsv.DecodeFrom | storage/storage_csv.py:39-46 | when the loop completes, every row's title is a key, and each record comes from an earlier accumulation or is complete |
| StorageCsv.ReadRows | storage/storage_csv.py:35-47 | the imperative read loop computes exactly `Decoded(rows)` |
| StorageCsv.DecodedRecordsAreComplete | storage/storage_csv.py:40-46 | every loaded record has exactly Rating (real), Year (int), Poster, IMDB Link and Notes; Title is not inside the record |
| StorageCsv.LaterRowWins | storage/storage_csv.py:40 | of two rows with one title, the later one's record is kept |
| StorageCsv.EmptyLoads | storage/storage_csv.py:47-53 | a header-only table, a missing file and a malformed file all load as `{}` |
| StorageCsv.NotesDefaultsToEmpty | storage/storage_csv.py:45 | without a Notes column the record's Notes is "" |
| StorageCsv.FlatRow | storage/storage_csv.py:66 | the flattened row has the Title column and every field of the record, and the record's own fields override the title |
| StorageCsv.Columns | storage/storage_csv.py:68 | every field of every record is a column, Title included; no movies means no columns |
| StorageCsv.Padded | storage/storage_csv.py:68-70 | a row written under the common columns keeps its cells and gets "" for each column it lacks |
| StorageCsv.WriteRows | storage/storage_csv.py:66-70 | the save loop visits every title once (in some order) and writes exactly `TableRows` in that order |
| StorageCsv.CreatedOnMissingPath | storage/storage_csv.py:21-22 | constructing on a missing path writes an empty table, which then loads as `{}` |
| StorageCsv.WrittenRowShape | storage/storage_csv.py:66 | the i-th written row carries the i-th title in Title and the text of each of its fields |
| StorageCsv.ColumnsOfComplete | storage/storage_csv.py:66-68 | for complete records the columns are Title plus the five fields |
| StorageCsv.RowRoundTrip | storage/storage_csv.py:40-46 | a complete record, flattened, padded and decoded, gives back its title and record |
| StorageCsv.DecodeTableFrom | storage/storage_csv.py:39-47 | decoding the written rows from row k onwards, starting from the first k titles, rebuilds the saved map |
| StorageCsv.TableRoundTrip | storage/storage_csv.py:38-47 | loading the rows a save wrote returns the saved map, for complete records |
| StorageContract.LoadFrom | storage/storage_json.py:34-42 | JSON loads the decoded map; a CSV file that is missing or malformed loads `{}`; only a CSV row can raise |
| StorageContract.CsvReloadAfterSave | storage/storage_csv.py:35-70 | with CSV, `get_movies` after `save_movies(m)` returns `m` for complete records |
| StorageContract.ReloadAfterSave | storage/storage_csv.py:55-70 | `get_movies` after a successful `save_movies(m)` returns `m`, for any m with JSON and for complete records with CSV |
| StorageContract.Merged | storage/istorage.py:37 | `update`: the keys are the union; the new map's titles take its records; the others keep theirs |
| StorageContract.Removed | storage/istorage.py:49 | `del`: the title is gone and every other record is unchanged |
| StorageContract.Annotated | storage/istorage.py:62 | only Notes of the title changes (the key is added if missing); all other fields and titles are unchanged |
| StorageContract.MergeIdempotent | storage/istorage.py:37 | adding the same map twice is the same as adding it once |
| StorageContract.LaterAddWins | storage/istorage.py:37 | two adds under one title leave one entry, holding the later record |
| StorageContract.AddThenDelete | storage/istorage.py:36-50 | adding a one-title map and then deleting that title leaves it absent, as if never added |
| StorageContract.AnnotateIdempotent | storage/istorage.py:60-63 | setting the same notes twice equals setting them once |
| StorageContract.Storage.OpenJson | storage/storage_json.py:12-21 | the new JSON object is valid; a missing path holds `{}` and loads as `{}` |
| StorageContract.Storage.OpenCsv | storage/storage_csv.py:13-22 | the new CSV object is valid; a missing path is written from `{}` and loads as `{}` |
| StorageContract.Storage.GetMovies | storage/storage_csv.py:24-53 | returns what the backend's load gives for the current file |
| StorageContract.Storage.SaveMovies | storage/storage_json.py:44-58 | a successful write stores the map; a refused one keeps the file, raising for CSV only |
| StorageContract.Storage.AddMovie | storage/istorage.py:29-38 | a load failure changes nothing and raises; otherwise the saved map is the loaded map updated with `movie` |
| StorageContract.Storage.DeleteMovie | storage/istorage.py:40-50 | an absent title changes nothing and saves nothing; a present one is removed and the map saved |
| StorageContract.Storage.UpdateMovie | storage/istorage.py:52-63 | an absent title changes nothing; a present one gets the notes, and the map is saved |
| StorageSelect.Segments | storage/__init__.py:16 | the path splits at '/' into at least one slash-free segment |
| StorageSelect.SegmentsRoundTrip | storage/__init__.py:16 | joining the segments with '/' gives the path back |
| StorageSelect.Name | storage/__init__.py:16 | the name is "" or the last component that is neither "" nor "." |
| StorageSelect.LastDot | storage/__init__.py:16 | the position of the last '.', or -1 when there is none |
| StorageSelect.Suffix | storage/__init__.py:16 | the suffix is "" or a proper tail of the name that starts with its only '.' |
| StorageSelect.SuffixOfExtension | storage/__init__.py:23 | the suffix of a non-empty stem followed by `.ext` is `.ext` |
| StorageSelect.HiddenFileHasNoSuffix | storage/__init__.py:23 | a name that is only a dot and an extension has no suffix |
| StorageSelect.SegmentsOfChild | storage/__init__.py:16 | the segments of `dir/file` are those of `dir`, then `file` |
| StorageSelect.FileIsOneSegment | storage/__init__.py:16 | a slash-free path is one segment |
| StorageSelect.NameOfChild | storage/__init__.py:16 | the name of `dir/file` is `file` |
| StorageSelect.LoaderFor | storage/__init__.py:5-8 | the loader is CSV iff the suffix is ".csv", JSON iff it is ".json", and none otherwise |
| StorageSelect.ValidIffLoaderFound | storage/__init__.py:16-23 | a path is valid iff its suffix is ".csv" or ".json", iff a loader is found |
| StorageSelect.SuffixOfChild | storage/__init__.py:23 | the suffix of `dir/stem.ext` is `.ext` for any directory |
| StorageSelect.LastExtensionOf | storage/__init__.py:5-8 | `dir/stem.csv` finds the CSV loader and `dir/stem.json` the JSON one |
| StorageSelect.LastExtensionDecides | storage/__init__.py:23 | `dir/stem.json.csv` selects CSV and `dir/stem.csv.json` selects JSON |
| StorageSelect.SuffixIsCaseSensitive | storage/__init__.py:23 | ".CSV" finds no loader |
| StorageSelect.TrailingExtensionHides | storage/__init__.py:23 | "x.csv.bak" finds no loader |
| StorageSelect.HiddenCsvFindsNothing | storage/__init__.py:23 | a file named just ".csv" finds no loader |
| StorageSelect.InitStorage | storage/__init__.py:12-16 | a ".json" path builds the JSON backend and a ".csv" path the CSV one, each on the file found there |
| LegacyStore.LegacyRecord | istorage.py:44-49 | the record has exactly Rating, Year, Poster and IMDB Link, and no Notes |
| LegacyStore.ReAddDiscardsNotes | istorage.py:44-49 | re-adding an annotated title loses its notes |
| LegacyStore.LegacyStorage.constructor | istorage.py:11-29 | the store starts with the given map |
| LegacyStore.LegacyStorage.GetMovies | istorage.py:11-19 | returns the stored map |
| LegacyStore.LegacyStorage.SaveMovies | istorage.py:21-29 | replaces the stored map |
| LegacyStore.LegacyStorage.AddMovie | istorage.py:31-50 | the title maps to the four-field record, and all other titles keep theirs |
| LegacyStore.LegacyStorage.DeleteMovie | istorage.py:52-62 | a present title is removed; an absent one changes nothing |
| LegacyStore.LegacyStorage.UpdateMovie | istorage.py:64-75 | only Notes of a present title changes; an absent title changes nothing |
| MovieStorage.Entry | movie_storage.py:40 | the stored record is exactly `{rating, year}` with the given values |
| MovieStorage.Rerated | movie_storage.py:62 | only `rating` of the title changes; year and other titles stay |
| MovieStorage.RerateKeepsYear | movie_storage.py:61-63 | updating the rating keeps the year |
| MovieStorage.AddThenRerate | movie_storage.py:39-63 | add then update leaves the new rating and the first year |
| MovieStorage.MovieDatabase.constructor | movie_storage.py:15 | the database is the file found on disk |
| MovieStorage.MovieDatabase.GetMovies | movie_storage.py:5-22 | a decodable file gives its map; a missing or undecodable one ends the process with status 1 |
| MovieStorage.MovieDatabase.SaveMovies | movie_storage.py:25-30 | the whole file is replaced; a write that cannot open the file raises and changes nothing |
| MovieStorage.MovieDatabase.AddMovie | movie_storage.py:33-41 | the title maps to `{rating, year}` and other titles are unchanged; a failed load exits |
| MovieStorage.MovieDatabase.DeleteMovie | movie_storage.py:44-52 | requires a present title (`del` raises KeyError otherwise); the saved map lacks it |
| MovieStorage.MovieDatabase.UpdateMovie | movie_storage.py:55-63 | requires a present title; only its rating changes |
| Console.LowerIdempotent | commands/crud.py:65 | lowering twice is lowering once |
| Console.StripLeftTrims | commands/crud.py:75 | the result is a suffix of the input, everything dropped is whitespace, and a non-empty result starts with a non-whitespace character |
| Console.StripRightTrims | commands/crud.py:75 | the result is a prefix of the input, everything dropped is whitespace, and a non-empty result ends with a non-whitespace character |
| Console.StripTrims | commands/crud.py:75 | `strip()` is the input with its leading and trailing whitespace cut off, and a non-empty result begins and ends with a non-whitespace character |
| Console.BlankStripsToEmpty | commands/crud.py:75-77 | an all-whitespace line strips to "", so it is refused as a title |
| Console.StripIdempotent | commands/crud.py:75 | stripping twice is stripping once |
| Console.LoweredKeys | commands/crud.py:65 | the lowered keys are exactly the lowered forms of the keys |
| Console.InDictIsLoweredMembership | commands/crud.py:64-65 | the title check holds iff some key equals the name ignoring case |
| Console.InDictIgnoresCase | crud.py:62 | names that differ only in case are found alike, and every key is found in every case spelling |
| Console.AcceptedIsNonNegative | commands/crud.py:46-50 | an accepted number parses and is non-negative |
| Console.DecimalPointOnlyMattersForLabel | commands/crud.py:47 | a '.' in the text is refused only when the category equals the checked label |
| Console.FirstWhere | commands/crud.py:43-52 | the index of the first line that ends the loop, or the number of lines if none does |
| Console.Prompt | commands/crud.py:43-52 | the prompt loop stops at exactly `FirstWhere` |
| Console.NumAnswer | commands/crud.py:43-52 | the first accepted line gives a non-negative number equal to its parse; every earlier line was refused; end of input means no line was accepted |
| Console.TitleFor | commands/crud.py:75-82 | a non-blank answer gives None iff the stripped title already exists ignoring case, and otherwise that stripped title |
| Console.NewTitleAnswer | commands/crud.py:74-82 | the answer comes from the first non-blank line (what `TitleFor` gives for it); end of input only when every line is read |
| Console.NewTitleSkipsBlanks | commands/crud.py:74-77 | every line before the one answered is blank, and at end of input every line was blank |
| Console.NewTitleIsFresh | crud.py:75-83 | a returned title is not empty and differs in lower case from every existing key |
| CrudCommands.Crud.constructor | commands/crud.py:5-6 | the commands use the given storage |
| CrudCommands.Crud.GetNum | commands/crud.py:43-52 | reads exactly what `NumAnswer` prescribes, with "Year" as the label that refuses decimals |
| CrudCommands.Crud.IsMovieInDict | commands/crud.py:64-65 | true iff some stored key equals the name ignoring case; a raising load propagates |
| CrudCommands.Crud.GetNewTitle | commands/crud.py:74-82 | equals `NewTitleAnswer` on the stored keys; the store is read only after a non-blank line |
| CrudCommands.Crud.AddMovie | commands/crud.py:95-102 | nothing is stored at end of input, for an existing title, or when the download fails; otherwise the store is updated with the fetched map |
| CrudCommands.Crud.DeleteMovie | commands/crud.py:115-125 | no movies: nothing asked; the store changes only when the stripped name is exactly a key, and then that title is deleted |
| CrudCommands.Crud.UpdateMovie | commands/crud.py:137-148 | the store changes only when the stripped name is exactly a key, and then only that title's Notes |
| LegacyCrud.GetNum | crud.py:39-48 | reads exactly what `NumAnswer` prescribes, with "year" as the label that refuses decimals |
| LegacyCrud.IsMovieInDict | crud.py:62 | true iff some key equals the name ignoring case |
| LegacyCrud.GetNewTitle | crud.py:75-83 | equals `NewTitleAnswer` on the given map's keys |
| LegacyCrud.YearAndRating | crud.py:102-103 | the year is the integer part of the accepted, non-negative year, read before the rating |
| LegacyCrud.AddMovie | crud.py:97-106 | an existing title (ignoring case) stores nothing; otherwise `{rating, int(year)}` is stored under the new title |
| LegacyCrud.DeleteMovie | crud.py:120-130 | the store deletes only a name that is exactly a key, so its KeyError cannot occur |
| LegacyCrud.UpdateMovie | crud.py:143-154 | only a present name is re-rated, with the next accepted rating |
| LegacyCrud.AddedEntryHasBothFields | crud.py:105 | the added title carries exactly the year and rating that were read |
| Analytics.MaxRating | commands/analytics.py:57 | an upper bound of all ratings that some movie reaches |
| Analytics.MinRating | commands/analytics.py:58 | a lower bound of all ratings that some movie reaches |
| Analytics.TitlesRated | commands/analytics.py:60-63 | exactly the titles whose rating equals the given one |
| Analytics.Statistics | commands/analytics.py:48-63 | None iff there are no movies; otherwise best and worst are non-empty and hold exactly the titles at the maximum and at the minimum |
| Analytics.AllEqualRatings | analytics.py:25-29 | with all ratings equal, best and worst are the same list of every title |
| Analytics.AllTitlesRated | analytics.py:28 | with all ratings equal, every title is listed |
| Analytics.Insert | commands/analytics.py:141 | insertion adds exactly one element (multiset) |
| Analytics.InsertBounded | commands/analytics.py:141 | a key that may precede the new element and every old one may precede every element after insertion |
| Analytics.InsertOrdered | commands/analytics.py:141 | inserting into an ordered list keeps it ordered |
| Analytics.Sort | commands/analytics.py:141 | `sorted`: a permutation that is ordered by the key, non-increasing when reversed |
| Analytics.InsertKeepsEqualKeyOrder | commands/analytics.py:141 | inserting keeps the relative order of the items with any one key value |
| Analytics.SortIsStable | commands/analytics.py:141 | items with equal keys keep their original relative order |
| Analytics.SortMovies | commands/analytics.py:136-141 | None iff there are no movies, else an ordered permutation of them |
| Analytics.SortedByRating | analytics.py:133 | ratings are non-increasing, and the result is a permutation of the movies |
| Analytics.AskLatestFirst | commands/analytics.py:175-178 | asks until a line strips and lowers to "y" or "n"; the answer is true iff "y" |
| Analytics.SortedByYear | commands/analytics.py:173-181 | sorts by year in a permutation, latest first iff the accepted answer is "y" |
| Analytics.DecimalYearSlipsThrough | commands/analytics.py:204 | as written, "1999.5" is accepted at the year prompts, though the intended rule refuses it |
| Analytics.IntendedYearHasNoDecimals | analytics.py:175 | a year is accepted iff it is a non-negative number without '.'; a rating iff it is non-negative |
| Analytics.ValidInputFor | analytics.py:169-179 | an accepted line gives None iff it strips to ""; otherwise its parse, which is non-negative and, for the checked category, written without '.' |
| Analytics.ValidInputAnswer | analytics.py:169-179 | the loop reads at most the lines given, and meets the end of input only after reading all of them |
| Analytics.ValidInputAnswerMeans | analytics.py:169-179 | the answer is what `ValidInputFor` gives for the last line read, which ends the loop; every earlier line was refused, and at end of input every line was |
| Analytics.GetValidInput | analytics.py:169-179 | the prompt loop returns exactly `ValidInputAnswer` for the same label; with "Year" it is the loop of commands/analytics.py:198-208 |
| Analytics.Filtered | analytics.py:205-209 | keeps a movie iff it meets every bound that was given |
| Analytics.FilterKeepsOrder | commands/analytics.py:233-237 | the filter keeps collection order: it distributes over concatenation |
| Analytics.NoBoundsKeepsAll | commands/analytics.py:234-236 | with every bound blank, every movie is kept |
| Analytics.BoundsRead | commands/analytics.py:228-231 | the three bounds read in turn, each after the lines the previous prompt used, under the label the code checks ("Year" here, "year" in analytics.py:201-203); a given bound is non-negative |
| Analytics.ReadBounds | commands/analytics.py:228-231 | the three `get_valid_input` calls in a row return exactly `BoundsRead` for the same label |
| Analytics.FilteredMovies | commands/analytics.py:224-239 | no movies: nothing asked; otherwise a minimum rating, a start year and an end year are read in turn and the movies meeting them are kept; with the label "Year" this is the commands version, with "year" the analytics.py one |
| Analytics.CommandsFilterTakesDecimalYear | commands/analytics.py:204-231 | as written, the answers "", "1999.5", "" give no minimum rating, start year 1999.5 and no end year |
| Analytics.IntendedFilterRefusesDecimalYear | analytics.py:175-203 | as intended, the same answers refuse "1999.5", so the blank after it is the start year and no line is left for the end year |
| Analytics.BlankAnswer | commands/analytics.py:199-201 | a blank line answers the prompt with None after reading one line |
| Analytics.FirstAnswer | commands/analytics.py:198-206 | a first line that ends the loop is the answer, after reading one line |
| Analytics.YearTextStrips | commands/analytics.py:199 | "1999.5" strips to itself |
| WebGenerator.ContainsMiddle | commands/web_generator.py:94-106 | any text occurs inside what surrounds it |
| WebGenerator.FieldText | commands/web_generator.py:86-89 | a missing field shows its default; a present one shows its value |
| WebGenerator.NotesOf | commands/web_generator.py:90 | missing notes are "", which is falsy |
| WebGenerator.NotesHtml | commands/web_generator.py:92 | empty iff the notes are falsy; otherwise the tooltip span around the notes |
| WebGenerator.ConcatOfAppend | commands/web_generator.py:94 | concatenation distributes over joining lists of pieces |
| WebGenerator.ContainsRun | commands/web_generator.py:94-106 | a run of consecutive pieces occurs in their concatenation |
| WebGenerator.ConcatSplit | commands/web_generator.py:94 | cutting the pieces anywhere cuts their concatenation there |
| WebGenerator.ConcatOfPair | commands/web_generator.py:94-106 | two pieces concatenate in order |
| WebGenerator.ConcatOfLastTwo | commands/web_generator.py:103-106 | the last two pieces end the concatenation |
| WebGenerator.ConcatOfThree | commands/web_generator.py:94-106 | three pieces concatenate in order |
| WebGenerator.Parts | commands/web_generator.py:94-106 | the f-string is 15 pieces: its fixed text alternating with the fields |
| WebGenerator.FragmentContains | commands/web_generator.py:94-106 | three consecutive pieces occur together in the fragment |
| WebGenerator.TitleVerbatim | commands/web_generator.py:98-100 | the title appears, unescaped, between `" alt="` and the poster class, and inside the title div |
| WebGenerator.MissingFieldsDefault | commands/web_generator.py:86-89 | a missing link shows href "#", a missing poster src "", and a missing year or rating "N/A" |
| WebGenerator.FragmentEnd | commands/web_generator.py:103-106 | the fragment ends with the tooltip and the fixed closing text |
| WebGenerator.NotesDivEnd | commands/web_generator.py:103 | the notes div is empty iff the tooltip text is empty |
| WebGenerator.TooltipIffNotes | commands/web_generator.py:92 | the tooltip span is present iff the notes are truthy, and then it holds the notes |
| WebGenerator.Items | commands/web_generator.py:85 | the i-th item is the i-th title in iteration order, with its record |
| WebGenerator.JoinedOfConcat | commands/web_generator.py:83-108 | writing the pieces of two runs of movies is writing each run's, one after the other |
| WebGenerator.ItemsOnePerMovie | commands/web_generator.py:85 | over the map's iteration order, every movie appears among the items with its record, no title twice, and no other title |
| WebGenerator.GridOfConcat | commands/web_generator.py:83-108 | the grid of two runs of movies is their two grids one after the other |
| WebGenerator.GridOfFew | commands/web_generator.py:83-108 | no movies give ""; one movie gives its fragment alone |
| WebGenerator.GridStep | commands/web_generator.py:94-108 | one more movie appends its fragment to the grid of those before it |
| WebGenerator.LoadTemplate | commands/web_generator.py:63-70 | a missing file raises FileNotFoundError, empty content raises ValueError, otherwise the content is returned |
| WebGenerator.Split | commands/web_generator.py:42 | the pieces between occurrences of the placeholder: at least one |
| WebGenerator.SplitFirstIsPrefix | commands/web_generator.py:42 | the first piece is a prefix of the text |
| WebGenerator.SplitPiecesHaveNoPattern | commands/web_generator.py:42 | no piece contains the placeholder: every occurrence is a cut |
| WebGenerator.JoinOfCons | commands/web_generator.py:42 | joining a piece in front adds the piece and one separator |
| WebGenerator.JoinOfFirstGrown | commands/web_generator.py:42 | growing the first piece by a character grows the join by it |
| WebGenerator.SplitJoinRoundTrip | commands/web_generator.py:42 | splitting at the placeholder and joining with it gives the text back |
| WebGenerator.ReplaceIsSplitJoin | commands/web_generator.py:42 | `replace` is joining the pieces with the replacement: every occurrence found is replaced |
| WebGenerator.NoOccurrenceUnchanged | commands/web_generator.py:42 | a template without the placeholder is left unchanged |
| WebGenerator.ReplaceBySelf | commands/web_generator.py:42 | replacing the pattern by itself changes nothing |
| WebGenerator.Page | commands/web_generator.py:42 | the page is the template's pieces joined with the grid |
| WebGenerator.PageReplacesEveryPlaceholder | commands/web_generator.py:42 | the template is placeholder-free pieces joined by the placeholder, and the page is the same pieces joined by the grid: every placeholder is replaced |
| WebGenerator.PlaceholderOnly | commands/web_generator.py:42 | a template that is only the placeholder becomes the grid |
| WebGenerator.WebGenerator.constructor | commands/web_generator.py:20-30 | the generator uses the given storage |
| WebGenerator.WebGenerator.SerializeMovies | commands/web_generator.py:72-108 | over the iteration order of the loaded map, the `+=` loop yields exactly the grid of its items (one fragment per movie, see `ItemsOnePerMovie`); a raising load propagates |
| WebGenerator.WebGenerator.GenerateWebsite | commands/web_generator.py:32-43 | the template is checked first, then the movies are loaded; the page is the template with the grid for each placeholder |

## Where the code and its documentation differ

The model follows the code in each case:

- **Header mismatch.** A CSV row without a required column (or with a non-numeric Rating or Year) raises out of `get_movies`: `KeyError` or `ValueError`, neither caught. Only `FileNotFoundError` and `csv.Error` are caught (storage/storage_csv.py:48-53).
- **Column order.** The CSV save writes the columns pandas derives from the records, not a fixed header. An empty collection is written with no header at all (storage/storage_csv.py:66-70).
- **Link field name.** The link field is `IMDB Link`.
- **Unknown suffix.** `init_storage` with an unknown suffix calls `None` and fails, so the model requires a valid path (storage/__init__.py:16).

## Left out

- JSON, CSV and pandas text formats: a file is an abstract state (`Holds`, `Table` of rows). Text/number conversion is the `NumberText` parameter, assumed to round-trip where a lemma needs it.
- Floating point: ratings are `real`, and `float()`/`int()` are the abstract conversions. NaN, infinities and rounding are not modelled. So a legacy year typed as "inf" (accepted by `float`, rejected by `int()`) is not modelled.
- Pandas type promotion (an integer column written as floats when a value is missing) is not modelled. Written cells are `showInt`/`showReal` of the stored value.
- The CSV reader's own errors are one state, `Malformed`, which loads as `{}`. A file that raises `csv.Error` only after some rows were decoded is not distinguished.
- JSON content that decodes to something other than an object is not modelled.
- `lower()` and `strip()` are ASCII case folding and Python's whitespace set; Unicode case folding is not modelled.
- Average and median of `show_statistics` (floating-point arithmetic and `statistics.median`), `random_movie` (randomness), `fuzzy_search` (`difflib`) and `list_movies`/`print_movies` (printing only).
- The downloader (HTTP, API key): `Crud.AddMovie` takes its result as a parameter. An API error is `None`; any other failure is not modelled.
- Menus, `main.py`, `movie_app.py`, `movies.py` and `data/__init__.py`: menu loops and argument handling.
- All printing. Where a command only prints (a title not found, no movies), the model returns a `Report` value instead.
- File I/O of the web generator: the template is a `TemplateFile` value. `write_file` is not modelled; its `IOError` is printed, never raised, so `GenerateWebsite` returns the page it would write.
- Windows paths: `StorageSelect` follows POSIX `pathlib` rules.
- StorageContract.Storage.OpenJson: the constructor's own write of `{}` is assumed to succeed, because a constructor cannot return an outcome.
- StorageContract.Storage.OpenCsv: the constructor's own write of `{}` is assumed to succeed, for the same reason.
- Analytics: items are reduced to title, numeric rating and integer year. Text-valued ratings or years (as the downloader may store) and a missing field (`KeyError`) are not modelled.
- StorageCsv.DecodeRow: a short row, whose missing cells `csv.DictReader` fills with None, is not modelled. A `Row` holds text in every cell it has, so the `TypeError` that `float(None)` or `int(None)` raises and the None values stored for Poster, IMDB Link, Title or Notes are not captured (storage/storage_csv.py:38-45).
- Single-line prompts (`input()` for a name to delete or update, and for a note) take their answer as a parameter; end of input there is not modelled.

## Findings

| source | as written | input that shows it | evidently intended | confidence | as-written member | corrected member |
|---|---|---|---|---|---|---|
| commands/analytics.py:204 | `get_valid_input` refuses a decimal point only when `category == "Year"`, but the callers at lines 230-231 pass `"year"` | the line "1999.5" at the start-year prompt is accepted as 1999.5 | a year with a decimal point is refused, as the docstring (lines 214-216) and the first generation (analytics.py:175) do | high, not executed | Analytics.CommandsFilterTakesDecimalYear | Analytics.IntendedFilterRefusesDecimalYear |
