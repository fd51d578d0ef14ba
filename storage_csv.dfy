/**
 * The CSV backend (storage/storage_csv.py).  The file is seen the way
 * `csv.DictReader` sees it: a sequence of rows, each a map from column name to
 * cell text.  `save_movies` flattens every record into one row and pandas
 * writes the union of all columns, leaving a cell empty where a record has no
 * such field.  Number text is produced and parsed by library code, given as a
 * `NumberText`.
 */
module StorageCsv {
  import opened Catalog

  /** One data row as `csv.DictReader` yields it. */
  type Row = map<string, string>

  /** The backing file as the csv module sees it. */
  datatype CsvFile = Missing | Malformed | Table(rows: seq<Row>)

  /** The exceptions the row decode raises; `get_movies` does not catch them. */
  datatype RowFault = MissingColumn(column: string) | NotANumber(column: string)

  /** A record of the current schema whose fields survive a trip through the file. */
  predicate Complete(rec: Record) {
    && rec.Keys == RecordFields
    && rec[RatingKey].Real?
    && rec[YearKey].Int?
    && rec[PosterKey].Text?
    && rec[LinkKey].Text?
    && rec[NotesKey].Text?
  }

  // ---------------------------------------------------------------- reading

  /**
   * The body of the read loop for one row: `float(row['Rating'])`,
   * `int(row['Year'])`, `row['Poster']`, `row['IMDB Link']`,
   * `row.get('Notes', '')`, evaluated in that order, then the key `row['Title']`.
   */
  function DecodeRow(row: Row, nt: NumberText): (r: Result<(string, Record), RowFault>)
    ensures r.Ok? <==>
      && RatingKey in row && nt.parseReal(row[RatingKey]).Some?
      && YearKey in row && nt.parseInt(row[YearKey]).Some?
      && PosterKey in row && LinkKey in row && TitleKey in row
    ensures r.Ok? ==> r.value.0 == row[TitleKey] && Complete(r.value.1)
    ensures r.Ok? ==>
      && r.value.1[RatingKey] == Real(nt.parseReal(row[RatingKey]).value)
      && r.value.1[YearKey] == Int(nt.parseInt(row[YearKey]).value)
      && r.value.1[PosterKey] == Text(row[PosterKey])
      && r.value.1[LinkKey] == Text(row[LinkKey])
      && r.value.1[NotesKey] == Text(if NotesKey in row then row[NotesKey] else "")
  {
    if RatingKey !in row then Err(MissingColumn(RatingKey))
    else if nt.parseReal(row[RatingKey]).None? then Err(NotANumber(RatingKey))
    else if YearKey !in row then Err(MissingColumn(YearKey))
    else if nt.parseInt(row[YearKey]).None? then Err(NotANumber(YearKey))
    else if PosterKey !in row then Err(MissingColumn(PosterKey))
    else if LinkKey !in row then Err(MissingColumn(LinkKey))
    else if TitleKey !in row then Err(MissingColumn(TitleKey))
    else
      var notes := if NotesKey in row then row[NotesKey] else "";
      Ok((row[TitleKey], map[
        RatingKey := Real(nt.parseReal(row[RatingKey]).value),
        YearKey := Int(nt.parseInt(row[YearKey]).value),
        PosterKey := Text(row[PosterKey]),
        LinkKey := Text(row[LinkKey]),
        NotesKey := Text(notes)]))
  }

  /**
   * The read loop from row `rows[0]` on, with `acc` holding what earlier rows
   * produced: each row is stored under its title (a later row with the same
   * title replaces an earlier one); the first row that fails raises.
   */
  function DecodeFrom(rows: seq<Row>, acc: Collection, nt: NumberText): (r: Result<Collection, RowFault>)
    ensures r.Ok? ==> acc.Keys <= r.value.Keys
    ensures r.Ok? ==> forall i :: 0 <= i < |rows| ==> TitleKey in rows[i] && rows[i][TitleKey] in r.value
    ensures r.Ok? ==> forall t :: t in r.value ==> (t in acc && r.value[t] == acc[t]) || Complete(r.value[t])
    decreases |rows|
  {
    if rows == [] then Ok(acc)
    else match DecodeRow(rows[0], nt)
      case Err(e) => Err(e)
      case Ok(entry) => DecodeFrom(rows[1..], acc[entry.0 := entry.1], nt)
  }

  /** All rows, read into an initially empty dict. */
  function Decoded(rows: seq<Row>, nt: NumberText): Result<Collection, RowFault> {
    DecodeFrom(rows, map[], nt)
  }

  /** `get_movies`: a missing file or a `csv.Error` yields `{}`; row faults propagate. */
  function Load(file: CsvFile, nt: NumberText): Result<Collection, RowFault> {
    match file
    case Missing => Ok(map[])
    case Malformed => Ok(map[])
    case Table(rows) => Decoded(rows, nt)
  }

  /** The loop of `get_movies` that fills the `movies` dict row by row. */
  method ReadRows(rows: seq<Row>, nt: NumberText) returns (r: Result<Collection, RowFault>)
    ensures r == Decoded(rows, nt)
  {
    var movies: Collection := map[];
    var i := 0;
    while i < |rows|
      invariant 0 <= i <= |rows|
      invariant DecodeFrom(rows[i..], movies, nt) == Decoded(rows, nt)
    {
      assert rows[i..][0] == rows[i];
      assert rows[i..][1..] == rows[i + 1..];
      var entry := DecodeRow(rows[i], nt);
      if entry.Err? {
        return Err(entry.error);
      }
      movies := movies[entry.value.0 := entry.value.1];
      i := i + 1;
    }
    return Ok(movies);
  }

  /** Every decoded record has exactly the five schema fields and no `Title` inside. */
  lemma DecodedRecordsAreComplete(rows: seq<Row>, nt: NumberText)
    requires Decoded(rows, nt).Ok?
    ensures forall t :: t in Decoded(rows, nt).value ==>
      Complete(Decoded(rows, nt).value[t]) && TitleKey !in Decoded(rows, nt).value[t]
  {
  }

  /** A later row with the same title overwrites the earlier one. */
  lemma LaterRowWins(first: Row, second: Row, nt: NumberText)
    requires DecodeRow(first, nt).Ok? && DecodeRow(second, nt).Ok?
    requires first[TitleKey] == second[TitleKey]
    ensures Decoded([first, second], nt) == Ok(map[second[TitleKey] := DecodeRow(second, nt).value.1])
  {
    var t := first[TitleKey];
    var one := map[][t := DecodeRow(first, nt).value.1];
    assert [first, second][1..] == [second];
    assert DecodeFrom([first, second], map[], nt) == DecodeFrom([second], one, nt);
    assert [second][1..] == [];
    assert DecodeFrom([second], one, nt) == Ok(one[t := DecodeRow(second, nt).value.1]);
    assert one[t := DecodeRow(second, nt).value.1] == map[t := DecodeRow(second, nt).value.1];
  }

  /** A header-only file, a missing file and a `csv.Error` all load as `{}`. */
  lemma EmptyLoads(nt: NumberText)
    ensures Load(Table([]), nt) == Ok(map[])
    ensures Load(Missing, nt) == Ok(map[])
    ensures Load(Malformed, nt) == Ok(map[])
  {
  }

  /** A row without a `Notes` column decodes with `Notes` set to "". */
  lemma NotesDefaultsToEmpty(row: Row, nt: NumberText)
    requires DecodeRow(row, nt).Ok? && NotesKey !in row
    ensures DecodeRow(row, nt).value.1[NotesKey] == Text("")
  {
  }

  // ---------------------------------------------------------------- writing

  /** The text pandas writes for one value. */
  function CellText(v: Value, nt: NumberText): string {
    match v
    case Int(i) => nt.showInt(i)
    case Real(r) => nt.showReal(r)
    case Text(s) => s
  }

  /** `{'Title': title, **details}` with every value as cell text. */
  function FlatRow(title: string, details: Record, nt: NumberText): (row: Row)
    ensures row.Keys == {TitleKey} + details.Keys
    ensures TitleKey !in details ==> row[TitleKey] == title
    ensures forall k :: k in details ==> row[k] == CellText(details[k], nt)
  {
    map k | k in {TitleKey} + details.Keys :: if k in details then CellText(details[k], nt) else title
  }

  /** The columns pandas writes: every field name of every flattened row. */
  function Columns(movies: Collection): (cols: set<string>)
    ensures forall t, k :: t in movies && k in movies[t] ==> k in cols
    ensures movies != map[] ==> TitleKey in cols
    ensures movies == map[] ==> cols == {}
  {
    if movies == map[] then {}
    else {TitleKey} + set t, k | t in movies && k in movies[t] :: k
  }

  /** A row as written under `cols`: a field the record lacks becomes an empty cell. */
  function Padded(row: Row, cols: set<string>): (r: Row)
    requires row.Keys <= cols
    ensures r.Keys == cols
    ensures forall c :: c in row ==> r[c] == row[c]
    ensures forall c :: c in cols && c !in row ==> r[c] == ""
  {
    map c | c in cols :: if c in row then row[c] else ""
  }

  /** The rows `save_movies` writes when the dict iterates in `order`. */
  function TableRows(movies: Collection, order: seq<string>, nt: NumberText): (rows: seq<Row>)
    requires forall t :: t in order ==> t in movies
    ensures |rows| == |order|
  {
    var cols := Columns(movies);
    seq(|order|, i requires 0 <= i < |order| =>
      assert FlatRow(order[i], movies[order[i]], nt).Keys <= cols;
      Padded(FlatRow(order[i], movies[order[i]], nt), cols))
  }

  /**
   * `save_movies`: one flattened row per movie (the list comprehension), then
   * the padding to a common set of columns done by the DataFrame.
   */
  method WriteRows(movies: Collection, nt: NumberText) returns (rows: seq<Row>, ghost order: seq<string>)
    ensures Enumerates(order, movies.Keys)
    ensures rows == TableRows(movies, order, nt)
  {
    var flat: seq<Row> := [];
    var rest := movies.Keys;
    order := [];
    while rest != {}
      invariant rest <= movies.Keys
      invariant forall t :: t in order ==> t in movies && t !in rest
      invariant forall t :: t in movies ==> t in rest || t in order
      invariant forall i, j :: 0 <= i < j < |order| ==> order[i] != order[j]
      invariant |flat| == |order|
      invariant forall i :: 0 <= i < |order| ==> flat[i] == FlatRow(order[i], movies[order[i]], nt)
      decreases rest
    {
      var t :| t in rest;
      flat := flat + [FlatRow(t, movies[t], nt)];
      order := order + [t];
      rest := rest - {t};
    }
    var cols := Columns(movies);
    rows := seq(|flat|, i requires 0 <= i < |flat| =>
      assert flat[i].Keys <= cols;
      Padded(flat[i], cols));
    ghost var expected := TableRows(movies, order, nt);
    assert |rows| == |expected|;
    forall i | 0 <= i < |rows| ensures rows[i] == expected[i] {
      assert flat[i] == FlatRow(order[i], movies[order[i]], nt);
    }
  }

  /** `__init__`: a file that does not exist yet is written from `{}`. */
  function Created(onDisk: CsvFile, nt: NumberText): CsvFile {
    if onDisk.Missing? then Table(TableRows(map[], [], nt)) else onDisk
  }

  /** Constructing on a missing path writes an empty table, which loads as `{}`. */
  lemma CreatedOnMissingPath(nt: NumberText)
    ensures Created(Missing, nt) == Table([])
    ensures Load(Created(Missing, nt), nt) == Ok(map[])
  {
  }

  /** Each written row carries the title under `Title` and every field of its record. */
  lemma WrittenRowShape(movies: Collection, order: seq<string>, nt: NumberText, i: nat)
    requires Enumerates(order, movies.Keys) && i < |order|
    requires TitleKey !in movies[order[i]]
    ensures TableRows(movies, order, nt)[i][TitleKey] == order[i]
    ensures forall k :: k in movies[order[i]] ==>
      TableRows(movies, order, nt)[i][k] == CellText(movies[order[i]][k], nt)
  {
  }

  // ------------------------------------------------------------ round trip

  /** For complete records every row has exactly the columns Title and the five fields. */
  lemma ColumnsOfComplete(movies: Collection)
    requires movies != map[]
    requires forall t :: t in movies ==> Complete(movies[t])
    ensures Columns(movies) == {TitleKey} + RecordFields
  {
    var t0 :| t0 in movies;
    var fields := set t, k | t in movies && k in movies[t] :: k;
    assert fields <= RecordFields;
    forall k | k in RecordFields ensures k in fields {
      assert k in movies[t0];
    }
  }

  /** One complete record survives being written as a row and read back. */
  lemma RowRoundTrip(title: string, details: Record, nt: NumberText)
    requires RoundTrips(nt) && Complete(details)
    ensures DecodeRow(Padded(FlatRow(title, details, nt), {TitleKey} + RecordFields), nt) == Ok((title, details))
  {
    assert TitleKey !in RecordFields;
    var flat := FlatRow(title, details, nt);
    var row := Padded(flat, {TitleKey} + RecordFields);
    assert row == flat;
    assert row[TitleKey] == title;
    assert row[RatingKey] == nt.showReal(details[RatingKey].r);
    assert nt.parseReal(row[RatingKey]) == Some(details[RatingKey].r);
    assert row[YearKey] == nt.showInt(details[YearKey].i);
    assert nt.parseInt(row[YearKey]) == Some(details[YearKey].i);
    assert row[PosterKey] == details[PosterKey].s;
    assert row[LinkKey] == details[LinkKey].s;
    assert row[NotesKey] == details[NotesKey].s;
    var r := DecodeRow(row, nt);
    assert r.Ok?;
    var decoded := r.value.1;
    assert decoded.Keys == details.Keys;
    assert decoded[RatingKey] == details[RatingKey];
    assert decoded[YearKey] == details[YearKey];
    assert decoded[PosterKey] == details[PosterKey];
    assert decoded[LinkKey] == details[LinkKey];
    assert decoded[NotesKey] == details[NotesKey];
    assert decoded == details;
  }

  /** The dict built from `order[..k]`. */
  ghost function Prefix(movies: Collection, order: seq<string>, k: nat): Collection
    requires k <= |order|
  {
    map t | t in order[..k] && t in movies :: movies[t]
  }

  /** Row `k` of a written table of complete records decodes to movie `order[k]`. */
  lemma TableRowDecodes(movies: Collection, order: seq<string>, k: nat, nt: NumberText)
    requires RoundTrips(nt)
    requires forall t :: t in movies ==> Complete(movies[t])
    requires Enumerates(order, movies.Keys)
    requires k < |order|
    ensures DecodeRow(TableRows(movies, order, nt)[k], nt) == Ok((order[k], movies[order[k]]))
  {
    var t := order[k];
    assert t in movies;
    ColumnsOfComplete(movies);
    RowRoundTrip(t, movies[t], nt);
  }

  /** Adding `order[k]` to the dict of `order[..k]` gives the dict of `order[..k+1]`. */
  lemma PrefixStep(movies: Collection, order: seq<string>, k: nat)
    requires Enumerates(order, movies.Keys)
    requires k < |order|
    ensures Prefix(movies, order, k)[order[k] := movies[order[k]]] == Prefix(movies, order, k + 1)
  {
    assert order[..k + 1] == order[..k] + [order[k]];
  }

  /** The read loop's step for a row that decodes. */
  lemma DecodeFromStep(rows: seq<Row>, acc: Collection, nt: NumberText)
    requires rows != [] && DecodeRow(rows[0], nt).Ok?
    ensures DecodeFrom(rows, acc, nt) ==
      DecodeFrom(rows[1..], acc[DecodeRow(rows[0], nt).value.0 := DecodeRow(rows[0], nt).value.1], nt)
  {
  }

  /** The dict of the whole order is the collection itself. */
  lemma PrefixAll(movies: Collection, order: seq<string>)
    requires Enumerates(order, movies.Keys)
    ensures Prefix(movies, order, |order|) == movies
  {
    assert order[..|order|] == order;
  }

  lemma {:induction false} DecodeTableFrom(movies: Collection, order: seq<string>, k: nat, nt: NumberText)
    requires RoundTrips(nt)
    requires forall t :: t in movies ==> Complete(movies[t])
    requires Enumerates(order, movies.Keys)
    requires k <= |order|
    ensures DecodeFrom(TableRows(movies, order, nt)[k..], Prefix(movies, order, k), nt) == Ok(movies)
    decreases |order| - k
  {
    var rows := TableRows(movies, order, nt);
    if k == |order| {
      PrefixAll(movies, order);
      assert rows[k..] == [];
    } else {
      var rest := rows[k..];
      TableRowDecodes(movies, order, k, nt);
      assert rest[0] == rows[k];
      assert rest[1..] == rows[k + 1..];
      DecodeFromStep(rest, Prefix(movies, order, k), nt);
      PrefixStep(movies, order, k);
      DecodeTableFrom(movies, order, k + 1, nt);
    }
  }

  /**
   * Loading after saving returns the saved map, for records that carry exactly
   * the five schema fields with a real rating and an integer year.
   */
  lemma TableRoundTrip(movies: Collection, order: seq<string>, nt: NumberText)
    requires RoundTrips(nt)
    requires forall t :: t in movies ==> Complete(movies[t])
    requires Enumerates(order, movies.Keys)
    ensures Decoded(TableRows(movies, order, nt), nt) == Ok(movies)
  {
    DecodeTableFrom(movies, order, 0, nt);
    assert TableRows(movies, order, nt)[0..] == TableRows(movies, order, nt);
    assert Prefix(movies, order, 0) == map[];
  }
}
