/**
 * Values shared by every part of the movie catalogue: the stored record of one
 * movie, the title-keyed collection that is the unit of persistence, and the
 * small wrapper types used for error paths.
 */
module Catalog {

  datatype Option<+T> = None | Some(value: T)

  datatype Result<+T, +E> = Ok(value: T) | Err(error: E)

  /** An operation that either completes or raises `error`. */
  datatype Outcome<+E> = Pass | Fail(error: E)

  /** One field value of a stored record, as JSON and the csv reader deliver it. */
  datatype Value = Int(i: int) | Real(r: real) | Text(s: string)

  /** One movie: field name to value (a Python dict). */
  type Record = map<string, Value>

  /** The whole catalogue: title to record. */
  type Collection = map<string, Record>

  const TitleKey: string := "Title"
  const RatingKey: string := "Rating"
  const YearKey: string := "Year"
  const PosterKey: string := "Poster"
  const LinkKey: string := "IMDB Link"
  const NotesKey: string := "Notes"

  /** The five fields a record of the current schema carries. */
  const RecordFields: set<string> := {RatingKey, YearKey, PosterKey, LinkKey, NotesKey}

  /** How the file system answers an attempt to open a file for writing. */
  datatype WriteResult = Written | Refused

  /**
   * The number/text conversions done by library code: `str(int)`, the float
   * text pandas writes, `int(text)` and `float(text)`.  They are inputs to the
   * model, never computed by it.
   */
  datatype NumberText = NumberText(
    showInt: int -> string,
    showReal: real -> string,
    parseInt: string -> Option<int>,
    parseReal: string -> Option<real>)

  /** The library conversions read back what they wrote. */
  ghost predicate RoundTrips(nt: NumberText) {
    && (forall i: int :: nt.parseInt(nt.showInt(i)) == Some(i))
    && (forall r: real :: nt.parseReal(nt.showReal(r)) == Some(r))
  }

  /** `order` lists every key of `keys` exactly once (a dict's iteration order). */
  ghost predicate Enumerates(order: seq<string>, keys: set<string>) {
    && (forall i, j :: 0 <= i < j < |order| ==> order[i] != order[j])
    && (forall t :: t in order <==> t in keys)
  }
}
