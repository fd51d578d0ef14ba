/**
 * The static web page (commands/web_generator.py): one `<li>` fragment per
 * stored movie, in the order the map yields its titles, substituted for the
 * placeholder of an HTML template.
 */
module WebGenerator {
  import opened Catalog
  import StorageContract

  // ------------------------------------------------------------- strings

  /** `sub` occurs in `s` at some position. */
  predicate Contains(s: string, sub: string) {
    exists i :: 0 <= i <= |s| && sub <= s[i..]
  }

  /** `s.endswith(t)`. */
  predicate EndsWith(s: string, t: string) {
    |t| <= |s| && s[|s| - |t|..] == t
  }

  /** Whatever surrounds `b`, `b` occurs in `a + b + c`. */
  lemma ContainsMiddle(a: string, b: string, c: string)
    ensures Contains(a + b + c, b)
  {
    assert (a + b + c)[|a|..] == b + c;
  }

  // ------------------------------------------------------- field values

  /** Python truthiness of a field value: not "", not 0, not 0.0. */
  predicate Truthy(v: Value) {
    match v
    case Int(i) => i != 0
    case Real(r) => r != 0.0
    case Text(s) => s != ""
  }

  /** The text an f-string gives for a field value. */
  function Display(v: Value, nt: NumberText): string {
    match v
    case Int(i) => nt.showInt(i)
    case Real(r) => nt.showReal(r)
    case Text(s) => s
  }

  /** `details.get(key, default)`, as an f-string shows it. */
  function FieldText(details: Record, key: string, default: string, nt: NumberText): (r: string)
    ensures key !in details ==> r == default
    ensures key in details ==> r == Display(details[key], nt)
  {
    if key in details then Display(details[key], nt) else default
  }

  /** `details.get('Notes', '')`. */
  function NotesOf(details: Record): (v: Value)
    ensures NotesKey !in details ==> v == Text("") && !Truthy(v)
  {
    if NotesKey in details then details[NotesKey] else Text("")
  }

  const TooltipOpen: string := "<span class=\"tooltiptext\">"
  const TooltipClose: string := "</span>"

  /** The tooltip span, present only when the notes are truthy. */
  function NotesHtml(details: Record, nt: NumberText): (r: string)
    ensures r == "" <==> !Truthy(NotesOf(details))
    ensures Truthy(NotesOf(details)) ==> r == TooltipOpen + Display(NotesOf(details), nt) + TooltipClose
  {
    var notes := NotesOf(details);
    if Truthy(notes) then TooltipOpen + Display(notes, nt) + TooltipClose else ""
  }

  // ----------------------------------------------------------- fragments

  /** The text of `parts` one after the other. */
  function Concat(parts: seq<string>): string {
    if parts == [] then "" else parts[0] + Concat(parts[1..])
  }

  lemma {:induction false} ConcatOfAppend(a: seq<string>, b: seq<string>)
    ensures Concat(a + b) == Concat(a) + Concat(b)
  {
    if a == [] {
      assert a + b == b;
    } else {
      assert (a + b)[1..] == a[1..] + b;
      ConcatOfAppend(a[1..], b);
    }
  }

  /** Cutting the parts anywhere cuts their concatenation there. */
  lemma ConcatSplit(parts: seq<string>, i: nat)
    requires i <= |parts|
    ensures Concat(parts) == Concat(parts[..i]) + Concat(parts[i..])
  {
    assert parts[..i] + parts[i..] == parts;
    ConcatOfAppend(parts[..i], parts[i..]);
  }

  /** Any run of consecutive parts occurs in their concatenation. */
  lemma ContainsRun(parts: seq<string>, i: nat, j: nat)
    requires i <= j <= |parts|
    ensures Contains(Concat(parts), Concat(parts[i..j]))
  {
    var front := parts[..j];
    ConcatSplit(parts, j);
    ConcatSplit(front, i);
    assert front[..i] == parts[..i] && front[i..] == parts[i..j];
    ContainsMiddle(Concat(parts[..i]), Concat(parts[i..j]), Concat(parts[j..]));
  }

  lemma ConcatOfPair(a: string, b: string)
    ensures Concat([a, b]) == a + b
  {
    assert [a, b][1..] == [b];
    assert [b][1..] == [];
    assert Concat([b]) == b + "" == b;
  }

  /** The last two parts end the concatenation. */
  lemma ConcatOfLastTwo(parts: seq<string>)
    requires |parts| >= 2
    ensures Concat(parts) == Concat(parts[..|parts| - 2]) + parts[|parts| - 2] + parts[|parts| - 1]
  {
    var n := |parts|;
    var tail := parts[n - 2..];
    ConcatSplit(parts, n - 2);
    var front, x, y := Concat(parts[..n - 2]), parts[n - 2], parts[n - 1];
    assert tail == [x, y];
    ConcatOfPair(x, y);
    assert front + (x + y) == front + x + y;
  }

  /** Concatenation of three parts. */
  lemma ConcatOfThree(a: string, b: string, c: string)
    ensures Concat([a, b, c]) == a + b + c
  {
    assert [a, b, c][1..] == [b, c];
    assert [b, c][1..] == [c];
    assert [c][1..] == [];
    assert Concat([c]) == c + "" == c;
    assert Concat([b, c]) == b + c;
    assert Concat([a, b, c]) == a + (b + c);
  }

  // The constant text of the source's f-string between its placeholders.
  const Indent12: string := "            "
  const Indent16: string := "                "
  const Indent20: string := "                    "
  const Indent24: string := "                        "

  /** Up to the link: the `<li>`, the movie div and the opening of the anchor. */
  const BeforeLink: string :=
    "\n" + Indent12 + "<li>\n" + Indent16 + "<div class=\"movie\">\n" + Indent20 + "<a href=\""
  /** Between the link and the poster. */
  const BeforePoster: string := "\" target=\"_blank\">\n" + Indent24 + "<img src=\""
  /** Between the poster and the title in the `alt` attribute. */
  const BeforeAlt: string := "\" alt=\""
  /** Between the `alt` title and the title div's title. */
  const BeforeTitle: string :=
    "\" class=\"movie-poster\"/>\n" + Indent20 + "</a>\n" + Indent20 + "<div class=\"movie-title\">"
  /** Between the title and the year. */
  const BeforeYear: string := "</div>\n" + Indent20 + "<div class=\"movie-year\">("
  /** Between the year and the rating. */
  const BeforeRating: string := ")</div>\n" + Indent20 + "<div class=\"movie-rating\">Rating: "
  /** Between the rating and the tooltip. */
  const BeforeNotes: string := "</div>\n" + Indent20 + "<div class=\"movie-notes\">"
  /** After the tooltip, to the end of the fragment. */
  const NotesClose: string := "</div>\n" + Indent16 + "</div>\n" + Indent12 + "</li>\n" + Indent12

  /** The pieces of one fragment: constant text alternating with the fields. */
  function Parts(title: string, details: Record, nt: NumberText): (r: seq<string>)
    ensures |r| == 15
  {
    [ BeforeLink, FieldText(details, LinkKey, "#", nt),
      BeforePoster, FieldText(details, PosterKey, "", nt),
      BeforeAlt, title,
      BeforeTitle, title,
      BeforeYear, FieldText(details, YearKey, "N/A", nt),
      BeforeRating, FieldText(details, RatingKey, "N/A", nt),
      BeforeNotes, NotesHtml(details, nt),
      NotesClose ]
  }

  /** The `<li>` fragment of one movie, with the whitespace of the source's f-string. */
  function Fragment(title: string, details: Record, nt: NumberText): string {
    Concat(Parts(title, details, nt))
  }

  /** A run of parts occurs in the fragment. */
  lemma FragmentContains(title: string, details: Record, nt: NumberText, i: nat, a: string, b: string, c: string)
    requires i + 3 <= 15 && Parts(title, details, nt)[i..i + 3] == [a, b, c]
    ensures Contains(Fragment(title, details, nt), a + b + c)
  {
    ContainsRun(Parts(title, details, nt), i, i + 3);
    ConcatOfThree(a, b, c);
  }

  /** The title is inserted without escaping into the `alt` attribute and the title div. */
  lemma TitleVerbatim(title: string, details: Record, nt: NumberText)
    ensures Contains(Fragment(title, details, nt), BeforeAlt + title + BeforeTitle)
    ensures Contains(Fragment(title, details, nt), BeforeTitle + title + BeforeYear)
  {
    FragmentContains(title, details, nt, 4, BeforeAlt, title, BeforeTitle);
    FragmentContains(title, details, nt, 6, BeforeTitle, title, BeforeYear);
  }

  /** Missing fields are shown with their defaults: href "#", src "", year and rating "N/A". */
  lemma MissingFieldsDefault(title: string, details: Record, nt: NumberText)
    ensures LinkKey !in details ==> Contains(Fragment(title, details, nt), BeforeLink + "#" + BeforePoster)
    ensures PosterKey !in details ==> Contains(Fragment(title, details, nt), BeforePoster + "" + BeforeAlt)
    ensures YearKey !in details ==> Contains(Fragment(title, details, nt), BeforeYear + "N/A" + BeforeRating)
    ensures RatingKey !in details ==> Contains(Fragment(title, details, nt), BeforeRating + "N/A" + BeforeNotes)
  {
    var p := Parts(title, details, nt);
    if LinkKey !in details {
      FragmentContains(title, details, nt, 0, BeforeLink, "#", BeforePoster);
    }
    if PosterKey !in details {
      FragmentContains(title, details, nt, 2, BeforePoster, "", BeforeAlt);
    }
    if YearKey !in details {
      FragmentContains(title, details, nt, 8, BeforeYear, "N/A", BeforeRating);
    }
    if RatingKey !in details {
      FragmentContains(title, details, nt, 10, BeforeRating, "N/A", BeforeNotes);
    }
  }

  /** The fragment is everything up to the tooltip, the tooltip, and the fixed close. */
  lemma FragmentEnd(title: string, details: Record, nt: NumberText)
    ensures Fragment(title, details, nt)
      == Concat(Parts(title, details, nt)[..13]) + NotesHtml(details, nt) + NotesClose
  {
    var p := Parts(title, details, nt);
    ConcatOfLastTwo(p);
    assert p[..|p| - 2] == p[..13];
  }

  /** Whatever precedes it, the notes div ends the text empty only when the tooltip is empty. */
  lemma NotesDivEnd(head: string, html: string)
    requires html == "" || EndsWith(html, TooltipClose)
    ensures EndsWith(head + BeforeNotes + html + NotesClose, BeforeNotes + NotesClose) <==> html == ""
    ensures EndsWith(head + BeforeNotes + html + NotesClose, html + NotesClose)
  {
    var f := head + BeforeNotes + html + NotesClose;
    var e := BeforeNotes + NotesClose;
    assert f == (head + BeforeNotes) + (html + NotesClose);
    assert f[|f| - |html + NotesClose|..] == html + NotesClose;
    if html == "" {
      assert f == head + e;
      assert f[|f| - |e|..] == e;
    } else {
      var k := |f| - |NotesClose| - 2;
      assert f[k] == html[|html| - 2];
      assert html[|html| - 2] == TooltipClose[|TooltipClose| - 2] == 'n';
      assert e[|BeforeNotes| - 2] == BeforeNotes[|BeforeNotes| - 2] == '"';
    }
  }

  /**
   * The notes div is empty exactly when the notes are falsy (missing, "", 0);
   * otherwise it holds the tooltip span with the notes.
   */
  lemma TooltipIffNotes(title: string, details: Record, nt: NumberText)
    ensures EndsWith(Fragment(title, details, nt), BeforeNotes + NotesClose) <==> !Truthy(NotesOf(details))
    ensures Truthy(NotesOf(details)) ==>
      EndsWith(Fragment(title, details, nt), TooltipOpen + Display(NotesOf(details), nt) + TooltipClose + NotesClose)
  {
    var p := Parts(title, details, nt);
    FragmentEnd(title, details, nt);
    assert p[..13] == p[..12] + [BeforeNotes];
    ConcatOfAppend(p[..12], [BeforeNotes]);
    assert [BeforeNotes][1..] == [];
    assert Concat([BeforeNotes]) == BeforeNotes + "" == BeforeNotes;
    var html := NotesHtml(details, nt);
    if html != "" {
      var shown := Display(NotesOf(details), nt);
      assert html == (TooltipOpen + shown) + TooltipClose;
      assert html[|html| - |TooltipClose|..] == TooltipClose;
    }
    NotesDivEnd(Concat(p[..12]), html);
  }

  // ---------------------------------------------------------------- grid

  /** The titles and records in the order `movies.items()` yields them. */
  function Items(movies: Collection, order: seq<string>): (r: seq<(string, Record)>)
    requires forall t :: t in order ==> t in movies
    ensures |r| == |order|
    ensures forall i :: 0 <= i < |order| ==> r[i] == (order[i], movies[order[i]])
  {
    if order == [] then [] else [(order[0], movies[order[0]])] + Items(movies, order[1..])
  }

  /** The text `render` gives each of `items`, one after the other. */
  function Joined(items: seq<(string, Record)>, render: (string, Record) -> string): string {
    if items == [] then "" else render(items[0].0, items[0].1) + Joined(items[1..], render)
  }

  lemma {:induction false} JoinedOfConcat(a: seq<(string, Record)>, b: seq<(string, Record)>, render: (string, Record) -> string)
    ensures Joined(a + b, render) == Joined(a, render) + Joined(b, render)
  {
    if a == [] {
      assert a + b == b;
    } else {
      assert (a + b)[1..] == a[1..] + b;
      JoinedOfConcat(a[1..], b, render);
    }
  }

  /** The fragment writer for one movie, as a value. */
  function Render(nt: NumberText): (string, Record) -> string {
    (title, details) => Fragment(title, details, nt)
  }

  /**
   * When `order` is the iteration order of the map, the items hold every movie
   * exactly once, each with its own record.
   */
  lemma ItemsOnePerMovie(movies: Collection, order: seq<string>)
    requires Enumerates(order, movies.Keys)
    ensures forall t :: t in movies ==> (t, movies[t]) in Items(movies, order)
    ensures forall i, j :: 0 <= i < j < |order| ==> Items(movies, order)[i].0 != Items(movies, order)[j].0
    ensures forall i :: 0 <= i < |order| ==> Items(movies, order)[i].0 in movies
  {
    var items := Items(movies, order);
    forall t | t in movies
      ensures (t, movies[t]) in items
    {
      assert t in order;
      var i :| 0 <= i < |order| && order[i] == t;
      assert items[i] == (t, movies[t]);
    }
  }

  /** The fragments of `items`, one after the other. */
  function Grid(items: seq<(string, Record)>, nt: NumberText): string {
    Joined(items, Render(nt))
  }

  /** The grid of two runs of movies is the two grids one after the other. */
  lemma GridOfConcat(a: seq<(string, Record)>, b: seq<(string, Record)>, nt: NumberText)
    ensures Grid(a + b, nt) == Grid(a, nt) + Grid(b, nt)
  {
    JoinedOfConcat(a, b, Render(nt));
  }

  /** No movies give the empty string; one movie gives its fragment alone. */
  lemma GridOfFew(item: (string, Record), nt: NumberText)
    ensures Grid([], nt) == ""
    ensures Grid([item], nt) == Fragment(item.0, item.1, nt)
  {
    assert [item][1..] == [];
    assert Joined([item], Render(nt)) == Render(nt)(item.0, item.1) + Joined([], Render(nt));
    assert Render(nt)(item.0, item.1) == Fragment(item.0, item.1, nt);
  }

  /** One more movie appends its fragment to the grid of those before it. */
  lemma GridStep(items: seq<(string, Record)>, i: nat, nt: NumberText)
    requires i < |items|
    ensures Grid(items[..i + 1], nt) == Grid(items[..i], nt) + Fragment(items[i].0, items[i].1, nt)
  {
    assert items[..i + 1] == items[..i] + [items[i]];
    GridOfConcat(items[..i], [items[i]], nt);
    GridOfFew(items[i], nt);
  }

  // ----------------------------------------------------- template and page

  /** The file `_static/index_template.html`. */
  datatype TemplateFile = NoFile | Content(text: string)

  datatype WebFault =
    | TemplateMissing                        // FileNotFoundError
    | TemplateEmpty                          // ValueError
    | StorageRaised(fault: StorageContract.Fault)

  /** `load_template`: the content of an existing, non-empty file. */
  function LoadTemplate(file: TemplateFile): (r: Result<string, WebFault>)
    ensures r.Ok? <==> file.Content? && file.text != ""
    ensures r.Ok? ==> r.value == file.text
    ensures r == Err(TemplateMissing) <==> file.NoFile?
    ensures r == Err(TemplateEmpty) <==> file == Content("")
  {
    match file
    case NoFile => Err(TemplateMissing)
    case Content(text) => if text == "" then Err(TemplateEmpty) else Ok(text)
  }

  const Placeholder: string := "__TEMPLATE_MOVIE_GRID__"

  /** `s.replace(pattern, rep)`: occurrences found left to right, not overlapping. */
  function ReplaceAll(s: string, pattern: string, rep: string): string
    requires pattern != ""
  {
    if |s| < |pattern| then s
    else if pattern <= s then rep + ReplaceAll(s[|pattern|..], pattern, rep)
    else [s[0]] + ReplaceAll(s[1..], pattern, rep)
  }

  /** The pieces between the occurrences `ReplaceAll` finds: `s.split(pattern)`. */
  function Split(s: string, pattern: string): (r: seq<string>)
    requires pattern != ""
    ensures |r| >= 1
  {
    if |s| < |pattern| then [s]
    else if pattern <= s then [""] + Split(s[|pattern|..], pattern)
    else
      var rest := Split(s[1..], pattern);
      [[s[0]] + rest[0]] + rest[1..]
  }

  /** The first piece is where the text starts. */
  lemma {:induction false} SplitFirstIsPrefix(s: string, pattern: string)
    requires pattern != ""
    ensures Split(s, pattern)[0] <= s
    decreases |s|
  {
    if |s| >= |pattern| && !(pattern <= s) {
      SplitFirstIsPrefix(s[1..], pattern);
      var first := Split(s[1..], pattern)[0];
      assert Split(s, pattern)[0] == [s[0]] + first;
      assert s == [s[0]] + s[1..];
    }
  }

  /** No piece holds the pattern: every occurrence is a place where `Split` cuts. */
  lemma {:induction false} SplitPiecesHaveNoPattern(s: string, pattern: string)
    requires pattern != ""
    ensures forall i :: 0 <= i < |Split(s, pattern)| ==> !Contains(Split(s, pattern)[i], pattern)
    decreases |s|
  {
    var r := Split(s, pattern);
    if |s| < |pattern| {
      assert r == [s];
      forall k | 0 <= k <= |s| ensures !(pattern <= s[k..]) {
        assert |s[k..]| < |pattern|;
      }
    } else if pattern <= s {
      var rest := Split(s[|pattern|..], pattern);
      SplitPiecesHaveNoPattern(s[|pattern|..], pattern);
      assert r == [""] + rest;
      assert !(pattern <= ""[0..]);
      forall i | 1 <= i < |r| ensures !Contains(r[i], pattern) {
        assert r[i] == rest[i - 1];
      }
    } else {
      var rest := Split(s[1..], pattern);
      SplitPiecesHaveNoPattern(s[1..], pattern);
      SplitFirstIsPrefix(s[1..], pattern);
      var first := [s[0]] + rest[0];
      assert r == [first] + rest[1..];
      assert first <= s by {
        assert s == [s[0]] + s[1..];
      }
      forall k | 0 <= k <= |first| ensures !(pattern <= first[k..]) {
        if k == 0 {
          assert first[k..] == first;
        } else {
          assert first[k..] == rest[0][k - 1..];
        }
      }
      forall i | 1 <= i < |r| ensures !Contains(r[i], pattern) {
        assert r[i] == rest[i];
      }
    }
  }

  /** `sep.join(parts)`. */
  function Join(parts: seq<string>, sep: string): string
    requires |parts| >= 1
  {
    if |parts| == 1 then parts[0] else parts[0] + sep + Join(parts[1..], sep)
  }

  lemma JoinOfCons(head: string, parts: seq<string>, sep: string)
    requires |parts| >= 1
    ensures Join([head] + parts, sep) == head + sep + Join(parts, sep)
  {
    assert ([head] + parts)[1..] == parts;
  }

  lemma JoinOfFirstGrown(c: char, parts: seq<string>, sep: string)
    requires |parts| >= 1
    ensures Join([[c] + parts[0]] + parts[1..], sep) == [c] + Join(parts, sep)
  {
    var grown := [[c] + parts[0]] + parts[1..];
    if |parts| > 1 {
      assert grown[1..] == parts[1..];
    }
  }

  /** Splitting at the pattern and joining with it gives the text back. */
  lemma {:induction false} SplitJoinRoundTrip(s: string, pattern: string)
    requires pattern != ""
    ensures Join(Split(s, pattern), pattern) == s
    decreases |s|
  {
    if |s| < |pattern| {
    } else if pattern <= s {
      var rest := s[|pattern|..];
      assert Split(s, pattern) == [""] + Split(rest, pattern);
      SplitJoinRoundTrip(rest, pattern);
      JoinOfCons("", Split(rest, pattern), pattern);
      assert "" + pattern + rest == pattern + rest;
      assert s == pattern + rest;
    } else {
      var parts := Split(s[1..], pattern);
      assert Split(s, pattern) == [[s[0]] + parts[0]] + parts[1..];
      SplitJoinRoundTrip(s[1..], pattern);
      JoinOfFirstGrown(s[0], parts, pattern);
      assert s == [s[0]] + s[1..];
    }
  }

  /** Replacing is joining the pieces with the replacement: every occurrence found is replaced. */
  lemma {:induction false} ReplaceIsSplitJoin(s: string, pattern: string, rep: string)
    requires pattern != ""
    ensures ReplaceAll(s, pattern, rep) == Join(Split(s, pattern), rep)
    decreases |s|
  {
    if |s| < |pattern| {
    } else if pattern <= s {
      var rest := s[|pattern|..];
      assert ReplaceAll(s, pattern, rep) == rep + ReplaceAll(rest, pattern, rep);
      assert Split(s, pattern) == [""] + Split(rest, pattern);
      ReplaceIsSplitJoin(rest, pattern, rep);
      JoinOfCons("", Split(rest, pattern), rep);
      assert "" + rep + Join(Split(rest, pattern), rep) == rep + Join(Split(rest, pattern), rep);
    } else {
      var parts := Split(s[1..], pattern);
      assert ReplaceAll(s, pattern, rep) == [s[0]] + ReplaceAll(s[1..], pattern, rep);
      assert Split(s, pattern) == [[s[0]] + parts[0]] + parts[1..];
      ReplaceIsSplitJoin(s[1..], pattern, rep);
      JoinOfFirstGrown(s[0], parts, rep);
    }
  }

  /** A text without the pattern is left as it is. */
  lemma {:induction false} NoOccurrenceUnchanged(s: string, pattern: string, rep: string)
    requires pattern != "" && !Contains(s, pattern)
    ensures ReplaceAll(s, pattern, rep) == s
    decreases |s|
  {
    if |s| >= |pattern| {
      assert s[0..] == s;
      assert !(pattern <= s);
      assert !Contains(s[1..], pattern) by {
        forall i | 0 <= i <= |s[1..]|
          ensures !(pattern <= s[1..][i..])
        {
          assert s[1..][i..] == s[i + 1..];
        }
      }
      NoOccurrenceUnchanged(s[1..], pattern, rep);
      assert s == [s[0]] + s[1..];
    }
  }

  /** Replacing the pattern by itself changes nothing. */
  lemma {:induction false} ReplaceBySelf(s: string, pattern: string)
    requires pattern != ""
    ensures ReplaceAll(s, pattern, pattern) == s
  {
    ReplaceIsSplitJoin(s, pattern, pattern);
    SplitJoinRoundTrip(s, pattern);
  }

  /** `generate_website`'s page for a template: the grid stands for each placeholder. */
  function Page(template: string, grid: string): (r: string)
    ensures r == Join(Split(template, Placeholder), grid)
  {
    ReplaceIsSplitJoin(template, Placeholder, grid);
    ReplaceAll(template, Placeholder, grid)
  }

  /**
   * Every placeholder is replaced: the template is pieces without a
   * placeholder joined by placeholders, and the page is the same pieces joined
   * by the grid.
   */
  lemma PageReplacesEveryPlaceholder(template: string, grid: string)
    ensures Join(Split(template, Placeholder), Placeholder) == template
    ensures forall i :: 0 <= i < |Split(template, Placeholder)| ==>
      !Contains(Split(template, Placeholder)[i], Placeholder)
    ensures Page(template, grid) == Join(Split(template, Placeholder), grid)
  {
    SplitJoinRoundTrip(template, Placeholder);
    SplitPiecesHaveNoPattern(template, Placeholder);
  }

  /** A template holding exactly the placeholder becomes the grid alone. */
  lemma PlaceholderOnly(grid: string)
    ensures Page(Placeholder, grid) == grid
  {
    assert Placeholder <= Placeholder;
    assert Placeholder[|Placeholder|..] == "";
    assert ReplaceAll("", Placeholder, grid) == "";
    assert grid + "" == grid;
  }

  class WebGenerator {
    const movies: StorageContract.Storage

    constructor (storage: StorageContract.Storage)
      ensures movies == storage
    {
      movies := storage;
    }

    /**
     * `serialize_movies`: one fragment per movie, appended in the order the
     * loaded map yields its titles (`order`).
     */
    method SerializeMovies(order: seq<string>, nt: NumberText) returns (r: Result<string, StorageContract.Fault>)
      requires movies.Valid()
      requires movies.Load().Ok? ==> Enumerates(order, movies.Load().value.Keys)
      ensures movies.Load().Err? ==> r == Err(movies.Load().error)
      ensures movies.Load().Ok? ==> r == Ok(Grid(Items(movies.Load().value, order), nt))
    {
      var loaded := movies.GetMovies();
      if loaded.Err? {
        return Err(loaded.error);
      }
      var items := Items(loaded.value, order);
      var output := "";
      for i := 0 to |items|
        invariant output == Grid(items[..i], nt)
      {
        GridStep(items, i, nt);
        output := output + Fragment(items[i].0, items[i].1, nt);
      }
      assert items[..|items|] == items;
      r := Ok(output);
    }

    /**
     * `generate_website`: the template is read first, then the grid, and the
     * page sent to `write_file` is the template with the grid for each placeholder.
     */
    method GenerateWebsite(template: TemplateFile, order: seq<string>, nt: NumberText) returns (r: Result<string, WebFault>)
      requires movies.Valid()
      requires movies.Load().Ok? ==> Enumerates(order, movies.Load().value.Keys)
      ensures LoadTemplate(template).Err? ==> r == Err(LoadTemplate(template).error)
      ensures LoadTemplate(template).Ok? && movies.Load().Err? ==> r == Err(StorageRaised(movies.Load().error))
      ensures LoadTemplate(template).Ok? && movies.Load().Ok? ==>
        r == Ok(Page(template.text, Grid(Items(movies.Load().value, order), nt)))
    {
      var content := LoadTemplate(template);
      if content.Err? {
        return Err(content.error);
      }
      var grid := SerializeMovies(order, nt);
      if grid.Err? {
        return Err(StorageRaised(grid.error));
      }
      r := Ok(ReplaceAll(content.value, Placeholder, grid.value));
    }
  }
}
