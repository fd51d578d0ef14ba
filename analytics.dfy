/**
 * The selection rules of the analytics commands (commands/analytics.py, and
 * the older analytics.py, which applies the same rules to the lower-case
 * fields "rating" and "year").  A collection is seen here as the list of its
 * items in dict iteration order, each reduced to what the rules compare: the
 * title, the rating and the year.
 */
module Analytics {
  import opened Catalog
  import opened Console

  /** One `(title, details)` item as the rules read it. */
  datatype Entry = Entry(title: string, rating: real, year: int)

  // ------------------------------------------------------------ statistics

  function MaxRating(items: seq<Entry>): (m: real)
    requires items != []
    ensures forall i :: 0 <= i < |items| ==> items[i].rating <= m
    ensures exists i :: 0 <= i < |items| && items[i].rating == m
  {
    if |items| == 1 then items[0].rating
    else
      var rest := MaxRating(items[1..]);
      if items[0].rating >= rest then items[0].rating else rest
  }

  function MinRating(items: seq<Entry>): (m: real)
    requires items != []
    ensures forall i :: 0 <= i < |items| ==> m <= items[i].rating
    ensures exists i :: 0 <= i < |items| && items[i].rating == m
  {
    if |items| == 1 then items[0].rating
    else
      var rest := MinRating(items[1..]);
      if items[0].rating <= rest then items[0].rating else rest
  }

  /** The titles rated exactly `r`, in collection order (the dict comprehension). */
  function TitlesRated(items: seq<Entry>, r: real): (ts: seq<string>)
    ensures forall i :: 0 <= i < |items| && items[i].rating == r ==> items[i].title in ts
    ensures forall t :: t in ts ==> exists i :: 0 <= i < |items| && items[i].title == t && items[i].rating == r
  {
    if items == [] then []
    else
      var rest := TitlesRated(items[1..], r);
      assert forall i :: 1 <= i < |items| ==> items[i] == items[1..][i - 1];
      if items[0].rating == r then [items[0].title] + rest else rest
  }

  /** What `show_statistics` selects: the extreme ratings and the titles that reach them. */
  datatype Extremes = Extremes(highest: real, lowest: real, best: seq<string>, worst: seq<string>)

  /** `show_statistics` without the average and median; None is the early return. */
  function Statistics(items: seq<Entry>): (r: Option<Extremes>)
    ensures r.None? <==> items == []
    ensures r.Some? ==> r.value.best != [] && r.value.worst != []
    ensures r.Some? ==> forall i :: 0 <= i < |items| ==>
      r.value.lowest <= items[i].rating <= r.value.highest
    ensures r.Some? ==> forall i :: 0 <= i < |items| ==>
      (items[i].rating == r.value.highest ==> items[i].title in r.value.best) &&
      (items[i].rating == r.value.lowest ==> items[i].title in r.value.worst)
    ensures r.Some? ==> forall t :: t in r.value.best ==>
      exists i :: 0 <= i < |items| && items[i].title == t && items[i].rating == r.value.highest
    ensures r.Some? ==> forall t :: t in r.value.worst ==>
      exists i :: 0 <= i < |items| && items[i].title == t && items[i].rating == r.value.lowest
  {
    if items == [] then None
    else
      var high := MaxRating(items);
      var low := MinRating(items);
      Some(Extremes(high, low, TitlesRated(items, high), TitlesRated(items, low)))
  }

  /** When every movie has the same rating, every title is both best and worst. */
  lemma {:induction false} AllEqualRatings(items: seq<Entry>, r: real)
    requires items != []
    requires forall i :: 0 <= i < |items| ==> items[i].rating == r
    ensures Statistics(items).Some?
    ensures Statistics(items).value.best == Statistics(items).value.worst
    ensures |Statistics(items).value.best| == |items|
  {
    var high := MaxRating(items);
    var low := MinRating(items);
    assert high == r && low == r;
    AllTitlesRated(items, r);
  }

  lemma {:induction false} AllTitlesRated(items: seq<Entry>, r: real)
    requires forall i :: 0 <= i < |items| ==> items[i].rating == r
    ensures |TitlesRated(items, r)| == |items|
  {
    if items != [] {
      AllTitlesRated(items[1..], r);
    }
  }

  // --------------------------------------------------------------- sorting

  datatype SortKey = ByRating | ByYear

  /** The value `key=lambda x: x[1][sort_key]` compares. */
  function KeyOf(e: Entry, key: SortKey): real {
    match key
    case ByRating => e.rating
    case ByYear => e.year as real
  }

  /** In the requested direction, key `a` may come before key `b`. */
  predicate Precedes(a: real, b: real, reverse: bool) {
    if reverse then a >= b else a <= b
  }

  predicate Ordered(s: seq<Entry>, key: SortKey, reverse: bool) {
    forall i, j :: 0 <= i < j < |s| ==> Precedes(KeyOf(s[i], key), KeyOf(s[j], key), reverse)
  }

  /** Places `x` before the first element it may precede. */
  function Insert(x: Entry, s: seq<Entry>, key: SortKey, reverse: bool): (r: seq<Entry>)
    ensures multiset(r) == multiset(s) + multiset{x}
  {
    if s == [] || Precedes(KeyOf(x, key), KeyOf(s[0], key), reverse) then [x] + s
    else
      assert s == [s[0]] + s[1..];
      [s[0]] + Insert(x, s[1..], key, reverse)
  }

  /** Inserting into an ordered list keeps it ordered. */
  lemma {:induction false} InsertOrdered(x: Entry, s: seq<Entry>, key: SortKey, reverse: bool)
    requires Ordered(s, key, reverse)
    ensures Ordered(Insert(x, s, key, reverse), key, reverse)
  {
    if s == [] || Precedes(KeyOf(x, key), KeyOf(s[0], key), reverse) {
      assert forall j :: 0 <= j < |s| ==> Precedes(KeyOf(x, key), KeyOf(s[j], key), reverse);
    } else {
      var rest := Insert(x, s[1..], key, reverse);
      InsertOrdered(x, s[1..], key, reverse);
      InsertBounded(x, s[1..], key, reverse, KeyOf(s[0], key));
      var r := [s[0]] + rest;
      forall i, j | 0 <= i < j < |r|
        ensures Precedes(KeyOf(r[i], key), KeyOf(r[j], key), reverse)
      {
        assert r[j] == rest[j - 1];
        if i > 0 {
          assert r[i] == rest[i - 1];
        }
      }
    }
  }

  /** A key that may precede `x` and every element of `s` may precede every element of the insertion. */
  lemma {:induction false} InsertBounded(x: Entry, s: seq<Entry>, key: SortKey, reverse: bool, k: real)
    requires Precedes(k, KeyOf(x, key), reverse)
    requires forall j :: 0 <= j < |s| ==> Precedes(k, KeyOf(s[j], key), reverse)
    ensures forall j :: 0 <= j < |Insert(x, s, key, reverse)| ==> Precedes(k, KeyOf(Insert(x, s, key, reverse)[j], key), reverse)
  {
    if s == [] || Precedes(KeyOf(x, key), KeyOf(s[0], key), reverse) {
      var r := [x] + s;
      assert forall j :: 1 <= j < |r| ==> r[j] == s[j - 1];
    } else {
      var rest := Insert(x, s[1..], key, reverse);
      InsertBounded(x, s[1..], key, reverse, k);
      var r := [s[0]] + rest;
      assert forall j :: 1 <= j < |r| ==> r[j] == rest[j - 1];
    }
  }

  /** `sorted(items, key=..., reverse=...)`: a stable sort (insertion of each earlier item first). */
  function Sort(s: seq<Entry>, key: SortKey, reverse: bool): (r: seq<Entry>)
    ensures multiset(r) == multiset(s)
    ensures Ordered(r, key, reverse)
  {
    if s == [] then []
    else
      assert s == [s[0]] + s[1..];
      var rest := Sort(s[1..], key, reverse);
      InsertOrdered(s[0], rest, key, reverse);
      Insert(s[0], rest, key, reverse)
  }

  /** The items whose key equals `v`, in their order. */
  function WithKey(s: seq<Entry>, key: SortKey, v: real): seq<Entry> {
    if s == [] then []
    else (if KeyOf(s[0], key) == v then [s[0]] else []) + WithKey(s[1..], key, v)
  }

  lemma {:induction false} InsertKeepsEqualKeyOrder(x: Entry, s: seq<Entry>, key: SortKey, reverse: bool, v: real)
    ensures WithKey(Insert(x, s, key, reverse), key, v) ==
      (if KeyOf(x, key) == v then [x] else []) + WithKey(s, key, v)
  {
    var mark := if KeyOf(x, key) == v then [x] else [];
    if s == [] || Precedes(KeyOf(x, key), KeyOf(s[0], key), reverse) {
      var r := [x] + s;
      assert r[0] == x && r[1..] == s;
      assert WithKey(r, key, v) == mark + WithKey(s, key, v);
    } else {
      var rest := Insert(x, s[1..], key, reverse);
      InsertKeepsEqualKeyOrder(x, s[1..], key, reverse, v);
      var r := [s[0]] + rest;
      assert r[0] == s[0] && r[1..] == rest;
      var head := if KeyOf(s[0], key) == v then [s[0]] else [];
      assert WithKey(r, key, v) == head + WithKey(rest, key, v);
      assert WithKey(rest, key, v) == mark + WithKey(s[1..], key, v);
      assert KeyOf(s[0], key) != KeyOf(x, key);
      assert head == [] || mark == [];
      assert WithKey(s, key, v) == head + WithKey(s[1..], key, v);
    }
  }

  /** Items with equal keys keep their original relative order (Python's sort is stable). */
  lemma {:induction false} SortIsStable(s: seq<Entry>, key: SortKey, reverse: bool, v: real)
    ensures WithKey(Sort(s, key, reverse), key, v) == WithKey(s, key, v)
  {
    if s != [] {
      SortIsStable(s[1..], key, reverse, v);
      InsertKeepsEqualKeyOrder(s[0], Sort(s[1..], key, reverse), key, reverse, v);
    }
  }

  /** `sort_movies`: None for an empty collection, else the sorted items. */
  function SortMovies(items: seq<Entry>, key: SortKey, reverse: bool): (r: Option<seq<Entry>>)
    ensures r.None? <==> items == []
    ensures r.Some? ==> multiset(r.value) == multiset(items) && Ordered(r.value, key, reverse)
  {
    if items == [] then None else Some(Sort(items, key, reverse))
  }

  /** `sorted_by_rating`: highest rating first. */
  function SortedByRating(items: seq<Entry>): (r: Option<seq<Entry>>)
    ensures r.None? <==> items == []
    ensures r.Some? ==> multiset(r.value) == multiset(items)
    ensures r.Some? ==> forall i, j :: 0 <= i < j < |r.value| ==> r.value[i].rating >= r.value[j].rating
  {
    SortMovies(items, ByRating, true)
  }

  /** The answer that ends the "latest movies first?" loop: "y" or "n" after strip and lower. */
  predicate IsYesNo(line: string) {
    Lower(Strip(line)) == "y" || Lower(Strip(line)) == "n"
  }

  /** The prompt loop of `sorted_by_year`: `Given(true)` when the accepted answer is "y". */
  method AskLatestFirst(lines: seq<string>) returns (r: Answer<bool>, used: nat)
    ensures used <= |lines|
    ensures forall j :: 0 <= j < used - 1 ==> !IsYesNo(lines[j])
    ensures r.Given? ==> used >= 1 && IsYesNo(lines[used - 1])
    ensures r.Given? ==> (r.value <==> Lower(Strip(lines[used - 1])) == "y")
    ensures r.EndOfInput? ==> used == |lines| && forall j :: 0 <= j < |lines| ==> !IsYesNo(lines[j])
  {
    var i := Prompt(lines, IsYesNo);
    if i == |lines| {
      return EndOfInput, |lines|;
    }
    r := Given(Lower(Strip(lines[i])) == "y");
    used := i + 1;
  }

  /** `sorted_by_year`: asks for the direction, then sorts by year, latest first iff "y". */
  method SortedByYear(items: seq<Entry>, lines: seq<string>) returns (r: Answer<Option<seq<Entry>>>, used: nat)
    ensures used <= |lines|
    ensures r.EndOfInput? <==> forall j :: 0 <= j < |lines| ==> !IsYesNo(lines[j])
    ensures r.Given? ==> used >= 1 && IsYesNo(lines[used - 1])
    ensures r.Given? ==> (r.value.None? <==> items == [])
    ensures r.Given? && r.value.Some? ==> multiset(r.value.value) == multiset(items)
    ensures r.Given? && r.value.Some? ==>
      Ordered(r.value.value, ByYear, Lower(Strip(lines[used - 1])) == "y")
  {
    var latestFirst;
    latestFirst, used := AskLatestFirst(lines);
    if latestFirst.EndOfInput? {
      return EndOfInput, used;
    }
    r := Given(SortMovies(items, ByYear, latestFirst.value));
  }

  // ----------------------------------------------------------- validation

  const RatingCategory: string := "rating"
  /** The category string the callers pass for years. */
  const YearCategory: string := "year"
  /** The category string `get_valid_input` compares with in commands/analytics.py. */
  const CheckedLabel: string := "Year"

  /** The rule as written in commands/analytics.py: decimals are refused only for "Year". */
  predicate AcceptedAsWritten(text: string, parsed: Option<real>, category: string) {
    Accepted(text, parsed, category, CheckedLabel)
  }

  /** The rule as intended (and as written in analytics.py): decimals are refused for "year". */
  predicate AcceptedAsIntended(text: string, parsed: Option<real>, category: string) {
    Accepted(text, parsed, category, YearCategory)
  }

  /** As written, the year prompts accept a decimal year such as "1999.5". */
  lemma DecimalYearSlipsThrough()
    ensures AcceptedAsWritten("1999.5", Some(1999.5), YearCategory)
    ensures !AcceptedAsIntended("1999.5", Some(1999.5), YearCategory)
  {
    assert "1999.5"[4] == '.';
  }

  /** As intended, a year is a non-negative number written without a decimal point. */
  lemma IntendedYearHasNoDecimals(text: string, parsed: Option<real>)
    ensures AcceptedAsIntended(text, parsed, YearCategory) <==>
      parsed.Some? && parsed.value >= 0.0 && '.' !in text
    ensures AcceptedAsIntended(text, parsed, RatingCategory) <==>
      parsed.Some? && parsed.value >= 0.0
  {
  }

  /**
   * A line that ends the `get_valid_input` loop: blank, or an accepted number.
   * `integralLabel` is the category the code refuses a '.' for: `CheckedLabel`
   * in commands/analytics.py, `YearCategory` in analytics.py.
   */
  predicate EndsValidInput(line: string, category: string, integralLabel: string, nt: NumberText) {
    var s := Strip(line);
    s == "" || Accepted(s, nt.parseReal(s), category, integralLabel)
  }

  /** The value of the line that ends the loop: None when blank, else the number it holds. */
  function ValidInputFor(line: string, category: string, integralLabel: string, nt: NumberText): (r: Option<real>)
    requires EndsValidInput(line, category, integralLabel, nt)
    ensures r.None? <==> Strip(line) == ""
    ensures r.Some? ==> r.value >= 0.0 && nt.parseReal(Strip(line)) == Some(r.value)
    ensures r.Some? && category == integralLabel ==> '.' !in Strip(line)
  {
    var s := Strip(line);
    if s == "" then None else Some(nt.parseReal(s).value)
  }

  /** What `get_valid_input` returns for `lines`, and how many lines it reads. */
  function ValidInputAnswer(lines: seq<string>, category: string, integralLabel: string, nt: NumberText)
    : (r: (Answer<Option<real>>, nat))
    ensures r.1 <= |lines|
    ensures r.0.EndOfInput? ==> r.1 == |lines|
  {
    var i := FirstWhere(lines, l => EndsValidInput(l, category, integralLabel, nt));
    if i == |lines| then (EndOfInput, |lines|)
    else (Given(ValidInputFor(lines[i], category, integralLabel, nt)), i + 1)
  }

  /**
   * The answer is what the last line read gives: that line ends the loop, and
   * every line before it was refused.
   */
  lemma ValidInputAnswerMeans(lines: seq<string>, category: string, integralLabel: string, nt: NumberText)
    ensures var r := ValidInputAnswer(lines, category, integralLabel, nt);
      r.0.Given? ==> (r.1 >= 1 && EndsValidInput(lines[r.1 - 1], category, integralLabel, nt) &&
                      r.0.value == ValidInputFor(lines[r.1 - 1], category, integralLabel, nt))
    ensures var r := ValidInputAnswer(lines, category, integralLabel, nt);
      forall j :: 0 <= j < r.1 - 1 ==> !EndsValidInput(lines[j], category, integralLabel, nt)
    ensures var r := ValidInputAnswer(lines, category, integralLabel, nt);
      r.0.EndOfInput? ==> forall j :: 0 <= j < |lines| ==> !EndsValidInput(lines[j], category, integralLabel, nt)
  {
    var done := l => EndsValidInput(l, category, integralLabel, nt);
    var i := FirstWhere(lines, done);
    assert forall j :: 0 <= j < i ==> !done(lines[j]);
  }

  /** `get_valid_input`: None for a blank line; otherwise the first acceptable number. */
  method GetValidInput(lines: seq<string>, category: string, integralLabel: string, nt: NumberText)
    returns (r: Answer<Option<real>>, used: nat)
    ensures (r, used) == ValidInputAnswer(lines, category, integralLabel, nt)
  {
    var i := Prompt(lines, l => EndsValidInput(l, category, integralLabel, nt));
    if i == |lines| {
      return EndOfInput, |lines|;
    }
    var s := Strip(lines[i]);
    if s == "" {
      r := Given(None);
    } else {
      r := Given(Some(nt.parseReal(s).value));
    }
    used := i + 1;
  }

  // ------------------------------------------------------------- filtering

  /** The three optional bounds of `filtered_movies`; None imposes nothing. */
  datatype Bounds = Bounds(minRating: Option<real>, startYear: Option<real>, endYear: Option<real>)

  predicate Meets(e: Entry, b: Bounds) {
    && (b.minRating.None? || e.rating >= b.minRating.value)
    && (b.startYear.None? || e.year as real >= b.startYear.value)
    && (b.endYear.None? || e.year as real <= b.endYear.value)
  }

  /** The list comprehension of `filtered_movies`. */
  function Filtered(items: seq<Entry>, b: Bounds): (r: seq<Entry>)
    ensures |r| <= |items|
    ensures forall e :: e in r ==> Meets(e, b) && e in items
    ensures forall e :: e in items && Meets(e, b) ==> e in r
  {
    if items == [] then []
    else (if Meets(items[0], b) then [items[0]] else []) + Filtered(items[1..], b)
  }

  /** Filtering keeps collection order: it distributes over concatenation. */
  lemma {:induction false} FilterKeepsOrder(a: seq<Entry>, c: seq<Entry>, b: Bounds)
    ensures Filtered(a + c, b) == Filtered(a, b) + Filtered(c, b)
  {
    if a != [] {
      var head := if Meets(a[0], b) then [a[0]] else [];
      assert (a + c)[0] == a[0];
      assert (a + c)[1..] == a[1..] + c;
      FilterKeepsOrder(a[1..], c, b);
      assert Filtered(a + c, b) == head + Filtered(a[1..] + c, b);
      assert Filtered(a, b) == head + Filtered(a[1..], b);
    } else {
      assert a + c == c;
    }
  }

  /** With every bound left blank, nothing is filtered out. */
  lemma {:induction false} NoBoundsKeepsAll(items: seq<Entry>)
    ensures Filtered(items, Bounds(None, None, None)) == items
  {
    if items != [] {
      NoBoundsKeepsAll(items[1..]);
    }
  }

  /**
   * The three bounds `filtered_movies` reads in turn: a minimum rating, a
   * start year and an end year, each blank for no bound. The callers pass
   * "rating" and "year"; `integralLabel` is as for `EndsValidInput`.
   */
  function BoundsRead(lines: seq<string>, integralLabel: string, nt: NumberText): (r: Answer<Bounds>)
    ensures r.Given? && r.value.minRating.Some? ==> r.value.minRating.value >= 0.0
    ensures r.Given? && r.value.startYear.Some? ==> r.value.startYear.value >= 0.0
    ensures r.Given? && r.value.endYear.Some? ==> r.value.endYear.value >= 0.0
  {
    ValidInputAnswerMeans(lines, RatingCategory, integralLabel, nt);
    var rating := ValidInputAnswer(lines, RatingCategory, integralLabel, nt);
    ValidInputAnswerMeans(lines[rating.1..], YearCategory, integralLabel, nt);
    ValidInputAnswerMeans(lines[rating.1 + ValidInputAnswer(lines[rating.1..], YearCategory, integralLabel, nt).1..],
      YearCategory, integralLabel, nt);
    var start := ValidInputAnswer(lines[rating.1..], YearCategory, integralLabel, nt);
    var end := ValidInputAnswer(lines[rating.1 + start.1..], YearCategory, integralLabel, nt);
    BoundsOf(rating.0, start.0, end.0)
  }

  /** The bounds from three answers, or the end of input if any of them met it. */
  function BoundsOf(rating: Answer<Option<real>>, start: Answer<Option<real>>, end: Answer<Option<real>>): Answer<Bounds> {
    if rating.EndOfInput? || start.EndOfInput? || end.EndOfInput? then EndOfInput
    else Given(Bounds(rating.value, start.value, end.value))
  }

  /** The three prompts of `filtered_movies`, one after the other. */
  method ReadBounds(lines: seq<string>, integralLabel: string, nt: NumberText) returns (b: Answer<Bounds>)
    ensures b == BoundsRead(lines, integralLabel, nt)
  {
    var minRating, used1 := GetValidInput(lines, RatingCategory, integralLabel, nt);
    var startYear, used2 := GetValidInput(lines[used1..], YearCategory, integralLabel, nt);
    var endYear, _ := GetValidInput(lines[used1 + used2..], YearCategory, integralLabel, nt);
    b := BoundsOf(minRating, startYear, endYear);
  }

  /**
   * `filtered_movies`: nothing is asked when there are no movies; otherwise
   * the bounds are read and the items meeting every given bound are kept.
   * commands/analytics.py is this with `integralLabel == CheckedLabel`,
   * analytics.py with `integralLabel == YearCategory`.
   */
  method FilteredMovies(items: seq<Entry>, lines: seq<string>, integralLabel: string, nt: NumberText)
    returns (r: Answer<Option<seq<Entry>>>)
    ensures items == [] ==> r == Given(None)
    ensures items != [] && BoundsRead(lines, integralLabel, nt).EndOfInput? ==> r == EndOfInput
    ensures items != [] && BoundsRead(lines, integralLabel, nt).Given? ==>
      r == Given(Some(Filtered(items, BoundsRead(lines, integralLabel, nt).value)))
  {
    if items == [] {
      return Given(None);
    }
    var bounds := ReadBounds(lines, integralLabel, nt);
    if bounds.EndOfInput? {
      return EndOfInput;
    }
    r := Given(Some(Filtered(items, bounds.value)));
  }

  /**
   * As written, commands/analytics.py takes "1999.5" as the start year: the
   * answers "", "1999.5", "" give no minimum rating, a start year of 1999.5 and
   * no end year.
   */
  lemma CommandsFilterTakesDecimalYear(nt: NumberText)
    requires nt.parseReal("1999.5") == Some(1999.5)
    ensures BoundsRead(["", "1999.5", ""], CheckedLabel, nt) == Given(Bounds(None, Some(1999.5), None))
  {
    var lines := ["", "1999.5", ""];
    BlankAnswer(lines, 0, RatingCategory, CheckedLabel, nt);
    YearTextStrips();
    assert lines[1..][0] == "1999.5";
    assert EndsValidInput(lines[1..][0], YearCategory, CheckedLabel, nt);
    FirstAnswer(lines[1..], YearCategory, CheckedLabel, nt);
    BlankAnswer(lines, 2, YearCategory, CheckedLabel, nt);
  }

  /**
   * As intended (and as analytics.py reads them), the same answers refuse
   * "1999.5", take the next blank line as the start year, and leave no line
   * for the end year.
   */
  lemma IntendedFilterRefusesDecimalYear(nt: NumberText)
    requires nt.parseReal("1999.5") == Some(1999.5)
    ensures BoundsRead(["", "1999.5", ""], YearCategory, nt) == EndOfInput
  {
    var lines := ["", "1999.5", ""];
    BlankAnswer(lines, 0, RatingCategory, YearCategory, nt);
    YearTextStrips();
    var rest := lines[1..];
    assert rest[0] == "1999.5" && rest[1] == "";
    assert "1999.5"[4] == '.';
    assert !EndsValidInput(rest[0], YearCategory, YearCategory, nt);
    BlankStripsToEmpty("");
    assert EndsValidInput(rest[1], YearCategory, YearCategory, nt);
    assert ValidInputAnswer(rest, YearCategory, YearCategory, nt).1 == 2;
    assert lines[1 + 2..] == [];
  }

  /** A blank line at `i` is the whole answer of the prompt that starts there. */
  lemma BlankAnswer(lines: seq<string>, i: nat, category: string, integralLabel: string, nt: NumberText)
    requires i < |lines| && lines[i] == ""
    ensures ValidInputAnswer(lines[i..], category, integralLabel, nt) == (Given(None), 1)
  {
    BlankStripsToEmpty("");
    FirstAnswer(lines[i..], category, integralLabel, nt);
  }

  /** A first line that ends the loop is the answer. */
  lemma FirstAnswer(lines: seq<string>, category: string, integralLabel: string, nt: NumberText)
    requires lines != [] && EndsValidInput(lines[0], category, integralLabel, nt)
    ensures ValidInputAnswer(lines, category, integralLabel, nt) ==
      (Given(ValidInputFor(lines[0], category, integralLabel, nt)), 1)
  {
  }

  /** "1999.5" has no whitespace to strip. */
  lemma YearTextStrips()
    ensures Strip("1999.5") == "1999.5"
  {
    var s := "1999.5";
    assert !IsSpace(s[0]) && !IsSpace(s[|s| - 1]);
    assert StripLeft(s) == s;
  }
}
