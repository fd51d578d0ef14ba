/**
 * The input rules shared by the command modules: `str.strip`, `str.lower`,
 * the case-insensitive title lookup `is_movie_in_dict`, the acceptance test
 * of the numeric prompts, and the retry loop `while True: input(...)` that
 * reads one line per round until a line is accepted.  The lines a user types
 * are a parameter; running out of them is `EndOfInput`.
 */
module Console {
  import opened Catalog

  // ------------------------------------------------------------ characters

  /** The characters `str.isspace` holds for (and so `str.strip` removes). */
  predicate IsSpace(c: char) {
    || c == ' ' || ('\t' <= c <= '\r') || ('\U{1c}' <= c <= '\U{1f}')
    || c == '\U{85}' || c == '\U{a0}' || c == '\U{1680}'
    || ('\U{2000}' <= c <= '\U{200a}') || c == '\U{2028}' || c == '\U{2029}'
    || c == '\U{202f}' || c == '\U{205f}' || c == '\U{3000}'
  }

  /** `str.lower` on one character, for the letters A to Z. */
  function LowerChar(c: char): (r: char)
    ensures 'A' <= c <= 'Z' ==> 'a' <= r <= 'z'
    ensures !('A' <= c <= 'Z') ==> r == c
    ensures !('A' <= r <= 'Z')
  {
    if 'A' <= c <= 'Z' then (c as int - 'A' as int + 'a' as int) as char else c
  }

  function Lower(s: string): (r: string)
    ensures |r| == |s|
    ensures forall i :: 0 <= i < |s| ==> r[i] == LowerChar(s[i])
  {
    if s == [] then [] else [LowerChar(s[0])] + Lower(s[1..])
  }

  /** Lowering twice is lowering once. */
  lemma LowerIdempotent(s: string)
    ensures Lower(Lower(s)) == Lower(s)
  {
    assert forall i :: 0 <= i < |s| ==> LowerChar(LowerChar(s[i])) == LowerChar(s[i]);
  }

  // ------------------------------------------------------------- stripping

  /** `str.lstrip()`: drops the whitespace at the start. */
  function StripLeft(s: string): (r: string)
    ensures |r| <= |s|
  {
    if s != [] && IsSpace(s[0]) then StripLeft(s[1..]) else s
  }

  /** `lstrip` keeps the longest suffix that does not start with whitespace. */
  lemma {:induction false} StripLeftTrims(s: string)
    ensures StripLeft(s) == s[|s| - |StripLeft(s)|..]
    ensures forall i :: 0 <= i < |s| - |StripLeft(s)| ==> IsSpace(s[i])
    ensures StripLeft(s) != [] ==> !IsSpace(StripLeft(s)[0])
  {
    if s != [] && IsSpace(s[0]) {
      StripLeftTrims(s[1..]);
      forall i | 1 <= i < |s| - |StripLeft(s)| ensures IsSpace(s[i]) {
        assert s[i] == s[1..][i - 1];
      }
    }
  }

  /** `str.rstrip()`: drops the whitespace at the end. */
  function StripRight(s: string): (r: string)
    ensures |r| <= |s|
  {
    if s != [] && IsSpace(s[|s| - 1]) then StripRight(s[..|s| - 1]) else s
  }

  /** `rstrip` keeps the longest prefix that does not end with whitespace. */
  lemma {:induction false} StripRightTrims(s: string)
    ensures StripRight(s) == s[..|StripRight(s)|]
    ensures forall i :: |StripRight(s)| <= i < |s| ==> IsSpace(s[i])
    ensures StripRight(s) != [] ==> !IsSpace(StripRight(s)[|StripRight(s)| - 1])
  {
    if s != [] && IsSpace(s[|s| - 1]) {
      StripRightTrims(s[..|s| - 1]);
      forall i | |StripRight(s)| <= i < |s| - 1 ensures IsSpace(s[i]) {
        assert s[i] == s[..|s| - 1][i];
      }
    }
  }

  /** How many whitespace characters `s` starts with. */
  function Leading(s: string): (n: nat)
    ensures n <= |s|
  {
    |s| - |StripLeft(s)|
  }

  /** `str.strip()`: whitespace removed at both ends. */
  function Strip(s: string): (r: string)
    ensures |r| <= |s|
  {
    StripRight(StripLeft(s))
  }

  /** What `strip` keeps: the middle of `s` between its leading and trailing whitespace. */
  lemma StripTrims(s: string)
    ensures Leading(s) + |Strip(s)| <= |s|
    ensures Strip(s) == s[Leading(s)..Leading(s) + |Strip(s)|]
    ensures forall j :: 0 <= j < Leading(s) ==> IsSpace(s[j])
    ensures forall j :: Leading(s) + |Strip(s)| <= j < |s| ==> IsSpace(s[j])
    ensures Strip(s) != [] ==> !IsSpace(Strip(s)[0]) && !IsSpace(Strip(s)[|Strip(s)| - 1])
  {
    var l := StripLeft(s);
    StripLeftTrims(s);
    StripRightTrims(l);
    var n := Leading(s);
    var r := StripRight(l);
    assert l == s[n..];
    assert r == s[n..][..|r|] == s[n..n + |r|];
    forall j | n + |r| <= j < |s| ensures IsSpace(s[j]) {
      assert s[j] == l[j - n];
    }
    if r != [] {
      assert r[0] == l[0];
    }
  }

  /** A string that is all whitespace strips to "". */
  lemma {:induction false} BlankStripsToEmpty(s: string)
    requires forall i :: 0 <= i < |s| ==> IsSpace(s[i])
    ensures Strip(s) == ""
  {
    if s != [] {
      assert StripLeft(s) == StripLeft(s[1..]);
      BlankStripsToEmpty(s[1..]);
    }
  }

  /** Stripping a stripped string changes nothing. */
  lemma StripIdempotent(s: string)
    ensures Strip(Strip(s)) == Strip(s)
  {
    var r := Strip(s);
    StripTrims(s);
    if r != [] {
      assert StripLeft(r) == r;
      assert StripRight(r) == r;
    }
  }

  // ----------------------------------------------------- title existence

  /** The lowered keys, as the `map(lambda key: key.lower(), ...)` yields them. */
  function LoweredKeys(keys: set<string>): (r: set<string>)
    ensures forall k :: k in keys ==> Lower(k) in r
    ensures forall l :: l in r ==> exists k :: k in keys && Lower(k) == l
  {
    set k | k in keys :: Lower(k)
  }

  /** `is_movie_in_dict`: the lowered name is among the lowered keys. */
  predicate InDict(name: string, keys: set<string>) {
    Lower(name) in LoweredKeys(keys)
  }

  /** The check holds exactly when some key equals `name` ignoring case. */
  lemma InDictIsLoweredMembership(name: string, keys: set<string>)
    ensures InDict(name, keys) <==> exists k :: k in keys && Lower(k) == Lower(name)
  {
  }

  /** Every key is found, and so is every spelling of it that differs only in case. */
  lemma InDictIgnoresCase(name: string, other: string, keys: set<string>)
    requires Lower(name) == Lower(other)
    ensures InDict(name, keys) <==> InDict(other, keys)
    ensures name in keys ==> InDict(other, keys)
  {
  }

  // ------------------------------------------------------ numeric prompts

  /**
   * The test of `get_num` / `get_valid_input` on one line whose `float(...)`
   * conversion gave `parsed` (None: `ValueError`): the number must not be
   * negative, and the text must hold no '.' when `category` is exactly
   * `integralLabel`, the label the code compares the category with.
   */
  predicate Accepted(text: string, parsed: Option<real>, category: string, integralLabel: string) {
    parsed.Some? && !(parsed.value < 0.0 || (category == integralLabel && '.' in text))
  }

  /** An accepted value is a non-negative number. */
  lemma AcceptedIsNonNegative(text: string, parsed: Option<real>, category: string, integralLabel: string)
    requires Accepted(text, parsed, category, integralLabel)
    ensures parsed.Some? && parsed.value >= 0.0
    ensures category == integralLabel ==> '.' !in text
  {
  }

  /** For any other category a decimal point is no reason to reject. */
  lemma DecimalPointOnlyMattersForLabel(text: string, parsed: Option<real>, category: string, integralLabel: string)
    requires category != integralLabel
    ensures Accepted(text, parsed, category, integralLabel) <==> parsed.Some? && parsed.value >= 0.0
  {
  }

  // ------------------------------------------------------- retry loops

  /** What a prompt loop ends with: a value, or the input ran out first. */
  datatype Answer<+T> = Given(value: T) | EndOfInput

  /** The index of the first line `done` accepts; `|lines|` when there is none. */
  function FirstWhere(lines: seq<string>, done: string -> bool): (i: nat)
    ensures i <= |lines|
    ensures forall j {:trigger done(lines[j])} :: 0 <= j < i ==> !done(lines[j])
    ensures i < |lines| ==> done(lines[i])
  {
    if lines == [] then 0
    else if done(lines[0]) then 0
    else 1 + FirstWhere(lines[1..], done)
  }

  /** `while True: line = input(...)`, leaving the loop on the first line `done` accepts. */
  method Prompt(lines: seq<string>, done: string -> bool) returns (i: nat)
    ensures i == FirstWhere(lines, done)
  {
    i := 0;
    while i < |lines| && !done(lines[i])
      invariant i <= |lines|
      invariant FirstWhere(lines, done) == i + FirstWhere(lines[i..], done)
    {
      assert lines[i..][1..] == lines[i + 1..];
      i := i + 1;
    }
  }

  /** The lines `get_num` reads and what it returns: the first acceptable number. */
  function NumAnswer(lines: seq<string>, category: string, integralLabel: string, nt: NumberText): (r: (Answer<real>, nat))
    ensures r.1 <= |lines|
    ensures forall j :: 0 <= j < r.1 - 1 ==> !Accepted(lines[j], nt.parseReal(lines[j]), category, integralLabel)
    ensures r.0.Given? ==> r.1 >= 1 && r.0.value >= 0.0
    ensures r.0.Given? ==> nt.parseReal(lines[r.1 - 1]) == Some(r.0.value)
    ensures r.0.Given? && category == integralLabel ==> '.' !in lines[r.1 - 1]
    ensures r.0.EndOfInput? ==> r.1 == |lines|
    ensures r.0.EndOfInput? ==>
      forall j :: 0 <= j < |lines| ==> !Accepted(lines[j], nt.parseReal(lines[j]), category, integralLabel)
  {
    var done := l => Accepted(l, nt.parseReal(l), category, integralLabel);
    var i := FirstWhere(lines, done);
    assert forall j :: 0 <= j < i ==> !done(lines[j]);
    if i == |lines| then (EndOfInput, |lines|) else (Given(nt.parseReal(lines[i]).value), i + 1)
  }

  /** A line that is not blank once stripped. */
  predicate NonBlank(line: string) {
    Strip(line) != ""
  }

  /**
   * The lines `get_new_title` reads and what it returns: blank lines are
   * asked again; the first other line gives None when that title already
   * exists (ignoring case) and the stripped title otherwise.
   */
  function NewTitleAnswer(lines: seq<string>, keys: set<string>): (r: (Answer<Option<string>>, nat))
    ensures r.1 <= |lines|
    ensures r.0.Given? ==> r.1 >= 1 && NonBlank(lines[r.1 - 1]) && r.0.value == TitleFor(lines[r.1 - 1], keys)
    ensures r.0.EndOfInput? ==> r.1 == |lines|
  {
    var i := FirstWhere(lines, NonBlank);
    if i == |lines| then (EndOfInput, |lines|)
    else (Given(TitleFor(lines[i], keys)), i + 1)
  }

  /** Every line before the one `get_new_title` answers with is blank; at end of input all are. */
  lemma NewTitleSkipsBlanks(lines: seq<string>, keys: set<string>)
    ensures var (a, used) := NewTitleAnswer(lines, keys);
      && (forall j :: 0 <= j < used - 1 ==> !NonBlank(lines[j]))
      && (a.EndOfInput? ==> forall j :: 0 <= j < |lines| ==> !NonBlank(lines[j]))
  {
    var i := FirstWhere(lines, NonBlank);
    assert forall j :: 0 <= j < i ==> !NonBlank(lines[j]);
  }

  /** The answer for the first non-blank line: None when it names an existing title. */
  function TitleFor(line: string, keys: set<string>): (r: Option<string>)
    ensures r.None? <==> InDict(Strip(line), keys)
    ensures r.Some? ==> r.value == Strip(line)
  {
    var title := Strip(line);
    if InDict(title, keys) then None else Some(title)
  }

  /** A title `get_new_title` returns is never a case variant of an existing key. */
  lemma NewTitleIsFresh(lines: seq<string>, keys: set<string>, k: string)
    requires NewTitleAnswer(lines, keys).0 .Given? && NewTitleAnswer(lines, keys).0 .value.Some?
    requires k in keys
    ensures NewTitleAnswer(lines, keys).0 .value.value != ""
    ensures Lower(k) != Lower(NewTitleAnswer(lines, keys).0 .value.value)
  {
  }

  // ------------------------------------------------------ command results

  /** How a command of the menu ends. */
  datatype Report<+E> =
    | Raised(error: E)        // an exception left the command
    | InputEnded              // the user's input ran out inside a prompt loop
    | AlreadyExists           // `get_new_title` returned None
    | NoMovies                // "No movies in database"
    | NotFound(name: string)  // "Movie ... doesn't exist!"
    | Done(name: string)      // the storage operation completed
}
