/**
 * `canonicalize_name` (dd.py:46-54): the name-based grouping key.
 * The fixed pattern `^(.*?)(\d{4})` is modelled concretely over ASCII:
 * the lazy prefix grows one character at a time, may not contain a
 * newline (`.` does not match one), and stops at the first position where
 * four digits follow.
 */
module Canonical {
  import opened Wrappers
  import opened Text

  /** Four ASCII digits start at position `i` of `s`. */
  predicate FourDigitsAt(s: string, i: nat) {
    i + 4 <= |s| && IsDigit(s[i]) && IsDigit(s[i + 1]) && IsDigit(s[i + 2]) && IsDigit(s[i + 3])
  }

  /** `^(.*?)(\d{4})` can match `s` with a prefix of length `i`. */
  predicate YearMatchAt(s: string, i: nat) {
    FourDigitsAt(s, i) && forall j :: 0 <= j < i ==> s[j] != '\n'
  }

  /** The lazy search, having ruled out every prefix shorter than `i`. */
  function YearFrom(s: string, i: nat): (r: Option<nat>)
    requires i <= |s|
    requires forall j :: 0 <= j < i ==> s[j] != '\n' && !FourDigitsAt(s, j)
    ensures r.Some? ==> YearMatchAt(s, r.value) && forall j: nat :: j < r.value ==> !YearMatchAt(s, j)
    ensures r.None? ==> forall j: nat :: !YearMatchAt(s, j)
    decreases |s| - i
  {
    if i + 4 > |s| then None
    else if FourDigitsAt(s, i) then Some(i)
    else if s[i] == '\n' then None
    else YearFrom(s, i + 1)
  }

  /** Length of the shortest prefix with which `^(.*?)(\d{4})` matches, if any. */
  function FindYear(s: string): (r: Option<nat>)
    ensures r.Some? ==> YearMatchAt(s, r.value) && forall j: nat :: j < r.value ==> !YearMatchAt(s, j)
    ensures r.None? ==> forall j: nat :: !YearMatchAt(s, j)
  {
    YearFrom(s, 0)
  }

  /** `canonicalize_name`: "<title> <year>" when a year is found, else the lowered name. */
  function CanonicalizeName(name: string): string {
    match FindYear(name)
    case Some(i) => Lower(Strip(ReplaceDots(name[..i]))) + " " + name[i..i + 4]
    case None => Lower(name)
  }

  /**
   * When the leftmost run of four digits starts at `i` (and no newline
   * precedes it), the key is the dotted prefix made blank, stripped and
   * lowered, a blank, and those four digits; later runs are ignored.
   */
  lemma CanonicalWithYear(name: string, i: nat)
    requires YearMatchAt(name, i)
    requires forall j: nat :: j < i ==> !FourDigitsAt(name, j)
    ensures CanonicalizeName(name) == Lower(Strip(ReplaceDots(name[..i]))) + " " + name[i..i + 4]
  {
    var r := FindYear(name);
    assert YearMatchAt(name, i);
    assert FourDigitsAt(name, r.value);
    assert r.value == i;
  }

  /** Without a run of four digits the key is exactly the lowered name. */
  lemma CanonicalWithoutYear(name: string)
    requires forall i: nat :: !YearMatchAt(name, i)
    ensures CanonicalizeName(name) == Lower(name)
  {
    assert FindYear(name).None?;
  }

  /** Lowering keeps digits, newlines and every other class the pattern looks at. */
  lemma LowerKeepsYearMatches(s: string)
    ensures forall i: nat :: YearMatchAt(Lower(s), i) <==> YearMatchAt(s, i)
  {
    forall i: nat ensures YearMatchAt(Lower(s), i) <==> YearMatchAt(s, i) {
      if YearMatchAt(s, i) {
        forall j | 0 <= j < i ensures Lower(s)[j] != '\n' {
          assert LowerChar(s[j]) == Lower(s)[j];
        }
      }
      if YearMatchAt(Lower(s), i) {
        forall j | 0 <= j < i ensures s[j] != '\n' {
          assert LowerChar(s[j]) == Lower(s)[j];
        }
      }
    }
  }

  /** The title part of a key: stripped, lower-case, free of dots, newlines and years. */
  ghost predicate IsCanonicalTitle(t: string) {
    && IsStripped(t)
    && Lower(t) == t
    && (forall k :: 0 <= k < |t| ==> t[k] != '.' && t[k] != '\n')
    && (forall j: nat :: !FourDigitsAt(t, j))
  }

  /** Each character of the title comes from one of the text before the year, at a fixed offset. */
  lemma TitleChars(name: string, i: nat) returns (a: nat)
    requires i <= |name|
    ensures a + |Lower(Strip(ReplaceDots(name[..i])))| <= i
    ensures forall k :: 0 <= k < |Lower(Strip(ReplaceDots(name[..i])))| ==>
      Lower(Strip(ReplaceDots(name[..i])))[k] == LowerChar(DotToSpace(name[a + k]))
  {
    var dotted := ReplaceDots(name[..i]);
    var b;
    a, b := StripIsSlice(dotted);
    assert forall k :: 0 <= k < b - a ==> Strip(dotted)[k] == DotToSpace(name[a + k]);
  }

  /** Text drawn character for character from a year-free stretch holds no year. */
  lemma TitleHasNoYear(name: string, i: nat, a: nat, t: string)
    requires a + |t| <= i <= |name|
    requires forall k :: 0 <= k < |t| ==> t[k] == LowerChar(DotToSpace(name[a + k]))
    requires forall j: nat :: j < i ==> !FourDigitsAt(name, j)
    ensures forall j: nat :: !FourDigitsAt(t, j)
  {
    forall j: nat ensures !FourDigitsAt(t, j) {
      if j + 4 <= |t| {
        assert !FourDigitsAt(name, a + j);
      }
    }
  }

  /** The title built from the text before the leftmost year has the canonical form. */
  lemma TitleIsCanonical(name: string, i: nat)
    requires i <= |name|
    requires forall j :: 0 <= j < i ==> name[j] != '\n'
    requires forall j: nat :: j < i ==> !FourDigitsAt(name, j)
    ensures IsCanonicalTitle(Lower(Strip(ReplaceDots(name[..i]))))
  {
    var stripped := Strip(ReplaceDots(name[..i]));
    var t := Lower(stripped);
    var a := TitleChars(name, i);
    LowerIdempotent(stripped);
    assert IsStripped(t) by {
      if t != [] {
        assert t[0] == LowerChar(stripped[0]);
        assert t[|t| - 1] == LowerChar(stripped[|stripped| - 1]);
      }
    }
    TitleHasNoYear(name, i, a, t);
  }

  /** A key is its own key: canonicalisation is idempotent. */
  lemma CanonicalizeIdempotent(name: string)
    ensures CanonicalizeName(CanonicalizeName(name)) == CanonicalizeName(name)
  {
    match FindYear(name)
    case None =>
      LowerKeepsYearMatches(name);
      CanonicalWithoutYear(Lower(name));
      LowerIdempotent(name);
    case Some(i) =>
      IdempotentWithYear(name, i);
  }

  /** A name with its first year at `i` canonicalizes to a key that maps to itself. */
  lemma IdempotentWithYear(name: string, i: nat)
    requires FindYear(name) == Some(i)
    ensures CanonicalizeName(CanonicalizeName(name)) == CanonicalizeName(name)
  {
    forall j: nat | j < i ensures !FourDigitsAt(name, j) {
      assert !YearMatchAt(name, j);
    }
    var t := Lower(Strip(ReplaceDots(name[..i])));
    TitleIsCanonical(name, i);
    KeyOfTitleAndYear(t, name[i..i + 4]);
  }

  /** A canonical title, a blank and a year make a key that maps to itself. */
  lemma KeyOfTitleAndYear(t: string, year: string)
    requires IsCanonicalTitle(t)
    requires FourDigitsAt(year, 0) && |year| == 4
    ensures CanonicalizeName(t + " " + year) == t + " " + year
  {
    var r := t + " " + year;
    var n := |t| + 1;
    assert r[..n] == t + " ";
    assert r[n..n + 4] == year;
    forall j: nat | j < n ensures !FourDigitsAt(r, j) {
      if j + 4 <= |t| {
        assert r[j..j + 4] == t[j..j + 4];
        assert !FourDigitsAt(t, j);
      } else {
        assert r[|t|] == ' ';
      }
    }
    assert YearMatchAt(r, n);
    CanonicalWithYear(r, n);
    assert ReplaceDots(t + " ") == t + " ";
    StripTrailingBlank(t);
  }

  /** A year preceded only by non-digits, none of them a newline. */
  lemma YearAfterNonDigits(name: string, i: nat)
    requires FourDigitsAt(name, i)
    requires forall j :: 0 <= j < i ==> !IsDigit(name[j]) && name[j] != '\n'
    ensures CanonicalizeName(name) == Lower(Strip(ReplaceDots(name[..i]))) + " " + name[i..i + 4]
  {
    CanonicalWithYear(name, i);
  }

  /** Text with no digit and no newline: the lazy prefix passes over all of it. */
  predicate PlainText(t: string) {
    forall j :: 0 <= j < |t| ==> !IsDigit(t[j]) && t[j] != '\n'
  }

  /** A title free of digits and newlines, a year, and anything after it. */
  lemma TitleYearRest(t: string, year: string, rest: string)
    requires PlainText(t)
    requires |year| == 4 && FourDigitsAt(year, 0)
    ensures CanonicalizeName(t + year + rest) == Lower(Strip(ReplaceDots(t))) + " " + year
  {
    var name := t + year + rest;
    var i := |t|;
    assert name[..i] == t && name[i..i + 4] == year;
    assert forall j :: 0 <= j < i ==> name[j] == t[j];
    YearAfterNonDigits(name, i);
  }

  lemma DottedPlain(t: string)
    requires t == "Movie.Title."
    ensures PlainText(t)
  {
  }

  lemma DottedTitle(t: string)
    requires t == "Movie.Title."
    ensures PlainText(t)
    ensures Lower(Strip(ReplaceDots(t))) == "movie title"
  {
    DottedPlain(t);
    var u := "Movie Title";
    assert ReplaceDots(t) == u + " ";
    StripTrailingBlank(u);
    assert Lower(u) == "movie title";
  }

  lemma BracketedPlain(t: string)
    requires t == "Movie Title ("
    ensures PlainText(t)
  {
  }

  lemma BracketedTitle(t: string)
    requires t == "Movie Title ("
    ensures PlainText(t)
    ensures Lower(Strip(ReplaceDots(t))) == "movie title ("
  {
    BracketedPlain(t);
    assert ReplaceDots(t) == t;
    StripStripped(t);
    assert Lower(t) == "movie title (";
  }

  /** "Movie.Title.2020.BluRay", split at its year, has the key "movie title 2020". */
  lemma DottedNameKey(t: string, year: string, rest: string)
    requires t == "Movie.Title." && year == "2020" && rest == ".BluRay"
    ensures t + year + rest == "Movie.Title.2020.BluRay"
    ensures CanonicalizeName(t + year + rest) == "movie title 2020"
  {
    DottedTitle(t);
    TitleYearRest(t, year, rest);
  }

  /**
   * "Movie Title (2020) WEBRip", split at its year, has the key
   * "movie title ( 2020": only dots become blanks, so the bracket stays in
   * the title.
   */
  lemma BracketedNameKey(t: string, year: string, rest: string)
    requires t == "Movie Title (" && year == "2020" && rest == ") WEBRip"
    ensures t + year + rest == "Movie Title (2020) WEBRip"
    ensures CanonicalizeName(t + year + rest) == "movie title ( 2020"
  {
    BracketedTitle(t);
    TitleYearRest(t, year, rest);
  }
}
