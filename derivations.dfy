/** Values the sample-data loader derives from its records: the experience band of a number of
    years, a job's city and state read off a "City, State" location with Python's `split(',')`
    and `strip()`, and a company's website built from its name with `lower()` and `replace`. */
module Derivations {
  import U = Users

  // ----- experience bands -----

  /** The loader's band for a number of years: 10 and more is expert, 5 to 9 senior, 2 to 4 mid,
      anything lower entry (the same ladder is used for seekers and for jobs). */
  function ExperienceBucket(years: int): (l: U.ExperienceLevel)
  {
    if years >= 10 then U.ExperienceLevel.Expert
    else if years >= 5 then U.ExperienceLevel.Senior
    else if years >= 2 then U.ExperienceLevel.Mid
    else U.ExperienceLevel.Entry
  }

  /** The place of a band in the ladder. */
  function Rank(l: U.ExperienceLevel): nat
  {
    match l
    case Entry => 0
    case Mid => 1
    case Senior => 2
    case Expert => 3
  }

  /** The fewest years that reach a band above entry. */
  function MinYears(l: U.ExperienceLevel): int
  {
    match l
    case Entry => 0
    case Mid => 2
    case Senior => 5
    case Expert => 10
  }

  /** A number of years reaches a band above entry exactly when it is at least that band's
      threshold: the bands are intervals, in order. */
  lemma BucketReaches(years: int, l: U.ExperienceLevel)
    requires l != U.ExperienceLevel.Entry
    ensures Rank(ExperienceBucket(years)) >= Rank(l) <==> years >= MinYears(l)
  {
  }

  /** More experience never lands in a lower band. */
  lemma BucketMonotone(a: int, b: int)
    requires a <= b
    ensures Rank(ExperienceBucket(a)) <= Rank(ExperienceBucket(b))
  {
  }

  // ----- locations -----

  /** Python's `str.split(sep)` with an explicit separator: the pieces between separators,
      empty pieces included. */
  function Split(s: string, sep: char): (parts: seq<string>)
    ensures |parts| >= 1
    ensures forall i :: 0 <= i < |parts| ==> sep !in parts[i]
    decreases |s|
  {
    if |s| == 0 then [""]
    else
      var rest := Split(s[1..], sep);
      if s[0] == sep then [""] + rest
      else [[s[0]] + rest[0]] + rest[1..]
  }

  /** `sep.join(parts)`. */
  function Join(parts: seq<string>, sep: char): string
    requires |parts| >= 1
    decreases |parts|
  {
    if |parts| == 1 then parts[0] else parts[0] + [sep] + Join(parts[1..], sep)
  }

  /** Joining the pieces gives back the text: `split` loses only the separators. */
  lemma {:induction false} JoinSplit(s: string, sep: char)
    ensures Join(Split(s, sep), sep) == s
    decreases |s|
  {
    if |s| > 0 {
      JoinSplit(s[1..], sep);
      var rest := Split(s[1..], sep);
      if s[0] != sep {
        if |rest| > 1 {
          assert ([[s[0]] + rest[0]] + rest[1..])[1..] == rest[1..];
        }
      }
    }
  }

  /** Splitting pieces that hold no separator gives back the pieces. */
  lemma {:induction false} SplitJoin(parts: seq<string>, sep: char)
    requires |parts| >= 1
    requires forall i :: 0 <= i < |parts| ==> sep !in parts[i]
    ensures Split(Join(parts, sep), sep) == parts
    decreases |parts|, |parts[0]|
  {
    if |parts[0]| > 0 {
      var p0 := parts[0];
      var parts' := [p0[1..]] + parts[1..];
      forall i | 0 <= i < |parts'| ensures sep !in parts'[i] {
        if i > 0 { assert parts'[i] == parts[i]; }
      }
      SplitJoin(parts', sep);
      var s := Join(parts, sep);
      if |parts| == 1 {
        assert s[1..] == Join(parts', sep);
      } else {
        assert parts'[1..] == parts[1..];
        assert s[1..] == Join(parts', sep);
      }
      assert s[0] == p0[0] && p0[0] != sep;
      assert [s[0]] + p0[1..] == p0;
      assert [p0] + parts[1..] == parts;
    } else if |parts| > 1 {
      SplitJoin(parts[1..], sep);
      var s := Join(parts, sep);
      assert s == [sep] + Join(parts[1..], sep);
      assert s[1..] == Join(parts[1..], sep);
      assert [""] + parts[1..] == parts;
    }
  }

  /** Text holding the separator splits into at least two pieces, so `split(',')[1]` exists
      whenever `',' in location` holds. */
  lemma SplitHasSecond(s: string, sep: char)
    requires sep in s
    ensures |Split(s, sep)| >= 2
  {
    JoinSplit(s, sep);
  }

  /** The characters Python's `str.isspace()` accepts. */
  predicate IsSpace(c: char)
  {
    || c == ' ' || ('\t' <= c <= '\r') || ('\U{1c}' <= c <= '\U{1f}')
    || c == '\U{85}' || c == '\U{a0}' || c == '\U{1680}' || ('\U{2000}' <= c <= '\U{200a}')
    || c == '\U{2028}' || c == '\U{2029}' || c == '\U{202f}' || c == '\U{205f}' || c == '\U{3000}'
  }

  /** The first index from `i` on whose character is not whitespace, or `|s|`. */
  function SkipSpaces(s: string, i: nat): (n: nat)
    requires i <= |s|
    ensures i <= n <= |s|
    ensures forall k :: i <= k < n ==> IsSpace(s[k])
    ensures n < |s| ==> !IsSpace(s[n])
    decreases |s| - i
  {
    if i < |s| && IsSpace(s[i]) then SkipSpaces(s, i + 1) else i
  }

  /** Walking back from `j`, no further than `lo`, the first index whose predecessor is not
      whitespace, or `lo`. */
  function SkipSpacesBack(s: string, lo: nat, j: nat): (m: nat)
    requires lo <= j <= |s|
    ensures lo <= m <= j
    ensures forall k :: m <= k < j ==> IsSpace(s[k])
    ensures lo < m ==> !IsSpace(s[m - 1])
    decreases j
  {
    if lo < j && IsSpace(s[j - 1]) then SkipSpacesBack(s, lo, j - 1) else j
  }

  /** Python's `str.strip()`: the slice of `s` left after dropping whitespace at both ends. */
  function Strip(s: string): string
  {
    var i := SkipSpaces(s, 0);
    s[i..SkipSpacesBack(s, i, |s|)]
  }

  /** What `strip()` keeps is one slice of the text, everything it drops is whitespace, and
      the slice neither starts nor ends with whitespace. */
  lemma StripIsTrim(s: string)
    ensures exists i, j ::
      && 0 <= i <= j <= |s| && Strip(s) == s[i..j]
      && (forall k :: 0 <= k < i ==> IsSpace(s[k]))
      && (forall k :: j <= k < |s| ==> IsSpace(s[k]))
    ensures Strip(s) != [] ==> !IsSpace(Strip(s)[0]) && !IsSpace(Strip(s)[|Strip(s)| - 1])
  {
    var i := SkipSpaces(s, 0);
    var j := SkipSpacesBack(s, i, |s|);
    assert Strip(s) == s[i..j];
    if i < j {
      assert Strip(s)[0] == s[i] && Strip(s)[|Strip(s)| - 1] == s[j - 1];
    }
  }

  /** Conversely, that slice is the only one with these properties: whitespace before it and
      after it, and none at its own ends, determine what `strip()` returns. */
  lemma StripUnique(s: string, i: nat, j: nat)
    requires i <= j <= |s|
    requires forall k :: 0 <= k < i ==> IsSpace(s[k])
    requires forall k :: j <= k < |s| ==> IsSpace(s[k])
    requires i < j ==> !IsSpace(s[i]) && !IsSpace(s[j - 1])
    ensures Strip(s) == s[i..j]
  {
    var a := SkipSpaces(s, 0);
    if i < j {
      assert a == i;
      assert SkipSpacesBack(s, i, |s|) == j;
    } else {
      assert a == |s|;
    }
  }

  /** Text with no whitespace at either end is left as it is. */
  lemma StripTrimmed(s: string)
    requires s != [] ==> !IsSpace(s[0]) && !IsSpace(s[|s| - 1])
    ensures Strip(s) == s
  {
    StripUnique(s, 0, |s|);
    assert s[0..|s|] == s;
  }

  /** `strip()` is idempotent. */
  lemma StripIdempotent(s: string)
    ensures Strip(Strip(s)) == Strip(s)
  {
    StripIsTrim(s);
    StripTrimmed(Strip(s));
  }

  /** The city the loader stores for a job: the first comma-separated piece, stripped. */
  function City(location: string): string
  {
    Strip(Split(location, ',')[0])
  }

  /** The state the loader stores for a job: the second comma-separated piece, stripped, or
      empty when the location has no comma. */
  function State(location: string): (r: string)
    ensures ',' !in location ==> r == []
  {
    if ',' in location then
      SplitHasSecond(location, ',');
      Strip(Split(location, ',')[1])
    else []
  }

  /** A location as the loader writes it for a seeker, "City, State". */
  function Location(city: string, state: string): string
  {
    city + ", " + state
  }

  /** Text that `strip()` leaves unchanged and that holds no comma is a place name. */
  predicate PlaceName(s: string)
  {
    ',' !in s && Strip(s) == s
  }

  /** Reading a "City, State" location back gives the city and the state it was written from. */
  lemma CityStateRoundTrip(city: string, state: string)
    requires PlaceName(city) && PlaceName(state)
    ensures City(Location(city, state)) == city
    ensures State(Location(city, state)) == state
  {
    var loc := Location(city, state);
    LocationSplits(city, state);
    assert loc[|city|] == ',';
    StripSpaceLeft(state);
  }

  /** "City, State" splits on its one comma into the city and the blank-led state. */
  lemma LocationSplits(city: string, state: string)
    requires ',' !in city && ',' !in state
    ensures Split(Location(city, state), ',') == [city, " " + state]
  {
    var parts := [city, " " + state];
    assert Join(parts, ',') == city + [','] + Join(parts[1..], ',');
    assert Join(parts[1..], ',') == " " + state;
    assert Location(city, state) == Join(parts, ',');
    assert ',' !in " " + state;
    SplitJoin(parts, ',');
  }

  /** A leading blank does not survive `strip()`. */
  lemma StripSpaceLeft(s: string)
    requires Strip(s) == s
    ensures Strip(" " + s) == s
  {
    StripIsTrim(s);
    var t := " " + s;
    assert t[1..|t|] == s;
    if s == [] {
      StripUnique(t, 1, 1);
    } else {
      assert t[1] == s[0] && t[|t| - 1] == s[|s| - 1];
      StripUnique(t, 1, |t|);
    }
  }

  // ----- company websites -----

  /** Python's `lower()` on ASCII letters; every other character is kept. */
  function Lower(s: string): (r: string)
    ensures |r| == |s|
    ensures forall i :: 0 <= i < |s| ==> r[i] == if 'A' <= s[i] <= 'Z' then (s[i] - 'A' + 'a') as char else s[i]
  {
    seq(|s|, i requires 0 <= i < |s| => if 'A' <= s[i] <= 'Z' then (s[i] - 'A' + 'a') as char else s[i])
  }

  /** Python's `s.replace(pat, '')`: one left-to-right pass deleting non-overlapping
      occurrences of `pat`. */
  function RemoveAll(s: string, pat: string): (r: string)
    requires pat != []
    ensures forall c :: c in r ==> c in s
    ensures |pat| == 1 ==> pat[0] !in r
    decreases |s|
  {
    if |s| < |pat| then
      assert |pat| == 1 ==> s == [];
      s
    else if s[..|pat|] == pat then
      var r := RemoveAll(s[|pat|..], pat);
      assert forall c :: c in s[|pat|..] ==> c in s;
      r
    else
      var r := RemoveAll(s[1..], pat);
      assert forall c :: c in s[1..] ==> c in s;
      assert |pat| == 1 ==> s[0] != pat[0];
      [s[0]] + r
  }

  /** The host part the loader builds from a company name. */
  function Slug(name: string): (r: string)
    ensures ' ' !in r && '&' !in r
    ensures forall c :: c in r ==> !('A' <= c <= 'Z')
    ensures forall c :: c in r ==> c in Lower(name)
  {
    RemoveAll(RemoveAll(RemoveAll(RemoveAll(Lower(name), " "), "&"), "ltd"), "pvt")
  }

  /** `https://www.<slug>.com`. */
  function Website(name: string): (r: string)
    ensures |r| >= 16 && r[..12] == "https://www." && r[|r| - 4..] == ".com"
    ensures r[12..|r| - 4] == Slug(name)
  {
    "https://www." + Slug(name) + ".com"
  }

  /** One pass does not remove every "ltd": removing one occurrence can join two halves into
      another. */
  lemma SlugMayKeepLtd()
    ensures Slug("LLtdtd") == "ltd"
  {
    LowerExample();
    RemoveAbsent("lltdtd", ' ');
    RemoveAbsent("lltdtd", '&');
    RemoveLtdExample();
    RemovePvtExample();
  }

  lemma RemovePvtExample()
    ensures RemoveAll("ltd", "pvt") == "ltd"
  {
    var s, pat := "ltd", "pvt";
    assert s[0] == 'l' && pat[0] == 'p';
    assert s[..3] != pat;
    assert s[1..] == "td";
    assert RemoveAll(s, pat) == [s[0]] + RemoveAll("td", pat);
    assert RemoveAll("td", pat) == "td";
  }

  lemma LowerExample()
    ensures Lower("LLtdtd") == "lltdtd"
  {
    var r := Lower("LLtdtd");
    assert r[0] == 'l' && r[1] == 'l' && r[2] == 't' && r[3] == 'd' && r[4] == 't' && r[5] == 'd';
  }

  /** Removing a character the text does not hold leaves it as it is. */
  lemma {:induction false} RemoveAbsent(s: string, c: char)
    requires c !in s
    ensures RemoveAll(s, [c]) == s
    decreases |s|
  {
    if s != [] {
      assert s[0] in s && s[..1] == [s[0]];
      RemoveAbsent(s[1..], c);
      assert [s[0]] + s[1..] == s;
    }
  }

  lemma RemoveLtdExample()
    ensures RemoveAll("lltdtd", "ltd") == "ltd"
  {
    var s, pat := "lltdtd", "ltd";
    assert s[1] == 'l' && pat[1] == 't';
    assert s[..3] != pat;
    assert s[1..] == "ltdtd";
    assert RemoveAll(s, pat) == [s[0]] + RemoveAll("ltdtd", pat);
    RemoveLtdTail();
  }

  lemma RemoveLtdTail()
    ensures RemoveAll("ltdtd", "ltd") == "td"
  {
    var s, pat := "ltdtd", "ltd";
    assert s[..3] == pat;
    assert s[3..] == "td";
    assert RemoveAll(s, pat) == RemoveAll("td", pat);
    assert RemoveAll("td", pat) == "td";
  }
}
