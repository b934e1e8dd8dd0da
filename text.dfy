/** Character classes of the C locale and the first-match searches of
    `std::string` (`find`, `find_first_not_of`, `find_last_not_of`) that the
    program's text handling is built from. */
module Text {
  import opened Wrappers

  /** `std::isspace` in the C locale: space, tab, newline, vertical tab,
      form feed and carriage return. */
  predicate IsSpace(c: char) {
    c == ' ' || c == '\t' || c == '\n' || c == '\U{000B}' || c == '\U{000C}' || c == '\r'
  }

  predicate IsUpper(c: char) {
    'A' <= c <= 'Z'
  }

  /** `std::tolower` in the C locale: only `A`..`Z` change. */
  function ToLower(c: char): (r: char)
    ensures !IsUpper(r)
    ensures IsUpper(c) ==> r as int == c as int + 32
    ensures !IsUpper(c) ==> r == c
  {
    if IsUpper(c) then (c as int + 32) as char else c
  }

  /** `pat` occurs in `s` starting at index `i`. */
  predicate OccursAt(s: string, pat: string, i: nat) {
    i + |pat| <= |s| && s[i..i + |pat|] == pat
  }

  /** `pat` is a substring of `s`. */
  ghost predicate Contains(s: string, pat: string) {
    exists i: nat :: OccursAt(s, pat, i)
  }

  /** `s.find(pat, from)`: the first index at or after `from` where `pat`
      occurs, or None (`npos`). */
  function FindSub(s: string, pat: string, from: nat): (r: Option<nat>)
    decreases |s| - from
    ensures r.Some? ==> from <= r.value && OccursAt(s, pat, r.value)
    ensures r.Some? ==> forall j: nat :: from <= j < r.value ==> !OccursAt(s, pat, j)
    ensures r.None? ==> forall j: nat :: from <= j ==> !OccursAt(s, pat, j)
  {
    if from + |pat| > |s| then None
    else if s[from..from + |pat|] == pat then Some(from)
    else FindSub(s, pat, from + 1)
  }

  /** A search from the start succeeds exactly when `pat` is a substring. */
  lemma FindSubContains(s: string, pat: string)
    ensures FindSub(s, pat, 0).Some? <==> Contains(s, pat)
  {
    var r := FindSub(s, pat, 0);
    if r.Some? {
      assert OccursAt(s, pat, r.value);
    }
  }

  /** `s.find(c, from)`: the first index at or after `from` holding `c`. */
  function FindChar(s: string, c: char, from: nat): (r: Option<nat>)
    decreases |s| - from
    ensures r.Some? ==> from <= r.value < |s| && s[r.value] == c
  {
    if from >= |s| then None
    else if s[from] == c then Some(from)
    else FindChar(s, c, from + 1)
  }

  /** Before the index found, and anywhere after `from` when none is
      found, no character is `c`. */
  lemma {:induction false} FindCharFirst(s: string, c: char, from: nat)
    ensures var r := FindChar(s, c, from);
      && (r.Some? ==> forall j :: from <= j < r.value ==> s[j] != c)
      && (r.None? ==> forall j :: from <= j < |s| ==> s[j] != c)
    decreases |s| - from
  {
    if from < |s| && s[from] != c {
      FindCharFirst(s, c, from + 1);
    }
  }

  /** The search stops at the first `c` from `from` on. */
  lemma {:induction false} FindCharAt(s: string, c: char, from: nat, i: nat)
    requires from <= i < |s| && s[i] == c
    requires forall j :: from <= j < i ==> s[j] != c
    ensures FindChar(s, c, from) == Some(i)
    decreases i - from
  {
    if from < i {
      FindCharAt(s, c, from + 1, i);
    }
  }

  /** `s.find_first_not_of(cs, from)`. */
  function FirstNotIn(s: string, cs: set<char>, from: nat): (r: Option<nat>)
    decreases |s| - from
    ensures r.Some? ==> from <= r.value < |s| && s[r.value] !in cs
    ensures r.Some? ==> forall j :: from <= j < r.value ==> s[j] in cs
    ensures r.None? ==> forall j :: from <= j < |s| ==> s[j] in cs
  {
    if from >= |s| then None
    else if s[from] !in cs then Some(from)
    else FirstNotIn(s, cs, from + 1)
  }

  /** `s.find_last_not_of(cs)` restricted to the indices below `upto`. */
  function LastNotIn(s: string, cs: set<char>, upto: nat): (r: Option<nat>)
    requires upto <= |s|
    ensures r.Some? ==> r.value < upto && s[r.value] !in cs
    ensures r.Some? ==> forall j :: r.value < j < upto ==> s[j] in cs
    ensures r.None? ==> forall j :: 0 <= j < upto ==> s[j] in cs
  {
    if upto == 0 then None
    else if s[upto - 1] !in cs then Some(upto - 1)
    else LastNotIn(s, cs, upto - 1)
  }
}
