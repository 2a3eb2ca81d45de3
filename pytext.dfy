/** Python string primitives that the reference formatter relies on: the
    character classes behind `str.isspace` and the regular-expression classes
    `\s`, `\d`, `\w`; the case mappings behind `lower`, `upper`, `title` and
    `capitalize`; `strip`, `rstrip(chars)`, `in`, `replace` and `join`.
    Where Python consults the Unicode database, the mapping is modelled for
    ASCII and Latin-1 only. */
module PyText {

  datatype Option<T> = None | Some(value: T)

  /** A half-open range [start, end) of positions in a string. */
  datatype Span = Span(start: nat, end: nat)

  // ---------------------------------------------------------------------
  // Character classes

  /** `str.isspace()`, which is also what `\s` matches in a `str` pattern. */
  predicate IsSpace(c: char) {
    c == ' ' || '\t' <= c <= '\r' || '\U{1C}' <= c <= '\U{1F}' || c == '\U{85}' || c == '\U{A0}'
    || c == '\U{1680}' || '\U{2000}' <= c <= '\U{200A}' || c == '\U{2028}' || c == '\U{2029}'
    || c == '\U{202F}' || c == '\U{205F}' || c == '\U{3000}'
  }

  /** `\d`, ASCII digits only. */
  predicate IsDigit(c: char) {
    '0' <= c <= '9'
  }

  /** `\w` (used by `\b`): letters, digits, numerics and underscore of ASCII and Latin-1. */
  predicate IsWordChar(c: char) {
    'a' <= c <= 'z' || 'A' <= c <= 'Z' || IsDigit(c) || c == '_'
    || c == '\U{AA}' || c == '\U{B2}' || c == '\U{B3}' || c == '\U{B5}' || c == '\U{B9}' || c == '\U{BA}'
    || '\U{BC}' <= c <= '\U{BE}'
    || ('\U{C0}' <= c <= '\U{FF}' && c != '\U{D7}' && c != '\U{F7}')
  }

  /** Upper-case letters of ASCII and Latin-1 (À–Þ without ×). */
  predicate IsUpper(c: char) {
    'A' <= c <= 'Z' || ('\U{C0}' <= c <= '\U{DE}' && c != '\U{D7}')
  }

  /** Lower-case letters of ASCII and Latin-1 (ß–ÿ without ÷, µ, and the
      ordinal indicators ª and º, which have no upper case). */
  predicate IsLower(c: char) {
    'a' <= c <= 'z' || ('\U{DF}' <= c <= '\U{FF}' && c != '\U{F7}') || c == '\U{B5}'
    || c == '\U{AA}' || c == '\U{BA}'
  }

  /** A character that has case; `title` lower-cases a character that follows one. */
  predicate IsCased(c: char) {
    IsUpper(c) || IsLower(c)
  }

  function LowerChar(c: char): (r: char)
    ensures !IsUpper(r)
    ensures IsUpper(c) <==> r != c
  {
    if IsUpper(c) then (c as int + 32) as char else c
  }

  /** Upper-casing of the letters whose upper case is one Latin-1 letter
      (ß, ÿ and µ are left alone). */
  function UpperChar(c: char): (r: char)
    ensures !('a' <= r <= 'z')
    ensures 'a' <= c <= 'z' ==> 'A' <= r <= 'Z' && LowerChar(r) == c
  {
    if 'a' <= c <= 'z' || ('\U{E0}' <= c <= '\U{FE}' && c != '\U{F7}') then (c as int - 32) as char else c
  }

  // ---------------------------------------------------------------------
  // Case mappings of whole strings

  /** `str.lower()`. */
  function Lower(s: string): (r: string)
    ensures |r| == |s|
    ensures forall i | 0 <= i < |s| :: r[i] == LowerChar(s[i])
  {
    seq(|s|, i requires 0 <= i < |s| => LowerChar(s[i]))
  }

  /** `str.upper()`. */
  function Upper(s: string): (r: string)
    ensures |r| == |s|
    ensures forall i | 0 <= i < |s| :: r[i] == UpperChar(s[i])
  {
    seq(|s|, i requires 0 <= i < |s| => UpperChar(s[i]))
  }

  /** `str.title()`: a character that follows a cased character is lower-cased,
      every other character is upper-cased. */
  function Title(s: string): (r: string)
    ensures |r| == |s|
    ensures forall i | 0 <= i < |s| ::
      r[i] == if i > 0 && IsCased(s[i - 1]) then LowerChar(s[i]) else UpperChar(s[i])
  {
    seq(|s|, i requires 0 <= i < |s| => if i > 0 && IsCased(s[i - 1]) then LowerChar(s[i]) else UpperChar(s[i]))
  }

  /** `str.title()` capitalises words: in a maximal run of cased characters
      the first is upper-cased and every other one lower-cased. */
  lemma TitleCapitalisesRun(s: string, a: nat, b: nat)
    requires a < b <= |s| && AllIn(s, a, b, IsCased)
    requires a == 0 || !IsCased(s[a - 1])
    ensures Title(s)[a] == UpperChar(s[a]) && !('a' <= Title(s)[a] <= 'z')
    ensures forall k | a < k < b :: Title(s)[k] == LowerChar(s[k]) && !IsUpper(Title(s)[k])
  {
  }

  /** ... and a character without case, which separates words, is kept. */
  lemma TitleKeepsUncased(s: string)
    ensures forall k | 0 <= k < |s| && !IsCased(s[k]) :: Title(s)[k] == s[k]
  {
  }

  /** `str.capitalize()`: first character upper-cased, the rest lower-cased. */
  function Capitalize(s: string): (r: string)
    ensures |r| == |s|
    ensures s == [] ==> r == []
    ensures s != [] ==> r[0] == UpperChar(s[0]) && r[1..] == Lower(s[1..])
  {
    if s == [] then [] else [UpperChar(s[0])] + Lower(s[1..])
  }

  // ---------------------------------------------------------------------
  // Runs of characters (greedy repetition of a character class)

  /** Every position of [lo, hi) exists in `s` and satisfies `p`. */
  predicate AllIn(s: string, lo: nat, hi: nat, p: char -> bool) {
    hi <= |s| && forall k | lo <= k < hi :: p(s[k])
  }

  /** The length of the longest run of `p`-characters starting at `from`:
      what a greedy `[…]*` consumes there. */
  function Run(s: string, from: nat, p: char -> bool): (n: nat)
    requires from <= |s|
    ensures AllIn(s, from, from + n, p)
    ensures from + n == |s| || !p(s[from + n])
    decreases |s| - from
  {
    if from < |s| && p(s[from]) then 1 + Run(s, from + 1, p) else 0
  }

  /** A run is determined by its start: any `p`-run from `from` that cannot be
      extended is the one `Run` measures, and any `p`-run is no longer. */
  lemma RunIsMaximal(s: string, from: nat, p: char -> bool, end: nat)
    requires from <= end
    requires AllIn(s, from, end, p)
    ensures end <= from + Run(s, from, p)
    ensures end == |s| || !p(s[end]) ==> end == from + Run(s, from, p)
  {
  }

  /** No run of `p`-characters from `from` is longer than the one `Run` measures. */
  lemma RunBound(s: string, from: nat, p: char -> bool)
    requires from <= |s|
    ensures forall e | from <= e && AllIn(s, from, e, p) :: e <= from + Run(s, from, p)
  {
    forall e | from <= e && AllIn(s, from, e, p) ensures e <= from + Run(s, from, p) {
      RunIsMaximal(s, from, p, e);
    }
  }

  // ---------------------------------------------------------------------
  // strip, rstrip

  /** Every character of `s` is whitespace. */
  predicate Blank(s: string) {
    forall k | 0 <= k < |s| :: IsSpace(s[k])
  }

  /** The number of whitespace characters just before position `hi`. */
  function SpacesBefore(s: string, hi: nat): (n: nat)
    requires hi <= |s|
    ensures n <= hi && AllIn(s, hi - n, hi, IsSpace)
    ensures n == hi || !IsSpace(s[hi - n - 1])
    decreases hi
  {
    if hi > 0 && IsSpace(s[hi - 1]) then 1 + SpacesBefore(s, hi - 1) else 0
  }

  /** Where the strip of `s` ends: just after its last character that is not
      whitespace, or 0 when there is none. */
  function StripTo(s: string): (b: nat)
    ensures b <= |s| && (b == 0 || !IsSpace(s[b - 1]))
    ensures forall k | b <= k < |s| :: IsSpace(s[k])
  {
    |s| - SpacesBefore(s, |s|)
  }

  /** Where the strip of `s` starts: at its first character that is not
      whitespace, or at 0 when there is none. */
  function StripFrom(s: string): (a: nat)
    ensures a <= StripTo(s)
    ensures forall k | 0 <= k < a :: IsSpace(s[k])
    ensures a < StripTo(s) ==> !IsSpace(s[a])
  {
    if StripTo(s) == 0 then 0 else Run(s, 0, IsSpace)
  }

  /** `str.strip()`: leading and trailing whitespace removed. */
  function Strip(s: string): (r: string)
    ensures r == [] || (!IsSpace(r[0]) && !IsSpace(r[|r| - 1]))
    ensures exists a, b | 0 <= a <= b <= |s| :: Trimmed(s, a, b, r)
  {
    var a, b := StripFrom(s), StripTo(s);
    assert Trimmed(s, a, b, s[a..b]);
    s[a..b]
  }

  /** r is s[a..b], and everything of s outside [a, b) is whitespace. */
  predicate Trimmed(s: string, a: nat, b: nat, r: string)
    requires a <= b <= |s|
  {
    r == s[a..b] && (forall k | 0 <= k < a :: IsSpace(s[k])) && (forall k | b <= k < |s| :: IsSpace(s[k]))
  }

  /** A string with no whitespace at either end is its own strip. */
  lemma StripUnchanged(s: string)
    requires s != [] && !IsSpace(s[0]) && !IsSpace(s[|s| - 1])
    ensures Strip(s) == s
  {
    assert SpacesBefore(s, |s|) == 0;
    assert Run(s, 0, IsSpace) == 0;
    assert s[0..|s|] == s;
  }

  /** Stripping only removes characters, so a class every character of `s`
      is in also holds of every character of its strip. */
  lemma StripKeeps(s: string, p: char -> bool)
    requires AllIn(s, 0, |s|, p)
    ensures AllIn(Strip(s), 0, |Strip(s)|, p)
  {
    SliceKeeps(s, StripFrom(s), StripTo(s), p);
  }

  lemma SliceKeeps(s: string, lo: nat, hi: nat, p: char -> bool)
    requires lo <= hi <= |s| && AllIn(s, 0, |s|, p)
    ensures AllIn(s[lo..hi], 0, hi - lo, p)
  {
    forall k | 0 <= k < hi - lo ensures p(s[lo..hi][k]) {
      assert s[lo..hi][k] == s[lo + k];
    }
  }

  /** Stripping leaves nothing exactly when the string is all whitespace. */
  lemma StripEmptyIffBlank(s: string)
    ensures Strip(s) == [] <==> Blank(s)
  {
    var a, b := StripFrom(s), StripTo(s);
    if Blank(s) {
      assert b == 0;
    } else {
      assert b > 0;
      assert a < b;
      assert Strip(s)[0] == s[a];
    }
  }

  /** `str.rstrip(chars)`: every trailing character that is in `chars` removed. */
  function RStripChars(s: string, chars: set<char>): (r: string)
    ensures r <= s
    ensures r == [] || r[|r| - 1] !in chars
    ensures forall k | |r| <= k < |s| :: s[k] in chars
  {
    if s != [] && s[|s| - 1] in chars then RStripChars(s[..|s| - 1], chars) else s
  }

  // ---------------------------------------------------------------------
  // in, replace, join

  /** `sub in s`. */
  predicate Contains(s: string, sub: string) {
    exists i | 0 <= i <= |s| :: sub <= s[i..]
  }

  /** `s.replace(pat, rep)`: every non-overlapping occurrence of `pat`, found
      from left to right, replaced by `rep`. */
  function ReplaceAll(s: string, pat: string, rep: string): (r: string)
    requires pat != []
    decreases |s|
  {
    if |s| < |pat| then s
    else if pat <= s then rep + ReplaceAll(s[|pat|..], pat, rep)
    else [s[0]] + ReplaceAll(s[1..], pat, rep)
  }

  /** Replacing a string that does not occur changes nothing. */
  lemma {:induction false} ReplaceAllAbsent(s: string, pat: string, rep: string)
    requires pat != []
    requires !Contains(s, pat)
    ensures ReplaceAll(s, pat, rep) == s
  {
    if |s| >= |pat| {
      assert s[0..] == s;
      assert !(pat <= s);
      assert !Contains(s[1..], pat) by {
        forall i | 0 <= i <= |s[1..]| ensures !(pat <= s[1..][i..]) {
          assert s[1..][i..] == s[i + 1..];
        }
      }
      ReplaceAllAbsent(s[1..], pat, rep);
    }
  }

  /** `sep.join(parts)`. */
  function Join(parts: seq<string>, sep: string): (r: string)
    decreases |parts|
  {
    if |parts| == 0 then ""
    else if |parts| == 1 then parts[0]
    else parts[0] + sep + Join(parts[1..], sep)
  }
}
