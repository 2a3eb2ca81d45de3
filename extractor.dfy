/** Field extraction: `extract_data` in Refibibex.py. Six regular-expression
    matches over one reference block, each with a fixed default for a miss.
    Every pattern is modelled by a scanner that makes the choices Python's
    backtracking matcher makes (greedy repetition first, a lazy group as
    short as possible, the leftmost start position), next to a declarative
    predicate saying which match that is. */
module Extractor {
  import opened PyText

  /** The record `extract_data` returns; all six keys are always present. */
  datatype Fields = Fields(author: string, title: string, year: string, url: string, accessed: string, institution: string)

  const UnknownAuthor: string := "Autor Desconhecido"
  const UnknownTitle: string := "Título Desconhecido"
  const UnknownYear: string := "0000"

  /** `.` and `[^\n]`. */
  predicate NotNewline(c: char) {
    c != '\n'
  }

  /** `\S`. */
  predicate NotSpace(c: char) {
    !IsSpace(c)
  }

  // ---------------------------------------------------------------------
  // Author: `^([A-Z\s,.]+)` with re.match

  /** The class `[A-Z\s,.]`: ASCII capitals only, so accented capitals end the name. */
  predicate IsAuthorChar(c: char) {
    'A' <= c <= 'Z' || IsSpace(c) || c == ',' || c == '.'
  }

  // ---------------------------------------------------------------------
  // Year: `\b(19|20)\d{2}\b`

  /** A year token at i: "19" or "20", two digits, a word boundary on each side. */
  predicate YearAt(t: string, i: nat) {
    i + 4 <= |t| && ((t[i] == '1' && t[i + 1] == '9') || (t[i] == '2' && t[i + 1] == '0'))
    && IsDigit(t[i + 2]) && IsDigit(t[i + 3])
    && (i == 0 || !IsWordChar(t[i - 1])) && (i + 4 == |t| || !IsWordChar(t[i + 4]))
  }

  // ---------------------------------------------------------------------
  // Title: `.\s*(.+?).\s`

  /** The lazy group may end at j when the group started at g: t[g..j] and the
      following `.` at j hold no newline, and `\s` matches at j + 1. */
  predicate TitleEndsAt(t: string, g: nat, j: nat) {
    g < j && j + 1 < |t| && AllIn(t, g, j + 1, NotNewline) && IsSpace(t[j + 1])
  }

  /** The whole pattern matches from p with group t[g..j]. */
  predicate TitleMatch(t: string, p: nat, g: nat, j: nat) {
    p < |t| && t[p] != '\n' && p + 1 <= g && AllIn(t, p + 1, g, IsSpace) && TitleEndsAt(t, g, j)
  }

  /** The match the backtracking engine reports from p: the greedy `\s*` gives
      back as little as it can (largest g), then the lazy group is as short as
      it can be (smallest j). */
  ghost predicate TitlePick(t: string, p: nat, g: nat, j: nat) {
    TitleMatch(t, p, g, j)
    && (forall g': nat, j': nat | g < g' :: !TitleMatch(t, p, g', j'))
    && (forall j': nat | j' < j :: !TitleMatch(t, p, g, j'))
  }

  /** The lazy group grown one character at a time from end j. */
  function LazyTitleEnd(t: string, g: nat, j: nat): (r: Option<nat>)
    requires g < j && j - 1 <= |t| && AllIn(t, g, j - 1, NotNewline)
    ensures r.Some? ==> j <= r.value && TitleEndsAt(t, g, r.value)
    ensures r.Some? ==> forall j': nat | j <= j' < r.value :: !TitleEndsAt(t, g, j')
    ensures r.None? ==> forall j': nat | j <= j' :: !TitleEndsAt(t, g, j')
    decreases |t| - j
  {
    if j + 1 >= |t| || t[j - 1] == '\n' || t[j] == '\n' then None
    else if IsSpace(t[j + 1]) then Some(j)
    else LazyTitleEnd(t, g, j + 1)
  }

  /** Backtracking of `\s*`: the group is tried from p + 1 + k downwards. */
  function GreedyTitleGroup(t: string, p: nat, k: nat): (r: Option<Span>)
    requires p < |t| && t[p] != '\n' && AllIn(t, p + 1, p + 1 + k, IsSpace)
    ensures r.Some? ==> r.value.start <= p + 1 + k && TitleMatch(t, p, r.value.start, r.value.end)
    ensures r.Some? ==> forall g: nat, j: nat | r.value.start < g <= p + 1 + k :: !TitleMatch(t, p, g, j)
    ensures r.Some? ==> forall j: nat | j < r.value.end :: !TitleMatch(t, p, r.value.start, j)
    ensures r.None? ==> forall g: nat, j: nat | g <= p + 1 + k :: !TitleMatch(t, p, g, j)
    decreases k
  {
    var g := p + 1 + k;
    match LazyTitleEnd(t, g, g + 1)
    case Some(j) => Some(Span(g, j))
    case None => if k == 0 then None else GreedyTitleGroup(t, p, k - 1)
  }

  /** One attempt of the title pattern at start p. */
  function TitleAttempt(t: string, p: nat): (r: Option<Span>)
    requires p <= |t|
    ensures r.Some? ==> TitlePick(t, p, r.value.start, r.value.end)
    ensures r.None? ==> forall g: nat, j: nat :: !TitleMatch(t, p, g, j)
  {
    if p < |t| && t[p] != '\n' then
      RunBound(t, p + 1, IsSpace);
      GreedyTitleGroup(t, p, Run(t, p + 1, IsSpace))
    else None
  }

  // ---------------------------------------------------------------------
  // URL: `dispon[ií]vel em:\s*(https?://\S+)` on the lower-cased text

  predicate UrlKeywordAt(t: string, i: nat) {
    i + 14 <= |t| && "dispon" <= t[i..] && (t[i + 6] == 'i' || t[i + 6] == 'í') && "vel em:" <= t[i + 7..]
  }

  /** The pattern matches at i with group t[h..e]. */
  predicate UrlMatch(t: string, i: nat, h: nat, e: nat) {
    UrlKeywordAt(t, i) && i + 14 <= h <= e && AllIn(t, i + 14, h, IsSpace)
    && AllIn(t, h, e, NotSpace) && (e == |t| || IsSpace(t[e]))
    && SchemeAt(t, h, e)
  }

  /** `https?://\S+` on the non-space run t[h..e]: the optional `s` is taken
      when present and given back only if `://` then follows. */
  predicate SchemeAt(t: string, h: nat, e: nat) {
    h <= |t| && (("https://" <= t[h..] && h + 8 < e) || ("http://" <= t[h..] && h + 7 < e))
  }

  /** The greedy `\s*` leaves no choice: the scheme cannot start on whitespace. */
  function UrlAttempt(t: string, i: nat): (r: Option<Span>)
    requires i <= |t|
    ensures r.Some? ==> UrlMatch(t, i, r.value.start, r.value.end)
  {
    if UrlKeywordAt(t, i) then UrlGroup(t, i + 14 + Run(t, i + 14, IsSpace)) else None
  }

  /** The group `https?://\S+` tried at h, over the whole non-space run. */
  function UrlGroup(t: string, h: nat): (r: Option<Span>)
    requires h <= |t|
    ensures r.Some? ==> r == Some(Span(h, h + Run(t, h, NotSpace))) && SchemeAt(t, h, r.value.end)
    ensures r.None? ==> !SchemeAt(t, h, h + Run(t, h, NotSpace))
  {
    var e := h + Run(t, h, NotSpace);
    if SchemeAt(t, h, e) then Some(Span(h, e)) else None
  }

  // ---------------------------------------------------------------------
  // Access date: `acess[oa] em:\s*([^\n]+)` on the lower-cased text

  predicate AccessKeywordAt(t: string, i: nat) {
    i + 10 <= |t| && "acess" <= t[i..] && (t[i + 5] == 'o' || t[i + 5] == 'a') && " em:" <= t[i + 6..]
  }

  /** The pattern matches at i with group t[g..e]; `[^\n]+` is greedy and
      last, so the group runs to the end of the line. */
  predicate AccessMatch(t: string, i: nat, g: nat, e: nat) {
    AccessKeywordAt(t, i) && i + 10 <= g < e && AllIn(t, i + 10, g, IsSpace)
    && AllIn(t, g, e, NotNewline) && (e == |t| || t[e] == '\n')
  }

  /** The reported match: `\s*` gives back as little as it can. */
  ghost predicate AccessPick(t: string, i: nat, g: nat, e: nat) {
    AccessMatch(t, i, g, e) && forall g': nat, e': nat | g < g' :: !AccessMatch(t, i, g', e')
  }

  /** Backtracking of `\s*` after the keyword ending at q, from q + k downwards. */
  function GreedyAccessGroup(t: string, i: nat, k: nat): (r: Option<Span>)
    requires AccessKeywordAt(t, i) && AllIn(t, i + 10, i + 10 + k, IsSpace)
    ensures r.Some? ==> r.value.start <= i + 10 + k && AccessMatch(t, i, r.value.start, r.value.end)
    ensures r.Some? ==> forall g: nat, e: nat | r.value.start < g <= i + 10 + k :: !AccessMatch(t, i, g, e)
    ensures r.None? ==> forall g: nat, e: nat | g <= i + 10 + k :: !AccessMatch(t, i, g, e)
    decreases k
  {
    var g := i + 10 + k;
    if g < |t| && t[g] != '\n' then
      var e := g + Run(t, g, NotNewline);
      RunBound(t, g, NotNewline);
      Some(Span(g, e))
    else if k == 0 then None
    else GreedyAccessGroup(t, i, k - 1)
  }

  function AccessAttempt(t: string, i: nat): (r: Option<Span>)
    requires i <= |t|
    ensures r.Some? ==> AccessPick(t, i, r.value.start, r.value.end)
    ensures r.None? ==> forall g: nat, e: nat :: !AccessMatch(t, i, g, e)
  {
    if AccessKeywordAt(t, i) then
      RunBound(t, i + 10, IsSpace);
      GreedyAccessGroup(t, i, Run(t, i + 10, IsSpace))
    else None
  }

  // ---------------------------------------------------------------------
  // Institution: `(universidade|instituto|faculdade)\s+[a-zà-ú\s]+` on the
  // lower-cased text

  /** The class `[a-zà-ú\s]`. */
  predicate IsInstitutionChar(c: char) {
    'a' <= c <= 'z' || '\U{E0}' <= c <= '\U{FA}' || IsSpace(c)
  }

  /** One of the three keywords starts at i and ends at q. */
  predicate InstitutionKeyword(t: string, i: nat, q: nat) {
    i <= |t|
    && ((q == i + 12 && "universidade" <= t[i..])
        || (q == i + 9 && ("instituto" <= t[i..] || "faculdade" <= t[i..])))
  }

  /** The pattern matches at i: keyword up to q, `\s+` up to s, the class run
      up to e, which the greedy `+` leaves only where the class ends. */
  predicate InstitutionMatch(t: string, i: nat, q: nat, s: nat, e: nat) {
    InstitutionKeyword(t, i, q) && q < s < e && AllIn(t, q, s, IsSpace)
    && AllIn(t, s, e, IsInstitutionChar) && (e == |t| || !IsInstitutionChar(t[e]))
  }

  /** The end of the keyword that starts at i, if any. */
  function InstitutionKeywordEnd(t: string, i: nat): (r: Option<nat>)
    requires i <= |t|
    ensures forall q: nat :: r == Some(q) <==> InstitutionKeyword(t, i, q)
    ensures r.Some? ==> r.value <= |t|
  {
    if "universidade" <= t[i..] then
      assert "instituto"[0] != t[i..][0] && "faculdade"[0] != t[i..][0];
      Some(i + 12)
    else if "instituto" <= t[i..] || "faculdade" <= t[i..] then Some(i + 9)
    else None
  }

  /** Because whitespace is in the class, the whole match ends where the class
      run after the keyword ends, and it exists exactly when that run starts
      with whitespace and has at least two characters. */
  function InstitutionAttempt(t: string, i: nat): (r: Option<Span>)
    requires i <= |t|
    ensures r.Some? ==> r.value.start == i && exists q: nat, s: nat :: InstitutionMatch(t, i, q, s, r.value.end)
    ensures r.None? ==> forall q: nat, s: nat, e: nat :: !InstitutionMatch(t, i, q, s, e)
  {
    match InstitutionKeywordEnd(t, i)
    case None => None
    case Some(q) =>
      var n := Run(t, q, IsInstitutionChar);
      if q < |t| && IsSpace(t[q]) && n >= 2 then
        InstitutionWitness(t, i, q, q + n);
        Some(Span(i, q + n))
      else
        InstitutionNoMatch(t, i, q);
        None
  }

  /** Without whitespace after the keyword and two class characters there,
      the pattern cannot match at i. */
  lemma InstitutionNoMatch(t: string, i: nat, q: nat)
    requires InstitutionKeyword(t, i, q) && q <= |t|
    requires !(q < |t| && IsSpace(t[q]) && Run(t, q, IsInstitutionChar) >= 2)
    ensures forall q': nat, s: nat, e: nat :: !InstitutionMatch(t, i, q', s, e)
  {
    forall q': nat, s: nat, e: nat | InstitutionMatch(t, i, q', s, e) ensures false {
      assert InstitutionKeywordEnd(t, i) == Some(q') && InstitutionKeywordEnd(t, i) == Some(q);
      assert IsSpace(t[q]);
      assert AllIn(t, q, e, IsInstitutionChar) by {
        forall k | q <= k < e ensures IsInstitutionChar(t[k]) {
          if k < s { assert IsSpace(t[k]); }
        }
      }
      RunIsMaximal(t, q, IsInstitutionChar, e);
    }
  }

  /** The match `InstitutionAttempt` reports, with the point where `\s+` stops. */
  lemma InstitutionWitness(t: string, i: nat, q: nat, e: nat)
    requires InstitutionKeyword(t, i, q) && q < |t| && IsSpace(t[q])
    requires e == q + Run(t, q, IsInstitutionChar) && e >= q + 2
    ensures exists q': nat, s: nat :: InstitutionMatch(t, i, q', s, e)
  {
    var s := SpacesThenClass(t, q, e);
    InstitutionMatchParts(t, i, q, s, e);
  }

  /** Where `\s+` can stop inside the class run that starts with whitespace. */
  lemma SpacesThenClass(t: string, q: nat, e: nat) returns (s: nat)
    requires q < |t| && IsSpace(t[q])
    requires e == q + Run(t, q, IsInstitutionChar) && e >= q + 2
    ensures q < s < e && AllIn(t, q, s, IsSpace) && AllIn(t, s, e, IsInstitutionChar)
    ensures e == |t| || !IsInstitutionChar(t[e])
  {
    var w := Run(t, q, IsSpace);
    assert AllIn(t, q, q + w, IsInstitutionChar) by {
      forall k | q <= k < q + w ensures IsInstitutionChar(t[k]) {
        assert IsSpace(t[k]);
      }
    }
    RunIsMaximal(t, q, IsInstitutionChar, q + w);
    s := if q + w < e then q + w else e - 1;
    assert AllIn(t, q, s, IsSpace);
  }

  lemma InstitutionMatchParts(t: string, i: nat, q: nat, s: nat, e: nat)
    requires InstitutionKeyword(t, i, q) && q < s < e
    requires AllIn(t, q, s, IsSpace) && AllIn(t, s, e, IsInstitutionChar)
    requires e == |t| || !IsInstitutionChar(t[e])
    ensures InstitutionMatch(t, i, q, s, e)
  {
  }

  // ---------------------------------------------------------------------
  // re.search over the five unanchored patterns

  datatype Pattern = YearPattern | TitlePattern | UrlPattern | AccessPattern | InstitutionPattern

  /** One attempt of the engine at start position i: the span of the group the
      source reads (group 0 for year and institution, group 1 otherwise). */
  function AttemptAt(pat: Pattern, t: string, i: nat): (r: Option<Span>)
    requires i <= |t|
    ensures r.Some? ==> r.value.start <= r.value.end <= |t|
  {
    match pat
    case YearPattern => if YearAt(t, i) then Some(Span(i, i + 4)) else None
    case TitlePattern => TitleAttempt(t, i)
    case UrlPattern => UrlAttempt(t, i)
    case AccessPattern => AccessAttempt(t, i)
    case InstitutionPattern => InstitutionAttempt(t, i)
  }

  /** `re.search`: the attempt at the leftmost start position that succeeds. */
  function Search(pat: Pattern, t: string, from: nat): (r: Option<Span>)
    requires from <= |t|
    ensures r.Some? ==> r.value.start <= r.value.end <= |t|
    ensures r.Some? ==> exists i: nat | from <= i <= |t| ::
      AttemptAt(pat, t, i) == r && forall i': nat | from <= i' < i :: AttemptAt(pat, t, i').None?
    ensures r.None? ==> forall i: nat | from <= i <= |t| :: AttemptAt(pat, t, i).None?
    decreases |t| - from
  {
    var here := AttemptAt(pat, t, from);
    if here.Some? || from == |t| then here else Search(pat, t, from + 1)
  }

  /** Declaratively, the match each pattern reports at start position i. */
  ghost predicate Reports(pat: Pattern, t: string, i: nat, sp: Span) {
    match pat
    case YearPattern => YearAt(t, i) && sp == Span(i, i + 4)
    case TitlePattern => TitlePick(t, i, sp.start, sp.end)
    case UrlPattern => UrlMatch(t, i, sp.start, sp.end)
    case AccessPattern => AccessPick(t, i, sp.start, sp.end)
    case InstitutionPattern => sp.start == i && exists q: nat, s: nat :: InstitutionMatch(t, i, q, s, sp.end)
  }

  /** Each scanner attempt reports exactly the declarative match. */
  lemma AttemptIsReport(pat: Pattern, t: string, i: nat, sp: Span)
    requires i <= |t|
    ensures AttemptAt(pat, t, i) == Some(sp) <==> Reports(pat, t, i, sp)
  {
    match pat
    case YearPattern =>
    case TitlePattern => TitleAttemptIsPick(t, i, sp);
    case UrlPattern =>
      if UrlMatch(t, i, sp.start, sp.end) {
        UrlMatchIsGreedy(t, i, sp.start, sp.end);
      }
    case AccessPattern => AccessAttemptIsPick(t, i, sp);
    case InstitutionPattern => InstitutionAttemptIsMatch(t, i, sp);
  }

  /** Only one match is the largest-g, smallest-j one. */
  lemma TitleAttemptIsPick(t: string, i: nat, sp: Span)
    requires i <= |t|
    ensures TitleAttempt(t, i) == Some(sp) <==> TitlePick(t, i, sp.start, sp.end)
  {
    if TitlePick(t, i, sp.start, sp.end) {
      var r := TitleAttempt(t, i);
      assert r.Some?;
      assert r.value.start == sp.start;
    }
  }

  lemma AccessAttemptIsPick(t: string, i: nat, sp: Span)
    requires i <= |t|
    ensures AccessAttempt(t, i) == Some(sp) <==> AccessPick(t, i, sp.start, sp.end)
  {
    if AccessPick(t, i, sp.start, sp.end) {
      var r := AccessAttempt(t, i);
      assert r.Some?;
      assert r.value.start == sp.start;
      RunIsMaximal(t, sp.start, NotNewline, sp.end);
      RunIsMaximal(t, sp.start, NotNewline, r.value.end);
    }
  }

  lemma InstitutionAttemptIsMatch(t: string, i: nat, sp: Span)
    requires i <= |t|
    ensures InstitutionAttempt(t, i) == Some(sp) <==>
      (sp.start == i && exists q: nat, s: nat :: InstitutionMatch(t, i, q, s, sp.end))
  {
    if sp.start == i && exists q: nat, s: nat :: InstitutionMatch(t, i, q, s, sp.end) {
      var q: nat, s: nat :| InstitutionMatch(t, i, q, s, sp.end);
      RunIsMaximal(t, q, IsInstitutionChar, sp.end);
    }
  }

  /** A URL match has its group where the greedy scanner looks for it. */
  lemma UrlMatchIsGreedy(t: string, i: nat, h: nat, e: nat)
    requires UrlMatch(t, i, h, e)
    ensures UrlAttempt(t, i) == Some(Span(h, e))
  {
    SchemeStartsWithH(t, h, e);
    RunEndsAt(t, i + 14, IsSpace, h);
    RunEndsAt(t, h, NotSpace, e);
    UrlAttemptAt(t, i, h, e);
  }

  lemma UrlAttemptAt(t: string, i: nat, h: nat, e: nat)
    requires UrlKeywordAt(t, i) && SchemeAt(t, h, e)
    requires h == i + 14 + Run(t, i + 14, IsSpace) && e == h + Run(t, h, NotSpace)
    ensures UrlAttempt(t, i) == Some(Span(h, e))
  {
    assert UrlGroup(t, h) == Some(Span(h, e));
  }

  /** A maximal run of `p` from `from` ends where `Run` says. */
  lemma RunEndsAt(t: string, from: nat, p: char -> bool, end: nat)
    requires from <= end && AllIn(t, from, end, p) && (end == |t| || !p(t[end]))
    ensures end == from + Run(t, from, p)
  {
    RunIsMaximal(t, from, p, end);
  }

  lemma SchemeStartsWithH(t: string, h: nat, e: nat)
    requires SchemeAt(t, h, e)
    ensures h < |t| && t[h] == 'h'
  {
    assert "http" <= t[h..];
  }

  /** Some match at some position. */
  ghost predicate Matches(pat: Pattern, t: string) {
    exists i: nat, sp :: Reports(pat, t, i, sp)
  }

  /** sp is reported at a position where the pattern matches, and no earlier
      position yields a match. */
  ghost predicate LeftmostReport(pat: Pattern, t: string, sp: Span) {
    exists i: nat :: Reports(pat, t, i, sp) && forall i': nat, sp' | i' < i :: !Reports(pat, t, i', sp')
  }

  /** `re.search` returns None exactly when the pattern matches nowhere, and
      otherwise the match at the leftmost position where it matches. */
  lemma SearchIsLeftmost(pat: Pattern, t: string)
    ensures Search(pat, t, 0).None? <==> !Matches(pat, t)
    ensures Search(pat, t, 0).Some? ==> LeftmostReport(pat, t, Search(pat, t, 0).value)
  {
    var r := Search(pat, t, 0);
    forall i: nat, sp | Reports(pat, t, i, sp) ensures i <= |t| {
      ReportsInRange(pat, t, i, sp);
    }
    if r.None? {
      forall i: nat, sp | i <= |t| ensures !Reports(pat, t, i, sp) {
        AttemptIsReport(pat, t, i, sp);
      }
    } else {
      var i: nat :| 0 <= i <= |t| && AttemptAt(pat, t, i) == r && forall i' | 0 <= i' < i :: AttemptAt(pat, t, i').None?;
      AttemptIsReport(pat, t, i, r.value);
      forall i': nat, sp' | i' < i ensures !Reports(pat, t, i', sp') {
        AttemptIsReport(pat, t, i', sp');
      }
    }
  }

  /** Every pattern needs at least its start position inside the text. */
  lemma ReportsInRange(pat: Pattern, t: string, i: nat, sp: Span)
    requires Reports(pat, t, i, sp)
    ensures i <= |t|
  {
    if pat.InstitutionPattern? {
      var q: nat, s: nat :| InstitutionMatch(t, i, q, s, sp.end);
    }
  }

  // ---------------------------------------------------------------------
  // extract_data

  /** The text of a found group, or the default for a miss. */
  function GroupOr(t: string, r: Option<Span>, default: string): string
    requires r.Some? ==> r.value.start <= r.value.end <= |t|
  {
    match r
    case None => default
    case Some(sp) => t[sp.start..sp.end]
  }

  /** `extract_data`: six independent matches; the url, access date and
      institution are read from the lower-cased block. */
  function ExtractData(text: string): Fields {
    Fields(AuthorOf(text), TitleOf(text), YearOf(text), UrlOf(text), AccessedOf(text), InstitutionOf(text))
  }

  function AuthorOf(text: string): string {
    var n := Run(text, 0, IsAuthorChar);
    if n > 0 then Title(Strip(text[..n])) else UnknownAuthor
  }

  function TitleOf(text: string): string {
    var r := Search(TitlePattern, text, 0);
    if r.Some? then Strip(GroupOr(text, r, "")) else UnknownTitle
  }

  function YearOf(text: string): string {
    GroupOr(text, Search(YearPattern, text, 0), UnknownYear)
  }

  function UrlOf(text: string): string {
    var low := Lower(text);
    GroupOr(low, Search(UrlPattern, low, 0), "")
  }

  function AccessedOf(text: string): string {
    var low := Lower(text);
    var r := Search(AccessPattern, low, 0);
    if r.Some? then Capitalize(Strip(GroupOr(low, r, ""))) else ""
  }

  function InstitutionOf(text: string): string {
    var low := Lower(text);
    var r := Search(InstitutionPattern, low, 0);
    if r.Some? then Title(GroupOr(low, r, "")) else ""
  }

  // ---------------------------------------------------------------------
  // What extract_data promises, field by field

  /** A pattern reported at i with nothing reported earlier is what
      `re.search` returns. */
  lemma SearchFinds(pat: Pattern, t: string, i: nat, sp: Span)
    requires Reports(pat, t, i, sp)
    requires forall i': nat, sp' | i' < i :: !Reports(pat, t, i', sp')
    ensures Search(pat, t, 0) == Some(sp)
  {
    SearchIsLeftmost(pat, t);
    var r := Search(pat, t, 0);
    var i0: nat :| Reports(pat, t, i0, r.value) && forall i': nat, sp' | i' < i0 :: !Reports(pat, t, i', sp');
    assert i0 == i;
    ReportsInRange(pat, t, i, sp);
    AttemptIsReport(pat, t, i, sp);
    AttemptIsReport(pat, t, i, r.value);
  }

  /** Author: the title-cased strip of the longest prefix of `[A-Z\s,.]`
      characters; "Autor Desconhecido" when the block does not start with one. */
  lemma ExtractAuthor(text: string, e: nat)
    requires AllIn(text, 0, e, IsAuthorChar) && (e == |text| || !IsAuthorChar(text[e]))
    ensures e == 0 ==> ExtractData(text).author == UnknownAuthor
    ensures e > 0 ==> ExtractData(text).author == Title(Strip(text[..e]))
  {
    RunIsMaximal(text, 0, IsAuthorChar, e);
  }

  /** Capitals of the class stay capitals or become ASCII lower case; nothing
      outside ASCII letters, whitespace, comma and full stop can appear. */
  lemma AuthorIsAscii(text: string)
    ensures var a := ExtractData(text).author;
      a == UnknownAuthor || forall k | 0 <= k < |a| :: IsAuthorChar(a[k]) || 'a' <= a[k] <= 'z'
  {
    var n := Run(text, 0, IsAuthorChar);
    if n > 0 {
      var prefix := text[..n];
      assert AllIn(prefix, 0, |prefix|, IsAuthorChar);
      StripKeeps(prefix, IsAuthorChar);
      TitleOfAuthorChars(Strip(prefix));
    }
  }

  lemma TitleOfAuthorChars(x: string)
    requires forall k | 0 <= k < |x| :: IsAuthorChar(x[k])
    ensures var a := Title(x); forall k | 0 <= k < |a| :: IsAuthorChar(a[k]) || 'a' <= a[k] <= 'z'
  {
    var a := Title(x);
    forall k | 0 <= k < |a| ensures IsAuthorChar(a[k]) || 'a' <= a[k] <= 'z' {
      AuthorCharCases(x[k]);
      assert a[k] == UpperChar(x[k]) || a[k] == LowerChar(x[k]);
    }
  }

  /** Case mapping keeps a character of `[A-Z\s,.]` in that class or in a-z. */
  lemma AuthorCharCases(c: char)
    requires IsAuthorChar(c)
    ensures IsAuthorChar(UpperChar(c))
    ensures IsAuthorChar(LowerChar(c)) || 'a' <= LowerChar(c) <= 'z'
  {
  }

  /** Year: the first word-bounded token 19dd or 20dd, else "0000" exactly
      when there is none. */
  lemma ExtractYear(text: string)
    ensures ExtractData(text).year == UnknownYear <==> forall i: nat :: !YearAt(text, i)
    ensures forall i: nat | YearAt(text, i) && (forall i': nat | i' < i :: !YearAt(text, i')) ::
      ExtractData(text).year == text[i..i + 4]
  {
    assert ExtractData(text).year == YearOf(text);
    forall i: nat | YearAt(text, i) && (forall i': nat | i' < i :: !YearAt(text, i'))
      ensures YearOf(text) == text[i..i + 4]
    {
      YearFound(text, i);
    }
    YearMissing(text);
  }

  lemma YearFound(text: string, i: nat)
    requires YearAt(text, i) && forall i': nat | i' < i :: !YearAt(text, i')
    ensures YearOf(text) == text[i..i + 4]
  {
    forall i': nat, sp' | i' < i ensures !Reports(YearPattern, text, i', sp') {
      assert !YearAt(text, i');
    }
    SearchFinds(YearPattern, text, i, Span(i, i + 4));
  }

  /** The default year comes back exactly when no year token occurs: a found
      token starts with 1 or 2. */
  lemma YearMissing(text: string)
    ensures YearOf(text) == UnknownYear <==> forall i: nat :: !YearAt(text, i)
  {
    SearchIsLeftmost(YearPattern, text);
    var r := Search(YearPattern, text, 0);
    if r.None? {
      forall i: nat ensures !YearAt(text, i) {
        assert !Reports(YearPattern, text, i, Span(i, i + 4));
      }
    } else {
      var i: nat :| Reports(YearPattern, text, i, r.value);
      assert YearOf(text) == text[i..i + 4];
      assert YearOf(text)[0] == text[i];
      assert UnknownYear[0] == '0';
    }
  }

  /** Title: the stripped group of the leftmost match, with the greedy and
      lazy choices of `TitlePick`; the default when nothing matches. */
  lemma ExtractTitle(text: string)
    ensures (forall p: nat, g: nat, j: nat :: !TitleMatch(text, p, g, j)) ==> ExtractData(text).title == UnknownTitle
    ensures forall p: nat, g: nat, j: nat |
        TitlePick(text, p, g, j) && (forall p': nat, g': nat, j': nat | p' < p :: !TitleMatch(text, p', g', j')) ::
      ExtractData(text).title == Strip(text[g..j])
  {
    assert ExtractData(text).title == TitleOf(text);
    TitleMissing(text);
    forall p: nat, g: nat, j: nat |
        TitlePick(text, p, g, j) && (forall p': nat, g': nat, j': nat | p' < p :: !TitleMatch(text, p', g', j'))
      ensures TitleOf(text) == Strip(text[g..j])
    {
      TitleFoundAt(text, p, g, j);
    }
  }

  lemma TitleMissing(t: string)
    ensures (forall p: nat, g: nat, j: nat :: !TitleMatch(t, p, g, j)) ==> Search(TitlePattern, t, 0).None?
  {
    SearchIsLeftmost(TitlePattern, t);
    if forall p: nat, g: nat, j: nat :: !TitleMatch(t, p, g, j) {
      forall p: nat, sp ensures !Reports(TitlePattern, t, p, sp) {
        assert !TitleMatch(t, p, sp.start, sp.end);
      }
      assert !Matches(TitlePattern, t);
    }
  }

  lemma TitleFoundAt(t: string, p: nat, g: nat, j: nat)
    requires TitlePick(t, p, g, j)
    requires forall p': nat, g': nat, j': nat | p' < p :: !TitleMatch(t, p', g', j')
    ensures Search(TitlePattern, t, 0) == Some(Span(g, j))
  {
    forall p': nat, sp' | p' < p ensures !Reports(TitlePattern, t, p', sp') {
      assert !TitleMatch(t, p', sp'.start, sp'.end);
    }
    SearchFinds(TitlePattern, t, p, Span(g, j));
  }

  /** The group `re.search` reports for the title is a match of the pattern. */
  lemma TitleFound(t: string)
    ensures var r := Search(TitlePattern, t, 0);
      r.Some? ==> exists p: nat :: TitleMatch(t, p, r.value.start, r.value.end)
  {
    var r := Search(TitlePattern, t, 0);
    if r.Some? {
      var i: nat :| i <= |t| && AttemptAt(TitlePattern, t, i) == r;
      assert TitleMatch(t, i, r.value.start, r.value.end);
    }
  }

  /** A newline-free stretch stays newline-free when stripped. */
  lemma StripOnOneLine(t: string, g: nat, j: nat)
    requires g <= j <= |t| && AllIn(t, g, j, NotNewline)
    ensures '\n' !in Strip(t[g..j])
  {
    var group := t[g..j];
    assert AllIn(group, 0, |group|, NotNewline);
    StripKeeps(group, NotNewline);
  }

  /** The title never spans a line break. */
  lemma TitleOnOneLine(text: string)
    ensures '\n' !in ExtractData(text).title
  {
    assert ExtractData(text).title == TitleOf(text);
    var r := Search(TitlePattern, text, 0);
    if r.Some? {
      TitleGroupOnOneLine(text);
      StripOnOneLine(text, r.value.start, r.value.end);
    } else {
      DefaultTitleOnOneLine();
    }
  }

  lemma DefaultTitleOnOneLine()
    ensures '\n' !in UnknownTitle
  {
    forall k | 0 <= k < |UnknownTitle| ensures UnknownTitle[k] != '\n' {}
  }

  lemma TitleGroupOnOneLine(t: string)
    ensures var r := Search(TitlePattern, t, 0);
      r.Some? ==> AllIn(t, r.value.start, r.value.end, NotNewline)
  {
    var r := Search(TitlePattern, t, 0);
    if r.Some? {
      TitleFound(t);
      var p: nat :| TitleMatch(t, p, r.value.start, r.value.end);
      assert AllIn(t, r.value.start, r.value.end + 1, NotNewline);
    }
  }

  /** URL: the group of the leftmost match on the lower-cased block; empty
      exactly when nothing matches. */
  lemma ExtractUrl(text: string)
    ensures ExtractData(text).url == "" <==> forall i: nat, h: nat, e: nat :: !UrlMatch(Lower(text), i, h, e)
    ensures forall i: nat, h: nat, e: nat |
        UrlMatch(Lower(text), i, h, e) && (forall i': nat, h': nat, e': nat | i' < i :: !UrlMatch(Lower(text), i', h', e')) ::
      ExtractData(text).url == Lower(text)[h..e]
  {
    var low := Lower(text);
    assert ExtractData(text).url == UrlOf(text);
    forall i: nat, h: nat, e: nat |
        UrlMatch(low, i, h, e) && (forall i': nat, h': nat, e': nat | i' < i :: !UrlMatch(low, i', h', e'))
      ensures UrlOf(text) == low[h..e]
    {
      UrlFoundAt(low, i, h, e);
    }
    UrlMissing(low);
  }

  lemma UrlFoundAt(low: string, i: nat, h: nat, e: nat)
    requires UrlMatch(low, i, h, e)
    requires forall i': nat, h': nat, e': nat | i' < i :: !UrlMatch(low, i', h', e')
    ensures Search(UrlPattern, low, 0) == Some(Span(h, e))
  {
    forall i': nat, sp' | i' < i ensures !Reports(UrlPattern, low, i', sp') {
      assert !UrlMatch(low, i', sp'.start, sp'.end);
    }
    SearchFinds(UrlPattern, low, i, Span(h, e));
  }

  /** The URL group is empty exactly when the pattern matches nowhere. */
  lemma UrlMissing(low: string)
    ensures GroupOr(low, Search(UrlPattern, low, 0), "") == "" <==> forall i: nat, h: nat, e: nat :: !UrlMatch(low, i, h, e)
  {
    var r := Search(UrlPattern, low, 0);
    if r.None? {
      UrlNoneMeansNoMatch(low);
    } else {
      UrlFound(low);
      var i: nat :| UrlMatch(low, i, r.value.start, r.value.end);
      assert r.value.start < r.value.end;
    }
  }

  /** When the URL search finds nothing, no position matches. */
  lemma UrlNoneMeansNoMatch(low: string)
    requires Search(UrlPattern, low, 0).None?
    ensures forall i: nat, h: nat, e: nat :: !UrlMatch(low, i, h, e)
  {
    SearchIsLeftmost(UrlPattern, low);
    forall i: nat, h: nat, e: nat ensures !UrlMatch(low, i, h, e) {
      assert !Reports(UrlPattern, low, i, Span(h, e));
    }
  }

  /** The group `re.search` reports for the URL is a match of the pattern. */
  lemma UrlFound(t: string)
    ensures var r := Search(UrlPattern, t, 0);
      r.Some? ==> exists i: nat :: UrlMatch(t, i, r.value.start, r.value.end)
  {
    var r := Search(UrlPattern, t, 0);
    if r.Some? {
      var i: nat :| i <= |t| && AttemptAt(UrlPattern, t, i) == r;
      assert UrlMatch(t, i, r.value.start, r.value.end);
    }
  }

  /** The group of a URL match, as a string of its own. */
  lemma UrlGroupShape(t: string, i: nat, h: nat, e: nat)
    requires UrlMatch(t, i, h, e)
    requires forall k | 0 <= k < |t| :: !IsUpper(t[k])
    ensures var u := t[h..e];
      ("http://" <= u || "https://" <= u) && forall k | 0 <= k < |u| :: !IsSpace(u[k]) && !IsUpper(u[k])
  {
    var u := t[h..e];
    assert "http://" <= t[h..] ==> "http://" <= u;
    assert "https://" <= t[h..] ==> "https://" <= u;
    forall k | 0 <= k < |u| ensures !IsSpace(u[k]) && !IsUpper(u[k]) {
      assert u[k] == t[h + k];
    }
  }

  /** A URL that is found starts with its scheme, holds no whitespace and, being
      read from the lower-cased block, no capital letter. */
  lemma UrlShape(text: string)
    ensures var u := ExtractData(text).url;
      u == "" || (("http://" <= u || "https://" <= u) && forall k | 0 <= k < |u| :: !IsSpace(u[k]) && !IsUpper(u[k]))
  {
    var low := Lower(text);
    var r := Search(UrlPattern, low, 0);
    if r.Some? {
      UrlFound(low);
      var i: nat :| UrlMatch(low, i, r.value.start, r.value.end);
      UrlGroupShape(low, i, r.value.start, r.value.end);
    }
  }

  /** Access date: the capitalised strip of the rest of the line after the
      leftmost `acesso em:` or `acessa em:`; empty when there is none. */
  lemma ExtractAccessed(text: string)
    ensures (forall i: nat, g: nat, e: nat :: !AccessMatch(Lower(text), i, g, e)) ==> ExtractData(text).accessed == ""
    ensures forall i: nat, g: nat, e: nat |
        AccessPick(Lower(text), i, g, e) && (forall i': nat, g': nat, e': nat | i' < i :: !AccessMatch(Lower(text), i', g', e')) ::
      ExtractData(text).accessed == Capitalize(Strip(Lower(text)[g..e]))
  {
    var low := Lower(text);
    assert ExtractData(text).accessed == AccessedOf(text);
    AccessMissing(low);
    forall i: nat, g: nat, e: nat |
        AccessPick(low, i, g, e) && (forall i': nat, g': nat, e': nat | i' < i :: !AccessMatch(low, i', g', e'))
      ensures AccessedOf(text) == Capitalize(Strip(low[g..e]))
    {
      AccessFound(low, i, g, e);
    }
  }

  lemma AccessMissing(low: string)
    ensures (forall i: nat, g: nat, e: nat :: !AccessMatch(low, i, g, e)) ==> Search(AccessPattern, low, 0).None?
  {
    SearchIsLeftmost(AccessPattern, low);
    if forall i: nat, g: nat, e: nat :: !AccessMatch(low, i, g, e) {
      forall i: nat, sp ensures !Reports(AccessPattern, low, i, sp) {
        assert !AccessMatch(low, i, sp.start, sp.end);
      }
      assert !Matches(AccessPattern, low);
    }
  }

  lemma AccessFound(low: string, i: nat, g: nat, e: nat)
    requires AccessPick(low, i, g, e)
    requires forall i': nat, g': nat, e': nat | i' < i :: !AccessMatch(low, i', g', e')
    ensures Search(AccessPattern, low, 0) == Some(Span(g, e))
  {
    forall i': nat, sp' | i' < i ensures !Reports(AccessPattern, low, i', sp') {
      assert !AccessMatch(low, i', sp'.start, sp'.end);
    }
    SearchFinds(AccessPattern, low, i, Span(g, e));
  }

  /** Institution: the title-cased whole match of the leftmost keyword
      followed by whitespace and a run of the class; empty exactly when there
      is none. */
  lemma ExtractInstitution(text: string)
    ensures ExtractData(text).institution == "" <==>
      forall i: nat, q: nat, s: nat, e: nat :: !InstitutionMatch(Lower(text), i, q, s, e)
    ensures forall i: nat, q: nat, s: nat, e: nat |
        InstitutionMatch(Lower(text), i, q, s, e)
        && (forall i': nat, q': nat, s': nat, e': nat | i' < i :: !InstitutionMatch(Lower(text), i', q', s', e')) ::
      ExtractData(text).institution == Title(Lower(text)[i..e])
  {
    var low := Lower(text);
    assert ExtractData(text).institution == InstitutionOf(text);
    forall i: nat, q: nat, s: nat, e: nat |
        InstitutionMatch(low, i, q, s, e)
        && (forall i': nat, q': nat, s': nat, e': nat | i' < i :: !InstitutionMatch(low, i', q', s', e'))
      ensures InstitutionOf(text) == Title(low[i..e])
    {
      InstitutionFoundAt(low, i, q, s, e);
    }
    InstitutionMissing(low);
  }

  lemma InstitutionFoundAt(low: string, i: nat, q: nat, s: nat, e: nat)
    requires InstitutionMatch(low, i, q, s, e)
    requires forall i': nat, q': nat, s': nat, e': nat | i' < i :: !InstitutionMatch(low, i', q', s', e')
    ensures Search(InstitutionPattern, low, 0) == Some(Span(i, e))
  {
    assert Reports(InstitutionPattern, low, i, Span(i, e));
    forall i': nat, sp' | i' < i ensures !Reports(InstitutionPattern, low, i', sp') {
    }
    SearchFinds(InstitutionPattern, low, i, Span(i, e));
  }

  /** The institution group is empty exactly when the pattern matches nowhere. */
  lemma InstitutionMissing(low: string)
    ensures var r := Search(InstitutionPattern, low, 0);
      (r.Some? ==> r.value.start < r.value.end)
      && (r.None? <==> forall i: nat, q: nat, s: nat, e: nat :: !InstitutionMatch(low, i, q, s, e))
  {
    SearchIsLeftmost(InstitutionPattern, low);
    var r := Search(InstitutionPattern, low, 0);
    if r.None? {
      forall i: nat, q: nat, s: nat, e: nat ensures !InstitutionMatch(low, i, q, s, e) {
        assert !Reports(InstitutionPattern, low, i, Span(i, e));
      }
    } else {
      var i: nat :| Reports(InstitutionPattern, low, i, r.value);
      var q: nat, s: nat :| InstitutionMatch(low, i, q, s, r.value.end);
    }
  }

  /** The match `re.search` reports for the institution starts with a keyword. */
  lemma InstitutionFound(t: string)
    ensures var r := Search(InstitutionPattern, t, 0);
      r.Some? ==> exists q: nat, s: nat :: InstitutionMatch(t, r.value.start, q, s, r.value.end)
  {
    var r := Search(InstitutionPattern, t, 0);
    if r.Some? {
      var i: nat :| i <= |t| && AttemptAt(InstitutionPattern, t, i) == r;
    }
  }

  /** Title-casing a string that starts with a lower-case ASCII word capitalises
      that word and leaves the rest of its letters alone. */
  lemma TitleOfWord(x: string, w: string)
    requires 0 < |w| && w <= x && forall k | 0 <= k < |w| :: 'a' <= w[k] <= 'z'
    ensures [UpperChar(w[0])] + w[1..] <= Title(x)
  {
    var r := Title(x);
    forall k | 1 <= k < |w| ensures r[k] == w[k] {
      assert IsCased(x[k - 1]);
    }
  }

  /** A non-empty institution begins with "Universidade", "Instituto" or
      "Faculdade". */
  lemma InstitutionNamesKeyword(text: string)
    ensures var n := ExtractData(text).institution;
      n == "" || "Universidade" <= n || "Instituto" <= n || "Faculdade" <= n
  {
    var low := Lower(text);
    var r := Search(InstitutionPattern, low, 0);
    if r.Some? {
      InstitutionFound(low);
      var i := r.value.start;
      var q: nat, s: nat :| InstitutionMatch(low, i, q, s, r.value.end);
      var x := low[i..r.value.end];
      assert InstitutionOf(text) == Title(x);
      KeywordPrefix(low, i, r.value.end, q);
      KeywordTitle(x);
    }
  }

  /** The keyword a match starts with is a prefix of the matched text. */
  lemma KeywordPrefix(t: string, i: nat, e: nat, q: nat)
    requires InstitutionKeyword(t, i, q) && q <= e <= |t|
    ensures var x := t[i..e]; "universidade" <= x || "instituto" <= x || "faculdade" <= x
  {
  }

  /** Title-casing capitalises the keyword. */
  lemma KeywordTitle(x: string)
    requires "universidade" <= x || "instituto" <= x || "faculdade" <= x
    ensures "Universidade" <= Title(x) || "Instituto" <= Title(x) || "Faculdade" <= Title(x)
  {
    if "universidade" <= x {
      CapitalisedKeyword(x, "universidade");
      KeywordCapital("universidade", "Universidade");
    } else if "instituto" <= x {
      CapitalisedKeyword(x, "instituto");
      KeywordCapital("instituto", "Instituto");
    } else {
      CapitalisedKeyword(x, "faculdade");
      KeywordCapital("faculdade", "Faculdade");
    }
  }

  lemma CapitalisedKeyword(x: string, w: string)
    requires w <= x
    requires w == "universidade" || w == "instituto" || w == "faculdade"
    ensures [UpperChar(w[0])] + w[1..] <= Title(x)
  {
    assert forall k | 0 <= k < |w| :: 'a' <= w[k] <= 'z';
    TitleOfWord(x, w);
  }

  /** The capitalised keyword, character by character. */
  lemma KeywordCapital(w: string, cap: string)
    requires (w == "universidade" && cap == "Universidade") || (w == "instituto" && cap == "Instituto")
      || (w == "faculdade" && cap == "Faculdade")
    ensures cap == [UpperChar(w[0])] + w[1..]
  {
    var c := [UpperChar(w[0])] + w[1..];
    forall k | 0 <= k < |cap| ensures cap[k] == c[k] {
      if k > 0 {
        assert c[k] == w[k];
      }
    }
  }

  /** A block that opens with a surname in capitals followed by a comma gets a
      title taken from inside that surname: the first character is the `.` of
      the pattern, and the lazy group stops one character before the first
      whitespace. For "SILVA, João. O Livro. 2020." the title is "ILVA". */
  lemma TitleInsideSurname(text: string)
    requires "SILVA, " <= text
    ensures ExtractData(text).title == "ILVA"
  {
    SurnameTitleSpan(text);
    assert Search(TitlePattern, text, 0) == Some(Span(1, 5));
    var group := text[1..5];
    assert group == "ILVA" by {
      assert text[..7] == "SILVA, ";
    }
    StripUnchanged(group);
    assert TitleOf(text) == "ILVA";
  }

  /** Where the title pattern matches in a block that starts with "SILVA, ". */
  lemma SurnameTitleSpan(text: string)
    requires "SILVA, " <= text
    ensures TitleAttempt(text, 0) == Some(Span(1, 5))
  {
    assert text[..7] == "SILVA, ";
    assert text[0] == 'S' && text[1] == 'I' && text[2] == 'L' && text[3] == 'V';
    assert text[4] == 'A' && text[5] == ',' && text[6] == ' ';
    assert Run(text, 1, IsSpace) == 0;
    assert LazyTitleEnd(text, 1, 5) == Some(5);
    assert LazyTitleEnd(text, 1, 4) == Some(5);
    assert LazyTitleEnd(text, 1, 3) == Some(5);
    assert LazyTitleEnd(text, 1, 2) == Some(5);
  }

  /** The author class is ASCII: a name in capitals stops at its first accented
      letter. For "SILVA, João. O Livro. 2020." the author is "Silva, J". */
  lemma AuthorStopsAtAccent(text: string)
    requires "SILVA, Jo" <= text
    ensures ExtractData(text).author == "Silva, J"
  {
    var prefix := "SILVA, J";
    assert prefix <= text && text[8] == 'o';
    AuthorFromPrefix(text, prefix);
    TitleOfSilva(prefix);
  }

  /** The author read from a block that starts with a maximal run of the class. */
  lemma AuthorFromPrefix(text: string, prefix: string)
    requires prefix <= text && 0 < |prefix| && AllIn(prefix, 0, |prefix|, IsAuthorChar)
    requires |prefix| == |text| || !IsAuthorChar(text[|prefix|])
    ensures ExtractData(text).author == Title(Strip(prefix))
  {
    assert AllIn(text, 0, |prefix|, IsAuthorChar);
    ExtractAuthor(text, |prefix|);
    assert text[..|prefix|] == prefix;
  }

  lemma TitleOfSilva(s: string)
    requires s == "SILVA, J"
    ensures Title(Strip(s)) == "Silva, J"
  {
    StripUnchanged(s);
    var a := Title(s);
    assert a[0] == 'S' && a[1] == 'i' && a[2] == 'l' && a[3] == 'v' && a[4] == 'a';
    assert a[5] == ',' && a[6] == ' ' && a[7] == 'J';
  }
}
