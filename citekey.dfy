/** Citation-key derivation: `generate_citekey` in Refibibex.py. The key is
    the lower-cased last letter run of the surname segment followed by the
    year, or "anon" followed by the year when no usable name exists. */
module Citekey {
  import opened PyText

  /** The letter class `[A-Za-zÀ-ÿ]` of the surname pattern (the Latin-1
      range includes × and ÷). */
  predicate IsNameLetter(c: char) {
    'A' <= c <= 'Z' || 'a' <= c <= 'z' || '\U{C0}' <= c <= '\U{FF}'
  }

  /** s[a..b] is one whole `[A-Za-zÀ-ÿ]+` match: non-empty, letters only,
      with no letter just before or just after it. */
  predicate IsLetterRun(s: string, a: nat, b: nat) {
    a < b <= |s| && AllIn(s, a, b, IsNameLetter)
    && (a == 0 || !IsNameLetter(s[a - 1])) && (b == |s| || !IsNameLetter(s[b]))
  }

  /** The number of letters that end just before position `to`. */
  function LettersBefore(s: string, to: nat): (n: nat)
    requires to <= |s|
    ensures n <= to && AllIn(s, to - n, to, IsNameLetter)
    ensures n == to || !IsNameLetter(s[to - n - 1])
  {
    if to > 0 && IsNameLetter(s[to - 1]) then 1 + LettersBefore(s, to - 1) else 0
  }

  /** The last element of `re.findall(r"[A-Za-zÀ-ÿ]+", s[..e])`, as a span of
      `s`, found by walking back from `e` over non-letters and then over
      letters. */
  function LastLetterRunBefore(s: string, e: nat): (r: Option<Span>)
    requires e <= |s|
    requires e == |s| || !IsNameLetter(s[e])
    ensures r.None? <==> forall k | 0 <= k < e :: !IsNameLetter(s[k])
    ensures r.Some? ==>
      (IsLetterRun(s, r.value.start, r.value.end) && r.value.end <= e
       && forall k | r.value.end <= k < e :: !IsNameLetter(s[k]))
    decreases e
  {
    if e == 0 then None
    else if !IsNameLetter(s[e - 1]) then LastLetterRunBefore(s, e - 1)
    else Some(Span(e - LettersBefore(s, e), e))
  }

  function LastLetterRun(s: string): Option<Span> {
    LastLetterRunBefore(s, |s|)
  }

  /** `s.split(',')[0]`: everything before the first comma. */
  function BeforeFirstComma(s: string): (r: string)
    ensures r <= s && ',' !in r
    ensures |r| < |s| ==> s[|r|] == ','
  {
    if s == [] || s[0] == ',' then [] else [s[0]] + BeforeFirstComma(s[1..])
  }

  /** Every key ends with the year it was given. */
  function GenerateCitekey(author: Option<string>, year: string): (r: string)
    ensures |year| <= |r| && r[|r| - |year|..] == year
  {
    var stem :=
      if author.None? || author.value == [] then "anon"
      else
        var authorName := Strip(author.value);
        var lastNamePart := if ',' in authorName then BeforeFirstComma(authorName) else authorName;
        match LastLetterRun(lastNamePart)
        case None => "anon"
        case Some(run) => Lower(lastNamePart[run.start..run.end]);
    assert (stem + year)[|stem|..] == year;
    stem + year
  }

  /** The part of an author string the key is taken from: the stripped
      string up to its first comma, or all of it when it has no comma. */
  function SurnameSegment(author: string): string {
    BeforeFirstComma(Strip(author))
  }

  /** Without a comma the segment is the whole string, so the comma test
      only decides between two ways of computing the same segment. */
  lemma CitekeyBySegment(author: string, year: string)
    requires author != []
    ensures GenerateCitekey(Some(author), year)
      == match LastLetterRun(SurnameSegment(author))
         case None => "anon" + year
         case Some(run) => Lower(SurnameSegment(author)[run.start..run.end]) + year
  {
    var name := Strip(author);
    if ',' !in name {
      assert BeforeFirstComma(name) == name;
    }
  }

  /** "anon" + year in exactly the two documented situations: no author
      (None or the empty string), or a surname segment without a letter. */
  lemma CitekeyAnon(author: Option<string>, year: string)
    requires author.None? || author.value == []
      || forall k | 0 <= k < |SurnameSegment(author.value)| :: !IsNameLetter(SurnameSegment(author.value)[k])
    ensures GenerateCitekey(author, year) == "anon" + year
  {
    if author.Some? && author.value != [] {
      CitekeyBySegment(author.value, year);
    }
  }

  /** Otherwise the key is the lower-cased last letter run of the surname
      segment, followed by the year: any whole letter run with no letter
      after it is the run the key is made from. */
  lemma CitekeyFromLastRun(author: string, year: string, a: nat, b: nat)
    requires author != []
    requires IsLetterRun(SurnameSegment(author), a, b)
    requires forall k | b <= k < |SurnameSegment(author)| :: !IsNameLetter(SurnameSegment(author)[k])
    ensures GenerateCitekey(Some(author), year) == Lower(SurnameSegment(author)[a..b]) + year
  {
    CitekeyBySegment(author, year);
    var seg := SurnameSegment(author);
    LastRunUnique(seg, a, b);
  }

  /** The run that `LastLetterRun` reports is the only whole letter run with
      no letter after it. */
  lemma LastRunUnique(s: string, a: nat, b: nat)
    requires IsLetterRun(s, a, b)
    requires forall k | b <= k < |s| :: !IsNameLetter(s[k])
    ensures LastLetterRun(s) == Some(Span(a, b))
  {
    assert IsNameLetter(s[b - 1]);
    var run := LastLetterRun(s).value;
    assert IsNameLetter(s[run.end - 1]);
    assert run.end == b;
    assert run.start > 0 ==> !IsNameLetter(s[run.start - 1]);
    assert a > 0 ==> !IsNameLetter(s[a - 1]);
  }

  /** The segment ends at the first comma. */
  lemma BeforeFirstCommaAt(s: string, i: nat)
    requires i < |s| && s[i] == ',' && ',' !in s[..i]
    ensures BeforeFirstComma(s) == s[..i]
  {
  }

  /** The segment of an author string without surrounding whitespace is
      what precedes its first comma ... */
  lemma SegmentBeforeComma(author: string, i: nat)
    requires author != [] && !IsSpace(author[0]) && !IsSpace(author[|author| - 1])
    requires i < |author| && author[i] == ',' && ',' !in author[..i]
    ensures SurnameSegment(author) == author[..i]
  {
    StripUnchanged(author);
    BeforeFirstCommaAt(author, i);
  }

  /** ... or the whole string when it has no comma. */
  lemma SegmentWithoutComma(author: string)
    requires author != [] && !IsSpace(author[0]) && !IsSpace(author[|author| - 1])
    requires ',' !in author
    ensures SurnameSegment(author) == author
  {
    StripUnchanged(author);
  }

  /** The cases the project's unit tests pin down: comma form, natural
      order, a compound surname, and no author. (The arguments are
      parameters fixed by the requires clause, so that the verifier follows
      the proof steps instead of evaluating the whole key.) */
  lemma CitekeyCommaForm(author: string, year: string)
    requires author == "Borges, Jorge Luis"
    ensures GenerateCitekey(Some(author), year) == "borges" + year
  {
    CommaFormSegment(author);
    CitekeyFromLastRun(author, year, 0, 6);
    LowerBorges(SurnameSegment(author)[0..6]);
  }

  lemma CommaFormSegment(author: string)
    requires author == "Borges, Jorge Luis"
    ensures author != []
    ensures var seg := SurnameSegment(author);
      |seg| == 6 && IsLetterRun(seg, 0, 6) && seg[0..6] == "Borges"
  {
    var seg := author[..6];
    assert seg[0..6] == seg;
    assert seg == "Borges";
    assert author[6] == ',' && ',' !in seg;
    SegmentBeforeComma(author, 6);
    forall k | 0 <= k < 6 ensures IsNameLetter(seg[k]) {
    }
  }

  lemma CitekeyNaturalOrder(author: string, year: string)
    requires author == "Jorge Luis Borges"
    ensures GenerateCitekey(Some(author), year) == "borges" + year
  {
    SegmentWithoutComma(author);
    NaturalOrderRun(author);
    CitekeyFromLastRun(author, year, 11, 17);
    LowerBorges(author[11..17]);
  }

  lemma NaturalOrderRun(author: string)
    requires author == "Jorge Luis Borges"
    ensures IsLetterRun(author, 11, 17) && |author| == 17
    ensures author[11..17] == "Borges"
  {
    forall k | 11 <= k < 17 ensures IsNameLetter(author[k]) {
    }
    assert author[10] == ' ';
    assert AllIn(author, 11, 17, IsNameLetter);
    var w, lit := author[11..17], "Borges";
    forall k | 0 <= k < 6 ensures w[k] == lit[k] {
      assert w[k] == author[11 + k];
    }
    assert w == lit;
  }

  lemma LowerBorges(w: string)
    requires w == "Borges"
    ensures Lower(w) == "borges"
  {
    var l := Lower(w);
    assert l[0] == 'b';
    assert l[1..] == w[1..];
  }

  lemma CitekeyCompoundSurname(author: string, year: string)
    requires author == "DE SOUZA, Fulano"
    ensures GenerateCitekey(Some(author), year) == "souza" + year
  {
    CompoundSegment(author);
    SegmentBeforeComma(author, 8);
    CitekeyFromLastRun(author, year, 3, 8);
    LowerSouza(author[..8][3..8]);
  }

  lemma CompoundSegment(author: string)
    requires author == "DE SOUZA, Fulano"
    ensures author != [] && !IsSpace(author[0]) && !IsSpace(author[|author| - 1])
    ensures author[8] == ',' && ',' !in author[..8]
    ensures IsLetterRun(author[..8], 3, 8) && author[..8][3..8] == "SOUZA"
  {
    var seg := author[..8];
    assert seg == "DE SOUZA";
    forall k | 3 <= k < 8 ensures IsNameLetter(seg[k]) {
    }
    assert seg[2] == ' ';
    assert AllIn(seg, 3, 8, IsNameLetter);
    var w, lit := seg[3..8], "SOUZA";
    forall k | 0 <= k < 5 ensures w[k] == lit[k] {
      assert w[k] == seg[3 + k];
    }
    assert w == lit;
  }

  lemma LowerSouza(w: string)
    requires w == "SOUZA"
    ensures Lower(w) == "souza"
  {
    var l := Lower(w);
    assert l == [LowerChar('S'), LowerChar('O'), LowerChar('U'), LowerChar('Z'), LowerChar('A')];
  }

  lemma CitekeyNoAuthor(year: string)
    ensures GenerateCitekey(Some(""), year) == "anon" + year
    ensures GenerateCitekey(None, year) == "anon" + year
  {
  }

  /** The default author of an unreadable block, "Autor Desconhecido", gives
      the key "desconhecido" + year. */
  lemma CitekeyDefaultAuthor(author: string, year: string)
    requires author == "Autor Desconhecido"
    ensures GenerateCitekey(Some(author), year) == "desconhecido" + year
  {
    SegmentWithoutComma(author);
    DefaultAuthorRun(author);
    CitekeyFromLastRun(author, year, 6, 18);
    LowerDesconhecido(author[6..18]);
  }

  /** The last letter run of "Autor Desconhecido" is "Desconhecido". */
  lemma DefaultAuthorRun(author: string)
    requires author == "Autor Desconhecido"
    ensures IsLetterRun(author, 6, 18) && |author| == 18
    ensures author[6..18] == "Desconhecido"
  {
    forall k | 6 <= k < 18 ensures IsNameLetter(author[k]) {
    }
    assert author[5] == ' ';
    assert AllIn(author, 6, 18, IsNameLetter);
    var w, lit := author[6..18], "Desconhecido";
    forall k | 0 <= k < 12 ensures w[k] == lit[k] {
      assert w[k] == author[6 + k];
    }
    assert w == lit;
  }

  lemma LowerDesconhecido(w: string)
    requires w == "Desconhecido"
    ensures Lower(w) == "desconhecido"
  {
    var l := Lower(w);
    assert l[0] == 'd';
    assert l[1..] == w[1..];
  }
}
