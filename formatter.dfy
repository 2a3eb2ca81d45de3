/** Rendering of one extracted record: `format_reference` in Refibibex.py.
    The method builds the text as the source does, a step at a time, and is
    proved equal to `Formatted`, which states each style as a whole. */
module Formatter {
  import opened PyText
  import opened Classifier
  import opened Citekey
  import opened Extractor

  /** The bibtex fields the formatter can emit. */
  datatype BibKey = AuthorKey | TitleKey | YearKey | UrlKey | NoteKey | SchoolKey
  {
    /** The left-hand side of the field line, padded as in the source. */
    function Label(): string {
      match this
      case AuthorKey => "  author    = {"
      case TitleKey => "  title     = {"
      case YearKey => "  year      = {"
      case UrlKey => "  url       = {"
      case NoteKey => "  note      = {"
      case SchoolKey => "  school    = {"
    }
  }

  datatype BibField = BibField(key: BibKey, value: string)

  /** The fields of a bibtex entry, in order: author, title and year always;
      url and an access note for a `misc` reference with a URL; school for a
      thesis with an institution. */
  function BibFields(d: Fields, t: RefType): seq<BibField> {
    RequiredFields(d) + UrlFields(d, t) + SchoolFields(d, t)
  }

  function RequiredFields(d: Fields): seq<BibField> {
    [BibField(AuthorKey, d.author), BibField(TitleKey, d.title), BibField(YearKey, d.year)]
  }

  function UrlFields(d: Fields, t: RefType): seq<BibField> {
    if t == Misc && d.url != "" then [BibField(UrlKey, d.url), BibField(NoteKey, "Acesso em: " + d.accessed)] else []
  }

  function SchoolFields(d: Fields, t: RefType): seq<BibField> {
    if (t == PhdThesis || t == MastersThesis) && d.institution != "" then [BibField(SchoolKey, d.institution)] else []
  }

  function FieldLine(f: BibField): string {
    f.key.Label() + f.value + "}"
  }

  function FieldLines(fs: seq<BibField>): (r: seq<string>)
    ensures |r| == |fs| && forall i | 0 <= i < |fs| :: r[i] == FieldLine(fs[i])
  {
    seq(|fs|, i requires 0 <= i < |fs| => FieldLine(fs[i]))
  }

  /** The citation key of a record. */
  function Key(d: Fields): string {
    GenerateCitekey(Some(d.author), d.year)
  }

  /** The first line of a bibtex entry: `@type{key,`. */
  function BibHeader(d: Fields, t: RefType): string {
    "@" + t.Name() + "{" + Key(d) + ",\n"
  }

  function Bibtex(d: Fields, t: RefType): string {
    BibHeader(d, t) + Join(FieldLines(BibFields(d, t)), ",\n") + "\n}"
  }

  /** The part of an ABNT reference after author and title. */
  function AbntSuffix(d: Fields, t: RefType): string {
    if t == PhdThesis then "Tese (Doutorado) – " + d.institution + ", " + d.year + "."
    else if t == MastersThesis then "Dissertação (Mestrado) – " + d.institution + ", " + d.year + "."
    else if t == Misc && d.url != "" then "Disponível em: " + d.url + ". Acesso em: " + d.accessed + "."
    else d.year + "."
  }

  function Abnt(d: Fields, t: RefType): string {
    Upper(d.author) + ". " + d.title + ". " + AbntSuffix(d, t)
  }

  function Apa(d: Fields): string {
    if d.url != "" then d.author + " (" + d.year + "). " + d.title + ". Retrieved from " + d.url
    else d.author + " (" + d.year + "). " + d.title + "."
  }

  function Custom(d: Fields, t: RefType): string {
    "[" + d.year + "] " + d.author + " - " + d.title + " [" + t.Name() + "]"
  }

  /** The text `format_reference` returns for each style name, and a
      diagnostic for any other name. */
  function Formatted(d: Fields, t: RefType, style: string): string {
    if style == "bibtex" then Bibtex(d, t)
    else if style == "abnt" then Abnt(d, t)
    else if style == "apa" then Apa(d)
    else if style == "custom" then Custom(d, t)
    else "Formato desconhecido: " + style
  }

  // ---------------------------------------------------------------------
  // The step-by-step construction of the source

  /** Lines each followed by the separator, as `+=` leaves them. */
  function Terminated(lines: seq<string>, sep: string): string
    decreases |lines|
  {
    if lines == [] then "" else lines[0] + sep + Terminated(lines[1..], sep)
  }

  lemma {:induction false} TerminatedIsJoin(lines: seq<string>, sep: string)
    requires lines != []
    ensures Terminated(lines, sep) == Join(lines, sep) + sep
    decreases |lines|
  {
    if |lines| > 1 {
      TerminatedIsJoin(lines[1..], sep);
    }
  }

  lemma {:induction false} TerminatedAppend(a: seq<string>, b: seq<string>, sep: string)
    ensures Terminated(a + b, sep) == Terminated(a, sep) + Terminated(b, sep)
    decreases |a|
  {
    if a == [] {
      assert a + b == b;
    } else {
      assert (a + b)[0] == a[0];
      assert (a + b)[1..] == a[1..] + b;
      TerminatedAppend(a[1..], b, sep);
    }
  }

  /** Appending one line and its separator to a text built so far. */
  lemma TerminatedStep(header: string, lines: seq<string>, line: string, sep: string, entry: string)
    requires entry == header + Terminated(lines, sep)
    ensures entry + line + sep == header + Terminated(lines + [line], sep)
  {
    TerminatedAppend(lines, [line], sep);
    assert Terminated([line], sep) == line + sep + Terminated([], sep);
  }

  lemma FieldLinesAppend(fields: seq<BibField>, f: BibField)
    ensures FieldLines(fields + [f]) == FieldLines(fields) + [FieldLine(f)]
  {
  }

  /** Appending one field line and its separator to an entry built so far. */
  lemma AddField(header: string, fields: seq<BibField>, f: BibField, entry: string)
    requires entry == header + Terminated(FieldLines(fields), ",\n")
    ensures entry + FieldLine(f) + ",\n" == header + Terminated(FieldLines(fields + [f]), ",\n")
  {
    FieldLinesAppend(fields, f);
    TerminatedStep(header, FieldLines(fields), FieldLine(f), ",\n", entry);
  }

  /** `rstrip(",\n")` takes off exactly the last separator when the text
      before it ends in a character that is neither a comma nor a newline. */
  lemma RStripLastSeparator(s: string)
    requires s != [] && s[|s| - 1] != ',' && s[|s| - 1] != '\n'
    ensures RStripChars(s + ",\n", {',', '\n'}) == s
  {
    var chars := {',', '\n'};
    assert (s + ",\n")[..|s| + 1] == s + ",";
    assert (s + ",")[..|s|] == s;
    assert RStripChars(s + ",", chars) == RStripChars(s, chars);
  }

  /** `format_reference` as the source writes it. */
  method FormatReference(d: Fields, t: RefType, style: string) returns (r: string)
    ensures r == Formatted(d, t, style)
  {
    var citekey := GenerateCitekey(Some(d.author), d.year);
    if style == "bibtex" {
      r := BibtexEntry(d, t, citekey);
    } else if style == "abnt" {
      r := AbntReference(d, t);
    } else if style == "apa" {
      if d.url != "" {
        r := d.author + " (" + d.year + "). " + d.title + ". Retrieved from " + d.url;
      } else {
        r := d.author + " (" + d.year + "). " + d.title + ".";
      }
    } else if style == "custom" {
      r := "[" + d.year + "] " + d.author + " - " + d.title + " [" + t.Name() + "]";
    } else {
      r := "Formato desconhecido: " + style;
    }
  }

  /** The abnt branch: author in capitals and title, then a suffix chosen by
      the reference type. */
  method AbntReference(d: Fields, t: RefType) returns (result: string)
    ensures result == Abnt(d, t)
  {
    result := Upper(d.author) + ". " + d.title + ". ";
    ghost var head := result;
    if t == PhdThesis {
      result := result + ("Tese (Doutorado) – " + d.institution + ", " + d.year + ".");
    } else if t == MastersThesis {
      result := result + ("Dissertação (Mestrado) – " + d.institution + ", " + d.year + ".");
    } else if t == Misc && d.url != "" {
      result := result + ("Disponível em: " + d.url + ". Acesso em: " + d.accessed + ".");
    } else {
      result := result + (d.year + ".");
    }
    assert result == head + AbntSuffix(d, t);
  }

  /** The bibtex branch: the entry grows by one `key = {value},` line at a
      time, and `rstrip(",\n")` then removes the separator after the last one. */
  method BibtexEntry(d: Fields, t: RefType, citekey: string) returns (entry: string)
    requires citekey == Key(d)
    ensures entry == Bibtex(d, t)
  {
    var header := "@" + t.Name() + "{" + citekey + ",\n";
    entry := AppendFieldLines(d, t, header);
    ghost var lines := FieldLines(BibFields(d, t));
    TerminatedIsJoin(lines, ",\n");
    assert header == BibHeader(d, t);
    assert entry == header + Join(lines, ",\n") + ",\n";
    StripsToBody(header, BibFields(d, t));
    entry := RStripChars(entry, {',', '\n'}) + "\n}";
  }

  /** The `+=` steps of the bibtex branch: after the header, every field
      line followed by ",\n". `fields` records the lines appended so far. */
  method AppendFieldLines(d: Fields, t: RefType, header: string) returns (entry: string)
    ensures entry == header + Terminated(FieldLines(BibFields(d, t)), ",\n")
  {
    entry := header;
    ghost var fields: seq<BibField> := [];
    assert entry == header + Terminated(FieldLines(fields), ",\n");
    entry := AppendField(header, fields, entry, BibField(AuthorKey, d.author));
    fields := fields + [BibField(AuthorKey, d.author)];
    entry := AppendField(header, fields, entry, BibField(TitleKey, d.title));
    fields := fields + [BibField(TitleKey, d.title)];
    entry := AppendField(header, fields, entry, BibField(YearKey, d.year));
    fields := fields + [BibField(YearKey, d.year)];
    assert fields == RequiredFields(d);
    if t == Misc && d.url != "" {
      entry := AppendField(header, fields, entry, BibField(UrlKey, d.url));
      fields := fields + [BibField(UrlKey, d.url)];
      entry := AppendField(header, fields, entry, BibField(NoteKey, "Acesso em: " + d.accessed));
      fields := fields + [BibField(NoteKey, "Acesso em: " + d.accessed)];
    }
    assert fields == RequiredFields(d) + UrlFields(d, t);
    if (t == PhdThesis || t == MastersThesis) && d.institution != "" {
      entry := AppendField(header, fields, entry, BibField(SchoolKey, d.institution));
      fields := fields + [BibField(SchoolKey, d.institution)];
    }
    assert fields == BibFields(d, t);
  }

  /** One `entry += "  key = {value},\n"` step. */
  method AppendField(header: string, ghost fields: seq<BibField>, entry: string, f: BibField) returns (r: string)
    requires entry == header + Terminated(FieldLines(fields), ",\n")
    ensures r == header + Terminated(FieldLines(fields + [f]), ",\n")
  {
    r := entry + FieldLine(f) + ",\n";
    AddField(header, fields, f, entry);
  }

  /** The separator after the last field line is all that `rstrip` removes. */
  lemma StripsToBody(header: string, fields: seq<BibField>)
    requires fields != []
    ensures var body := header + Join(FieldLines(fields), ",\n");
      RStripChars(body + ",\n", {',', '\n'}) == body
  {
    var j := Join(FieldLines(fields), ",\n");
    LastLineClosed(fields);
    var body := header + j;
    assert body[|body| - 1] == j[|j| - 1];
    RStripLastSeparator(body);
  }

  /** The joined field lines end with the closing brace of the last line. */
  lemma LastLineClosed(fields: seq<BibField>)
    requires fields != []
    ensures var j := Join(FieldLines(fields), ",\n"); j != [] && j[|j| - 1] == '}'
  {
    var lines := FieldLines(fields);
    JoinEndsWithLast(lines, ",\n");
    var last := lines[|lines| - 1];
    assert last[|last| - 1] == '}';
  }

  lemma {:induction false} JoinEndsWithLast(parts: seq<string>, sep: string)
    requires parts != []
    ensures var j, last := Join(parts, sep), parts[|parts| - 1];
      |last| <= |j| && j[|j| - |last|..] == last
    decreases |parts|
  {
    if |parts| > 1 {
      JoinEndsWithLast(parts[1..], sep);
    }
  }

  // ---------------------------------------------------------------------
  // Properties of the styles

  /** Some field of `fs` has key k. */
  predicate HasKey(fs: seq<BibField>, k: BibKey) {
    exists i | 0 <= i < |fs| :: fs[i].key == k
  }

  /** The bibtex field list: author, title and year first; url and note
      exactly for a `misc` reference with a URL; school exactly for a thesis
      with an institution; no key twice. */
  lemma BibtexFieldSelection(d: Fields, t: RefType)
    ensures var fs := BibFields(d, t);
      |fs| >= 3 && fs[0].key == AuthorKey && fs[1].key == TitleKey && fs[2].key == YearKey
    ensures HasKey(BibFields(d, t), UrlKey) <==> t == Misc && d.url != ""
    ensures HasKey(BibFields(d, t), NoteKey) <==> t == Misc && d.url != ""
    ensures HasKey(BibFields(d, t), SchoolKey) <==> (t == PhdThesis || t == MastersThesis) && d.institution != ""
    ensures var fs := BibFields(d, t);
      forall i, j | 0 <= i < j < |fs| :: fs[i].key != fs[j].key
  {
    var fs := BibFields(d, t);
    if t == Misc && d.url != "" {
      assert fs[3].key == UrlKey && fs[4].key == NoteKey;
    }
    if (t == PhdThesis || t == MastersThesis) && d.institution != "" {
      assert fs[|fs| - 1].key == SchoolKey;
    }
  }

  /** A bibtex entry opens with `@type{key,` on its own line and closes with the
      last field's brace followed by a newline and the entry's brace, so no
      comma is left before the closing brace. */
  lemma BibtexShape(d: Fields, t: RefType)
    ensures var b := Formatted(d, t, "bibtex");
      ("@" + t.Name() + "{" + Key(d) + ",\n") <= b && |b| >= 3 && b[|b| - 3..] == "}\n}"
  {
    var fields := BibFields(d, t);
    assert fields != [];
    LastLineClosed(fields);
    ClosedEntry(BibHeader(d, t), Join(FieldLines(fields), ",\n"));
  }

  /** A header, then text ending in a closing brace, then the closing line. */
  lemma ClosedEntry(header: string, j: string)
    requires j != [] && j[|j| - 1] == '}'
    ensures var b := header + j + "\n}";
      header <= b && |b| >= 3 && b[|b| - 3..] == "}\n}"
  {
    var b := header + j + "\n}";
    assert b[..|header|] == header;
    assert b[|b| - 3] == j[|j| - 1];
  }

  /** ABNT: author in capitals and title, each closed by a full stop, then a
      suffix that also ends in a full stop; for every type other than the two
      theses and a `misc` with a URL the suffix is only the year. */
  lemma AbntShape(d: Fields, t: RefType)
    ensures var a := Formatted(d, t, "abnt");
      (Upper(d.author) + ". " + d.title + ". ") <= a && a[|a| - 1] == '.'
    ensures t != PhdThesis && t != MastersThesis && !(t == Misc && d.url != "") ==>
      Formatted(d, t, "abnt") == Upper(d.author) + ". " + d.title + ". " + d.year + "."
  {
    var a := Formatted(d, t, "abnt");
    var suffix := AbntSuffix(d, t);
    assert suffix[|suffix| - 1] == '.';
    assert a[|a| - 1] == suffix[|suffix| - 1];
  }

  /** APA names the URL at its end exactly when there is one, and does not
      depend on the reference type. */
  lemma ApaRetrieved(d: Fields, t: RefType, t': RefType)
    ensures var a, tail := Formatted(d, t, "apa"), " Retrieved from " + d.url;
      (|tail| <= |a| && a[|a| - |tail|..] == tail) <==> d.url != ""
    ensures Formatted(d, t, "apa") == Formatted(d, t', "apa")
  {
    var a, tail := Formatted(d, t, "apa"), " Retrieved from " + d.url;
    if d.url != "" {
      var head := d.author + " (" + d.year + "). " + d.title + ".";
      assert a == head + tail;
      assert a[|head|..] == tail;
    }
    if d.url == "" && |tail| <= |a| {
      assert a[|a| - 1] == '.';
      assert tail[|tail| - 1] == ' ';
      assert a[|a| - 1] == a[|a| - |tail|..][|tail| - 1];
    }
  }

  /** The custom style reads only year, author, title and type. */
  lemma CustomIgnoresOtherFields(d: Fields, d': Fields, t: RefType)
    requires d.year == d'.year && d.author == d'.author && d.title == d'.title
    ensures Formatted(d, t, "custom") == Formatted(d', t, "custom")
    ensures Formatted(d, t, "custom") == "[" + d.year + "] " + d.author + " - " + d.title + " [" + t.Name() + "]"
  {
  }

  /** Any other style name is echoed in a diagnostic instead of a reference. */
  lemma UnknownStyle(d: Fields, t: RefType, style: string)
    requires style != "bibtex" && style != "abnt" && style != "apa" && style != "custom"
    ensures Formatted(d, t, style) == "Formato desconhecido: " + style
  {
  }

  /** A block that starts with whitespace followed by a character outside
      `[A-Z\s,.]` (or by nothing) has the empty author, not the default one,
      and so the key "anon" + year. */
  lemma WhitespaceAuthorKey(text: string, e: nat)
    requires 0 < e <= |text| && AllIn(text, 0, e, IsSpace)
    requires e == |text| || !IsAuthorChar(text[e])
    ensures ExtractData(text).author == ""
    ensures Key(ExtractData(text)) == "anon" + ExtractData(text).year
  {
    var p := text[..e];
    assert Strip(p) == [] by {
      assert Blank(p) by {
        forall k | 0 <= k < |p| ensures IsSpace(p[k]) { assert p[k] == text[k]; }
      }
      StripEmptyIffBlank(p);
    }
    assert ExtractData(text).author == Title(Strip(p)) by {
      assert AllIn(text, 0, e, IsAuthorChar);
      ExtractAuthor(text, e);
    }
    var d := ExtractData(text);
    assert d.author == [];
    assert Key(d) == GenerateCitekey(Some(d.author), d.year);
  }

  /** A record with the default author gets the key "desconhecido" + year: the
      last word of "Autor Desconhecido", lower-cased. */
  lemma UnknownAuthorKey(d: Fields)
    requires d.author == UnknownAuthor
    ensures Key(d) == "desconhecido" + d.year
  {
    CitekeyDefaultAuthor(d.author, d.year);
  }

}
