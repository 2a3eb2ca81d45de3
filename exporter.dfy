/** `export_references` in Refibibex.py: the name of the output file and
    what is written into it, and the two menus of `run_cli` that choose the
    style and the format. */
module Exporter {
  import opened PyText
  import opened Classifier
  import opened Extractor
  import opened Formatter
  import opened Blocks
  import opened Entries

  // ---------------------------------------------------------------------
  // The output file name

  /** The suffix that replaces ".txt": the style glued in front of the
      format's extension, except for bib; an unknown format falls back to
      the txt suffix. */
  function Extension(style: string, formatOut: string): (ext: string)
    ensures formatOut == "bib" ==> ext == ".bib"
    ensures formatOut == "json" ==> ext == style + ".json"
    ensures formatOut == "yaml" ==> ext == style + ".yaml"
    ensures formatOut !in {"bib", "json", "yaml"} ==> ext == style + ".txt"
  {
    if formatOut == "txt" then style + ".txt"
    else if formatOut == "bib" then ".bib"
    else if formatOut == "json" then style + ".json"
    else if formatOut == "yaml" then style + ".yaml"
    else style + ".txt"
  }

  /** `base_file.replace(".txt", ext)`. */
  function OutputPath(baseFile: string, style: string, formatOut: string): string {
    ReplaceAll(baseFile, ".txt", Extension(style, formatOut))
  }

  /** A name that ends in its only ".txt" has that ".txt" replaced by the
      extension: no occurrence can straddle the end of the stem, since no
      proper suffix of ".txt" is a prefix of it. */
  lemma {:induction false} ReplaceTxtSuffix(stem: string, ext: string)
    requires !Contains(stem, ".txt")
    ensures ReplaceAll(stem + ".txt", ".txt", ext) == stem + ext
    decreases |stem|
  {
    var s := stem + ".txt";
    if stem == [] {
      assert s == ".txt";
      assert s[4..] == [];
    } else {
      assert !(".txt" <= s) by {
        if |stem| >= 4 {
          assert stem[0..] == stem;
          assert s[..4] == stem[0..][..4];
        } else {
          assert s[|stem|] == '.';
        }
      }
      assert !Contains(stem[1..], ".txt") by {
        forall i | 0 <= i <= |stem[1..]| ensures !(".txt" <= stem[1..][i..]) {
          assert stem[1..][i..] == stem[i + 1..];
        }
      }
      ReplaceTxtSuffix(stem[1..], ext);
      assert s[1..] == stem[1..] + ".txt";
      assert [stem[0]] + (stem[1..] + ext) == stem + ext;
    }
  }

  /** The input "<stem>.txt" is exported to "<stem>" followed by
      `Extension(style, formatOut)`. */
  lemma OutputPathOfTxtFile(stem: string, style: string, formatOut: string)
    requires !Contains(stem, ".txt")
    ensures OutputPath(stem + ".txt", style, formatOut) == stem + Extension(style, formatOut)
  {
    ReplaceTxtSuffix(stem, Extension(style, formatOut));
  }

  /** An input whose name holds no ".txt" is exported onto itself. */
  lemma OutputPathWithoutTxt(baseFile: string, style: string, formatOut: string)
    requires !Contains(baseFile, ".txt")
    ensures OutputPath(baseFile, style, formatOut) == baseFile
  {
    ReplaceAllAbsent(baseFile, ".txt", Extension(style, formatOut));
  }

  /** "refs.txt" in the apa style and the json format becomes
      "refsapa.json". */
  lemma OutputPathExample(baseFile: string)
    requires baseFile == "refs.txt"
    ensures OutputPath(baseFile, "apa", "json") == "refsapa.json"
  {
    assert baseFile == "refs" + ".txt";
    assert !Contains("refs", ".txt") by {
      forall i | 0 <= i <= 4 ensures !(".txt" <= "refs"[i..]) {
        if i == 0 {
          assert "refs"[i..][0] == 'r';
        }
      }
    }
    OutputPathOfTxtFile("refs", "apa", "json");
  }

  // ---------------------------------------------------------------------
  // What is written

  /** The file's content: the entries joined by a blank line for txt and
      bib, the entries serialised for json and yaml (the serialisation
      itself is not modelled), nothing for any other format (the file is
      opened for writing and left empty). `"\n\n".join` of an entry that is
      not text raises, which `JoinFails` stands for. */
  datatype Body = Joined(text: string) | Dumped(format: string, entries: seq<Entry>) | Empty | JoinFails

  datatype Export = Export(path: string, body: Body)

  /** The texts of the entries, when every entry is a text. */
  function Texts(entries: seq<Entry>): (r: Option<seq<string>>)
    ensures r.Some? <==> forall k | 0 <= k < |entries| :: entries[k].Text?
    ensures r.Some? ==> |r.value| == |entries|
    ensures r.Some? ==> forall k | 0 <= k < |entries| :: entries[k] == Text(r.value[k])
    decreases |entries|
  {
    if entries == [] then Some([])
    else match entries[0]
      case Record(_) => None
      case Text(s) =>
        match Texts(entries[1..])
        case None => None
        case Some(rest) => Some([s] + rest)
  }

  function ExportBody(entries: seq<Entry>, formatOut: string): Body {
    if formatOut == "txt" || formatOut == "bib" then
      match Texts(entries)
      case Some(texts) => Joined(Join(texts, "\n\n"))
      case None => JoinFails
    else if formatOut == "json" || formatOut == "yaml" then Dumped(formatOut, entries)
    else Empty
  }

  /** `export_references(entries, base_file, style, format_out)` without the
      file system: where it writes and what. */
  function ExportReferences(entries: seq<Entry>, baseFile: string, style: string, formatOut: string): Export {
    Export(OutputPath(baseFile, style, formatOut), ExportBody(entries, formatOut))
  }

  /** A document exported as txt or bib is the formatted references joined
      by a blank line: the join never meets a record. */
  lemma TextExportJoinsReferences(rawText: string, style: string, formatOut: string)
    requires formatOut == "txt" || formatOut == "bib"
    ensures var entries := DocumentEntries(rawText, style, formatOut);
      Texts(entries).Some? &&
      ExportBody(entries, formatOut) == Joined(Join(Texts(entries).value, "\n\n"))
  {
    var entries := DocumentEntries(rawText, style, formatOut);
    EntryKinds(rawText, style, formatOut);
    forall k | 0 <= k < |entries| ensures entries[k].Text? {
      assert entries[k] in entries;
    }
  }

  /** A format other than txt, bib, json and yaml leaves the output empty,
      although the records were collected. */
  lemma UnknownFormatWritesNothing(rawText: string, style: string, formatOut: string)
    requires formatOut !in {"txt", "bib", "json", "yaml"}
    ensures ExportBody(DocumentEntries(rawText, style, formatOut), formatOut) == Empty
    ensures forall x | x in DocumentEntries(rawText, style, formatOut) :: x.Record?
  {
    EntryKinds(rawText, style, formatOut);
  }

  /** Reading a txt export back as a document gives one block per entry,
      when the entries are well-formed blocks. */
  lemma TextExportSplitsBack(texts: seq<string>)
    requires texts != [] && forall k | 0 <= k < |texts| :: WellFormedBlock(texts[k])
    ensures var entries := seq(|texts|, k requires 0 <= k < |texts| => Text(texts[k]));
      ExportBody(entries, "txt").Joined? &&
      SplitBlocks(ExportBody(entries, "txt").text) == texts
  {
    var entries := seq(|texts|, k requires 0 <= k < |texts| => Text(texts[k]));
    var r := Texts(entries);
    assert r.Some?;
    assert r.value == texts;
    SplitJoin(texts);
  }

  // ---------------------------------------------------------------------
  // The menus of run_cli

  /** The style menu: "1" to "4", anything else bibtex. */
  function StyleChoice(option: string): (style: string)
    ensures style in {"bibtex", "abnt", "apa", "custom"}
    ensures option !in {"1", "2", "3", "4"} ==> style == "bibtex"
  {
    if option == "1" then "bibtex"
    else if option == "2" then "abnt"
    else if option == "3" then "apa"
    else if option == "4" then "custom"
    else "bibtex"
  }

  /** The format menu: "1" to "4", anything else txt. */
  function FormatChoice(option: string): (formatOut: string)
    ensures formatOut in {"txt", "json", "yaml", "bib"}
    ensures option !in {"1", "2", "3", "4"} ==> formatOut == "txt"
  {
    if option == "1" then "txt"
    else if option == "2" then "json"
    else if option == "3" then "yaml"
    else if option == "4" then "bib"
    else "txt"
  }

  /** Through the menus, a reference is never formatted in an unknown style
      and the export is never empty or a failed join. */
  lemma MenusReachKnownBranches(styleOption: string, formatOption: string, rawText: string, d: Fields, t: RefType)
    ensures var style := StyleChoice(styleOption);
      !(Formatted(d, t, style) == "Formato desconhecido: " + style)
    ensures var style, formatOut := StyleChoice(styleOption), FormatChoice(formatOption);
      var body := ExportBody(DocumentEntries(rawText, style, formatOut), formatOut);
      body != Empty && body != JoinFails
  {
    var style, formatOut := StyleChoice(styleOption), FormatChoice(formatOption);
    KnownStyleIsFormatted(d, t, style);
    if formatOut == "txt" || formatOut == "bib" {
      TextExportJoinsReferences(rawText, style, formatOut);
    }
  }

  /** The four styles of the menu never produce the unknown-style text. */
  lemma KnownStyleIsFormatted(d: Fields, t: RefType, style: string)
    requires style in {"bibtex", "abnt", "apa", "custom"}
    ensures Formatted(d, t, style) != "Formato desconhecido: " + style
  {
    var f, u := Formatted(d, t, style), "Formato desconhecido: " + style;
    if style == "bibtex" {
      BibtexShape(d, t);
      assert f[0] == '@' && u[0] == 'F';
    } else if style == "abnt" {
      AbntShape(d, t);
      assert f[|f| - 1] == '.' && u[|u| - 1] == 't';
    } else if style == "apa" {
      var k := |d.author| + 1;
      assert f[k] == '(';
      NoParenthesis(u);
    } else {
      assert f[0] == '[' && u[0] == 'F';
    }
  }

  lemma NoParenthesis(u: string)
    requires u == "Formato desconhecido: apa"
    ensures forall k | 0 <= k < |u| :: u[k] != '('
  {
  }
}
