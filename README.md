# RefFormatter core in Dafny

A model of the reference-formatting engine of `Refibibex.py`, with proofs about it.
The engine reads a plain-text file of bibliographic references, one block per reference.
It classifies each block, extracts its fields with six regular expressions and renders it
in one of four citation styles (bibtex, ABNT, APA, custom). It then writes the results to
a file whose name is derived from the input's name.

The model has one module per part of the program:

- `PyText` (`pytext.dfy`): the Python string primitives the program uses. These are the
  `str.isspace`/`\s`, `\d` and `\w` classes, `lower`, `upper`, `title`, `capitalize`,
  `strip`, `rstrip(chars)`, `in`, `replace` and `join`.
- `Classifier` (`classifier.dfy`): `detect_reference_type`, an ordered chain of substring
  tests plus the volume pattern `v.\s*\d+`.
- `Citekey` (`citekey.dfy`): `generate_citekey`.
- `Extractor` (`extractor.dfy`): `extract_data`. Each pattern has two parts. One is a
  scanner that makes the choices Python's backtracking matcher makes: greedy repetition
  first, lazy groups as short as possible, the leftmost start. The other is a declarative
  predicate for the match the scanner must report. `re.search` is one generic leftmost
  search over a per-position attempt.
- `Formatter` (`formatter.dfy`): `format_reference`. `FormatReference` is a method that
  builds the bibtex entry with `+=` steps and a final `rstrip(",\n")`, as the source does.
  It is proved equal to `Formatted`, which states each style as a whole (the bibtex
  fields are a `join` of field lines).
- `Blocks` (`blocks.dfy`): `re.split(r'\n\s*\n', …)` as used by `process_references`.
- `Entries` and `Batch` (`batch.dfy`): the accumulation loop of `process_references`.
  `Batch.ProcessBlocks` is a `for` loop proved against
  `Entries.EntriesOf(Entries.NonBlank(refs), …)`. `Batch.ProcessReferences` equals
  `Entries.DocumentEntries`.
- `Exporter` (`exporter.dfy`): the output path and the written content of
  `export_references`, and the two menu maps of `run_cli`.

The model keeps these quirks of the code:

- The author class `[A-Z\s,.]` is ASCII only. "SILVA, João. O Livro. 2020." gives the
  author "Silva, J", not "Silva, João" (`Extractor.AuthorStopsAtAccent`).
- The title pattern `.\s*(.+?).\s` starts with an unescaped dot. For that same block the
  title is "ILVA", taken from inside the surname (`Extractor.TitleInsideSurname`).
- The dot of `v.\s*\d+` is unescaped as well, so "nov 2020" counts as a volume marker. It
  makes a block an article when no earlier test of the chain succeeds (`Classifier.MonthReadsAsVolume`).
- The output name comes from replacing every ".txt" in the input name, not from
  substituting the file's suffix:
  - the style is glued to the stem, so "refs.txt" in apa/json becomes "refsapa.json";
  - a name without ".txt" is written over the input itself.
- An unknown export format still collects the records, but the file it opens is left empty
  (`Exporter.UnknownFormatWritesNothing`).
- The comma rule of `generate_citekey` is not redundant. Without it, "Borges, Jorge Luis"
  would give "luis2023" instead of "borges2023" (`Citekey.CitekeyCommaForm`).
- A block whose first character is not in `[A-Z\s,.]` gets the author "Autor
  Desconhecido". Its key is then "desconhecido" + year, not "anon" + year
  (`Formatter.UnknownAuthorKey`).
- The class also holds whitespace, comma and full stop. "  silva" therefore gets the empty
  author and the key "anon" + year (`Formatter.WhitespaceAuthorKey`), and ", x" gets the
  author ",".

## Model

| member | source | states |
|---|---|---|
| PyText.Lower | Refibibex.py:9 | `str.lower()` keeps the length and lower-cases each character, and no capital is left |
| PyText.Upper | Refibibex.py:81 | `str.upper()` keeps the length and maps each character to its upper case |
| PyText.Capitalize | Refibibex.py:60 | `str.capitalize()`: first character upper-cased, the rest lower-cased, same length |
| PyText.TitleCapitalisesRun | Refibibex.py:56 | `str.title()` upper-cases the first character of each maximal run of cased characters, leaving no ASCII lower case there, and lower-cases the rest of the run |
| PyText.TitleKeepsUncased | Refibibex.py:56 | `str.title()` leaves every uncased character where it is |
| PyText.Strip | Refibibex.py:31 | `strip()` returns a slice `s[a..b]` with only whitespace outside it, and the slice neither starts nor ends with whitespace |
| PyText.StripEmptyIffBlank | Refibibex.py:131 | `s.strip()` is empty exactly when every character of `s` is whitespace |
| PyText.StripKeeps | Refibibex.py:56-57 | a character class that holds of every character of a string still holds after `strip()` |
| PyText.RStripChars | Refibibex.py:77 | `rstrip(chars)` returns a prefix whose last character is not in `chars`, and every character it removes is in `chars` |
| PyText.Run | Refibibex.py:48 | a greedy `[…]*` run from a position holds only class characters and stops at a non-class character or the end |
| PyText.RunIsMaximal | Refibibex.py:48 | every class run from a position is no longer than the greedy one, and one that cannot be extended is the greedy one |
| PyText.ReplaceAll | Refibibex.py:112 | `str.replace`: every non-overlapping occurrence, found left to right, replaced |
| PyText.Join | Refibibex.py:116 | `sep.join(parts)`: the parts with the separator between consecutive ones |
| PyText.ReplaceAllAbsent | Refibibex.py:112 | `replace` of a substring that does not occur returns the string unchanged |
| Classifier.DetectReferenceType | Refibibex.py:8-25 | a block is `misc` exactly when its lower-cased text contains "disponível em:" |
| Classifier.VolumeMarkerFromIsSearch | Refibibex.py:18 | the greedy scanner for `v.\s*\d+` succeeds exactly when the pattern matches at some position |
| Classifier.VolumeMarkerAtGreedy | Refibibex.py:18 | at one position, letting `\s*` take the whole whitespace run decides the match exactly |
| Classifier.DetectIsFirstSignal | Refibibex.py:8-25 | the returned tag's test succeeds on the lower-cased block and every earlier test in the chain fails; `book` only when the seven others fail |
| Classifier.MonthReadsAsVolume | Refibibex.py:18 | "nov 2020" matches `v.\s*\d+` because the dot is unescaped |
| Citekey.GenerateCitekey | Refibibex.py:27-45 | every key ends with the year it was given |
| Citekey.LettersBefore | Refibibex.py:38 | the count of letters of `[A-Za-zÀ-ÿ]` just before a position, maximal |
| Citekey.LastLetterRunBefore | Refibibex.py:38-43 | `findall(...)[-1]`: None exactly when no letter occurs; otherwise a whole letter run with no letter after it |
| Citekey.BeforeFirstComma | Refibibex.py:34 | `split(',')[0]` is a comma-free prefix that ends at the first comma |
| Citekey.CitekeyBySegment | Refibibex.py:31-45 | the key depends only on the surname segment, whether or not the name has a comma |
| Citekey.CitekeyAnon | Refibibex.py:28-41 | "anon" + year for no author, an empty author, or a segment without letters |
| Citekey.CitekeyFromLastRun | Refibibex.py:31-45 | otherwise the key is the lower-cased last letter run of the segment followed by the year |
| Citekey.LastRunUnique | Refibibex.py:38-43 | the last whole letter run of a string is unique |
| Citekey.SegmentBeforeComma | Refibibex.py:33-34 | the segment of a trimmed author with a comma is the text before its first comma |
| Citekey.SegmentWithoutComma | Refibibex.py:35-36 | the segment of a trimmed author without a comma is the whole string |
| Citekey.CitekeyCommaForm | test_refibibex.py:6-7 | "Borges, Jorge Luis" gives "borges" + year, for every year |
| Citekey.CitekeyNaturalOrder | test_refibibex.py:9-10 | "Jorge Luis Borges" gives "borges" + year, for every year |
| Citekey.CitekeyCompoundSurname | test_refibibex.py:12-13 | "DE SOUZA, Fulano" gives "souza" + year, for every year |
| Citekey.CitekeyNoAuthor | test_refibibex.py:15-17 | the empty string and None both give "anon" + year |
| Citekey.CitekeyDefaultAuthor | Refibibex.py:43-45 | the default author "Autor Desconhecido" gives "desconhecido" + year |
| Extractor.ExtractData | Refibibex.py:47-62 | the record of six fields, each from its own match |
| Extractor.AuthorOf | Refibibex.py:48-56 | the title-cased strip of the greedy `[A-Z\s,.]` prefix, or "Autor Desconhecido" |
| Extractor.TitleOf | Refibibex.py:49-57 | the strip of the group of the leftmost title match, or "Título Desconhecido" |
| Extractor.YearOf | Refibibex.py:50-58 | the leftmost year match, or "0000" |
| Extractor.UrlOf | Refibibex.py:51-59 | the group of the leftmost URL match in the lower-cased block, or "" |
| Extractor.AccessedOf | Refibibex.py:52-60 | the capitalised strip of the leftmost access group in the lower-cased block, or "" |
| Extractor.InstitutionOf | Refibibex.py:53-61 | the title-cased leftmost institution match in the lower-cased block, or "" |
| Extractor.LazyTitleEnd | Refibibex.py:49 | the lazy group `(.+?)` ends at the first position where `.\s` can follow, or nowhere |
| Extractor.GreedyTitleGroup | Refibibex.py:49 | backtracking of `\s*` yields the match with the latest group start, then the shortest group |
| Extractor.TitleAttempt | Refibibex.py:49 | one attempt of the title pattern reports exactly the match the engine picks, or there is none at that start |
| Extractor.UrlAttempt | Refibibex.py:51 | one attempt of the URL pattern reports a match of `dispon[ií]vel em:\s*(https?://\S+)` |
| Extractor.UrlGroup | Refibibex.py:51 | `https?://\S+` takes the whole non-space run, when that run starts with a scheme |
| Extractor.GreedyAccessGroup | Refibibex.py:52 | backtracking of `\s*` before `[^\n]+` yields the latest group start |
| Extractor.AccessAttempt | Refibibex.py:52 | one attempt of the access pattern reports exactly the match the engine picks, or none |
| Extractor.InstitutionKeywordEnd | Refibibex.py:53 | the alternation `universidade|instituto|faculdade` ends at q exactly when that keyword starts at the position |
| Extractor.InstitutionAttempt | Refibibex.py:53 | one attempt of the institution pattern reports a whole match starting there, or there is none |
| Extractor.InstitutionNoMatch | Refibibex.py:53 | without whitespace and two class characters after the keyword, the pattern cannot match there |
| Extractor.InstitutionWitness | Refibibex.py:53 | a class run after the keyword that starts with whitespace and has two characters is a match |
| Extractor.AttemptAt | Refibibex.py:49-53 | the span one attempt reports lies inside the text |
| Extractor.Search | Refibibex.py:49-53 | `re.search` returns the attempt at the leftmost succeeding position, or None when every attempt fails |
| Extractor.AttemptIsReport | Refibibex.py:49-53 | each scanner attempt reports exactly the declarative match, for all five patterns |
| Extractor.SearchIsLeftmost | Refibibex.py:49-53 | `re.search` is None exactly when the pattern matches nowhere, otherwise the match at the leftmost matching position |
| Extractor.SearchFinds | Refibibex.py:49-53 | a match with none to its left is what `re.search` returns |
| Extractor.ExtractAuthor | Refibibex.py:48-56 | author = title-cased strip of the longest `[A-Z\s,.]` prefix, "Autor Desconhecido" when that prefix is empty |
| Extractor.AuthorIsAscii | Refibibex.py:48-56 | the author is the default or holds only ASCII capitals, ASCII lower case, whitespace, comma and full stop |
| Extractor.ExtractYear | Refibibex.py:50-58 | year is "0000" exactly when no word-bounded 19dd/20dd token occurs, otherwise the leftmost one |
| Extractor.ExtractTitle | Refibibex.py:49-57 | title is the default when the pattern matches nowhere, otherwise the strip of the group of the leftmost match |
| Extractor.TitleOnOneLine | Refibibex.py:49-57 | the title never holds a newline |
| Extractor.ExtractUrl | Refibibex.py:51-59 | url is empty exactly when the pattern matches nowhere in the lower-cased block, otherwise the leftmost match's group |
| Extractor.UrlShape | Refibibex.py:51-59 | a found URL starts with http:// or https:// and holds no whitespace and no capital |
| Extractor.ExtractAccessed | Refibibex.py:52-60 | accessed is empty when nothing matches, otherwise the capitalised strip of the rest of the line after the leftmost keyword |
| Extractor.ExtractInstitution | Refibibex.py:53-61 | institution is empty exactly when nothing matches, otherwise the title-cased whole leftmost match |
| Extractor.InstitutionNamesKeyword | Refibibex.py:53-61 | a non-empty institution begins with "Universidade", "Instituto" or "Faculdade" |
| Extractor.TitleInsideSurname | Refibibex.py:49-57 | a block starting "SILVA, " gets the title "ILVA" |
| Extractor.AuthorStopsAtAccent | Refibibex.py:48-56 | a block starting "SILVA, Jo" gets the author "Silva, J" |
| Formatter.Formatted | Refibibex.py:64-102 | the style dispatch: bibtex, abnt, apa, custom, otherwise the unknown-style text |
| Formatter.Bibtex | Refibibex.py:67-78 | the header, the selected field lines joined by ",\n", and "\n}" |
| Formatter.Abnt | Refibibex.py:80-90 | the upper-cased author, the title and the suffix chosen by type |
| Formatter.Apa | Refibibex.py:92-96 | author, year and title, with " Retrieved from " + url when there is a url |
| Formatter.Custom | Refibibex.py:98-99 | "[year] author - title [type]" |
| Formatter.TerminatedIsJoin | Refibibex.py:68-77 | lines each followed by the separator are their join plus one separator |
| Formatter.RStripLastSeparator | Refibibex.py:77 | `rstrip(",\n")` removes exactly the final ",\n" after text ending in another character |
| Formatter.FormatReference | Refibibex.py:64-102 | the step-by-step formatter returns `Formatted` for every style, record and type |
| Formatter.AbntReference | Refibibex.py:80-90 | the abnt branch returns `Abnt` |
| Formatter.BibtexEntry | Refibibex.py:67-78 | the `+=` construction followed by `rstrip` returns the header, the joined field lines and "\n}" |
| Formatter.AppendFieldLines | Refibibex.py:68-76 | after the `+=` steps the entry is the header then every selected field line with its ",\n" |
| Formatter.AppendField | Refibibex.py:69-76 | one `+=` step appends one field line and its separator |
| Formatter.StripsToBody | Refibibex.py:77 | `rstrip` on the built entry removes only the separator after the last field |
| Formatter.BibtexFieldSelection | Refibibex.py:69-76 | author, title, year first; url and note exactly for misc with a URL; school exactly for a thesis with an institution; no key twice |
| Formatter.BibtexShape | Refibibex.py:67-78 | a bibtex entry starts `@type{key,` and a newline and ends `}\n}`, with no comma before the closing brace |
| Formatter.AbntShape | Refibibex.py:80-90 | abnt starts with the capitalised author and the title, ends with a full stop, and has only the year as suffix outside the theses and misc-with-URL |
| Formatter.ApaRetrieved | Refibibex.py:92-96 | apa ends in " Retrieved from " + url exactly when the url is non-empty, and ignores the type |
| Formatter.CustomIgnoresOtherFields | Refibibex.py:98-99 | custom is exactly "[year] author - title [type]" and reads no other field |
| Formatter.UnknownStyle | Refibibex.py:101-102 | any other style gives "Formato desconhecido: " + style |
| Formatter.UnknownAuthorKey | Refibibex.py:56-65 | a record with the default author gets the key "desconhecido" + year |
| Formatter.WhitespaceAuthorKey | Refibibex.py:48-65 | a block that starts with whitespace followed by a character outside `[A-Z\s,.]` gets the empty author and the key "anon" + year |
| Blocks.SplitFrom | Refibibex.py:127 | the pieces of the text from a position on, at least one |
| Blocks.SplitBlocks | Refibibex.py:127 | `re.split(r'\n\s*\n', t)` gives at least one piece, and `[""]` for the empty text |
| Blocks.LastNewlineEnd | Refibibex.py:127 | where `\s*` gives back to so that the separator can end on a newline |
| Blocks.SepAt | Refibibex.py:127 | one attempt of `\n\s*\n` reports the longest separator at the position, or there is none |
| Blocks.SplitBlocksNoBlankLine | Refibibex.py:127 | no block of the split contains a separator |
| Blocks.SplitJoin | Refibibex.py:116-127 | splitting well-formed blocks joined with "\n\n" gives the blocks back |
| Blocks.SplitStrippedNonBlank | Refibibex.py:127-131 | a non-empty stripped text splits into blocks that are all non-blank |
| Entries.NonBlankMembers | Refibibex.py:131 | the kept blocks are exactly the non-blank blocks of the split |
| Entries.NonBlank | Refibibex.py:131 | the blocks whose strip is not empty, in order, never more than were given |
| Entries.EntryFor | Refibibex.py:132-135 | the formatted text of a block for txt and bib, its record otherwise |
| Entries.DocumentEntries | Refibibex.py:127-135 | the entries of the non-blank blocks of the stripped document's split |
| Entries.NonBlankKeepsAll | Refibibex.py:131 | with no blank block, nothing is skipped |
| Entries.EveryBlockIsEntry | Refibibex.py:127-135 | a document with a visible character yields exactly one entry per block of its split |
| Entries.BlankDocument | Refibibex.py:127-135 | a blank document yields no entry |
| Entries.EntryKinds | Refibibex.py:135 | txt and bib keep formatted texts only, every other format keeps records only |
| Batch.ProcessReferences | Refibibex.py:127-135 | the loop returns the entries of the non-blank blocks of the stripped document's split |
| Batch.ProcessBlocks | Refibibex.py:129-135 | the loop keeps one entry per non-blank block, in order |
| Batch.ProcessReference | Refibibex.py:132-135 | the loop body gives the formatted text for txt and bib and the record otherwise |
| Exporter.Extension | Refibibex.py:105-110 | ".bib" for bib, the style glued to ".json" or ".yaml", and the style glued to ".txt" for txt and any unknown format |
| Exporter.OutputPath | Refibibex.py:112 | every ".txt" of the input name replaced by the extension |
| Exporter.ExportBody | Refibibex.py:114-120 | the "\n\n" join of the texts for txt and bib, a failed join when a txt or bib export meets a record, the dump of the records for json and yaml, nothing for any other format |
| Exporter.ExportReferences | Refibibex.py:104-120 | the output path with the body written there |
| Exporter.ReplaceTxtSuffix | Refibibex.py:112 | replacing ".txt" in stem + ".txt", with no ".txt" in the stem, gives stem + extension |
| Exporter.OutputPathOfTxtFile | Refibibex.py:105-112 | the input "<stem>.txt" is exported to "<stem>" followed by the extension |
| Exporter.OutputPathWithoutTxt | Refibibex.py:112 | an input name without ".txt" is also the output name |
| Exporter.OutputPathExample | Refibibex.py:105-112 | "refs.txt" in apa and json becomes "refsapa.json" |
| Exporter.Texts | Refibibex.py:116 | the entries' texts exist exactly when every entry is a text, in order |
| Exporter.TextExportJoinsReferences | Refibibex.py:115-116 | a txt or bib export is the formatted references joined by "\n\n", and the join never meets a record |
| Exporter.UnknownFormatWritesNothing | Refibibex.py:115-120 | an unknown format writes nothing, though the records were collected |
| Exporter.TextExportSplitsBack | Refibibex.py:116-127 | splitting a txt export of well-formed texts gives the texts back |
| Exporter.StyleChoice | Refibibex.py:150-151 | the style menu always yields one of the four styles, and bibtex for any other option |
| Exporter.FormatChoice | Refibibex.py:156-157 | the format menu always yields one of the four formats, and txt for any other option |
| Exporter.MenusReachKnownBranches | Refibibex.py:150-159 | through the menus the formatter never reports an unknown style and the export is never empty or a failed join |
| Exporter.KnownStyleIsFormatted | Refibibex.py:64-102 | the four known styles never give the unknown-style text |

## Left out

- File I/O: reading the input (Refibibex.py:125-126) and writing the output
  (Refibibex.py:114-120). The document is a string parameter, and the export is the path
  plus the content it would write.
- The `json.dump` and `yaml.dump` serialisations (Refibibex.py:117-120). Their content is
  the opaque `Dumped` body; indentation and Unicode escaping are not modelled.
- `print`, `input`, the existence check of the input file and the prompts of `run_cli`
  (Refibibex.py:139-165). Only the two menu maps are modelled.
- The unused `uuid` import.
- Converter.py (PDF/DOCX conversion through third-party libraries) is not part of this model.
- Unicode beyond Latin-1:
  - case mapping (`lower`, `upper`, `title`, `capitalize`) and `\w` (used by `\b`) are
    modelled for ASCII and Latin-1;
  - ß, ÿ and µ are left unchanged by `upper`, `title` and `capitalize`, although Python
    maps them outside Latin-1 ("SS" or "Ss", "Ÿ", "Μ"). `capitalize` reaches this for the
    access date (Refibibex.py:60) when it starts with one of them;
  - ª and º are lower-case letters without an upper case, as in Python, so they are
    cased for `title`;
  - `\d` is ASCII digits only;
  - `\s` is the full `str.isspace` set.
- A `"\n\n".join` over records would raise in Python. It is the `JoinFails` body; the
  exception is not modelled.
- The default arguments `style="bibtex"` of `format_reference` and `style="bibtex",
  format_out="txt"` of `process_references` (Refibibex.py:64, Refibibex.py:124). Every
  call is modelled with both arguments given.
- The type tag that `process_references` computes for a json or yaml entry is discarded,
  as in the source.
- Exporter.TextExportSplitsBack: states the round trip only for texts that are well-formed
  blocks (non-empty, no surrounding whitespace, no blank line). Other texts need not
  survive a txt export.
