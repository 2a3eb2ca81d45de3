/** What the batch step of `process_references` in Refibibex.py collects:
    the document is stripped, cut into blocks at blank lines, blank blocks
    are skipped, and every other block becomes one entry, in order. */
module Entries {
  import opened PyText
  import opened Classifier
  import opened Extractor
  import opened Formatter
  import opened Blocks

  // ---------------------------------------------------------------------
  // The accumulation loop

  /** What the loop keeps for one block: the formatted text for the txt and
      bib formats, the extracted record (without its type) otherwise. */
  datatype Entry = Text(text: string) | Record(fields: Fields)

  function EntryFor(block: string, style: string, formatOut: string): Entry {
    var data := ExtractData(block);
    if formatOut == "txt" || formatOut == "bib" then Text(Formatted(data, DetectReferenceType(block), style))
    else Record(data)
  }

  /** The blocks `if ref.strip()` lets through, in their order. */
  function NonBlank(bs: seq<string>): (r: seq<string>)
    ensures |r| <= |bs|
    decreases |bs|
  {
    if bs == [] then []
    else
      var last := bs[|bs| - 1];
      NonBlank(bs[..|bs| - 1]) + (if Strip(last) != [] then [last] else [])
  }

  /** The filter keeps exactly the blocks that are not blank. */
  lemma {:induction false} NonBlankMembers(bs: seq<string>)
    ensures forall b | b in NonBlank(bs) :: b in bs && !Blank(b)
    ensures forall b | b in bs && !Blank(b) :: b in NonBlank(bs)
    decreases |bs|
  {
    if bs != [] {
      var init, last := bs[..|bs| - 1], bs[|bs| - 1];
      NonBlankMembers(init);
      assert bs == init + [last];
      StripEmptyIffBlank(last);
    }
  }

  function EntriesOf(blocks: seq<string>, style: string, formatOut: string): (r: seq<Entry>)
    ensures |r| == |blocks|
    ensures forall k | 0 <= k < |blocks| :: r[k] == EntryFor(blocks[k], style, formatOut)
  {
    seq(|blocks|, k requires 0 <= k < |blocks| => EntryFor(blocks[k], style, formatOut))
  }

  /** The entries of a whole document. */
  function DocumentEntries(rawText: string, style: string, formatOut: string): seq<Entry> {
    EntriesOf(NonBlank(SplitBlocks(Strip(rawText))), style, formatOut)
  }

  lemma EntryStep(ref: string, style: string, formatOut: string, data: Fields, refType: RefType, formatted: string)
    requires data == ExtractData(ref) && refType == DetectReferenceType(ref)
    requires formatted == Formatted(data, refType, style)
    ensures EntryFor(ref, style, formatOut)
         == if formatOut == "txt" || formatOut == "bib" then Text(formatted) else Record(data)
  {
  }

  lemma NonBlankStep(refs: seq<string>, i: nat)
    requires i < |refs|
    ensures NonBlank(refs[..i + 1]) == NonBlank(refs[..i]) + (if Strip(refs[i]) != [] then [refs[i]] else [])
  {
    assert refs[..i + 1][..i] == refs[..i];
  }

  lemma EntriesOfAppend(blocks: seq<string>, b: string, style: string, formatOut: string)
    ensures EntriesOf(blocks + [b], style, formatOut) == EntriesOf(blocks, style, formatOut) + [EntryFor(b, style, formatOut)]
  {
  }

  /** With no blank block, nothing is skipped. */
  lemma {:induction false} NonBlankKeepsAll(bs: seq<string>)
    requires forall k | 0 <= k < |bs| :: !Blank(bs[k])
    ensures NonBlank(bs) == bs
    decreases |bs|
  {
    if bs != [] {
      var init, last := bs[..|bs| - 1], bs[|bs| - 1];
      assert bs == init + [last];
      forall k | 0 <= k < |init| ensures !Blank(init[k]) {
        assert init[k] == bs[k];
      }
      NonBlankKeepsAll(init);
      StripEmptyIffBlank(last);
      NonBlankKeepsLast(init, last);
      calc {
        NonBlank(bs);
        NonBlank(init + [last]);
        NonBlank(init) + [last];
        init + [last];
      }
    }
  }

  lemma NonBlankKeepsLast(init: seq<string>, last: string)
    requires Strip(last) != []
    ensures NonBlank(init + [last]) == NonBlank(init) + [last]
  {
    assert (init + [last])[..|init|] == init;
  }

  /** A document with any visible character yields one entry per block of
      its split: the blank-block test never fires. */
  lemma EveryBlockIsEntry(rawText: string, style: string, formatOut: string)
    requires !Blank(rawText)
    ensures DocumentEntries(rawText, style, formatOut) == EntriesOf(SplitBlocks(Strip(rawText)), style, formatOut)
  {
    StripEmptyIffBlank(rawText);
    var blocks := SplitBlocks(Strip(rawText));
    SplitStrippedNonBlank(Strip(rawText));
    forall k | 0 <= k < |blocks| ensures !Blank(blocks[k]) {
      assert blocks[k] in blocks;
    }
    NonBlankKeepsAll(blocks);
  }

  /** A blank document yields no entry. */
  lemma BlankDocument(rawText: string, style: string, formatOut: string)
    requires Blank(rawText)
    ensures DocumentEntries(rawText, style, formatOut) == []
  {
    StripEmptyIffBlank(rawText);
    assert SplitBlocks(Strip(rawText)) == [""];
    StripEmptyIffBlank("");
  }

  /** The txt and bib formats keep text only, the others records only. */
  lemma EntryKinds(rawText: string, style: string, formatOut: string)
    ensures formatOut == "txt" || formatOut == "bib" ==>
      forall x | x in DocumentEntries(rawText, style, formatOut) :: x.Text?
    ensures formatOut != "txt" && formatOut != "bib" ==>
      forall x | x in DocumentEntries(rawText, style, formatOut) :: x.Record?
  {
  }
}

/** The loop of `process_references` in Refibibex.py. */
module Batch {
  import opened PyText
  import opened Classifier
  import opened Extractor
  import opened Formatter
  import opened Blocks
  import opened Entries

  /** `process_references` up to the export: split, skip, classify, extract,
      format and collect. */
  method ProcessReferences(rawText: string, style: string, formatOut: string) returns (entries: seq<Entry>)
    ensures entries == DocumentEntries(rawText, style, formatOut)
  {
    var refs := SplitBlocks(Strip(rawText));
    entries := ProcessBlocks(refs, style, formatOut);
  }

  /** The loop over the blocks: one entry per non-blank block, in order. */
  method ProcessBlocks(refs: seq<string>, style: string, formatOut: string) returns (entries: seq<Entry>)
    ensures entries == EntriesOf(NonBlank(refs), style, formatOut)
  {
    entries := [];
    for i := 0 to |refs|
      invariant entries == EntriesOf(NonBlank(refs[..i]), style, formatOut)
    {
      var ref := refs[i];
      NonBlankStep(refs, i);
      if Strip(ref) != [] {
        var entry := ProcessReference(ref, style, formatOut);
        EntriesOfAppend(NonBlank(refs[..i]), ref, style, formatOut);
        entries := entries + [entry];
      }
    }
    assert refs[..|refs|] == refs;
  }

  /** The body of the loop for one non-blank block. */
  method ProcessReference(ref: string, style: string, formatOut: string) returns (entry: Entry)
    ensures entry == EntryFor(ref, style, formatOut)
  {
    var refType := DetectReferenceType(ref);
    var data := ExtractData(ref);
    var formatted := FormatReference(data, refType, style);
    entry := if formatOut == "txt" || formatOut == "bib" then Text(formatted) else Record(data);
    EntryStep(ref, style, formatOut, data, refType, formatted);
  }
}
