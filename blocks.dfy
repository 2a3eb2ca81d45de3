/** How `process_references` in Refibibex.py cuts a document into blocks:
    `re.split(r'\n\s*\n', …)`, a split at every line that holds only
    whitespace. */
module Blocks {
  import opened PyText

  // ---------------------------------------------------------------------
  // The separator `\n\s*\n`

  /** The separator matches t[i..e]: a newline, whitespace, and a newline
      that ends the match. */
  predicate SepMatch(t: string, i: nat, e: nat) {
    i < |t| && t[i] == '\n' && i + 2 <= e <= |t| && AllIn(t, i + 1, e - 1, IsSpace) && t[e - 1] == '\n'
  }

  /** The match the engine reports at i: `\s*` first takes the whole
      whitespace run and gives back only down to its last newline. */
  ghost predicate SepPick(t: string, i: nat, e: nat) {
    SepMatch(t, i, e) && forall e': nat | e < e' :: !SepMatch(t, i, e')
  }

  /** The end of the last newline in t[lo..hi]. */
  function LastNewlineEnd(t: string, lo: nat, hi: nat): (r: Option<nat>)
    requires lo <= hi <= |t|
    ensures r.Some? ==> lo < r.value <= hi && t[r.value - 1] == '\n'
    ensures r.Some? ==> forall k | r.value <= k < hi :: t[k] != '\n'
    ensures r.None? ==> forall k | lo <= k < hi :: t[k] != '\n'
    decreases hi - lo
  {
    if hi == lo then None
    else if t[hi - 1] == '\n' then Some(hi)
    else LastNewlineEnd(t, lo, hi - 1)
  }

  /** One attempt of the separator at position i. */
  function SepAt(t: string, i: nat): (r: Option<nat>)
    requires i <= |t|
    ensures r.Some? ==> SepPick(t, i, r.value)
    ensures r.None? ==> forall e: nat :: !SepMatch(t, i, e)
  {
    if i < |t| && t[i] == '\n' then
      RunBound(t, i + 1, IsSpace);
      LastNewlineEnd(t, i + 1, i + 1 + Run(t, i + 1, IsSpace))
    else None
  }

  // ---------------------------------------------------------------------
  // re.split

  /** The pieces of t from `start`, the search having reached `pos`: the
      current piece ends where the leftmost separator at or after `pos`
      starts, and the next piece starts where that separator ends. */
  function SplitFrom(t: string, start: nat, pos: nat): (r: seq<string>)
    requires start <= pos <= |t|
    ensures |r| >= 1
    decreases |t| - pos
  {
    if pos == |t| then [t[start..]]
    else match SepAt(t, pos)
      case Some(e) => [t[start..pos]] + SplitFrom(t, e, e)
      case None => SplitFrom(t, start, pos + 1)
  }

  /** `re.split(r'\n\s*\n', t)`: always at least one piece, the empty
      text giving one empty piece. */
  function SplitBlocks(t: string): (r: seq<string>)
    ensures |r| >= 1
    ensures t == [] ==> r == [""]
  {
    SplitFrom(t, 0, 0)
  }

  /** The separator occurs nowhere in s. */
  ghost predicate NoBlankLine(s: string) {
    forall i: nat, e: nat :: !SepMatch(s, i, e)
  }

  /** A separator inside t[a..b] is a separator of t. */
  lemma SepMatchLifts(t: string, a: nat, b: nat, i: nat, e: nat)
    requires a <= b <= |t|
    ensures SepMatch(t[a..b], i, e) ==> SepMatch(t, a + i, a + e)
    ensures a + e <= b ==> SepMatch(t, a + i, a + e) ==> SepMatch(t[a..b], i, e)
  {
    var s := t[a..b];
    assert forall k | 0 <= k < |s| :: s[k] == t[a + k];
  }

  /** No piece `SplitFrom` returns holds a separator, given that none starts
      between `start` and `pos`. */
  lemma {:induction false} SplitFromNoBlankLine(t: string, start: nat, pos: nat)
    requires start <= pos <= |t|
    requires forall k: nat | start <= k < pos :: SepAt(t, k).None?
    ensures forall p | p in SplitFrom(t, start, pos) :: NoBlankLine(p)
    decreases |t| - pos
  {
    if pos == |t| {
      PieceNoBlankLine(t, start, |t|);
      assert t[start..] == t[start..|t|];
    } else {
      match SepAt(t, pos)
      case Some(e) =>
        PieceNoBlankLine(t, start, pos);
        SplitFromNoBlankLine(t, e, e);
      case None =>
        SplitFromNoBlankLine(t, start, pos + 1);
    }
  }

  lemma PieceNoBlankLine(t: string, start: nat, end: nat)
    requires start <= end <= |t|
    requires forall k: nat | start <= k < end :: SepAt(t, k).None?
    ensures NoBlankLine(t[start..end])
  {
    forall i: nat, e: nat ensures !SepMatch(t[start..end], i, e) {
      SepMatchLifts(t, start, end, i, e);
      if start + i < end {
        assert SepAt(t, start + i).None?;
      }
    }
  }

  /** No block of a split holds a blank line. */
  lemma SplitBlocksNoBlankLine(t: string)
    ensures forall p | p in SplitBlocks(t) :: NoBlankLine(p)
  {
    SplitFromNoBlankLine(t, 0, 0);
  }

  // ---------------------------------------------------------------------
  // Splitting undoes joining with a blank line

  /** A block that survives a round trip: non-empty, no whitespace at either
      end, no blank line inside. */
  ghost predicate WellFormedBlock(b: string) {
    b != [] && !IsSpace(b[0]) && !IsSpace(b[|b| - 1]) && NoBlankLine(b)
  }

  /** No separator starts inside a well-formed block, even one that runs on
      into what follows the block. */
  lemma NoSepInBlock(t: string, o: nat, b: string, pos: nat)
    requires o + |b| <= |t| && t[o..o + |b|] == b && WellFormedBlock(b)
    requires o <= pos < o + |b|
    ensures SepAt(t, pos).None?
  {
    forall e: nat ensures !SepMatch(t, pos, e) {
      if o <= e <= o + |b| {
        SepMatchLifts(t, o, o + |b|, pos - o, e - o);
      } else if o + |b| < e {
        assert t[o + |b| - 1] == b[|b| - 1];
        if pos + 1 < o + |b| {
          SepMatchCovers(t, pos, e, o + |b| - 1);
        }
      }
    }
  }

  /** Every character strictly inside a separator is whitespace. */
  lemma SepMatchCovers(t: string, i: nat, e: nat, k: nat)
    requires i < k && k + 1 < e
    ensures SepMatch(t, i, e) ==> IsSpace(t[k])
  {
  }

  /** Scanning across a well-formed block finds no separator. */
  lemma ScanBlock(t: string, o: nat, b: string)
    requires o + |b| <= |t| && t[o..o + |b|] == b && WellFormedBlock(b)
    ensures SplitFrom(t, o, o) == SplitFrom(t, o, o + |b|)
  {
    forall k | o <= k < o + |b| ensures SepAt(t, k).None? {
      NoSepInBlock(t, o, b, k);
    }
    ScanNoSep(t, o, o, o + |b|);
  }

  /** The search moves on past positions where no separator starts. */
  lemma {:induction false} ScanNoSep(t: string, start: nat, pos: nat, end: nat)
    requires start <= pos <= end <= |t|
    requires forall k | pos <= k < end :: SepAt(t, k).None?
    ensures SplitFrom(t, start, pos) == SplitFrom(t, start, end)
    decreases end - pos
  {
    if pos < end {
      ScanNoSep(t, start, pos + 1, end);
    }
  }

  /** Every block of bs is well-formed, block by block. */
  ghost predicate AllWellFormed(bs: seq<string>)
    decreases |bs|
  {
    bs == [] || (WellFormedBlock(bs[0]) && AllWellFormed(bs[1..]))
  }

  lemma {:induction false} AllWellFormedFromIndex(bs: seq<string>)
    requires forall k | 0 <= k < |bs| :: WellFormedBlock(bs[k])
    ensures AllWellFormed(bs)
    decreases |bs|
  {
    if bs != [] {
      forall k | 0 <= k < |bs[1..]| ensures WellFormedBlock(bs[1..][k]) {
        assert bs[1..][k] == bs[k + 1];
      }
      AllWellFormedFromIndex(bs[1..]);
    }
  }

  lemma {:induction false} SplitJoinFrom(t: string, o: nat, bs: seq<string>)
    requires bs != [] && AllWellFormed(bs)
    requires o <= |t| && t[o..] == Join(bs, "\n\n")
    ensures SplitFrom(t, o, o) == bs
    decreases |bs|, 1
  {
    if |bs| == 1 {
      assert t[o..] == bs[0];
      LastBlock(t, o, bs[0]);
    } else {
      SplitJoinCons(t, o, bs);
    }
  }

  /** The inductive step: the first block, then the split of the others. */
  lemma {:induction false} SplitJoinCons(t: string, o: nat, bs: seq<string>)
    requires |bs| >= 2 && AllWellFormed(bs)
    requires o <= |t| && t[o..] == Join(bs, "\n\n")
    ensures SplitFrom(t, o, o) == bs
    decreases |bs|, 0
  {
    var b, rest := bs[0], Join(bs[1..], "\n\n");
    JoinCons(bs, "\n\n");
    JoinStartsWithFirst(bs[1..], "\n\n");
    SplitStep(t, o, b, rest);
    var o' := o + |b| + 2;
    assert SplitFrom(t, o, o) == [b] + SplitFrom(t, o', o') by {
      BlockThenSplit(t, o, b, rest);
    }
    assert SplitFrom(t, o', o') == bs[1..] by {
      SplitJoinFrom(t, o', bs[1..]);
    }
    calc {
      SplitFrom(t, o, o);
      [b] + SplitFrom(t, o', o');
      [b] + bs[1..];
      { assert bs == [b] + bs[1..]; }
      bs;
    }
  }

  /** A well-formed block that runs to the end of the text is the last piece. */
  lemma LastBlock(t: string, o: nat, b: string)
    requires o <= |t| && t[o..] == b && WellFormedBlock(b)
    ensures SplitFrom(t, o, o) == [b]
  {
    assert t[o..o + |b|] == b;
    ScanBlock(t, o, b);
    assert o + |b| == |t|;
  }

  lemma JoinCons(parts: seq<string>, sep: string)
    requires |parts| >= 2
    ensures Join(parts, sep) == parts[0] + sep + Join(parts[1..], sep)
  {
  }

  /** A well-formed block followed by a blank line is the first piece, and
      the split goes on where the text after the blank line starts. */
  lemma BlockThenSplit(t: string, o: nat, b: string, rest: string)
    requires o <= |t| && t[o..] == b + "\n\n" + rest && WellFormedBlock(b)
    requires rest != [] && !IsSpace(rest[0])
    ensures o + |b| + 2 <= |t|
    ensures SplitFrom(t, o, o) == [b] + SplitFrom(t, o + |b| + 2, o + |b| + 2)
  {
    SplitStep(t, o, b, rest);
    SplitAtSep(t, o, o + |b|, o + |b| + 2, b);
    ScanBlock(t, o, b);
  }

  /** After a block, a blank line and text that starts visibly, the
      separator is exactly the blank line. */
  lemma SplitStep(t: string, o: nat, b: string, rest: string)
    requires o <= |t| && t[o..] == b + "\n\n" + rest
    requires rest != [] && !IsSpace(rest[0])
    ensures o + |b| + 2 <= |t| && t[o + |b| + 2..] == rest && t[o..o + |b|] == b
    ensures SepAt(t, o + |b|) == Some(o + |b| + 2)
  {
    BlockThenBlankLine(t, o, b, rest);
    SepAfterBlock(t, o + |b|, rest);
  }

  /** A separator found at `pos` closes the current piece. */
  lemma SplitAtSep(t: string, start: nat, pos: nat, e: nat, piece: string)
    requires start <= pos < |t| && SepAt(t, pos) == Some(e) && t[start..pos] == piece
    ensures SplitFrom(t, start, pos) == [piece] + SplitFrom(t, e, e)
  {
  }

  /** Where a block is followed by "\n\n" and the rest. */
  lemma BlockThenBlankLine(t: string, o: nat, b: string, rest: string)
    requires o <= |t| && t[o..] == b + "\n\n" + rest
    ensures o + |b| + 2 <= |t|
    ensures t[o..o + |b|] == b
    ensures t[o + |b|] == '\n' && t[o + |b| + 1] == '\n'
    ensures t[o + |b| + 2..] == rest
  {
    assert t[o..][..|b|] == b;
    assert t[o..][|b| + 2..] == rest;
  }

  /** "\n\n" before a block that starts with a visible character is one
      separator, and nothing more. */
  lemma SepAfterBlock(t: string, p: nat, rest: string)
    requires p + 2 <= |t| && t[p] == '\n' && t[p + 1] == '\n'
    requires t[p + 2..] == rest && rest != [] && !IsSpace(rest[0])
    ensures SepAt(t, p) == Some(p + 2)
  {
    assert t[p + 2] == rest[0];
    assert Run(t, p + 1, IsSpace) == 1;
  }

  lemma {:induction false} JoinStartsWithFirst(parts: seq<string>, sep: string)
    requires parts != [] && parts[0] != []
    ensures Join(parts, sep) != [] && Join(parts, sep)[0] == parts[0][0]
    decreases |parts|
  {
  }

  /** Joining well-formed blocks with a blank line and splitting gives the
      blocks back. */
  lemma SplitJoin(bs: seq<string>)
    requires bs != [] && forall k | 0 <= k < |bs| :: WellFormedBlock(bs[k])
    ensures SplitBlocks(Join(bs, "\n\n")) == bs
  {
    var t := Join(bs, "\n\n");
    assert t[0..] == t;
    AllWellFormedFromIndex(bs);
    SplitJoinFrom(t, 0, bs);
  }

  // ---------------------------------------------------------------------
  // A stripped document splits into non-blank blocks only

  /** Where a block can begin: at the start of the text, or right after a
      separator, which has swallowed every whitespace stretch up to a
      newline. */
  ghost predicate PieceStart(t: string, start: nat) {
    start == 0 ||
    (0 < start <= |t| && t[start - 1] == '\n' &&
     forall m: nat | start <= m < |t| && AllIn(t, start, m, IsSpace) :: t[m] != '\n')
  }

  /** The end of a reported separator is where a block can begin. */
  lemma PickEndsAtPieceStart(t: string, i: nat, e: nat)
    requires SepPick(t, i, e)
    ensures PieceStart(t, e)
  {
    forall m: nat | e <= m < |t| && AllIn(t, e, m, IsSpace) ensures t[m] != '\n' {
      assert AllIn(t, i + 1, m, IsSpace);
      assert !SepMatch(t, i, m + 1);
    }
  }

  /** A block of a stripped text ends at the end of the text or at a
      newline, and holds a visible character. */
  lemma PieceNonBlank(t: string, start: nat, pos: nat)
    requires t != [] && !IsSpace(t[0]) && !IsSpace(t[|t| - 1])
    requires start <= pos <= |t| && PieceStart(t, start)
    requires pos == |t| || t[pos] == '\n'
    ensures !Blank(t[start..pos])
  {
    var p := t[start..pos];
    if start == 0 {
      assert p[0] == t[0];
    } else if pos == |t| {
      assert p[|p| - 1] == t[|t| - 1];
    } else {
      assert !AllIn(t, start, pos, IsSpace);
      var k :| start <= k < pos && !IsSpace(t[k]);
      assert p[k - start] == t[k];
    }
  }

  lemma {:induction false} SplitFromNonBlank(t: string, start: nat, pos: nat)
    requires t != [] && !IsSpace(t[0]) && !IsSpace(t[|t| - 1])
    requires start <= pos <= |t| && PieceStart(t, start)
    ensures forall p | p in SplitFrom(t, start, pos) :: !Blank(p)
    decreases |t| - pos
  {
    if pos == |t| {
      PieceNonBlank(t, start, pos);
      assert t[start..] == t[start..pos];
    } else {
      match SepAt(t, pos)
      case Some(e) =>
        PieceNonBlank(t, start, pos);
        PickEndsAtPieceStart(t, pos, e);
        SplitFromNonBlank(t, e, e);
      case None =>
        SplitFromNonBlank(t, start, pos + 1);
    }
  }

  /** Splitting a non-empty stripped text gives no blank block. */
  lemma SplitStrippedNonBlank(t: string)
    requires t != [] && !IsSpace(t[0]) && !IsSpace(t[|t| - 1])
    ensures forall p | p in SplitBlocks(t) :: !Blank(p)
  {
    SplitFromNonBlank(t, 0, 0);
  }
}
