/** Reference-type classification: `detect_reference_type` in Refibibex.py,
    an ordered chain of tests on the lower-cased block where the first test
    that succeeds decides the tag. */
module Classifier {
  import opened PyText

  /** The closed set of tags the classifier can return. */
  datatype RefType = Misc | PhdThesis | MastersThesis | InProceedings | Article | TechReport | InCollection | Book
  {
    /** The tag as the source spells it (bibtex entry type, custom style). */
    function Name(): string {
      match this
      case Misc => "misc"
      case PhdThesis => "phdthesis"
      case MastersThesis => "mastersthesis"
      case InProceedings => "inproceedings"
      case Article => "article"
      case TechReport => "techreport"
      case InCollection => "incollection"
      case Book => "book"
    }

    /** Position of this tag's test in the if/elif chain. */
    function Rank(): nat {
      match this
      case Misc => 0
      case PhdThesis => 1
      case MastersThesis => 2
      case InProceedings => 3
      case Article => 4
      case TechReport => 5
      case InCollection => 6
      case Book => 7
    }
  }

  // ---------------------------------------------------------------------
  // The volume marker `v.\s*\d+`

  /** `\s*` may stop before j: every position from `from` to j is whitespace. */
  predicate SpacesTo(s: string, from: nat, j: nat) {
    AllIn(s, from, j, IsSpace)
  }

  /** `v.\s*\d+` matches at position i: a `v`, one character other than a
      newline (the dot is not escaped), optional whitespace, then a digit. */
  predicate VolumeMarkerAt(s: string, i: nat) {
    i + 2 <= |s| && s[i] == 'v' && s[i + 1] != '\n'
    && exists j | i + 2 <= j < |s| :: SpacesTo(s, i + 2, j) && IsDigit(s[j])
  }

  /** The scanner for `re.search(r"v.\s*\d+", s)` from position `from`: at each
      start it lets `\s*` take the whole whitespace run, since giving any of it
      back would put whitespace where a digit is needed. */
  function VolumeMarkerFrom(s: string, from: nat): bool
    requires from <= |s|
    decreases |s| - from
  {
    if from + 2 > |s| then false
    else
      var j := from + 2 + Run(s, from + 2, IsSpace);
      (s[from] == 'v' && s[from + 1] != '\n' && j < |s| && IsDigit(s[j]))
      || VolumeMarkerFrom(s, from + 1)
  }

  /** At one position, the greedy test is exactly the regex match. */
  lemma VolumeMarkerAtGreedy(s: string, i: nat)
    requires i + 2 <= |s|
    ensures var j := i + 2 + Run(s, i + 2, IsSpace);
      VolumeMarkerAt(s, i) <==> (s[i] == 'v' && s[i + 1] != '\n' && j < |s| && IsDigit(s[j]))
  {
    var j := i + 2 + Run(s, i + 2, IsSpace);
    if VolumeMarkerAt(s, i) {
      MarkerDigitAt(s, i);
    }
    if s[i] == 'v' && s[i + 1] != '\n' && j < |s| && IsDigit(s[j]) {
      assert SpacesTo(s, i + 2, j);
    }
  }

  /** The digit of a volume marker is the first character after the
      whitespace run. */
  lemma MarkerDigitAt(s: string, i: nat)
    requires VolumeMarkerAt(s, i)
    ensures var j := i + 2 + Run(s, i + 2, IsSpace); j < |s| && IsDigit(s[j])
  {
    var j' :| i + 2 <= j' < |s| && SpacesTo(s, i + 2, j') && IsDigit(s[j']);
    DigitEndsSpaces(s, i + 2, j');
  }

  /** A digit after whitespace is where the whitespace run ends. */
  lemma DigitEndsSpaces(s: string, from: nat, j: nat)
    requires from <= j < |s| && SpacesTo(s, from, j) && IsDigit(s[j])
    ensures j == from + Run(s, from, IsSpace)
  {
    assert !IsSpace(s[j]);
    RunIsMaximal(s, from, IsSpace, j);
  }

  /** The scanner finds a volume marker exactly when one starts at or after `from`. */
  lemma {:induction false} VolumeMarkerFromIsSearch(s: string, from: nat)
    requires from <= |s|
    ensures VolumeMarkerFrom(s, from) <==> exists i | from <= i :: VolumeMarkerAt(s, i)
    decreases |s| - from
  {
    if from + 2 <= |s| {
      VolumeMarkerAtGreedy(s, from);
      VolumeMarkerFromIsSearch(s, from + 1);
      if VolumeMarkerAt(s, from) {
        assert VolumeMarkerFrom(s, from);
      } else if VolumeMarkerFrom(s, from + 1) {
        var i :| from + 1 <= i && VolumeMarkerAt(s, i);
        assert from <= i;
      } else {
        assert !VolumeMarkerFrom(s, from);
        forall i | from <= i ensures !VolumeMarkerAt(s, i) {
          if i != from {
            assert from + 1 <= i;
          }
        }
      }
    }
  }

  // ---------------------------------------------------------------------
  // The classifier

  /** A block that mentions "disponível em:" in any case is `misc`, whatever
      else it contains, and no other block is. */
  function DetectReferenceType(text: string): (r: RefType)
    ensures r == Misc <==> Contains(Lower(text), "disponível em:")
  {
    var t := Lower(text);
    if Contains(t, "disponível em:") then Misc
    else if Contains(t, "tese de doutorado") then PhdThesis
    else if Contains(t, "dissertação de mestrado") then MastersThesis
    else if Contains(t, "anais") || Contains(t, "congresso") then InProceedings
    else if Contains(t, "revista") || VolumeMarkerFrom(t, 0) then Article
    else if Contains(t, "rfc") then TechReport
    else if Contains(t, "in:") then InCollection
    else Book
  }

  /** The evidence each tag's test looks for in the lower-cased text, stated
      with the declarative volume-marker match. */
  ghost predicate Signals(t: string, k: RefType) {
    match k
    case Misc => Contains(t, "disponível em:")
    case PhdThesis => Contains(t, "tese de doutorado")
    case MastersThesis => Contains(t, "dissertação de mestrado")
    case InProceedings => Contains(t, "anais") || Contains(t, "congresso")
    case Article => Contains(t, "revista") || exists i :: VolumeMarkerAt(t, i)
    case TechReport => Contains(t, "rfc")
    case InCollection => Contains(t, "in:")
    case Book => true
  }

  /** The classifier returns the highest-priority tag whose evidence is in
      the lower-cased block: that tag's test succeeds and every earlier test
      fails. In particular `book` comes back only when all seven other tests
      fail, and a block mentioning "disponível em:" is `misc` whatever else
      it contains. */
  lemma DetectIsFirstSignal(text: string)
    ensures Signals(Lower(text), DetectReferenceType(text))
    ensures forall k: RefType | k.Rank() < DetectReferenceType(text).Rank() :: !Signals(Lower(text), k)
  {
    var t := Lower(text);
    VolumeMarkerFromIsSearch(t, 0);
    ChosenSignals(text);
    forall k: RefType | k.Rank() < DetectReferenceType(text).Rank() ensures !Signals(t, k) {
      EarlierSilent(text, k);
    }
  }

  lemma ChosenSignals(text: string)
    requires VolumeMarkerFrom(Lower(text), 0) <==> exists i :: VolumeMarkerAt(Lower(text), i)
    ensures Signals(Lower(text), DetectReferenceType(text))
  {
  }

  lemma EarlierSilent(text: string, k: RefType)
    requires VolumeMarkerFrom(Lower(text), 0) <==> exists i :: VolumeMarkerAt(Lower(text), i)
    requires k.Rank() < DetectReferenceType(text).Rank()
    ensures !Signals(Lower(text), k)
  {
  }

  /** The unescaped dot makes a month abbreviation such as "nov 2020" read
      as a volume number. */
  lemma MonthReadsAsVolume()
    ensures VolumeMarkerAt("nov 2020", 2)
  {
    var s := "nov 2020";
    assert SpacesTo(s, 4, 4) && IsDigit(s[4]);
  }
}
