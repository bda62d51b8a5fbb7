/** How both scripts turn their two input files into the name string and the
    list of abstracts. The file contents are inputs: the genus list as the
    lines `readlines` returns, the abstracts file as one text. Both scripts
    do this identically; only the character clean-up differs (modules
    IdentifyGenusNames and Code). */
module Inputs {
  import opened Text

  /** Two blank lines separate the abstracts in the abstracts file. */
  const AbstractDelimiter: string := "\n\n\n"

  /** `[n.strip('\n') for n in taxon_names]` */
  function StrippedLines(lines: seq<string>): (r: seq<string>)
  {
    seq(|lines|, k requires 0 <= k < |lines| => StripNewlines(lines[k]))
  }

  /** `' '.join(...)` of the stripped lines: the reference vocabulary. */
  function TaxonNames(lines: seq<string>): (r: string)
  {
    Join(" ", StrippedLines(lines))
  }

  /** `f.read().split("\n\n\n")`: the raw abstracts, in file order. */
  function Documents(text: string): (r: seq<string>)
  {
    Split(text, AbstractDelimiter)
  }

  /** Given lines as `readlines` delivers them, the name string has no line
      break in it, and it is as long as all stripped names together plus one
      space between each two neighbours. */
  lemma TaxonNamesShape(lines: seq<string>)
    requires forall k :: 0 <= k < |lines| ==> IsReadLine(lines[k])
    ensures Newline !in TaxonNames(lines)
    ensures |lines| > 0 ==> |TaxonNames(lines)| == TotalLength(StrippedLines(lines)) + |lines| - 1
  {
    var names := StrippedLines(lines);
    forall k | 0 <= k < |names| ensures Newline !in names[k] {
      StripReadLine(lines[k]);
    }
    JoinAvoids(" ", names, Newline);
    if |lines| > 0 {
      JoinLength(" ", names);
    }
  }

  /** Each stripped name is its line without the terminator, so a name string
      built from `readlines` output loses exactly one character per line that
      ended in a newline. */
  lemma StrippedLineIsLineBody(lines: seq<string>, k: nat)
    requires k < |lines| && IsReadLine(lines[k])
    ensures StrippedLines(lines)[k] ==
            if |lines[k]| > 0 && lines[k][|lines[k]| - 1] == Newline then lines[k][..|lines[k]| - 1] else lines[k]
  {
    StripReadLine(lines[k]);
  }

  /** The names are neither deduplicated nor reordered: as long as no name
      holds a space, cutting the name string at its spaces gives back the
      stripped lines one for one. */
  lemma TaxonNamesKeepsEveryName(lines: seq<string>)
    requires |lines| > 0
    requires forall k :: 0 <= k < |lines| ==> ' ' !in StrippedLines(lines)[k]
    ensures Split(TaxonNames(lines), " ") == StrippedLines(lines)
  {
    SplitJoin(StrippedLines(lines), ' ');
  }

  /** A genus list "Rosa\nQuercus\n" gives the name string "Rosa Quercus". */
  lemma TaxonNamesExample()
    ensures TaxonNames(["Rosa\n", "Quercus\n"]) == "Rosa Quercus"
  {
    StripReadLine("Rosa\n");
    StripReadLine("Quercus\n");
    assert "Rosa\n"[..4] == "Rosa";
    assert "Quercus\n"[..7] == "Quercus";
    var names := StrippedLines(["Rosa\n", "Quercus\n"]);
    assert names == ["Rosa", "Quercus"];
    assert names[1..] == ["Quercus"];
  }

  /** Joining the abstracts with the delimiter gives back the file text, no
      abstract contains the delimiter, and a text without the delimiter is a
      single abstract (it is not an error). */
  lemma DocumentsSpec(text: string)
    ensures Join(AbstractDelimiter, Documents(text)) == text
    ensures forall d :: d in Documents(text) ==> !Contains(d, AbstractDelimiter)
    ensures |Documents(text)| == 1 <==> !Contains(text, AbstractDelimiter)
  {
    JoinSplit(text, AbstractDelimiter);
    SplitPiecesAvoidSeparator(text, AbstractDelimiter);
    SplitSinglePiece(text, AbstractDelimiter);
  }

  /** "A\n\n\nB\n\n\nC" holds the three abstracts "A", "B" and "C". */
  lemma DocumentsExample()
    ensures Documents("A\n\n\nB\n\n\nC") == ["A", "B", "C"]
  {
    var d := AbstractDelimiter;
    assert "A\n\n\nB\n\n\nC" == "A" + d + ("B" + d + "C");
    SplitAfterPiece("A", d, "B" + d + "C");
    SplitAfterPiece("B", d, "C");
    forall k: nat ensures !OccursAt("C", d, k) { }
    SplitWithoutSeparator("C", d);
  }

  /** A text made of two delimited abstracts is read as exactly those two,
      as long as neither holds the delimiter and the first does not end in a
      line break (which would move the cut one character to the left). */
  lemma TwoDocuments(first: string, second: string)
    requires !Contains(first, AbstractDelimiter) && !Contains(second, AbstractDelimiter)
    requires first == [] || first[|first| - 1] != Newline
    ensures Documents(first + AbstractDelimiter + second) == [first, second]
  {
    var d := AbstractDelimiter;
    var s := first + d + second;
    forall k: nat | k < |first| ensures !OccursAt(s, d, k) {
      if k + |d| <= |first| {
        assert s[k..k + |d|] == first[k..k + |d|];
        assert !OccursAt(first, d, k);
      } else if k + |d| <= |s| {
        var j := |first| - 1 - k;
        assert s[k..k + |d|][j] == first[|first| - 1];
      }
    }
    SplitAfter(first, d, second);
    SplitWithoutSeparator(second, d);
  }
}
