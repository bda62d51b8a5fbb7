/** code.py, the earlier variant: clean each abstract by deleting digits and
    then every character outside `[a-zA-Z ]`, and report, as it goes, the
    index of every abstract whose similarity to the genus-name string is
    above 1%. */
module Code {
  import opened Sequences
  import opened Text
  import opened Inputs
  import opened Matching
  import IdentifyGenusNames

  // ------------------------------------------------------------ cleaning

  /** `re.sub("\d", "", s)` */
  function DeleteDigits(a: string): (r: string)
  {
    Sub(IsDigit, "", a)
  }

  /** `re.sub("[^a-zA-Z ]", "", s)` */
  function DeleteSpecials(a: string): (r: string)
  {
    Sub(IsSpecial, "", a)
  }

  /** Both deletions, in the script's order. */
  function Clean(a: string): (r: string)
  {
    DeleteSpecials(DeleteDigits(a))
  }

  /** The abstracts as the script holds them before matching. */
  function Abstracts(text: string): (r: seq<string>)
  {
    var docs := Documents(text);
    seq(|docs|, k requires 0 <= k < |docs| => Clean(docs[k]))
  }

  /** There is one cleaned abstract per piece of the text, no longer than the
      piece and made of letters and spaces only. */
  lemma AbstractsSpec(text: string)
    ensures |Abstracts(text)| == |Documents(text)|
    ensures forall k :: 0 <= k < |Abstracts(text)| ==>
              |Abstracts(text)[k]| <= |Documents(text)[k]| &&
              forall i :: 0 <= i < |Abstracts(text)[k]| ==> IsLetterOrSpace(Abstracts(text)[k][i])
  {
    var docs := Documents(text);
    forall k | 0 <= k < |docs| ensures |Clean(docs[k])| <= |docs[k]| &&
                                      forall i :: 0 <= i < |Clean(docs[k])| ==> IsLetterOrSpace(Clean(docs[k])[i]) {
      var _ := CleanSpec(docs[k]);
    }
  }

  /** Deleting digits keeps every other character, in order, and nothing else,
      so the result is no longer than the input. */
  lemma DeleteDigitsSpec(a: string) returns (idx: seq<nat>)
    ensures SelectsExactly(DeleteDigits(a), a, Outside(IsDigit), idx)
    ensures forall i :: 0 <= i < |DeleteDigits(a)| ==> !IsDigit(DeleteDigits(a)[i])
    ensures |DeleteDigits(a)| <= |a|
  {
    idx := SubDeleteSelects(IsDigit, a);
    SubsequenceNoLonger(DeleteDigits(a), a, idx);
  }

  /** After both steps the text is exactly the input filtered to its letters
      and spaces, in order; the digit step is subsumed by the second. */
  lemma CleanSpec(a: string) returns (idx: seq<nat>)
    ensures Clean(a) == DeleteSpecials(a)
    ensures SelectsExactly(Clean(a), a, Outside(IsSpecial), idx)
    ensures forall i :: 0 <= i < |Clean(a)| ==> IsLetterOrSpace(Clean(a)[i])
    ensures |Clean(a)| <= |a|
  {
    SubAbsorbs(IsDigit, IsSpecial, "", a);
    idx := SubDeleteSelects(IsSpecial, a);
    SubsequenceNoLonger(Clean(a), a, idx);
    forall k | 0 <= k < |Clean(a)| ensures IsLetterOrSpace(Clean(a)[k]) {
      assert idx[k] in idx;
      assert Outside(IsSpecial)(a[idx[k]]);
      assert !IsSpecial(a[idx[k]]);
    }
  }

  /** Cleaning a cleaned abstract changes nothing. */
  lemma CleanIdempotent(a: string)
    ensures Clean(Clean(a)) == Clean(a)
  {
    SubAbsorbs(IsDigit, IsSpecial, "", a);
    SubAbsorbs(IsDigit, IsSpecial, "", Clean(a));
    SubIdempotent(IsSpecial, "", a);
  }

  /** Deleting rather than blanking joins the words on either side of a
      deleted character: two words of an abstract on either side of a line
      break run together, where the later script keeps them apart with a
      space. */
  lemma CleanJoinsWords(u: string, v: string)
    requires forall i :: 0 <= i < |u| ==> IsLetterOrSpace(u[i])
    requires forall i :: 0 <= i < |v| ==> IsLetterOrSpace(v[i])
    ensures Clean(u + [Newline] + v) == u + v
    ensures IdentifyGenusNames.Clean(u + [Newline] + v) == u + " " + v
  {
    var _ := CleanSpec(u + [Newline] + v);
    IdentifyGenusNames.CleanIsOneMap(u + [Newline] + v);
    forall repl: string ensures Sub(IsSpecial, repl, u + [Newline] + v) == u + repl + v {
      SubAppend(IsSpecial, repl, u + [Newline], v);
      SubAppend(IsSpecial, repl, u, [Newline]);
      SubUnchanged(IsSpecial, repl, u);
      SubUnchanged(IsSpecial, repl, v);
      assert Sub(IsSpecial, repl, [Newline]) == repl + Sub(IsSpecial, repl, []);
    }
    assert Sub(IsSpecial, "", u + [Newline] + v) == u + "" + v;
    assert u + "" + v == u + v;
  }

  // ------------------------------------------------------------ matching

  /** The indices the top-level loop reports, in the order it reports them. */
  function MatchIndices(abstracts: seq<string>, names: string, score: Scorer): (r: seq<nat>)
    decreases |abstracts|
  {
    if abstracts == [] then []
    else
      var n := |abstracts| - 1;
      MatchIndices(abstracts[..n], names, score) + (if IsMatch(score, abstracts[n], names) then [n] else [])
  }

  /** The reported indices are strictly increasing, each names an abstract,
      and an index is reported exactly when that abstract scores strictly
      above 1.0. */
  lemma {:induction false} MatchIndicesSpec(abstracts: seq<string>, names: string, score: Scorer)
    ensures StrictlyIncreasing(MatchIndices(abstracts, names, score))
    ensures forall k :: 0 <= k < |MatchIndices(abstracts, names, score)| ==>
              MatchIndices(abstracts, names, score)[k] < |abstracts|
    ensures forall i :: 0 <= i < |abstracts| ==>
              (i in MatchIndices(abstracts, names, score) <==> score(abstracts[i], names) > 1.0)
    decreases |abstracts|
  {
    if abstracts != [] {
      var n := |abstracts| - 1;
      var init := abstracts[..n];
      MatchIndicesSpec(init, names, score);
      forall i | 0 <= i < n ensures abstracts[i] == init[i] { }
    }
  }

  /** An abstract scoring exactly 1.0 is not reported. */
  lemma ThresholdIsStrict(abstracts: seq<string>, names: string, score: Scorer, i: nat)
    requires i < |abstracts| && score(abstracts[i], names) == 1.0
    ensures i !in MatchIndices(abstracts, names, score)
  {
    MatchIndicesSpec(abstracts, names, score);
  }

  /** The two scripts agree: the abstracts identify_genus_names.py returns are
      exactly the abstracts at the indices code.py reports, in that order. */
  lemma ReportedAbstractsAreMatches(abstracts: seq<string>, names: string, score: Scorer)
    ensures SelectsExactly(IdentifyGenusNames.Matches(abstracts, names, score), abstracts,
                           MatchesNames(score, names), MatchIndices(abstracts, names, score))
  {
    var idx := IdentifyGenusNames.MatchesSelects(abstracts, names, score);
    MatchIndicesSpec(abstracts, names, score);
    forall i ensures i in idx <==> i in MatchIndices(abstracts, names, score) {
      if i in idx {
        var k :| 0 <= k < |idx| && idx[k] == i;
      }
      if i in MatchIndices(abstracts, names, score) {
        var k :| 0 <= k < |MatchIndices(abstracts, names, score)| && MatchIndices(abstracts, names, score)[k] == i;
      }
    }
    IncreasingUnique(idx, MatchIndices(abstracts, names, score));
  }

  /** The top-level loop of code.py: score every abstract against the name
      string and report the index of each one above the threshold. */
  method ReportMatches(scientificAbstracts: seq<string>, taxonNames: string, score: Scorer)
    returns (reported: seq<nat>)
    ensures reported == MatchIndices(scientificAbstracts, taxonNames, score)
  {
    reported := [];
    for idx := 0 to |scientificAbstracts|
      invariant reported == MatchIndices(scientificAbstracts[..idx], taxonNames, score)
    {
      var abstr := scientificAbstracts[idx];
      var cosSimAsPerc := score(abstr, taxonNames);
      assert scientificAbstracts[..idx + 1][..idx] == scientificAbstracts[..idx];
      if cosSimAsPerc > Threshold {
        reported := reported + [idx];
      }
    }
    assert scientificAbstracts[..|scientificAbstracts|] == scientificAbstracts;
  }

  /** The worked scenario: the genus list "Rosa\nQuercus\n" and an abstracts
      file with one abstract naming Rosa and one about cars. For any
      similarity that puts the first above 1% and the second at or below it,
      only index 0 is reported. */
  lemma RosaScenario(first: string, second: string, lines: seq<string>, score: Scorer)
    requires first == "This paper studies Rosa flowers." && second == "This paper is about cars."
    requires lines == ["Rosa\n", "Quercus\n"]
    requires score(Clean(first), "Rosa Quercus") > 1.0 && score(Clean(second), "Rosa Quercus") <= 1.0
    ensures MatchIndices(Abstracts(first + AbstractDelimiter + second), TaxonNames(lines), score) == [0]
  {
    TaxonNamesExample();
    AvoidsSeparator(first, AbstractDelimiter);
    AvoidsSeparator(second, AbstractDelimiter);
    assert first[|first| - 1] == '.';
    TwoDocuments(first, second);
    var cleaned := Abstracts(first + AbstractDelimiter + second);
    assert cleaned == [Clean(first), Clean(second)];
    assert cleaned[..1] == [Clean(first)] && cleaned[..1][..0] == [];
    var names := TaxonNames(lines);
    assert MatchIndices(cleaned[..1], names, score) == [0];
    assert MatchIndices(cleaned, names, score) == MatchIndices(cleaned[..1], names, score);
  }
}
