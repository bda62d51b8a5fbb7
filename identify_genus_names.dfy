/** identify_genus_names.py: clean each abstract by turning digits, and then
    every character outside `[a-zA-Z ]`, into a space, and keep, in order,
    the abstracts whose similarity to the genus-name string is above 1%. */
module IdentifyGenusNames {
  import opened Sequences
  import opened Text
  import opened Inputs
  import opened Matching

  // ------------------------------------------------------------ cleaning

  /** `re.sub("\d", " ", a)` */
  function BlankDigits(a: string): (r: string)
  {
    Sub(IsDigit, " ", a)
  }

  /** `re.sub("[^a-zA-Z ]", " ", a)` */
  function BlankSpecials(a: string): (r: string)
  {
    Sub(IsSpecial, " ", a)
  }

  /** Both substitutions, in the script's order. */
  function Clean(a: string): (r: string)
  {
    BlankSpecials(BlankDigits(a))
  }

  /** What cleaning does to one character. */
  function CleanChar(c: char): (r: char)
  {
    if IsLetterOrSpace(c) then c else ' '
  }

  /** The abstracts as the script holds them before matching: cut at the
      delimiter, then each one cleaned. */
  function Abstracts(text: string): (r: seq<string>)
  {
    var docs := Documents(text);
    seq(|docs|, k requires 0 <= k < |docs| => Clean(docs[k]))
  }

  /** Blanking digits keeps the length, leaves no digit, puts a space where
      each digit was and leaves every other character where it was. */
  lemma BlankDigitsSpec(a: string)
    ensures |BlankDigits(a)| == |a|
    ensures forall i :: 0 <= i < |a| ==> !IsDigit(BlankDigits(a)[i])
    ensures forall i :: 0 <= i < |a| ==> BlankDigits(a)[i] == if IsDigit(a[i]) then ' ' else a[i]
  {
    SubByCharPointwise(IsDigit, ' ', a);
  }

  /** After both steps the text has its original length, holds only letters
      and spaces, keeps every letter and space in place and has a space at
      every other position. */
  lemma CleanSpec(a: string)
    ensures |Clean(a)| == |a|
    ensures forall i :: 0 <= i < |a| ==> IsLetterOrSpace(Clean(a)[i])
    ensures forall i :: 0 <= i < |a| ==> (IsLetterOrSpace(a[i]) ==> Clean(a)[i] == a[i])
    ensures forall i :: 0 <= i < |a| ==> (!IsLetterOrSpace(a[i]) ==> Clean(a)[i] == ' ')
  {
    CleanIsOneMap(a);
  }

  /** The digit step is subsumed by the second one: cleaning is the single
      per-character map `CleanChar`. */
  lemma CleanIsOneMap(a: string)
    ensures Clean(a) == BlankSpecials(a)
    ensures |Clean(a)| == |a| && forall i :: 0 <= i < |a| ==> Clean(a)[i] == CleanChar(a[i])
  {
    SubAbsorbs(IsDigit, IsSpecial, " ", a);
    SubByCharPointwise(IsSpecial, ' ', a);
  }

  /** Cleaning a cleaned abstract changes nothing. */
  lemma CleanIdempotent(a: string)
    ensures Clean(Clean(a)) == Clean(a)
  {
    CleanIsOneMap(a);
    CleanIsOneMap(Clean(a));
    SubIdempotent(IsSpecial, " ", a);
  }

  /** There is one cleaned abstract per piece of the text, as long as the
      piece, and made of letters and spaces only. */
  lemma AbstractsSpec(text: string)
    ensures |Abstracts(text)| == |Documents(text)|
    ensures forall k :: 0 <= k < |Abstracts(text)| ==>
              |Abstracts(text)[k]| == |Documents(text)[k]| &&
              forall i :: 0 <= i < |Abstracts(text)[k]| ==> IsLetterOrSpace(Abstracts(text)[k][i])
  {
    var docs := Documents(text);
    forall k | 0 <= k < |docs| ensures |Clean(docs[k])| == |docs[k]| &&
                                      forall i :: 0 <= i < |docs[k]| ==> IsLetterOrSpace(Clean(docs[k])[i]) {
      CleanSpec(docs[k]);
    }
  }

  // ------------------------------------------------------------ matching

  /** The abstracts that `find_via_count_vectorizer` returns: those that
      score above the threshold, in their original order. */
  function Matches(abstracts: seq<string>, names: string, score: Scorer): (r: seq<string>)
    decreases |abstracts|
  {
    if abstracts == [] then []
    else
      var n := |abstracts| - 1;
      Matches(abstracts[..n], names, score) + (if IsMatch(score, abstracts[n], names) then [abstracts[n]] else [])
  }

  /** The result is the in-order subsequence of exactly the abstracts that
      score strictly above 1.0: one that scores exactly 1.0 is left out. */
  lemma {:induction false} MatchesSelects(abstracts: seq<string>, names: string, score: Scorer) returns (idx: seq<nat>)
    ensures SelectsExactly(Matches(abstracts, names, score), abstracts, MatchesNames(score, names), idx)
    decreases |abstracts|
  {
    if abstracts == [] {
      idx := [];
    } else {
      var n := |abstracts| - 1;
      var init := abstracts[..n];
      var prev := MatchesSelects(init, names, score);
      assert abstracts == init + [abstracts[n]];
      if IsMatch(score, abstracts[n], names) {
        SelectsAppendKept(Matches(init, names, score), init, abstracts[n], MatchesNames(score, names), prev);
        idx := prev + [n];
      } else {
        SelectsAppendDropped(Matches(init, names, score), init, abstracts[n], MatchesNames(score, names), prev);
        idx := prev;
      }
    }
  }

  /** No more abstracts come back than went in. */
  lemma MatchesNoLonger(abstracts: seq<string>, names: string, score: Scorer)
    ensures |Matches(abstracts, names, score)| <= |abstracts|
  {
    var idx := MatchesSelects(abstracts, names, score);
    SubsequenceNoLonger(Matches(abstracts, names, score), abstracts, idx);
  }

  /** Each abstract is judged on its own: the matches of a concatenation are
      the matches of each part, concatenated, so neither an abstract's
      position nor its neighbours change whether it is kept. */
  lemma {:induction false} MatchesAppend(a: seq<string>, b: seq<string>, names: string, score: Scorer)
    ensures Matches(a + b, names, score) == Matches(a, names, score) + Matches(b, names, score)
    decreases |b|
  {
    if b == [] {
      assert a + b == a;
    } else {
      var n := |b| - 1;
      assert (a + b)[..|a + b| - 1] == a + b[..n];
      MatchesAppend(a, b[..n], names, score);
    }
  }

  /** The same text scores the same wherever it stands: an abstract is kept
      exactly when it would be kept on its own. */
  lemma MatchesSingle(abstr: string, names: string, score: Scorer)
    ensures Matches([abstr], names, score) == if score(abstr, names) > 1.0 then [abstr] else []
  {
    assert [abstr][..0] == [];
  }

  /** `find_via_count_vectorizer`: score every abstract against the name
      string and collect, in order, those above the threshold. */
  method FindViaCountVectorizer(scientificAbstracts: seq<string>, taxonNames: string, score: Scorer)
    returns (results: seq<string>)
    ensures results == Matches(scientificAbstracts, taxonNames, score)
  {
    results := [];
    for idx := 0 to |scientificAbstracts|
      invariant results == Matches(scientificAbstracts[..idx], taxonNames, score)
    {
      var abstr := scientificAbstracts[idx];
      var cosSimAsPerc := score(abstr, taxonNames);
      assert scientificAbstracts[..idx + 1][..idx] == scientificAbstracts[..idx];
      if cosSimAsPerc > Threshold {
        results := results + [abstr];
      }
    }
    assert scientificAbstracts[..|scientificAbstracts|] == scientificAbstracts;
  }

  /** An abstracts file of two abstracts, neither holding the delimiter and
      the first not ending in a line break: the first is returned, alone,
      when it scores above 1% and the second does not. */
  lemma TwoAbstracts(first: string, second: string, names: string, score: Scorer)
    requires !Contains(first, AbstractDelimiter) && !Contains(second, AbstractDelimiter)
    requires first == [] || first[|first| - 1] != Newline
    requires score(Clean(first), names) > 1.0 && score(Clean(second), names) <= 1.0
    ensures Matches(Abstracts(first + AbstractDelimiter + second), names, score) == [Clean(first)]
  {
    TwoDocuments(first, second);
    var cleaned := Abstracts(first + AbstractDelimiter + second);
    assert cleaned == [Clean(first)] + [Clean(second)];
    MatchesAppend([Clean(first)], [Clean(second)], names, score);
    MatchesSingle(Clean(first), names, score);
    MatchesSingle(Clean(second), names, score);
  }

  /** The worked scenario: the genus list "Rosa\nQuercus\n" and an abstracts
      file with one abstract naming Rosa and one about cars. For any
      similarity that puts the first above 1% and the second at or below it,
      the function returns the first abstract alone. */
  lemma RosaScenario(first: string, second: string, lines: seq<string>, score: Scorer)
    requires first == "This paper studies Rosa flowers." && second == "This paper is about cars."
    requires lines == ["Rosa\n", "Quercus\n"]
    requires score(Clean(first), "Rosa Quercus") > 1.0 && score(Clean(second), "Rosa Quercus") <= 1.0
    ensures Matches(Abstracts(first + AbstractDelimiter + second), TaxonNames(lines), score) == [Clean(first)]
  {
    TaxonNamesExample();
    AvoidsSeparator(first, AbstractDelimiter);
    AvoidsSeparator(second, AbstractDelimiter);
    assert first[|first| - 1] == '.';
    TwoAbstracts(first, second, "Rosa Quercus", score);
  }
}
