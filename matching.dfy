/** The matching decision shared by both scripts. The similarity itself is
    computed by a bag-of-words vectoriser and cosine similarity from a
    library outside this model, so it enters as a parameter. */
module Matching {

  /** `cosine_similarity(CountVectorizer().fit_transform([abstr, names]))[0][1] * 100`:
      the similarity of one abstract to the name string, as a percentage. The
      vectoriser is fitted afresh for every abstract, so the value depends on
      that abstract and the name string and on nothing else. */
  type Scorer = (string, string) -> real

  /** An abstract must score more than this percentage to be a match. */
  const Threshold: real := 1.0

  /** `cosSimAsPerc > 1.0` */
  predicate IsMatch(score: Scorer, abstr: string, names: string)
  {
    score(abstr, names) > Threshold
  }

  /** The matching decision for a fixed name string, as a predicate on abstracts. */
  function MatchesNames(score: Scorer, names: string): (r: string -> bool)
  {
    abstr => IsMatch(score, abstr, names)
  }
}
