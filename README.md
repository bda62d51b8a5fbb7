# Genus-name matching in scientific abstracts: a Dafny model

The repository holds two near-duplicate exploratory Python scripts,
`identify_genus_names.py` and its earlier variant `code.py`. Each reads a list of
plant genus names (one per line) and a file of scientific abstracts (separated by
two blank lines, the delimiter `"\n\n\n"`). It joins the names into one string,
cuts the abstracts file at the delimiter and cleans every abstract. Then it scores
each abstract against the name string with a bag-of-words vectoriser and cosine
similarity, and flags the abstracts that score more than 1%.

This project models what the scripts themselves compute:

- the text preparation, as pure functions on `string` (`seq<char>`). These are
  Python's `str.strip('\n')`, `' '.join`, `str.split("\n\n\n")` and `re.sub` for
  a one-character pattern (module `Text`), and the joined name string and the
  list of raw abstracts (module `Inputs`, shared by both scripts);
- the two cleaning variants. `identify_genus_names.py` turns every digit, then
  every character outside `[a-zA-Z ]`, into a space (module
  `IdentifyGenusNames`). `code.py` deletes them instead (module `Code`);
- the two matching loops, as methods proved against specification functions.
  `find_via_count_vectorizer` collects, in order, the abstracts that score above
  the threshold (`IdentifyGenusNames.FindViaCountVectorizer` against
  `IdentifyGenusNames.Matches`). The top-level loop of `code.py` reports their
  indices (`Code.ReportMatches` against `Code.MatchIndices`).

The similarity comes from a library and is a floating-point number. It enters
the model as a parameter `score: (string, string) -> real` (module `Matching`),
which stands for `cosine_similarity(...)[0][1] * 100`. Its arguments are the
abstract and the name string, and nothing else. The scripts fit a fresh
vectoriser for each abstract, so this is faithful. Module `Sequences` states
"an order-preserving selection of exactly the elements that satisfy a
predicate" through the list of selected positions. Both the deleting cleaner
and the matching loops are specified with it. `Sequences.SelectionIsUnique`
shows that such a selection has only one possible result, so `MatchesSelects`,
`SubDeleteSelects`, `DeleteDigitsSpec` and `Code.CleanSpec` pin their results
exactly.

Files: `sequences.dfy`, `text.dfy`, `inputs.dfy`, `matching.dfy`,
`identify_genus_names.dfy`, `code.dfy`.

## Model

| member | source | states |
|---|---|---|
| Text.StripNewlines | identify_genus_names.py:33 | no contract of its own; `str.strip('\n')`, specified by StripLeadingSpec, StripTrailingSpec and StripReadLine |
| Text.IsDigit | identify_genus_names.py:37 | no contract of its own; the pattern `\d` as the ASCII digits `0`-`9` (see the `\d` line under Left out), used by BlankDigitsSpec and DeleteDigitsSpec |
| Text.IsLetterOrSpace | identify_genus_names.py:38 | no contract of its own; the class `[a-zA-Z ]`, the alphabet CleanSpec and Code.CleanSpec promise |
| Text.IsSpecial | code.py:37 | no contract of its own; the class `[^a-zA-Z ]`, the complement of IsLetterOrSpace, specified through CleanSpec and Code.CleanSpec |
| Text.StripLeadingSpec | identify_genus_names.py:33 | `strip('\n')` at the front removes a run of newlines, leaving a suffix that is empty or does not start with a newline |
| Text.StripTrailingSpec | identify_genus_names.py:33 | `strip('\n')` at the back removes a run of newlines, leaving a prefix that is empty or does not end with a newline |
| Text.StripReadLine | identify_genus_names.py:31-33 | on a line from `readlines` (a newline only as last character), stripping removes exactly the terminator and leaves no newline |
| Text.Join | identify_genus_names.py:33 | no contract of its own; `str.join`, specified by JoinLength, JoinAvoids, JoinSplit and SplitJoin |
| Text.JoinLength | identify_genus_names.py:33 | the joined string is as long as all parts plus one separator between each two neighbours |
| Text.JoinAvoids | identify_genus_names.py:33 | a character in no part and not in the separator is not in the joined string |
| Text.SplitJoin | identify_genus_names.py:33 | splitting on a one-character separator gives back the joined parts one for one, in order, when no part holds that character |
| Text.Split | identify_genus_names.py:36 | `str.split` always yields at least one piece, even for empty text |
| Text.JoinSplit | identify_genus_names.py:36 | re-joining the pieces with the separator gives back the original text |
| Text.SplitPiecesAvoidSeparator | identify_genus_names.py:36 | no piece contains the separator |
| Text.SplitWithoutSeparator | identify_genus_names.py:36 | a text without the separator is one piece, itself |
| Text.SplitSinglePiece | identify_genus_names.py:36 | the split yields exactly one piece if and only if the text does not contain the separator |
| Text.SplitAfter | identify_genus_names.py:36 | the cut is at the leftmost occurrence: `p + sep + t` with no occurrence starting inside `p` splits into `p` followed by the pieces of `t` |
| Text.Sub | identify_genus_names.py:37-38 | no contract of its own; `re.sub` with a one-character pattern, specified by SubByCharPointwise, SubDeleteSelects, SubAbsorbs and SubIdempotent |
| Text.SubByCharPointwise | identify_genus_names.py:37-38 | `re.sub` with a one-character replacement keeps the length; each position holds the replacement if its character matched, and is unchanged otherwise |
| Text.SubDeleteSelects | code.py:36-37 | `re.sub` with an empty replacement keeps exactly the non-matching characters, in their order |
| Text.SubAbsorbs | identify_genus_names.py:37-38 | a substitution by a smaller character class, before one by a larger class with the same replacement, changes nothing |
| Text.SubIdempotent | identify_genus_names.py:37-38 | substituting twice equals substituting once when the replacement holds no matching character |
| Inputs.StrippedLines | identify_genus_names.py:33 | no contract of its own; `[n.strip('\n') for n in taxon_names]`, specified by StrippedLineIsLineBody and TaxonNamesShape |
| Inputs.TaxonNames | identify_genus_names.py:31-33 | no contract of its own; the joined name string, specified by TaxonNamesShape, StrippedLineIsLineBody, TaxonNamesKeepsEveryName and TaxonNamesExample |
| Inputs.TaxonNamesShape | identify_genus_names.py:31-33 | given `readlines` output, the name string holds no newline and its length is the stripped lengths plus (number of lines - 1) |
| Inputs.StrippedLineIsLineBody | code.py:30-32 | each stripped name is its line without the line terminator |
| Inputs.TaxonNamesKeepsEveryName | identify_genus_names.py:33 | names are neither deduplicated nor reordered: cutting the name string at spaces gives the stripped lines back when no name holds a space |
| Inputs.TaxonNamesExample | code.py:30-32 | the genus list "Rosa\nQuercus\n" gives the name string "Rosa Quercus" |
| Inputs.Documents | identify_genus_names.py:35-36 | no contract of its own; the raw abstracts, specified by DocumentsSpec, DocumentsExample and TwoDocuments |
| Inputs.DocumentsSpec | code.py:34-35 | the abstracts re-joined with `"\n\n\n"` give back the file text; no abstract contains the delimiter; exactly one abstract if and only if the text lacks the delimiter |
| Inputs.DocumentsExample | identify_genus_names.py:36 | "A\n\n\nB\n\n\nC" yields exactly ["A", "B", "C"] |
| Inputs.TwoDocuments | identify_genus_names.py:35-36 | a text of two delimited abstracts, neither holding the delimiter and the first not ending in a line break, yields exactly those two |
| Matching.IsMatch | identify_genus_names.py:54 | no contract of its own; the strict comparison `cosSimAsPerc > 1.0` against the constant `Matching.Threshold` (1.0), specified by MatchesSelects, MatchIndicesSpec and ThresholdIsStrict |
| Sequences.SelectionIsUnique | identify_genus_names.py:46-59 | two selections of exactly the elements satisfying the same predicate from the same sequence are equal, positions and elements alike, so a selection specifies its result completely |
| IdentifyGenusNames.BlankDigits | identify_genus_names.py:37 | no contract of its own; specified by BlankDigitsSpec |
| IdentifyGenusNames.BlankSpecials | identify_genus_names.py:38 | no contract of its own; specified through CleanIsOneMap, which shows it alone does the whole cleaning |
| IdentifyGenusNames.Clean | identify_genus_names.py:37-38 | no contract of its own; specified by CleanSpec, CleanIsOneMap and CleanIdempotent |
| IdentifyGenusNames.Abstracts | identify_genus_names.py:35-38 | no contract of its own; specified by AbstractsSpec |
| IdentifyGenusNames.BlankDigitsSpec | identify_genus_names.py:37 | blanking digits keeps the length and leaves no digit; digits become spaces and every other character stays in place |
| IdentifyGenusNames.CleanSpec | identify_genus_names.py:37-38 | after both steps the length is unchanged and every character is in `[a-zA-Z ]`; letters and spaces stay in place, every other position holds a space |
| IdentifyGenusNames.CleanIsOneMap | identify_genus_names.py:37-38 | the two-step cleaner equals the second step alone, and equals the per-character map `c -> c if c in [a-zA-Z ] else ' '` |
| IdentifyGenusNames.CleanIdempotent | identify_genus_names.py:37-38 | cleaning is idempotent |
| IdentifyGenusNames.AbstractsSpec | identify_genus_names.py:35-38 | one cleaned abstract per piece of the file, as long as the piece, and made of letters and spaces only |
| IdentifyGenusNames.Matches | identify_genus_names.py:46-59 | no contract of its own; fully specified by MatchesSelects |
| IdentifyGenusNames.MatchesSelects | identify_genus_names.py:46-59 | the returned list is the in-order subsequence of exactly the abstracts whose score is strictly greater than 1.0 |
| IdentifyGenusNames.MatchesNoLonger | identify_genus_names.py:46-59 | no more abstracts are returned than were given |
| IdentifyGenusNames.MatchesAppend | identify_genus_names.py:47-51 | each abstract is judged on its own: the result for a concatenation is the concatenation of the results, so neither position nor neighbours matter |
| IdentifyGenusNames.MatchesSingle | identify_genus_names.py:54 | a single abstract is kept exactly when its score is strictly above 1.0 |
| IdentifyGenusNames.FindViaCountVectorizer | identify_genus_names.py:44-59 | the loop that appends qualifying abstracts returns exactly `Matches` of its inputs |
| IdentifyGenusNames.TwoAbstracts | identify_genus_names.py:36-59 | for a file of two abstracts, neither holding the delimiter and the first not ending in a line break, where only the first scores above 1%, the function returns the first cleaned abstract alone |
| IdentifyGenusNames.RosaScenario | identify_genus_names.py:31-59 | names "Rosa\nQuercus\n" and the abstracts about Rosa and about cars: with the first above 1% and the second not, only the first is returned |
| Code.DeleteDigits | code.py:36 | no contract of its own; specified by DeleteDigitsSpec |
| Code.DeleteSpecials | code.py:37 | no contract of its own; specified through CleanSpec, which shows it alone does the whole cleaning |
| Code.Clean | code.py:36-37 | no contract of its own; specified by CleanSpec and CleanIdempotent |
| Code.Abstracts | code.py:34-37 | no contract of its own; specified by AbstractsSpec |
| Code.AbstractsSpec | code.py:34-37 | one cleaned abstract per piece of the file, no longer than the piece, made of letters and spaces only |
| Code.DeleteDigitsSpec | code.py:36 | deleting digits yields the input's non-digit characters, all of them, in order; no digit remains and the length does not grow |
| Code.CleanSpec | code.py:36-37 | after both steps the text is exactly the input filtered to `[a-zA-Z ]`, in order; the digit step is subsumed by the second |
| Code.CleanIdempotent | code.py:36-37 | the deleting cleaner is idempotent |
| Code.CleanJoinsWords | code.py:36-37 | deleting a line break between two words runs them together, where the replacing cleaner of identify_genus_names.py puts a space |
| Code.MatchIndices | code.py:43-49 | no contract of its own; fully specified by MatchIndicesSpec |
| Code.MatchIndicesSpec | code.py:43-49 | reported indices are strictly increasing and each below the number of abstracts; an index is reported if and only if its abstract scores strictly above 1.0 |
| Code.ThresholdIsStrict | code.py:48 | an abstract scoring exactly 1.0 is not reported |
| Code.ReportedAbstractsAreMatches | code.py:43-49 | the abstracts `find_via_count_vectorizer` returns are exactly those at the indices code.py reports, in that order |
| Code.ReportMatches | code.py:43-49 | the loop reports exactly `MatchIndices` of its inputs |
| Code.RosaScenario | code.py:30-49 | names "Rosa\nQuercus\n" and the abstracts about Rosa and about cars: with the first above 1% and the second not, only index 0 is reported |

## Left out

- Reading the two input files (`open`, `readlines`, `read`) is I/O. The genus list enters as the sequence of lines `readlines` returns, the abstracts file as one string.
- The similarity score (`CountVectorizer` tokenisation and `cosine_similarity`) comes from a library and is a floating-point number. It is the parameter `score`. Its range 0-100, its symmetry and its value 0 for vectors without common tokens are properties of that library and are not modelled.
- IdentifyGenusNames.FindViaCountVectorizer, Code.ReportMatches: the model assumes the score call always returns a value. `CountVectorizer().fit_transform` raises `ValueError` (empty vocabulary) when neither the abstract nor the name string holds a token of two or more word characters, for example with an empty genus file and the empty last piece of an abstracts file that ends in `"\n\n\n"`. The scripts then stop with an error; the model does not capture that path.
- Console output, the `verbose` flag and its messages, and the `timeit` timing around the call are instrumentation. `Code.ReportMatches` returns the indices that the script prints instead of printing them; the printed percentage is not modelled.
- `get_feature_names_out()` and printing its first ten entries in code.py: the script's own comment says this does not show the matched names, and it affects nothing else.
- `\d` is modelled as the ASCII digits `0`-`9`. Python's `\d` also matches other Unicode decimal digits. After the second cleaning step the result is the same either way, because no digit is in `[a-zA-Z ]`; only `BlankDigits`/`DeleteDigits` on their own would differ.
- `Text.Split` requires a non-empty separator. Python raises `ValueError` for an empty one, and both scripts always pass `"\n\n\n"`.
- The commented-out plotting import.
