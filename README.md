# Semantic search demo: text normaliser and top-5 selection

This project models the two pieces of logic in the search demo's `app.py`
and proves properties about them. Both pieces are pure, so the model is
written as functions and lemmas.

- **`preprocess_text`** is module `TextPreprocessing` (`text_preprocessing.dfy`).
  It deletes the 32 characters of Python's `string.punctuation`, splits the
  rest with `str.split()`, lower-cases each word, drops the words whose
  lower-case form is a stopword, and joins what is left with single spaces.
  The stopword list is a parameter `stopWords: set<string>`. Whitespace is
  the set of characters Python's `str.split()` splits on. Lower-casing
  covers the ASCII letters.
- **The result assembly of `search_engine`** is module `SearchEngine`
  (`search_engine.dfy`). It takes the indices of the five highest scores,
  highest first, as `np.argsort(similarities)[-5:][::-1]` does. It then
  builds the three parallel lists `documents`, `similarities` and `indices`.
  The similarity scores are an input of type `real`. The permutation that
  `np.argsort` returns is also an input, `order`. The predicate `IsArgsort`
  constrains it, and it says only what argsort guarantees: `order` is a
  permutation of `0 .. n-1`, and the scores along it never decrease.
  `Argsort`, an insertion sort, shows that an admissible
  order exists for every score sequence. It is one possible choice and not
  numpy's algorithm.

Two consequences of the code are worth stating:

- `np.argsort`'s default sort is not stable, so the code fixes no order for
  tied scores (`TiesMayComeInEitherOrder`). Even a stable argsort would put
  the higher index first, because of the reversal `[::-1]`.
- Only the 32 ASCII characters of `string.punctuation` are removed. Other
  Unicode punctuation is kept.

## Model

| member | source | states |
|---|---|---|
| `TextPreprocessing.PunctuationRanges` | app.py:24 | a character satisfies `IsPunctuation` exactly when it is one of the 32 characters of `string.punctuation` |
| `TextPreprocessing.IsWhitespace` | app.py:25 | the characters `str.split()` splits on: U+0009-U+000D, U+001C-U+0020, U+0085, U+00A0, U+1680, U+2000-U+200A, U+2028, U+2029, U+202F, U+205F and U+3000 |
| `TextPreprocessing.Lower` | app.py:25 | lower-casing a character leaves no upper-case ASCII letter, moves `A`-`Z` by 32 and fixes every other character, and keeps whether it is punctuation or whitespace |
| `TextPreprocessing.LowerWord` | app.py:25 | `word.lower()` keeps the length, lower-cases every character, gives a lower-case result, and keeps "is a non-empty whitespace-free token" and "has no punctuation" |
| `TextPreprocessing.StripPunctuation` | app.py:24 | the filtered text contains no punctuation character and is no longer than the input |
| `TextPreprocessing.StripPunctuationKeeps` | app.py:24 | every non-punctuation character is kept as many times as it occurs in the input |
| `TextPreprocessing.StripPunctuationAppend` | app.py:24 | filtering a concatenation is the concatenation of the filtered parts |
| `TextPreprocessing.StripPunctuationOfClean` | app.py:24 | a text without punctuation passes the filter unchanged |
| `TextPreprocessing.Split` | app.py:25 | `text.split()` returns non-empty, whitespace-free tokens whose concatenation is the input with its whitespace removed |
| `TextPreprocessing.SplitOfEmpty` | app.py:25 | splitting the empty text gives no tokens |
| `TextPreprocessing.SplitAfterWhitespace` | app.py:25 | a leading whitespace character of any kind is skipped: `Split([c] + t) == Split(t)` |
| `TextPreprocessing.SplitAfterWord` | app.py:25 | a whitespace-free word followed by whitespace or by nothing is split off as one token; with the two rows above, these equations determine `Split` |
| `TextPreprocessing.SplitOfWord` | app.py:25 | a non-empty whitespace-free text is one token |
| `TextPreprocessing.SplitNoPunctuation` | app.py:24-25 | splitting a punctuation-free text yields punctuation-free tokens |
| `TextPreprocessing.Join` | app.py:25 | `' '.join(words)` is `""` for no words, and otherwise has the words' total length plus one per gap between consecutive words; `SplitJoin` and `JoinFacts` fix its content |
| `TextPreprocessing.SplitJoin` | app.py:25 | splitting `' '.join(words)` gives back `words`, for any list of non-empty whitespace-free words |
| `TextPreprocessing.JoinFacts` | app.py:25 | `' '.join` of such words has single spaces and no leading or trailing space, keeps "no punctuation" and "lower case", and is empty exactly when the list is empty |
| `TextPreprocessing.Survivors` | app.py:25 | every surviving word is lower case and not a stopword, nothing survives exactly when every word's lower-case form is a stopword, the survivors are no more than the input words, and they stay non-empty, whitespace-free and punctuation-free when the input words are |
| `TextPreprocessing.SurvivorsKept` | app.py:25 | every word whose lower-case form is not a stopword survives, lower-cased |
| `TextPreprocessing.SurvivorsAppend` | app.py:25 | the filter keeps word order: filtering a concatenation is the concatenation of the filtered parts |
| `TextPreprocessing.SurvivorsOfClean` | app.py:25 | words that are already lower case and not stopwords all survive, in order |
| `TextPreprocessing.SurvivorsAgree` | app.py:25 | for punctuation-free words, two stopword sets that agree on punctuation-free strings keep the same survivors |
| `TextPreprocessing.PreprocessText` | app.py:19-25 | the output has no punctuation, is lower case, has single spaces and no leading or trailing space, each of its tokens is a non-stopword, and it is `""` exactly when every whitespace token of the stripped input is a stopword once lower-cased (so empty and all-stopword input give `""`) |
| `TextPreprocessing.OutputTokens` | app.py:24-25 | the output's tokens are exactly the lower-cased whitespace tokens of the punctuation-stripped input, stopwords removed, in their original order |
| `TextPreprocessing.Idempotent` | app.py:19-25 | `preprocess_text(preprocess_text(x)) == preprocess_text(x)` |
| `TextPreprocessing.PunctuatedStopWordsNeverMatch` | app.py:24-25 | stopword entries that contain punctuation never remove a word: changing them does not change the output |
| `TextPreprocessing.PunctuationInsideWord` | app.py:24-25 | `"a.b"` becomes the single token `"ab"`, because punctuation is removed before splitting |
| `SearchEngine.IsArgsort` | app.py:55 | what `np.argsort(similarities)` guarantees: a permutation of `0 .. n-1` along which the scores never decrease, with tied scores in any order |
| `SearchEngine.Argsort` | app.py:55 | an admissible `np.argsort` result exists for every score sequence (one admissible choice, not numpy's algorithm) |
| `SearchEngine.ArgsortDistinct` | app.py:55 | an argsort lists no document index twice |
| `SearchEngine.ArgsortPosition` | app.py:55 | every document index occurs in an argsort |
| `SearchEngine.ArgsortScoresUnique` | app.py:55 | all admissible argsorts of the same scores read off the same ascending score sequence |
| `SearchEngine.ReversedSuffix` | app.py:55 | `s[len(s)-k:][::-1]` (at its use, `k = min(5, len(s))`, this is `s[-5:][::-1]`) has length `k`, its `i`-th element is `s[len(s)-1-i]`, and its elements are exactly those of the last `k` elements of `s` |
| `SearchEngine.TopIndices` | app.py:55 | `argsort(s)[-5:][::-1]` has exactly `min(5, n)` pairwise distinct indices in `[0, n)`, their scores do not increase, and every selected score is at least every unselected score |
| `SearchEngine.TopResults` | app.py:55-59 | the three lists have length `min(5, n)`, `similarities[i] == scores[indices[i]]` and `documents[i] == data[indices[i]]`, the indices are distinct and in range, the similarities do not increase, and no unselected document scores higher than a selected one |
| `SearchEngine.TopSimilarityAt` | app.py:55-56 | the `i`-th returned similarity is the `i`-th score counting down from the top of the argsort |
| `SearchEngine.SimilaritiesIndependentOfTies` | app.py:55-56 | the returned similarities are the same for every admissible argsort: only tie order is open |
| `SearchEngine.DistinctScoresDetermineResult` | app.py:55-59 | when no two scores are equal, the whole result (documents, similarities, indices) is determined by the scores |
| `SearchEngine.TiesMayComeInEitherOrder` | app.py:55 | for the two-document example with equal scores, both orders are admissible argsorts and they return the indices in opposite orders, so the code fixes no tie order |
| `SearchEngine.FewDocumentsAllReturned` | app.py:55-57 | with at most five documents, every document index is returned |

## Left out

- The Flask application, the routes `index` and `search`, `request.form`, `jsonify` and `app.run` (app.py:2, 13, 62-73) are HTTP glue and are not modelled.
- `nltk.download`, `fetch_20newsgroups` and `stopwords.words` (app.py:11, 16-17) load data from the network and the filesystem. The corpus `data` and the stopword set `stopWords` are parameters. The stopword list is modelled as a set, because the code only tests membership in it.
- `processed_data` (app.py:28) applies `preprocess_text` to every document. It only feeds the vectoriser, so it is not modelled.
- `TfidfVectorizer`, `TruncatedSVD` and `cosine_similarity` (app.py:31-36, 48-52) are foreign floating-point library calls, including a randomised SVD. Their output, the per-document similarity scores, is the parameter `scores` of type `real`. Floating-point rounding and NaN are not modelled.
- `np.argsort`'s actual algorithm is not modelled. Its result is the parameter `order`, constrained by `IsArgsort`. `Argsort` is one admissible order, used only to show that one always exists.
- `TextPreprocessing.Lower` and `TextPreprocessing.LowerWord` lower-case only the ASCII letters. Python's `str.lower` also lower-cases other Unicode letters, some of them into more than one character. The model does not capture that.
- static/main.js is browser code (DOM updates, `fetch`, chart drawing) and is not modelled.
