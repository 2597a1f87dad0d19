# INDECOPI search engine: query normalisation and ranking, in Dafny

This project models the retrieval core of a small search engine over
INDECOPI resolutions. It covers `indesearch.py`: the list of undesirable
tokens, the two query pipelines, and the `INDESearch` class.

- The TF-IDF pipeline drops undesirable tokens, stems the rest and joins the
  stems with single spaces.
- The doc2vec pipeline applies the same filter and lower-cases each kept token.
- `INDESearch` copies the document table when it is built. `similarity` writes
  a score column into that copy, sorts the rows by score (highest first) and
  returns the first `top_values` rows as (label, score) pairs.

Modules:

- `TextNormalizer` (`text_normalizer.dfy`) holds pure functions and lemmas:
  the punctuation and undesirable-token lists, the filter `Kept`, the
  stemmed tokens, Python's `" ".join` and `str.split(" ")`, lower-casing, and
  the doc2vec tokens.
- `Ranking` (`ranking.dfy`) holds the (label, score) rows and the descending
  sort. The sort is an insertion sort with a loop, proved sorted and a
  permutation. It also holds the first-`top_values` slice with Python slice
  semantics, and the predicate `IsTopK` that says what a true top-K is.
- `IndeSearch` (`inde_search.dfy`) holds two classes. `Table` models the pandas
  frame: a feature width, document rows, and an optional score column.
  `INDESearch` has the fields `query`, `topValues` and `database`. Its
  constructor copies the caller's frame into a fresh `Table`. `Similarity`
  changes only that copy. `RepeatedSimilarity` is a client that calls
  `Similarity` again and again on one session and shows that the caller's
  table never changes.

Foreign code and data are function or sequence parameters, with nothing
assumed about them:

- the tokeniser `word_tokenize` (`tokenize`)
- the Snowball stemmer (`stem`)
- the Spanish stopword list (`stopwords`)
- the fitted TF-IDF `transform`
- doc2vec's `infer_vector` (`infer`)
- `cosine_similarity` (`sim`, a function of a feature vector and the query
  vector giving a `real` score)

`CleaningQueryTfidf` and `CleaningQueryDoc2Vec` apply `transform` and
`infer` to `TfidfQuery` and `Doc2VecTokens`. Most of what they promise is in
the contracts of those two functions and the lemmas about them.

Behaviour of the code that a reader might not expect, and that the model keeps:

- Ties are not broken by corpus order. `sort_values` uses a sort that is not
  stable, so the model says nothing about the order of equal scores. It does
  prove (`TopKScoresAgree`) that every true top-K of a given length has the
  same score at each position.
- A non-positive `top_values` is not rejected. `iloc[:k]` returns no rows for
  `k = 0`, and for a negative `k` it returns all rows but the last `-k`.
  `Similarity` states both cases.
- An empty table is an error. `cosine_similarity` rejects a matrix with no
  rows, so the model returns `Err(NoSamples)` and writes nothing. This check
  comes before every other one (`CosineInputError`).
- A second `similarity` call on the same session fails when the labels are
  text. After the first call, "all columns but the last" (`iloc[:, :-1]`)
  includes the label column.
  The model returns `Err(TextColumnInFeatures)` and leaves the copy unchanged.
  `RepeatedSimilarity` states this. The web front end builds a new session
  for every query, so it does not hit this case.
- Split does not undo join for a query with no kept tokens. Python's
  `"".split(" ")` is `[""]`, not `[]`, so the round trip needs at least one
  stem. Empty stems are fine.
- The doc2vec filter looks at a token before lower-casing it. A capitalised
  stopword such as `De` survives the filter and reaches the model as `de`
  (`FilterPrecedesLowerCasing`).

## Model

| member | source | states |
|---|---|---|
| `TextNormalizer.PunctuationTokens` | indesearch.py:27 | 32 tokens; a string is one of them exactly when it is a single punctuation character |
| `TextNormalizer.UndesirableValues` | indesearch.py:23-29 | a token is undesirable exactly when it is a punctuation token, a stopword or the newline token |
| `TextNormalizer.Kept` | indesearch.py:55 | the filter's output is no longer than its input; each kept token is an input token that is not undesirable |
| `TextNormalizer.KeptIsOrderedSelection` | indesearch.py:55 | the output is the desirable tokens at strictly increasing input positions, each desirable position used exactly once, in input order |
| `TextNormalizer.TfidfTokens` | indesearch.py:55 | no more stems than tokens, and each is the stem of a desirable input token; position by position in `TfidfTokensAreStemsOfKept` |
| `TextNormalizer.TfidfTokensAreStemsOfKept` | indesearch.py:55 | output position `i` is `stem` of the desirable input token at the `i`-th kept position; order is kept, length is at most the token count, and every output token is the stem of some desirable input token |
| `TextNormalizer.StemNeverSeesUndesirable` | indesearch.py:55 | no token passed to the stemmer is a newline, a punctuation token or a stopword |
| `TextNormalizer.Join` | indesearch.py:57 | the joined string is empty exactly when there are no words or a single empty one; `SplitJoin` gives its inverse |
| `TextNormalizer.SplitJoin` | indesearch.py:57 | splitting the space-joined stems on `" "` gives the stems back, given at least one stem and no stem containing a space |
| `TextNormalizer.SplitJoinEmpty` | indesearch.py:57 | the joined words split into the single empty piece `[""]` exactly when there were no words or one empty word, so an empty stem list does not come back as `[]` |
| `TextNormalizer.TfidfQuery` | indesearch.py:55-57 | the stem list is empty exactly when the vectoriser input is empty and every token is undesirable (a kept token whose stem is empty also gives an empty input); a non-empty stem list with no space in any stem is what the input splits back into |
| `TextNormalizer.LowerChar` | indesearch.py:71 | a capital `A`-`Z` or Latin-1 `À`-`Þ` other than `×` goes to the character 32 code points later, its small letter; any other character is left unchanged; the result is never such a capital |
| `TextNormalizer.LowerWord` | indesearch.py:71 | same length; each capital is replaced by its small letter, every other character kept, and no capital is left |
| `TextNormalizer.LowerWordIdempotent` | indesearch.py:71 | lower-casing a token twice gives the same as lower-casing it once |
| `TextNormalizer.Doc2VecTokens` | indesearch.py:71 | no more entries than tokens, and each is the lower-cased form of a desirable input token; position by position in `BothPathsKeepSameTokens` |
| `TextNormalizer.BothPathsKeepSameTokens` | indesearch.py:71 | the doc2vec list has the same length as the TF-IDF list; at each position it holds the lower-cased form of the same kept token whose stem the TF-IDF list holds |
| `TextNormalizer.FilterPrecedesLowerCasing` | indesearch.py:71 | a token that is not itself undesirable but whose lower-cased form is a stopword (`De` when `de` is one) passes the filter and reaches the embedding model as that stopword |
| `Ranking.InsertByScore` | indesearch.py:90 | inserting into a descending list keeps it descending and adds exactly the new row |
| `Ranking.SortByScoreDescending` | indesearch.py:90 | the output has non-increasing scores and is a permutation of the input (same multiset) |
| `Ranking.SliceEnd` | indesearch.py:92 | the end of `[:top_values]` never passes the length; its value for each sign of `top_values` is stated by `TopKOfSortedIsTopK` |
| `Ranking.TopK` | indesearch.py:92 | the result is a prefix of the sorted rows; its length and its top-K property are stated by `TopKOfSortedIsTopK` |
| `Ranking.TopKOfSortedIsTopK` | indesearch.py:90-92 | the first `top_values` rows of a descending sort are a true top-K: sorted, a sub-multiset of the rows, and no row left out scores above a returned one; length `min(top_values, n)` for `top_values >= 0`, `max(0, n + top_values)` otherwise |
| `Ranking.TopKScoresAgree` | indesearch.py:90-92 | two true top-K lists of the same length have equal scores at every position, so only the order of tied rows is open |
| `IndeSearch.Table.Copy` | indesearch.py:44 | `DataFrame.copy()` returns a fresh frame with the same width, rows and score column |
| `IndeSearch.INDESearch.constructor` | indesearch.py:35-44 | keeps `query` and `top_values`; `database` is a fresh object holding the caller's rows |
| `IndeSearch.Table.CosineInputError` | indesearch.py:86-88 | `cosine_similarity` returns scores exactly when the table has rows, no score column yet, a non-zero width, and the query has that width. An empty table raises first (`NoSamples`). Otherwise an appended score column raises next, because the label column is then among the features (`TextColumnInFeatures`). Then a zero width raises (`NoFeatures`), then a width mismatch (`IncompatibleDimension`) |
| `IndeSearch.Table.LabelsAndScores` | indesearch.py:92 | one (label, score) pair per row, in row order: the last two columns `iloc[:, -2:]` |
| `IndeSearch.INDESearch.CleaningQueryTfidf` | indesearch.py:46-61 | a query made only of undesirable tokens (punctuation, stopwords, newlines) is vectorised as the empty document `transform("")` |
| `IndeSearch.INDESearch.CleaningQueryDoc2Vec` | indesearch.py:63-75 | a query made only of undesirable tokens is inferred from the empty token list `infer([])` |
| `IndeSearch.QueryVectorsDependOnKeptTokens` | indesearch.py:46-75 | two sessions whose queries keep the same tokens in the same order get the same TF-IDF vector and the same doc2vec vector |
| `IndeSearch.Table.SetScoreColumn` | indesearch.py:88 | after the column is assigned the frame holds the given scores; its rows and width are unchanged |
| `IndeSearch.INDESearch.Similarity` | indesearch.py:77-94 | when `cosine_similarity` would raise, returns that error and writes nothing. Otherwise row `i` of the copy gets score `sim(features_i, query)`, rows and width stay the same, and the result is a true top-K of the (label, score) rows with the slice length of `iloc[:top_values]`. Only the private copy is modified |
| `IndeSearch.RepeatedSimilarity` | indesearch.py:42-94 | any number of `similarity` calls on a session leave the caller's table unchanged; the first call succeeds exactly when its inputs are acceptable, and after a successful first call every later call fails with `TextColumnInFeatures` |

## Left out

- Loading artifacts is file I/O and is not modelled: `pickle.load` of the TF-IDF model and `Word2Vec.load` of the doc2vec model. The fitted `transform` and `infer_vector` are opaque trained models, so they are function parameters. `infer_vector` draws on the loaded model's random state, so repeated calls on one loaded model can give different vectors for the same tokens. The source acts as a pure function only because `cleaning_query_doc2vec` reloads the model from disk on every call (indesearch.py:69). The model treats `infer` as pure, and `QueryVectorsDependOnKeptTokens` relies on that for its doc2vec half.
- `nltk.download`, `word_tokenize`, `SnowballStemmer` and the Spanish stopword corpus are foreign library code and data. They are parameters.
- `cosine_similarity`'s floating-point arithmetic is not modelled, including how it treats zero vectors: the score is an abstract `real`-valued `sim`.
- Similarity and RepeatedSimilarity: once a score column exists, every later call is modelled as failing with `TextColumnInFeatures`. The source does not always fail there. If every label parses as a number, numpy converts the label column to `float`. A query vector with `width + 1` entries then passes `cosine_similarity`, and the source returns scores where the model returns the error. Labels are modelled as text, so this case is not covered.
- NaN and infinity are not modelled. `cosine_similarity` raises `ValueError` when the table or the query holds either value, before it computes any score. `real` values cannot be NaN or infinite, so the model has no such error path.
- The tie order among equal scores is left open because the source's sort is not stable.
- `reset_index(drop=True)` is not modelled: the result is a sequence, so there is no pandas index to reset.
- `LowerChar`: covers Python's `str.lower()` only for `A`-`Z` and the Latin-1 capitals `À`-`Þ` (except `×`). Other Unicode letters are left unchanged.
- `search_app.py` is not modelled: it is the Streamlit user interface, CSV loading and base64 download links. Its restriction of `top_values` to 1..5 is not needed, because the model handles every integer as Python slicing does.
- Concurrency is not modelled; the source has none.
