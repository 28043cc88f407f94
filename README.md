# Movie recommender: a Dafny model of its recommendation engine

The application's engine is one class, `MovieRecommender`. On load, it takes
the merged movie/credits table and drops every row that lacks one of the six
used columns. For each movie it builds a combined text feature from overview,
genres, keywords, cast and crew, lower-cased and cut down to letters and
whitespace. That feature is vectorised with TF-IDF and compared pairwise by
cosine similarity. Afterwards the object answers two queries:

- the list of all loaded titles;
- the `k` movies most similar to a given title, found by sorting that title's
  similarity row.

The model has six modules:

- `Wrappers`: an `Option` type.
- `Sequences`: the subsequence relation.
- `TextCleaning`: `_clean_text`.
- `Features`: the row filter and the combined feature.
- `Ranking`: the ranking rule behind `get_recommendations`, as functions with
  lemmas.
- `Recommender`: the class, with fields that a load replaces, and the
  recommendation loop written as a method proved against `Ranking`.

The model follows what the code does in four places where a reader might expect something else:

- The code drops every row with a missing value in any of the six columns.
  It does not turn missing fields into empty strings; the `fillna('')` that
  follows `dropna()` has nothing left to fill.
- The code removes the first pair of the sorted similarity row. It does not
  remove the query's own index. See "## Findings".
- The code has no fallback vectoriser, no empty-join fallback and no separate
  schema or empty-corpus errors. Every failure of a load makes it return false.
- The code accepts any `num_recommendations`. A value of 0 or less gives an
  empty list.

## Model

| member | source | states |
|---|---|---|
| `TextCleaning.LowerChar` | streamlit-app/src/utils/__init__.py:59 | lower-casing leaves no upper-case ASCII letter, and keeps lower-case letters and whitespace as they are |
| `TextCleaning.Lower` | streamlit-app/src/utils/__init__.py:59 | the lower-cased text contains no upper-case ASCII letter |
| `TextCleaning.RemoveDisallowed` | streamlit-app/src/utils/__init__.py:59 | the substitution keeps every character of `[a-zA-Z\s]` as often as it occurs, keeps nothing else, and keeps the original order |
| `TextCleaning.CleanText` | streamlit-app/src/utils/__init__.py:56-60 | the cleaned text has only lower-case letters and whitespace; it is the lower-cased text with exactly its letters and whitespace kept, in order |
| `TextCleaning.CleanTextIdempotent` | streamlit-app/src/utils/__init__.py:59 | cleaning a cleaned text changes nothing |
| `TextCleaning.CleanTextOfClean` | streamlit-app/src/utils/__init__.py:59 | a text of lower-case letters and whitespace is its own cleaning |
| `TextCleaning.CleanTextAppend` | streamlit-app/src/utils/__init__.py:59 | cleaning a concatenation is the concatenation of the cleanings |
| `TextCleaning.CleanTextLength` | streamlit-app/src/utils/__init__.py:59 | cleaning never makes a text longer |
| `Features.DropIncomplete` | streamlit-app/src/utils/__init__.py:25-26 | a movie survives exactly when its row has all six values, as many times as that row occurs; survivors keep the table order |
| `Features.JoinedFields` | streamlit-app/src/utils/__init__.py:29-35 | the joined text holds overview, genres, keywords, cast and crew at their own offsets, in that order, with one space between neighbours |
| `Features.CombinedFeature` | streamlit-app/src/utils/__init__.py:29-38 | the combined feature consists of lower-case letters and whitespace only |
| `Features.CombinedFeatureByField` | streamlit-app/src/utils/__init__.py:29-35 | the combined feature is the cleaned overview, genres, keywords, cast and crew, in that order, one space apart |
| `Ranking.InsertPermutes` | streamlit-app/src/utils/__init__.py:79 | inserting a pair adds exactly that pair |
| `Ranking.InsertOrdered` | streamlit-app/src/utils/__init__.py:79 | inserting a pair with a smaller index than every pair of a sorted list keeps the list sorted |
| `Ranking.SortByScoreDesc` | streamlit-app/src/utils/__init__.py:79 | `sorted` returns a permutation of the enumerated pairs |
| `Ranking.SortByScoreDescCorrect` | streamlit-app/src/utils/__init__.py:79 | the sorted enumeration is ordered by descending score, with ties in ascending index order |
| `Ranking.RankCorrect` | streamlit-app/src/utils/__init__.py:76-79 | the sorted row lists every index exactly once with its own score, in that order |
| `Ranking.RankBounds` | streamlit-app/src/utils/__init__.py:76-79 | the sorted row is as long as the row and holds only its indices, each paired with its own score |
| `Ranking.FirstIndex` | streamlit-app/src/utils/__init__.py:73 | the index found holds the title, and no earlier position does |
| `Ranking.Describe` | streamlit-app/src/utils/__init__.py:84-88 | each entry is the title and the score of the pair at the same position |
| `Ranking.QueryRow` | streamlit-app/src/utils/__init__.py:73-76 | the query's row has one score per loaded movie |
| `Ranking.Recommendations` | streamlit-app/src/utils/__init__.py:66-90 | an unknown title gives `[]`; `num_recommendations <= 0` gives `[]` |
| `Ranking.Selected` | streamlit-app/src/utils/__init__.py:79-83 | the loop visits `min(k, N-1)` pairs, none when `k <= 0`, each an index of the row with its own score |
| `Ranking.SelectedCorrect` | streamlit-app/src/utils/__init__.py:79-83 | the reported pairs are the sorted row's pairs from the second on, `min(k, N-1)` of them, sorted, with their own scores |
| `Ranking.RecommendationsSummary` | streamlit-app/src/utils/__init__.py:69-90 | a known title gets exactly `min(k, N-1)` entries (0 when `k <= 0`); scores never increase; every title returned is a loaded title |
| `Ranking.RecommendationsLength` | streamlit-app/src/utils/__init__.py:79-83 | a known title gets exactly `min(k, N-1)` entries, none when `k <= 0` |
| `Ranking.RecommendationsEntries` | streamlit-app/src/utils/__init__.py:73-88 | each entry is `(titles[i], row[i])` for a distinct index `i` of the first occurrence's row; scores do not increase; equal scores come in ascending index order |
| `Ranking.RecommendationsAreTop` | streamlit-app/src/utils/__init__.py:79-83 | an index that is neither reported nor the dropped head ranks after every reported one |
| `Ranking.QueryExcludedUnderStrictMaximum` | streamlit-app/src/utils/__init__.py:78-79 | if the self-score is strictly above the rest of the row, the dropped head is the query and its index is never reported |
| `Ranking.SortOfEqualScores` | streamlit-app/src/utils/__init__.py:79 | on equal scores the stable sort keeps index order |
| `Ranking.QueryReportedOnFlatRow` | streamlit-app/src/utils/__init__.py:78-79 | on a row of equal scores, a query at index `q > 0` is returned as its own `q`-th recommendation |
| `Ranking.WithoutIndex` | streamlit-app/src/utils/__init__.py:78 | removing one index keeps exactly the other pairs and their order |
| `Ranking.WithoutIndexLength` | streamlit-app/src/utils/__init__.py:78 | removing an index that occurs once shortens the list by one |
| `Ranking.WithoutIndexUntouched` | streamlit-app/src/utils/__init__.py:78 | removing an absent index changes nothing |
| `Ranking.RecommendationsExcludingQuery` | streamlit-app/src/utils/__init__.py:78 | the corrected query gives `[]` for an unknown title or `k <= 0` |
| `Ranking.RecommendationsExcludingQueryCorrect` | streamlit-app/src/utils/__init__.py:76-88 | with the query excluded by index, its index is never reported, whatever the scores; `min(k, N-1)` entries, sorted, each with its index's title and score |
| `Ranking.RecommendationsExcludingQueryAreTop` | streamlit-app/src/utils/__init__.py:76-83 | with the query excluded by index, every other index that is not reported ranks after every reported one |
| `Ranking.RecommendationsAgreeUnderStrictMaximum` | streamlit-app/src/utils/__init__.py:78-79 | under a strict maximum self-score, the code's rule and the corrected rule give the same list |
| `Recommender.MovieRecommender.Similarity` | streamlit-app/src/utils/__init__.py:11 | the stored matrix is N by N for the N stored titles |
| `Recommender.MovieRecommender.constructor` | streamlit-app/src/utils/__init__.py:8-12 | a new recommender has no table, no matrix and no titles |
| `Recommender.MovieRecommender.AllMovieTitles` | streamlit-app/src/utils/__init__.py:62-64 | `get_all_movie_titles` returns the stored titles, `[]` when there are none |
| `Recommender.MovieRecommender.LoadAndProcessData` | streamlit-app/src/utils/__init__.py:14-54 | the table is replaced by the complete rows, each with its combined feature; the vectoriser gets the combined features in table order; on success the matrix is its result and the titles are the table's titles in order; on failure both keep their old values; matrix and titles stay consistent |
| `Recommender.MovieRecommender.GetRecommendations` | streamlit-app/src/utils/__init__.py:66-94 | the loop returns exactly the ranking rule's list: `[]` for an unknown title or `k <= 0`, otherwise `min(k, N-1)` entries with non-increasing scores and loaded titles |
| `Recommender.QueryFreshRecommender` | streamlit-app/src/utils/__init__.py:8-12 | a fresh recommender lists no titles and recommends nothing |

## Left out

- Reading the two CSV files and merging them on `title` (lines 18-22) is file I/O and a pandas join. The model starts from the merged rows, with a missing cell as `None`.
- `credits_df` only holds the second file as read, so it is not a field of the model.
- `TfidfVectorizer` and `cosine_similarity` (lines 41-45) are foreign numeric code. They are a parameter of the load: a function from the combined features to an N by N matrix, or `None` when it raises. Scores are `real`, so floating-point rounding is not modelled.
- The printed messages of both exception handlers (lines 52-54, 92-94) are I/O. On the modelled input a load can fail only in the vectoriser step. That input is a merged table with all six columns, where every present cell is a string. `get_recommendations` cannot raise once titles and matrix agree, so its handler is not modelled.
- Recommender.MovieRecommender.LoadAndProcessData: does not model a merged table that lacks one of the six columns, for instance when both files share a column name and pandas suffixes the copies. Selecting the columns on line 26 then raises `KeyError`, the load returns false, and `movies_df` stays the merged frame from line 22. The `TypeError` that a non-string cell raises in the concatenation on lines 29-35 is not modelled either. `Row` holds exactly the six columns as optional strings, so neither failure can be expressed.
- `Recommender.MovieRecommender.AllMovieTitles`: in Python the result is the stored list object itself, so a caller could mutate it. The model returns the value, so this aliasing is not captured.
- `TextCleaning.LowerChar` maps the Kelvin sign and capital I with dot above as `str.lower()` does, and leaves every other non-ASCII character unchanged. For those other characters the real lower-case form may differ from the character, but both lie outside `[a-zA-Z\s]`, so the cleaned text is the same.
- `str(text)` on line 59 is the identity here: every field reaching it is a string.
- `some_utility_function` and `another_utility_function` (lines 96-100) are empty placeholders.
- The page, widgets, dataset-path discovery and charts in `streamlit-app/src/app.py` and `streamlit-app/src/components/__init__.py` are presentation and are not part of this model.

## Findings

| source | as written | input that shows it | evidently intended | confidence | as-written member | corrected member |
|---|---|---|---|---|---|---|
| streamlit-app/src/utils/__init__.py:78-79 | `sorted(...)[1:]` drops the first pair of the sorted row, whatever its index | a movie at index `q > 0` with an all-zero similarity row (its combined feature has no vocabulary term, e.g. only stop words), with `k >= q`: all scores tie, so index 0 is dropped and the query is returned as its own `q`-th recommendation | drop the query's own index, as the comment on line 78 says | high; not executed | `Ranking.QueryReportedOnFlatRow` | `Ranking.RecommendationsExcludingQueryCorrect` |

`MovieRecommender.GetRecommendations` keeps the code's behaviour, because it
models the code. `Ranking.RecommendationsExcludingQuery` is the corrected
rule. `Ranking.RecommendationsAgreeUnderStrictMaximum` proves that both rules
give the same list whenever the query's self-score is a strict maximum of its
row.
