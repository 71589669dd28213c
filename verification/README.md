# Recipe recommender: ranking and allergen filtering, in Dafny

This project models the ranking stage of `RecipeRecommender.recommend` in
`recommender.py`. The method receives the user's ingredient text, a result
count `top_n` and an optional list of allergens to exclude, and works as follows:

1. it replaces a missing exclusion list (`None`) with the empty list;
2. it normalises the query (`lower()` then `strip()`);
3. it scores every catalog row against the query (TF-IDF plus cosine
   similarity; this step is an opaque parameter here);
4. when the exclusion list is not empty, it drops, one allergen at a time,
   every row whose `allergens` cell contains that allergen, ignoring case.
   A missing (NaN) cell never matches;
5. it keeps the `top_n` highest-scoring rows with pandas `nlargest`
   (`keep='first'`), so equal scores keep catalog order;
6. it returns one record per kept row, holding the row's `recipe`,
   `ingredients` and `allergens` cells unchanged and its score.

Modules:

- `Text` (`text.dfy`): ASCII lower-casing, Python `str.strip()` whitespace,
  query normalisation, and case-insensitive substring search.
- `Catalog` (`catalog.dfy`): the `Recipe` row and the `Row` that pairs a
  recipe with its catalog position and score.
- `AllergenFilter` (`allergen_filter.dfy`): the exclusion filter. It has a
  one-pass reference (`Survivors`) and the one-allergen-at-a-time loop of
  `recommend` (`ExcludeEach`).
- `Ranking` (`ranking.dfy`): the order "higher score first, then earlier
  row" (`Ahead`), a sort by it, and `NLargest`.
- `Recommender` (`recommender.dfy`): the `recommend` method itself, the
  properties of its result, and lemmas that relate the stages.

A row's identity is its catalog position. Ties are broken by position, so
"ranked" is a strict total order on the surviving rows. `RankedUnique` shows
that a ranked arrangement of a given set of rows is unique. So `nlargest`'s
output is fully determined, whichever sort computes it.

## Model

| member | source | states |
|---|---|---|
| Text.Normalize | recommender.py:41 | The cleaned query is the lower-cased query with whitespace cut from both ends: it has no ASCII upper-case letter, does not start or end with whitespace, and is empty exactly when the query was all whitespace |
| Text.NormalizeIdempotent | recommender.py:41 | Normalising an already normalised query leaves it unchanged |
| Text.Strip | recommender.py:41 | `strip()` returns a contiguous piece of its input with only whitespace around it, starting and ending with non-whitespace, and empty exactly when the input is all whitespace |
| Text.Lower | recommender.py:41 | `lower()` keeps the length, folds each character on its own, and leaves no ASCII upper-case letter |
| Text.ContainsIgnoreCase | recommender.py:57 | With `case=False`, the allergen matches when, both folded to lower case, it occurs at some offset of the cell |
| Text.Contains | recommender.py:57 | The substring test is true exactly when the pattern occurs at some offset of the text |
| Text.ContainsIgnoreCaseOfLower | recommender.py:57 | With `case=False` the match does not depend on the letter case of either the cell or the allergen |
| Recommender.ExclusionList | recommender.py:37-38 | An absent exclusion list excludes nothing; a given list is used unchanged |
| Recommender.Scores | recommender.py:44-47 | One score per catalog row, and a row's score depends only on its ingredients text (for a fixed query) |
| Catalog.Attach | recommender.py:50-51 | Adding the similarity column yields the whole catalog, in catalog order, each row carrying its own recipe and score |
| AllergenFilter.Mentions | recommender.py:57 | `na=False`: a missing cell never matches. A present cell matches when the folded allergen occurs at some offset of the folded cell |
| AllergenFilter.Exclude | recommender.py:56-58 | One pass of the loop keeps exactly the rows whose cell does not name that allergen |
| AllergenFilter.ExcludeEach | recommender.py:55-58 | The loop as written, one allergen at a time in list order, keeps exactly the rows that name none of the allergens |
| AllergenFilter.Survivors | recommender.py:54-58 | A row is kept exactly when its allergens cell names none of the excluded allergens, and kept rows keep their catalog order |
| AllergenFilter.ExcludeEachIsSurvivors | recommender.py:55-58 | Filtering by each allergen in turn, as the loop does, removes exactly the rows that name any of them |
| AllergenFilter.SurvivorsCompose | recommender.py:55-58 | Filtering by one list and then by another equals filtering once by both lists together |
| AllergenFilter.SurvivorsNone | recommender.py:54 | An empty exclusion list keeps every row |
| AllergenFilter.SurvivorsOrderIndependent | recommender.py:55-58 | The rows kept depend only on which allergens are excluded, not on their order or on repeats |
| AllergenFilter.ExcludeEachOrderIndependent | recommender.py:55-58 | The loop keeps the same rows for any two exclusion lists with the same allergens, whatever their order or repeats |
| AllergenFilter.SurvivorsMultiset | recommender.py:56-58 | Counted with multiplicity, the filter keeps every copy of a non-matching row and no copy of a matching one |
| AllergenFilter.MissingCellSurvives | recommender.py:57 | `na=False`: a row with a missing allergens cell is never excluded |
| AllergenFilter.EmptyAllergenDropsPresentCells | recommender.py:57 | An empty string in the exclusion list matches every present cell, so only rows with a missing cell survive |
| Ranking.Insert | recommender.py:61 | Inserting a row with a new position into a ranked sequence gives a ranked sequence that holds exactly one more row, the inserted one |
| Ranking.Sort | recommender.py:61 | The sort orders rows by score, highest first, with ties in catalog order, and it keeps the same rows |
| Ranking.NLargest | recommender.py:61 | `nlargest(n)` returns `min(n, count)` rows, or none when `n` is not positive. They are ranked and are drawn from the input |
| Ranking.NLargestMaximal | recommender.py:61 | Every row left out is ranked behind every row kept, so its score is no higher than any kept score |
| Ranking.NLargestAll | recommender.py:61 | When `n` is at least the number of rows, every row is kept |
| Ranking.RankedUnique | recommender.py:61 | Two ranked arrangements of the same rows are equal, so the top-N result does not depend on how it is computed |
| Recommender.TopRowsKept | recommender.py:50-61 | The kept rows are ranked and number at most `top_n`. Each is a surviving catalog row with its own cells and score |
| Recommender.TopRowsComplete | recommender.py:61 | When fewer than `top_n` rows are kept, every surviving row is kept |
| Recommender.TopRowsMaximal | recommender.py:61 | A surviving row that is not kept is ranked behind every kept row |
| Recommender.NoExclusionsIsPlainTopN | recommender.py:37-61 | With `exclude_allergens` set to `None` or an empty list, the result is the plain top `top_n` of the whole catalog |
| Recommender.SurvivorsRanked | recommender.py:54-61 | Dropping rows from a ranked sequence leaves it ranked |
| Recommender.ExcludeThenRankIsRankThenExclude | recommender.py:54-61 | Filtering and then ranking, as `recommend` does, gives the same order as ranking the whole catalog and then dropping the excluded rows |
| Recommender.ExclusionCanPromote | recommender.py:54-61 | Concrete case: excluding "soy" moves a lower-scored soy-free row into the top 1, so the filtered result is not always a subset of the unfiltered one |
| Recommender.FormattedTopRowsCopied | recommender.py:61-71 | The records made from the kept rows copy distinct catalog rows' cells unchanged, with their own scores. They name no excluded allergen, come best first with ties in catalog order, and number at most `top_n` |
| Recommender.FormattedTopRowsComplete | recommender.py:54-71 | Fewer than `top_n` records only when every surviving row is returned. A surviving row left out scores no higher than any record, and on a tie it comes later in the catalog |
| Recommender.ApplyExclusions | recommender.py:54-58 | The guarded loop over the exclusion list keeps exactly the rows that name none of the allergens, in catalog order |
| Recommender.Format | recommender.py:66-71 | Reading a result record back gives the row's `recipe`, `ingredients` and `allergens` cells unchanged and its score; only the catalog position is dropped |
| Recommender.FormatAll | recommender.py:64-71 | One record per kept row, in ranking order, with the `recipe`, `ingredients` and `allergens` cells and the score copied unchanged |
| Recommender.Recommend | recommender.py:25-73 | The whole method, with the defaults `top_n=5` and `exclude_allergens=None`. Each result is a distinct catalog row, copied unchanged with its score against the normalised query. No result names an excluded allergen. Results come best first, ties in catalog order, at most `top_n` of them. There are fewer only when every surviving row is returned. No surviving row left out outranks a result |

## Behaviour worth noting

- `recommend` does not reject a query that is blank after trimming; only
  the Streamlit front end checks for blank input (`app.py:52`,
  `app.py:85`). `Recommend` accepts any query, and `Text.Normalize` states
  that the cleaned query is empty exactly when the input was all
  whitespace.
- With `top_n` below the number of surviving rows, the filtered top-N is
  not always a subset of the unfiltered top-N: an excluded row can free a
  place for a lower-scored row. `ExclusionCanPromote` shows a two-row case.
  The relation that does hold is `ExcludeThenRankIsRankThenExclude`.

## Left out

- TF-IDF fitting and transform and cosine similarity (`recommender.py:16-23`,
  `44-47`) are calls into scikit-learn and floating-point numerics. Scores
  come from the opaque parameter `similarity`, which maps the normalised
  query and a row's ingredients text to a `real`. The model does not prove
  that scores lie in [0, 1], or that an exact ingredient match ranks first.
- Loading the CSV file (`recommender.py:15`) is I/O. The catalog is passed in
  as a sequence of `Recipe` values. `Recipe.name` and `Recipe.ingredients`
  are always text: a missing `ingredients` cell makes the vectoriser fail
  (`recommender.py:23`), and a missing `recipe` cell, which `recommend`
  would copy into the result as NaN (`recommender.py:67`), is not
  represented.
- When every `allergens` cell of a non-empty catalog is missing, pandas
  reads that column as numbers, and `.str.contains` (`recommender.py:57`)
  raises an error for any non-empty exclusion list. The model has no such
  error path: the cells are `Option<string>`, so it keeps every row, since
  a missing cell never matches.
- `app.py` is user interface code: widgets, caching, and the display of
  results and of the "no common allergens" note.
- `str.contains` treats the allergen as a regular expression. The model
  uses a plain substring test, which matches for the literal names the
  front end offers ("eggs", "dairy", "nuts", "soy").
- The case-insensitive match folds only the ASCII letters A-Z, like
  `Text.Lower`. `strip()` uses the exact set of code points Python treats
  as whitespace.
- Scores are `real`, so NaN scores and float rounding are not modelled.
  pandas `nlargest` would put NaN scores last.
- Recommender.Scores: states the length and that a score depends only on
  the row's ingredients; the value is whatever the opaque `similarity`
  returns, so nothing more is promised about it.
- Text.Lower: folds only the ASCII letters A-Z, because full Unicode case mapping is out of scope.
- Ties among equal scores use catalog order in every case, as `keep='first'`
  documents. When `top_n` is at least the number of surviving rows, pandas
  takes a plain descending sort instead. The tie order of that sort is not
  modelled.
- Non-integer `top_n` and other type errors that pandas would raise are not
  modelled. `top_n` is an `int`, and a value of zero or less returns
  nothing.
- The DataFrame index labels are not modelled. A row is known by its catalog
  position, recorded in the ghost output `picked`.
