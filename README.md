# Movie recommender: the top-five similarity lookup

This project models, in Dafny, the recommendation step of a small movie
recommender web page. The catalog is a table of movies (id, title, overview,
vote average), indexed by position. The similarity matrix gives one row of
similarity scores per movie. For a selected title, `recommend` does the following:

1. It resolves the title to the first catalog position that carries it.
2. It pairs every position of that position's similarity row with its score.
3. It sorts the pairs by score, highest first, with Python's stable `sorted(..., reverse=True)`.
4. It keeps the sorted entries at places 1 to 5 (the slice `[1:6]`).
5. It builds four parallel lists: titles, poster URLs, overviews and ratings.

The poster URL is the image-service prefix followed by the movie's
`poster_path` when the details response carries a non-empty one, and a fixed
placeholder image otherwise.

Modules:

- `Wrappers` (wrappers.dfy): `Option` and `Result`.
- `Catalog` (catalog.dfy): the `Movie` record and `Resolve`, the title lookup.
- `Ranking` (ranking.dfy): `enumerate`, the stable descending sort as an
  insertion sort (`InsertDesc`, `SortDesc`), the ranked row `Ranked`, the
  slice `TopFive`, and the lemmas about them.
- `Poster` (poster.dfy): the URL choice `PosterUrl` and its inverse `PathOfUrl`.
- `Recommender` (recommender.dfy): the method `Recommend`. Its loop builds
  the four lists. It is specified against the function `Selection` and the
  predicate `Assembled`.

Design choices:

- Python sorts with Timsort. The model sorts by insertion instead. Every
  stable descending sort of `enumerate(row)` gives the same list, and
  `Ranking.RankedIsUnique` proves it: only one ordering of those entries is
  by descending score with ties in ascending position.
- Scores are `real`. The code only compares them, so any total order would do.
- A rating is a `real` that is copied and never inspected.
- The catalog is a `seq<Movie>` whose positions are the table's default range
  index.
- The matrix is a `seq<seq<real>>`. Its shape is not assumed. A selected
  position past the last row, or a ranked position past the end of the
  catalog, is an error path (`PositionOutOfRange`), as the source's indexing
  would raise.
- An unknown title is the error `TitleNotFound`.
- In the source both errors are an `IndexError`.

A recommender would be expected never to suggest the selected movie itself.
This code does not remove the selected position. It drops whatever entry the
sort puts first, and the model does the same.

- `Ranking.HeadIsLowestArgMax` proves that the dropped head is the lowest
  position attaining the row's maximum score.
- `Ranking.SelectedRecommendedIff` proves that the selected position is
  recommended exactly when one to five positions rank ahead of it.
- `Ranking.SelectedCanBeRecommended` gives a concrete case: the row
  `[1, 1, 0]` with position 1 selected recommends position 1 to itself.

The number of recommendations is fixed by the slice `[1:6]`.

## Model

| member | source | states |
|---|---|---|
| `Catalog.Resolve` | app.py:47 | returns a position exactly when some catalog row has the title; that position carries the title and no lower position does (the first row of the filtered table under the default index) |
| `Ranking.InsertDesc` | app.py:49 | one insertion step of the stable descending sort adds exactly the new entry: length grows by one and the multiset gains exactly that entry |
| `Ranking.SortDesc` | app.py:49 | the sort returns a permutation of its input (same length, same multiset) |
| `Ranking.InsertKeepsRanked` | app.py:49 | inserting an entry whose position is later than all positions already placed keeps the list ordered by score descending, ties by ascending position (stability under reverse=True) |
| `Ranking.SortRanks` | app.py:49 | sorting a list whose positions increase (such as `enumerate(row)`) orders it by score descending, ties by ascending position |
| `Ranking.Ranked` | app.py:48-49 | the sorted enumerated row has the row's length, is a permutation of `enumerate(row)`, and is ordered by score descending with ties by ascending position |
| `Ranking.RankedIsPermutation` | app.py:48-49 | every ranked entry is a position in range paired with its own score, every position 0..N-1 occurs, and no position occurs twice |
| `Ranking.RankedIsSorted` | app.py:49 | ranked scores never increase, and among equal scores positions ascend |
| `Ranking.RankedIsUnique` | app.py:49 | reference definition: any permutation of `enumerate(row)` ordered by descending score, ties by ascending position, is exactly the ranked row |
| `Ranking.TopFive` | app.py:49 | the slice `[1:6]` has length min(5, max(0, N-1)) |
| `Ranking.TopFiveEntries` | app.py:49 | each recommendation is a position in range with its own score; no position is returned twice; the dropped head is never returned; the recommendations stay in ranked order |
| `Ranking.TopFiveDominates` | app.py:49 | every position that is neither returned nor the dropped head is outranked by the last recommendation, so its score is at most the last returned score |
| `Ranking.HeadIsLowestArgMax` | app.py:49 | the dropped head is the lowest position attaining the row's maximum, and a position is the head exactly when it is that position |
| `Ranking.PlaceIsRank` | app.py:49 | a position's place in the ranked row equals the number of positions ranked ahead of it |
| `Ranking.RecommendedIffPlace` | app.py:49 | a position is recommended exactly when its place in the ranked row is 1 to 5 |
| `Ranking.SelectedRecommendedIff` | app.py:49 | the selected position is recommended exactly when one to five positions rank ahead of it; none rank ahead exactly when it is the lowest position attaining the maximum |
| `Ranking.SelectedExcludedWhenStrictMax` | app.py:49 | a selected position whose score is strictly above every other score of its row is not recommended |
| `Ranking.SelectedCanBeRecommended` | app.py:49 | with row [1, 1, 0] and position 1 selected, position 1 is among the recommendations (the head dropped is position 0) |
| `Ranking.StableTieOrderExample` | app.py:49 | for row [0.9, 0.5, 0.9, 1.0, 0.9] the recommendations are positions 0, 2, 4 (tied at 0.9, in ascending order) and then 1 |
| `Poster.PosterUrlRoundTrip` | app.py:35-39 | about `PosterUrl`, which models these lines: the URL is the placeholder exactly when the poster path is absent, null or empty; otherwise the path can be read back from behind the image prefix |
| `Recommender.Recommend` | app.py:43-62 | fails exactly when `Selection` (title lookup, matrix row, ranking and slice of app.py:47-49, and the catalog lookups of app.py:56-60) fails, and with the same error; on success the four lists have one entry per ranked pick, and entry j of each holds the title, poster URL, overview and rating of pick j's catalog row |
| `Recommender.WellShapedDataOnlyFailsOnUnknownTitle` | app.py:47-60 | with an N by N matrix over an N-movie catalog, `Selection` fails exactly when the title is absent, and then with `TitleNotFound` |
| `Recommender.SelectionShape` | app.py:47-49 | a successful `Selection` resolves to a row carrying the title and yields min(5, N-1) distinct positions with their own scores, none of them the lowest maximum; the selected position is excluded when its score is strictly the row's largest |

## Left out

- Loading the catalog and the matrix from pickle files and building the
  DataFrame (`load_data`). Both structures are inputs.
- The Streamlit page: `load_css`, `display_recommendations` and `main`. These
  only render HTML and CSS.
- The HTTP request in `fetch_poster`: the URL with its API key, `requests.get`
  and JSON decoding. `Recommend` takes the service's answer as the
  function parameter `posterPathOf`. It maps a movie id to the reported
  `poster_path`, which is `None` when the key is absent or the value is
  JSON null. Network failures, which the source does not catch, are not modelled.
- Floating-point scores. NaN ordering in Python's sort and float equality
  are replaced by exact `real` comparison.
- pandas label versus position indexing. The table is assumed to keep its
  default range index, so `.index[0]` is a position.
- Non-string `poster_path` values are not modelled. The path is either a
  string or missing.
