# Fashion recommender — a verified Dafny model

This project models the core of a small fashion recommender. Ratings are
`(User_ID, Item_ID, Rating)` records. From them the system builds a
users-by-items **pivot table**: each cell is the mean rating of that pair, or
absent when the pair was never rated. It derives **user–user** and
**item–item similarity matrices** by filling absent cells with 0 and applying
cosine similarity. It then recommends in two ways:

- **User-based**: walk the user's most similar users and collect the items
  they rated strictly above a threshold. Drop duplicates and items the user
  already rated, and keep the first `n`.
- **Item-based**: list the ids of the item's similarity row in descending
  order and keep the first `n` after the head.

The web front end shows recommended items as a gallery of cards. Each card
gets a demo picture chosen by category and item id. The items are
de-duplicated by id and dealt out row by row on a grid.

Modules:

- `PivotTable` (`pivot.dfy`): the rating record, the pivot, `BuildPivot`, and
  the facts about its axes and cells.
- `Similarity` (`similarity.dfy`): filling absent cells, transposing, and
  indexing the similarity matrices. The cosine routine is a function
  parameter `cosine`.
- `Ranking` (`ranking.dfy`): `recommend_for_user` as the loop method
  `RecommendForUser`, proved against the function `UserRecommendations`, and
  `recommend_similar_items` as the function `RecommendSimilarItems`.
- `Gallery` (`gallery.dfy`): `_item_image_url` and the de-duplication and grid
  placement of `render_item_gallery`. The latter is the nested-loop method
  `RenderItemGallery`, proved against the function `Layout`.
- `Sequences` (`sequences.dfy`): Python list idioms the core uses. These are
  `dict.fromkeys` (`Dedup`), the filtering comprehension (`Exclude`) and
  slicing `s[:n]` for any integer `n` (`Prefix`).
- `Scenarios` (`scenarios.dfy`): worked examples built from concrete rating
  tables.

pandas' descending sort promises no order among equal scores. The sort's
outcome is therefore an input: `order` lists the positions of the row in some
non-increasing order of score (`Ranking.IsDescendingOrder`), with ties in any
order. `Ranking.ArgSortDescending` shows that such an order exists for every
row. Both rankers then drop the first entry of that order (`.iloc[1:]`),
whatever id it holds.

## Model

| member | source | states |
|---|---|---|
| PivotTable.BuildPivot | recommender/model.py:10-18 | The pivot is well formed: both axes strictly increasing (sorted, no repeats) and one cell per (user, item) |
| PivotTable.SortedDistinct | recommender/model.py:13-14 | An index built from a column is increasing and holds exactly the values of that column |
| PivotTable.IncreasingUnique | recommender/model.py:13-14 | Two increasing lists with the same elements are equal, so each axis is *the* sorted list of distinct ids |
| PivotTable.UserColumnIds | recommender/model.py:13 | The User_ID column holds every record's user and only records' users |
| PivotTable.ItemColumnIds | recommender/model.py:14 | The Item_ID column holds every record's item and only records' items |
| PivotTable.PivotUsers | recommender/model.py:12-14 | The row index is increasing and holds exactly the user ids that occur in the ratings |
| PivotTable.PivotItems | recommender/model.py:12-14 | The column index is increasing and holds exactly the item ids that occur in the ratings |
| PivotTable.Matching | recommender/model.py:15-16 | The values aggregated for a pair are exactly the ratings recorded for that pair: each one comes from such a record, and every such record contributes |
| PivotTable.MatchingAppend | recommender/model.py:15-16 | Gathering a pair's ratings distributes over concatenating rating tables |
| PivotTable.MatchingSingle | recommender/model.py:15-16 | A pair with exactly one record gathers exactly that record's rating |
| PivotTable.MatchingEmptyIff | recommender/model.py:15-16 | A pair gathers no ratings if and only if no record has that user and item |
| PivotTable.MeanTable | recommender/model.py:12-17 | The table has one row per user and one column per item, and each cell is the mean of the ratings gathered for its pair |
| PivotTable.PivotCellAbsentIff | recommender/model.py:12-17 | A pivot cell is the mean of its pair's ratings, and it is absent if and only if the pair was never rated |
| PivotTable.Mean | recommender/model.py:16 | `aggfunc="mean"`: absent exactly when a pair has no ratings; otherwise the value times the number of ratings is their sum |
| PivotTable.SumBounds | recommender/model.py:16 | A sum of n values within [lo, hi] lies within [n·lo, n·hi] |
| PivotTable.MeanBounds | recommender/model.py:16 | The mean of a non-empty list of values within [lo, hi] is present and within [lo, hi] |
| PivotTable.PivotCellBounds | recommender/model.py:12-17 | A rated pair's cell is present and lies between the least and greatest rating recorded for it; a pair rated once holds exactly that rating |
| Similarity.UserSimilarity | recommender/model.py:21-24 | The user matrix is indexed by the pivot's user ids, and is well formed whenever the cosine routine returns one row and one column per user |
| Similarity.ItemSimilarity | recommender/model.py:27-30 | The item matrix is indexed by the pivot's item ids, and is well formed whenever the cosine routine returns one row and one column per item |
| Similarity.FillAbsent | recommender/model.py:22 | Absent cells become 0.0 and present cells keep their value; the shape is unchanged |
| Similarity.Transpose | recommender/model.py:29 | Row j of the transpose is column j of the matrix |
| Similarity.TransposeTwice | recommender/model.py:29 | Transposing twice gives the matrix back |
| Similarity.FillTransposeCommute | recommender/model.py:28-29 | Filling then transposing equals transposing then filling |
| Similarity.TransposePivot | recommender/model.py:27-30 | The item-side view of a pivot is a valid pivot with its axes swapped and cell (x, u) equal to the original's cell (u, x) |
| Similarity.ItemSimilarityIsTransposedUserSimilarity | recommender/model.py:21-30 | Item similarity is user similarity computed on the transposed pivot |
| Similarity.SimilarityIndexing | recommender/model.py:21-30 | For a square cosine result, the user matrix is indexed on both axes by the pivot's user ids and the item matrix by its item ids; score (a, b) is the routine's entry at a's and b's positions |
| Ranking.ArgSortDescending | recommender/model.py:44 | Every similarity row has at least one admissible descending order, so the sort-outcome precondition can always be met |
| Ranking.Ranked | recommender/model.py:44 | The ranked index lists the id at each position of the order |
| Ranking.AboveThresholdIff | recommender/model.py:49 | An item is selected from a row if and only if its cell is present and strictly above the threshold |
| Ranking.AboveThresholdInColumnOrder | recommender/model.py:49 | The selection keeps the row's column order: over an increasing column index the selected ids are increasing |
| Ranking.HighRated | recommender/model.py:48-49 | A neighbour's high-rated items are items of the pivot |
| Ranking.HighRatedInColumnOrder | recommender/model.py:48-49 | A neighbour's high-rated items come in increasing column order |
| Ranking.HighRatedExactly | recommender/model.py:48-49 | Any increasing list holding exactly the items the neighbour rated strictly above the threshold is the high-rated list, element for element |
| Ranking.HighRatedIff | recommender/model.py:48-49 | An item is among a user's high-rated items if and only if that user's cell for it holds a rating strictly above the threshold (equal does not qualify) |
| Ranking.AlreadyRated | recommender/model.py:53 | The already-rated items are items of the pivot |
| Ranking.PresentItems | recommender/model.py:53 | `dropna` keeps exactly the items whose cell is present |
| Ranking.AlreadyRatedIff | recommender/model.py:53 | An item is already rated by u if and only if u's cell for it is present |
| Ranking.Candidates | recommender/model.py:46-50 | The accumulated list holds only items of the pivot |
| Ranking.CandidatesSingle | recommender/model.py:47-50 | One neighbour contributes exactly its high-rated list |
| Ranking.CandidatesSnoc | recommender/model.py:47-50 | Each further neighbour appends its high-rated list at the end |
| Ranking.HighRatedLists | recommender/model.py:47-49 | One high-rated list per neighbour, in neighbour order |
| Ranking.HighRatedListsAppend | recommender/model.py:47-49 | The per-neighbour lists of two runs of neighbours are the first run's followed by the second's |
| Ranking.CandidatesFlatten | recommender/model.py:46-50 | The accumulated list is the neighbours' high-rated lists joined end to end in neighbour order |
| Ranking.CandidatesAppend | recommender/model.py:46-50 | Accumulating over two runs of neighbours gives the first run's list followed by the second's |
| Ranking.CandidatesIff | recommender/model.py:46-50 | An item is in the accumulated list if and only if some neighbour rated it strictly above the threshold |
| Ranking.Neighbours | recommender/model.py:44 | The neighbours are the ids at positions 1.. of the order: one fewer than the users, all of them user ids |
| Ranking.UserRecommendations | recommender/model.py:33-55 | An unknown user gets []; for n >= 0 at most n items are returned |
| Ranking.RecommendForUser | recommender/model.py:33-55 | The loop over the neighbours, followed by de-duplication, removal of rated items and truncation, returns exactly `UserRecommendations` |
| Ranking.UnratedCharacterised | recommender/model.py:46-54 | Before truncation the list holds each qualifying item exactly once, in the order of first occurrence among the neighbours' high-rated items. An item qualifies when it is unrated by u and rated strictly above the threshold by some neighbour |
| Ranking.RecommendationsDistinctAndUnrated | recommender/model.py:52-55 | The result has no repeats and never contains an item the user has any rating for |
| Ranking.RecommendationsQualifyInOrder | recommender/model.py:44-55 | Every returned item was rated strictly above the threshold by a user at position >= 1 of the sorted row, and the result keeps first-occurrence order of the accumulated list |
| Ranking.RecommendationsAreEarliest | recommender/model.py:54-55 | `[:n]` keeps the first qualifying items: if a qualifying item is left out, n items are returned and each of them first occurs before it in the accumulated list |
| Ranking.RecommendationsLength | recommender/model.py:54-55 | For n >= 0 the result has min(n, #qualifying) items; when shorter than n it holds every qualifying item |
| Ranking.SelfNotNeighbourWhenStrictlyTop | recommender/model.py:43-44 | When the user's self-similarity is strictly the largest in its row, the dropped head is the user itself and the user is not a neighbour |
| Ranking.SelfCanBeNeighbourOnTie | recommender/model.py:44 | With a tie at the top of the user's row, the positional drop can keep the user as its own neighbour |
| Ranking.RecommendSimilarItems | recommender/model.py:58-67 | An unknown item gets []; otherwise entry k of the result is the id at position k + 1 of the sort order (the head is dropped by position), and for n >= 0 there are min(n, #items - 1) of them |
| Ranking.SimilarItemsDropHead | recommender/model.py:65-66 | Whatever id sorts first, the queried item or a tied one, is never among the similar items |
| Ranking.ScoreAtPosition | recommender/model.py:65 | With distinct ids, the score of the id at position k is entry k of the row |
| Ranking.RankedScoresDescend | recommender/model.py:65 | Along the descending order, an id ranked earlier scores at least as much as one ranked later |
| Ranking.InRanked | recommender/model.py:65 | Every id of the matrix occurs in the ranked list |
| Ranking.SimilarItemsRanked | recommender/model.py:65-67 | The result is distinct ids of the matrix with non-increasing similarity to the item |
| Ranking.SimilarItemsAreNearest | recommender/model.py:65-67 | Every id left out, other than the dropped head, scores no higher than any id returned |
| Ranking.SimilarItemsExcludeSelfWhenStrictlyTop | recommender/model.py:65-66 | When the item's self-similarity is strictly the largest in its row, the item is not among its similar items |
| Ranking.SimilarItemsCanReturnSelf | recommender/model.py:65-66 | As written: two items with equal similarity 1.0 and the other item sorted first; querying item 20 returns [20] |
| Ranking.RankedDistinct | recommender/model.py:65 | Listing distinct ids along a repeat-free order gives distinct ids |
| Ranking.RankedIsPermutation | recommender/model.py:65 | The sorted row's index lists every id of the matrix exactly once |
| Ranking.SimilarItemsExcludingSelf | recommender/model.py:63-67 | Corrected ranking: the item is removed by id; the result never contains it, holds only matrix ids, and is [] for an unknown item |
| Ranking.ExcludingSelfLength | recommender/model.py:63-67 | The corrected ranking returns min(n, #items - 1) distinct ids, none of them the item |
| Ranking.ExcludingSelfNearest | recommender/model.py:63-67 | Corrected ranking, ties at the top included: no other item left out scores higher than an item returned |
| Ranking.ExcludingSelfOrdered | recommender/model.py:65-67 | The corrected ranking keeps scores non-increasing |
| Ranking.ExcludingSelfAgreesWhenStrictlyTop | recommender/model.py:65-67 | When self-similarity is strictly the largest, the corrected ranking equals the code as written |
| Sequences.Dedup | recommender/model.py:54 | `dict.fromkeys` yields each element exactly once: no repeats, nothing added, nothing lost |
| Sequences.DedupOrder | recommender/model.py:54 | `dict.fromkeys` keeps elements in first-occurrence order |
| Sequences.Exclude | recommender/model.py:54 | The comprehension keeps exactly the elements not in the dropped list, and never lengthens the list |
| Sequences.ExcludeNoDuplicates | recommender/model.py:54 | Filtering a repeat-free list leaves it repeat-free |
| Sequences.ExcludeOrder | recommender/model.py:54 | Filtering preserves first-occurrence order |
| Sequences.Flatten | recommender/model.py:50 | Repeated `extend` keeps every element of every list joined, and adds nothing that is in none of them |
| Sequences.FlattenSingle | recommender/model.py:50 | Joining one list gives that list; with `FlattenAppend` this fixes the joined list exactly, order and repeats included |
| Sequences.FlattenAppend | recommender/model.py:47-50 | Joining lists end to end distributes over concatenating the lists of lists |
| Sequences.Prefix | recommender/model.py:55 | `s[:n]` is a prefix of s of length min(n, \|s\|) for n >= 0, and max(0, \|s\| + n) for negative n |
| Sequences.PrefixNoDuplicates | recommender/model.py:55 | Truncation keeps a list repeat-free |
| Sequences.PrefixOrder | recommender/model.py:55 | Truncation preserves first-occurrence order |
| Sequences.PrefixBefore | recommender/model.py:55 | In a truncated list, a kept element sits at a position before that of an element cut off |
| Sequences.PrefixEarlier | recommender/model.py:55 | Truncating a list in first-occurrence order keeps only elements that first occur before any element cut off |
| Gallery.PicturesFor | app.py:111-115 | A missing or empty category, or one absent from the map, has no pictures; otherwise it has the map's list |
| Gallery.ImageUrlIn | app.py:109-119 | With no usable pictures the URL is the fallback; otherwise it is one of the category's pictures, the first one when there is no item id |
| Gallery.ItemImageUrl | app.py:109-119 | The URL is `ImageUrlIn` over the built-in category pictures, so the periodicity and small-id lemmas apply to it; an item of a listed category gets one of that category's pictures |
| Gallery.PeriodicMod | app.py:119 | Helper: Euclidean division is unique, so for 0 <= m < n, (q·n + m) mod n = m with quotient q; this is the step that lets `ImageUrlPeriodic` treat Python's `%` with a positive divisor |
| Gallery.ImageUrlPeriodic | app.py:119 | Ids a whole number of cycles apart, negative ids included, get the same picture |
| Gallery.ImageUrlSmallIds | app.py:119 | Ids 0 .. n-1 pick the n pictures in listed order; with periodicity this fixes the pick for every id |
| Gallery.ShirtPictures | app.py:64-119 | Shirt item -1 gets the second shirt picture, item 4 and a missing id the first; an unknown or empty category gets the fallback |
| Gallery.UniqueItems | app.py:128 | The kept records are input records and are no more than the input |
| Gallery.UniqueItemIds | app.py:128 | The kept ids are the input ids de-duplicated in first-occurrence order |
| Gallery.UniqueKeepsFirst | app.py:128 | Each kept record is the first input record carrying its id |
| Gallery.UniqueItemsCharacterised | app.py:123-128 | The kept ids are distinct and cover every input id in first-occurrence order, and the result is empty exactly when the input is |
| Gallery.RowCount | app.py:129 | The row count is the least number of rows of `cols` cards that holds all the cards |
| Gallery.Layout | app.py:130-142 | One card per unique item; card k shows unique item k with the picture `_item_image_url` gives for its id and category |
| Gallery.LayoutInOrder | app.py:130-142 | Card k shows unique item k and its picture, in a column < cols, on the cell numbered k in row-major order, so each item is placed once and in input order |
| Gallery.RowBounds | app.py:129-134 | Index k lies on a row below the row count, and the last index on the last row |
| Gallery.LayoutFillsRows | app.py:129-138 | Every card is inside the grid's rows and the last card is on the last row, so no row is empty |
| Gallery.RenderItemGallery | app.py:122-142 | Empty input gives the "no items" notice and nothing else; otherwise the grid has ceil(#unique / cols) rows and the nested loops place exactly `Layout`'s cards |
| Scenarios.DuplicatesAxes | recommender/model.py:12-14 | Two ratings of user 1 for item 1 give axes [1] and [1] |
| Scenarios.DuplicatesMean | recommender/model.py:16 | Ratings 2.0 and 4.0 of one pair average to 3.0 |
| Scenarios.DuplicatesAveraged | recommender/model.py:10-18 | The pivot of those two ratings is the 1×1 table holding 3.0 |
| Scenarios.EmptyTable | recommender/model.py:10-18 | No ratings give a pivot with no rows and no columns |
| Scenarios.TableUsers | recommender/model.py:12-13 | The five-record example table has users [1, 2] |
| Scenarios.TableItems | recommender/model.py:12-14 | The five-record example table has items [10, 20, 30] |
| Scenarios.TableMeans | recommender/model.py:15-16 | The example table's cells are the single ratings, and (1, 30) is absent |
| Scenarios.ExampleMeanTable | recommender/model.py:12-17 | The example table's cells, in row and column order, are the expected 2×3 table |
| Scenarios.TablePivotIsBuilt | recommender/model.py:10-18 | The example table's pivot is exactly the expected 2×3 table |
| Scenarios.TablePivotCells | recommender/model.py:48 | Looking up the expected pivot by id gives its cells |
| Scenarios.ExampleNeighbours | recommender/model.py:44 | When user 1 is strictly most similar to itself, its only neighbour is user 2 |
| Scenarios.ExampleQualifying | recommender/model.py:46-54 | Item 30 qualifies for user 1 exactly when the threshold is below 4.0 |
| Scenarios.OneQualifying | recommender/model.py:52-55 | With exactly one qualifying item and room for at least two, that item alone is recommended |
| Scenarios.ExampleRecommendations | recommender/model.py:33-55 | User 1 is recommended [30] for thresholds below 4.0 and [] otherwise; the threshold is strict |
| Scenarios.EndToEnd | recommender/model.py:10-55 | From the ratings through the pivot, user 1 is recommended [30] for thresholds below 4.0 and [] at 4.0 or above |

## Left out

- Cosine similarity itself (scikit-learn's `cosine_similarity`, including its zero-vector convention) is a function parameter. Symmetry, the unit diagonal and the [-1, 1] range of its scores are not modelled. The ranking lemmas that need self-similarity to be the strict maximum take that as a precondition instead.
- Floating point: ratings, means and scores are exact reals.
- pandas details: dtype promotion, NaN handling beyond absent cells, `pivot_table` options other than those used, and the sort algorithm itself. The sort's outcome is an input constrained to be some non-increasing order.
- Ranking.UserRecommendations: `recommend_for_user` is modelled with `sim.ids == p.users`. The only caller builds both from the same pivot (app.py:193-194, 209). A matrix indexed by a reordering or a subset of the pivot's users also runs in the source and is not modelled. `RecommendSimilarItems` requires only a well-formed matrix.
- Ranking.UserRecommendations: the comment at recommender/model.py:43 says the user itself is excluded from the neighbours. That holds only when self-similarity is strictly the top score (`SelfNotNeighbourWhenStrictlyTop`). The code drops the head of the sorted row by position (`SelfCanBeNeighbourOnTie`). Recommendations are unaffected in the usual tie, where a user's twin has the same rating vector: every item the twin rated highly is then already rated by the user.
- `data.py` (synthetic data and CSV loading) is not part of this model.
- The rest of `app.py` is not part of this model: the Streamlit page, CSS, sidebar, heat maps, caching, and filtering or sorting tables for display.
- Gallery.RenderItemGallery: the card's caption, category and price text, the title line and the image height are page output and are not modelled. The model requires `colsPerRow >= 1`; the page's slider only offers 2 to 6, and 0 would divide by zero in the source.
- Gallery.GalleryItem: Item_ID is an integer and Category a string or missing. pandas values such as NaN or floats in those columns are not modelled.

## Findings

| source | as written | input that shows it | evidently intended | confidence | as-written member | corrected member |
|---|---|---|---|---|---|---|
| recommender/model.py:65-67 | `recommend_similar_items` drops the first entry of the sorted row (`.iloc[1:]`), assuming it is the queried item | Items 10 and 20 have identical rating columns, so all four similarities are 1.0. The tie leaves 10 first, and querying 20 returns [20]: the item itself | Remove the queried item by id, then take the first n ids | not executed | Ranking.SimilarItemsCanReturnSelf | Ranking.SimilarItemsExcludingSelf |
