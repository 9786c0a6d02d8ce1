# Table reconstruction of the document analysis app

The app uploads a document to a backend, asks for its analysis, and shows the result.
The analysis reply holds a flat list of text fragments. Each fragment has a `Text`, a
`RowIndex` and a `ColumnIndex`. `display_dataframes` rebuilds tables from that list in
three steps:

- **Marker scan.** It finds the positions of the fragments whose text is exactly
  `"Date:"` or `"Item"`.
- **Segmentation loop.** It cuts the list into runs. The cut points are 0, every marker
  position except the first, and the list's length.
- **Pivot.** It turns each run into a grid keyed by the fragments' own row and column
  indices. Texts in the same cell are joined with single spaces. Empty cells hold `''`.

The project models these three steps and the branching of `main` around them.

Modules:

- `Wrappers` (wrappers.dfy) holds `Option` and `Result`.
- `Ordered` (ordered.dfy) holds two helpers:
  - the ascending index list a boolean filter with `.index.tolist()` produces (`Positions`);
  - the sorted distinct keys of a pivot table (`SortedDistinct`).
- `Text` (text.dfy) holds `' '.join` (`Join`) and its inverse `split(' ')` (`Split`).
- `TableGrid` (table_grid.dfy) holds the fragment and grid datatypes and the pivot.
- `Segmentation` (segmentation.dfy) holds:
  - the marker scan;
  - the cut points and the runs;
  - the specification function `Reconstruct`;
  - the loop itself, the method `ReconstructTables`, proved equal to `Reconstruct`.
- `Orchestrator` (orchestrator.dfy) models `main` as a function of:
  - whether the button was pressed;
  - the uploaded file;
  - two function parameters standing for the two backend helpers.

  It returns the backend calls made and where the run ended.

Where app.py departs from what its comments and names suggest, the model follows the code:

- **Fragments before the first marker are kept.** They fall into the first run, because
  `start_index` begins at 0 and the first marker is not a cut point.
- **No markers means one grid.** A non-empty list without markers still gives one grid,
  covering the whole list (`marker_indices[1:] + [len(tables)]` is `[len(tables)]`).
- **One grid per marker.** With m ≥ 1 markers there are exactly m grids, not m − 1.
- **An empty fragment list fails.** The frame has no `Text` column, so line 78 raises.
  The model returns `Failure(MissingTextColumn)` for it.

## Model

| member | source | states |
|---|---|---|
| Segmentation.MarkerPositions | app.py:77-78 | The marker positions strictly increase, and an index is among them exactly when it is in range and its fragment's text is a marker. |
| Segmentation.IsMarker | app.py:77-78 | The `isin(table_markers)` test, with `TableMarkers` the constant `["Date:", "Item"]`: a fragment is a marker exactly when its text equals `"Date:"` or `"Item"`, with no trimming or case folding. |
| Ordered.Positions | app.py:78 | A boolean filter's index list strictly increases, stays in range, and holds exactly the indices whose element passes the test. |
| Ordered.PositionsFrom | app.py:78 | The index list from position i on strictly increases and lies between i and the length. |
| Ordered.PositionsFromMembers | app.py:78 | The index list from position i on holds exactly the indices from i on whose element passes the test. |
| Ordered.PositionsFromCount | app.py:78 | The index list from position i on has one entry per passing element of the suffix. |
| Ordered.PositionsCount | app.py:78 | The index list has one entry per passing element, so there are as many marker positions as marker fragments. |
| Segmentation.CutPoints | app.py:82-83 | The cut points are 0, then the marker positions after the first, then the length. They never decrease, and there are two of them without markers and one more than the markers otherwise. |
| Segmentation.Cuts | app.py:82-83 | The same facts for a fragment list: the cut points begin at 0, end at the list's length, never decrease, and the inner ones are the marker positions after the first. |
| Segmentation.RunEnds | app.py:83 | The loop's end indices `marker_indices[1:] + [len]` are the cut points after the first. |
| Segmentation.Segments | app.py:82-86 | The runs `iloc[start:end]`: one run when there is no marker and one per marker otherwise, and run k is the fragments between cut points k and k+1. |
| Segmentation.Slices | app.py:84 | There is one run per pair of consecutive cut points, and run k is the slice between cut points k and k+1. |
| Segmentation.Reconstruct | app.py:74-86 | The table step fails exactly when the fragment list is empty. |
| Segmentation.ReconstructTables | app.py:81-86 | The loop that appends the pivot of `iloc[start:end]` and moves `start` to `end` returns exactly `Reconstruct`: one pivot per run, in run order. |
| Segmentation.ReconstructByCuts | app.py:81-86 | On a non-empty list, any list of grids whose k-th entry pivots the slice between cut points k and k+1 is the reconstruction. |
| Segmentation.GridCount | app.py:83 | Without markers the result is the single pivot of the whole list. With markers there are as many grids as marker fragments. |
| Segmentation.ConcatSlices | app.py:82-86 | Concatenating the runs between the cut points gives back the slice from the first cut point to the last. |
| Segmentation.SegmentsPartition | app.py:82-86 | The runs concatenate to the whole input, so nothing is dropped, including the fragments before the first marker. |
| Segmentation.CutsIncrease | app.py:82-86 | On a non-empty list the cut points strictly increase, so every run is non-empty and the runs come in order of their start positions. |
| Segmentation.CutPointsLocate | app.py:78-83 | An index between cut points k and k+1 is a marker position exactly when it is the k-th marker position. |
| Segmentation.SegmentAt | app.py:84 | Element j of run k is the fragment at cut point k plus j. |
| Segmentation.SegmentMarkers | app.py:78-86 | A fragment of run k is a marker exactly when it is the first marker fragment, which lies in run 0, or the first fragment of a later run. |
| Segmentation.SegmentStarts | app.py:78-86 | Every run after the first is non-empty and begins with a marker fragment. |
| Segmentation.ExampleMarkers | app.py:77-78 | For a title, a date row and an item row, the marker positions are `[1, 3]`. |
| Segmentation.ExampleCuts | app.py:82-83 | For the same list the cut points are `[0, 3, 6]`, so the title stays in the first run. |
| Segmentation.ExampleTables | app.py:81-86 | For the same list the result is two grids: the pivots of fragments 0..3 and 3..6. In the second, "B" and "C" share cell (2, 1), which holds "B C". |
| TableGrid.RowIndices | app.py:84 | The `RowIndex` column has one entry per fragment, and a value occurs in it exactly when some fragment has that row. |
| TableGrid.ColumnIndices | app.py:84 | The `ColumnIndex` column has one entry per fragment, and a value occurs in it exactly when some fragment has that column. |
| Ordered.InsertSorted | app.py:84 | Inserting a key into a strictly increasing key list keeps it strictly increasing and adds exactly that key. |
| Ordered.SortedDistinct | app.py:84 | A pivot table's keys strictly increase and are exactly the values present. |
| TableGrid.TextsAt | app.py:84 | The group of texts at (r, c) that `pivot_table` hands to `' '.join`: no longer than the run, and empty exactly when no fragment sits at row r and column c. |
| TableGrid.Pivot | app.py:84 | The grid's rows and columns are strictly increasing and are exactly the row and column indices present in the run, not renumbered. It has a cell for every row and column combination. |
| TableGrid.TextsAtFrom | app.py:84 | The texts grouped at (r, c) from position i on are the texts at the run's matching indices, in their order. |
| TableGrid.PivotCell | app.py:84 | For the row of one fragment of the run and the column of another, the cell exists. Cell (r, c) holds the texts of exactly the run's fragments at row r and column c, in their original relative order, joined with single spaces. |
| TableGrid.PivotEmptyCell | app.py:84 | A combination of a row and a column present in the run that no fragment occupies holds `''` (`fillna('')`). |
| TableGrid.PivotSingleCell | app.py:84 | A cell that exactly one fragment occupies holds that fragment's text unchanged. |
| TableGrid.ExampleCellPositions | app.py:84 | For an item row whose last two fragments share cell (2, 1), the fragments at that cell are positions 1 and 2. |
| TableGrid.ExampleCellText | app.py:84 | For the same run, the joined texts at (2, 1) are "B C". |
| TableGrid.ExampleJoinedCell | app.py:84 | For the same run, the pivot has cell (2, 1) and it holds "B C". |
| Text.Join | app.py:84 | `' '.join`: the first text is a prefix of the result. Its full contract is the round trip with `Split` in `Text.JoinSplit` and `Text.SplitJoin`. |
| Text.Split | app.py:84 | Not a model of a source line: app.py never splits. `split(' ')` is the inverse against which the round trip of line 84's `' '.join` is stated. It gives at least one piece, and no piece holds a space. |
| Text.JoinSplit | app.py:84 | Joining the pieces of a split with single spaces gives back the original text. |
| Text.SplitJoin | app.py:84 | Texts without spaces, joined with single spaces, split back into exactly those texts, so the joined cell keeps every fragment's text apart. |
| Orchestrator.DisplayTables | app.py:63-91 | An empty reply body shows nothing. A decoded body's table step fails exactly when its fragment list is empty; otherwise it shows the grids of `Reconstruct`. |
| Orchestrator.PressAnalyze | app.py:108-128 | The run for each path of `main`. Without a press nothing happens. Without a file no call is made and the run ends in `NoDocument`. A failed upload makes exactly the one upload call and ends in `UploadFailed` with the helper's error. After a successful upload the calls are exactly the upload and then one analysis request carrying the returned URI and the two fixed queries. A failed analysis ends in `AnalysisFailed` with the helper's error; a successful one ends in `Processed` with `DisplayTables` of the analysis body. |
| Orchestrator.FlowRules | app.py:108-128 | After a press: without a file no call is made and an error is shown. The analysis is requested exactly when the upload succeeded, as the second and last call. A failed upload shows "Failed to upload document to S3: " followed by the helper's error, and a failed analysis shows "Processing error: " followed by its error. The result display (`display_dataframes`) runs exactly when both calls succeed; it may still show no tables, for an empty body or an empty fragment list. |
| Orchestrator.ErrorMessage | app.py:113-128 | `st.error` in `main` is called exactly for a missing file, a failed upload or a failed analysis. For the two failures, the shown text ends with the backend's error. |

## Left out

- The two HTTP helpers (app.py:13-61) are network I/O with fixed URLs. They are the
  `upload` and `analyze` parameters of `Orchestrator.PressAnalyze`, and a reply is
  either an error or a success. Status codes, timeouts and the `st.error` calls inside
  the helpers are not modelled.
- The base64 encoding of the upload is a standard library call. A document is its
  name and bytes.
- `json.loads` of the two reply bodies (app.py:65, 118) is a foreign parser. The
  decoded values are given directly: a stored-document URI, and an analysis result
  holding the fragment list. Malformed JSON and missing keys (`body` at app.py:118
  and 125, `s3_uri`, `keyValuePairs`, `tables`, `queries`), which raise in app.py,
  are not modelled.
- The key-value and query sections of `display_dataframes` (app.py:67-71, 93-97) build
  a frame from a list and show it unchanged. There is no logic to model.
- Streamlit rendering, the "show if not empty" checks, `st.success` and `st.json` are
  UI only. `Orchestrator.PressAnalyze` records the outcome and the calls made instead.
- Logging (app.py:10, 116-117) and `print` (app.py:50) have no effect on the result.
- TableGrid.Pivot: fragments are records with a string text and integer row and
  column indices. A NaN or non-string `Text` makes `' '.join` raise TypeError inside
  `pivot_table`; the model has no such texts. NaN row or column keys, which the
  grouping drops, and non-integer keys, which are kept and sorted as they are, are not
  modelled either.
- Orchestrator.PressAnalyze: an exception that escapes `main`, such as the KeyError
  for an empty fragment list, is shown by Streamlit as an error page. The model ends
  such a run in `Processed(TablesFailed(..))`, and `ErrorMessage` covers only the
  `st.error` calls in `main`.
- Orchestrator.DisplayTables: a reply body that is present but empty counts as
  `EmptyBody`, because `if response_body:` is false for it. The model does not
  distinguish `None` from `""`.
