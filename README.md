# Gene-expression processor: validation, row selection and clustered-result assembly

This project models the structural logic of `GeneExpressionProcessor` in
`backend/app.py`, the Flask back end of a gene-expression heat-map service. A request names
a list of gene symbols. The processor:

- checks each symbol against the row labels of two reference datasets (BrainSpan and GTEx);
- selects the matching rows of each dataset;
- builds a clustered heat-map result for each selection: a matrix reordered by the leaf
  orders of a hierarchical clustering of genes and of samples, the labels permuted with
  it, and one dendrogram record per clustered axis.

The numeric parts are outside the model. The per-gene z-score (`StandardScaler` followed by
`np.nan_to_num`), scipy's average-linkage clustering and the leaf order of scipy's
`dendrogram` are passed in as opaque functions (`GeneExpression.Numerics`). The model
relies on these guarantees from the library, written `LibraryFits`:

- the normalised matrix has the input's shape;
- each leaf order is a permutation of the axis it orders.

Cells have an abstract type `V`.

Modules:

- `PyStrings` (strings.dfy): Python's `str.strip()` (with the full `str.isspace` set of
  whitespace characters) and `str.upper()` (ASCII letters).
- `Sequences` (sequences.dfy): picking by index lists, the positions a boolean mask keeps,
  and permutations of `0..n-1` with their inverses.
- `Frames` (frames.dfy): the DataFrame model. It includes pandas' `empty`, which is true as
  soon as either axis has length zero. It also holds `df.loc[df.index.isin(...)]`,
  transposition and `np.ix_` reordering.
- `GeneExpression` (processor.dfy): validation (an imperative loop proved against the
  specification function `Partition`), `get_expression_data`, `cluster_data` and
  `_prepare_dendrogram_data`.

Behaviour of `backend/app.py` worth noting, all of it modelled:

- A frame with one row is returned with its raw values and labels, unnormalised and
  without dendrograms (backend/app.py:99-106).
- A dendrogram record holds the axis labels in their original order, together with the
  order used to permute that axis (backend/app.py:137-138, 155-159).
  `DendrogramsAlign` proves that reading the labels in that order gives the reordered
  axis.
- "Empty" is pandas' `DataFrame.empty`: no rows or no columns. Such a dataset contributes no
  available genes (backend/app.py:66-69). Clustering such a frame returns empty data, gene
  and sample lists even when the frame still has row or column labels
  (backend/app.py:99-103).

## Model

| member | source | states |
|---|---|---|
| PyStrings.Strip | backend/app.py:72 | `strip()` never lengthens a symbol and leaves no whitespace at either end |
| PyStrings.StripIsTrim | backend/app.py:72 | the stripped symbol is one contiguous slice of the input, with only whitespace removed before and after it |
| PyStrings.StripLeadingSpec | backend/app.py:72 | the leading part `strip()` drops is all whitespace, and what remains does not start with whitespace |
| PyStrings.StripTrailingSpec | backend/app.py:72 | the trailing part `strip()` drops is all whitespace, and what remains does not end with whitespace |
| PyStrings.StripTrimmed | backend/app.py:76 | a symbol with no whitespace at either end is left unchanged by `strip()` |
| PyStrings.StripIdempotent | backend/app.py:76 | stripping twice is the same as stripping once |
| PyStrings.Upper | backend/app.py:72 | `upper()` keeps the length of the symbol (ASCII mapping only, see below) |
| PyStrings.UpperSpec | backend/app.py:72 | `upper()` keeps the length, leaves no lower-case ASCII letter, changes only such letters and keeps whitespace where it was |
| PyStrings.UpperIdempotent | backend/app.py:72 | upper-casing twice is the same as upper-casing once |
| PyStrings.Canonical | backend/app.py:72 | the looked-up form `gene.strip().upper()` has no whitespace at either end and, under the ASCII mapping, is no longer than the request |
| PyStrings.CanonicalTrimmed | backend/app.py:72 | the looked-up form `gene.strip().upper()` has no edge whitespace, no lower-case ASCII letter and, under the ASCII mapping, is no longer than the request |
| PyStrings.CanonicalIdempotent | backend/app.py:72-74 | a valid symbol's looked-up form is itself, so re-submitting a valid symbol finds it again |
| GeneExpression.AvailableGenes | backend/app.py:65-69 | a symbol is available exactly when it is a row label of a dataset that is not empty; with both datasets empty nothing is available |
| GeneExpression.Processor.CollectAvailableGenes | backend/app.py:65-69 | the set built by starting empty and adding each non-empty dataset's index holds exactly the row labels of the non-empty datasets |
| GeneExpression.Partition | backend/app.py:61-78 | every request lands in exactly one of the two lists: their lengths add up to the number of requests |
| GeneExpression.PartitionByPositions | backend/app.py:71-76 | `valid` is the upper-cased stripped form of each available request and `invalid` the stripped form of each other request, both in request order |
| GeneExpression.PartitionSound | backend/app.py:72-76 | every valid entry is available and trimmed; every invalid entry is trimmed and its upper-cased form is not available |
| GeneExpression.NothingAvailable | backend/app.py:71-76 | with an empty available set, `valid` is empty and `invalid` is every request stripped, in order |
| GeneExpression.NoDataNoValidGene | backend/app.py:65-76 | when both datasets are empty, no request is valid and every request is reported stripped |
| GeneExpression.RevalidationKeepsValid | backend/app.py:71-76 | validating the `valid` list again accepts all of it unchanged and rejects nothing |
| GeneExpression.Processor.ValidateGenes | backend/app.py:59-78 | the loop returns exactly `Partition` of the requests over the available-gene set of the two datasets |
| GeneExpression.Processor.constructor | backend/app.py:32-35 | the processor holds the two loaded datasets |
| GeneExpression.Processor.GetExpressionData | backend/app.py:80-95 | both subsets are well-formed frames, each row carries a requested label, an empty dataset gives `pd.DataFrame()`, and a non-empty dataset's subset keeps all of its columns and exactly the rows the `isin` mask selects, in dataset order, each with its own cells |
| Frames.Frame.IsEmpty | backend/app.py:66 | pandas' `empty` holds exactly when the frame has no cell (rows times columns is zero); a well-formed empty frame holds no cell values |
| Frames.EmptyFrame | backend/app.py:82-83 | `pd.DataFrame()` is a well-formed empty frame |
| Frames.KeepRows | backend/app.py:86-88 | the rows kept are exactly those at the positions the `isin` mask selects, labels and cells together, in dataset order |
| Frames.SelectRows | backend/app.py:82-93 | an empty dataset yields `pd.DataFrame()`; otherwise the requested rows in dataset order with all columns, as a well-formed frame |
| Frames.SelectRowsExact | backend/app.py:85-93 | every selected row carries a requested label, and every row of a non-empty dataset with a requested label is selected, with that row's own cells |
| Frames.SelectRowsIgnoresRequestOrder | backend/app.py:86-92 | the selection depends only on which symbols are requested, not on their order or repetition |
| Sequences.Positions | backend/app.py:87 | the positions a boolean mask keeps are valid row positions, no more of them than rows |
| Sequences.PositionsSpec | backend/app.py:87 | the mask keeps exactly the positions it accepts, each once, in increasing order |
| Sequences.PositionsCongruent | backend/app.py:87 | two masks that agree on every row keep the same positions |
| Sequences.Range | backend/app.py:131 | `list(range(n))` lists `0..n-1` in order |
| Sequences.Pick | backend/app.py:142-143 | `[labels[i] for i in order]` has one entry per index, each the label at that index |
| Sequences.PickPermutationMultiset | backend/app.py:142-143 | relabelling by a permutation keeps every label exactly as often as before |
| Sequences.PickInverse | backend/app.py:142-143 | relabelling by a permutation is undone by relabelling with its inverse |
| Sequences.Inverse | backend/app.py:134 | the inverse of a permutation is a permutation and composes with it to the identity on both sides |
| Sequences.PermutationOnto | backend/app.py:119 | a leaf order that is a permutation of `0..n-1` reaches every index |
| Frames.Transpose | backend/app.py:126 | `z.T` swaps the axes: cell `[j][i]` of the result is cell `[i][j]` of `z` |
| Frames.TransposeTwice | backend/app.py:126 | transposing twice gives back the matrix: `.T` loses nothing |
| Frames.Reorder | backend/app.py:134 | `z[np.ix_(rows, cols)]` has one row per row index and one column per column index, with cell `[i][j]` equal to `z[rows[i]][cols[j]]` |
| Frames.ReorderInverse | backend/app.py:134 | reordering by two permutations is undone by reordering with their inverses |
| GeneExpression.RowClustering | backend/app.py:116-119 | the row leaf order of a frame with at least two rows is a permutation of its rows |
| GeneExpression.ColumnClustering | backend/app.py:125-131 | the column order is a permutation of the columns; a single column has no linkage and the order `[0]` |
| GeneExpression.PrepareDendrogramData | backend/app.py:148-159 | an absent linkage gives no record; otherwise the record holds the linkage, the labels and the order unchanged |
| GeneExpression.ClusterData | backend/app.py:97-146 | an empty frame gives empty lists; a one-row frame comes back unnormalised and unreordered; neither has dendrograms. Otherwise the result is M×N with `data[i][j] == z[rows[i]][cols[j]]`, labels permuted in lock step, a row dendrogram always, and a column dendrogram exactly when there are at least two columns |
| GeneExpression.ClusterLabelsArePermutations | backend/app.py:142-143 | the clustered gene and sample lists are rearrangements of the frame's labels: nothing lost, nothing repeated |
| GeneExpression.ClusterDataUndo | backend/app.py:134-141 | permuting the clustered matrix back by the inverse leaf orders recovers the normalised matrix exactly |
| GeneExpression.DendrogramsAlign | backend/app.py:137-143 | each dendrogram's labels read in its order are exactly the reordered labels of that axis |
| GeneExpression.ClusteredGenesWereRequested | backend/app.py:198-201 | clustering a selection never shows a gene that was not requested |

## Left out

- HTTP routes, request parsing, error responses and the module-level `processor` instance
  (backend/app.py:162-217) are not modelled. Only the composition at backend/app.py:198-201
  (select the rows of the valid genes, then cluster them) is modelled, by
  `ClusteredGenesWereRequested`.
- File loading in `_load_data` (backend/app.py:37-57) is not modelled. The constructor takes
  the two loaded frames. A missing file gives `EmptyFrame()` for that dataset. An error while
  reading either file gives `EmptyFrame()` for both, so a BrainSpan frame that loaded is
  dropped when the GTEx read fails.
- The z-score normalisation and the NaN replacement (backend/app.py:109-113) are floating
  point work in a library. They are the opaque `Numerics.normalize`, trusted only to keep
  the shape.
- scipy's `linkage` and `dendrogram` (backend/app.py:117-118, 126-127) are opaque.
  - Their leaf orders are trusted to be permutations; the model does not derive them.
  - The contents of the linkage matrix are passed through unchecked.
- The `else` branch of the row clustering (backend/app.py:120-122) cannot run: by then the
  frame has at least two rows. It is not modelled. `ClusterData`'s contract shows that the
  row dendrogram is always present there.
- scripts/download_data.py (network download, archive extraction, CSV rewriting) is not part
  of this model.
- PyStrings.Upper: upper-cases ASCII letters only. Python's full Unicode case mapping,
  including mappings that change the length such as `ß` to `SS`, is not modelled.
- PyStrings.Canonical: "no longer than the request" holds for the ASCII mapping only; with
  Python's mapping `'ß'.strip().upper()` is `'SS'`.
- Row labels are strings. A non-string request element, which makes `strip()` raise in
  the source, is excluded by the type of the request list.
