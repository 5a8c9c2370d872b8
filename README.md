# Missing values, duplicates and redundant columns of the life-expectancy dataset

This project models three read-only steps of the cleaning stage of a
life-expectancy analysis pipeline, together with proofs about them:

- `RemovendoColunas` prunes five fixed columns that are redundant or highly
  correlated. Listed names that are not columns are skipped.
- `Duplicatas.verificar_duplicatas` counts the rows that repeat an earlier row
  on a chosen subset of columns. An unknown column in the subset is an error.
- `AnaliseValoresAusentes` gives three summaries of missing cells:
  - the count per column;
  - the countries having a row with a missing cell;
  - the total per country, sorted from most to fewest.

Every operation only reads its frame and returns a new value. The classes
hold nothing but the frame they were given, and the pruner also holds its fixed
list. So each operation is a Dafny function of the frame, and none is a class
with updated fields.

Files:

- `frames.dfy` (module `Frames`): the frame, its cells, `Result`, and counting helpers.
- `redundant_columns.dfy` (module `RedundantColumns`): `colunas_redundantes.py`.
- `duplicates.dfy` (module `Duplicates`): `duplicatas.py`.
- `missing_values.dfy` (module `MissingValues`): `valores_ausentes.py`.

How pandas is modelled:

- **Frames.**
  - A `Frame` has distinct column names, and every row holds one cell per column.
  - A cell is `Missing` (what `isnull()` reports), a number (`real`) or a text.
  - Column lookup is by name, through `IndexOf`.
- **Missing cells compare equal.** `Missing` equals `Missing`, as in
  `duplicated` and `unique`, which treat NaN values as equal.
- **Groups.** `groupby(df['Country'])` forms no group for rows whose `Country`
  is missing. Such a row still counts in the per-column totals. It also puts
  the missing marker into the country list, because `unique()` keeps NaN.
- **Sorting.** `sort_values(ascending=False)` is unstable. The model sorts
  with a stable insertion sort, but it promises only what pandas promises:
  - the result is non-increasing;
  - it is a permutation of the group totals;
  - each country appears once, with its own total.
- **Where the docstring and the code disagree, the model follows the code.**
  - The docstring of `remover_colunas` (`colunas_redundantes.py:38-39`) says
    that an absent column raises `KeyError`. The code (line 46) filters the
    list down to the present columns, so an absent column is skipped.

## Model

| member | source | states |
|---|---|---|
| RedundantColumns.Present | preprocessamento/limpeza/colunas_redundantes.py:46 | the listed names kept are exactly those that are columns of the frame, and there are no more of them than listed |
| RedundantColumns.Drop | preprocessamento/limpeza/colunas_redundantes.py:51 | `drop(..., axis=1)` leaves exactly the columns not dropped, in their original relative order, with the same number of rows and every remaining cell unchanged |
| RedundantColumns.DropNothing | preprocessamento/limpeza/colunas_redundantes.py:51 | dropping names none of which is a column gives back the same frame |
| RedundantColumns.RemoveRedundant | preprocessamento/limpeza/colunas_redundantes.py:31-53 | none of the five listed names remains; a column survives exactly when it was there and is not listed; order, row count and cells of the survivors are unchanged; when no listed name is present, the frame comes back as it is |
| RedundantColumns.ExecuteRemoveRedundant | preprocessamento/limpeza/colunas_redundantes.py:55-69 | the wrapper hands back what `remover_colunas` computes, so no listed column remains |
| RedundantColumns.AbsentNamesIgnored | preprocessamento/limpeza/colunas_redundantes.py:46-51 | pruning equals dropping the whole fixed list with absent names ignored, so missing columns raise no error |
| RedundantColumns.RemoveRedundantIdempotent | preprocessamento/limpeza/colunas_redundantes.py:46-53 | pruning an already pruned frame changes nothing |
| Frames.CountTrue | preprocessamento/analise/duplicatas.py:22 | `.sum()` of a boolean series is the number of positions holding true, and at most its length |
| Duplicates.RepeatMask | preprocessamento/analise/duplicatas.py:22 | `duplicated(keep='first')` on a sequence marks a position exactly when an equal element comes earlier |
| Duplicates.Duplicated | preprocessamento/analise/duplicatas.py:22 | row `i` is marked exactly when some earlier row agrees with it on every column of the subset |
| Duplicates.CountDuplicates | preprocessamento/analise/duplicatas.py:17-24 | for a non-empty subset, the call fails exactly when some name of it is not a column; otherwise it returns the number of rows that repeat an earlier row on the subset |
| Duplicates.RepeatsPlusDistinct | preprocessamento/analise/duplicatas.py:22 | the marked positions plus the distinct elements make up the whole sequence |
| Duplicates.CountIsRowsMinusDistinct | preprocessamento/analise/duplicatas.py:22 | the count is the number of rows minus the number of distinct projections onto the subset: 0 on an empty frame and at most rows−1 otherwise |
| Duplicates.CountMonotone | preprocessamento/analise/duplicatas.py:22 | comparing on a superset of columns finds no more duplicates |
| MissingValues.RowMissing | preprocessamento/analise/valores_ausentes.py:84 | the missing cells of a row, at most its width, positive exactly when the row has a missing cell |
| MissingValues.ColumnMissing | preprocessamento/analise/valores_ausentes.py:45 | the number of rows whose cell in that column is missing |
| MissingValues.MissingPerColumn | preprocessamento/analise/valores_ausentes.py:45 | one entry per column, in column order, counting exactly the rows missing that column's cell (zero included) |
| MissingValues.FirstOccurrences | preprocessamento/analise/valores_ausentes.py:63 | `unique()` of the selected keys: each once, every selected key present, nothing unselected, in order of first appearance |
| MissingValues.CountriesWithMissing | preprocessamento/analise/valores_ausentes.py:63 | `KeyError` exactly when there is no `Country` column; otherwise each listed value once, a value listed exactly when some row with a missing cell has it as `Country`, in order of first such row |
| MissingValues.MissingCountryListed | preprocessamento/analise/valores_ausentes.py:63 | the list holds the missing marker exactly when some row has no `Country` |
| MissingValues.Groups | preprocessamento/analise/valores_ausentes.py:84 | the groups of `groupby(df['Country'])` are the present `Country` values, each once; missing keys form no group |
| MissingValues.Countries | preprocessamento/analise/valores_ausentes.py:63-84 | `df['Country']`: one entry per row, holding that row's `Country` cell |
| MissingValues.MissingRows | preprocessamento/analise/valores_ausentes.py:63 | `df.isnull().any(axis=1)`: one flag per row, set exactly when the row has a missing cell |
| MissingValues.GroupSum | preprocessamento/analise/valores_ausentes.py:84 | a group's sum is the sum of the weights of the positions with that key, and it is positive exactly when one of them has a positive weight |
| MissingValues.CountryTotal | preprocessamento/analise/valores_ausentes.py:84 | a country's total is the sum, over its rows, of each row's missing-cell count; it is positive exactly when one of its rows has a missing cell |
| MissingValues.GroupTotals | preprocessamento/analise/valores_ausentes.py:84 | `groupby(...).sum().sum(axis=1)` before sorting: one entry per group, in group order, holding that group's sum |
| MissingValues.InsertDesc | preprocessamento/analise/valores_ausentes.py:84 | inserting into a non-increasing series keeps it non-increasing, adds exactly that entry (multiset) and keeps labels distinct |
| MissingValues.SortDesc | preprocessamento/analise/valores_ausentes.py:84 | `sort_values(ascending=False)`: non-increasing, a permutation of its input, same total, labels kept distinct |
| MissingValues.MissingPerCountry | preprocessamento/analise/valores_ausentes.py:84 | `KeyError` exactly when there is no `Country` column; otherwise one entry per present country, labels distinct, each holding that country's missing-cell total, from most to fewest; the totals add up to the missing cells of all rows that have a `Country` |
| MissingValues.PositiveTotalsAreCountriesWithMissing | preprocessamento/analise/valores_ausentes.py:63-84 | a present country has a positive total in the per-country series exactly when the country list names it |
| MissingValues.ColumnsSumToRows | preprocessamento/analise/valores_ausentes.py:45-84 | counting missing cells column by column or row by row gives the same total |
| MissingValues.TotalsAgree | preprocessamento/analise/valores_ausentes.py:45-84 | when every row has a `Country`, the per-country totals add up to the sum of the per-column counts |

`MissingValues.MissingMask` (`row.isnull()`) and `MissingValues.ColumnMask`
(`df[c].isnull()`, `valores_ausentes.py:45`) are pointwise masks. The rows for
`RowMissing`, `ColumnMissing` and `MissingPerColumn` state their counts.

## Left out

- Printing: the progress messages of all three classes are not modelled. Neither is the console output of `executar_analise_valores_ausentes` (`valores_ausentes.py:89-129`), which only prints the three summaries.
- `executar_analise_valores_ausentes`: its `AttributeError` for a frame that was never set cannot arise, because a `Frame` value always exists.
- The `TypeError` checks in the three constructors, and the `ValueError` for a `subset` that is not a list: arguments are typed in the model, so these cases cannot be written.
- `RemovendoColunas.__init__`'s `df.copy()`: frames are values, so the copy is implicit. The fixed list is the constant `RedundantNames`.
- Frames with repeated column names are not modelled.
- Duplicates.CountDuplicates: requires a non-empty `subset`. The validation (`duplicatas.py:19`) lets an empty list through, because `all(...)` over no names is true; what `duplicated(subset=[])` does after that is not part of this model.
- Numbers are `real`, and no arithmetic is done on them. Only missingness and equality of cells matter here.
- The dtypes of the returned pandas Series (`int64`) and Python list conversion (`tolist()`) are not modelled. A series is a sequence of (label, count) pairs.
- MissingValues.MissingPerCountry: the order among equal totals is not stated. Pandas sorts unstably after `groupby` has sorted the keys, so no tie order is promised.
- MissingValues.MissingPerCountry: its entries are not promised to follow `groupby`'s key order before the sort. The model's groups are in order of first appearance, and only the sorted result is specified.
- The rest of the repository (dataset loading, outlier treatment, KNN imputation, plotting, model training) is not part of this model.
