# jupyter-stats grid layout and value extraction, in Dafny

This project models two small helpers of the jupyter-stats utilities.

- **Subplot-grid planning and cell resolution** (`BaseVisualizer` in
  `src/utils/visualizers.py`, module `Visualizers`).
  - `_calc_nrows_ncols` turns a plot count and a column cap into a grid of
    rows and columns. It raises `TypeError` when an argument is not an `int`
    and `ValueError` when one is not positive.
  - `_get_ax` maps a linear plot index onto the axes container that
    matplotlib's `plt.subplots` returns. That container is a bare handle
    for a 1x1 grid, a flat sequence for 1xN and Nx1, and a sequence of rows
    otherwise.
  - `DataFrameVisualizer.plot_bar` plans the grid for its value columns and
    resolves one cell per column, in order. Only that skeleton is modelled,
    as the method `PlotBar`.
- **Value extraction** (`get_value_from_dataframe` in
  `src/utils/dataframe_processors.py`, module `DataframeProcessors`).
  - A pandas Series gives its first value, or the fallback when it is
    empty.
  - Any other input is returned when it is an instance of the expected type.
    Otherwise it raises `TypeError`.

How the model represents the source:

- A Python argument of `_calc_nrows_ncols` is `PyArg(value, isInt)`. The
  flag records the outcome of `isinstance(x, int)`, so a bool is an integer
  here, as in Python.
- The axes container is the datatype `Axes<H>`, generic in the handle type.
  `WellShaped(axes, nrows, ncols)` states the shape matplotlib returns for
  a grid under its default `squeeze=True`.
- `Flatten(axes)` lists every cell in row-major order, whatever the shape.
  It is the reference that `_get_ax` is proved against.
- `_get_ax` keeps Python's indexing: a negative index counts from the end
  of each dimension.
- `get_value_from_dataframe`'s runtime type test is the tagged input `Data<T>`:
  `Series(values)`, or `Scalar(value, matchesType)`, where the flag records
  `isinstance(data, data_type)`.
- Raised exceptions are the error arms of the result datatypes `Outcome` and
  `Extracted`.

Two facts about `_calc_nrows_ncols` go beyond its docstring:

- It raises two distinct exceptions, and the type test comes before the sign
  test (src/utils/visualizers.py:51-55).
- Its docstring (src/utils/visualizers.py:34-50) promises no bound on empty
  rows. Its arithmetic leaves none, and `PlanFitsTightly` proves it.

## Model

| member | source | states |
|---|---|---|
| `Visualizers.CalcNrowsNcols` | src/utils/visualizers.py:51-62 | A non-integer argument gives `TypeError`, even when the other argument is also non-positive. Integers of which at least one is non-positive give `ValueError`. Success happens exactly when both are positive integers. Then `ncols == min(nplots, max_ncols)`, so `1 <= ncols <= max_ncols` and `ncols <= nplots`, and `nrows >= 1`. When `nplots <= max_ncols` the grid is one row of `nplots` columns. |
| `Visualizers.PlanFitsTightly` | src/utils/visualizers.py:57-62 | The planned grid holds every plot (`nrows * ncols >= nplots`). It has no entirely empty row (`(nrows - 1) * ncols < nplots`). |
| `Visualizers.PlanRowsIsCeiling` | src/utils/visualizers.py:62 | `nrows` is exactly the ceiling of `nplots / ncols`. Any row count that fits all plots without an empty row equals it. |
| `Visualizers.SeveralRowsWhenMany` | src/utils/visualizers.py:57-62 | With more plots than `max_ncols`, the grid uses all `max_ncols` columns and at least two rows. |
| `Visualizers.FlattenLength` | src/utils/visualizers.py:67 | A container of the shape `plt.subplots(nrows, ncols)` returns holds exactly `nrows * ncols` cells. |
| `Visualizers.RowBounds` | src/utils/visualizers.py:89-90 | For an index in `[-nrows*ncols, nrows*ncols)`, the row `idx // ncols` lies in `[-nrows, nrows)`. Numpy accepts that row without an IndexError. |
| `Visualizers.RowMajorCell` | src/utils/visualizers.py:89-90 | In the 2-D case, every index of the grid gives a row `idx // ncols` and a column `idx % ncols` that are in bounds. They name the same index back. |
| `Visualizers.RowMajorInjective` | src/utils/visualizers.py:89-90 | In the 2-D case, distinct indices give distinct cells. |
| `Visualizers.WrappedCell` | src/utils/visualizers.py:90 | Numpy's 2-D lookup `[idx // ncols, idx % ncols]`, with a negative row wrapped, lands on row-major position `idx mod (nrows*ncols)`. |
| `Visualizers.GetAx` | src/utils/visualizers.py:89-94 | For every shape of container and every index Python accepts, `_get_ax` returns row-major cell `idx mod (nrows*ncols)` of `Flatten(axes)`, which holds exactly `nrows*ncols` cells. For 1x1 that is the sole handle, whatever `idx` is. The indexing in every branch is in bounds. |
| `Visualizers.ResolveNext` | src/utils/visualizers.py:89-94 | For a non-negative index of the grid, as `plot_bar` passes, `_get_ax` returns cell `idx` of the row-major list. |
| `Visualizers.PlotBar` | src/utils/visualizers.py:126-130 | It fails exactly when `_calc_nrows_ncols(len(y_cols), max_ncols)` fails, with the same exception. An empty `y_cols` gives `ValueError`. Otherwise the container comes from `subplots(nrows, ncols)`. Plot `i` is drawn on `_get_ax(axes, i, nrows, ncols)`. The targets are the first `len(y_cols)` cells in row-major order, so every plot gets its own in-bounds cell. When the container's handles are distinct, so are the targets. The drawing calls, including the faulty `_plot_dots` call at line 134, are left out. |
| `DataframeProcessors.GetValueFromDataframe` | src/utils/dataframe_processors.py:5-15 | The Series test comes first, so a Series never raises. An empty Series gives the fallback exactly. A non-empty Series gives its first value, whatever its length. A matching scalar is returned unchanged. A `TypeError` happens exactly for a non-matching non-Series input, and carries that input. Any returned value is the fallback or a value of the input. |

## Left out

- Figure allocation (`_get_subplots`, src/utils/visualizers.py:66-67) is left
  out, including the `figsize` product of `_row_size`/`_col_size` and the grid.
  It is rendering in an external library. `PlotBar` takes the allocator as the
  function parameter `subplots` and assumes only the container shape it
  returns (`WellShaped`).
- `BaseVisualizer.__init__` and the fields `_row_size`/`_col_size` are left
  out. They are only stored and used in figure sizing, so there is no class in
  the model.
- The drawing calls of `plot_bar` are left out: `sns.barplot`, `_plot_dots`
  (`sns.stripplot`), `ax_i.set` and the tick-label rotation. So are the
  module-level `matplotlib.use('Agg')` and `sns.set_context`. `PlotBar` returns
  the cells it would draw on, not a rendered figure.
- PlotBar: the call `self._plot_dots(x_col, y_col, hue_col, plot_size, ax=ax_i)` at
  src/utils/visualizers.py:134 is left out, so `PlotBar` does not fail where
  `plot_bar` does with `plot_dots=True`. That call binds `ax` both by position
  (`plot_size`) and by keyword against the signature at lines 113-116. With
  the default `plot_dots=True`, Python rejects this call with a `TypeError`
  on the first plot. It is an argument-binding fault in drawing code, so it
  is noted here and not modelled.
- PlotBar: the default `max_ncols=5` of `plot_bar` (src/utils/visualizers.py:121)
  is not modelled. `maxNcols` is always passed explicitly.
- `GetAx` requires an index that Python's indexing accepts
  (`-nrows*ncols <= idx < nrows*ncols`, any index for 1x1). An index outside
  that range raises `IndexError` in Python. That error path is not modelled,
  because the only caller, `plot_bar`, passes `0 <= i < len(y_cols)`.
- pandas specifics are left out: `data.empty`, `data.values[0]` (a Series is
  its sequence of values) and the `np.nan` default of `empty_value` (the
  fallback is a caller-given value of the element type).
- `isinstance` itself is left out. Its outcome is an input flag (`PyArg.isInt`,
  `Data.matchesType`), so which Python objects pass it (bools as `int`, numpy
  integers) is not modelled.
- The text of the exception messages is not modelled. Only their kind is, plus
  the offending input for `get_value_from_dataframe`.
