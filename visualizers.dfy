/** Subplot-grid planning and cell resolution of BaseVisualizer, and the
    cell-resolution skeleton of DataFrameVisualizer.plot_bar.

    The plotting library is not modelled: the figure it allocates is reduced
    to the container of axis handles it hands back, whose shape depends on
    the grid (one bare handle for 1x1, a flat sequence for 1xN and Nx1, a
    sequence of rows otherwise). */
module Visualizers {

  /** A Python argument: its integer value and whether the runtime object is
      an `int` at all. A bool passes the `isinstance(x, int)` test, so it is
      `PyArg(0, true)` or `PyArg(1, true)`; for a non-integer the value is
      meaningless. */
  datatype PyArg = PyArg(value: int, isInt: bool)

  /** The two exceptions _calc_nrows_ncols raises. */
  datatype PlanError = TypeError | ValueError

  datatype Outcome<T> = Ok(value: T) | Err(error: PlanError)

  /** A planned grid of subplots. */
  datatype Plan = Plan(nrows: int, ncols: int)

  /** The axes container the plotting library returns for a grid. */
  datatype Axes<H> = Single(handle: H) | Line(handles: seq<H>) | Grid(rows: seq<seq<H>>)

  function Min(a: int, b: int): int {
    if a < b then a else b
  }

  /** Both arguments are integers and strictly positive. */
  predicate ValidRequest(nplots: PyArg, maxNcols: PyArg) {
    nplots.isInt && maxNcols.isInt && nplots.value > 0 && maxNcols.value > 0
  }

  /** The result is one when `c` holds and zero otherwise, as `int(c)` in Python. */
  function BoolToInt(c: bool): int {
    if c then 1 else 0
  }

  /** BaseVisualizer._calc_nrows_ncols: the type test comes first, then the
      sign test; on success the columns are capped at maxNcols and the rows
      are the ceiling of nplots / ncols. */
  function CalcNrowsNcols(nplots: PyArg, maxNcols: PyArg): (r: Outcome<Plan>)
    ensures r == Err(TypeError) <==> !(nplots.isInt && maxNcols.isInt)
    ensures r == Err(ValueError) <==>
      nplots.isInt && maxNcols.isInt && (nplots.value <= 0 || maxNcols.value <= 0)
    ensures r.Ok? <==> ValidRequest(nplots, maxNcols)
    ensures r.Ok? ==>
      var n, m := nplots.value, maxNcols.value;
      r.value.ncols == Min(n, m) &&
      1 <= r.value.ncols <= m && r.value.ncols <= n &&
      1 <= r.value.nrows
    ensures ValidRequest(nplots, maxNcols) && nplots.value <= maxNcols.value ==>
      r == Ok(Plan(1, nplots.value))
  {
    if !(nplots.isInt && maxNcols.isInt) then
      Err(TypeError)
    else if nplots.value <= 0 || maxNcols.value <= 0 then
      Err(ValueError)
    else
      var ncols := if nplots.value < maxNcols.value then nplots.value else maxNcols.value;
      var nrows := nplots.value / ncols + BoolToInt(nplots.value % ncols != 0);
      Ok(Plan(nrows, ncols))
  }

  /** The grid planned for nplots plots has room for every plot, and no row
      of it is left entirely empty: nrows is the least row count that fits. */
  lemma PlanFitsTightly(nplots: PyArg, maxNcols: PyArg)
    requires ValidRequest(nplots, maxNcols)
    ensures var p := CalcNrowsNcols(nplots, maxNcols).value;
      p.nrows * p.ncols >= nplots.value &&
      (p.nrows - 1) * p.ncols < nplots.value
  {
    var p := CalcNrowsNcols(nplots, maxNcols).value;
    var n, c := nplots.value, p.ncols;
    var q, m := n / c, n % c;
    assert n == q * c + m && 0 <= m < c;
    if m == 0 {
      assert p.nrows == q;
    } else {
      assert p.nrows == q + 1;
      assert p.nrows * c == q * c + c;
    }
  }

  /** nrows is exactly the ceiling of nplots / ncols: any row count r that fits
      all plots without an empty row is the planned one. */
  lemma PlanRowsIsCeiling(nplots: PyArg, maxNcols: PyArg, r: int)
    requires ValidRequest(nplots, maxNcols)
    requires var c := CalcNrowsNcols(nplots, maxNcols).value.ncols;
      r * c >= nplots.value && (r - 1) * c < nplots.value
    ensures r == CalcNrowsNcols(nplots, maxNcols).value.nrows
  {
    var p := CalcNrowsNcols(nplots, maxNcols).value;
    PlanFitsTightly(nplots, maxNcols);
    var c := p.ncols;
    if r < p.nrows {
      MulMono(r, p.nrows - 1, c);
    } else if r > p.nrows {
      MulMono(p.nrows, r - 1, c);
    }
  }

  /** More plots than maxNcols fill maxNcols columns on at least two rows. */
  lemma SeveralRowsWhenMany(nplots: PyArg, maxNcols: PyArg)
    requires ValidRequest(nplots, maxNcols)
    requires nplots.value > maxNcols.value
    ensures var p := CalcNrowsNcols(nplots, maxNcols).value;
      p.ncols == maxNcols.value && p.nrows >= 2
  {
    PlanFitsTightly(nplots, maxNcols);
  }

  /** The container shape matplotlib's `plt.subplots(nrows, ncols)` returns
      under its default squeeze: a bare handle for 1x1, a flat sequence of
      nrows * ncols handles when exactly one dimension is 1, and nrows rows of
      ncols handles otherwise. */
  predicate WellShaped<H>(axes: Axes<H>, nrows: int, ncols: int) {
    match axes
    case Single(_) => nrows == 1 && ncols == 1
    case Line(hs) =>
      nrows >= 1 && ncols >= 1 && (nrows == 1 || ncols == 1) && nrows * ncols > 1 &&
      |hs| == nrows * ncols
    case Grid(rows) =>
      nrows > 1 && ncols > 1 && |rows| == nrows &&
      forall k :: 0 <= k < |rows| ==> |rows[k]| == ncols
  }

  /** Python sequence indexing: a negative index counts from the end. */
  function PyIndex<T>(s: seq<T>, i: int): T
    requires -|s| <= i < |s|
  {
    s[if i >= 0 then i else |s| + i]
  }

  lemma MulMono(a: int, b: int, c: int)
    requires a <= b && c >= 0
    ensures a * c <= b * c
  {
  }

  /** For a column count c and an index within [-r*c, r*c), floor division
      gives a row within [-r, r). */
  lemma RowBounds(idx: int, nrows: int, ncols: int)
    requires ncols >= 1 && -(nrows * ncols) <= idx < nrows * ncols
    ensures -nrows <= idx / ncols < nrows
  {
    var q, m := idx / ncols, idx % ncols;
    assert idx == q * ncols + m && 0 <= m < ncols;
    if q >= nrows {
      MulMono(nrows, q, ncols);
    }
    if q < -nrows {
      MulMono(q, -nrows - 1, ncols);
    }
  }

  /** Row-major cell position of a linear index in the 2-D case: in bounds for
      every index of the grid, and it names back the same index, so distinct
      indices get distinct cells. */
  lemma RowMajorCell(idx: int, nrows: int, ncols: int)
    requires nrows > 1 && ncols > 1 && 0 <= idx < nrows * ncols
    ensures 0 <= idx / ncols < nrows && 0 <= idx % ncols < ncols
    ensures (idx / ncols) * ncols + idx % ncols == idx
  {
    RowBounds(idx, nrows, ncols);
  }

  /** Distinct linear indices of a grid land on distinct cells. */
  lemma RowMajorInjective(i: int, j: int, nrows: int, ncols: int)
    requires nrows > 1 && ncols > 1
    requires 0 <= i < nrows * ncols && 0 <= j < nrows * ncols
    requires i != j
    ensures (i / ncols, i % ncols) != (j / ncols, j % ncols)
  {
    RowMajorCell(i, nrows, ncols);
    RowMajorCell(j, nrows, ncols);
  }

  /** The rows of a grid laid end to end. */
  function Concat<H>(rows: seq<seq<H>>): seq<H> {
    if |rows| == 0 then [] else rows[0] + Concat(rows[1..])
  }

  /** Every cell of the container in row-major order: the uniform view of the
      three shapes. */
  function Flatten<H>(axes: Axes<H>): seq<H> {
    match axes
    case Single(h) => [h]
    case Line(hs) => hs
    case Grid(rows) => Concat(rows)
  }

  lemma {:induction false} ConcatLength<H>(rows: seq<seq<H>>, ncols: int)
    requires forall k :: 0 <= k < |rows| ==> |rows[k]| == ncols
    ensures |Concat(rows)| == |rows| * ncols
  {
    if |rows| > 0 {
      ConcatLength(rows[1..], ncols);
      assert |Concat(rows)| == ncols + (|rows| - 1) * ncols;
    }
  }

  /** Cell (r, c) of equal-length rows sits at position r * ncols + c of
      their concatenation. */
  lemma {:induction false} ConcatAt<H>(rows: seq<seq<H>>, ncols: int, r: int, c: int)
    requires forall k :: 0 <= k < |rows| ==> |rows[k]| == ncols
    requires 0 <= r < |rows| && 0 <= c < ncols
    ensures |Concat(rows)| == |rows| * ncols
    ensures r * ncols + c < |Concat(rows)| && Concat(rows)[r * ncols + c] == rows[r][c]
  {
    ConcatLength(rows, ncols);
    if r > 0 {
      ConcatAt(rows[1..], ncols, r - 1, c);
      assert r * ncols + c == ncols + ((r - 1) * ncols + c);
    }
  }

  /** A well-shaped container holds exactly nrows * ncols cells. */
  lemma FlattenLength<H>(axes: Axes<H>, nrows: int, ncols: int)
    requires WellShaped(axes, nrows, ncols)
    ensures |Flatten(axes)| == nrows * ncols
  {
    if axes.Grid? {
      ConcatLength(axes.rows, ncols);
    }
  }

  /** Python's wrap-around of an index in [-n, n) is Dafny's `%` by n. */
  lemma WrapIndex(idx: int, n: int)
    requires -n <= idx < n
    ensures idx % n == if idx >= 0 then idx else n + idx
  {
    if idx < 0 {
      assert (n + idx) % n == idx % n;
    }
  }

  lemma MulDistrib(a: int, b: int, c: int)
    ensures (a + b) * c == a * c + b * c
  {
  }

  /** The numpy row of an index in [-nrows*ncols, nrows*ncols), after
      wrapping a negative row, and the column `idx % ncols` are the cell at
      row-major position `idx % (nrows * ncols)`. */
  lemma WrappedCell(idx: int, nrows: int, ncols: int)
    requires nrows >= 1 && ncols >= 1 && -(nrows * ncols) <= idx < nrows * ncols
    ensures var q := idx / ncols;
      var row := if q >= 0 then q else nrows + q;
      0 <= row < nrows && row * ncols + idx % ncols == idx % (nrows * ncols)
  {
    var n := nrows * ncols;
    RowBounds(idx, nrows, ncols);
    WrapIndex(idx, n);
    var q, m := idx / ncols, idx % ncols;
    assert idx == q * ncols + m;
    if q < 0 {
      MulDistrib(nrows, q, ncols);
      assert (nrows + q) * ncols == n + q * ncols;
      assert idx < 0;
    }
  }

  /** BaseVisualizer._get_ax: the branch is on the grid dimensions, and the
      container is indexed as its shape allows, Python's negative indices
      counting from the end. Whatever the shape, the handle returned is the
      cell the index names in row-major order; in the 1x1 case that is the
      sole handle, and the index is not looked at. An index outside
      [-nrows*ncols, nrows*ncols) raises IndexError in Python and is excluded
      here. */
  function GetAx<H>(axes: Axes<H>, idx: int, nrows: int, ncols: int): (r: H)
    requires WellShaped(axes, nrows, ncols)
    requires nrows * ncols == 1 || -(nrows * ncols) <= idx < nrows * ncols
    ensures |Flatten(axes)| == nrows * ncols
    ensures r == Flatten(axes)[idx % (nrows * ncols)]
    ensures nrows * ncols == 1 ==> r == axes.handle
  {
    FlattenLength(axes, nrows, ncols);
    if nrows > 1 && ncols > 1 then
      RowBounds(idx, nrows, ncols);
      WrappedCell(idx, nrows, ncols);
      var q := idx / ncols;
      ConcatAt(axes.rows, ncols, if q >= 0 then q else nrows + q, idx % ncols);
      PyIndex(PyIndex(axes.rows, q), idx % ncols)
    else if nrows * ncols == 1 then
      axes.handle
    else
      WrapIndex(idx, nrows * ncols);
      PyIndex(axes.handles, idx)
  }

  /** The figure built by plot_bar, reduced to its grid, its axes container
      and the handle each plot was drawn onto, in plot order. */
  datatype Figure<H> = Figure(plan: Plan, axes: Axes<H>, targets: seq<H>)

  /** No two cells of the sequence hold the same handle. */
  ghost predicate Distinct<H>(s: seq<H>) {
    forall i, j :: 0 <= i < j < |s| ==> s[i] != s[j]
  }

  lemma DistinctPrefix<H>(s: seq<H>, n: nat)
    requires n <= |s|
    ensures Distinct(s) ==> Distinct(s[..n])
  {
  }

  /** For the non-negative indices plot_bar passes, _get_ax returns cell `i`. */
  lemma ResolveNext<H>(axes: Axes<H>, nrows: int, ncols: int, i: int)
    requires WellShaped(axes, nrows, ncols)
    requires 0 <= i < nrows * ncols
    ensures i < |Flatten(axes)| && GetAx(axes, i, nrows, ncols) == Flatten(axes)[i]
  {
    var h := GetAx(axes, i, nrows, ncols);
    WrapIndex(i, nrows * ncols);
  }

  /** The cell-resolution skeleton of DataFrameVisualizer.plot_bar: plan the
      grid for |yCols| plots, allocate it through `subplots` (the plotting
      library's `plt.subplots`), and resolve one cell per plot in order.
      `subplots` is trusted to return the container shape matplotlib returns.
      The drawing calls made on each cell are not modelled. */
  method PlotBar<H>(yCols: seq<string>, maxNcols: PyArg, subplots: (int, int) -> Axes<H>)
    returns (r: Outcome<Figure<H>>)
    requires forall nr, nc :: nr >= 1 && nc >= 1 ==> WellShaped(subplots(nr, nc), nr, nc)
    ensures var plan := CalcNrowsNcols(PyArg(|yCols|, true), maxNcols);
      (r.Err? <==> plan.Err?) &&
      (r.Err? ==> r.error == plan.error) &&
      (r.Ok? ==> r.value.plan == plan.value &&
                 r.value.axes == subplots(plan.value.nrows, plan.value.ncols))
    ensures r.Ok? ==> |yCols| <= |Flatten(r.value.axes)| &&
                      r.value.targets == Flatten(r.value.axes)[..|yCols|]
    ensures r.Ok? ==> forall i :: 0 <= i < |yCols| ==>
      r.value.targets[i] == GetAx(r.value.axes, i, r.value.plan.nrows, r.value.plan.ncols)
    ensures r.Ok? && Distinct(Flatten(r.value.axes)) ==> Distinct(r.value.targets)
  {
    var planned := CalcNrowsNcols(PyArg(|yCols|, true), maxNcols);
    if planned.Err? {
      return Err(planned.error);
    }
    var nrows, ncols := planned.value.nrows, planned.value.ncols;
    PlanFitsTightly(PyArg(|yCols|, true), maxNcols);
    var axes := subplots(nrows, ncols);
    assert WellShaped(axes, nrows, ncols);
    FlattenLength(axes, nrows, ncols);
    var targets: seq<H> := [];
    for i := 0 to |yCols|
      invariant targets == Flatten(axes)[..i]
      invariant forall k :: 0 <= k < i ==> targets[k] == GetAx(axes, k, nrows, ncols)
    {
      ResolveNext(axes, nrows, ncols, i);
      targets := targets + [GetAx(axes, i, nrows, ncols)];
    }
    DistinctPrefix(Flatten(axes), |yCols|);
    r := Ok(Figure(planned.value, axes, targets));
  }
}
