/** The array arithmetic of `process_timestamp_data` and `process_file_data`:
    a decoded WRF dataset is reduced to five two-dimensional grids at the
    first output time. Temperature is converted from kelvin to degrees
    Celsius, the wind components are averaged over the vertical levels and
    moved from the staggered cell faces to the cell centres. Arithmetic is
    exact (`real`), where numpy rounds to IEEE doubles. */
module Fields {
  import opened Outcomes

  /** A two-dimensional field, row-major (`south_north`, then `west_east`). */
  type Grid = seq<seq<real>>

  predicate HasShape(g: Grid, rows: nat, cols: nat) {
    |g| == rows && forall i :: 0 <= i < rows ==> |g[i]| == cols
  }

  /** All rows of `g` are as long as the first, as in a numpy array. */
  predicate Rectangular(g: Grid) {
    forall i :: 0 <= i < |g| ==> |g[i]| == |g[0]|
  }

  predicate SameShape(a: Grid, b: Grid) {
    |a| == |b| && forall i :: 0 <= i < |a| ==> |a[i]| == |b[i]|
  }

  predicate Uniform(g: Grid, c: real) {
    forall i, j :: 0 <= i < |g| && 0 <= j < |g[i]| ==> g[i][j] == c
  }

  /** Every cell of `g` lies in `[lo, hi]`. */
  predicate Bounded(g: Grid, lo: real, hi: real) {
    forall i, j :: 0 <= i < |g| && 0 <= j < |g[i]| ==> lo <= g[i][j] <= hi
  }

  // ---------------------------------------------------------------------
  // Temperature

  /** 0 °C in kelvin, the constant subtracted from `T2`. */
  const ZeroCelsius: real := 273.15

  /** `g + c`, cell by cell. */
  function Shift(g: Grid, c: real): (r: Grid)
    ensures SameShape(r, g)
  {
    seq(|g|, i requires 0 <= i < |g| => seq(|g[i]|, j requires 0 <= j < |g[i]| => g[i][j] + c))
  }

  /** `T2 - 273.15`: kelvin to degrees Celsius. */
  function ToCelsius(t2: Grid): (r: Grid)
    ensures SameShape(r, t2)
  {
    Shift(t2, -ZeroCelsius)
  }

  /** Degrees Celsius back to kelvin. */
  function ToKelvin(t: Grid): (r: Grid)
    ensures SameShape(r, t)
  {
    Shift(t, ZeroCelsius)
  }

  /** Converting to Celsius loses nothing: converting back gives the
      kelvin field again. */
  lemma CelsiusRoundTrip(t2: Grid)
    ensures ToKelvin(ToCelsius(t2)) == t2
  {
    var r := ToKelvin(ToCelsius(t2));
    forall i | 0 <= i < |t2| ensures r[i] == t2[i] {
      assert |r[i]| == |t2[i]|;
      forall j | 0 <= j < |t2[i]| ensures r[i][j] == t2[i][j] {
      }
    }
  }

  /** A field at the freezing point everywhere reads 0 °C everywhere, and
      a field bounded in kelvin is bounded by the shifted limits. */
  lemma CelsiusBounds(t2: Grid, lo: real, hi: real)
    requires Bounded(t2, lo, hi)
    ensures Bounded(ToCelsius(t2), lo - ZeroCelsius, hi - ZeroCelsius)
    ensures Uniform(t2, ZeroCelsius) ==> Uniform(ToCelsius(t2), 0.0)
  {
  }

  // ---------------------------------------------------------------------
  // Vertical mean

  /** The grids of one variable at one time, one per vertical level, all of
      the same rectangular shape and at least one of them. */
  predicate Stack(levels: seq<Grid>) {
    && |levels| > 0
    && Rectangular(levels[0])
    && forall k :: 0 <= k < |levels| ==> SameShape(levels[k], levels[0])
  }

  /** The sum over the levels of cell `(i, j)`. */
  function LevelSum(levels: seq<Grid>, i: nat, j: nat): real
    requires forall k :: 0 <= k < |levels| ==> i < |levels[k]| && j < |levels[k][i]|
    decreases |levels|
  {
    if levels == [] then 0.0
    else LevelSum(levels[..|levels| - 1], i, j) + levels[|levels| - 1][i][j]
  }

  /** `var.mean(dim='bottom_top')` at one time. */
  function MeanLevels(levels: seq<Grid>): (r: Grid)
    requires Stack(levels)
    ensures SameShape(r, levels[0]) && Rectangular(r)
  {
    var n := |levels| as real;
    seq(|levels[0]|, i requires 0 <= i < |levels[0]| =>
      seq(|levels[0][i]|, j requires 0 <= j < |levels[0][i]| => LevelSum(levels, i, j) / n))
  }

  lemma {:induction false} LevelSumBounds(levels: seq<Grid>, i: nat, j: nat, lo: real, hi: real)
    requires forall k :: 0 <= k < |levels| ==> i < |levels[k]| && j < |levels[k][i]|
    requires forall k :: 0 <= k < |levels| ==> lo <= levels[k][i][j] <= hi
    ensures |levels| as real * lo <= LevelSum(levels, i, j) <= |levels| as real * hi
    decreases |levels|
  {
    if levels != [] {
      LevelSumBounds(levels[..|levels| - 1], i, j, lo, hi);
    }
  }

  /** The mean of the levels lies between the smallest and the largest
      value any level takes. */
  lemma MeanBounds(levels: seq<Grid>, lo: real, hi: real)
    requires Stack(levels)
    requires forall k :: 0 <= k < |levels| ==> Bounded(levels[k], lo, hi)
    ensures Bounded(MeanLevels(levels), lo, hi)
  {
    var r := MeanLevels(levels);
    forall i, j | 0 <= i < |r| && 0 <= j < |r[i]| ensures lo <= r[i][j] <= hi {
      MeanCellBounds(levels, i, j, lo, hi);
    }
  }

  lemma MeanCellBounds(levels: seq<Grid>, i: nat, j: nat, lo: real, hi: real)
    requires Stack(levels)
    requires forall k :: 0 <= k < |levels| ==> Bounded(levels[k], lo, hi)
    requires i < |levels[0]| && j < |levels[0][i]|
    ensures lo <= MeanLevels(levels)[i][j] <= hi
  {
    assert forall k :: 0 <= k < |levels| ==> i < |levels[k]| && j < |levels[k][i]|;
    assert forall k :: 0 <= k < |levels| ==> lo <= levels[k][i][j] <= hi;
    LevelSumBounds(levels, i, j, lo, hi);
    DivideBounds(LevelSum(levels, i, j), |levels| as real, lo, hi);
  }

  /** A sum of `n` values between `lo` and `hi`, divided by `n`, stays between them. */
  lemma DivideBounds(x: real, n: real, lo: real, hi: real)
    requires n > 0.0 && n * lo <= x <= n * hi
    ensures lo <= x / n <= hi
  {
    var q := x / n;
    assert q - lo == (x - n * lo) / n;
    assert hi - q == (n * hi - x) / n;
  }

  /** Levels that all hold the same field average to that field; in
      particular a constant wind stays that constant. */
  lemma MeanOfEqualLevels(levels: seq<Grid>)
    requires Stack(levels)
    requires forall k :: 0 <= k < |levels| ==> levels[k] == levels[0]
    ensures MeanLevels(levels) == levels[0]
  {
    var r, g := MeanLevels(levels), levels[0];
    forall i | 0 <= i < |g| ensures r[i] == g[i] {
      forall j | 0 <= j < |g[i]| ensures r[i][j] == g[i][j] {
        assert forall k :: 0 <= k < |levels| ==> g[i][j] <= levels[k][i][j] <= g[i][j];
        LevelSumBounds(levels, i, j, g[i][j], g[i][j]);
      }
    }
  }

  // ---------------------------------------------------------------------
  // Destaggering

  /** `0.5 * (u[:, :-1] + u[:, 1:])`: each cell is the mean of two
      neighbours along a row. */
  function DestaggerX(u: Grid): (r: Grid)
    ensures |r| == |u|
    ensures forall i :: 0 <= i < |u| ==> |r[i]| == if |u[i]| == 0 then 0 else |u[i]| - 1
  {
    seq(|u|, i requires 0 <= i < |u| =>
      seq(if |u[i]| == 0 then 0 else |u[i]| - 1, j requires 0 <= j < |u[i]| - 1 =>
        0.5 * (u[i][j] + u[i][j + 1])))
  }

  /** `0.5 * (v[:-1, :] + v[1:, :])`: each cell is the mean of two
      neighbours along a column. */
  function DestaggerY(v: Grid): (r: Grid)
    requires Rectangular(v)
    ensures |r| == if |v| == 0 then 0 else |v| - 1
    ensures forall i :: 0 <= i < |r| ==> |r[i]| == |v[i]|
  {
    seq(if |v| == 0 then 0 else |v| - 1, i requires 0 <= i < |v| - 1 =>
      seq(|v[i]|, j requires 0 <= j < |v[i]| => 0.5 * (v[i][j] + v[i + 1][j])))
  }

  /** On the staggered C grid, U has one more column and V one more row
      than the mass grid; destaggering brings both to the mass grid. */
  lemma DestaggerShapes(u: Grid, v: Grid, rows: nat, cols: nat)
    requires HasShape(u, rows, cols + 1) && HasShape(v, rows + 1, cols)
    ensures HasShape(DestaggerX(u), rows, cols)
    ensures HasShape(DestaggerY(v), rows, cols)
  {
  }

  /** Every destaggered value lies between the smallest and the largest
      value of the staggered field, so a constant field stays constant. */
  lemma DestaggerBounds(g: Grid, lo: real, hi: real)
    requires Bounded(g, lo, hi)
    ensures Bounded(DestaggerX(g), lo, hi)
    ensures Rectangular(g) ==> Bounded(DestaggerY(g), lo, hi)
  {
    var x := DestaggerX(g);
    forall i, j | 0 <= i < |x| && 0 <= j < |x[i]| ensures lo <= x[i][j] <= hi {
      assert x[i][j] == 0.5 * (g[i][j] + g[i][j + 1]);
    }
    if Rectangular(g) {
      var y := DestaggerY(g);
      forall i, j | 0 <= i < |y| && 0 <= j < |y[i]| ensures lo <= y[i][j] <= hi {
        assert y[i][j] == 0.5 * (g[i][j] + g[i + 1][j]);
      }
    }
  }

  // ---------------------------------------------------------------------
  // Datasets

  /** The five variables the core reads from a decoded `wrfout` file, each
      indexed by `Time` first; `U` and `V` by `bottom_top` next. A variable
      the file lacks is `None`. */
  datatype RawDataset = RawDataset(
    xlat: Option<seq<Grid>>,
    xlong: Option<seq<Grid>>,
    t2: Option<seq<Grid>>,
    u: Option<seq<seq<Grid>>>,
    v: Option<seq<seq<Grid>>>)

  predicate SurfaceWellFormed(x: Option<seq<Grid>>) {
    x.Some? ==> forall t :: 0 <= t < |x.value| ==> Rectangular(x.value[t])
  }

  predicate LayeredWellFormed(x: Option<seq<seq<Grid>>>) {
    x.Some? ==> forall t :: 0 <= t < |x.value| ==> Stack(x.value[t])
  }

  /** What NetCDF guarantees of a decoded file (rectangular arrays), plus
      at least one vertical level for the wind components. */
  predicate WellFormed(d: RawDataset) {
    && SurfaceWellFormed(d.xlat) && SurfaceWellFormed(d.xlong) && SurfaceWellFormed(d.t2)
    && LayeredWellFormed(d.u) && LayeredWellFormed(d.v)
  }

  type Dataset = d: RawDataset | WellFormed(d) witness RawDataset(None, None, None, None, None)

  /** What goes wrong inside the processing: `ds[name]` raises `KeyError`,
      `isel(Time=0)` on an empty time axis raises `IndexError`. */
  datatype Fault = MissingVariable(name: string) | EmptyTimeAxis(name: string)

  /** The record built for one output time. */
  datatype Record = Record(xlat: Grid, xlong: Grid, t2: Grid, u: Grid, v: Grid)

  /** `ds[name].isel(Time=0)`. */
  function Surface(name: string, x: Option<seq<Grid>>): (r: Result<Grid, Fault>)
    requires SurfaceWellFormed(x)
    ensures r.Success? ==> Rectangular(r.value)
  {
    match x
    case None => Failure(MissingVariable(name))
    case Some(times) => if times == [] then Failure(EmptyTimeAxis(name)) else Success(times[0])
  }

  /** `ds[name].mean(dim='bottom_top').isel(Time=0)`. */
  function Layered(name: string, x: Option<seq<seq<Grid>>>): (r: Result<Grid, Fault>)
    requires LayeredWellFormed(x)
    ensures r.Success? ==> Rectangular(r.value)
  {
    match x
    case None => Failure(MissingVariable(name))
    case Some(times) => if times == [] then Failure(EmptyTimeAxis(name)) else Success(MeanLevels(times[0]))
  }

  /** The processing shared by the three variants: variables are read in
      the order XLAT, XLONG, T2, U, V and the first fault stops it. */
  function Process(d: Dataset): (r: Result<Record, Fault>)
    ensures r.Success? ==> HasFirstTime(d.xlat) && HasFirstTime(d.xlong) && HasFirstTime(d.t2)
    ensures r.Success? ==>
      && r.value.xlat == d.xlat.value[0] && r.value.xlong == d.xlong.value[0]
      && ToKelvin(r.value.t2) == d.t2.value[0]
    ensures r.Success? ==> HasFirstTime(d.u) && HasFirstTime(d.v)
    ensures r.Success? ==>
      && r.value.u == DestaggerX(MeanLevels(d.u.value[0]))
      && r.value.v == DestaggerY(MeanLevels(d.v.value[0]))
  {
    var xlat :- Surface("XLAT", d.xlat);
    var xlong :- Surface("XLONG", d.xlong);
    var t2 :- Surface("T2", d.t2);
    var u :- Layered("U", d.u);
    var v :- Layered("V", d.v);
    CelsiusRoundTrip(t2);
    Success(Record(xlat, xlong, ToCelsius(t2), DestaggerX(u), DestaggerY(v)))
  }

  predicate HasFirstTime<T>(x: Option<seq<T>>) {
    x.Some? && |x.value| > 0
  }

  /** The fault of a variable without a first time step: `KeyError` when it
      is missing, `IndexError` when its time axis is empty. */
  function FaultOf<T>(name: string, x: Option<seq<T>>): Fault {
    if x.None? then MissingVariable(name) else EmptyTimeAxis(name)
  }

  /** Processing fails exactly when a variable is missing or has no time
      step, and then raises the fault of the first such variable in
      reading order. */
  lemma ProcessFails(d: Dataset)
    ensures Process(d).Success? <==>
      HasFirstTime(d.xlat) && HasFirstTime(d.xlong) && HasFirstTime(d.t2) && HasFirstTime(d.u) && HasFirstTime(d.v)
    ensures !HasFirstTime(d.xlat) ==> Process(d) == Failure(FaultOf("XLAT", d.xlat))
    ensures HasFirstTime(d.xlat) && !HasFirstTime(d.xlong) ==> Process(d) == Failure(FaultOf("XLONG", d.xlong))
    ensures HasFirstTime(d.xlat) && HasFirstTime(d.xlong) && !HasFirstTime(d.t2) ==>
      Process(d) == Failure(FaultOf("T2", d.t2))
    ensures HasFirstTime(d.xlat) && HasFirstTime(d.xlong) && HasFirstTime(d.t2) && !HasFirstTime(d.u) ==>
      Process(d) == Failure(FaultOf("U", d.u))
    ensures (HasFirstTime(d.xlat) && HasFirstTime(d.xlong) && HasFirstTime(d.t2) && HasFirstTime(d.u)
      && !HasFirstTime(d.v)) ==> Process(d) == Failure(FaultOf("V", d.v))
  {
  }

  /** A dataset on one WRF grid of `rows` by `cols` mass points gives a
      record whose five grids all have that shape, the first-time surface
      fields unchanged and the temperature in degrees Celsius. */
  lemma ProcessShapes(d: Dataset, rows: nat, cols: nat)
    requires HasFirstTime(d.xlat) && HasFirstTime(d.xlong) && HasFirstTime(d.t2)
    requires HasFirstTime(d.u) && HasFirstTime(d.v)
    requires HasShape(d.xlat.value[0], rows, cols) && HasShape(d.xlong.value[0], rows, cols)
    requires HasShape(d.t2.value[0], rows, cols)
    requires HasShape(d.u.value[0][0], rows, cols + 1) && HasShape(d.v.value[0][0], rows + 1, cols)
    ensures Process(d).Success?
    ensures var r := Process(d).value;
      && r.xlat == d.xlat.value[0] && r.xlong == d.xlong.value[0]
      && ToKelvin(r.t2) == d.t2.value[0]
      && HasShape(r.t2, rows, cols) && HasShape(r.u, rows, cols) && HasShape(r.v, rows, cols)
  {
    var u, v := MeanLevels(d.u.value[0]), MeanLevels(d.v.value[0]);
    assert HasShape(u, rows, cols + 1);
    assert HasShape(v, rows + 1, cols);
    DestaggerShapes(u, v, rows, cols);
    CelsiusRoundTrip(d.t2.value[0]);
  }
}
