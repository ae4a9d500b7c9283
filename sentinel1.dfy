/** The radar (Sentinel-1 VH) steps of `preprocessing/Sentinel-1_Processing.py`:
    calibration, decibels, range masking, the Lee speckle filter with its
    no-data bookkeeping, the downsampled view, the texture patch and its
    min/max normalisation. `log10`, the 5x5 box filter and `np.var` are
    library numerics and enter as given functions. */
module Radar {
  import opened Raster
  import opened Results

  /** Guard added before the logarithm (line 61). */
  const LogEpsilon: real := 0.0000000001
  /** Plausible backscatter range in dB (lines 71-72). */
  const MaskLow: real := -40.0
  const MaskHigh: real := 5.0
  /** Value that stands in for no-data while filtering (line 121). */
  const FillValue: real := -40.0
  /** Step of the downsampled view (line 82). */
  const DownsampleStep: nat := 5
  /** Bounds of the texture patch, on both axes (line 166). */
  const PatchLo: nat := 1000
  const PatchHi: nat := 1200

  // ---------------------------------------------------------------------
  // Decibels (lines 61, 105); calibration is Raster.Scale by ScaleFactor
  // ---------------------------------------------------------------------

  /** For non-negative sigma0 the logarithm of line 61 is only ever taken of
      a positive number. */
  lemma DecibelArgumentPositive(sigma0: real)
    requires sigma0 >= 0.0
    ensures sigma0 + LogEpsilon > 0.0
  {
  }

  /** `10 * log10(sigma0 + 1e-10)`: each cell is the decibel value of its own
      input cell. */
  function Decibels(linear: Grid<real>, log10: real -> real): (r: Grid<Cell>)
    ensures SameShape(r, linear)
    ensures forall i, j :: 0 <= i < |r| && 0 <= j < |r[i]| ==>
      r[i][j] == Val(10.0 * log10(linear[i][j] + LogEpsilon))
  {
    seq(|linear|, i requires 0 <= i < |linear| =>
      seq(|linear[i]|, j requires 0 <= j < |linear[i]| => Val(10.0 * log10(linear[i][j] + LogEpsilon))))
  }

  // ---------------------------------------------------------------------
  // Masked assignment `a[cond(a)] = np.nan` (lines 71-72, 107-108)
  // ---------------------------------------------------------------------

  /** One cell after `a[cond(a)] = np.nan`. NaN compares false, so a no-data
      cell is never selected and stays no-data. */
  function MaskCell(c: Cell, cond: real -> bool): Cell
  {
    if c.Val? && cond(c.v) then NoData else c
  }

  function MaskGrid(g: Grid<Cell>, cond: real -> bool): (r: Grid<Cell>)
    ensures SameShape(r, g)
    ensures forall i, j :: 0 <= i < |g| && 0 <= j < |g[i]| ==> r[i][j] == MaskCell(g[i][j], cond)
  {
    seq(|g|, i requires 0 <= i < |g| =>
      seq(|g[i]|, j requires 0 <= j < |g[i]| => MaskCell(g[i][j], cond)))
  }

  predicate TooLow(v: real) { v < MaskLow }
  predicate TooHigh(v: real) { v > MaskHigh }

  /** The two masking statements in a row. A cell survives exactly when it is
      defined and within [-40, 5], bounds included (both tests are strict),
      and then keeps its value. */
  function RangeMask(g: Grid<Cell>): (r: Grid<Cell>)
    ensures SameShape(r, g)
    ensures forall i, j :: 0 <= i < |g| && 0 <= j < |g[i]| ==>
      r[i][j] == if g[i][j].Val? && MaskLow <= g[i][j].v <= MaskHigh then g[i][j] else NoData
  {
    MaskGrid(MaskGrid(g, TooLow), TooHigh)
  }

  /** The contents of a 2-D array, row by row. */
  ghost function Contents(a: array2<Cell>): (g: Grid<Cell>)
    reads a
    ensures HasShape(g, a.Length0, a.Length1)
  {
    seq(a.Length0, i requires 0 <= i < a.Length0 reads a =>
      seq(a.Length1, j requires 0 <= j < a.Length1 reads a => a[i, j]))
  }

  /** `a[cond(a)] = np.nan`, in place. */
  method MaskWhere(a: array2<Cell>, cond: real -> bool)
    modifies a
    ensures Contents(a) == MaskGrid(old(Contents(a)), cond)
  {
    for i := 0 to a.Length0
      invariant forall k, l :: 0 <= k < i && 0 <= l < a.Length1 ==> a[k, l] == MaskCell(old(a[k, l]), cond)
      invariant forall k, l :: i <= k < a.Length0 && 0 <= l < a.Length1 ==> a[k, l] == old(a[k, l])
    {
      for j := 0 to a.Length1
        invariant forall k, l :: 0 <= k < i && 0 <= l < a.Length1 ==> a[k, l] == MaskCell(old(a[k, l]), cond)
        invariant forall l :: 0 <= l < j ==> a[i, l] == MaskCell(old(a[i, l]), cond)
        invariant forall l :: j <= l < a.Length1 ==> a[i, l] == old(a[i, l])
        invariant forall k, l :: i < k < a.Length0 && 0 <= l < a.Length1 ==> a[k, l] == old(a[k, l])
      {
        if a[i, j].Val? && cond(a[i, j].v) {
          a[i, j] := NoData;
        }
      }
    }
    ghost var want := MaskGrid(old(Contents(a)), cond);
    forall k | 0 <= k < a.Length0
      ensures Contents(a)[k] == want[k]
    {
    }
  }

  /** Lines 71-72: both masking statements, in place. */
  method MaskRange(a: array2<Cell>)
    modifies a
    ensures Contents(a) == RangeMask(old(Contents(a)))
  {
    MaskWhere(a, TooLow);
    MaskWhere(a, TooHigh);
  }

  /** `a[np.isnan(ref)] = np.nan` (line 131) on values: no-data wherever
      `ref` has it, `g` unchanged elsewhere. */
  function MaskLike(g: Grid<Cell>, ref: Grid<Cell>): (r: Grid<Cell>)
    requires SameShape(g, ref)
    ensures SameShape(r, g)
    ensures forall i, j :: 0 <= i < |g| && 0 <= j < |g[i]| ==>
      r[i][j] == if ref[i][j].NoData? then NoData else g[i][j]
  {
    seq(|g|, i requires 0 <= i < |g| =>
      seq(|g[i]|, j requires 0 <= j < |g[i]| => if ref[i][j].NoData? then NoData else g[i][j]))
  }

  /** Line 131, in place: re-impose the no-data positions of `ref` on `a`. */
  method MaskWhereNoData(a: array2<Cell>, ref: array2<Cell>)
    requires a.Length0 == ref.Length0 && a.Length1 == ref.Length1
    modifies a
    ensures Contents(a) == MaskLike(old(Contents(a)), old(Contents(ref)))
  {
    for i := 0 to a.Length0
      invariant forall k, l :: 0 <= k < i && 0 <= l < a.Length1 ==>
        a[k, l] == if old(ref[k, l]).NoData? then NoData else old(a[k, l])
      invariant forall k, l :: i <= k < a.Length0 && 0 <= l < a.Length1 ==>
        a[k, l] == old(a[k, l]) && ref[k, l] == old(ref[k, l])
    {
      for j := 0 to a.Length1
        invariant forall k, l :: 0 <= k < i && 0 <= l < a.Length1 ==>
          a[k, l] == if old(ref[k, l]).NoData? then NoData else old(a[k, l])
        invariant forall l :: 0 <= l < j ==>
          a[i, l] == if old(ref[i, l]).NoData? then NoData else old(a[i, l])
        invariant forall l :: j <= l < a.Length1 ==> a[i, l] == old(a[i, l]) && ref[i, l] == old(ref[i, l])
        invariant forall k, l :: i < k < a.Length0 && 0 <= l < a.Length1 ==>
          a[k, l] == old(a[k, l]) && ref[k, l] == old(ref[k, l])
      {
        if ref[i, j].NoData? {
          a[i, j] := NoData;
        }
      }
    }
    ghost var want := MaskLike(old(Contents(a)), old(Contents(ref)));
    forall k | 0 <= k < a.Length0
      ensures Contents(a)[k] == want[k]
    {
    }
  }

  // ---------------------------------------------------------------------
  // Lee filter (lines 121-131)
  // ---------------------------------------------------------------------

  /** `temp**2`, the input of the second box filter (line 124). */
  function Square(g: Grid<real>): (r: Grid<real>)
    ensures SameShape(r, g)
    ensures forall i, j :: 0 <= i < |g| && 0 <= j < |g[i]| ==> r[i][j] == g[i][j] * g[i][j]
  {
    seq(|g|, i requires 0 <= i < |g| =>
      seq(|g[i]|, j requires 0 <= j < |g[i]| => g[i][j] * g[i][j]))
  }

  /** The adaptive weight `variance / (variance + overall_variance)`, with the
      0/0 case read as 0 (see LeeCellAsWritten for what the code does there).
      For a non-negative local variance and a positive overall one it lies in
      [0, 1); it is 0 where the window is locally flat and 1 where only the
      overall variance is 0. */
  function Weight(local: real, overall: real): (w: real)
    ensures local >= 0.0 && overall > 0.0 ==> 0.0 <= w < 1.0
    ensures local == 0.0 ==> w == 0.0
    ensures local > 0.0 && overall == 0.0 ==> w == 1.0
  {
    if local + overall == 0.0 then 0.0
    else
      var w := local / (local + overall);
      assert w * (local + overall) == local;
      assert overall == 0.0 ==> w == 1.0 by {
        if overall == 0.0 { DivSelf(local); }
      }
      w
  }

  /** One cell of line 129: `mean + weight * (temp - mean)`. It is the mean
      where the local variance is 0, and the input where the input equals
      the mean. */
  function LeeCell(mean: real, local: real, overall: real, t: real): (r: real)
    ensures local == 0.0 ==> r == mean
    ensures t == mean ==> r == t
  {
    mean + Weight(local, overall) * (t - mean)
  }

  /** With a non-negative local variance and a positive overall variance the
      filtered cell lies between the local mean and the input: the filter
      only ever pulls a cell toward its local mean, never past it. */
  lemma LeeCellBetween(mean: real, local: real, overall: real, t: real)
    requires local >= 0.0 && overall > 0.0
    ensures mean <= t ==> mean <= LeeCell(mean, local, overall, t) <= t
    ensures t <= mean ==> t <= LeeCell(mean, local, overall, t) <= mean
  {
    Interpolate(mean, t, Weight(local, overall), LeeCell(mean, local, overall, t));
  }

  /** A point `r` that is `w` of the way from `a` to `b`, for `w` in [0, 1],
      lies between them. */
  lemma Interpolate(a: real, b: real, w: real, r: real)
    requires 0.0 <= w <= 1.0 && r == a + w * (b - a)
    ensures a <= b ==> a <= r <= b
    ensures b <= a ==> b <= r <= a
  {
    var d := b - a;
    assert b - r == (1.0 - w) * d;
    if d >= 0.0 {
      assert w * d >= 0.0 && (1.0 - w) * d >= 0.0;
    } else {
      assert w * d <= 0.0 && (1.0 - w) * d <= 0.0;
    }
  }

  /** Line 129 exactly as numpy evaluates it, for non-negative variances:
      when both variances are 0 the weight is 0/0 = NaN and the cell is
      NaN; otherwise it is the filtered value. */
  function LeeCellAsWritten(mean: real, local: real, overall: real, t: real): (r: Cell)
    requires local >= 0.0 && overall >= 0.0
    ensures r.NoData? <==> local == 0.0 && overall == 0.0
    ensures r.Val? ==> r.v == LeeCell(mean, local, overall, t)
  {
    if local + overall == 0.0 then NoData else Val(mean + local / (local + overall) * (t - mean))
  }

  /** A window that is constant and has no no-data (digital numbers all
      10000, say, which is 0 dB everywhere) has local and overall variance
      0: the code as written turns every cell into NaN, where the filter is
      meant to pass the constant through. */
  lemma ConstantWindowAsWrittenIsNoData(c: real)
    ensures LeeCellAsWritten(c, c * c - c * c, 0.0, c) == NoData
    ensures LeeCell(c, c * c - c * c, 0.0, c) == c
  {
  }

  /** The local variance of line 126: `mean_sq - mean**2`. */
  function LocalVariance(mean: real, meanSq: real): real
  {
    meanSq - mean * mean
  }

  /** Line 129 over the window, from the two box-filtered grids and the
      overall variance. */
  function LeeFilter(temp: Grid<real>, mean: Grid<real>, meanSq: Grid<real>, overall: real): (r: Grid<real>)
    requires SameShape(temp, mean) && SameShape(temp, meanSq)
    ensures SameShape(r, temp)
    ensures forall i, j :: 0 <= i < |temp| && 0 <= j < |temp[i]| ==>
      r[i][j] == LeeCell(mean[i][j], LocalVariance(mean[i][j], meanSq[i][j]), overall, temp[i][j])
  {
    seq(|temp|, i requires 0 <= i < |temp| =>
      seq(|temp[i]|, j requires 0 <= j < |temp[i]| =>
        LeeCell(mean[i][j], LocalVariance(mean[i][j], meanSq[i][j]), overall, temp[i][j])))
  }

  /** The box filter's local variance is non-negative (true of exact box
      averages; float32 may break it by rounding). */
  ghost predicate LocalVarianceNonNegative(mean: Grid<real>, meanSq: Grid<real>)
    requires SameShape(mean, meanSq)
  {
    forall i, j :: 0 <= i < |mean| && 0 <= j < |mean[i]| ==> LocalVariance(mean[i][j], meanSq[i][j]) >= 0.0
  }

  /** With a non-negative local variance and a positive overall variance,
      every filtered cell lies between its local mean and its input. */
  lemma LeeFilterBetween(temp: Grid<real>, mean: Grid<real>, meanSq: Grid<real>, overall: real)
    requires SameShape(temp, mean) && SameShape(temp, meanSq)
    requires LocalVarianceNonNegative(mean, meanSq) && overall > 0.0
    ensures forall i, j :: 0 <= i < |temp| && 0 <= j < |temp[i]| ==>
      var r := LeeFilter(temp, mean, meanSq, overall)[i][j];
      (mean[i][j] <= temp[i][j] ==> mean[i][j] <= r <= temp[i][j]) &&
      (temp[i][j] <= mean[i][j] ==> temp[i][j] <= r <= mean[i][j])
  {
    forall i, j | 0 <= i < |temp| && 0 <= j < |temp[i]|
      ensures var r := LeeFilter(temp, mean, meanSq, overall)[i][j];
        (mean[i][j] <= temp[i][j] ==> mean[i][j] <= r <= temp[i][j]) &&
        (temp[i][j] <= mean[i][j] ==> temp[i][j] <= r <= mean[i][j])
    {
      LeeCellBetween(mean[i][j], LocalVariance(mean[i][j], meanSq[i][j]), overall, temp[i][j]);
    }
  }

  /** A constant window whose box mean is that constant passes through the
      filter unchanged, whatever the variances. */
  lemma LeeFilterConstant(temp: Grid<real>, mean: Grid<real>, meanSq: Grid<real>, overall: real, c: real)
    requires SameShape(temp, mean) && SameShape(temp, meanSq)
    requires forall i, j :: 0 <= i < |temp| && 0 <= j < |temp[i]| ==> temp[i][j] == c && mean[i][j] == c
    ensures LeeFilter(temp, mean, meanSq, overall) == temp
  {
    var r := LeeFilter(temp, mean, meanSq, overall);
    forall i | 0 <= i < |temp|
      ensures r[i] == temp[i]
    {
    }
  }

  /** The box filter keeps the shape of the grids it is applied to here. */
  predicate BoxKeepsShape(box: Grid<real> -> Grid<real>, temp: Grid<real>)
  {
    SameShape(box(temp), temp) && SameShape(box(Square(temp)), temp)
  }

  /** Lines 121-131 on values: substitute -40 for no-data, box-filter, combine,
      and re-impose the input's no-data. The output is no-data exactly where
      the input is, so the -40 floor never shows; a defined cell is the Lee
      combination of its own dB value with the local statistics. */
  function Despeckle(db: Grid<Cell>, box: Grid<real> -> Grid<real>, variance: Grid<real> -> real): (r: Grid<Cell>)
    requires BoxKeepsShape(box, FillNoData(db, FillValue))
    ensures SameShape(r, db)
    ensures forall i, j :: 0 <= i < |db| && 0 <= j < |db[i]| ==> (r[i][j].NoData? <==> db[i][j].NoData?)
    ensures forall i, j :: 0 <= i < |db| && 0 <= j < |db[i]| && db[i][j].Val? ==>
      var temp := FillNoData(db, FillValue);
      var mean := box(temp)[i][j];
      r[i][j] == Val(LeeCell(mean, LocalVariance(mean, box(Square(temp))[i][j]), variance(temp), db[i][j].v))
  {
    var temp := FillNoData(db, FillValue);
    MaskLike(Lift(LeeFilter(temp, box(temp), box(Square(temp)), variance(temp))), db)
  }

  // ---------------------------------------------------------------------
  // Texture patch normalisation (lines 166-169)
  // ---------------------------------------------------------------------

  /** The defined values of a row. */
  function RowValues(row: seq<Cell>): (vs: seq<real>)
    ensures forall j :: 0 <= j < |row| && row[j].Val? ==> row[j].v in vs
    ensures forall x :: x in vs ==> exists j :: 0 <= j < |row| && row[j] == Val(x)
  {
    if row == [] then []
    else RowValues(row[..|row| - 1]) + (if row[|row| - 1].Val? then [row[|row| - 1].v] else [])
  }

  /** The defined values of a grid: what `np.nanmin` and `np.nanmax` range over. */
  function DefinedValues(g: Grid<Cell>): (vs: seq<real>)
    ensures forall i, j :: 0 <= i < |g| && 0 <= j < |g[i]| && g[i][j].Val? ==> g[i][j].v in vs
    ensures forall x :: x in vs ==> exists i, j :: 0 <= i < |g| && 0 <= j < |g[i]| && g[i][j] == Val(x)
  {
    if g == [] then [] else DefinedValues(g[..|g| - 1]) + RowValues(g[|g| - 1])
  }

  function MinOf(s: seq<real>): (m: real)
    requires |s| > 0
    ensures m in s && forall x :: x in s ==> m <= x
  {
    if |s| == 1 then s[0]
    else
      var m := MinOf(s[1..]);
      assert forall x :: x in s ==> x == s[0] || x in s[1..];
      if s[0] <= m then s[0] else m
  }

  function MaxOf(s: seq<real>): (m: real)
    requires |s| > 0
    ensures m in s && forall x :: x in s ==> x <= m
  {
    if |s| == 1 then s[0]
    else
      var m := MaxOf(s[1..]);
      assert forall x :: x in s ==> x == s[0] || x in s[1..];
      if m <= s[0] then s[0] else m
  }

  /** One cell of `(patch - lo) / (hi - lo)`; NaN stays NaN and 0/0 is NaN. */
  function NormalizeCell(c: Cell, lo: real, hi: real): Cell
  {
    match c
    case NoData => NoData
    case Val(v) => if hi == lo then NoData else Val((v - lo) / (hi - lo))
  }

  /** `np.nanmin(patch)`; 0 stands for the NaN of an all-no-data patch,
      where no cell reads it. */
  function PatchMin(patch: Grid<Cell>): real
  {
    var vs := DefinedValues(patch);
    if vs == [] then 0.0 else MinOf(vs)
  }

  /** `np.nanmax(patch)`, likewise. */
  function PatchMax(patch: Grid<Cell>): real
  {
    var vs := DefinedValues(patch);
    if vs == [] then 0.0 else MaxOf(vs)
  }

  /** The patch rescaled by its own defined minimum and maximum. */
  function Rescale(patch: Grid<Cell>): (r: Grid<Cell>)
    ensures SameShape(r, patch)
    ensures forall i, j :: 0 <= i < |patch| && 0 <= j < |patch[i]| ==>
      r[i][j] == NormalizeCell(patch[i][j], PatchMin(patch), PatchMax(patch))
  {
    var lo, hi := PatchMin(patch), PatchMax(patch);
    seq(|patch|, i requires 0 <= i < |patch| =>
      seq(|patch[i]|, j requires 0 <= j < |patch[i]| => NormalizeCell(patch[i][j], lo, hi)))
  }

  /** Why the texture step stops: `np.nanmin` of a zero-size patch raises
      `ValueError` (line 168). */
  datatype TextureError = EmptyPatch

  /** The patch has at least one cell. */
  predicate HasCell<T>(g: Grid<T>)
  {
    exists i :: 0 <= i < |g| && |g[i]| > 0
  }

  /** Lines 168-169: a zero-size patch raises; any other patch is rescaled by
      its own defined minimum and maximum (an all-NaN patch only warns, and
      stays all NaN). */
  function Normalize(patch: Grid<Cell>): (r: Result<Grid<Cell>, TextureError>)
    ensures r.Err? <==> !HasCell(patch)
    ensures r.Ok? ==> SameShape(r.value, patch)
    ensures r.Ok? ==> forall i, j :: 0 <= i < |patch| && 0 <= j < |patch[i]| ==>
      r.value[i][j] == NormalizeCell(patch[i][j], PatchMin(patch), PatchMax(patch))
  {
    if HasCell(patch) then Ok(Rescale(patch)) else Err(EmptyPatch)
  }

  /** A patch with a defined value has a cell. */
  lemma DefinedHasCell(patch: Grid<Cell>)
    requires DefinedValues(patch) != []
    ensures HasCell(patch)
  {
    var vs := DefinedValues(patch);
    assert vs[0] in vs;
    var i, j :| 0 <= i < |patch| && 0 <= j < |patch[i]| && patch[i][j] == Val(vs[0]);
  }

  ghost predicate IsLowest(g: Grid<Cell>, i: nat, j: nat)
  {
    i < |g| && j < |g[i]| && g[i][j].Val? &&
    forall k, l :: 0 <= k < |g| && 0 <= l < |g[k]| && g[k][l].Val? ==> g[i][j].v <= g[k][l].v
  }

  ghost predicate IsHighest(g: Grid<Cell>, i: nat, j: nat)
  {
    i < |g| && j < |g[i]| && g[i][j].Val? &&
    forall k, l :: 0 <= k < |g| && 0 <= l < |g[k]| && g[k][l].Val? ==> g[k][l].v <= g[i][j].v
  }

  /** The value of a lowest defined cell is what `np.nanmin` returns. */
  lemma LowestIsMin(patch: Grid<Cell>, i0: nat, j0: nat)
    requires IsLowest(patch, i0, j0)
    ensures DefinedValues(patch) != [] && MinOf(DefinedValues(patch)) == patch[i0][j0].v
  {
    var vs := DefinedValues(patch);
    assert patch[i0][j0].v in vs;
    var m := MinOf(vs);
    var k, l :| 0 <= k < |patch| && 0 <= l < |patch[k]| && patch[k][l] == Val(m);
  }

  /** The value of a highest defined cell is what `np.nanmax` returns. */
  lemma HighestIsMax(patch: Grid<Cell>, i1: nat, j1: nat)
    requires IsHighest(patch, i1, j1)
    ensures DefinedValues(patch) != [] && MaxOf(DefinedValues(patch)) == patch[i1][j1].v
  {
    var vs := DefinedValues(patch);
    assert patch[i1][j1].v in vs;
    var m := MaxOf(vs);
    var k, l :| 0 <= k < |patch| && 0 <= l < |patch[k]| && patch[k][l] == Val(m);
  }

  /** When the patch has a spread (its maximum exceeds its minimum),
      normalisation keeps the no-data positions and maps every defined cell
      into [0, 1]. */
  lemma NormalizeInUnitRange(patch: Grid<Cell>)
    requires PatchMin(patch) < PatchMax(patch)
    ensures Normalize(patch).Ok?
    ensures forall i, j :: 0 <= i < |patch| && 0 <= j < |patch[i]| ==>
      (Normalize(patch).value[i][j].NoData? <==> patch[i][j].NoData?)
    ensures forall i, j :: 0 <= i < |patch| && 0 <= j < |patch[i]| && Normalize(patch).value[i][j].Val? ==>
      0.0 <= Normalize(patch).value[i][j].v <= 1.0
  {
    DefinedHasCell(patch);
    var lo, hi := PatchMin(patch), PatchMax(patch);
    var r: Grid<Cell> := Rescale(patch);
    forall i, j | 0 <= i < |patch| && 0 <= j < |patch[i]|
      ensures (r[i][j].NoData? <==> patch[i][j].NoData?) && (r[i][j].Val? ==> 0.0 <= r[i][j].v <= 1.0)
    {
      if patch[i][j].Val? {
        WithinPatchRange(patch, i, j);
      }
      NormalizeCellInUnitRange(patch[i][j], lo, hi);
    }
  }

  lemma NormalizeCellInUnitRange(c: Cell, lo: real, hi: real)
    requires lo < hi && (c.Val? ==> lo <= c.v <= hi)
    ensures NormalizeCell(c, lo, hi).NoData? <==> c.NoData?
    ensures NormalizeCell(c, lo, hi).Val? ==> 0.0 <= NormalizeCell(c, lo, hi).v <= 1.0
  {
    if c.Val? {
      UnitFraction(c.v - lo, hi - lo);
    }
  }

  /** Every defined cell lies between the patch's `nanmin` and `nanmax`. */
  lemma WithinPatchRange(patch: Grid<Cell>, i: nat, j: nat)
    requires i < |patch| && j < |patch[i]| && patch[i][j].Val?
    ensures PatchMin(patch) <= patch[i][j].v <= PatchMax(patch)
  {
    assert patch[i][j].v in DefinedValues(patch);
  }

  /** A lowest defined cell normalises to 0 and a highest one to 1, when
      they differ. */
  lemma NormalizeMinMax(patch: Grid<Cell>, i0: nat, j0: nat, i1: nat, j1: nat)
    requires IsLowest(patch, i0, j0) && IsHighest(patch, i1, j1)
    requires patch[i0][j0].v < patch[i1][j1].v
    ensures PatchMin(patch) < PatchMax(patch)
    ensures Normalize(patch).Ok?
    ensures Normalize(patch).value[i0][j0] == Val(0.0) && Normalize(patch).value[i1][j1] == Val(1.0)
  {
    LowestIsMin(patch, i0, j0);
    HighestIsMax(patch, i1, j1);
    NormalizeEnds(patch, i0, j0, i1, j1);
  }

  lemma NormalizeEnds(patch: Grid<Cell>, i0: nat, j0: nat, i1: nat, j1: nat)
    requires i0 < |patch| && j0 < |patch[i0]| && patch[i0][j0] == Val(PatchMin(patch))
    requires i1 < |patch| && j1 < |patch[i1]| && patch[i1][j1] == Val(PatchMax(patch))
    requires PatchMin(patch) < PatchMax(patch)
    ensures Rescale(patch)[i0][j0] == Val(0.0) && Rescale(patch)[i1][j1] == Val(1.0)
  {
    var lo, hi := PatchMin(patch), PatchMax(patch);
    DivSelf(hi - lo);
    assert (lo - lo) / (hi - lo) == 0.0;
  }

  lemma UnitFraction(x: real, d: real)
    requires 0.0 <= x <= d && d > 0.0
    ensures 0.0 <= x / d <= 1.0
  {
  }

  /** A patch with at least one cell and no spread (every defined cell
      equal, or none defined) raises nothing: the division is 0/0 at every
      defined cell, and the normalised patch is all no-data. */
  lemma NormalizeFlatPatch(patch: Grid<Cell>, c: real)
    requires forall i, j :: 0 <= i < |patch| && 0 <= j < |patch[i]| && patch[i][j].Val? ==> patch[i][j].v == c
    ensures HasCell(patch) ==> Normalize(patch).Ok?
    ensures HasCell(patch) ==> forall i, j :: 0 <= i < |patch| && 0 <= j < |patch[i]| ==>
      Normalize(patch).value[i][j] == NoData
  {
    var vs := DefinedValues(patch);
    if vs != [] {
      assert MinOf(vs) in vs && MaxOf(vs) in vs;
      var k, l :| 0 <= k < |patch| && 0 <= l < |patch[k]| && patch[k][l] == Val(MinOf(vs));
      var k', l' :| 0 <= k' < |patch| && 0 <= l' < |patch[k']| && patch[k'][l'] == Val(MaxOf(vs));
      assert PatchMin(patch) == PatchMax(patch);
    }
  }

  // ---------------------------------------------------------------------
  // The script's window pipeline (lines 98-131, 82-84, 166-169)
  // ---------------------------------------------------------------------

  /** Copy a rectangular grid into a fresh array. */
  method FromGrid(g: Grid<Cell>, rows: nat, cols: nat) returns (a: array2<Cell>)
    requires HasShape(g, rows, cols)
    ensures fresh(a) && a.Length0 == rows && a.Length1 == cols && Contents(a) == g
  {
    a := new Cell[rows, cols];
    for i := 0 to rows
      invariant forall k, l :: 0 <= k < i && 0 <= l < cols ==> a[k, l] == g[k][l]
    {
      for j := 0 to cols
        invariant forall k, l :: 0 <= k < i && 0 <= l < cols ==> a[k, l] == g[k][l]
        invariant forall l :: 0 <= l < j ==> a[i, l] == g[i][l]
      {
        a[i, j] := g[i][j];
      }
    }
    forall k | 0 <= k < rows
      ensures Contents(a)[k] == g[k]
    {
    }
  }

  /** Read an array back as a grid. */
  method ToGrid(a: array2<Cell>) returns (g: Grid<Cell>)
    ensures g == Contents(a)
  {
    g := [];
    for i := 0 to a.Length0
      invariant |g| == i
      invariant forall k :: 0 <= k < i ==> g[k] == Contents(a)[k]
    {
      var row: seq<Cell> := [];
      for j := 0 to a.Length1
        invariant |row| == j
        invariant forall l :: 0 <= l < j ==> row[l] == a[i, l]
      {
        row := row + [a[i, j]];
      }
      g := g + [row];
    }
  }

  /** Sigma0 in dB, masked to the plausible range (lines 104-108), on values. */
  function MaskedDecibels(dn: Grid<real>, log10: real -> real): Grid<Cell>
  {
    RangeMask(Decibels(Scale(dn, ScaleFactor), log10))
  }

  /** The radar script on one window of digital numbers: calibration,
      decibels, the in-place range mask, the Lee filter with the in-place
      re-mask, the every-5th-pixel view and the normalised texture patch.
      `log10`, the 5x5 box filter and `np.var` are given. */
  method ProcessWindow(dn: Grid<real>, rows: nat, cols: nat, log10: real -> real,
                       box: Grid<real> -> Grid<real>, variance: Grid<real> -> real)
    returns (lee: array2<Cell>, view: Grid<Cell>, texture: Result<Grid<Cell>, TextureError>)
    requires HasShape(dn, rows, cols)
    requires BoxKeepsShape(box, FillNoData(MaskedDecibels(dn, log10), FillValue))
    ensures fresh(lee)
    ensures Contents(lee) == Despeckle(MaskedDecibels(dn, log10), box, variance)
    ensures view == Downsample(MaskedDecibels(dn, log10), DownsampleStep)
    ensures texture == Normalize(Window(Contents(lee), PatchLo, PatchHi))
    ensures texture.Err? <==> rows <= PatchLo || cols <= PatchLo
  {
    var sigma0Db := FromGrid(Decibels(Scale(dn, ScaleFactor), log10), rows, cols);
    MaskRange(sigma0Db);
    var masked := ToGrid(sigma0Db);
    view := Downsample(masked, DownsampleStep);
    var temp := FillNoData(masked, FillValue);
    var filtered := LeeFilter(temp, box(temp), box(Square(temp)), variance(temp));
    lee := FromGrid(Lift(filtered), rows, cols);
    MaskWhereNoData(lee, sigma0Db);
    var leeGrid := ToGrid(lee);
    texture := Normalize(Window(leeGrid, PatchLo, PatchHi));
    WindowHasCell(leeGrid, rows, cols);
  }

  /** The texture patch `g[1000:1200, 1000:1200]` of a rows x cols window has
      a cell exactly when the window is larger than 1000 on both axes. */
  lemma WindowHasCell<T>(g: Grid<T>, rows: nat, cols: nat)
    requires HasShape(g, rows, cols)
    ensures HasCell(Window(g, PatchLo, PatchHi)) <==> PatchLo < rows && PatchLo < cols
  {
    var w := Window(g, PatchLo, PatchHi);
    if PatchLo < rows && PatchLo < cols {
      assert |w| > 0 && w[0] == Slice(g[PatchLo], PatchLo, PatchHi);
      assert |w[0]| > 0;
    } else if PatchLo < rows {
      forall i | 0 <= i < |w|
        ensures |w[i]| == 0
      {
        assert w[i] == Slice(g[PatchLo + i], PatchLo, PatchHi);
      }
    }
  }

  /** The texture patch of a window at least 1200 pixels on each side is
      200 x 200 and is the filtered window shifted by 1000 on both axes. */
  lemma TexturePatchShape(lee: Grid<Cell>)
    requires |lee| >= PatchHi
    requires forall i :: 0 <= i < |lee| ==> |lee[i]| >= PatchHi
    ensures HasShape(Window(lee, PatchLo, PatchHi), 200, 200)
    ensures forall i, j :: 0 <= i < 200 && 0 <= j < 200 ==>
      Window(lee, PatchLo, PatchHi)[i][j] == lee[PatchLo + i][PatchLo + j]
  {
    WindowInside(lee, PatchLo, PatchHi);
  }
}
