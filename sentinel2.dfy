/** The optical (Sentinel-2) steps of `preprocessing/Sentinel-2_Processing.py`:
    reflectance scaling, the NDVI, the nearest-neighbour resampling of the
    20 m scene classification (SCL) to the 10 m band grid, and the cloud mask
    written as a separate output. Every step builds a new grid. */
module Optical {
  import opened Raster
  import opened Results

  /** Guard added to the NDVI denominator (line 103). */
  const NdviEpsilon: real := 0.0000000001
  /** Side of the square band window, in 10 m pixels (line 78). */
  const WindowSize: nat := 4000
  /** Side of the SCL window: the same ground at 20 m (line 124). */
  const SclWindowSize: nat := WindowSize / 2
  /** SCL classes masked out (line 147): cloud shadow, medium cloud, high
      cloud, thin cirrus, snow/ice. */
  const ExcludedCodes: set<int> := {3, 8, 9, 10, 11}

  /** Red and NIR windows of different shapes cannot be combined. */
  datatype OpticalError = ShapeMismatch

  /** Both outputs the script writes: the raw NDVI and the cloud-masked copy. */
  datatype OpticalOutput = OpticalOutput(ndvi: Grid<real>, masked: Grid<Cell>)

  predicate NonNegative(g: Grid<real>)
  {
    forall i, j :: 0 <= i < |g| && 0 <= j < |g[i]| ==> g[i][j] >= 0.0
  }

  /** All rows as long as the first: the shape of a 2-D array. */
  predicate Rectangular<T>(g: Grid<T>)
  {
    forall i :: 0 <= i < |g| ==> |g[i]| == |g[0]|
  }

  function Width<T>(g: Grid<T>): nat
  {
    if g == [] then 0 else |g[0]|
  }

  // ---------------------------------------------------------------------
  // NDVI (line 103)
  // ---------------------------------------------------------------------

  /** For non-negative reflectances the NDVI denominator is positive, so the
      division is always defined. */
  lemma NdviDenominatorPositive(red: real, nir: real)
    requires red >= 0.0 && nir >= 0.0
    ensures nir + red + NdviEpsilon > 0.0
  {
  }

  lemma RatioInside(x: real, d: real)
    requires d > 0.0 && -d < x < d
    ensures -1.0 < x / d < 1.0
  {
  }

  /** `(nir - red) / (nir + red + 1e-10)` for one pixel. For non-negative
      reflectances it lies strictly inside (-1, 1), and it is 0 when both
      bands are equal. */
  function NdviCell(red: real, nir: real): (r: real)
    requires red >= 0.0 && nir >= 0.0
    ensures -1.0 < r < 1.0
    ensures red == nir ==> r == 0.0
  {
    RatioInside(nir - red, nir + red + NdviEpsilon);
    (nir - red) / (nir + red + NdviEpsilon)
  }

  /** A pure band reads almost +1 (only NIR) or almost -1 (only red): off by
      less than epsilon over the band's reflectance. */
  lemma NdviSingleBand(x: real)
    requires x > 0.0
    ensures 1.0 - NdviEpsilon / x < NdviCell(0.0, x) < 1.0
    ensures -1.0 < NdviCell(x, 0.0) < -1.0 + NdviEpsilon / x
  {
    var d := x + NdviEpsilon;
    assert NdviCell(0.0, x) == 1.0 - NdviEpsilon / d by {
      assert x / d + NdviEpsilon / d == d / d;
      DivSelf(d);
    }
    assert NdviCell(x, 0.0) == -1.0 + NdviEpsilon / d by {
      assert -x / d + (-(NdviEpsilon / d)) == -(d / d);
      DivSelf(d);
    }
    SmallerOverLarger(NdviEpsilon, x, d);
  }

  lemma SmallerOverLarger(e: real, x: real, d: real)
    requires e > 0.0 && 0.0 < x < d
    ensures e / d < e / x
  {
    assert e / d * d == e;
    assert e / x * x == e;
  }

  /** The NDVI of the scaled bands is the NDVI of the digital numbers with
      epsilon scaled up by the same divisor: scaling changes nothing but the
      weight of epsilon. */
  lemma NdviOfDigitalNumbers(redDn: real, nirDn: real)
    requires redDn >= 0.0 && nirDn >= 0.0
    ensures NdviCell(redDn / ScaleFactor, nirDn / ScaleFactor)
      == (nirDn - redDn) / (nirDn + redDn + NdviEpsilon * ScaleFactor)
  {
    var s := ScaleFactor;
    var d := nirDn + redDn + NdviEpsilon * s;
    assert nirDn / s + redDn / s + NdviEpsilon == d / s;
    assert nirDn / s - redDn / s == (nirDn - redDn) / s;
    CancelDivisor(nirDn - redDn, d, s);
  }

  lemma CancelDivisor(x: real, d: real, s: real)
    requires d > 0.0 && s > 0.0
    ensures (x / s) / (d / s) == x / d
  {
    assert (x / d) * (d / s) == x / s;
  }

  /** Line 103 over the window: the NDVI grid has the bands' shape and is
      computed pixel by pixel. */
  function Ndvi(red: Grid<real>, nir: Grid<real>): (r: Grid<real>)
    requires SameShape(red, nir) && NonNegative(red) && NonNegative(nir)
    ensures SameShape(r, red)
    ensures forall i, j :: 0 <= i < |r| && 0 <= j < |r[i]| ==> r[i][j] == NdviCell(red[i][j], nir[i][j])
  {
    seq(|red|, i requires 0 <= i < |red| =>
      seq(|red[i]|, j requires 0 <= j < |red[i]| => NdviCell(red[i][j], nir[i][j])))
  }

  // ---------------------------------------------------------------------
  // Nearest-neighbour resampling of the SCL (lines 120-134)
  // ---------------------------------------------------------------------

  /** The source pixel whose footprint holds the centre of output pixel `i`
      when `inLen` pixels are stretched over `outLen`. */
  function NearestIndex(i: nat, inLen: nat, outLen: nat): (k: nat)
    requires i < outLen && inLen > 0
    ensures k < inLen
  {
    NearestInRange(i, inLen, outLen);
    ((2 * i + 1) * inLen) / (2 * outLen)
  }

  lemma NearestInRange(i: nat, inLen: nat, outLen: nat)
    requires i < outLen && inLen > 0
    ensures ((2 * i + 1) * inLen) / (2 * outLen) < inLen
  {
    var a, d := 2 * i + 1, 2 * outLen;
    MulMono(a, d - 1, inLen);
    MulSucc(d - 1, inLen);
    DivBelow(a * inLen, d, inLen);
  }

  /** Upsampling by exactly 2 (the 20 m SCL onto the 10 m grid) repeats each
      source pixel over a 2 x 2 block. */
  lemma NearestDoubling(i: nat, n: nat)
    requires n > 0 && i < 2 * n
    ensures NearestIndex(i, n, 2 * n) == i / 2
  {
    var q, m := i / 2, i % 2;
    assert 2 * i + 1 == 4 * q + (2 * m + 1);
    assert (2 * i + 1) * n == q * (4 * n) + (2 * m + 1) * n;
    MulMono(2 * m + 1, 3, n);
    DivUnique((2 * i + 1) * n, 2 * (2 * n), q, (2 * m + 1) * n);
  }

  /** The codes present anywhere in a grid. */
  ghost function Codes(g: Grid<int>): set<int>
  {
    set i, j | 0 <= i < |g| && 0 <= j < |g[i]| :: g[i][j]
  }

  /** `resize(scl, shape, order=0, preserve_range=True)`: the result has
      exactly the requested shape, every pixel is copied from the nearest
      source pixel, and so every resampled code already occurs in the source
      (no class value is invented). */
  function Resample(scl: Grid<int>, rows: nat, cols: nat): (r: Grid<int>)
    requires |scl| > 0 && Width(scl) > 0 && Rectangular(scl)
    ensures HasShape(r, rows, cols)
    ensures forall i, j :: 0 <= i < rows && 0 <= j < cols ==>
      r[i][j] == scl[NearestIndex(i, |scl|, rows)][NearestIndex(j, Width(scl), cols)]
    ensures forall i, j :: 0 <= i < rows && 0 <= j < cols ==> r[i][j] in Codes(scl)
  {
    seq(rows, i requires 0 <= i < rows =>
      seq(cols, j requires 0 <= j < cols =>
        scl[NearestIndex(i, |scl|, rows)][NearestIndex(j, Width(scl), cols)]))
  }

  /** The SCL window of the script, resampled to the band window, repeats
      every SCL pixel over a 2 x 2 block. */
  lemma SclWindowDoubles(scl: Grid<int>)
    requires HasShape(scl, SclWindowSize, SclWindowSize)
    ensures forall i, j :: 0 <= i < WindowSize && 0 <= j < WindowSize ==>
      Resample(scl, WindowSize, WindowSize)[i][j] == scl[i / 2][j / 2]
  {
    forall i, j | 0 <= i < WindowSize && 0 <= j < WindowSize
      ensures Resample(scl, WindowSize, WindowSize)[i][j] == scl[i / 2][j / 2]
    {
      NearestDoubling(i, SclWindowSize);
      NearestDoubling(j, SclWindowSize);
    }
  }

  // ---------------------------------------------------------------------
  // Cloud mask (lines 147-150)
  // ---------------------------------------------------------------------

  /** `np.isin(codes, [3, 8, 9, 10, 11])`. */
  function CloudMask(codes: Grid<int>): (m: Grid<bool>)
    ensures SameShape(m, codes)
    ensures forall i, j :: 0 <= i < |codes| && 0 <= j < |codes[i]| ==> (m[i][j] <==> codes[i][j] in ExcludedCodes)
  {
    seq(|codes|, i requires 0 <= i < |codes| =>
      seq(|codes[i]|, j requires 0 <= j < |codes[i]| => codes[i][j] in ExcludedCodes))
  }

  /** `np.where(mask, np.nan, ndvi)`: a new grid, no-data exactly at the masked
      pixels and the NDVI elsewhere. */
  function ApplyMask(ndvi: Grid<real>, mask: Grid<bool>): (r: Grid<Cell>)
    requires SameShape(ndvi, mask)
    ensures SameShape(r, ndvi)
    ensures forall i, j :: 0 <= i < |ndvi| && 0 <= j < |ndvi[i]| ==>
      (r[i][j].NoData? <==> mask[i][j]) && (!mask[i][j] ==> r[i][j] == Val(ndvi[i][j]))
  {
    seq(|ndvi|, i requires 0 <= i < |ndvi| =>
      seq(|ndvi[i]|, j requires 0 <= j < |ndvi[i]| => if mask[i][j] then NoData else Val(ndvi[i][j])))
  }

  /** A classification made only of excluded codes masks every pixel. */
  lemma AllExcludedMasksAll(ndvi: Grid<real>, codes: Grid<int>)
    requires SameShape(ndvi, codes)
    requires forall i, j :: 0 <= i < |codes| && 0 <= j < |codes[i]| ==> codes[i][j] in ExcludedCodes
    ensures forall i, j :: 0 <= i < |ndvi| && 0 <= j < |ndvi[i]| ==> ApplyMask(ndvi, CloudMask(codes))[i][j] == NoData
  {
  }

  /** A classification without excluded codes leaves the NDVI as it is. */
  lemma NoneExcludedKeepsNdvi(ndvi: Grid<real>, codes: Grid<int>)
    requires SameShape(ndvi, codes)
    requires forall i, j :: 0 <= i < |codes| && 0 <= j < |codes[i]| ==> codes[i][j] !in ExcludedCodes
    ensures ApplyMask(ndvi, CloudMask(codes)) == Lift(ndvi)
  {
    var r := ApplyMask(ndvi, CloudMask(codes));
    forall i | 0 <= i < |ndvi|
      ensures r[i] == Lift(ndvi)[i]
    {
    }
  }

  // ---------------------------------------------------------------------
  // The script's window pipeline (lines 95-150)
  // ---------------------------------------------------------------------

  /** Lines 95-150 on one window: scale both bands by the shared divisor,
      compute the NDVI, resample the SCL to the NDVI's shape, mask, and keep
      both grids. The digital numbers are unsigned, hence non-negative. */
  function ProcessBands(redDn: Grid<real>, nirDn: Grid<real>, scl: Grid<int>): (r: Result<OpticalOutput, OpticalError>)
    requires NonNegative(redDn) && NonNegative(nirDn) && Rectangular(redDn) && Rectangular(nirDn)
    requires |scl| > 0 && Width(scl) > 0 && Rectangular(scl)
    ensures r.Err? <==> !SameShape(redDn, nirDn)
    ensures r.Ok? ==> SameShape(r.value.ndvi, redDn) && SameShape(r.value.masked, redDn)
    ensures r.Ok? ==> forall i, j :: 0 <= i < |redDn| && 0 <= j < |redDn[i]| ==>
      var codes := Resample(scl, |redDn|, Width(redDn));
      && -1.0 < r.value.ndvi[i][j] < 1.0
      && r.value.ndvi[i][j] == (nirDn[i][j] - redDn[i][j]) / (nirDn[i][j] + redDn[i][j] + NdviEpsilon * ScaleFactor)
      && (r.value.masked[i][j].NoData? <==> codes[i][j] in ExcludedCodes)
      && (codes[i][j] !in ExcludedCodes ==> r.value.masked[i][j] == Val(r.value.ndvi[i][j]))
  {
    if !SameShape(redDn, nirDn) then Err(ShapeMismatch)
    else
      var red := Scale(redDn, ScaleFactor);
      var nir := Scale(nirDn, ScaleFactor);
      ScaleNonNegative(redDn, ScaleFactor);
      ScaleNonNegative(nirDn, ScaleFactor);
      var ndvi := Ndvi(red, nir);
      forall i, j | 0 <= i < |redDn| && 0 <= j < |redDn[i]|
        ensures ndvi[i][j] == (nirDn[i][j] - redDn[i][j]) / (nirDn[i][j] + redDn[i][j] + NdviEpsilon * ScaleFactor)
      {
        NdviOfDigitalNumbers(redDn[i][j], nirDn[i][j]);
      }
      var codes := Resample(scl, |ndvi|, Width(ndvi));
      Ok(OpticalOutput(ndvi, ApplyMask(ndvi, CloudMask(codes))))
  }
}
