/** Single-band raster windows shared by the radar and the optical pipelines:
    cells, grid shapes, digital-number scaling, `nan_to_num`, and the Python
    slicing forms (`g[lo:hi, lo:hi]`, `g[::step, ::step]`) the scripts use. */
module Raster {

  /** A float raster cell: a number, or NaN (the scripts' no-data marker).
      Exact reals stand for float32 throughout. */
  datatype Cell = NoData | Val(v: real)

  /** A raster window in row-major order: `g[row][col]`. */
  type Grid<T> = seq<seq<T>>

  predicate SameShape<T, U>(a: Grid<T>, b: Grid<U>)
  {
    |a| == |b| && forall i :: 0 <= i < |a| ==> |a[i]| == |b[i]|
  }

  predicate HasShape<T>(g: Grid<T>, rows: nat, cols: nat)
  {
    |g| == rows && forall i :: 0 <= i < |g| ==> |g[i]| == cols
  }

  function Min(a: int, b: int): int { if a <= b then a else b }

  /** The digital-number divisor both sensors share. */
  const ScaleFactor: real := 10000.0

  /** `dn / 10000.0` over a whole window: every cell is divided by the same
      divisor and the shape is kept. */
  function Scale(dn: Grid<real>, divisor: real): (r: Grid<real>)
    requires divisor != 0.0
    ensures SameShape(r, dn)
    ensures forall i, j :: 0 <= i < |r| && 0 <= j < |r[i]| ==> r[i][j] * divisor == dn[i][j]
  {
    seq(|dn|, i requires 0 <= i < |dn| =>
      seq(|dn[i]|, j requires 0 <= j < |dn[i]| => dn[i][j] / divisor))
  }

  /** Scaling by a positive divisor keeps non-negative digital numbers non-negative. */
  lemma ScaleNonNegative(dn: Grid<real>, divisor: real)
    requires divisor > 0.0
    requires forall i, j :: 0 <= i < |dn| && 0 <= j < |dn[i]| ==> dn[i][j] >= 0.0
    ensures forall i, j :: 0 <= i < |dn| && 0 <= j < |dn[i]| ==> Scale(dn, divisor)[i][j] >= 0.0
  {
  }

  /** A window of digital numbers all equal to the divisor scales to 1.0 everywhere. */
  lemma ScaleUnitScene(dn: Grid<real>)
    requires forall i, j :: 0 <= i < |dn| && 0 <= j < |dn[i]| ==> dn[i][j] == ScaleFactor
    ensures SameShape(Scale(dn, ScaleFactor), dn)
    ensures forall i, j :: 0 <= i < |dn| && 0 <= j < |dn[i]| ==> Scale(dn, ScaleFactor)[i][j] == 1.0
  {
  }

  /** Every cell defined, as a grid of cells. */
  function Lift(g: Grid<real>): (r: Grid<Cell>)
    ensures SameShape(r, g)
    ensures forall i, j :: 0 <= i < |g| && 0 <= j < |g[i]| ==> r[i][j] == Val(g[i][j])
  {
    seq(|g|, i requires 0 <= i < |g| => seq(|g[i]|, j requires 0 <= j < |g[i]| => Val(g[i][j])))
  }

  /** `np.nan_to_num(g, nan=fill)`: no cell of the result is missing; defined
      cells keep their value and no-data cells become `fill`. */
  function FillNoData(g: Grid<Cell>, fill: real): (r: Grid<real>)
    ensures SameShape(r, g)
    ensures forall i, j :: 0 <= i < |g| && 0 <= j < |g[i]| ==>
      (g[i][j].Val? ==> r[i][j] == g[i][j].v) && (g[i][j].NoData? ==> r[i][j] == fill)
  {
    seq(|g|, i requires 0 <= i < |g| =>
      seq(|g[i]|, j requires 0 <= j < |g[i]| => if g[i][j].Val? then g[i][j].v else fill))
  }

  /** Python's `s[lo:hi]` for non-negative bounds: both bounds are clamped to
      the length, and a reversed range is empty. */
  function Slice<T>(s: seq<T>, lo: nat, hi: nat): (r: seq<T>)
    ensures |r| == if lo < hi && lo < |s| then Min(hi, |s|) - lo else 0
    ensures forall k :: 0 <= k < |r| ==> r[k] == s[lo + k]
  {
    var start := Min(lo, |s|);
    var stop := Min(hi, |s|);
    if start <= stop then s[start..stop] else []
  }

  /** `g[lo:hi, lo:hi]`: the same clamped slice on rows and on columns. */
  function Window<T>(g: Grid<T>, lo: nat, hi: nat): (r: Grid<T>)
  {
    var rows := Slice(g, lo, hi);
    seq(|rows|, i requires 0 <= i < |rows| => Slice(rows[i], lo, hi))
  }

  /** When the source reaches `hi` in both directions, the window has
      `hi - lo` rows and columns and is the source shifted by `lo`. */
  lemma WindowInside<T>(g: Grid<T>, lo: nat, hi: nat)
    requires lo <= hi <= |g|
    requires forall i :: lo <= i < hi ==> hi <= |g[i]|
    ensures HasShape(Window(g, lo, hi), hi - lo, hi - lo)
    ensures forall i, j :: 0 <= i < hi - lo && 0 <= j < hi - lo ==> Window(g, lo, hi)[i][j] == g[lo + i][lo + j]
  {
  }

  /** `s[::step]`: the first element, then every `step`-th one after it. */
  function EveryNth<T>(s: seq<T>, step: nat): seq<T>
    requires step > 0
    decreases |s|
  {
    if s == [] then [] else [s[0]] + EveryNth(s[Min(step, |s|)..], step)
  }

  /** `s[::step]` has ceil(|s| / step) elements, and its k-th one is `s[k * step]`. */
  lemma EveryNthAt<T>(s: seq<T>, step: nat)
    requires step > 0
    ensures |EveryNth(s, step)| == (|s| + step - 1) / step
    ensures forall k :: 0 <= k < |EveryNth(s, step)| ==> k * step < |s| && EveryNth(s, step)[k] == s[k * step]
  {
    EveryNthLength(s, step);
    forall k | 0 <= k < |EveryNth(s, step)|
      ensures k * step < |s| && EveryNth(s, step)[k] == s[k * step]
    {
      EveryNthIndex(s, step, k);
    }
  }

  lemma {:induction false} EveryNthLength<T>(s: seq<T>, step: nat)
    requires step > 0
    ensures |EveryNth(s, step)| == (|s| + step - 1) / step
    decreases |s|
  {
    if s != [] {
      var rest := s[Min(step, |s|)..];
      EveryNthLength(rest, step);
      if |s| < step {
        assert rest == [];
        DivUnique(|s| + step - 1, step, 1, |s| - 1);
      } else {
        DivShift(|rest| + step - 1, step);
      }
    }
  }

  lemma {:induction false} EveryNthIndex<T>(s: seq<T>, step: nat, k: nat)
    requires step > 0 && k < |EveryNth(s, step)|
    ensures k * step < |s| && EveryNth(s, step)[k] == s[k * step]
    decreases k
  {
    if k > 0 {
      var rest := s[Min(step, |s|)..];
      assert EveryNth(s, step) == [s[0]] + EveryNth(rest, step);
      EveryNthIndex(rest, step, k - 1);
      MulSucc(k - 1, step);
    }
  }

  lemma MulSucc(k: int, step: int)
    ensures k * step + step == (k + 1) * step
  {
  }

  lemma MulAtLeast(d: int, k: int)
    requires d > 0 && k >= 1
    ensures d * k >= d
  {
    if k > 1 { MulAtLeast(d, k - 1); assert d * k == d * (k - 1) + d; }
  }

  /** Euclidean division is determined by quotient and remainder. */
  lemma DivUnique(n: int, d: int, q: int, r: int)
    requires d > 0 && 0 <= r < d && n == q * d + r
    ensures n / d == q
  {
    var q0, r0 := n / d, n % d;
    assert n == q0 * d + r0;
    if q0 < q {
      MulAtLeast(d, q - q0);
    } else if q0 > q {
      MulAtLeast(d, q0 - q);
    }
  }

  lemma MulMono(a: nat, b: nat, c: nat)
    requires a <= b
    ensures a * c <= b * c
  {
  }

  lemma DivBelow(x: nat, d: nat, q: nat)
    requires d > 0 && x < d * q
    ensures x / d < q
  {
    if x / d >= q {
      MulMono(q, x / d, d);
    }
  }

  lemma DivSelf(x: real)
    requires x != 0.0
    ensures x / x == 1.0
  {
  }

  lemma DivShift(x: nat, step: nat)
    requires step > 0
    ensures (x + step) / step == x / step + 1
  {
    DivUnique(x + step, step, x / step + 1, x % step);
  }

  /** `g[::step, ::step]`: every `step`-th row, and in it every `step`-th column. */
  function Downsample<T>(g: Grid<T>, step: nat): Grid<T>
    requires step > 0
  {
    var rows := EveryNth(g, step);
    seq(|rows|, i requires 0 <= i < |rows| => EveryNth(rows[i], step))
  }

  /** A downsampled grid has ceil(n / step) rows and ceil(m / step) columns,
      and its cell (i, j) is the source cell (step * i, step * j). */
  lemma DownsampleAt<T>(g: Grid<T>, rows: nat, cols: nat, step: nat)
    requires step > 0
    requires HasShape(g, rows, cols)
    ensures HasShape(Downsample(g, step), (rows + step - 1) / step, (cols + step - 1) / step)
    ensures forall i, j :: 0 <= i < |Downsample(g, step)| && 0 <= j < |Downsample(g, step)[i]| ==>
      i * step < rows && j * step < cols && Downsample(g, step)[i][j] == g[i * step][j * step]
  {
    EveryNthAt(g, step);
    var evens := EveryNth(g, step);
    forall i | 0 <= i < |evens|
      ensures |EveryNth(evens[i], step)| == (cols + step - 1) / step
      ensures forall j :: 0 <= j < |EveryNth(evens[i], step)| ==>
        j * step < cols && EveryNth(evens[i], step)[j] == evens[i][j * step]
    {
      EveryNthAt(evens[i], step);
    }
  }
}
