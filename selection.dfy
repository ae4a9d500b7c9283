/** The best-overlap pair selection of `ingestion/Data_Ingestion.py`: a full
    scan over every (radar, optical) pair of catalog products that keeps the
    strictly largest overlap score. The polygon library is not modelled: the
    footprint of a product, the intersection of two footprints, its emptiness
    and the area of a footprint are given functions. */
module Selection {
  import opened Results

  /** The geometry the scan relies on, with `P` the catalog products and `G`
      the polygons: `shape(p["GeoFootprint"])`, `a.intersection(b)`,
      `g.is_empty` and `g.area`. */
  datatype Geometry<!P, !G> = Geometry(
    footprint: P -> G,
    intersection: (G, G) -> G,
    isEmpty: G -> bool,
    area: G -> real)

  /** Why the selection stops: no pair overlaps (the explicit `raise`), or a
      non-empty intersection met an optical footprint of area 0, where the
      score's float division raises `ZeroDivisionError`. */
  datatype SelectError = NoOverlapFound | ZeroAreaFootprint

  /** The selected pair: the radar and optical products, their positions in
      the two candidate lists, and the recorded best overlap. */
  datatype BestPair<P> = BestPair(radarIndex: nat, opticalIndex: nat, radar: P, optical: P, overlap: real)

  function Intersection<P, G>(geo: Geometry<P, G>, s1: P, s2: P): G
  {
    geo.intersection(geo.footprint(s1), geo.footprint(s2))
  }

  /** The pair is scored at all: its intersection is not empty. */
  predicate Intersects<P, G>(geo: Geometry<P, G>, s1: P, s2: P)
  {
    !geo.isEmpty(Intersection(geo, s1, s2))
  }

  /** The pair is scored, and its score divides by zero. */
  predicate DividesByZero<P, G>(geo: Geometry<P, G>, s1: P, s2: P)
  {
    Intersects(geo, s1, s2) && geo.area(geo.footprint(s2)) == 0.0
  }

  /** The overlap score: intersection area over the OPTICAL footprint's area, in percent. */
  function Overlap<P, G>(geo: Geometry<P, G>, s1: P, s2: P): real
    requires geo.area(geo.footprint(s2)) != 0.0
  {
    (geo.area(Intersection(geo, s1, s2)) / geo.area(geo.footprint(s2))) * 100.0
  }

  /** A pair that is scored, can be scored, and scores above zero. */
  predicate Positive<P, G>(geo: Geometry<P, G>, s1: P, s2: P)
  {
    Intersects(geo, s1, s2) && geo.area(geo.footprint(s2)) != 0.0 && Overlap(geo, s1, s2) > 0.0
  }

  /** Row-major order of the scan: radar index outer, optical index inner. */
  predicate Before(k: nat, l: nat, i: nat, j: nat)
  {
    k < i || (k == i && l < j)
  }

  /** No pair of the two lists makes the score divide by zero. */
  predicate NoZeroArea<P, G>(geo: Geometry<P, G>, s1s: seq<P>, s2s: seq<P>)
  {
    forall k, l :: 0 <= k < |s1s| && 0 <= l < |s2s| ==> !DividesByZero(geo, s1s[k], s2s[l])
  }

  /** `b` is the pair the scan holds once it has visited every pair before
      (i, j): the scored pair of largest overlap among them, and among those of
      that overlap the first one in scan order. */
  ghost predicate BestBefore<P, G>(geo: Geometry<P, G>, s1s: seq<P>, s2s: seq<P>, i: nat, j: nat, b: BestPair<P>)
  {
    && b.radarIndex < |s1s| && b.opticalIndex < |s2s|
    && Before(b.radarIndex, b.opticalIndex, i, j)
    && b.radar == s1s[b.radarIndex] && b.optical == s2s[b.opticalIndex]
    && Positive(geo, b.radar, b.optical)
    && b.overlap == Overlap(geo, b.radar, b.optical)
    && (forall k, l ::
          (0 <= k < |s1s| && 0 <= l < |s2s| && Before(k, l, i, j) && Intersects(geo, s1s[k], s2s[l])) ==>
          geo.area(geo.footprint(s2s[l])) != 0.0 && Overlap(geo, s1s[k], s2s[l]) <= b.overlap)
    && (forall k, l ::
          (0 <= k < |s1s| && 0 <= l < |s2s| && Before(k, l, b.radarIndex, b.opticalIndex)
           && Intersects(geo, s1s[k], s2s[l])) ==> Overlap(geo, s1s[k], s2s[l]) < b.overlap)
  }

  /** `b` is the pair a complete scan keeps. */
  ghost predicate IsFirstBest<P, G>(geo: Geometry<P, G>, s1s: seq<P>, s2s: seq<P>, b: BestPair<P>)
  {
    BestBefore(geo, s1s, s2s, |s1s|, 0, b)
  }

  /** What the scan knows after visiting every pair before (i, j): none of
      them divided by zero, none scored above the running best, and the held
      pair (if any) is the first best so far and carries the running best. */
  ghost predicate ScannedBefore<P, G>(geo: Geometry<P, G>, s1s: seq<P>, s2s: seq<P>, i: nat, j: nat,
                                      best: Option<BestPair<P>>, bestOverlap: real)
  {
    && (forall k, l :: 0 <= k < |s1s| && 0 <= l < |s2s| && Before(k, l, i, j) ==>
          !DividesByZero(geo, s1s[k], s2s[l]))
    && (forall k, l ::
          (0 <= k < |s1s| && 0 <= l < |s2s| && Before(k, l, i, j) && Intersects(geo, s1s[k], s2s[l])) ==>
          Overlap(geo, s1s[k], s2s[l]) <= bestOverlap)
    && (best.None? ==> bestOverlap == 0.0)
    && (best.Some? ==> best.value.overlap == bestOverlap && BestBefore(geo, s1s, s2s, i, j, best.value))
  }

  /** Lines 121-140: scan every pair, keep the strict running maximum of the
      overlap, and fail when none beats 0. */
  method SelectBestPair<P, G>(geo: Geometry<P, G>, s1s: seq<P>, s2s: seq<P>)
    returns (r: Result<BestPair<P>, SelectError>)
    ensures r == Err(ZeroAreaFootprint) <==>
      exists k, l :: 0 <= k < |s1s| && 0 <= l < |s2s| && DividesByZero(geo, s1s[k], s2s[l])
    ensures r == Err(NoOverlapFound) <==>
      NoZeroArea(geo, s1s, s2s) &&
      forall k, l :: 0 <= k < |s1s| && 0 <= l < |s2s| ==> !Positive(geo, s1s[k], s2s[l])
    ensures r.Ok? ==> IsFirstBest(geo, s1s, s2s, r.value)
  {
    var best: Option<BestPair<P>> := None;
    var bestOverlap: real := 0.0;
    for i := 0 to |s1s|
      invariant ScannedBefore(geo, s1s, s2s, i, 0, best, bestOverlap)
    {
      for j := 0 to |s2s|
        invariant ScannedBefore(geo, s1s, s2s, i, j, best, bestOverlap)
      {
        if Intersects(geo, s1s[i], s2s[j]) {
          if geo.area(geo.footprint(s2s[j])) == 0.0 {
            return Err(ZeroAreaFootprint);
          }
          var overlap := Overlap(geo, s1s[i], s2s[j]);
          if overlap > bestOverlap {
            ScanTake(geo, s1s, s2s, i, j, best, bestOverlap);
            bestOverlap := overlap;
            best := Some(BestPair(i, j, s1s[i], s2s[j], overlap));
          } else {
            ScanSkip(geo, s1s, s2s, i, j, best, bestOverlap);
          }
        } else {
          ScanSkip(geo, s1s, s2s, i, j, best, bestOverlap);
        }
      }
      ScanNextRow(geo, s1s, s2s, i, best, bestOverlap);
    }
    ScanDone(geo, s1s, s2s, best, bestOverlap);
    if best.None? {
      return Err(NoOverlapFound);
    }
    return Ok(best.value);
  }

  /** A visited pair that raises nothing and does not beat the running best
      leaves the held pair in place. */
  lemma ScanSkip<P, G>(geo: Geometry<P, G>, s1s: seq<P>, s2s: seq<P>, i: nat, j: nat,
                       best: Option<BestPair<P>>, bestOverlap: real)
    requires i < |s1s| && j < |s2s| && ScannedBefore(geo, s1s, s2s, i, j, best, bestOverlap)
    requires !DividesByZero(geo, s1s[i], s2s[j])
    requires Intersects(geo, s1s[i], s2s[j]) ==> Overlap(geo, s1s[i], s2s[j]) <= bestOverlap
    ensures ScannedBefore(geo, s1s, s2s, i, j + 1, best, bestOverlap)
  {
  }

  /** A visited pair that strictly beats the running best becomes the held pair. */
  lemma ScanTake<P, G>(geo: Geometry<P, G>, s1s: seq<P>, s2s: seq<P>, i: nat, j: nat,
                       best: Option<BestPair<P>>, bestOverlap: real)
    requires i < |s1s| && j < |s2s| && ScannedBefore(geo, s1s, s2s, i, j, best, bestOverlap)
    requires Intersects(geo, s1s[i], s2s[j]) && geo.area(geo.footprint(s2s[j])) != 0.0
    requires Overlap(geo, s1s[i], s2s[j]) > bestOverlap
    ensures var o := Overlap(geo, s1s[i], s2s[j]);
      ScannedBefore(geo, s1s, s2s, i, j + 1, Some(BestPair(i, j, s1s[i], s2s[j], o)), o)
  {
  }

  /** The end of a row of the scan is the start of the next. */
  lemma ScanNextRow<P, G>(geo: Geometry<P, G>, s1s: seq<P>, s2s: seq<P>, i: nat,
                          best: Option<BestPair<P>>, bestOverlap: real)
    requires ScannedBefore(geo, s1s, s2s, i, |s2s|, best, bestOverlap)
    ensures ScannedBefore(geo, s1s, s2s, i + 1, 0, best, bestOverlap)
  {
  }

  /** Once every pair is visited the running state answers the question:
      no pair divides by zero, and the held pair (if any) is the first best. */
  lemma ScanDone<P, G>(geo: Geometry<P, G>, s1s: seq<P>, s2s: seq<P>,
                       best: Option<BestPair<P>>, bestOverlap: real)
    requires ScannedBefore(geo, s1s, s2s, |s1s|, 0, best, bestOverlap)
    ensures NoZeroArea(geo, s1s, s2s)
    ensures best.None? <==> forall k, l :: 0 <= k < |s1s| && 0 <= l < |s2s| ==> !Positive(geo, s1s[k], s2s[l])
    ensures best.Some? ==> IsFirstBest(geo, s1s, s2s, best.value)
  {
    if best.Some? {
      var b := best.value;
      assert Positive(geo, s1s[b.radarIndex], s2s[b.opticalIndex]);
    }
  }

  /** The maximum with the first-wins tie-break singles out one pair: two
      results that both satisfy it are the same. */
  lemma FirstBestUnique<P, G>(geo: Geometry<P, G>, s1s: seq<P>, s2s: seq<P>, a: BestPair<P>, b: BestPair<P>)
    requires IsFirstBest(geo, s1s, s2s, a) && IsFirstBest(geo, s1s, s2s, b)
    ensures a == b
  {
  }

  /** With the usual geometry (areas are non-negative and an intersection is
      no larger than the optical footprint) the score is a percentage: 0 when
      the intersection has no area, 100 exactly when it is as large as the
      optical footprint. */
  lemma OverlapPercent<P, G>(geo: Geometry<P, G>, s1: P, s2: P)
    requires geo.area(geo.footprint(s2)) > 0.0
    requires 0.0 <= geo.area(Intersection(geo, s1, s2)) <= geo.area(geo.footprint(s2))
    ensures 0.0 <= Overlap(geo, s1, s2) <= 100.0
    ensures Overlap(geo, s1, s2) == 0.0 <==> geo.area(Intersection(geo, s1, s2)) == 0.0
    ensures Overlap(geo, s1, s2) == 100.0 <==> geo.area(Intersection(geo, s1, s2)) == geo.area(geo.footprint(s2))
  {
  }

  /** The score is not symmetric: swapping the roles of the two products
      rescales it by the ratio of their footprint areas. */
  lemma OverlapSwap<P, G>(geo: Geometry<P, G>, s1: P, s2: P)
    requires geo.area(geo.footprint(s1)) != 0.0 && geo.area(geo.footprint(s2)) != 0.0
    requires geo.area(Intersection(geo, s1, s2)) == geo.area(Intersection(geo, s2, s1))
    ensures Overlap(geo, s1, s2) * geo.area(geo.footprint(s2)) == Overlap(geo, s2, s1) * geo.area(geo.footprint(s1))
  {
  }
}
