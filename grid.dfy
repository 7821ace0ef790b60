/** The spatial half of index resolution: longitude normalisation of a
    decoded grid file, the M x N cartesian product of its latitudes and
    longitudes, and the nearest grid cell of each query location. The source
    asks a k-d tree for the nearest candidate; here the nearest candidate is
    the first one of minimal squared Euclidean distance. */
module Grid {
  import opened Sequences
  import opened Outcome

  /** A query point, latitude first. */
  datatype Location = Location(lat: real, lon: real)

  /** A decoded yearly grid file: the `lat`, `lon` and `time` axes and the
      readings `sst[t][i][j]` for time position `t`, latitude `i`, longitude
      `j`. `None` stands for a `NaN` reading. */
  datatype Dataset = Dataset(
    lat: seq<real>,
    lon: seq<real>,
    time: seq<real>,
    sst: seq<seq<seq<Option<real>>>>)

  /** The shape the file format guarantees: a non-empty grid and one
      `|lat| x |lon|` slice per time position. */
  predicate WellFormed(ds: Dataset)
  {
    && |ds.lat| > 0 && |ds.lon| > 0
    && |ds.sst| == |ds.time|
    && (forall t :: 0 <= t < |ds.sst| ==> |ds.sst[t]| == |ds.lat|)
    && (forall t, i :: 0 <= t < |ds.sst| && 0 <= i < |ds.sst[t]| ==> |ds.sst[t][i]| == |ds.lon|)
  }

  /** A longitude above 180 is moved 360 degrees west. */
  function NormalizeLongitude(x: real): (r: real)
    ensures x <= 180.0 ==> r == x
    ensures x > 180.0 ==> r == x - 360.0
    ensures 0.0 <= x < 360.0 ==> -180.0 < r <= 180.0
  {
    if x <= 180.0 then x else x - 360.0
  }

  function NormalizeLongitudes(lon: seq<real>): (r: seq<real>)
    ensures |r| == |lon|
  {
    seq(|lon|, k requires 0 <= k < |lon| => NormalizeLongitude(lon[k]))
  }

  /** Normalising twice is normalising once, for raw values in [0, 360). */
  lemma NormalizeIdempotent(lon: seq<real>)
    requires forall k :: 0 <= k < |lon| ==> 0.0 <= lon[k] < 360.0
    ensures NormalizeLongitudes(NormalizeLongitudes(lon)) == NormalizeLongitudes(lon)
  {
    var once := NormalizeLongitudes(lon);
    assert forall k :: 0 <= k < |lon| ==> -180.0 < once[k] <= 180.0;
  }

  /** Distinct raw longitudes in [0, 360) stay distinct. */
  lemma NormalizePreservesDistinct(lon: seq<real>)
    requires forall k :: 0 <= k < |lon| ==> 0.0 <= lon[k] < 360.0
    requires Distinct(lon)
    ensures Distinct(NormalizeLongitudes(lon))
  {
    var r := NormalizeLongitudes(lon);
    forall a, b | 0 <= a < b < |r|
      ensures r[a] != r[b]
    {
      assert r[a] == NormalizeLongitude(lon[a]) && r[b] == NormalizeLongitude(lon[b]);
    }
  }

  /** `read_dataset`: the decoded file with its longitudes normalised. */
  function ReadDataset(raw: Dataset): (ds: Dataset)
    ensures ds.lat == raw.lat && ds.time == raw.time && ds.sst == raw.sst
    ensures |ds.lon| == |raw.lon|
    ensures forall j :: 0 <= j < |ds.lon| ==>
              ds.lon[j] == if raw.lon[j] <= 180.0 then raw.lon[j] else raw.lon[j] - 360.0
    ensures WellFormed(raw) ==> WellFormed(ds)
  {
    raw.(lon := NormalizeLongitudes(raw.lon))
  }

  /** `np.array(range(n))`. */
  function Range(n: nat): (r: seq<nat>)
    ensures |r| == n && forall i :: 0 <= i < n ==> r[i] == i
  {
    seq(n, i => i)
  }

  /** `np.meshgrid(xs, ys)` flattened row by row: row `r` of the meshgrid
      pairs every `x` with `ys[r]`, so the first coordinate varies fastest. */
  function Meshgrid<T>(xs: seq<T>, ys: seq<T>): (pairs: seq<(T, T)>)
    ensures |pairs| == |xs| * |ys|
  {
    FlattenUniformLength(MeshRows(xs, ys), |xs|);
    Flatten(MeshRows(xs, ys))
  }

  function MeshRows<T>(xs: seq<T>, ys: seq<T>): (rows: seq<seq<(T, T)>>)
    ensures |rows| == |ys| && Uniform(rows, |xs|)
  {
    seq(|ys|, r requires 0 <= r < |ys| => seq(|xs|, c requires 0 <= c < |xs| => (xs[c], ys[r])))
  }

  /** Position `k` of the cartesian product pairs `xs[k % M]` with
      `ys[k / M]`. */
  lemma MeshgridAt<T>(xs: seq<T>, ys: seq<T>, k: int)
    requires |xs| > 0 && 0 <= k < |xs| * |ys|
    ensures |Meshgrid(xs, ys)| == |xs| * |ys|
    ensures 0 <= k % |xs| < |xs| && 0 <= k / |xs| < |ys|
    ensures Meshgrid(xs, ys)[k] == (xs[k % |xs|], ys[k / |xs|])
  {
    FlattenUniformAt(MeshRows(xs, ys), |xs|, k);
  }

  /** Every pair of the product appears, at position `j * M + i`. */
  lemma MeshgridCell<T>(xs: seq<T>, ys: seq<T>, i: int, j: int)
    requires 0 <= i < |xs| && 0 <= j < |ys|
    ensures |Meshgrid(xs, ys)| == |xs| * |ys|
    ensures 0 <= j * |xs| + i < |xs| * |ys|
    ensures Meshgrid(xs, ys)[j * |xs| + i] == (xs[i], ys[j])
  {
    FlattenUniformCell(MeshRows(xs, ys), |xs|, j, i);
  }

  /** The candidate table and the index table come from the same
      flattening: position `k` of one holds the coordinates named by
      position `k` of the other. */
  lemma MeshgridConsistent(lat: seq<real>, lon: seq<real>, k: int)
    requires |lat| > 0 && 0 <= k < |lat| * |lon|
    ensures |Meshgrid(lat, lon)| == |lat| * |lon|
    ensures |Meshgrid(Range(|lat|), Range(|lon|))| == |lat| * |lon|
    ensures var (i, j) := Meshgrid(Range(|lat|), Range(|lon|))[k];
            0 <= i < |lat| && 0 <= j < |lon| && Meshgrid(lat, lon)[k] == (lat[i], lon[j])
  {
    MeshgridAt(lat, lon, k);
    MeshgridAt(Range(|lat|), Range(|lon|), k);
  }

  function SqDist(p: (real, real), q: Location): real
  {
    (p.0 - q.lat) * (p.0 - q.lat) + (p.1 - q.lon) * (p.1 - q.lon)
  }

  // The facts about squares take the zero they compare with as a
  // parameter `z`, always passed 0.0: written with the literal 0.0 in
  // place of `z`, the solver does not prove SumOfSquaresZero's conclusion
  // from the two squares being positive.

  lemma ProductPositive(a: real, b: real, z: real)
    requires z == 0.0 && a > z && b > z
    ensures a * b > z
  {
  }

  lemma SquarePositive(x: real, z: real)
    requires z == 0.0 && x != z
    ensures x * x > z
  {
    if x > z {
      ProductPositive(x, x, z);
    } else {
      ProductPositive(-x, -x, z);
      assert (-x) * (-x) == x * x;
    }
  }

  lemma SumOfSquaresZero(a: real, b: real, s: real, z: real)
    requires z == 0.0 && s == a * a + b * b && s <= z
    ensures a == z && b == z
  {
    if a != z {
      SquarePositive(a, z);
      if b != z { SquarePositive(b, z); }
    }
    if b != z {
      SquarePositive(b, z);
      if a != z { SquarePositive(a, z); }
    }
  }

  /** The query point is at distance zero from itself. */
  lemma SqDistSelf(q: Location)
    ensures SqDist((q.lat, q.lon), q) == 0.0
  {
    var a, b := q.lat - q.lat, q.lon - q.lon;
    assert a == 0.0 && b == 0.0;
    assert a * a == 0.0 && b * b == 0.0;
  }

  /** Only the query point itself is at distance zero from the query. */
  lemma SqDistZero(p: (real, real), q: Location)
    requires SqDist(p, q) <= 0.0
    ensures p == (q.lat, q.lon)
  {
    SumOfSquaresZero(p.0 - q.lat, p.1 - q.lon, SqDist(p, q), 0.0);
    assert p == (p.0, p.1);
  }

  /** Position of the first candidate closest to `q`. */
  function ArgMin(cands: seq<(real, real)>, q: Location): (k: nat)
    requires |cands| > 0
    ensures k < |cands|
    ensures forall j :: 0 <= j < |cands| ==> SqDist(cands[k], q) <= SqDist(cands[j], q)
    ensures forall j :: 0 <= j < k ==> SqDist(cands[k], q) < SqDist(cands[j], q)
  {
    if |cands| == 1 then 0
    else
      var k := ArgMin(cands[..|cands| - 1], q);
      if SqDist(cands[|cands| - 1], q) < SqDist(cands[k], q) then |cands| - 1 else k
  }

  /** The flat position of the grid cell nearest to `q`. */
  function NearestCandidate(lat: seq<real>, lon: seq<real>, q: Location): (k: nat)
    requires |lat| > 0 && |lon| > 0
    ensures k < |lat| * |lon|
  {
    MeshgridAt(lat, lon, 0);
    assert |lat| * |lon| > 0 by { MulAtLeast(|lon|, |lat|); }
    ArgMin(Meshgrid(lat, lon), q)
  }

  /** The (latitude index, longitude index) pair the index table holds at
      the nearest candidate's position. */
  function NearestCell(lat: seq<real>, lon: seq<real>, q: Location): (c: (nat, nat))
    requires |lat| > 0 && |lon| > 0
    ensures c.0 < |lat| && c.1 < |lon|
    ensures c.1 * |lat| + c.0 == NearestCandidate(lat, lon, q)
    ensures Meshgrid(lat, lon)[NearestCandidate(lat, lon, q)] == (lat[c.0], lon[c.1])
  {
    var k := NearestCandidate(lat, lon, q);
    MeshgridAt(lat, lon, k);
    MeshgridAt(Range(|lat|), Range(|lon|), k);
    DivModRebuild(k, |lat|);
    Meshgrid(Range(|lat|), Range(|lon|))[k]
  }

  /** What `ArgMin` promises, read at two given candidates. */
  lemma ArgMinAt(cands: seq<(real, real)>, q: Location, h: int, a: (real, real), b: (real, real))
    requires |cands| > 0 && 0 <= h < |cands|
    requires cands[ArgMin(cands, q)] == a && cands[h] == b
    ensures SqDist(a, q) <= SqDist(b, q)
    ensures h < ArgMin(cands, q) ==> SqDist(a, q) < SqDist(b, q)
  {
  }

  /** The nearest cell compared with one cell `(i, j)` of the grid. */
  lemma NearestCellBeats(lat: seq<real>, lon: seq<real>, q: Location, i: int, j: int)
    requires |lat| > 0 && |lon| > 0 && 0 <= i < |lat| && 0 <= j < |lon|
    ensures var c := NearestCell(lat, lon, q);
            && SqDist((lat[c.0], lon[c.1]), q) <= SqDist((lat[i], lon[j]), q)
            && (j * |lat| + i < c.1 * |lat| + c.0 ==>
                  SqDist((lat[c.0], lon[c.1]), q) < SqDist((lat[i], lon[j]), q))
  {
    var m := |lat|;
    var cands := Meshgrid(lat, lon);
    var k := NearestCandidate(lat, lon, q);
    var c := NearestCell(lat, lon, q);
    var here := j * m + i;
    assert 0 <= here < |cands| && cands[here] == (lat[i], lon[j]) by {
      MeshgridCell(lat, lon, i, j);
    }
    ArgMinAt(cands, q, here, (lat[c.0], lon[c.1]), (lat[i], lon[j]));
  }

  /** No cell of the M x N grid is closer to the query than the one
      `NearestCell` names, and every cell enumerated before it is strictly
      farther. */
  lemma NearestCellMinimal(lat: seq<real>, lon: seq<real>, q: Location)
    requires |lat| > 0 && |lon| > 0
    ensures var c := NearestCell(lat, lon, q);
            forall i, j :: 0 <= i < |lat| && 0 <= j < |lon| ==>
              && SqDist((lat[c.0], lon[c.1]), q) <= SqDist((lat[i], lon[j]), q)
              && (j * |lat| + i < c.1 * |lat| + c.0 ==>
                    SqDist((lat[c.0], lon[c.1]), q) < SqDist((lat[i], lon[j]), q))
  {
    forall i, j | 0 <= i < |lat| && 0 <= j < |lon| {
      NearestCellBeats(lat, lon, q, i, j);
    }
  }

  /** `get_lat_lon_index`: for each query, in query order, the latitude and
      longitude index of its nearest grid cell. */
  function GetLatLonIndex(lat: seq<real>, lon: seq<real>, locs: seq<Location>): (r: (seq<nat>, seq<nat>))
    requires |lat| > 0 && |lon| > 0
    ensures |r.0| == |locs| && |r.1| == |locs|
    ensures forall q :: 0 <= q < |locs| ==> r.0[q] < |lat| && r.1[q] < |lon|
  {
    (seq(|locs|, q requires 0 <= q < |locs| => NearestCell(lat, lon, locs[q]).0),
     seq(|locs|, q requires 0 <= q < |locs| => NearestCell(lat, lon, locs[q]).1))
  }

  /** One index pair per query, in query order, each naming a nearest cell
      of that query. */
  lemma LatLonIndexNearest(lat: seq<real>, lon: seq<real>, locs: seq<Location>, q: int)
    requires |lat| > 0 && |lon| > 0 && 0 <= q < |locs|
    ensures var (li, lj) := GetLatLonIndex(lat, lon, locs);
            forall i, j :: 0 <= i < |lat| && 0 <= j < |lon| ==>
              && SqDist((lat[li[q]], lon[lj[q]]), locs[q]) <= SqDist((lat[i], lon[j]), locs[q])
              && (j * |lat| + i < lj[q] * |lat| + li[q] ==>
                    SqDist((lat[li[q]], lon[lj[q]]), locs[q]) < SqDist((lat[i], lon[j]), locs[q]))
  {
    NearestCellMinimal(lat, lon, locs[q]);
  }

  /** A query standing exactly on a cell centre of a grid with distinct
      latitudes and distinct longitudes gets that cell's indices. */
  lemma ExactCentre(lat: seq<real>, lon: seq<real>, locs: seq<Location>, q: int, i: int, j: int)
    requires |lat| > 0 && |lon| > 0 && Distinct(lat) && Distinct(lon)
    requires 0 <= q < |locs| && 0 <= i < |lat| && 0 <= j < |lon|
    requires locs[q] == Location(lat[i], lon[j])
    ensures GetLatLonIndex(lat, lon, locs).0[q] == i
    ensures GetLatLonIndex(lat, lon, locs).1[q] == j
  {
    var c := NearestCell(lat, lon, locs[q]);
    NearestCellBeats(lat, lon, locs[q], i, j);
    SqDistSelf(locs[q]);
    SqDistZero((lat[c.0], lon[c.1]), locs[q]);
    assert lat[c.0] == lat[i] && lon[c.1] == lon[j];
  }
}
