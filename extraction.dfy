/** The extraction engine: the per-year reshaping of `download` that turns
    the time, latitude and longitude indices into one row per (day, query)
    pair, day-major and query-minor, by stretching the index lists with
    `np.repeat` and `np.tile` and indexing the grid element by element. */
module Extraction {
  import opened Sequences
  import opened Calendar
  import opened Outcome
  import opened Grid

  /** One output row: `DATE, LAT, LON, SST`. */
  datatype Row = Row(date: Date, lat: real, lon: real, sst: Option<real>)

  /** Each element as a run of `n` copies. */
  function Runs<T>(xs: seq<T>, n: nat): (rs: seq<seq<T>>)
    ensures |rs| == |xs| && Uniform(rs, n)
  {
    seq(|xs|, i requires 0 <= i < |xs| => seq(n, _ => xs[i]))
  }

  /** `np.repeat(xs, n)`: every element `n` times in a row, in order. */
  function Repeat<T>(xs: seq<T>, n: nat): (r: seq<T>)
    ensures |r| == |xs| * n
  {
    FlattenUniformLength(Runs(xs, n), n);
    Flatten(Runs(xs, n))
  }

  /** `n` copies of the whole sequence. */
  function Copies<T>(xs: seq<T>, n: nat): (cs: seq<seq<T>>)
    ensures |cs| == n && Uniform(cs, |xs|)
  {
    seq(n, _ => xs)
  }

  /** `np.tile(xs, n)`: the whole sequence `n` times over. */
  function Tile<T>(xs: seq<T>, n: nat): (r: seq<T>)
    ensures |r| == n * |xs|
  {
    FlattenUniformLength(Copies(xs, n), |xs|);
    Flatten(Copies(xs, n))
  }

  /** Position `k` of a repetition holds element `k / n`. */
  lemma RepeatAt<T>(xs: seq<T>, n: nat, k: int)
    requires 0 <= k < |xs| * n
    ensures 0 <= k / n < |xs| && Repeat(xs, n)[k] == xs[k / n]
  {
    FlattenUniformAt(Runs(xs, n), n, k);
  }

  /** Position `k` of a tiling holds element `k % |xs|`. */
  lemma TileAt<T>(xs: seq<T>, n: nat, k: int)
    requires 0 <= k < n * |xs|
    ensures 0 <= k % |xs| < |xs| && Tile(xs, n)[k] == xs[k % |xs|]
  {
    FlattenUniformAt(Copies(xs, n), |xs|, k);
  }

  /** Repeating a concatenation repeats each part. */
  lemma RepeatAppend<T>(a: seq<T>, b: seq<T>, n: nat)
    ensures Repeat(a + b, n) == Repeat(a, n) + Repeat(b, n)
  {
    assert Runs(a + b, n) == Runs(a, n) + Runs(b, n);
    FlattenAppend(Runs(a, n), Runs(b, n));
  }

  /** Each list repeated on its own. */
  function RepeatEach<T>(bs: seq<seq<T>>, n: nat): (rs: seq<seq<T>>)
    ensures |rs| == |bs|
  {
    seq(|bs|, i requires 0 <= i < |bs| => Repeat(bs[i], n))
  }

  /** Repeating lists one by one and concatenating the results is repeating
      their concatenation. */
  lemma {:induction false} RepeatFlatten<T>(bs: seq<seq<T>>, n: nat)
    ensures Flatten(RepeatEach(bs, n)) == Repeat(Flatten(bs), n)
    decreases |bs|
  {
    if bs != [] {
      RepeatFlatten(bs[1..], n);
      assert RepeatEach(bs, n)[1..] == RepeatEach(bs[1..], n);
      RepeatAppend(bs[0], Flatten(bs[1..]), n);
    } else {
      assert Runs<T>([], n) == [];
    }
  }

  /** The inputs `ExtractRows` can index with: a decoded grid, one time
      position per requested day, and in-range cell indices per query. */
  predicate Indexable(ds: Dataset, dates: seq<Date>, ti: seq<nat>, li: seq<nat>, lj: seq<nat>)
  {
    && WellFormed(ds) && |ti| == |dates| && |li| == |lj|
    && (forall d :: 0 <= d < |ti| ==> ti[d] < |ds.time|)
    && (forall q :: 0 <= q < |li| ==> li[q] < |ds.lat| && lj[q] < |ds.lon|)
  }

  /** The rows of one year: the days stretched with `np.repeat`, the cell
      indices with `np.tile`, the readings `sst[T, I, J]` and coordinates
      `lat[I]`, `lon[J]` taken element by element. */
  function ExtractRows(ds: Dataset, dates: seq<Date>, ti: seq<nat>, li: seq<nat>, lj: seq<nat>): (rows: seq<Row>)
    requires Indexable(ds, dates, ti, li, lj)
    ensures |rows| == |dates| * |li|
  {
    var days, locs := |dates|, |li|;
    var timeCol, latCol, lonCol := Repeat(ti, locs), Tile(li, days), Tile(lj, days);
    var dateCol := Repeat(dates, locs);
    seq(days * locs, k requires 0 <= k < days * locs =>
      RepeatAt(ti, locs, k);
      RepeatAt(dates, locs, k);
      TileAt(li, days, k);
      TileAt(lj, days, k);
      Row(dateCol[k], ds.lat[latCol[k]], ds.lon[lonCol[k]], ds.sst[timeCol[k]][latCol[k]][lonCol[k]]))
  }

  /** Row `d * L + q` (L queries) is day `d` at query `q`'s cell: the day,
      the cell's grid coordinates and the reading of that day at that cell. */
  lemma ExtractRowsAt(ds: Dataset, dates: seq<Date>, ti: seq<nat>, li: seq<nat>, lj: seq<nat>, d: int, q: int)
    requires Indexable(ds, dates, ti, li, lj)
    requires 0 <= d < |dates| && 0 <= q < |li|
    ensures 0 <= d * |li| + q < |ExtractRows(ds, dates, ti, li, lj)|
    ensures ExtractRows(ds, dates, ti, li, lj)[d * |li| + q]
            == Row(dates[d], ds.lat[li[q]], ds.lon[lj[q]], ds.sst[ti[d]][li[q]][lj[q]])
  {
    var k := d * |li| + q;
    CellIndex(d, q, |dates|, |li|);
    RepeatAt(ti, |li|, k);
    RepeatAt(dates, |li|, k);
    TileAt(li, |dates|, k);
    TileAt(lj, |dates|, k);
  }

  /** The `DATE` column. */
  function DateColumn(rows: seq<Row>): (col: seq<Date>)
    ensures |col| == |rows|
  {
    seq(|rows|, k requires 0 <= k < |rows| => rows[k].date)
  }

  /** The `DATE` column of a year's rows is its days, each repeated once per
      query. */
  lemma ExtractDates(ds: Dataset, dates: seq<Date>, ti: seq<nat>, li: seq<nat>, lj: seq<nat>)
    requires Indexable(ds, dates, ti, li, lj)
    ensures DateColumn(ExtractRows(ds, dates, ti, li, lj)) == Repeat(dates, |li|)
  {
    var rows := ExtractRows(ds, dates, ti, li, lj);
    forall k | 0 <= k < |rows|
      ensures rows[k].date == Repeat(dates, |li|)[k]
    {
      RepeatAt(dates, |li|, k);
    }
  }

  /** The `DATE` column of each table, table by table. */
  function DateColumns(ts: seq<seq<Row>>): (cs: seq<seq<Date>>)
    ensures |cs| == |ts| && forall i :: 0 <= i < |ts| ==> cs[i] == DateColumn(ts[i])
  {
    seq(|ts|, i requires 0 <= i < |ts| => DateColumn(ts[i]))
  }

  /** The `DATE` column of concatenated tables is their columns
      concatenated. */
  lemma {:induction false} DateColumnFlatten(ts: seq<seq<Row>>)
    ensures DateColumn(Flatten(ts)) == Flatten(DateColumns(ts))
    decreases |ts|
  {
    if ts != [] {
      DateColumnFlatten(ts[1..]);
      assert DateColumns(ts)[1..] == DateColumns(ts[1..]);
      var a, b := ts[0], Flatten(ts[1..]);
      assert DateColumn(a + b) == DateColumn(a) + DateColumn(b);
    }
  }
}
