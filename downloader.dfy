/** `SeaSurfaceTempDownloader`: the constructor that selects the coordinate
    columns, and `download`, which walks the yearly files in chronological
    order, extracts one table per year and assembles them into the result,
    counting missing readings before the fill value is turned into a missing
    marker. The decoded content of each remote file is a parameter. */
module Downloader {
  import opened Sequences
  import opened Calendar
  import opened Outcome
  import opened ListDicts
  import opened Grid
  import opened TimeIndex
  import opened Partition
  import opened Extraction

  /** A data frame of named numeric columns. */
  datatype Frame = Frame(height: nat, columns: map<string, seq<real>>)

  /** Every column of a frame has the frame's height. */
  ghost predicate Rectangular(f: Frame)
  {
    forall c :: c in f.columns ==> |f.columns[c]| == f.height
  }

  /** The downloader's state, fixed at construction: the query points, the
      first and last requested day, and the temporary directory the files
      are saved in. */
  datatype SeaSurfaceTempDownloader =
    SeaSurfaceTempDownloader(locations: seq<Location>, start: Date, end: Date, tempDir: string)

  /** The constructor: `locations[[lat_col, lon_col]]`, which raises
      `KeyError` unless both columns exist. */
  function NewDownloader(frame: Frame, start: Date, end: Date, tempDir: string,
                         latCol: string, lonCol: string): (r: Result<SeaSurfaceTempDownloader>)
    requires Rectangular(frame)
    ensures r.Err? <==> latCol !in frame.columns || lonCol !in frame.columns
    ensures r.Err? ==> r.error == MissingColumns(latCol, lonCol)
    ensures r.Ok? ==>
              && r.value.start == start && r.value.end == end && r.value.tempDir == tempDir
              && |r.value.locations| == frame.height
              && forall k :: 0 <= k < frame.height ==>
                   r.value.locations[k] == Location(frame.columns[latCol][k], frame.columns[lonCol][k])
  {
    if latCol in frame.columns && lonCol in frame.columns then
      var lat, lon := frame.columns[latCol], frame.columns[lonCol];
      Ok(SeaSurfaceTempDownloader(
        seq(frame.height, k requires 0 <= k < frame.height => Location(lat[k], lon[k])),
        start, end, tempDir))
    else
      Err(MissingColumns(latCol, lonCol))
  }

  /** Readings below this are the file's fill value (-9.96921e+36). */
  const MissingBelow: real := -900000000000000000000000000000000000.0

  /** The fill value the grid files use for land and missing data. */
  const FillValue: real := -9969210000000000000000000000000000000.0

  /** `output.loc[output['SST'] < -9e35, 'SST'] = np.nan` for one reading. */
  function MaskReading(v: Option<real>): (m: Option<real>)
    ensures m.None? <==> v.None? || v.value < MissingBelow
    ensures m.Some? ==> m == v && m.value >= MissingBelow
  {
    if v.Some? && v.value < MissingBelow then None else v
  }

  /** The sentinel replacement over the whole table: only the `SST` column
      changes. */
  function MaskSentinels(rows: seq<Row>): (masked: seq<Row>)
    ensures |masked| == |rows|
    ensures forall k :: 0 <= k < |rows| ==>
              masked[k].date == rows[k].date && masked[k].lat == rows[k].lat && masked[k].lon == rows[k].lon
    ensures forall k :: 0 <= k < |rows| ==>
              (masked[k].sst.None? <==> rows[k].sst.None? || rows[k].sst.value < MissingBelow)
    ensures forall k :: 0 <= k < |rows| && masked[k].sst.Some? ==>
              masked[k].sst == rows[k].sst && masked[k].sst.value >= MissingBelow
  {
    seq(|rows|, k requires 0 <= k < |rows| => rows[k].(sst := MaskReading(rows[k].sst)))
  }

  /** Masking twice masks nothing more. */
  lemma MaskIdempotent(rows: seq<Row>)
    ensures MaskSentinels(MaskSentinels(rows)) == MaskSentinels(rows)
  {
    var once := MaskSentinels(rows);
    assert forall k :: 0 <= k < |rows| ==> once[k] == rows[k].(sst := MaskReading(rows[k].sst));
  }

  /** `output['SST'].isnull().sum()`. */
  function CountNull(rows: seq<Row>): (n: nat)
    ensures n <= |rows|
  {
    if rows == [] then 0
    else CountNull(rows[..|rows| - 1]) + (if rows[|rows| - 1].sst.None? then 1 else 0)
  }

  /** The count equals the number of rows exactly when every reading is
      missing. */
  lemma {:induction false} CountNullAll(rows: seq<Row>)
    ensures CountNull(rows) == |rows| <==> forall k :: 0 <= k < |rows| ==> rows[k].sst.None?
    decreases |rows|
  {
    if rows != [] {
      var n := |rows| - 1;
      CountNullAll(rows[..n]);
      assert forall k :: 0 <= k < n ==> rows[..n][k] == rows[k];
    }
  }

  /** The returned table, and whether the all-missing warning was raised. */
  datatype Output = Output(rows: seq<Row>, allNullWarning: bool)

  /** `pd.concat(result)`, the warning when every reading is `NaN`, then the
      sentinel replacement; `pd.concat([])` raises `ValueError`. */
  function Assemble(tables: seq<seq<Row>>): (r: Result<Output>)
    ensures r.Ok? <==> tables != []
    ensures r.Err? ==> r.error == NothingToConcatenate
    ensures r.Ok? ==> |r.value.rows| == |Flatten(tables)|
  {
    if tables == [] then Err(NothingToConcatenate)
    else
      var output := Flatten(tables);
      Ok(Output(MaskSentinels(output), CountNull(output) == |output|))
  }

  /** Assembling fails only on no tables. The result is the concatenation
      with its fill values masked, the warning is raised exactly when every
      reading was `NaN` before masking, and then every output reading is
      missing too. */
  lemma AssembleExact(tables: seq<seq<Row>>)
    ensures Assemble(tables).Ok? <==> tables != []
    ensures Assemble(tables).Err? ==> Assemble(tables).error == NothingToConcatenate
    ensures Assemble(tables).Ok? ==>
              var out := Assemble(tables).value;
              var raw := Flatten(tables);
              && out.rows == MaskSentinels(raw)
              && (out.allNullWarning <==> forall k :: 0 <= k < |raw| ==> raw[k].sst.None?)
              && (out.allNullWarning ==> forall k :: 0 <= k < |out.rows| ==> out.rows[k].sst.None?)
  {
    var raw := Flatten(tables);
    CountNullAll(raw);
    if tables != [] && CountNull(raw) == |raw| {
      var masked := MaskSentinels(raw);
      assert forall k :: 0 <= k < |masked| ==> masked[k].sst.None? by {
        forall k | 0 <= k < |masked|
          ensures masked[k].sst.None?
        {
          assert raw[k].sst.None?;
        }
      }
    }
  }

  /** The warning is decided before the fill value is masked: a table whose
      only reading is the fill value raises no warning, although its output
      reading is missing. */
  lemma FillValueRaisesNoWarning(d: Date, lat: real, lon: real)
    ensures Assemble([[Row(d, lat, lon, Some(FillValue))]])
            == Ok(Output([Row(d, lat, lon, None)], false))
  {
    var raw: seq<Row> := [Row(d, lat, lon, Some(FillValue))];
    var table: seq<seq<Row>> := [raw];
    assert Flatten(table) == raw by {
      assert table[1..] == [];
    }
    assert CountNull(raw) == 0 by {
      assert raw[..0] == [];
    }
    assert MaskReading(Some(FillValue)) == None;
    assert MaskSentinels(raw) == [Row(d, lat, lon, None)];
  }

  /** One year's table: the file's longitudes normalised, its time positions
      of the year's days, the nearest cells of the queries, and the rows
      extracted from those indices. */
  function YearTable(raw: Dataset, days: seq<Date>, locs: seq<Location>): (r: Result<seq<Row>>)
    requires WellFormed(raw)
    ensures r.Ok? ==> |r.value| == |days| * |locs|
    ensures r.Err? ==> r.error.DateOverflow? || r.error.DateNotFound?
  {
    var ds := ReadDataset(raw);
    match ResolveTimes(ds.time, days)
    case Err(e) => Err(e)
    case Ok(ti) =>
      ResolveTimesOk(ds.time, days);
      var ix := GetLatLonIndex(ds.lat, ds.lon, locs);
      Ok(ExtractRows(ds, days, ti, ix.0, ix.1))
  }

  /** A year's table exists exactly when every time offset of the file is
      a representable day and every requested day is on the file's axis.
      Otherwise the error names the first offset that overflows or, on a
      representable axis, the first requested day that is missing. */
  lemma YearTableOk(raw: Dataset, days: seq<Date>, locs: seq<Location>)
    requires WellFormed(raw)
    ensures var time := ReadDataset(raw).time;
            YearTable(raw, days, locs).Ok? <==>
              AxisInRange(time) && forall k :: 0 <= k < |days| ==> OnAxis(time, days[k])
    ensures var time := ReadDataset(raw).time;
            YearTable(raw, days, locs).Err? && !AxisInRange(time) ==>
              exists i :: 0 <= i < |time| && YearTable(raw, days, locs).error == DateOverflow(Truncate(time[i]))
                && !InPythonRange(DayOf(Truncate(time[i])))
                && forall j :: 0 <= j < i ==> InPythonRange(DayOf(Truncate(time[j])))
    ensures var time := ReadDataset(raw).time;
            YearTable(raw, days, locs).Err? && AxisInRange(time) ==>
              exists k :: 0 <= k < |days| && YearTable(raw, days, locs).error == DateNotFound(days[k])
                && !OnAxis(time, days[k])
                && forall k' :: 0 <= k' < k ==> OnAxis(time, days[k'])
  {
    var ds := ReadDataset(raw);
    ResolveTimesOk(ds.time, days);
    if ResolveTimes(ds.time, days).Err? {
      ResolveTimesErr(ds.time, days);
    }
  }

  /** A successful year's table is the extraction at the resolved time
      positions and the queries' nearest cells. */
  lemma YearTableRows(raw: Dataset, days: seq<Date>, locs: seq<Location>)
    requires WellFormed(raw) && YearTable(raw, days, locs).Ok?
    ensures var ds := ReadDataset(raw);
            var ix := GetLatLonIndex(ds.lat, ds.lon, locs);
            && ResolveTimes(ds.time, days).Ok?
            && Indexable(ds, days, ResolveTimes(ds.time, days).value, ix.0, ix.1)
            && YearTable(raw, days, locs).value == ExtractRows(ds, days, ResolveTimes(ds.time, days).value, ix.0, ix.1)
  {
    var ds := ReadDataset(raw);
    ResolveTimesOk(ds.time, days);
  }

  /** A year's table has one row per (day, query) pair, day-major: row
      `d * L + q` is day `d` at the grid cell chosen for query `q` (the
      nearest one, by `LatLonIndexNearest`), with the reading at the last
      time position naming that day. */
  lemma YearTableAt(raw: Dataset, days: seq<Date>, locs: seq<Location>, d: int, q: int)
    requires WellFormed(raw) && YearTable(raw, days, locs).Ok?
    requires 0 <= d < |days| && 0 <= q < |locs|
    ensures var ds := ReadDataset(raw);
            var rows := YearTable(raw, days, locs).value;
            var ti := ResolveTimes(ds.time, days).value;
            var ix := GetLatLonIndex(ds.lat, ds.lon, locs);
            && |ti| == |days| && |ix.0| == |locs| && |ix.1| == |locs|
            && var t := ti[d];
            && t < |ds.time| && OffsetToDate(Truncate(ds.time[t])) == Ok(days[d])
            && ix.0[q] < |ds.lat| && ix.1[q] < |ds.lon|
            && |rows| == |days| * |locs|
            && 0 <= d * |locs| + q < |rows|
            && rows[d * |locs| + q] == Row(days[d], ds.lat[ix.0[q]], ds.lon[ix.1[q]], ds.sst[t][ix.0[q]][ix.1[q]])
  {
    var ds := ReadDataset(raw);
    ResolveTimesAt(ds.time, days, d);
    var ti := ResolveTimes(ds.time, days).value;
    var ix := GetLatLonIndex(ds.lat, ds.lon, locs);
    YearTableRows(raw, days, locs);
    ExtractRowsAt(ds, days, ti, ix.0, ix.1, d, q);
  }

  /** The columns of a year's table: each day once per query. */
  lemma YearTableDates(raw: Dataset, days: seq<Date>, locs: seq<Location>)
    requires WellFormed(raw) && YearTable(raw, days, locs).Ok?
    ensures DateColumn(YearTable(raw, days, locs).value) == Repeat(days, |locs|)
  {
    var ds := ReadDataset(raw);
    ResolveTimesOk(ds.time, days);
    var ix := GetLatLonIndex(ds.lat, ds.lon, locs);
    ExtractDates(ds, days, ResolveTimes(ds.time, days).value, ix.0, ix.1);
  }

  /** Every url of the mapping has a first bundle. */
  ghost predicate HasBundles(mp: ListDict<string, Bundle>)
  {
    forall i :: 0 <= i < |mp.keys| ==> mp.keys[i] in mp.lists && mp.lists[mp.keys[i]] != []
  }

  /** `(url, bundle[0])` for each item of the mapping, in order. */
  function Items(mp: ListDict<string, Bundle>): (items: seq<(string, Bundle)>)
    requires HasBundles(mp)
    ensures |items| == |mp.keys|
  {
    seq(|mp.keys|, i requires 0 <= i < |mp.keys| => (mp.keys[i], mp.lists[mp.keys[i]][0]))
  }

  /** Each item's year table, in order. */
  function YearTables(items: seq<(string, Bundle)>, files: string -> Dataset, locs: seq<Location>)
    : (rs: seq<Result<seq<Row>>>)
    requires forall url :: WellFormed(files(url))
    ensures |rs| == |items|
  {
    seq(|items|, i requires 0 <= i < |items| => YearTable(files(items[i].0), items[i].1.days, locs))
  }

  /** Item `i`'s table is the table of the first bundle under url `i`. */
  lemma YearTablesAt(mp: ListDict<string, Bundle>, files: string -> Dataset, locs: seq<Location>, i: int)
    requires HasBundles(mp) && forall url :: WellFormed(files(url))
    requires 0 <= i < |mp.keys|
    ensures YearTables(Items(mp), files, locs)[i]
            == YearTable(files(mp.keys[i]), mp.lists[mp.keys[i]][0].days, locs)
  {
  }

  /** The mapping of the downloader's range has a bundle under every url. */
  lemma MappingHasBundles(start: Date, end: Date, tempDir: string)
    requires Valid(start) && Valid(end)
    ensures HasBundles(DirMapping(start, end, tempDir))
  {
    DirMappingExact(start, end, tempDir);
  }

  /** The tables `download` collects for a downloader. */
  function Tables(dl: SeaSurfaceTempDownloader, files: string -> Dataset): (r: Result<seq<seq<Row>>>)
    requires Valid(dl.start) && Valid(dl.end)
    requires forall url :: WellFormed(files(url))
    ensures r.Err? ==> r.error.DateOverflow? || r.error.DateNotFound?
  {
    MappingHasBundles(dl.start, dl.end, dl.tempDir);
    Collect(YearTables(Items(DirMapping(dl.start, dl.end, dl.tempDir)), files, dl.locations))
  }

  /** The days from `start` to `end` grouped by year. */
  function RangeYears(dl: SeaSurfaceTempDownloader): ListDict<int, Date>
    requires Valid(dl.start) && Valid(dl.end)
  {
    AppendAll(YearPairs(DateRange(dl.start, dl.end)))
  }

  /** The table of the `i`-th year of the range: its days read from the file
      at that year's url. */
  function YearResult(dl: SeaSurfaceTempDownloader, files: string -> Dataset, i: int): Result<seq<Row>>
    requires Valid(dl.start) && Valid(dl.end)
    requires forall url :: WellFormed(files(url))
    requires 0 <= i < |RangeYears(dl).keys|
  {
    var g := RangeYears(dl);
    YearTable(files(RemoteUrl(g.keys[i])), Buckets(g)[i], dl.locations)
  }

  /** The steps of the loop are the years of the range, in order. */
  lemma YearTablesInOrder(dl: SeaSurfaceTempDownloader, files: string -> Dataset)
    requires Valid(dl.start) && Valid(dl.end)
    requires forall url :: WellFormed(files(url))
    ensures var mp := DirMapping(dl.start, dl.end, dl.tempDir);
            && HasBundles(mp)
            && var rs := YearTables(Items(mp), files, dl.locations);
            && |rs| == |RangeYears(dl).keys|
            && forall i :: 0 <= i < |rs| ==> rs[i] == YearResult(dl, files, i)
  {
    var mp := DirMapping(dl.start, dl.end, dl.tempDir);
    DirMappingExact(dl.start, dl.end, dl.tempDir);
    var rs := YearTables(Items(mp), files, dl.locations);
    forall i | 0 <= i < |rs|
      ensures rs[i] == YearResult(dl, files, i)
    {
      YearTableInOrder(dl, files, i);
    }
  }

  /** Step `i` of the loop is the `i`-th year of the range. */
  lemma YearTableInOrder(dl: SeaSurfaceTempDownloader, files: string -> Dataset, i: int)
    requires Valid(dl.start) && Valid(dl.end)
    requires forall url :: WellFormed(files(url))
    requires 0 <= i < |RangeYears(dl).keys|
    ensures var mp := DirMapping(dl.start, dl.end, dl.tempDir);
            && HasBundles(mp) && i < |mp.keys|
            && YearTables(Items(mp), files, dl.locations)[i] == YearResult(dl, files, i)
  {
    var mp := DirMapping(dl.start, dl.end, dl.tempDir);
    DirMappingExact(dl.start, dl.end, dl.tempDir);
    YearTablesAt(mp, files, dl.locations, i);
  }

  /** The loop visits the years of the range in order: the tables exist
      exactly when every year's table does, they are those tables in
      chronological order, and otherwise the error is that of the first
      failing year. */
  lemma TablesExact(dl: SeaSurfaceTempDownloader, files: string -> Dataset)
    requires Valid(dl.start) && Valid(dl.end)
    requires forall url :: WellFormed(files(url))
    ensures var n := |RangeYears(dl).keys|;
            Tables(dl, files).Ok? <==> forall i :: 0 <= i < n ==> YearResult(dl, files, i).Ok?
    ensures var n := |RangeYears(dl).keys|;
            Tables(dl, files).Ok? ==>
              |Tables(dl, files).value| == n
              && forall i :: 0 <= i < n ==> YearResult(dl, files, i) == Ok(Tables(dl, files).value[i])
    ensures var n := |RangeYears(dl).keys|;
            Tables(dl, files).Err? ==>
              exists i :: 0 <= i < n && YearResult(dl, files, i) == Err(Tables(dl, files).error)
                && forall j :: 0 <= j < i ==> YearResult(dl, files, j).Ok?
  {
    YearTablesInOrder(dl, files);
    var rs := YearTables(Items(DirMapping(dl.start, dl.end, dl.tempDir)), files, dl.locations);
    assert Tables(dl, files) == Collect(rs);
    CollectOk(rs);
    if Collect(rs).Err? {
      CollectError(rs);
    }
  }

  /** What `download` returns for a downloader, given the decoded content
      of every remote file. */
  function DownloadSpec(dl: SeaSurfaceTempDownloader, files: string -> Dataset): (r: Result<Output>)
    requires Valid(dl.start) && Valid(dl.end)
    requires forall url :: WellFormed(files(url))
    ensures r.Err? ==> r.error.DateOverflow? || r.error.DateNotFound? || r.error == NothingToConcatenate
  {
    match Tables(dl, files)
    case Err(e) => Err(e)
    case Ok(ts) => Assemble(ts)
  }

  /** The body of `download`'s loop for one year: read the file, resolve
      the time and cell indices, stretch them and extract the rows. */
  method ExtractYear(raw: Dataset, days: seq<Date>, locs: seq<Location>) returns (r: Result<seq<Row>>)
    requires WellFormed(raw)
    ensures r == YearTable(raw, days, locs)
  {
    var ds := ReadDataset(raw);
    var timeIndex := GetTimeIndex(ds.time, days);
    if timeIndex.Err? {
      return Err(timeIndex.error);
    }
    ResolveTimesOk(ds.time, days);
    var (latIndex, lonIndex) := GetLatLonIndex(ds.lat, ds.lon, locs);
    r := Ok(ExtractRows(ds, days, timeIndex.value, latIndex, lonIndex));
  }

  /** `download`: the year tables in the mapping's order, then
      concatenation, the all-missing check and the fill-value replacement. */
  method Download(dl: SeaSurfaceTempDownloader, files: string -> Dataset) returns (r: Result<Output>)
    requires Valid(dl.start) && Valid(dl.end)
    requires forall url :: WellFormed(files(url))
    ensures r == DownloadSpec(dl, files)
  {
    var mapping := RemoteToLocalDirMapping(dl.start, dl.end, dl.tempDir);
    MappingHasBundles(dl.start, dl.end, dl.tempDir);
    TablesOfMapping(dl, files, mapping);
    var tables := ExtractYears(mapping, files, dl.locations);
    if tables.Err? {
      return Err(tables.error);
    }
    var result := tables.value;
    if result == [] {
      return Err(NothingToConcatenate);
    }
    var output := Flatten(result);
    var allNull := CountNull(output) == |output|;
    r := Ok(Output(MaskSentinels(output), allNull));
  }

  /** `download`'s loop: one iteration per item of the mapping, in order,
      with the year's rows appended to the result; the first failing year
      ends it with that year's error. */
  method ExtractYears(mapping: ListDict<string, Bundle>, files: string -> Dataset, locs: seq<Location>)
    returns (r: Result<seq<seq<Row>>>)
    requires HasBundles(mapping)
    requires forall url :: WellFormed(files(url))
    ensures r == Collect(YearTables(Items(mapping), files, locs))
  {
    ghost var tables := YearTables(Items(mapping), files, locs);
    var result: seq<seq<Row>> := [];
    for i := 0 to |mapping.keys|
      invariant Collect(tables[..i]) == Ok(result)
    {
      var url := mapping.keys[i];
      var bundle := mapping.lists[url][0];
      var table := ExtractYear(files(url), bundle.days, locs);
      DownloadStep(mapping, files, locs, i, result);
      if table.Err? {
        return Err(table.error);
      }
      result := result + [table.value];
    }
    assert tables[..|mapping.keys|] == tables;
    r := Ok(result);
  }

  /** The loop over the mapping of the range collects `Tables`. */
  lemma TablesOfMapping(dl: SeaSurfaceTempDownloader, files: string -> Dataset,
                        mp: ListDict<string, Bundle>)
    requires Valid(dl.start) && Valid(dl.end)
    requires forall url :: WellFormed(files(url))
    requires mp == DirMapping(dl.start, dl.end, dl.tempDir) && HasBundles(mp)
    ensures Tables(dl, files) == Collect(YearTables(Items(mp), files, dl.locations))
  {
  }

  /** One iteration of `download`'s loop: the year's table either extends
      the collected tables or is the loop's error. */
  lemma DownloadStep(mp: ListDict<string, Bundle>, files: string -> Dataset, locs: seq<Location>,
                     i: int, done: seq<seq<Row>>)
    requires HasBundles(mp) && forall url :: WellFormed(files(url))
    requires 0 <= i < |mp.keys|
    requires Collect(YearTables(Items(mp), files, locs)[..i]) == Ok(done)
    ensures var t := YearTable(files(mp.keys[i]), mp.lists[mp.keys[i]][0].days, locs);
            var ts := YearTables(Items(mp), files, locs);
            && (t.Ok? ==> Collect(ts[..i + 1]) == Ok(done + [t.value]))
            && (t.Err? ==> Collect(ts) == Err(t.error))
  {
    YearTablesAt(mp, files, locs, i);
    CollectStep(YearTables(Items(mp), files, locs), i, done);
  }

  /** `download` fails with `pd.concat`'s error exactly when the range holds
      no day: a year's table fails only by a date error. */
  lemma DownloadEmptyRange(dl: SeaSurfaceTempDownloader, files: string -> Dataset)
    requires Valid(dl.start) && Valid(dl.end)
    requires forall url :: WellFormed(files(url))
    ensures DownloadSpec(dl, files) == Err(NothingToConcatenate) <==> Ordinal(dl.end) < Ordinal(dl.start)
  {
    var g := RangeYears(dl);
    RangeGrouped(dl.start, dl.end);
    GroupedEmpty(g, DateRange(dl.start, dl.end));
    TablesExact(dl, files);
  }

  /** The `DATE` column of one year's table is that year's days, each
      repeated once per query. */
  lemma TableDatesAt(dl: SeaSurfaceTempDownloader, files: string -> Dataset, i: int)
    requires Valid(dl.start) && Valid(dl.end)
    requires forall url :: WellFormed(files(url))
    requires Tables(dl, files).Ok? && 0 <= i < |RangeYears(dl).keys|
    ensures i < |Tables(dl, files).value|
    ensures DateColumn(Tables(dl, files).value[i]) == Repeat(Buckets(RangeYears(dl))[i], |dl.locations|)
  {
    var g := RangeYears(dl);
    TablesExact(dl, files);
    assert YearResult(dl, files, i) == Ok(Tables(dl, files).value[i]);
    YearTableDates(files(RemoteUrl(g.keys[i])), Buckets(g)[i], dl.locations);
  }

  /** The `DATE` column of the collected tables is the range with each day
      repeated once per query. */
  lemma TablesDates(dl: SeaSurfaceTempDownloader, files: string -> Dataset)
    requires Valid(dl.start) && Valid(dl.end)
    requires forall url :: WellFormed(files(url))
    requires Tables(dl, files).Ok?
    ensures DateColumn(Flatten(Tables(dl, files).value)) == Repeat(DateRange(dl.start, dl.end), |dl.locations|)
  {
    var g := RangeYears(dl);
    var n := |dl.locations|;
    RangeGrouped(dl.start, dl.end);
    TablesExact(dl, files);
    var ts := Tables(dl, files).value;
    forall i | 0 <= i < |ts|
      ensures DateColumns(ts)[i] == RepeatEach(Buckets(g), n)[i]
    {
      TableDatesAt(dl, files, i);
    }
    assert DateColumns(ts) == RepeatEach(Buckets(g), n);
    DateColumnFlatten(ts);
    RepeatFlatten(Buckets(g), n);
  }

  /** A successful download holds one row per (day, query) pair of the
      range, day-major: its `DATE` column is the range with each day repeated
      once per query. Its rows are the concatenated year tables with fill
      values masked, and the warning is raised exactly when every reading
      of those tables was missing before masking. */
  lemma DownloadDates(dl: SeaSurfaceTempDownloader, files: string -> Dataset)
    requires Valid(dl.start) && Valid(dl.end)
    requires forall url :: WellFormed(files(url))
    requires DownloadSpec(dl, files).Ok?
    ensures var out := DownloadSpec(dl, files).value;
            var days := DateRange(dl.start, dl.end);
            && |out.rows| == |days| * |dl.locations|
            && DateColumn(out.rows) == Repeat(days, |dl.locations|)
    ensures var out := DownloadSpec(dl, files).value;
            var raw := Flatten(Tables(dl, files).value);
            && out.rows == MaskSentinels(raw)
            && (out.allNullWarning <==> forall k :: 0 <= k < |raw| ==> raw[k].sst.None?)
  {
    var ts := Tables(dl, files).value;
    DownloadAssembles(dl, files);
    AssembleExact(ts);
    TablesDates(dl, files);
    MaskedDates(Flatten(ts), DateRange(dl.start, dl.end), |dl.locations|);
  }

  /** Masking keeps the `DATE` column. */
  lemma MaskedDates(raw: seq<Row>, days: seq<Date>, n: nat)
    requires DateColumn(raw) == Repeat(days, n)
    ensures |MaskSentinels(raw)| == |days| * n
    ensures DateColumn(MaskSentinels(raw)) == Repeat(days, n)
  {
    assert DateColumn(MaskSentinels(raw)) == DateColumn(raw);
  }

  /** A successful download is the assembly of the collected tables. */
  lemma DownloadAssembles(dl: SeaSurfaceTempDownloader, files: string -> Dataset)
    requires Valid(dl.start) && Valid(dl.end)
    requires forall url :: WellFormed(files(url))
    requires DownloadSpec(dl, files).Ok?
    ensures Tables(dl, files).Ok? && DownloadSpec(dl, files) == Assemble(Tables(dl, files).value)
  {
  }
}
