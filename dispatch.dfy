/** The entry points that build a downloader from what a caller passes:
    `SeaSurfaceTempDownloader.from_tuples`, which accepts one `[lat, lon]`
    pair or a list of them, and `download_sst`, which dispatches on the type
    of `locations` and then runs `download`. */
module Dispatch {
  import opened Calendar
  import opened Outcome
  import opened Grid
  import opened Downloader

  /** The Python values a caller can pass as `locations`, as far as the
      dispatch tells them apart. */
  datatype PyValue =
    | PyFrame(frame: Frame)
    | PyList(items: seq<PyValue>)
    | PyTuple(items: seq<PyValue>)
    | PyStr(s: string)
    | PyInt(i: int)
    | PyFloat(f: real)
    | PyOther

  /** The elements of a list or tuple (`isinstance(v, (tuple, list))`). */
  function Elements(v: PyValue): Option<seq<PyValue>>
  {
    match v
    case PyList(xs) => Some(xs)
    case PyTuple(xs) => Some(xs)
    case _ => None
  }

  /** The value of an `int` or a `float`. */
  function Number(v: PyValue): Option<real>
  {
    match v
    case PyInt(i) => Some(i as real)
    case PyFloat(f) => Some(f)
    case _ => None
  }

  /** The point a row stands for, when it is a list or tuple of exactly two
      numbers: latitude first, longitude second. */
  function Coordinates(v: PyValue): (p: Option<Location>)
    ensures p.Some? <==>
              Elements(v).Some? && |Elements(v).value| == 2
              && Number(Elements(v).value[0]).Some? && Number(Elements(v).value[1]).Some?
  {
    match Elements(v)
    case None => None
    case Some(xs) =>
      if |xs| == 2 && Number(xs[0]).Some? && Number(xs[1]).Some? then
        Some(Location(Number(xs[0]).value, Number(xs[1]).value))
      else None
  }

  /** The column count of `pd.DataFrame(rows)`: the longest row. */
  function MaxWidth(rows: seq<PyValue>): (w: nat)
    requires forall k :: 0 <= k < |rows| ==> Elements(rows[k]).Some?
    ensures forall k :: 0 <= k < |rows| ==> |Elements(rows[k]).value| <= w
    ensures rows != [] ==> exists k :: 0 <= k < |rows| && |Elements(rows[k]).value| == w
    ensures rows == [] ==> w == 0
  {
    if rows == [] then 0
    else
      var front := MaxWidth(rows[..|rows| - 1]);
      var last := |Elements(rows[|rows| - 1]).value|;
      if front < last then last else front
  }

  /** The frame with columns `LAT` and `LON` holding the points (the frame
      `from_tuples` builds and renames). */
  function PointsFrame(points: seq<Location>): (f: Frame)
    ensures Rectangular(f) && f.height == |points|
    ensures "LAT" in f.columns && "LON" in f.columns
    ensures forall k :: 0 <= k < |points| ==>
              f.columns["LAT"][k] == points[k].lat && f.columns["LON"][k] == points[k].lon
  {
    Frame(|points|, map[
      "LAT" := seq(|points|, k requires 0 <= k < |points| => points[k].lat),
      "LON" := seq(|points|, k requires 0 <= k < |points| => points[k].lon)])
  }

  /** `from_tuples`. The first element decides the form: a list or tuple
      means a list of rows, whose frame must be two columns wide; a number
      means one `[lat, lon]` pair, which must have two elements; anything
      else is a `TypeError`. An empty input fails on `locations[0]`. */
  function FromTuples(locations: seq<PyValue>, start: Date, end: Date, tempDir: string)
    : (r: Result<SeaSurfaceTempDownloader>)
    ensures r == Err(EmptyLocations) <==> locations == []
    ensures r == Err(UnsupportedElement) <==>
              locations != [] && Elements(locations[0]).None? && Number(locations[0]).None?
    ensures locations != [] && Number(locations[0]).Some? && |locations| != 2 ==>
              r == Err(ColumnCountMismatch(|locations|))
    ensures locations != [] && (forall k :: 0 <= k < |locations| ==> Coordinates(locations[k]).Some?) ==> r.Ok?
    ensures Coordinates(PyList(locations)).Some? ==> r.Ok?
    ensures r.Ok? ==> r.value.start == start && r.value.end == end && r.value.tempDir == tempDir
    ensures r.Ok? && Elements(locations[0]).Some? ==>
              && |r.value.locations| == |locations|
              && forall k :: 0 <= k < |locations| ==> Coordinates(locations[k]) == Some(r.value.locations[k])
    ensures r.Ok? && Elements(locations[0]).None? ==>
              Coordinates(PyList(locations)).Some? && r.value.locations == [Coordinates(PyList(locations)).value]
  {
    if locations == [] then Err(EmptyLocations)
    else if Elements(locations[0]).Some? then
      if exists k :: 0 <= k < |locations| && Elements(locations[k]).None? then Err(MalformedLocations)
      else
        var w := MaxWidth(locations);
        if w != 2 then Err(ColumnCountMismatch(w))
        else if exists k :: 0 <= k < |locations| && Coordinates(locations[k]).None? then Err(MalformedLocations)
        else
          var points := seq(|locations|, k requires 0 <= k < |locations| => Coordinates(locations[k]).value);
          NewDownloader(PointsFrame(points), start, end, tempDir, "LAT", "LON")
    else if Number(locations[0]).Some? then
      if |locations| != 2 then Err(ColumnCountMismatch(|locations|))
      else if Number(locations[1]).None? then Err(MalformedLocations)
      else NewDownloader(PointsFrame([Coordinates(PyList(locations)).value]), start, end, tempDir, "LAT", "LON")
    else Err(UnsupportedElement)
  }

  /** The two-column frame is the only width the list-of-rows form accepts:
      rows of any other common length are a column-count mismatch. */
  lemma FromTuplesWidth(locations: seq<PyValue>, w: nat, start: Date, end: Date, tempDir: string)
    requires locations != [] && w != 2
    requires forall k :: 0 <= k < |locations| ==> Elements(locations[k]).Some? && |Elements(locations[k]).value| == w
    ensures FromTuples(locations, start, end, tempDir) == Err(ColumnCountMismatch(w))
  {
    assert |Elements(locations[0]).value| == w;
  }

  /** The tuples of a list of points, `[(lat, lon), ...]`. */
  function AsTuples(points: seq<Location>): (rows: seq<PyValue>)
    ensures |rows| == |points| && forall k :: 0 <= k < |rows| ==> Coordinates(rows[k]) == Some(points[k])
  {
    seq(|points|, k requires 0 <= k < |points| =>
      PyTuple([PyFloat(points[k].lat), PyFloat(points[k].lon)]))
  }

  /** Passing a non-empty list of points as `(lat, lon)` tuples gives a
      downloader for exactly those points, in that order. */
  lemma FromTuplesRoundTrip(points: seq<Location>, start: Date, end: Date, tempDir: string)
    requires points != []
    ensures FromTuples(AsTuples(points), start, end, tempDir)
            == Ok(SeaSurfaceTempDownloader(points, start, end, tempDir))
  {
    var r := FromTuples(AsTuples(points), start, end, tempDir);
    assert r.value.locations == points;
  }

  /** The two forms agree: `[lat, lon]` and `[[lat, lon]]` give the same
      downloader. */
  lemma SinglePairForms(lat: PyValue, lon: PyValue, start: Date, end: Date, tempDir: string)
    requires Number(lat).Some? && Number(lon).Some?
    ensures FromTuples([lat, lon], start, end, tempDir).Ok?
    ensures FromTuples([lat, lon], start, end, tempDir) == FromTuples([PyList([lat, lon])], start, end, tempDir)
  {
    var flat := [lat, lon];
    var nested := [PyList(flat)];
    assert Coordinates(PyList(flat)).Some?;
    assert Coordinates(nested[0]).Some?;
    var a := FromTuples(flat, start, end, tempDir).value;
    var b := FromTuples(nested, start, end, tempDir).value;
    assert a.locations == [Coordinates(PyList(flat)).value] == b.locations;
  }

  /** The dispatch of `download_sst`: a frame goes to the constructor with
      the default column names, a list or tuple to `from_tuples`, and the
      string and other inputs are refused. */
  function MakeDownloader(locations: PyValue, start: Date, end: Date, tempDir: string)
    : (r: Result<SeaSurfaceTempDownloader>)
    requires locations.PyFrame? ==> Rectangular(locations.frame)
    ensures locations.PyFrame? ==>
              r == NewDownloader(locations.frame, start, end, tempDir, "LAT", "LON")
    ensures Elements(locations).Some? ==> r == FromTuples(Elements(locations).value, start, end, tempDir)
    ensures r == Err(StateAbbreviation) <==> locations.PyStr? && |locations.s| == 2
    ensures r == Err(AddressInput) <==> locations.PyStr? && |locations.s| > 2
    ensures r == Err(UnsupportedInput) <==>
              !locations.PyFrame? && Elements(locations).None? && !(locations.PyStr? && |locations.s| >= 2)
  {
    match locations
    case PyFrame(f) => NewDownloader(f, start, end, tempDir, "LAT", "LON")
    case PyList(items) => FromTuples(items, start, end, tempDir)
    case PyTuple(items) => FromTuples(items, start, end, tempDir)
    case PyStr(s) =>
      if |s| == 2 then Err(StateAbbreviation)
      else if |s| > 2 then Err(AddressInput)
      else Err(UnsupportedInput)
    case _ => Err(UnsupportedInput)
  }

  /** What `download_sst` returns. Inputs the dispatch refuses fail before
      any file is read: a frame without the default columns, an empty list,
      a string and any other value. */
  function DownloadSstSpec(locations: PyValue, start: Date, end: Date, tempDir: string,
                           files: string -> Dataset): (r: Result<Output>)
    requires Valid(start) && Valid(end)
    requires locations.PyFrame? ==> Rectangular(locations.frame)
    requires forall url :: WellFormed(files(url))
    ensures locations.PyFrame? && ("LAT" !in locations.frame.columns || "LON" !in locations.frame.columns) ==>
              r == Err(MissingColumns("LAT", "LON"))
    ensures Elements(locations) == Some([]) ==> r == Err(EmptyLocations)
    ensures !locations.PyFrame? && Elements(locations).None? ==>
              r == Err(StateAbbreviation) || r == Err(AddressInput) || r == Err(UnsupportedInput)
  {
    match MakeDownloader(locations, start, end, tempDir)
    case Err(e) => Err(e)
    case Ok(dl) => DownloadSpec(dl, files)
  }

  /** `download_sst`: build the downloader, then download. */
  method DownloadSst(locations: PyValue, start: Date, end: Date, tempDir: string,
                     files: string -> Dataset) returns (r: Result<Output>)
    requires Valid(start) && Valid(end)
    requires locations.PyFrame? ==> Rectangular(locations.frame)
    requires forall url :: WellFormed(files(url))
    ensures r == DownloadSstSpec(locations, start, end, tempDir, files)
  {
    var downloader := MakeDownloader(locations, start, end, tempDir);
    if downloader.Err? {
      return Err(downloader.error);
    }
    r := Download(downloader.value, files);
  }
}
