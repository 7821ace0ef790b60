# Sea surface temperature downloader, modelled in Dafny

This project models the core of `SeaSurfaceTempDownloader` from the
`hydrological_toolbox` package. The downloader fetches daily sea surface
temperatures from NOAA's blended analysis: one grid file per year on a
quarter-degree global grid. It returns one row per (day, query location)
pair with the columns `DATE, LAT, LON, SST`.

It models the following parts:

- **Grid index resolution** (`Grid`). Longitudes above 180 are moved 360
  degrees west. The latitudes and longitudes then form a meshgrid; numpy
  flattens it with the latitude varying fastest, so position
  `k = j * M + i` holds `(lat[i], lon[j])`. Each query gets the nearest
  cell of that grid.
- **Time index resolution** (`TimeIndex`). A dictionary maps each day on
  the file's time axis to its position. The axis counts days from
  1800-01-01, and each offset is truncated with `int(t)`. Each requested day
  is looked up in that dictionary, in a loop.
- **Year partitioning** (`Partition`, over the insertion-ordered
  `defaultdict(list)` of `ListDicts`). The requested days are grouped by
  year, and each year becomes a url holding one bundle: the local path and
  that year's days.
- **Extraction** (`Extraction`). `np.repeat` and `np.tile` stretch the
  indices so that the rows come day-major and query-minor. All of
  `np.repeat`, `np.tile`, `reshape(-1)` and `pd.concat` are one `Flatten`
  over sequences of rows.
- **Result assembly and the download loop** (`Downloader`). The all-missing
  warning is decided, and only then are readings below `-9e35` turned into
  missing values.
- **Input dispatch** (`Dispatch`). This covers `from_tuples` and
  `download_sst`.

Calendar arithmetic (`Calendar`) uses the proleptic Gregorian day count of
`datetime.date`. Decimal rendering of years (`Decimal`) produces the file
names. Errors are `Result` values (`Outcome`), one constructor per
exception the source raises, plus `MalformedLocations`: the model's
stand-in for the `from_tuples` inputs listed under "Left out", on which
pandas either builds a frame instead of raising at that point or raises a
TypeError of its own.

The loops of the source (`get_time_index`, the two loops of
`remote_to_local_dir_mapping` and the loop of `download`, which is the
method `ExtractYears` inside `Download`) are methods. Each is proved equal to
a specification function (`ResolveTimes`, `DirMapping`, `Collect` of the year
tables, `DownloadSpec`). The lemmas are stated about those functions.

Where the code and its comments or documentation differ, the model follows
the code:

- **No warning on fill values.** Missing values are counted *before* the
  fill value `-9.96921e36` is replaced (lines 211-216). A table whose
  readings are all the fill value therefore raises no all-missing warning,
  even though every output reading is missing; `FillValueRaisesNoWarning`
  shows this. Land locations are exactly this case, so the warning's own
  text ("usually because the locations you provided are on the land")
  describes a case in which it does not fire.
- **Masking threshold.** Masking keeps `-9e35` itself: only values
  strictly below it are replaced (line 216).
- **Warning on an empty table.** The warning also fires on an empty table,
  where `0 == 0`.
- **Longitude 180.** A longitude of exactly 180 stays 180 (line 88).
- **Time offsets.** They are truncated toward zero by `int(t)`, not
  assumed integral (line 130).
- **Ties.** Between equidistant cells, the first candidate in meshgrid
  order wins.

## Model

Every source cell refers to `hydrological_toolbox/data/download_sea_surface_temperature.py`.

| member | source | states |
|---|---|---|
| Grid.NormalizeLongitude | hydrological_toolbox/data/download_sea_surface_temperature.py:88 | a value up to 180 is kept and a value above 180 loses 360; raw values in [0, 360) land in (-180, 180] |
| Grid.NormalizeIdempotent | hydrological_toolbox/data/download_sea_surface_temperature.py:88 | normalising already-normalised raw longitudes changes nothing |
| Grid.NormalizePreservesDistinct | hydrological_toolbox/data/download_sea_surface_temperature.py:88 | distinct raw longitudes in [0, 360) stay distinct after normalisation |
| Grid.ReadDataset | hydrological_toolbox/data/download_sea_surface_temperature.py:76-92 | lat, time and sst are passed through; each longitude is normalised; the shape is kept |
| Grid.Meshgrid | hydrological_toolbox/data/download_sea_surface_temperature.py:105-109 | the flattened meshgrid of M and N coordinates has M*N entries (the entry at each position is given by MeshgridAt) |
| Grid.MeshgridAt | hydrological_toolbox/data/download_sea_surface_temperature.py:105-109 | the flattened meshgrid has M*N entries, and entry k pairs `xs[k % M]` with `ys[k / M]` |
| Grid.MeshgridCell | hydrological_toolbox/data/download_sea_surface_temperature.py:105-109 | every pair (xs[i], ys[j]) occurs, at position j*M + i |
| Grid.MeshgridConsistent | hydrological_toolbox/data/download_sea_surface_temperature.py:111-120 | the index table at k names the indices of the coordinates at k of the candidate table |
| Grid.ArgMin | hydrological_toolbox/data/download_sea_surface_temperature.py:117-118 | the chosen candidate is at least as close as every candidate, and strictly closer than every earlier one |
| Grid.SqDistZero | hydrological_toolbox/data/download_sea_surface_temperature.py:117-118 | only the query point itself is at distance zero |
| Grid.NearestCell | hydrological_toolbox/data/download_sea_surface_temperature.py:117-122 | the returned index pair is in range and is the one the index table holds at the nearest candidate's position |
| Grid.NearestCellMinimal | hydrological_toolbox/data/download_sea_surface_temperature.py:117-122 | no grid cell is closer than the chosen one; cells enumerated before it are strictly farther |
| Grid.GetLatLonIndex | hydrological_toolbox/data/download_sea_surface_temperature.py:94-123 | one latitude index and one longitude index per query, in query order, each within the axis |
| Grid.LatLonIndexNearest | hydrological_toolbox/data/download_sea_surface_temperature.py:94-123 | the pair for query q names a cell no farther from it than any other cell, and the first such cell |
| Grid.ExactCentre | hydrological_toolbox/data/download_sea_surface_temperature.py:117-123 | on a grid with distinct coordinates, a query on a cell centre gets that cell's indices |
| TimeIndex.Truncate | hydrological_toolbox/data/download_sea_surface_temperature.py:130 | `int(t)` rounds toward zero: its distance from t is below one, on t's side of zero |
| TimeIndex.OffsetToDate | hydrological_toolbox/data/download_sea_surface_temperature.py:130 | succeeds exactly when epoch + t is in years 1..9999, with day count epoch + t; otherwise the error is an overflow at t |
| TimeIndex.OffsetRoundTrip | hydrological_toolbox/data/download_sea_surface_temperature.py:130 | counting back a representable day's offset from the epoch gives that day |
| TimeIndex.IndexDays | hydrological_toolbox/data/download_sea_surface_temperature.py:130 | every position stored in the dictionary is on the axis; a failed build carries the error of an axis position (the first one, by IndexDaysFirstError) |
| TimeIndex.BuildDateIndex | hydrological_toolbox/data/download_sea_surface_temperature.py:130 | every position stored is below the axis length; a failed build is an OverflowError |
| TimeIndex.IndexDaysOk | hydrological_toolbox/data/download_sea_surface_temperature.py:130 | the dictionary is built exactly when every axis position names a representable day |
| TimeIndex.IndexDaysFirstError | hydrological_toolbox/data/download_sea_surface_temperature.py:130 | a failed build reports the first position without a day |
| TimeIndex.IndexDaysKeys | hydrological_toolbox/data/download_sea_surface_temperature.py:130 | the dictionary's keys are exactly the days named on the axis |
| TimeIndex.IndexDaysLast | hydrological_toolbox/data/download_sea_surface_temperature.py:130 | each key maps to a position naming it, with no later position naming it (the later entry overwrites) |
| TimeIndex.LookupFailureSticks | hydrological_toolbox/data/download_sea_surface_temperature.py:133-135 | once a requested day is missing, the whole lookup fails with that error |
| TimeIndex.Lookup | hydrological_toolbox/data/download_sea_surface_temperature.py:132-136 | a success answers every requested day with a value of the dictionary; a failure is a KeyError on a requested day that is not a key |
| TimeIndex.LookupExact | hydrological_toolbox/data/download_sea_surface_temperature.py:132-136 | lookup succeeds iff every day is a key; its answers are the values under each day, in request order; otherwise it names the first missing day |
| TimeIndex.GetTimeIndex | hydrological_toolbox/data/download_sea_surface_temperature.py:125-136 | the loop returns exactly the specification's positions or error |
| TimeIndex.ResolveTimes | hydrological_toolbox/data/download_sea_surface_temperature.py:125-136 | a success gives one in-range axis position per requested day; a failure is an OverflowError or a KeyError |
| TimeIndex.ResolveTimesOk | hydrological_toolbox/data/download_sea_surface_temperature.py:125-136 | resolution succeeds iff the axis is representable and every day is on it; then position k is the last axis position naming day k |
| TimeIndex.ResolveTimesErr | hydrological_toolbox/data/download_sea_surface_temperature.py:125-136 | a failure names the first overflowing offset or, on a representable axis, the first requested day that is not on it |
| Calendar.AddDays | hydrological_toolbox/data/download_sea_surface_temperature.py:130 | `d + timedelta(n)` is a valid day whose day count is that of d plus n |
| Calendar.DateRange | hydrological_toolbox/data/download_sea_surface_temperature.py:147 | `pd.date_range(s, e)` has one day per day count from s to e, empty when e precedes s |
| Calendar.DateRangeExact | hydrological_toolbox/data/download_sea_surface_temperature.py:147 | the range is strictly ascending, day k is `s + k`, and it holds exactly the valid days between s and e |
| ListDicts.Append | hydrological_toolbox/data/download_sea_surface_temperature.py:146-148 | `d[k].append(v)` extends k's list (empty if missing) by v, puts a new key last and keeps the order of the existing keys, keeps every other key and list, and preserves coherence |
| ListDicts.AppendAll | hydrological_toolbox/data/download_sea_surface_temperature.py:146-148 | appending pairs in order to an empty `defaultdict(list)` gives a dictionary listing each of its keys once, and exactly the keys it holds |
| ListDicts.AppendAllKeys | hydrological_toolbox/data/download_sea_surface_temperature.py:146-148 | after appending all pairs, the keys are exactly the pairs' keys |
| ListDicts.AppendAllValues | hydrological_toolbox/data/download_sea_surface_temperature.py:146-148 | each key's list holds that key's values in insertion order |
| ListDicts.AppendAllDistinct | hydrological_toolbox/data/download_sea_surface_temperature.py:150-154 | with distinct keys, keys keep insertion order and each holds its single value |
| Partition.GroupByYear | hydrological_toolbox/data/download_sea_surface_temperature.py:146-148 | the grouping loop produces exactly the dictionary of appending (year, day) for each day in order |
| Partition.GroupContiguous | hydrological_toolbox/data/download_sea_surface_temperature.py:146-148 | days non-decreasing in year group into strictly increasing years, each with a non-empty list of that year's days, reading back as the days |
| Partition.RangeGrouped | hydrological_toolbox/data/download_sea_surface_temperature.py:146-148 | the grouping above holds for every date range |
| Partition.GroupedEmpty | hydrological_toolbox/data/download_sea_surface_temperature.py:146-148 | a grouping has no years exactly when there are no days |
| Partition.NewYearExample | hydrological_toolbox/data/download_sea_surface_temperature.py:146-154 | the days 2010-12-30 to 2011-01-02 group into the years 2010 and 2011, holding 12-30, 12-31 and 01-01, 01-02 |
| Partition.FileName | hydrological_toolbox/data/download_sea_surface_temperature.py:152-153 | the name is `sst.day.mean.`, then the year written as `str` writes it (canonical decimal: no leading zero, no `-0`) and parsing back to the year, then `.nc` |
| Partition.FileNameUnique | hydrological_toolbox/data/download_sea_surface_temperature.py:152-153 | any name made of `sst.day.mean.`, a canonical decimal of the year and `.nc` is exactly `FileName(year)` |
| Partition.RemoteUrl | hydrological_toolbox/data/download_sea_surface_temperature.py:153 | the url is the NOAA directory followed by exactly `FileName(year)`, and the year read back out of it is that year |
| Partition.UrlInjective | hydrological_toolbox/data/download_sea_surface_temperature.py:153 | different years have different urls |
| Partition.JoinPath | hydrological_toolbox/data/download_sea_surface_temperature.py:152 | `os.path.join` ends with the file name, preceded by the directory with or without an added separator; the separator is left out exactly when the directory is empty or already ends with `/` |
| Partition.BundlesExact | hydrological_toolbox/data/download_sea_surface_temperature.py:150-154 | one url per year, in year order, each holding exactly one bundle with the year's path and days |
| Partition.RemoteToLocalDirMapping | hydrological_toolbox/data/download_sea_surface_temperature.py:138-155 | the two loops return exactly the specification mapping |
| Partition.DirMapping | hydrological_toolbox/data/download_sea_surface_temperature.py:150-155 | the mapping lists each url once and holds exactly one bundle under each (DirMappingExact gives its urls, paths and days) |
| Partition.DirMappingExact | hydrological_toolbox/data/download_sea_surface_temperature.py:138-155 | the mapping lists the range's years in increasing order, each url with one bundle whose days are that year's days of the range, and the bundles read in order give back the whole range |
| Decimal.NatToString | hydrological_toolbox/data/download_sea_surface_temperature.py:152-153 | the digits of a natural number are canonical: only digits, non-empty, no leading zero except for 0 itself |
| Decimal.IntToString | hydrological_toolbox/data/download_sea_surface_temperature.py:152-153 | `str(n)` is a canonical decimal, with a minus sign exactly when n is negative |
| Decimal.IntRoundTrip | hydrological_toolbox/data/download_sea_surface_temperature.py:152-153 | parsing `str(n)` gives back n |
| Decimal.DecimalRoundTrip | hydrological_toolbox/data/download_sea_surface_temperature.py:152-153 | every canonical decimal is `str` of its value, so each integer has exactly one canonical decimal |
| Decimal.IntToStringInjective | hydrological_toolbox/data/download_sea_surface_temperature.py:152-153 | different years render differently |
| Extraction.Repeat | hydrological_toolbox/data/download_sea_surface_temperature.py:192 | `np.repeat(xs, n)` has |xs|*n entries (entry k is `xs[k / n]`, by RepeatAt) |
| Extraction.Tile | hydrological_toolbox/data/download_sea_surface_temperature.py:193-194 | `np.tile(xs, n)` has n*|xs| entries (entry k is `xs[k % |xs|]`, by TileAt) |
| Extraction.RepeatAt | hydrological_toolbox/data/download_sea_surface_temperature.py:192 | `np.repeat(xs, n)` has |xs|*n entries, and entry k is `xs[k / n]` |
| Extraction.TileAt | hydrological_toolbox/data/download_sea_surface_temperature.py:193-194 | `np.tile(xs, n)` entry k is `xs[k % |xs|]` |
| Extraction.RepeatFlatten | hydrological_toolbox/data/download_sea_surface_temperature.py:204-209 | repeating each year's days and concatenating equals repeating the concatenated days |
| Extraction.ExtractRows | hydrological_toolbox/data/download_sea_surface_temperature.py:192-205 | a year's extraction has one row per (day, query) pair (row d*L + q is given by ExtractRowsAt) |
| Extraction.ExtractRowsAt | hydrological_toolbox/data/download_sea_surface_temperature.py:192-205 | row d*L + q is day d at the cell of query q, with the grid coordinates and `sst[t_d][i_q][j_q]` |
| Extraction.ExtractDates | hydrological_toolbox/data/download_sea_surface_temperature.py:204 | a year's DATE column is its days, each repeated once per query |
| Extraction.DateColumnFlatten | hydrological_toolbox/data/download_sea_surface_temperature.py:209 | the DATE column of the concatenation is the concatenation of the DATE columns |
| Outcome.Collect | hydrological_toolbox/data/download_sea_surface_temperature.py:181-206 | a loop that runs to the end keeps one table per year; a failed loop carries the error of one of its years (the first, by CollectError) |
| Outcome.CollectOk | hydrological_toolbox/data/download_sea_surface_temperature.py:181-206 | the year loop succeeds iff every year does, and then keeps every year's table in order |
| Outcome.CollectError | hydrological_toolbox/data/download_sea_surface_temperature.py:181-206 | a failed year loop fails with the first failing year's error |
| Outcome.CollectFailureSticks | hydrological_toolbox/data/download_sea_surface_temperature.py:181-206 | a failure in the first years is the failure of the whole loop |
| Outcome.CollectStep | hydrological_toolbox/data/download_sea_surface_temperature.py:181-206 | one more year either appends its table or ends the loop with its error |
| Downloader.NewDownloader | hydrological_toolbox/data/download_sea_surface_temperature.py:38-46 | fails with KeyError exactly when a coordinate column is missing; otherwise one location per frame row, taken from the two columns, and the dates kept |
| Downloader.MaskReading | hydrological_toolbox/data/download_sea_surface_temperature.py:216 | a reading becomes missing exactly when it was missing or below -9e35; otherwise it is kept |
| Downloader.MaskSentinels | hydrological_toolbox/data/download_sea_surface_temperature.py:216 | only SST changes, row by row as above |
| Downloader.MaskIdempotent | hydrological_toolbox/data/download_sea_surface_temperature.py:216 | masking twice equals masking once |
| Downloader.CountNullAll | hydrological_toolbox/data/download_sea_surface_temperature.py:211-212 | the null count equals the row count exactly when every reading is missing |
| Downloader.Assemble | hydrological_toolbox/data/download_sea_surface_temperature.py:209-217 | `pd.concat` raises ValueError exactly on no tables; otherwise the output has as many rows as the concatenation |
| Downloader.AssembleExact | hydrological_toolbox/data/download_sea_surface_temperature.py:209-217 | fails exactly on no tables; rows are the masked concatenation; warning iff every reading was missing before masking, and then every output reading is missing |
| Downloader.FillValueRaisesNoWarning | hydrological_toolbox/data/download_sea_surface_temperature.py:211-216 | a single fill-value reading yields a missing output reading and no warning |
| Downloader.YearTableOk | hydrological_toolbox/data/download_sea_surface_temperature.py:187-205 | a year's table exists iff every time offset of the file is a representable day and every requested day is on the axis; otherwise the error is the OverflowError of the first offset out of range or, on a representable axis, the KeyError of the first requested day that is missing |
| Downloader.YearTable | hydrological_toolbox/data/download_sea_surface_temperature.py:187-205 | a year's table has |days|*|locations| rows; a year fails only by an OverflowError or a KeyError of the time lookup |
| Downloader.YearTableAt | hydrological_toolbox/data/download_sea_surface_temperature.py:187-205 | row d*L + q is day d at the normalised coordinates of query q's cell, with the reading at a time position whose offset names day d |
| Downloader.YearTableDates | hydrological_toolbox/data/download_sea_surface_temperature.py:204 | a year's DATE column is its days, each once per query |
| Downloader.YearTablesInOrder | hydrological_toolbox/data/download_sea_surface_temperature.py:182-183 | the loop's items are the range's years in order, each read from its url with the days of its first bundle |
| Downloader.Tables | hydrological_toolbox/data/download_sea_surface_temperature.py:181-206 | the year loop fails only by an OverflowError or a KeyError of some year's time lookup |
| Downloader.TablesExact | hydrological_toolbox/data/download_sea_surface_temperature.py:181-206 | tables exist iff every year's table does, and are given year by year in chronological order; otherwise the first failing year's error |
| Downloader.TablesDates | hydrological_toolbox/data/download_sea_surface_temperature.py:192-209 | the concatenated DATE column is the whole range, each day repeated once per query |
| Downloader.ExtractYear | hydrological_toolbox/data/download_sea_surface_temperature.py:187-206 | one iteration of the loop body returns exactly that year's table or error |
| Downloader.ExtractYears | hydrological_toolbox/data/download_sea_surface_temperature.py:182-206 | the loop returns exactly the year tables of the mapping's items in order, or the first failing year's error |
| Downloader.Download | hydrological_toolbox/data/download_sea_surface_temperature.py:168-217 | the method returns exactly the specification result |
| Downloader.DownloadSpec | hydrological_toolbox/data/download_sea_surface_temperature.py:181-217 | `download` fails only by an OverflowError, a KeyError of the time lookup, or `pd.concat`'s ValueError |
| Downloader.DownloadEmptyRange | hydrological_toolbox/data/download_sea_surface_temperature.py:147-209 | `download` fails with `pd.concat`'s ValueError exactly when the end date precedes the start date |
| Downloader.DownloadDates | hydrological_toolbox/data/download_sea_surface_temperature.py:168-217 | a successful download has |range|*|locations| rows whose DATE column is the range with each day repeated per query; its rows are the masked concatenation; warning iff all pre-mask readings were missing |
| Dispatch.Coordinates | hydrological_toolbox/data/download_sea_surface_temperature.py:59-68 | a row stands for a point exactly when it is a list or tuple of two numbers |
| Dispatch.MaxWidth | hydrological_toolbox/data/download_sea_surface_temperature.py:60 | the frame's width is the longest row's length: no row is longer and some row has it |
| Dispatch.PointsFrame | hydrological_toolbox/data/download_sea_surface_temperature.py:62-68 | the frame has one row per point, with columns LAT and LON holding the coordinates |
| Dispatch.FromTuples | hydrological_toolbox/data/download_sea_surface_temperature.py:50-73 | empty input gives IndexError; the first element decides the form; a non-sequence non-number first element gives TypeError; a numeric form of length other than two gives the column-count ValueError; all-pair input and a single numeric pair always succeed and give their points in order |
| Dispatch.FromTuplesWidth | hydrological_toolbox/data/download_sea_surface_temperature.py:59-68 | rows of any common length other than two give the column-count ValueError |
| Dispatch.FromTuplesRoundTrip | hydrological_toolbox/data/download_sea_surface_temperature.py:50-73 | passing points as (lat, lon) tuples gives a downloader for exactly those points, in order |
| Dispatch.SinglePairForms | hydrological_toolbox/data/download_sea_surface_temperature.py:61-66 | `[lat, lon]` and `[[lat, lon]]` give the same downloader |
| Dispatch.MakeDownloader | hydrological_toolbox/data/download_sea_surface_temperature.py:220-234 | a frame goes to the constructor with LAT/LON, a list or tuple to from_tuples; a two-character string, a longer string and anything else each give their own TypeError |
| Dispatch.DownloadSstSpec | hydrological_toolbox/data/download_sea_surface_temperature.py:220-238 | before any file is read, a frame without LAT and LON gives KeyError, an empty list IndexError, and a string or any other value a TypeError |
| Dispatch.DownloadSst | hydrological_toolbox/data/download_sea_surface_temperature.py:220-236 | the method returns exactly the dispatch's error or the download's result |

## Left out

- Download: the network transfer (`download_to_local`, lines 157-166, including the progress bar and the check whether the local file exists) and netCDF decoding (line 83) are not modelled. The decoded content of each remote file is the parameter `files`, keyed by url, and every file has the shape the format guarantees.
- NewDownloader: `tempfile.mkdtemp()` (line 37) is a parameter, `tempDir`.
- Logging (lines 42, 61, 184, 186) is left out. Python's warning channel is a flag in the result.
- DateRange: `start_date` and `end_date` are taken as calendar dates. Parsing their strings, and pandas' Timestamp bounds (years 1677-2262), are not modelled.
- TimeIndex.BuildDateIndex: the dictionary is keyed by the date, not by its `YYYY-MM-DD` string. The lookup key `str(timestamp).split(' ')[0]` names the same day, so the keys agree.
- GetLatLonIndex: the k-d tree search is replaced by a linear scan that returns the first candidate of minimal squared Euclidean distance. Among equidistant cells, the tree's choice is unspecified in the source.
- Floating-point arithmetic, in the distances and in `lon - 360`, is exact real arithmetic. A `NaN` reading is `None`.
- FromTuples: `pandas.DataFrame` is modelled only as far as the dispatch needs. Three cases give `MalformedLocations` where pandas builds a frame (object or NaN columns) and fails later or not at all, or raises its own TypeError inside `pd.DataFrame(locations)` at line 60 (a later element with no length, such as `[[1, 2], 3]`): a later element that is not a list or tuple, a row shorter than the frame's width, and a non-numeric entry. Python's `bool`, which is an `int`, is not a separate input.
- Frame: data frames hold only real columns. The default column names of the constructor are the ones `download_sst` passes.
- Partition.RemoteToLocalDirMapping: `cached_property` (line 138) evaluates the mapping once. The model recomputes the same value.
- The output `DataFrame`'s dtypes and `reset_index` are not modelled: the result is a sequence of rows.
