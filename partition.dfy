/** The year partitioner (`remote_to_local_dir_mapping`): the requested days
    are grouped by year, since each grid file holds one year, and every year
    becomes one remote file with the local path it is saved under and the
    days to extract from it. */
module Partition {
  import opened Sequences
  import opened Calendar
  import opened Decimal
  import opened ListDicts

  /** The directory on the NOAA server holding the yearly files. */
  const ParentDir: string := "ftp://ftp.cdc.noaa.gov/Datasets/noaa.oisst.v2.highres/"

  const FilePrefix: string := "sst.day.mean."
  const FileSuffix: string := ".nc"

  /** `f'sst.day.mean.{year}.nc'`: the year's decimal text between the
      prefix and the suffix, where it can be read back. */
  function FileName(year: int): (name: string)
    ensures |name| > |FilePrefix| + |FileSuffix|
    ensures name[..|FilePrefix|] == FilePrefix && name[|name| - |FileSuffix|..] == FileSuffix
    ensures CanonicalDecimal(name[|FilePrefix|..|name| - |FileSuffix|])
    ensures ParseInt(name[|FilePrefix|..|name| - |FileSuffix|]) == year
  {
    var digits := IntToString(year);
    var name := FilePrefix + digits + FileSuffix;
    IntRoundTrip(year);
    assert name[|FilePrefix|..|name| - |FileSuffix|] == digits;
    name
  }

  /** The url of a year's file: the parent directory followed by its name.
      The year can be read back out of it. */
  function RemoteUrl(year: int): (url: string)
    ensures |url| > |ParentDir| && url[..|ParentDir|] == ParentDir
    ensures url[|ParentDir|..] == FileName(year)
    ensures YearOfUrl(url) == year
  {
    var name := FileName(year);
    ConcatSlice(ParentDir, name, |FilePrefix|, |name| - |FileSuffix|);
    ConcatSlice(ParentDir, name, 0, |name|);
    ParentDir + name
  }

  /** `FileName(year)` is the only name of the form `sst.day.mean.{year}.nc`:
      any name with the prefix, the suffix and between them a canonical
      decimal of the year is that name. */
  lemma FileNameUnique(year: int, name: string)
    requires |name| > |FilePrefix| + |FileSuffix|
    requires name[..|FilePrefix|] == FilePrefix && name[|name| - |FileSuffix|..] == FileSuffix
    requires CanonicalDecimal(name[|FilePrefix|..|name| - |FileSuffix|])
    requires ParseInt(name[|FilePrefix|..|name| - |FileSuffix|]) == year
    ensures name == FileName(year)
  {
    var f := FileName(year);
    var mid := name[|FilePrefix|..|name| - |FileSuffix|];
    var fmid := f[|FilePrefix|..|f| - |FileSuffix|];
    DecimalRoundTrip(mid);
    DecimalRoundTrip(fmid);
    assert name == name[..|FilePrefix|] + mid + name[|name| - |FileSuffix|..];
    assert f == f[..|FilePrefix|] + fmid + f[|f| - |FileSuffix|..];
  }

  /** `os.path.join(dir, name)` for a relative `name`: a separator is added
      unless `dir` is empty or already ends with one. */
  function JoinPath(dir: string, name: string): (path: string)
    ensures |path| >= |name| && path[|path| - |name|..] == name
    ensures path[..|path| - |name|] == dir || path[..|path| - |name|] == dir + "/"
    ensures path[..|path| - |name|] == dir <==> dir == [] || dir[|dir| - 1] == '/'
  {
    if dir == [] || dir[|dir| - 1] == '/' then dir + name else dir + "/" + name
  }

  /** The year written in a url `RemoteUrl` built, read back. */
  function YearOfUrl(url: string): (year: int)
  {
    var p := |ParentDir + FilePrefix|;
    if |url| >= p + |FileSuffix| then ParseInt(url[p..|url| - |FileSuffix|]) else 0
  }

  /** Different years are fetched from different urls. */
  lemma UrlInjective(y1: int, y2: int)
    requires RemoteUrl(y1) == RemoteUrl(y2)
    ensures y1 == y2
  {
  }

  /** One year's entry of the mapping: where its file is saved and which of
      its days are requested. */
  datatype Bundle = Bundle(localPath: string, days: seq<Date>)

  /** Each day keyed by its year. */
  function YearPairs(days: seq<Date>): (pairs: seq<(int, Date)>)
    ensures |pairs| == |days|
    ensures forall i :: 0 <= i < |days| ==> pairs[i] == (days[i].year, days[i])
  {
    seq(|days|, i requires 0 <= i < |days| => (days[i].year, days[i]))
  }

  /** `year_to_timestamp[time_stamp.year].append(time_stamp)` for every day in
      order. */
  method GroupByYear(days: seq<Date>) returns (g: ListDict<int, Date>)
    ensures g == AppendAll(YearPairs(days))
  {
    g := ListDict([], map[]);
    for i := 0 to |days|
      invariant g == AppendAll(YearPairs(days)[..i])
    {
      assert YearPairs(days)[..i + 1][..i] == YearPairs(days)[..i];
      g := Append(g, days[i].year, days[i]);
    }
    assert YearPairs(days)[..|days|] == YearPairs(days);
  }

  /** The day lists of the groups, in key order. */
  function Buckets(g: ListDict<int, Date>): (bs: seq<seq<Date>>)
    ensures |bs| == |g.keys|
  {
    seq(|g.keys|, i requires 0 <= i < |g.keys| =>
      if g.keys[i] in g.lists then g.lists[g.keys[i]] else [])
  }

  predicate Increasing(ys: seq<int>)
  {
    forall a, b :: 0 <= a < b < |ys| ==> ys[a] < ys[b]
  }

  /** Every key has a non-empty list of days of that year. */
  predicate YearBuckets(g: ListDict<int, Date>)
  {
    forall i :: 0 <= i < |g.keys| ==>
      && g.keys[i] in g.lists
      && g.lists[g.keys[i]] != []
      && forall d :: d in g.lists[g.keys[i]] ==> d.year == g.keys[i]
  }

  /** A day of the last group's year joins that group. */
  lemma GroupJoin(g: ListDict<int, Date>, x: Date)
    requires Coherent(g) && Increasing(g.keys) && YearBuckets(g)
    requires g.keys != [] && g.keys[|g.keys| - 1] == x.year
    ensures var r := Append(g, x.year, x);
            && r.keys == g.keys && Increasing(r.keys) && YearBuckets(r)
            && Buckets(r) == Buckets(g)[..|g.keys| - 1] + [Buckets(g)[|g.keys| - 1] + [x]]
  {
    assert x.year in g.lists;
    assert Append(g, x.year, x) == ListDict(g.keys, g.lists[x.year := g.lists[x.year] + [x]]);
    JoinedBuckets(g, x);
    JoinedYearBuckets(g, x);
  }

  /** The buckets after a day joins the last group. */
  lemma JoinedBuckets(g: ListDict<int, Date>, x: Date)
    requires Increasing(g.keys) && YearBuckets(g)
    requires g.keys != [] && g.keys[|g.keys| - 1] == x.year
    ensures x.year in g.lists
    ensures var r := ListDict(g.keys, g.lists[x.year := g.lists[x.year] + [x]]);
            Buckets(r) == Buckets(g)[..|g.keys| - 1] + [Buckets(g)[|g.keys| - 1] + [x]]
  {
    var r := ListDict(g.keys, g.lists[x.year := g.lists[x.year] + [x]]);
    var m := |g.keys|;
    var front := Buckets(g)[..m - 1];
    forall k | 0 <= k < m - 1
      ensures Buckets(r)[k] == front[k]
    {
      assert g.keys[k] < g.keys[m - 1];
    }
    assert Buckets(r) == front + [Buckets(g)[m - 1] + [x]];
  }

  /** A day of the last group's year keeps every group within its year. */
  lemma JoinedYearBuckets(g: ListDict<int, Date>, x: Date)
    requires Increasing(g.keys) && YearBuckets(g)
    requires g.keys != [] && g.keys[|g.keys| - 1] == x.year
    ensures x.year in g.lists
    ensures YearBuckets(ListDict(g.keys, g.lists[x.year := g.lists[x.year] + [x]]))
  {
    var r := ListDict(g.keys, g.lists[x.year := g.lists[x.year] + [x]]);
    var m := |g.keys|;
    forall i | 0 <= i < m
      ensures r.keys[i] in r.lists && r.lists[r.keys[i]] != []
      ensures forall d :: d in r.lists[r.keys[i]] ==> d.year == r.keys[i]
    {
      if i < m - 1 {
        assert g.keys[i] < g.keys[m - 1];
      }
    }
  }

  /** A year later than the last key of increasing keys is not yet a key. */
  lemma LaterYearIsNew(g: ListDict<int, Date>, y: int)
    requires Coherent(g) && Increasing(g.keys)
    requires g.keys != [] ==> g.keys[|g.keys| - 1] < y
    ensures y !in g.lists
    ensures forall i :: 0 <= i < |g.keys| ==> g.keys[i] < y
  {
    var m := |g.keys|;
    forall i | 0 <= i < m
      ensures g.keys[i] < y
    {
      assert i == m - 1 || g.keys[i] < g.keys[m - 1];
    }
  }

  /** A day of a later year than every group opens a new last group. */
  lemma GroupOpen(g: ListDict<int, Date>, x: Date)
    requires Coherent(g) && Increasing(g.keys) && YearBuckets(g)
    requires g.keys != [] ==> g.keys[|g.keys| - 1] < x.year
    ensures var r := Append(g, x.year, x);
            && r.keys == g.keys + [x.year] && Increasing(r.keys) && YearBuckets(r)
            && Buckets(r) == Buckets(g) + [[x]]
  {
    LaterYearIsNew(g, x.year);
    var r := ListDict(g.keys + [x.year], g.lists[x.year := [x]]);
    assert Append(g, x.year, x) == r;
    OpenedBuckets(g, x);
    OpenedYearBuckets(g, x);
  }

  /** The buckets after opening a group for a new year. */
  lemma OpenedBuckets(g: ListDict<int, Date>, x: Date)
    requires YearBuckets(g) && x.year !in g.lists
    ensures Buckets(ListDict(g.keys + [x.year], g.lists[x.year := [x]])) == Buckets(g) + [[x]]
  {
    var r := ListDict(g.keys + [x.year], g.lists[x.year := [x]]);
    var m := |g.keys|;
    var bs := Buckets(g) + [[x]];
    forall k | 0 <= k < m + 1
      ensures Buckets(r)[k] == bs[k]
    {
      if k < m {
        assert r.keys[k] == g.keys[k];
      }
    }
  }

  /** Opening a group for a new year keeps every group within its year. */
  lemma OpenedYearBuckets(g: ListDict<int, Date>, x: Date)
    requires YearBuckets(g) && x.year !in g.lists
    ensures YearBuckets(ListDict(g.keys + [x.year], g.lists[x.year := [x]]))
  {
    var r := ListDict(g.keys + [x.year], g.lists[x.year := [x]]);
    var m := |g.keys|;
    forall i | 0 <= i < m + 1
      ensures r.keys[i] in r.lists && r.lists[r.keys[i]] != []
      ensures forall d :: d in r.lists[r.keys[i]] ==> d.year == r.keys[i]
    {
      if i < m {
        assert r.keys[i] == g.keys[i];
      }
    }
  }

  /** Grouping one more day appends it under its year. */
  lemma GroupSnoc(days: seq<Date>)
    requires days != []
    ensures AppendAll(YearPairs(days))
            == Append(AppendAll(YearPairs(days[..|days| - 1])), days[|days| - 1].year, days[|days| - 1])
  {
    assert YearPairs(days)[..|days| - 1] == YearPairs(days[..|days| - 1]);
  }

  /** `g` groups `days` by year: strictly increasing years, each with a
      non-empty list of days of that year only, reading back as `days`, the
      last year being that of the last day. */
  ghost predicate Grouped(g: ListDict<int, Date>, days: seq<Date>)
  {
    && Coherent(g) && Increasing(g.keys) && YearBuckets(g)
    && Flatten(Buckets(g)) == days
    && (days != [] ==> g.keys != [] && g.keys[|g.keys| - 1] == days[|days| - 1].year)
  }

  /** Appending a day no earlier in years than the last keeps the grouping. */
  lemma GroupedStep(g: ListDict<int, Date>, days: seq<Date>)
    requires days != [] && Grouped(g, days[..|days| - 1])
    requires |days| > 1 ==> days[|days| - 2].year <= days[|days| - 1].year
    ensures Grouped(Append(g, days[|days| - 1].year, days[|days| - 1]), days)
  {
    var n := |days| - 1;
    if n > 0 && g.keys[|g.keys| - 1] == days[n].year {
      GroupedJoinStep(g, days);
    } else {
      GroupedOpenStep(g, days);
    }
  }

  /** The day joins the last group. */
  lemma GroupedJoinStep(g: ListDict<int, Date>, days: seq<Date>)
    requires |days| > 1 && Grouped(g, days[..|days| - 1])
    requires g.keys[|g.keys| - 1] == days[|days| - 1].year
    ensures Grouped(Append(g, days[|days| - 1].year, days[|days| - 1]), days)
  {
    var n := |days| - 1;
    var x := days[n];
    assert days[..n] + [x] == days;
    GroupJoin(g, x);
    FlattenGrowLast(Buckets(g), x);
  }

  /** The day opens a new last group. */
  lemma GroupedOpenStep(g: ListDict<int, Date>, days: seq<Date>)
    requires days != [] && Grouped(g, days[..|days| - 1])
    requires |days| > 1 ==> days[|days| - 2].year <= days[|days| - 1].year
    requires |days| > 1 ==> g.keys[|g.keys| - 1] != days[|days| - 1].year
    ensures Grouped(Append(g, days[|days| - 1].year, days[|days| - 1]), days)
  {
    var n := |days| - 1;
    var x := days[n];
    assert days[..n] + [x] == days;
    GroupOpen(g, x);
    FlattenSnoc(Buckets(g), [x]);
  }

  /** Grouping one more day, no earlier in years than the last, extends the
      grouping of the days before it. */
  lemma GroupSnocGrouped(days: seq<Date>)
    requires days != []
    requires Grouped(AppendAll(YearPairs(days[..|days| - 1])), days[..|days| - 1])
    requires |days| > 1 ==> days[|days| - 2].year <= days[|days| - 1].year
    ensures Grouped(AppendAll(YearPairs(days)), days)
  {
    GroupSnoc(days);
    GroupedStep(AppendAll(YearPairs(days[..|days| - 1])), days);
  }

  /** Days whose years never decrease fall into groups whose years strictly
      increase; each group holds days of its own year only, and the groups
      read in order give back the days. */
  lemma {:induction false} GroupContiguous(days: seq<Date>)
    requires forall i :: 0 < i < |days| ==> days[i - 1].year <= days[i].year
    ensures Grouped(AppendAll(YearPairs(days)), days)
    decreases |days|
  {
    if days == [] {
      assert Buckets(ListDict([], map[])) == [];
    } else {
      var p := days[..|days| - 1];
      assert forall i :: 0 <= i < |p| ==> p[i] == days[i];
      GroupContiguous(p);
      GroupSnocGrouped(days);
    }
  }

  /** The mapping's entries, one per year group in key order. */
  function BundlePairs(g: ListDict<int, Date>, tempDir: string): (pairs: seq<(string, Bundle)>)
    ensures |pairs| == |g.keys|
  {
    seq(|g.keys|, i requires 0 <= i < |g.keys| =>
      (RemoteUrl(g.keys[i]), Bundle(JoinPath(tempDir, FileName(g.keys[i])), Buckets(g)[i])))
  }

  /** The mapping `remote_to_local_dir_mapping` computes for the days from
      `start` to `end`. */
  function DirMapping(start: Date, end: Date, tempDir: string): (mp: ListDict<string, Bundle>)
    requires Valid(start) && Valid(end)
    ensures Coherent(mp)
    ensures forall i :: 0 <= i < |mp.keys| ==> |mp.lists[mp.keys[i]]| == 1
  {
    BundlesExact(AppendAll(YearPairs(DateRange(start, end))), tempDir);
    AppendAll(BundlePairs(AppendAll(YearPairs(DateRange(start, end))), tempDir))
  }

  /** `remote_to_local_dir_mapping`: groups the requested days by year, then
      appends one `[local_dir, days]` bundle per year under that year's url. */
  method RemoteToLocalDirMapping(start: Date, end: Date, tempDir: string)
    returns (mapping: ListDict<string, Bundle>)
    requires Valid(start) && Valid(end)
    ensures mapping == DirMapping(start, end, tempDir)
  {
    var g := GroupByYear(DateRange(start, end));
    var pairs := BundlePairs(g, tempDir);
    mapping := ListDict([], map[]);
    for i := 0 to |g.keys|
      invariant mapping == AppendAll(pairs[..i])
    {
      var year := g.keys[i];
      var bucket := if year in g.lists then g.lists[year] else [];
      AppendAllSnoc(pairs, i);
      assert pairs[i] == (RemoteUrl(year), Bundle(JoinPath(tempDir, FileName(year)), bucket));
      mapping := Append(mapping, RemoteUrl(year), Bundle(JoinPath(tempDir, FileName(year)), bucket));
    }
    assert pairs[..|g.keys|] == pairs;
  }

  /** The days of a range, grouped by year. */
  lemma RangeGrouped(start: Date, end: Date)
    requires Valid(start) && Valid(end)
    ensures Grouped(AppendAll(YearPairs(DateRange(start, end))), DateRange(start, end))
  {
    var days := DateRange(start, end);
    DateRangeExact(start, end);
    forall i | 0 < i < |days|
      ensures days[i - 1].year <= days[i].year
    {
      assert Before(days[i - 1], days[i]);
    }
    GroupContiguous(days);
  }

  /** Distinct years give one url each, in order, each with a single
      bundle. */
  lemma BundlesExact(g: ListDict<int, Date>, tempDir: string)
    requires Coherent(g)
    ensures var mp := AppendAll(BundlePairs(g, tempDir));
            && |mp.keys| == |g.keys|
            && forall i :: 0 <= i < |g.keys| ==>
                 && mp.keys[i] == RemoteUrl(g.keys[i])
                 && mp.keys[i] in mp.lists
                 && mp.lists[mp.keys[i]] == [Bundle(JoinPath(tempDir, FileName(g.keys[i])), Buckets(g)[i])]
  {
    var pairs := BundlePairs(g, tempDir);
    assert forall a, b :: 0 <= a < b < |pairs| ==> pairs[a].0 != pairs[b].0;
    AppendAllDistinct(pairs);
  }

  /** The mapping has one url per year of the range, in chronological order:
      the years strictly increase, every day of a year's bundle is of that
      year, no bundle is empty, and the bundles' days read in order give back
      the whole range. Under each url is exactly one bundle, with the year's
      local path. */
  lemma DirMappingExact(start: Date, end: Date, tempDir: string)
    requires Valid(start) && Valid(end)
    ensures var g := AppendAll(YearPairs(DateRange(start, end)));
            var mp := DirMapping(start, end, tempDir);
            && Grouped(g, DateRange(start, end))
            && |mp.keys| == |g.keys|
            && forall i :: 0 <= i < |g.keys| ==>
                 && mp.keys[i] == RemoteUrl(g.keys[i])
                 && mp.keys[i] in mp.lists
                 && mp.lists[mp.keys[i]] == [Bundle(JoinPath(tempDir, FileName(g.keys[i])), Buckets(g)[i])]
  {
    RangeGrouped(start, end);
    BundlesExact(AppendAll(YearPairs(DateRange(start, end))), tempDir);
  }

  /** A grouping has no years exactly when there are no days. */
  lemma GroupedEmpty(g: ListDict<int, Date>, days: seq<Date>)
    requires Grouped(g, days)
    ensures g.keys == [] <==> days == []
  {
    if g.keys != [] {
      var bs := Buckets(g);
      assert bs[0] == g.lists[g.keys[0]];
      assert Flatten(bs) == bs[0] + Flatten(bs[1..]);
    }
  }

  /** A range across New Year: 2010-12-30 to 2011-01-02 falls into the
      years 2010 and 2011, with two days each. */
  lemma NewYearExample()
    ensures var g := AppendAll(YearPairs(DateRange(Date(2010, 12, 30), Date(2011, 1, 2))));
            && g.keys == [2010, 2011]
            && Buckets(g) == [[Date(2010, 12, 30), Date(2010, 12, 31)], [Date(2011, 1, 1), Date(2011, 1, 2)]]
  {
    var d0, d1, d2, d3 := Date(2010, 12, 30), Date(2010, 12, 31), Date(2011, 1, 1), Date(2011, 1, 2);
    NewYearRange();
    NewYearPairs();
    NewYearGroups(d0, d1, d2, d3);
    TwoBuckets(AppendAll([(2010, d0), (2010, d1), (2011, d2), (2011, d3)]));
  }

  lemma NewYearPairs()
    ensures YearPairs([Date(2010, 12, 30), Date(2010, 12, 31), Date(2011, 1, 1), Date(2011, 1, 2)])
            == [(2010, Date(2010, 12, 30)), (2010, Date(2010, 12, 31)), (2011, Date(2011, 1, 1)), (2011, Date(2011, 1, 2))]
  {
  }

  /** The buckets of a grouping with two years. */
  lemma TwoBuckets(g: ListDict<int, Date>)
    requires |g.keys| == 2 && g.keys[0] in g.lists && g.keys[1] in g.lists
    ensures Buckets(g) == [g.lists[g.keys[0]], g.lists[g.keys[1]]]
  {
  }

  lemma NewYearRange()
    ensures DateRange(Date(2010, 12, 30), Date(2011, 1, 2))
            == [Date(2010, 12, 30), Date(2010, 12, 31), Date(2011, 1, 1), Date(2011, 1, 2)]
  {
    var d0, d1, d2, d3 := Date(2010, 12, 30), Date(2010, 12, 31), Date(2011, 1, 1), Date(2011, 1, 2);
    assert NextDay(d0) == d1 && NextDay(d1) == d2 && NextDay(d2) == d3;
    assert DateRange(d3, d3) == [d3] by {
      assert DateRange(NextDay(d3), d3) == [];
    }
    assert DateRange(d2, d3) == [d2] + DateRange(d3, d3);
    assert DateRange(d1, d3) == [d1] + DateRange(d2, d3);
  }

  /** The dictionary of the example: two years, with two days each. */
  lemma NewYearGroups<V>(d0: V, d1: V, d2: V, d3: V)
    ensures var g := AppendAll([(2010, d0), (2010, d1), (2011, d2), (2011, d3)]);
            && g.keys == [2010, 2011]
            && 2010 in g.lists && g.lists[2010] == [d0, d1]
            && 2011 in g.lists && g.lists[2011] == [d2, d3]
  {
    NewYearAppends(d0, d1, d2, d3);
    FirstYearAppends(d0, d1);
    SecondYearAppends(Append(Append(ListDict([], map[]), 2010, d0), 2010, d1), d2, d3);
  }

  /** The four pairs of the example appended one at a time. */
  lemma NewYearAppends<V>(d0: V, d1: V, d2: V, d3: V)
    ensures AppendAll([(2010, d0), (2010, d1), (2011, d2), (2011, d3)])
            == Append(Append(Append(Append(ListDict([], map[]), 2010, d0), 2010, d1), 2011, d2), 2011, d3)
  {
    var g0: ListDict<int, V> := ListDict([], map[]);
    var g1 := Append(g0, 2010, d0);
    var g2 := Append(g1, 2010, d1);
    var g3 := Append(g2, 2011, d2);
    AppendAllLast([], (2010, d0), [(2010, d0)], g0);
    AppendAllLast([(2010, d0)], (2010, d1), [(2010, d0), (2010, d1)], g1);
    AppendAllLast([(2010, d0), (2010, d1)], (2011, d2), [(2010, d0), (2010, d1), (2011, d2)], g2);
    AppendAllLast([(2010, d0), (2010, d1), (2011, d2)], (2011, d3),
                  [(2010, d0), (2010, d1), (2011, d2), (2011, d3)], g3);
  }

  lemma FirstYearAppends<V>(d0: V, d1: V)
    ensures var g := Append(Append(ListDict([], map[]), 2010, d0), 2010, d1);
            g.keys == [2010] && g.lists.Keys == {2010} && g.lists[2010] == [d0, d1]
  {
    var g1: ListDict<int, V> := Append(ListDict([], map[]), 2010, d0);
    assert g1.keys == [2010] && g1.lists.Keys == {2010} && g1.lists[2010] == [d0];
  }

  lemma SecondYearAppends<V>(g: ListDict<int, V>, d2: V, d3: V)
    requires g.keys == [2010] && g.lists.Keys == {2010}
    ensures var r := Append(Append(g, 2011, d2), 2011, d3);
            && r.keys == [2010, 2011] && r.lists[2010] == g.lists[2010]
            && 2011 in r.lists && r.lists[2011] == [d2, d3]
  {
  }
}
