/** The temporal half of index resolution (`get_time_index`): the grid
    file's time axis counts days from 1800-01-01; each requested day is looked
    up by its calendar date in a dictionary built from that axis. */
module TimeIndex {
  import opened Calendar
  import opened Outcome

  /** The calendar day of time offset `t`, ignoring Python's year limits. */
  function DayOf(t: int): (d: Date)
    ensures Valid(d) && Ordinal(d) == Ordinal(Epoch) + t
  {
    AddDays(Epoch, t)
  }

  /** `date(1800, 1, 1) + timedelta(int(t))`: the calendar day `t` days after
      the epoch, or `OverflowError` when that day is outside years 1..9999. */
  function OffsetToDate(t: int): (r: Result<Date>)
    ensures r.Ok? <==> InPythonRange(DayOf(t))
    ensures r.Ok? ==> Valid(r.value) && Ordinal(r.value) - Ordinal(Epoch) == t
    ensures r.Err? ==> r.error == DateOverflow(t)
  {
    var d := DayOf(t);
    if InPythonRange(d) then Ok(d) else Err(DateOverflow(t))
  }

  /** Counting back from a representable day gives that day again. */
  lemma OffsetRoundTrip(d: Date)
    requires Valid(d) && InPythonRange(d)
    ensures OffsetToDate(Ordinal(d) - Ordinal(Epoch)) == Ok(d)
  {
    OrdinalInjective(DayOf(Ordinal(d) - Ordinal(Epoch)), d);
  }

  /** `int(t)`: the whole part of `t`, rounding toward zero. */
  function Truncate(t: real): (n: int)
    ensures t >= 0.0 ==> n as real <= t < n as real + 1.0
    ensures t < 0.0 ==> n as real - 1.0 < t <= n as real
  {
    if t >= 0.0 then t.Floor else -((-t).Floor)
  }

  /** The day each position of the axis names, or the error computing it. */
  function AxisDays(time: seq<real>): (days: seq<Result<Date>>)
    ensures |days| == |time|
    ensures forall i :: 0 <= i < |time| ==> days[i] == OffsetToDate(Truncate(time[i]))
  {
    seq(|time|, i requires 0 <= i < |time| => OffsetToDate(Truncate(time[i])))
  }

  /** Every position names a representable day. */
  predicate AllNamed(days: seq<Result<Date>>)
  {
    forall i :: 0 <= i < |days| ==> days[i].Ok?
  }

  /** Some position names day `d`. */
  predicate Names(days: seq<Result<Date>>, d: Date)
  {
    exists i :: 0 <= i < |days| && days[i] == Ok(d)
  }

  /** The dictionary comprehension over the named days: positions are
      entered in order, so a later position overwrites an earlier one, and
      the first position whose day cannot be computed aborts it. */
  function IndexDays(days: seq<Result<Date>>): (r: Result<map<Date, nat>>)
    ensures r.Ok? ==> forall d :: d in r.value ==> r.value[d] < |days|
    ensures r.Err? ==> exists i :: 0 <= i < |days| && days[i] == Err(r.error)
  {
    if days == [] then Ok(map[])
    else
      match IndexDays(days[..|days| - 1])
      case Err(e) => Err(e)
      case Ok(m) =>
        match days[|days| - 1]
        case Err(e) => Err(e)
        case Ok(d) => Ok(m[d := |days| - 1])
  }

  /** The dictionary from each day of the axis to its position, keyed by
      the date itself rather than by its string. */
  function BuildDateIndex(time: seq<real>): (r: Result<map<Date, nat>>)
    ensures r.Ok? ==> forall d :: d in r.value ==> r.value[d] < |time|
    ensures r.Err? ==> r.error.DateOverflow?
  {
    IndexDays(AxisDays(time))
  }

  /** The dictionary exists exactly when every position names a day. */
  lemma {:induction false} IndexDaysOk(days: seq<Result<Date>>)
    ensures IndexDays(days).Ok? <==> AllNamed(days)
    decreases |days|
  {
    if days != [] {
      var n := |days| - 1;
      IndexDaysOk(days[..n]);
      assert forall i :: 0 <= i < n ==> days[..n][i] == days[i];
    }
  }

  /** On failure the error is that of the first position without a day. */
  lemma {:induction false} IndexDaysFirstError(days: seq<Result<Date>>)
    requires IndexDays(days).Err?
    ensures exists i :: 0 <= i < |days| && days[i] == Err(IndexDays(days).error)
              && forall j :: 0 <= j < i ==> days[j].Ok?
    decreases |days|
  {
    var n := |days| - 1;
    var prefix := days[..n];
    assert forall i :: 0 <= i < n ==> prefix[i] == days[i];
    if IndexDays(prefix).Ok? {
      IndexDaysOk(prefix);
    } else {
      IndexDaysFirstError(prefix);
    }
  }

  /** The keys of the dictionary are exactly the named days. */
  lemma {:induction false} IndexDaysKeys(days: seq<Result<Date>>)
    requires IndexDays(days).Ok?
    ensures forall d :: d in IndexDays(days).value <==> Names(days, d)
    decreases |days|
  {
    if days != [] {
      var n := |days| - 1;
      var prefix := days[..n];
      IndexDaysKeys(prefix);
      var m := IndexDays(prefix).value;
      var d := days[n].value;
      assert IndexDays(days).value == m[d := n];
      forall e
        ensures e in m[d := n] <==> Names(days, e)
      {
        if Names(days, e) && e != d {
          var i :| 0 <= i < |days| && days[i] == Ok(e);
          assert i < n && prefix[i] == days[i];
        }
        if e in m && e != d {
          var i :| 0 <= i < n && prefix[i] == Ok(e);
          assert prefix[i] == days[i];
        }
      }
    }
  }

  /** Each day maps to a position naming it, and no later position names it:
      the last one wins. */
  lemma {:induction false} IndexDaysLast(days: seq<Result<Date>>)
    requires IndexDays(days).Ok?
    ensures var m := IndexDays(days).value;
            forall d :: d in m ==>
              && m[d] < |days| && days[m[d]] == Ok(d)
              && forall j :: m[d] < j < |days| ==> days[j] != Ok(d)
    decreases |days|
  {
    if days != [] {
      var n := |days| - 1;
      var prefix := days[..n];
      IndexDaysLast(prefix);
      assert forall i :: 0 <= i < n ==> prefix[i] == days[i];
    }
  }

  /** Looks each requested day up in order; the first day missing from the
      dictionary is a `KeyError`. */
  function Lookup(m: map<Date, nat>, dates: seq<Date>): (r: Result<seq<nat>>)
    ensures r.Ok? ==> |r.value| == |dates| && forall k :: 0 <= k < |dates| ==> r.value[k] in m.Values
    ensures r.Err? ==> r.error.DateNotFound? && r.error.date in dates && r.error.date !in m
  {
    if dates == [] then Ok([])
    else
      match Lookup(m, dates[..|dates| - 1])
      case Err(e) => Err(e)
      case Ok(p) =>
        var d := dates[|dates| - 1];
        if d in m then Ok(p + [m[d]]) else Err(DateNotFound(d))
  }

  /** Once a prefix of the requests fails, the whole request fails the same
      way. */
  lemma {:induction false} LookupFailureSticks(m: map<Date, nat>, dates: seq<Date>, k: nat)
    requires k <= |dates| && Lookup(m, dates[..k]).Err?
    ensures Lookup(m, dates) == Lookup(m, dates[..k])
    decreases |dates| - k
  {
    if k < |dates| {
      assert dates[..k + 1][..k] == dates[..k];
      LookupFailureSticks(m, dates, k + 1);
    } else {
      assert dates[..k] == dates;
    }
  }

  /** The lookup succeeds exactly when every request is a key; it then
      answers each request, in order, with the value under it, and otherwise
      names the first request that is not a key. */
  lemma {:induction false} LookupExact(m: map<Date, nat>, dates: seq<Date>)
    ensures Lookup(m, dates).Ok? <==> forall k :: 0 <= k < |dates| ==> dates[k] in m
    ensures Lookup(m, dates).Ok? ==>
              |Lookup(m, dates).value| == |dates|
              && forall k :: 0 <= k < |dates| ==> Lookup(m, dates).value[k] == m[dates[k]]
    ensures Lookup(m, dates).Err? ==>
              exists k :: 0 <= k < |dates| && Lookup(m, dates).error == DateNotFound(dates[k])
                && dates[k] !in m && forall k' :: 0 <= k' < k ==> dates[k'] in m
    decreases |dates|
  {
    if dates != [] {
      var n := |dates| - 1;
      var prefix := dates[..n];
      LookupExact(m, prefix);
      assert forall k :: 0 <= k < n ==> prefix[k] == dates[k];
    }
  }

  /** The result of `get_time_index`, as a function of the axis and the
      requested days. */
  function ResolveTimes(time: seq<real>, dates: seq<Date>): (r: Result<seq<nat>>)
    ensures r.Ok? ==> |r.value| == |dates| && forall k :: 0 <= k < |dates| ==> r.value[k] < |time|
    ensures r.Err? ==> r.error.DateOverflow? || r.error.DateNotFound?
  {
    match BuildDateIndex(time)
    case Err(e) => Err(e)
    case Ok(m) => Lookup(m, dates)
  }

  /** `get_time_index`: one axis position per requested day, in request
      order, built by appending in a loop. */
  method GetTimeIndex(time: seq<real>, dates: seq<Date>) returns (r: Result<seq<nat>>)
    ensures r == ResolveTimes(time, dates)
  {
    var index := BuildDateIndex(time);
    if index.Err? {
      return Err(index.error);
    }
    var m := index.value;
    var positions: seq<nat> := [];
    for k := 0 to |dates|
      invariant Lookup(m, dates[..k]) == Ok(positions)
    {
      assert dates[..k + 1][..k] == dates[..k];
      if dates[k] !in m {
        LookupFailureSticks(m, dates, k + 1);
        return Err(DateNotFound(dates[k]));
      }
      positions := positions + [m[dates[k]]];
    }
    assert dates[..|dates|] == dates;
    r := Ok(positions);
  }

  /** Every offset of the axis names a representable day. */
  predicate AxisInRange(time: seq<real>)
  {
    AllNamed(AxisDays(time))
  }

  /** Some position of the axis names day `d`. */
  predicate OnAxis(time: seq<real>, d: Date)
  {
    Names(AxisDays(time), d)
  }

  /** Requests resolve exactly when every offset of the axis is representable
      and every requested day is on the axis. A resolved request gets, in
      order, the last axis position naming that day. */
  lemma ResolveTimesOk(time: seq<real>, dates: seq<Date>)
    ensures ResolveTimes(time, dates).Ok? <==>
              AxisInRange(time) && forall k :: 0 <= k < |dates| ==> OnAxis(time, dates[k])
    ensures ResolveTimes(time, dates).Ok? ==>
              var ix := ResolveTimes(time, dates).value;
              && |ix| == |dates|
              && forall k :: 0 <= k < |dates| ==>
                   && ix[k] < |time| && OffsetToDate(Truncate(time[ix[k]])) == Ok(dates[k])
                   && forall j :: ix[k] < j < |time| ==> OffsetToDate(Truncate(time[j])) != Ok(dates[k])
  {
    var days := AxisDays(time);
    IndexDaysOk(days);
    if IndexDays(days).Ok? {
      IndexDaysKeys(days);
      IndexDaysLast(days);
      LookupExact(IndexDays(days).value, dates);
    }
  }

  /** One resolved request: its position is on the axis and names the day. */
  lemma ResolveTimesAt(time: seq<real>, dates: seq<Date>, k: int)
    requires ResolveTimes(time, dates).Ok? && 0 <= k < |dates|
    ensures var t := ResolveTimes(time, dates).value[k];
            t < |time| && OffsetToDate(Truncate(time[t])) == Ok(dates[k])
  {
    ResolveTimesOk(time, dates);
  }

  /** A failed request names either the first offset of the axis that leaves
      Python's years, or, when the axis is representable, the first requested
      day that is not on it: no missing day is skipped. */
  lemma ResolveTimesErr(time: seq<real>, dates: seq<Date>)
    requires ResolveTimes(time, dates).Err?
    ensures !AxisInRange(time) ==>
              exists i :: 0 <= i < |time| && ResolveTimes(time, dates).error == DateOverflow(Truncate(time[i]))
                && !InPythonRange(DayOf(Truncate(time[i])))
                && forall j :: 0 <= j < i ==> InPythonRange(DayOf(Truncate(time[j])))
    ensures AxisInRange(time) ==>
              exists k :: 0 <= k < |dates| && ResolveTimes(time, dates).error == DateNotFound(dates[k])
                && !OnAxis(time, dates[k])
                && forall k' :: 0 <= k' < k ==> OnAxis(time, dates[k'])
  {
    var days := AxisDays(time);
    IndexDaysOk(days);
    if IndexDays(days).Err? {
      IndexDaysFirstError(days);
    } else {
      IndexDaysKeys(days);
      LookupExact(IndexDays(days).value, dates);
    }
  }
}
