/** Missing values and the exceptions the downloader raises, as values. */
module Outcome {
  import opened Calendar

  /** A reading that may be missing (`NaN` in the source's tables). */
  datatype Option<T> = None | Some(value: T)

  /** The exceptions of the downloader, one constructor per exception it
      raises, and `MalformedLocations`, which stands for the `from_tuples`
      inputs on which pandas either builds a frame instead of raising at
      that point or raises a TypeError of its own. */
  datatype Error =
    | MissingColumns(latCol: string, lonCol: string)  // KeyError selecting the coordinate columns
    | EmptyLocations                                  // IndexError on `locations[0]`
    | UnsupportedElement                              // TypeError: first element neither pair nor number
    | ColumnCountMismatch(width: nat)                 // ValueError: the frame is not two columns wide
    | MalformedLocations                              // a row that is not two numbers (stand-in, see above)
    | StateAbbreviation                               // TypeError: two-character string
    | AddressInput                                    // TypeError: longer string
    | UnsupportedInput                                // TypeError: any other input type
    | DateOverflow(offset: int)                       // OverflowError: epoch + offset leaves years 1..9999
    | DateNotFound(date: Date)                        // KeyError: requested day not on the time axis
    | NothingToConcatenate                            // ValueError: `pd.concat([])`

  datatype Result<T> = Ok(value: T) | Err(error: Error)

  /** Running steps in order and keeping their values: the first failing
      step's error stops the run. */
  function Collect<T>(rs: seq<Result<T>>): (r: Result<seq<T>>)
    ensures r.Ok? ==> |r.value| == |rs|
    ensures r.Err? ==> exists i :: 0 <= i < |rs| && rs[i] == Err(r.error)
  {
    if rs == [] then Ok([])
    else
      match Collect(rs[..|rs| - 1])
      case Err(e) => Err(e)
      case Ok(vs) =>
        match rs[|rs| - 1]
        case Err(e) => Err(e)
        case Ok(v) => Ok(vs + [v])
  }

  /** Once a prefix of the steps fails, the run fails the same way. */
  lemma {:induction false} CollectFailureSticks<T>(rs: seq<Result<T>>, k: nat)
    requires k <= |rs| && Collect(rs[..k]).Err?
    ensures Collect(rs) == Collect(rs[..k])
    decreases |rs| - k
  {
    if k < |rs| {
      assert rs[..k + 1][..k] == rs[..k];
      CollectFailureSticks(rs, k + 1);
    } else {
      assert rs[..k] == rs;
    }
  }

  /** One more step: its value is kept, or its error ends the run. */
  lemma CollectStep<T>(rs: seq<Result<T>>, i: nat, vs: seq<T>)
    requires i < |rs| && Collect(rs[..i]) == Ok(vs)
    ensures rs[i].Ok? ==> Collect(rs[..i + 1]) == Ok(vs + [rs[i].value])
    ensures rs[i].Err? ==> Collect(rs) == Err(rs[i].error)
  {
    assert rs[..i + 1][..i] == rs[..i];
    if rs[i].Err? {
      CollectFailureSticks(rs, i + 1);
    }
  }

  /** The run succeeds exactly when every step does, and then holds their
      values in order. */
  lemma {:induction false} CollectOk<T>(rs: seq<Result<T>>)
    ensures Collect(rs).Ok? <==> forall i :: 0 <= i < |rs| ==> rs[i].Ok?
    ensures Collect(rs).Ok? ==>
              |Collect(rs).value| == |rs| && forall i :: 0 <= i < |rs| ==> rs[i] == Ok(Collect(rs).value[i])
    decreases |rs|
  {
    if rs != [] {
      var n := |rs| - 1;
      CollectOk(rs[..n]);
      assert forall i :: 0 <= i < n ==> rs[..n][i] == rs[i];
    }
  }

  /** A failed run fails with the error of its first failing step. */
  lemma {:induction false} CollectError<T>(rs: seq<Result<T>>)
    requires Collect(rs).Err?
    ensures exists i :: 0 <= i < |rs| && rs[i] == Err(Collect(rs).error)
              && forall j :: 0 <= j < i ==> rs[j].Ok?
    decreases |rs|
  {
    var n := |rs| - 1;
    assert forall i :: 0 <= i < n ==> rs[..n][i] == rs[i];
    if Collect(rs[..n]).Err? {
      CollectError(rs[..n]);
    } else {
      CollectOk(rs[..n]);
    }
  }
}
