/** A value that may be missing: the model's stand-in for a pandas cell holding NaN/None. */
module Options {

  datatype Option<+T> = None | Some(value: T)

  /** The first present value of a column, as pandas' groupby `first` aggregation picks it. */
  function FirstPresent<T>(xs: seq<Option<T>>): (r: Option<T>)
    ensures r.None? <==> forall i :: 0 <= i < |xs| ==> xs[i].None?
    ensures r.Some? ==> exists i :: 0 <= i < |xs| && xs[i] == r && forall j :: 0 <= j < i ==> xs[j].None?
  {
    if |xs| == 0 then None
    else if xs[0].Some? then xs[0]
    else
      var rest := FirstPresent(xs[1..]);
      assert rest.Some? ==> exists i :: 0 <= i < |xs[1..]| && xs[1..][i] == rest && forall j :: 0 <= j < i ==> xs[1..][j].None?;
      assert rest.Some? ==> exists i :: 1 <= i < |xs| && xs[i] == rest && forall j :: 0 <= j < i ==> xs[j].None?;
      rest
  }
}
