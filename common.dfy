/** Small value types shared by every part of the model: optional values,
    results that carry the exception the Python code would raise, and the
    Python notion of a "falsy" optional string or number. */
module Common {

  datatype Option<+T> = None | Some(value: T)

  /** The exceptions the modelled Python code raises, by class. */
  datatype Error =
    | ValueError(message: string)
    | TypeError(message: string)
    | AttributeError(message: string)

  datatype Result<+T> = Success(value: T) | Failure(error: Error)

  /** Python truthiness of an optional string: `None` and `""` are falsy. */
  predicate TruthyText(s: Option<string>) {
    s.Some? && s.value != ""
  }

  /** Python truthiness of an optional integer: `None` and `0` are falsy. */
  predicate TruthyInt(n: Option<int>) {
    n.Some? && n.value != 0
  }

  /** `[f(x) for x in xs]` where `f` may raise: the first exception stops
      the whole list. */
  function MapAll<T, U>(xs: seq<T>, f: T -> Result<U>): (r: Result<seq<U>>)
    ensures r.Failure? <==> exists i :: 0 <= i < |xs| && f(xs[i]).Failure?
    ensures r.Failure? ==> exists i :: 0 <= i < |xs| && f(xs[i]) == Failure(r.error)
    ensures r.Success? ==> |r.value| == |xs| && forall i :: 0 <= i < |xs| ==> f(xs[i]) == Success(r.value[i])
  {
    if xs == [] then Success([])
    else
      var head := f(xs[0]);
      if head.Failure? then Failure(head.error)
      else
        var rest := MapAll(xs[1..], f);
        assert forall i :: 0 <= i < |xs[1..]| ==> xs[1..][i] == xs[i + 1];
        if rest.Failure? then Failure(rest.error)
        else Success([head.value] + rest.value)
  }
}
