/** Optional values and results, used for Java's `null` and for exceptions that escape a call. */
module Wrappers {

  /** `None` stands for a Java `null` reference. */
  datatype Option<+T> = None | Some(value: T)
  {
    function GetOr(default: T): (r: T)
      ensures Some? ==> r == value
      ensures None? ==> r == default
    {
      match this
      case None => default
      case Some(v) => v
    }
  }

  /** The outcome of a Java call that either returns normally or throws. */
  datatype Result<+T, +E> = Ok(value: T) | Err(error: E)
  {
    predicate IsFailure() {
      Err?
    }

    function PropagateFailure<U>(): Result<U, E>
      requires Err?
    {
      Err(error)
    }

    function Extract(): T
      requires Ok?
    {
      value
    }
  }

  /**
   * The results of a loop whose body may throw: all the values when every
   * step returned normally, otherwise the first exception.
   */
  function Sequence<T(==), E(==)>(rs: seq<Result<T, E>>): (r: Result<seq<T>, E>)
    ensures r.Ok? <==> forall k :: 0 <= k < |rs| ==> rs[k].Ok?
    ensures r.Ok? ==> |r.value| == |rs| && forall k :: 0 <= k < |rs| ==> rs[k] == Ok(r.value[k])
    ensures r.Err? ==> exists k :: 0 <= k < |rs| && rs[k] == Err(r.error)
    decreases |rs|
  {
    if |rs| == 0 then Ok([])
    else
      match rs[0]
      case Err(e) => Err(e)
      case Ok(v) =>
        assert forall k :: 1 <= k < |rs| ==> rs[k] == rs[1..][k - 1];
        match Sequence(rs[1..])
        case Err(e) => Err(e)
        case Ok(vs) => Ok([v] + vs)
  }

  /** The first present value of a sequence of optional values. */
  function FirstSome<T>(xs: seq<Option<T>>): (r: Option<T>)
    ensures r.None? <==> forall k :: 0 <= k < |xs| ==> xs[k].None?
    ensures r.Some? ==> exists k :: 0 <= k < |xs| && xs[k] == r && forall j :: 0 <= j < k ==> xs[j].None?
    decreases |xs|
  {
    if |xs| == 0 then None
    else if xs[0].Some? then xs[0]
    else
      assert forall k :: 1 <= k < |xs| ==> xs[k] == xs[1..][k - 1];
      FirstSome(xs[1..])
  }

  /** Two steps that both return normally. */
  lemma SequenceOfTwo<T, E>(a: T, b: T)
    ensures Sequence<T, E>([Ok(a), Ok(b)]) == Ok([a, b])
  {
    var rs: seq<Result<T, E>> := [Ok(a), Ok(b)];
    var empty: seq<Result<T, E>> := [];
    assert Sequence(empty) == Ok([]);
    var one: seq<Result<T, E>> := [Ok(b)];
    assert one[1..] == empty;
    assert Sequence(one) == Ok([b] + []);
    assert [b] + [] == [b];
    assert rs[1..] == one;
    assert [a] + [b] == [a, b];
  }
}
