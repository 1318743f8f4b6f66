/** Success/failure wrappers shared by the model.  Every `unwrap` or `?` of the
    collector becomes a `Failure` here instead of a panic or an early return. */
module Outcomes {

  datatype Option<+T> = None | Some(value: T)

  /** A failure-compatible result: `:-` propagates the first `Failure`. */
  datatype Result<+T, +E> = Success(value: T) | Failure(error: E) {

    predicate IsFailure() {
      Failure?
    }

    function PropagateFailure<U>(): Result<U, E>
      requires Failure?
    {
      Failure(error)
    }

    function Extract(): T
      requires Success?
    {
      value
    }
  }

  /** Applies `f` to every element in order and collects the results; the
      first failure stops the traversal and is the outcome. */
  function MapAll<A, B, E>(f: A -> Result<B, E>, xs: seq<A>): (r: Result<seq<B>, E>)
    ensures r.Success? ==> |r.value| == |xs|
    decreases |xs|
  {
    if xs == [] then Success([])
    else
      var first :- f(xs[0]);
      var rest :- MapAll(f, xs[1..]);
      Success([first] + rest)
  }

  /** Traversing a concatenation traverses the first part, then the second. */
  lemma {:induction false} MapAllConcat<A, B, E>(f: A -> Result<B, E>, xs: seq<A>, ys: seq<A>)
    ensures MapAll(f, xs + ys) ==
      match MapAll(f, xs)
      case Failure(e) => Failure(e)
      case Success(us) =>
        match MapAll(f, ys)
        case Failure(e) => Failure(e)
        case Success(vs) => Success(us + vs)
    decreases |xs|
  {
    if xs == [] {
      assert xs + ys == ys;
      if MapAll(f, ys).Success? {
        assert [] + MapAll(f, ys).value == MapAll(f, ys).value;
      }
    } else {
      assert (xs + ys)[0] == xs[0];
      assert (xs + ys)[1..] == xs[1..] + ys;
      MapAllConcat(f, xs[1..], ys);
      if f(xs[0]).Success? && MapAll(f, xs[1..]).Success? && MapAll(f, ys).Success? {
        var u, us, vs := f(xs[0]).value, MapAll(f, xs[1..]).value, MapAll(f, ys).value;
        assert MapAll(f, xs) == Success([u] + us);
        assert MapAll(f, xs + ys) == Success([u] + (us + vs));
        assert [u] + (us + vs) == ([u] + us) + vs;
      }
    }
  }

  /** The traversal succeeds exactly when `f` succeeds on every element, and
      then holds one result per element, in order. */
  lemma {:induction false} MapAllElementwise<A, B, E>(f: A -> Result<B, E>, xs: seq<A>)
    ensures MapAll(f, xs).Success? <==> forall i :: 0 <= i < |xs| ==> f(xs[i]).Success?
    ensures MapAll(f, xs).Success? ==>
      |MapAll(f, xs).value| == |xs|
      && forall i :: 0 <= i < |xs| ==> f(xs[i]) == Success(MapAll(f, xs).value[i])
    decreases |xs|
  {
    if xs != [] {
      MapAllElementwise(f, xs[1..]);
      assert forall i :: 1 <= i < |xs| ==> xs[i] == xs[1..][i - 1];
    }
  }

  /** A failed traversal reports the failure of the first element that fails. */
  lemma {:induction false} MapAllFirstFailure<A, B, E>(f: A -> Result<B, E>, xs: seq<A>)
    requires MapAll(f, xs).Failure?
    ensures exists k :: 0 <= k < |xs| && f(xs[k]) == Failure(MapAll(f, xs).error)
                        && (forall j :: 0 <= j < k ==> f(xs[j]).Success?)
    decreases |xs|
  {
    if f(xs[0]).Success? {
      MapAllFirstFailure(f, xs[1..]);
      var k :| 0 <= k < |xs[1..]|
        && f(xs[1..][k]) == Failure(MapAll(f, xs[1..]).error)
        && (forall j :: 0 <= j < k ==> f(xs[1..][j]).Success?);
      assert forall j :: 1 <= j < k + 1 ==> xs[j] == xs[1..][j - 1];
      assert f(xs[k + 1]) == Failure(MapAll(f, xs).error);
    }
  }

  /** One more element on a traversed prefix: its result is appended. */
  lemma MapAllExtend<A, B, E>(f: A -> Result<B, E>, xs: seq<A>, i: nat)
    requires i < |xs| && MapAll(f, xs[..i]).Success? && f(xs[i]).Success?
    ensures MapAll(f, xs[..i + 1]) == Success(MapAll(f, xs[..i]).value + [f(xs[i]).value])
  {
    assert xs[..i + 1] == xs[..i] + [xs[i]];
    MapAllConcat(f, xs[..i], [xs[i]]);
    var one, v := [xs[i]], f(xs[i]).value;
    assert one[0] == xs[i] && one[1..] == [];
    assert [v] + [] == [v];
    assert MapAll(f, one) == Success([v]);
  }

  /** A failing element after a traversed prefix is the whole traversal's outcome. */
  lemma MapAllStopsAt<A, B, E>(f: A -> Result<B, E>, xs: seq<A>, i: nat)
    requires i < |xs| && MapAll(f, xs[..i]).Success? && f(xs[i]).Failure?
    ensures MapAll(f, xs) == Failure(f(xs[i]).error)
  {
    assert xs == xs[..i] + xs[i..];
    MapAllConcat(f, xs[..i], xs[i..]);
    assert xs[i..][0] == xs[i];
  }
}
