/** Optional values and results with an error, the shapes Python's `None`
    returns and raised exceptions take in this model. */
module Outcomes {

  datatype Option<+T> = None | Some(value: T) {
    predicate IsFailure() {
      None?
    }

    function PropagateFailure<U>(): Option<U>
      requires None?
    {
      None
    }

    function Extract(): T
      requires Some?
    {
      value
    }
  }

  datatype Result<+T, +E> = Success(value: T) | Failure(error: E) {
    predicate IsFailure() {
      Failure?
    }

    function PropagateFailure<U>(): Result<U, E>
      requires Failure?
    {
      Failure(error)
    }

    function Extract(): T
      requires Success?
    {
      value
    }
  }

  /** Applying `step` to each element in order, as a `for` loop does whose
      body may raise: the results of all elements, or the failure of the
      first element that fails (the elements after it are never tried). */
  function Collect<T, R, E>(step: T -> Result<R, E>, xs: seq<T>): Result<seq<R>, E>
    decreases |xs|
  {
    if xs == [] then Success([])
    else
      var init :- Collect(step, xs[..|xs| - 1]);
      var last :- step(xs[|xs| - 1]);
      Success(init + [last])
  }

  /** A successful run has one result per element, result `i` being what
      element `i` gives on its own. */
  lemma {:induction false} CollectSuccess<T, R, E>(step: T -> Result<R, E>, xs: seq<T>)
    requires Collect(step, xs).Success?
    ensures |Collect(step, xs).value| == |xs|
    ensures forall i :: 0 <= i < |xs| ==> step(xs[i]) == Success(Collect(step, xs).value[i])
    decreases |xs|
  {
    if xs != [] {
      var init := xs[..|xs| - 1];
      CollectSuccess(step, init);
      assert forall i :: 0 <= i < |init| ==> init[i] == xs[i];
    }
  }

  /** A failed run fails as its first failing element does, every element
      before that one having succeeded. */
  lemma {:induction false} CollectFailure<T, R, E>(step: T -> Result<R, E>, xs: seq<T>) returns (k: nat)
    requires Collect(step, xs).Failure?
    ensures k < |xs| && step(xs[k]).Failure? && Collect(step, xs).error == step(xs[k]).error
    ensures forall j :: 0 <= j < k ==> step(xs[j]).Success?
    decreases |xs|
  {
    var init := xs[..|xs| - 1];
    assert forall j :: 0 <= j < |init| ==> init[j] == xs[j];
    if Collect(step, init).Failure? {
      k := CollectFailure(step, init);
    } else {
      k := |xs| - 1;
      CollectSuccess(step, init);
    }
  }

  /** Once a prefix has failed, every longer prefix fails the same way. */
  lemma {:induction false} CollectStops<T, R, E>(step: T -> Result<R, E>, xs: seq<T>, i: nat, j: nat)
    requires i <= j <= |xs|
    requires Collect(step, xs[..i]).Failure?
    ensures Collect(step, xs[..j]) == Collect(step, xs[..i])
    decreases j
  {
    if j > i {
      CollectStops(step, xs, i, j - 1);
      assert xs[..j][..j - 1] == xs[..j - 1];
    }
  }

  /** A prefix one element longer extends the results of the shorter one. */
  lemma CollectExtend<T, R, E>(step: T -> Result<R, E>, xs: seq<T>, i: nat)
    requires i < |xs|
    ensures Collect(step, xs[..i + 1]) ==
      match Collect(step, xs[..i])
      case Failure(e) => Failure(e)
      case Success(rs) => match step(xs[i]) case Failure(e) => Failure(e) case Success(r) => Success(rs + [r])
  {
    assert xs[..i + 1][..i] == xs[..i];
  }
}
