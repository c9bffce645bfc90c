/** Option and Result, the failure-compatible wrappers used throughout the model. */
module Wrappers {

  datatype Option<+T> = None | Some(value: T)

  /** The outcome of an operation that, in the original program, may raise. */
  datatype Result<+T, +E> = Ok(value: T) | Err(error: E) {
    predicate IsFailure() {
      Err?
    }

    function PropagateFailure<U>(): Result<U, E>
      requires Err?
    {
      Err(error)
    }

    function Extract(): T
      requires Ok?
    {
      value
    }
  }

  /**
   * `[f(x) for x in xs]` where each `f(x)` may raise: the results in order,
   * or the failure of the first `x` that fails.
   */
  function Each<A, B, E>(xs: seq<A>, f: A -> Result<B, E>): Result<seq<B>, E> {
    if xs == [] then Ok([])
    else
      var done :- Each(xs[..|xs| - 1], f);
      var y :- f(xs[|xs| - 1]);
      Ok(done + [y])
  }

  /** One more element: its result is appended, or its failure is the result. */
  lemma EachStep<A, B, E>(xs: seq<A>, f: A -> Result<B, E>, k: nat)
    requires k < |xs| && Each(xs[..k], f).Ok?
    ensures f(xs[k]).Err? ==> Each(xs[..k + 1], f) == Err(f(xs[k]).error)
    ensures f(xs[k]).Ok? ==> Each(xs[..k + 1], f) == Ok(Each(xs[..k], f).value + [f(xs[k]).value])
  {
    assert xs[..k + 1][..k] == xs[..k];
  }

  /** Once a prefix fails, the whole sequence fails with the same error. */
  lemma {:induction false} EachPrefixFails<A, B, E>(xs: seq<A>, f: A -> Result<B, E>, k: nat)
    requires k <= |xs| && Each(xs[..k], f).Err?
    ensures Each(xs, f) == Each(xs[..k], f)
    decreases |xs| - k
  {
    if k < |xs| {
      assert xs[..|xs| - 1][..k] == xs[..k];
      EachPrefixFails(xs[..|xs| - 1], f, k);
    } else {
      assert xs[..k] == xs;
    }
  }

  /** Success means every element succeeded, and the results are theirs, in order. */
  lemma {:induction false} EachValues<A, B, E>(xs: seq<A>, f: A -> Result<B, E>)
    ensures Each(xs, f).Ok? <==> forall i :: 0 <= i < |xs| ==> f(xs[i]).Ok?
    ensures Each(xs, f).Ok? ==>
      |Each(xs, f).value| == |xs| && forall i :: 0 <= i < |xs| ==> Each(xs, f).value[i] == f(xs[i]).value
    decreases |xs|
  {
    if xs != [] {
      var p := xs[..|xs| - 1];
      EachValues(p, f);
      assert forall i :: 0 <= i < |p| ==> p[i] == xs[i];
    }
  }

  /** Failure is the failure of the first element that fails. */
  lemma {:induction false} EachFailure<A, B, E>(xs: seq<A>, f: A -> Result<B, E>)
    ensures Each(xs, f).Err? ==>
      exists i :: 0 <= i < |xs| && f(xs[i]).Err? && Each(xs, f) == Err(f(xs[i]).error) &&
        forall j :: 0 <= j < i ==> f(xs[j]).Ok?
    decreases |xs|
  {
    if xs != [] {
      var p := xs[..|xs| - 1];
      EachFailure(p, f);
      assert forall i :: 0 <= i < |p| ==> p[i] == xs[i];
      EachValues(p, f);
    }
  }

  /** The first of a series of searches that found something, tried in order. */
  function FirstMatch<T>(matches: seq<Option<T>>): Option<T>
    decreases |matches|
  {
    if matches == [] then None
    else if matches[0].Some? then matches[0]
    else FirstMatch(matches[1..])
  }

  /** Nothing is found exactly when no search finds anything; otherwise the earliest find is the result. */
  lemma {:induction false} FirstMatchMeaning<T>(matches: seq<Option<T>>)
    ensures FirstMatch(matches).None? <==> forall i :: 0 <= i < |matches| ==> matches[i].None?
    ensures forall i :: 0 <= i < |matches| && matches[i].Some? && (forall j :: 0 <= j < i ==> matches[j].None?) ==>
              FirstMatch(matches) == matches[i]
    decreases |matches|
  {
    if matches != [] {
      FirstMatchMeaning(matches[1..]);
      assert forall i :: 1 <= i < |matches| ==> matches[1..][i - 1] == matches[i];
    }
  }
}
