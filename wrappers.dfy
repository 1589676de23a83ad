/** Option and Result for the source's missing values and raised errors. */
module Wrappers {

  /** A value that may be absent; `None` stands for pandas' NaN. */
  datatype Option<+T> = None | Some(value: T)

  /** The outcome of an operation that may raise. */
  datatype Result<+T, +E> = Success(value: T) | Failure(error: E)

  /**
   * Apply `f` to the elements of `xs` from left to right, collecting the
   * results, and stop at the first failure (as a loop does when a call raises).
   */
  function CollectResults<A, B, E>(xs: seq<A>, f: A -> Result<B, E>): (r: Result<seq<B>, E>)
    ensures r.Success? ==> |r.value| == |xs|
  {
    if xs == [] then Success([])
    else
      match CollectResults(xs[..|xs| - 1], f)
      case Failure(err) => Failure(err)
      case Success(ys) =>
        match f(xs[|xs| - 1])
        case Failure(err) => Failure(err)
        case Success(y) => Success(ys + [y])
  }

  /** Collecting succeeds iff `f` succeeds on every element, and then gives one result per element, in order. */
  lemma {:induction false} CollectResultsSpec<A, B, E>(xs: seq<A>, f: A -> Result<B, E>)
    ensures CollectResults(xs, f).Success? <==> forall i :: 0 <= i < |xs| ==> f(xs[i]).Success?
    ensures CollectResults(xs, f).Success? ==>
              && |CollectResults(xs, f).value| == |xs|
              && forall i :: 0 <= i < |xs| ==> f(xs[i]) == Success(CollectResults(xs, f).value[i])
  {
    if xs != [] {
      var n := |xs| - 1;
      var front := xs[..n];
      CollectResultsSpec(front, f);
      assert forall i :: 0 <= i < n ==> front[i] == xs[i];
      if CollectResults(front, f).Success? {
        var ys := CollectResults(front, f).value;
        if f(xs[n]).Success? {
          var all := ys + [f(xs[n]).value];
          assert CollectResults(xs, f) == Success(all);
          forall i | 0 <= i < |xs| ensures f(xs[i]) == Success(all[i]) {
            if i < n {
              assert all[i] == ys[i];
            }
          }
        } else {
          assert CollectResults(xs, f).Failure?;
        }
      } else {
        var i :| 0 <= i < n && !f(front[i]).Success?;
        assert CollectResults(xs, f).Failure?;
      }
    }
  }

  /** Collecting one more element appends its result, or fails with its error. */
  lemma CollectResultsStep<A, B, E>(xs: seq<A>, i: nat, ys: seq<B>, f: A -> Result<B, E>)
    requires i < |xs|
    requires CollectResults(xs[..i], f) == Success(ys)
    ensures CollectResults(xs[..i + 1], f) ==
              match f(xs[i])
              case Failure(err) => Failure(err)
              case Success(y) => Success(ys + [y])
  {
    assert xs[..i + 1][..i] == xs[..i];
  }

  /** Once a prefix fails, collecting the whole sequence fails with the same error. */
  lemma {:induction false} CollectResultsFailureSticks<A, B, E>(xs: seq<A>, n: nat, f: A -> Result<B, E>)
    requires n <= |xs|
    requires CollectResults(xs[..n], f).Failure?
    ensures CollectResults(xs, f) == CollectResults(xs[..n], f)
    decreases |xs| - n
  {
    if n < |xs| {
      assert xs[..n + 1][..n] == xs[..n];
      assert CollectResults(xs[..n + 1], f) == CollectResults(xs[..n], f);
      CollectResultsFailureSticks(xs, n + 1, f);
    } else {
      assert xs[..n] == xs;
    }
  }

  /** A failed collection carries the error of some element. */
  lemma {:induction false} CollectResultsFailureWitness<A, B, E>(xs: seq<A>, f: A -> Result<B, E>)
    ensures CollectResults(xs, f).Failure? ==>
              exists i :: 0 <= i < |xs| && f(xs[i]) == Failure(CollectResults(xs, f).error)
  {
    if xs != [] {
      var n := |xs| - 1;
      CollectResultsFailureWitness(xs[..n], f);
      if CollectResults(xs[..n], f).Failure? {
        var i :| 0 <= i < n && f(xs[..n][i]) == Failure(CollectResults(xs[..n], f).error);
        assert xs[..n][i] == xs[i];
      } else if CollectResults(xs, f).Failure? {
        assert f(xs[n]) == Failure(CollectResults(xs, f).error);
      }
    }
  }
}
