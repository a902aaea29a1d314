/**
 Failure-compatible wrappers used throughout the model: an optional value and
 a success-or-error result, both usable with `:-`.
 */
module Results {

  datatype Option<+T> = None | Some(value: T)

  /** The outcome of an operation that may throw in the JavaScript original. */
  datatype Result<+R, +E> = Success(value: R) | Failure(error: E) {

    predicate IsFailure() {
      Failure?
    }

    function PropagateFailure<U>(): Result<U, E>
      requires Failure?
    {
      Failure(error)
    }

    function Extract(): R
      requires Success?
    {
      value
    }
  }

  /**
    Applies `f` to each element in order and collects the results; the first
    failure aborts the whole traversal (an exception thrown out of `forEach`).
   */
  function Traverse<A, B, E>(f: A -> Result<B, E>, xs: seq<A>): (r: Result<seq<B>, E>)
    ensures r.Success? <==> forall i :: 0 <= i < |xs| ==> f(xs[i]).Success?
    ensures r.Success? ==> |r.value| == |xs|
    ensures r.Success? ==> forall i :: 0 <= i < |xs| ==> r.value[i] == f(xs[i]).value
    ensures r.Failure? ==> exists i :: 0 <= i < |xs| && f(xs[i]) == Failure(r.error) &&
                                       (forall j :: 0 <= j < i ==> f(xs[j]).Success?)
    decreases |xs|
  {
    if |xs| == 0 then Success([])
    else
      assert forall i :: 1 <= i < |xs| ==> xs[1..][i - 1] == xs[i];
      match f(xs[0])
      case Failure(e) => Failure(e)
      case Success(y) =>
        match Traverse(f, xs[1..])
        case Failure(e) =>
          ghost var k :| 0 <= k < |xs[1..]| && f(xs[1..][k]) == Failure(e) &&
                         (forall j :: 0 <= j < k ==> f(xs[1..][j]).Success?);
          assert f(xs[k + 1]) == Failure(e);
          Failure(e)
        case Success(ys) => Success([y] + ys)
  }

  /** Traversing a concatenation traverses the parts in order; a failure in the first part wins. */
  lemma {:induction false} TraverseAppend<A, B, E>(f: A -> Result<B, E>, a: seq<A>, b: seq<A>)
    ensures Traverse(f, a + b) ==
      match Traverse(f, a)
      case Failure(e) => Failure(e)
      case Success(ya) =>
        match Traverse(f, b)
        case Failure(e) => Failure(e)
        case Success(yb) => Success(ya + yb)
    decreases |a|
  {
    if |a| == 0 {
      assert a + b == b;
      match Traverse(f, b)
      case Failure(e) =>
      case Success(yb) => assert [] + yb == yb;
    } else {
      assert (a + b)[0] == a[0] && (a + b)[1..] == a[1..] + b;
      TraverseAppend(f, a[1..], b);
      match f(a[0])
      case Failure(e) =>
      case Success(y) =>
        match Traverse(f, a[1..])
        case Failure(e) =>
        case Success(ys) =>
          match Traverse(f, b)
          case Failure(e) =>
          case Success(yb) => assert [y] + (ys + yb) == ([y] + ys) + yb;
    }
  }

  /** A traversal only depends on what `f` does on the elements it reaches. */
  lemma {:induction false} TraverseAgrees<A, B, E>(f: A -> Result<B, E>, g: A -> Result<B, E>, xs: seq<A>)
    requires forall i :: 0 <= i < |xs| ==> f(xs[i]) == g(xs[i])
    ensures Traverse(f, xs) == Traverse(g, xs)
    decreases |xs|
  {
    if |xs| > 0 {
      assert f(xs[0]) == g(xs[0]);
      assert forall i :: 0 <= i < |xs| - 1 ==> xs[1..][i] == xs[i + 1];
      TraverseAgrees(f, g, xs[1..]);
    }
  }
}
