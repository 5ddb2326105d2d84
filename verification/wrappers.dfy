/** Failure-carrying datatypes shared by the encoder and the decoder, and the
    short-circuiting traversal that both of them are built on. */
module Wrappers {

  datatype Option<+T> = None | Some(value: T)

  /** The outcome of a fallible computation: a value, or the error that stopped it. */
  datatype Result<+R, +E> = Success(value: R) | Failure(error: E)

  /** The outcome of a fallible step that produces nothing (opening or closing a map). */
  datatype Outcome<+E> = Pass | Fail(error: E)

  /** True when `i` is the first position of `xs` at which `f` fails. */
  ghost predicate FirstFailureAt<A, B, E>(xs: seq<A>, f: A -> Result<B, E>, i: int)
  {
    && 0 <= i < |xs|
    && f(xs[i]).Failure?
    && forall j :: 0 <= j < i ==> f(xs[j]).Success?
  }

  /** Applies `f` to every element of `xs` in order and stops at the first
      failure, the way a chain of `?` operators in a loop does. Defined by
      recursion on the last element, so the prefix `xs[..i]` is what a loop
      has processed after `i` rounds. */
  function Traverse<A, B, E>(xs: seq<A>, f: A -> Result<B, E>): (r: Result<seq<B>, E>)
    ensures r.Success? ==> |r.value| == |xs|
  {
    if |xs| == 0 then Success([])
    else
      match Traverse(xs[..|xs| - 1], f)
      case Failure(e) => Failure(e)
      case Success(bs) =>
        match f(xs[|xs| - 1])
        case Failure(e) => Failure(e)
        case Success(b) => Success(bs + [b])
  }

  /** What a traversal computes: it succeeds iff every element succeeds, and
      then it holds the results in order; otherwise it carries the error of
      the first element that failed. */
  lemma {:induction false} TraverseSpec<A, B, E>(xs: seq<A>, f: A -> Result<B, E>)
    ensures Traverse(xs, f).Success? <==> forall i :: 0 <= i < |xs| ==> f(xs[i]).Success?
    ensures Traverse(xs, f).Success? ==>
              forall i :: 0 <= i < |xs| ==> f(xs[i]) == Success(Traverse(xs, f).value[i])
    ensures Traverse(xs, f).Failure? ==>
              exists i :: FirstFailureAt(xs, f, i) && Traverse(xs, f).error == f(xs[i]).error
  {
    if |xs| > 0 {
      var init := xs[..|xs| - 1];
      TraverseSpec(init, f);
      assert forall j :: 0 <= j < |init| ==> init[j] == xs[j];
      if Traverse(init, f).Failure? {
        var i :| FirstFailureAt(init, f, i) && Traverse(init, f).error == f(init[i]).error;
        assert FirstFailureAt(xs, f, i);
      } else if f(xs[|xs| - 1]).Failure? {
        assert FirstFailureAt(xs, f, |xs| - 1);
      }
    }
  }

  /** Traversal extends one element at a time: the step a loop takes. */
  lemma TraverseSnoc<A, B, E>(xs: seq<A>, x: A, f: A -> Result<B, E>)
    ensures Traverse(xs + [x], f) ==
              match Traverse(xs, f)
              case Failure(e) => Failure(e)
              case Success(bs) =>
                match f(x)
                case Failure(e) => Failure(e)
                case Success(b) => Success(bs + [b])
  {
  }

  /** When every element succeeds, traversal yields exactly the pointwise results. */
  lemma TraverseAllSucceed<A, B, E>(xs: seq<A>, ys: seq<B>, f: A -> Result<B, E>)
    requires |xs| == |ys|
    requires forall i :: 0 <= i < |xs| ==> f(xs[i]) == Success(ys[i])
    ensures Traverse(xs, f) == Success(ys)
  {
    TraverseSpec(xs, f);
    var r := Traverse(xs, f);
    assert r.Success?;
    assert forall i :: 0 <= i < |xs| ==> r.value[i] == ys[i];
    assert r.value == ys;
  }

  /** A failure within a prefix is the failure of the whole traversal. */
  lemma TraversePrefixFailure<A, B, E>(xs: seq<A>, n: nat, f: A -> Result<B, E>)
    requires n <= |xs|
    requires Traverse(xs[..n], f).Failure?
    ensures Traverse(xs, f) == Traverse(xs[..n], f)
  {
    var prefix := xs[..n];
    TraverseSpec(prefix, f);
    TraverseSpec(xs, f);
    var p := Traverse(prefix, f);
    var i :| FirstFailureAt(prefix, f, i) && p.error == f(prefix[i]).error;
    assert prefix[i] == xs[i];
    assert forall j :: 0 <= j < i ==> prefix[j] == xs[j];
    assert FirstFailureAt(xs, f, i);
    var r := Traverse(xs, f);
    assert r.Failure?;
    var k :| FirstFailureAt(xs, f, k) && r.error == f(xs[k]).error;
    assert k == i;
  }
}
