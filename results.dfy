/** Option and Result, and the "run each step, stop at the first failure" combinator
    that every scraping loop of the crawler follows (an exception aborts the whole run). */
module Results {

  datatype Option<+T> = None | Some(value: T)

  datatype Result<+T, +E> = Ok(value: T) | Err(error: E)

  /** Applies `f` to every element in order; the first failure aborts and is returned,
      otherwise the results are collected in order. Defined from the last element so that
      a left-to-right loop can be proved against it. */
  function Traverse<A, B, E>(f: A -> Result<B, E>, xs: seq<A>): (r: Result<seq<B>, E>)
    ensures r.Ok? ==> |r.value| == |xs|
  {
    if xs == [] then Ok([])
    else
      match Traverse(f, xs[..|xs| - 1])
      case Err(e) => Err(e)
      case Ok(ys) =>
        match f(xs[|xs| - 1])
        case Err(e) => Err(e)
        case Ok(y) => Ok(ys + [y])
  }

  /** Traverse succeeds exactly when every step succeeds, and then holds every step's value in order. */
  lemma {:induction false} TraverseOk<A, B, E>(f: A -> Result<B, E>, xs: seq<A>)
    ensures Traverse(f, xs).Ok? <==> forall i :: 0 <= i < |xs| ==> f(xs[i]).Ok?
    ensures Traverse(f, xs).Ok? ==>
      forall i :: 0 <= i < |xs| ==> Traverse(f, xs).value[i] == f(xs[i]).value
  {
    if xs != [] {
      var init := xs[..|xs| - 1];
      TraverseOk(f, init);
      assert forall i :: 0 <= i < |init| ==> init[i] == xs[i];
    }
  }

  /** When Traverse fails, its error is that of the first failing step. */
  lemma {:induction false} TraverseFirstError<A, B, E>(f: A -> Result<B, E>, xs: seq<A>)
    requires Traverse(f, xs).Err?
    ensures exists k :: (0 <= k < |xs| && f(xs[k]) == Err(Traverse(f, xs).error)
                         && forall i :: 0 <= i < k ==> f(xs[i]).Ok?)
  {
    var init := xs[..|xs| - 1];
    assert forall i :: 0 <= i < |init| ==> init[i] == xs[i];
    if Traverse(f, init).Err? {
      TraverseFirstError(f, init);
      var k :| 0 <= k < |init| && f(init[k]) == Err(Traverse(f, init).error)
        && forall i :: 0 <= i < k ==> f(init[i]).Ok?;
      assert f(xs[k]) == Err(Traverse(f, xs).error);
    } else {
      TraverseOk(f, init);
      assert f(xs[|xs| - 1]) == Err(Traverse(f, xs).error);
    }
  }

  /** One more step: the shape a loop body relies on. */
  lemma TraverseSnoc<A, B, E>(f: A -> Result<B, E>, xs: seq<A>, x: A)
    ensures Traverse(f, xs + [x]) ==
      match Traverse(f, xs)
      case Err(e) => Err(e)
      case Ok(ys) => (match f(x) case Err(e) => Err(e) case Ok(y) => Ok(ys + [y]))
  {
    assert (xs + [x])[..|xs + [x]| - 1] == xs;
  }

  /** A failure on a prefix is the failure of the whole run: nothing after it is looked at. */
  lemma {:induction false} TraversePrefixError<A, B, E>(f: A -> Result<B, E>, xs: seq<A>, k: nat)
    requires k <= |xs| && Traverse(f, xs[..k]).Err?
    ensures Traverse(f, xs) == Traverse(f, xs[..k])
    decreases |xs| - k
  {
    if k < |xs| {
      TraverseSnoc(f, xs[..k], xs[k]);
      assert xs[..k] + [xs[k]] == xs[..k + 1];
      TraversePrefixError(f, xs, k + 1);
    } else {
      assert xs[..k] == xs;
    }
  }

  /** Once a prefix fails, nothing appended after it is looked at. */
  lemma TraverseAppendError<A, B, E>(f: A -> Result<B, E>, xs: seq<A>, ys: seq<A>)
    requires Traverse(f, xs).Err?
    ensures Traverse(f, xs + ys) == Traverse(f, xs)
  {
    assert (xs + ys)[..|xs|] == xs;
    TraversePrefixError(f, xs + ys, |xs|);
  }

  /** The elements of a sequence of sequences, in order. */
  lemma TraverseTwo<A, B, E>(f: A -> Result<B, E>, x1: A, x2: A, y1: B, y2: B)
    requires f(x1) == Ok(y1) && f(x2) == Ok(y2)
    ensures Traverse(f, [x1, x2]) == Ok([y1, y2])
  {
    TraverseSnoc(f, [], x1);
    assert [] + [x1] == [x1];
    assert [] + [y1] == [y1];
    assert Traverse(f, [x1]) == Ok([y1]);
    TraverseSnoc(f, [x1], x2);
    assert [x1] + [x2] == [x1, x2];
    assert [y1] + [y2] == [y1, y2];
  }

  lemma TraverseThree<A, B, E>(f: A -> Result<B, E>, x1: A, x2: A, x3: A, y1: B, y2: B, y3: B)
    requires f(x1) == Ok(y1) && f(x2) == Ok(y2) && f(x3) == Ok(y3)
    ensures Traverse(f, [x1, x2, x3]) == Ok([y1, y2, y3])
  {
    TraverseTwo(f, x1, x2, y1, y2);
    TraverseSnoc(f, [x1, x2], x3);
    assert [x1, x2] + [x3] == [x1, x2, x3];
    assert [y1, y2] + [y3] == [y1, y2, y3];
  }

  function Flatten<T>(xss: seq<seq<T>>): (r: seq<T>)
  {
    if xss == [] then [] else Flatten(xss[..|xss| - 1]) + xss[|xss| - 1]
  }

  function SumOfLengths<T>(xss: seq<seq<T>>): nat
  {
    if xss == [] then 0 else SumOfLengths(xss[..|xss| - 1]) + |xss[|xss| - 1]|
  }

  lemma {:induction false} FlattenAppend<T>(xss: seq<seq<T>>, yss: seq<seq<T>>)
    ensures Flatten(xss + yss) == Flatten(xss) + Flatten(yss)
    decreases |yss|
  {
    if yss == [] {
      assert xss + yss == xss;
    } else {
      var init, last := yss[..|yss| - 1], yss[|yss| - 1];
      assert (xss + yss)[..|xss + yss| - 1] == xss + init;
      assert (xss + yss)[|xss + yss| - 1] == last;
      assert Flatten(xss + yss) == Flatten(xss + init) + last;
      FlattenAppend(xss, init);
      assert Flatten(yss) == Flatten(init) + last;
    }
  }

  /** No element is added or dropped: the flattened length is the sum of the lengths. */
  lemma {:induction false} FlattenLength<T>(xss: seq<seq<T>>)
    ensures |Flatten(xss)| == SumOfLengths(xss)
  {
    if xss != [] {
      FlattenLength(xss[..|xss| - 1]);
    }
  }
}
