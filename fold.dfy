/** The shape shared by the reducers' loops: a step applied to each element in
    turn, where any step may raise and so end the whole loop. */
module Folds {
  import opened Wrappers

  /** `step` applied to each element of `xs` in order, starting from `init`;
      the first error is the result. */
  function Fold<T, S>(step: (S, T) -> Result<S>, init: S, xs: seq<T>): Result<S> {
    if xs == [] then Ok(init)
    else
      match Fold(step, init, xs[..|xs| - 1])
      case Err(e) => Err(e)
      case Ok(acc) => step(acc, xs[|xs| - 1])
  }

  lemma FoldSnoc<T, S>(step: (S, T) -> Result<S>, init: S, xs: seq<T>, x: T)
    ensures Fold(step, init, xs + [x]) ==
      match Fold(step, init, xs)
      case Err(e) => Err(e)
      case Ok(acc) => step(acc, x)
  {
    assert (xs + [x])[..|xs|] == xs;
  }

  /** One more element of `xs`, as a loop over its indices takes it. */
  lemma FoldPrefix<T, S>(step: (S, T) -> Result<S>, init: S, xs: seq<T>, k: int)
    requires 0 <= k < |xs|
    ensures Fold(step, init, xs[..k + 1]) ==
      match Fold(step, init, xs[..k])
      case Err(e) => Err(e)
      case Ok(acc) => step(acc, xs[k])
  {
    assert xs[..k + 1][..k] == xs[..k];
  }

  /** A loop over the indices of `xs` that raises at index `k` ends with the
      result of the whole fold. */
  lemma FoldStopsAt<T, S>(step: (S, T) -> Result<S>, init: S, xs: seq<T>, k: int)
    requires 0 <= k < |xs| && Fold(step, init, xs[..k + 1]).Err?
    ensures Fold(step, init, xs) == Fold(step, init, xs[..k + 1])
  {
    FoldErr(step, init, xs[..k + 1], xs);
  }

  /** An error ends the loop: every longer run of elements ends in that same
      error, whatever follows. */
  lemma {:induction false} FoldErr<T, S>(step: (S, T) -> Result<S>, init: S, xs: seq<T>, ys: seq<T>)
    requires xs <= ys && Fold(step, init, xs).Err?
    ensures Fold(step, init, ys) == Fold(step, init, xs)
  {
    if |ys| > |xs| {
      assert xs <= ys[..|ys| - 1];
      FoldErr(step, init, xs, ys[..|ys| - 1]);
    } else {
      assert xs == ys;
    }
  }

  /** One element of a `map` or list comprehension: `f` of the element is
      appended, unless it raises. */
  function MapStep<T, U>(f: T -> Result<U>): (seq<U>, T) -> Result<seq<U>> {
    (acc: seq<U>, x: T) =>
      match f(x)
      case Err(e) => Err(e)
      case Ok(y) => Ok(acc + [y])
  }

  /** `list(map(f, xs))`, where the first element `f` raises on ends it. */
  function MapAll<T, U>(f: T -> Result<U>, xs: seq<T>): Result<seq<U>> {
    Fold(MapStep(f), [], xs)
  }

  lemma MapAllSnoc<T, U>(f: T -> Result<U>, xs: seq<T>, x: T)
    ensures MapAll(f, xs + [x]) ==
      if MapAll(f, xs).Err? then MapAll(f, xs)
      else if f(x).Err? then Err(f(x).error)
      else Ok(MapAll(f, xs).value + [f(x).value])
  {
    FoldSnoc(MapStep(f), [], xs, x);
  }

  /** A map succeeds exactly when `f` succeeds on every element, and then
      keeps length and order. */
  lemma {:induction false} MapAllOk<T, U>(f: T -> Result<U>, xs: seq<T>)
    ensures MapAll(f, xs).Ok? <==> forall i | 0 <= i < |xs| :: f(xs[i]).Ok?
    ensures MapAll(f, xs).Ok? ==>
      && |MapAll(f, xs).value| == |xs|
      && forall i | 0 <= i < |xs| :: MapAll(f, xs).value[i] == f(xs[i]).value
  {
    if xs != [] {
      var p, x := xs[..|xs| - 1], xs[|xs| - 1];
      MapAllOk(f, p);
      MapAllSnoc(f, p, x);
      assert xs == p + [x];
      assert forall i | 0 <= i < |p| :: xs[i] == p[i];
      if MapAll(f, p).Ok? && f(x).Ok? {
        var v := MapAll(f, p).value + [f(x).value];
        assert MapAll(f, xs) == Ok(v);
        assert |v| == |xs|;
        forall i | 0 <= i < |xs|
          ensures v[i] == f(xs[i]).value
        {
          if i < |p| {
            assert v[i] == MapAll(f, p).value[i];
          }
        }
      } else if MapAll(f, p).Err? {
        var i :| 0 <= i < |p| && !f(p[i]).Ok?;
        assert !f(xs[i]).Ok?;
        assert MapAll(f, xs).Err?;
      } else {
        assert !f(xs[|xs| - 1]).Ok?;
        assert MapAll(f, xs).Err?;
      }
    } else {
      assert MapAll(f, xs) == Ok([]);
    }
  }

  /** A map that fails fails with the error `f` raises on some element. */
  lemma {:induction false} MapAllErr<T, U>(f: T -> Result<U>, xs: seq<T>)
    requires MapAll(f, xs).Err?
    ensures exists i | 0 <= i < |xs| :: f(xs[i]) == Err(MapAll(f, xs).error)
  {
    var p, x := xs[..|xs| - 1], xs[|xs| - 1];
    MapAllSnoc(f, p, x);
    assert xs == p + [x];
    if MapAll(f, p).Err? {
      MapAllErr(f, p);
      var i :| 0 <= i < |p| && f(p[i]) == Err(MapAll(f, p).error);
      assert xs[i] == p[i];
    } else {
      assert f(xs[|xs| - 1]) == Err(MapAll(f, xs).error);
    }
  }

  /** A map over elements on which `f` raises only `e` fails, if at all, with `e`. */
  lemma MapAllOnly<T, U>(f: T -> Result<U>, xs: seq<T>, e: Exception)
    requires forall i | 0 <= i < |xs| :: f(xs[i]).Ok? || f(xs[i]) == Err(e)
    ensures MapAll(f, xs).Err? ==> MapAll(f, xs).error == e
  {
    if MapAll(f, xs).Err? {
      MapAllErr(f, xs);
    }
  }
}
