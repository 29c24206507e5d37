/**
 * The loop shape shared by the Python scripts: visit the elements in order,
 * collect what each one gives, and let the first one that raises end the
 * whole loop with its error.
 */
module Loops {
  import opened Wrappers

  /** The results of `f` on the elements in order, or the first error `f` raises. */
  function Collect<T, U, E>(xs: seq<T>, f: T -> Result<U, E>): Result<seq<U>, E>
    decreases |xs|
  {
    if xs == [] then Ok([])
    else
      match Collect(xs[..|xs| - 1], f)
      case Err(e) => Err(e)
      case Ok(ys) =>
        match f(xs[|xs| - 1])
        case Err(e) => Err(e)
        case Ok(y) => Ok(ys + [y])
  }

  /** One more element that goes through extends the results by its own. */
  lemma CollectNext<T, U, E>(xs: seq<T>, i: nat, f: T -> Result<U, E>, ys: seq<U>)
    requires i < |xs| && Collect(xs[..i], f) == Ok(ys) && f(xs[i]).Ok?
    ensures Collect(xs[..i + 1], f) == Ok(ys + [f(xs[i]).value])
  {
    assert xs[..i + 1][..i] == xs[..i];
  }

  /** The loop raises what `f` raised on an element when the elements before it went through. */
  lemma CollectFails<T, U, E>(xs: seq<T>, i: nat, f: T -> Result<U, E>)
    requires i < |xs| && Collect(xs[..i], f).Ok? && f(xs[i]).Err?
    ensures Collect(xs[..i + 1], f) == Err(f(xs[i]).error)
  {
    assert xs[..i + 1][..i] == xs[..i];
  }

  /** Once an element has raised, the later elements change nothing. */
  lemma {:induction false} ErrorStays<T, U, E>(xs: seq<T>, i: nat, f: T -> Result<U, E>)
    requires i <= |xs| && Collect(xs[..i], f).Err?
    ensures Collect(xs, f) == Collect(xs[..i], f)
    decreases |xs| - i
  {
    if i < |xs| {
      assert xs[..i + 1][..i] == xs[..i];
      ErrorStays(xs, i + 1, f);
    } else {
      assert xs[..i] == xs;
    }
  }

  /**
   * The loop yields one result per element, in order, each what `f` gives
   * for its own element; and it raises exactly when `f` raises on some
   * element.
   */
  lemma {:induction false} OnePerElement<T, U, E>(xs: seq<T>, f: T -> Result<U, E>)
    ensures Collect(xs, f).Ok? <==> forall i :: 0 <= i < |xs| ==> f(xs[i]).Ok?
    ensures Collect(xs, f).Ok? ==>
      && |Collect(xs, f).value| == |xs|
      && forall i :: 0 <= i < |xs| ==> f(xs[i]) == Ok(Collect(xs, f).value[i])
    decreases |xs|
  {
    if xs != [] {
      var n := |xs| - 1;
      var init := xs[..n];
      OnePerElement(init, f);
      assert forall i :: 0 <= i < n ==> xs[i] == init[i];
    }
  }

  /**
   * Elements are visited independently: the results of two runs of elements
   * are those of the first run followed by those of the second, and an
   * element that raises in either run makes the whole loop raise.
   */
  lemma {:induction false} CollectAppend<T, U, E>(a: seq<T>, b: seq<T>, f: T -> Result<U, E>)
    ensures Collect(a, f).Ok? && Collect(b, f).Ok? ==>
      Collect(a + b, f) == Ok(Collect(a, f).value + Collect(b, f).value)
    ensures Collect(a, f).Err? || Collect(b, f).Err? ==> Collect(a + b, f).Err?
    decreases |b|
  {
    if b == [] {
      assert a + b == a;
      if Collect(a, f).Ok? {
        assert Collect(a, f).value + [] == Collect(a, f).value;
      }
    } else {
      var n := |b| - 1;
      assert (a + b)[..|a + b| - 1] == a + b[..n];
      assert (a + b)[|a + b| - 1] == b[n];
      CollectAppend(a, b[..n], f);
      if Collect(a, f).Ok? && Collect(b, f).Ok? {
        var ra, rb := Collect(a, f).value, Collect(b[..n], f).value;
        assert ra + rb + [f(b[n]).value] == ra + (rb + [f(b[n]).value]);
      }
    }
  }

  /** The values that are present, in order: what `if result: results.append(result)` keeps. */
  function Present<T>(xs: seq<Option<T>>): (r: seq<T>)
    ensures |r| <= |xs|
    decreases |xs|
  {
    if xs == [] then []
    else
      var n := |xs| - 1;
      Present(xs[..n]) + (if xs[n].Some? then [xs[n].value] else [])
  }

  /** A value is kept exactly when it is present among the options. */
  lemma {:induction false} PresentMembers<T>(xs: seq<Option<T>>)
    ensures forall v :: v in Present(xs) <==> Some(v) in xs
    decreases |xs|
  {
    if xs != [] {
      var n := |xs| - 1;
      PresentMembers(xs[..n]);
      assert xs == xs[..n] + [xs[n]];
    }
  }

  /** One more option adds its value when it is present. */
  lemma PresentNext<T>(xs: seq<Option<T>>, x: Option<T>)
    ensures Present(xs + [x]) == Present(xs) + (if x.Some? then [x.value] else [])
  {
    assert (xs + [x])[..|xs|] == xs;
  }

  /** Keeping the present values distributes over concatenation. */
  lemma {:induction false} PresentAppend<T>(a: seq<Option<T>>, b: seq<Option<T>>)
    ensures Present(a + b) == Present(a) + Present(b)
    decreases |b|
  {
    if b == [] {
      assert a + b == a;
    } else {
      var n := |b| - 1;
      assert (a + b)[..|a + b| - 1] == a + b[..n];
      assert (a + b)[|a + b| - 1] == b[n];
      PresentAppend(a, b[..n]);
    }
  }
}
