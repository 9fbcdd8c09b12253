/** Sequence folds used to state the line-by-line and entry-by-entry scans of the command. */
module Seqs {

  /** The concatenation of `f(x)` over `xs`, in order. */
  function FlatMap<A, B>(f: A -> seq<B>, xs: seq<A>): seq<B>
  {
    if |xs| == 0 then [] else FlatMap(f, xs[..|xs| - 1]) + f(xs[|xs| - 1])
  }

  lemma {:induction false} FlatMapAppend<A, B>(f: A -> seq<B>, a: seq<A>, b: seq<A>)
    ensures FlatMap(f, a + b) == FlatMap(f, a) + FlatMap(f, b)
    decreases |b|
  {
    if |b| == 0 {
      assert a + b == a;
    } else {
      assert (a + b)[..|a + b| - 1] == a + b[..|b| - 1];
      FlatMapAppend(f, a, b[..|b| - 1]);
    }
  }

  /** The element at position `i` contributes `f(xs[i])` between the contributions of the others. */
  lemma {:induction false} FlatMapAt<A, B>(f: A -> seq<B>, xs: seq<A>, i: nat)
    requires i < |xs|
    ensures FlatMap(f, xs) == FlatMap(f, xs[..i]) + f(xs[i]) + FlatMap(f, xs[i + 1..])
  {
    var init := xs[..i] + [xs[i]];
    assert xs == init + xs[i + 1..];
    FlatMapAppend(f, init, xs[i + 1..]);
    assert init[..|init| - 1] == xs[..i];
    assert FlatMap(f, init) == FlatMap(f, xs[..i]) + f(xs[i]);
  }

  /** Every element of the result comes from the contribution of some element of `xs`. */
  lemma {:induction false} FlatMapMember<A, B>(f: A -> seq<B>, xs: seq<A>, y: B)
    requires y in FlatMap(f, xs)
    ensures exists i :: 0 <= i < |xs| && y in f(xs[i])
  {
    var init := xs[..|xs| - 1];
    if y in FlatMap(f, init) {
      FlatMapMember(f, init, y);
      var i :| 0 <= i < |init| && y in f(init[i]);
      assert xs[i] == init[i];
    } else {
      assert y in f(xs[|xs| - 1]);
    }
  }
}
