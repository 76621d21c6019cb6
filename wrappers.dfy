/** The optional value used wherever the system may have nothing to return:
    a missing file, a failed command, a recording that produced no clip. */
module Wrappers {

  datatype Option<+T> = None | Some(value: T)

  /** The values present in `xs`, in order. */
  function Values<T>(xs: seq<Option<T>>): seq<T> {
    if xs == [] then []
    else
      var last := xs[|xs| - 1];
      Values(xs[..|xs| - 1]) + (if last.Some? then [last.value] else [])
  }

  /** `v` is among the values exactly when `Some(v)` is in `xs`, and there
      are never more values than options. */
  lemma {:induction false} ValuesIff<T>(xs: seq<Option<T>>, v: T)
    ensures |Values(xs)| <= |xs|
    ensures v in Values(xs) <==> Some(v) in xs
  {
    if xs != [] {
      var init := xs[..|xs| - 1];
      ValuesIff(init, v);
      assert xs == init + [xs[|xs| - 1]];
    }
  }

  /** All results of `f` on `xs`, in order, or `None` as soon as one of them
      is `None`. */
  function Collect<A, B>(xs: seq<A>, f: A -> Option<B>): Option<seq<B>> {
    if xs == [] then Some([])
    else
      match Collect(xs[..|xs| - 1], f)
      case None => None
      case Some(bs) =>
        match f(xs[|xs| - 1])
        case None => None
        case Some(b) => Some(bs + [b])
  }

  /** Collecting one more element. */
  lemma CollectStep<A, B>(xs: seq<A>, x: A, f: A -> Option<B>)
    ensures Collect(xs, f).None? || f(x).None? ==> Collect(xs + [x], f).None?
    ensures Collect(xs, f).Some? && f(x).Some? ==> Collect(xs + [x], f) == Some(Collect(xs, f).value + [f(x).value])
  {
    assert (xs + [x])[..|xs|] == xs;
  }

  /** Once collecting has failed, it fails whatever follows. */
  lemma {:induction false} CollectFailed<A, B>(a: seq<A>, b: seq<A>, f: A -> Option<B>)
    requires Collect(a, f).None?
    ensures Collect(a + b, f).None?
    decreases |b|
  {
    if b != [] {
      var init := b[..|b| - 1];
      assert a + b == (a + init) + [b[|b| - 1]];
      CollectFailed(a, init, f);
      CollectStep(a + init, b[|b| - 1], f);
    } else {
      assert a + b == a;
    }
  }

  /** Collecting fails exactly when `f` fails on some element; otherwise it
      yields `f`'s value for every element, in order. */
  lemma {:induction false} CollectIff<A, B>(xs: seq<A>, f: A -> Option<B>)
    ensures Collect(xs, f).None? <==> exists k :: 0 <= k < |xs| && f(xs[k]).None?
    ensures Collect(xs, f).Some? ==>
      |Collect(xs, f).value| == |xs| && forall k :: 0 <= k < |xs| ==> f(xs[k]) == Some(Collect(xs, f).value[k])
  {
    if xs != [] {
      var init, last := xs[..|xs| - 1], xs[|xs| - 1];
      CollectIff(init, f);
      assert xs == init + [last];
      CollectStep(init, last, f);
      assert forall k :: 0 <= k < |init| ==> xs[k] == init[k];
    }
  }
}
