/** The optional value used for operations that raise in the source (an unknown symbol). */
module Wrappers {
  datatype Option<+T> = None | Some(value: T)

  /** A list result with `xs` put in front; failure propagates. */
  function Prepend<T>(xs: seq<T>, r: Option<seq<T>>): (p: Option<seq<T>>)
    ensures p.Some? <==> r.Some?
    ensures p.Some? ==> p.value == xs + r.value
  {
    match r
    case None => None
    case Some(ys) => Some(xs + ys)
  }

  lemma PrependNil<T>(r: Option<seq<T>>)
    ensures Prepend([], r) == r
  {
    if r.Some? {
      assert [] + r.value == r.value;
    }
  }

  lemma PrependAssoc<T>(xs: seq<T>, ys: seq<T>, r: Option<seq<T>>)
    ensures Prepend(xs, Prepend(ys, r)) == Prepend(xs + ys, r)
  {
    if r.Some? {
      assert xs + (ys + r.value) == (xs + ys) + r.value;
    }
  }
}
