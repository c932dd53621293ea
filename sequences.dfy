/** List helpers shared by the range-proof wrappers and the conversions. */
module Sequences {

  /** `iter().map(f).collect()`: `f` applied to every element, in order. */
  function MapSeq<T, W>(f: T -> W, xs: seq<T>): (ws: seq<W>)
    ensures |ws| == |xs|
    ensures forall i :: 0 <= i < |xs| ==> ws[i] == f(xs[i])
  {
    seq(|xs|, i requires 0 <= i < |xs| => f(xs[i]))
  }
}
