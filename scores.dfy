/** Exact scores of the gomoku engine.

    The evaluator's values are sums of products of the multiplier 1 or -0.5 with
    small integers, or plus/minus infinity. A finite score is therefore stored as
    twice its value, which is always an integer, and the two infinities are
    separate constructors. The order is the order of the extended reals. */
module Scores {

  datatype Score = NegInf | Finite(twice: int) | PosInf {

    /** this <= other */
    predicate Le(other: Score) {
      match (this, other)
      case (NegInf, _) => true
      case (_, PosInf) => true
      case (Finite(a), Finite(b)) => a <= b
      case _ => false
    }

    /** this < other */
    predicate Lt(other: Score) {
      !other.Le(this)
    }
  }

  /** The value the search keeps after `if v1 > v: v = v1`. */
  function Max(v: Score, v1: Score): (r: Score)
    ensures v.Le(r) && v1.Le(r)
    ensures r == v || r == v1
  {
    if v.Lt(v1) then v1 else v
  }

  /** The value the search keeps after `if v1 < v: v = v1`. */
  function Min(v: Score, v1: Score): (r: Score)
    ensures r.Le(v) && r.Le(v1)
    ensures r == v || r == v1
  {
    if v1.Lt(v) then v1 else v
  }

  /** x forced into the window [lo, hi]. */
  function Clamp(x: Score, lo: Score, hi: Score): (r: Score)
    requires lo.Le(hi)
    ensures lo.Le(r) && r.Le(hi)
    ensures lo.Le(x) && x.Le(hi) ==> r == x
    ensures x.Le(lo) ==> r == lo
    ensures hi.Le(x) ==> r == hi
  {
    Min(Max(lo, x), hi)
  }

  lemma LeTransitive(a: Score, b: Score, c: Score)
    requires a.Le(b) && b.Le(c)
    ensures a.Le(c)
  {
  }

  lemma LeTotal(a: Score, b: Score)
    ensures a.Le(b) || b.Le(a)
    ensures a.Le(b) && b.Le(a) ==> a == b
  {
  }
}
