/** Counting the positions of a sequence whose element satisfies a test:
    the independent reference that tallies and filters are compared with. */
module Counting {

  /** The positions of `xs` whose element satisfies `p`. */
  ghost function Positions<T>(xs: seq<T>, p: T -> bool): set<nat>
  {
    set i: nat | i < |xs| && p(xs[i])
  }

  /** Appending one element adds its position exactly when it passes. */
  lemma PositionsSnoc<T>(xs: seq<T>, x: T, p: T -> bool)
    ensures |Positions(xs + [x], p)| == |Positions(xs, p)| + (if p(x) then 1 else 0)
  {
    var before := Positions(xs, p);
    var after := Positions(xs + [x], p);
    if p(x) {
      assert after == before + {|xs|};
      assert |xs| !in before;
    } else {
      assert after == before;
    }
  }
}
