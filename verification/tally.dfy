/**
 * Counting the elements of a sequence that meet a condition: the shape of
 * every error counter in the harness, where each failing command adds one.
 */
module Tally {

  /** How many elements of `xs` satisfy `p`. */
  function CountWhere<T>(xs: seq<T>, p: T -> bool): (n: nat)
    ensures n <= |xs|
    decreases |xs|
  {
    if |xs| == 0 then 0 else (if p(xs[0]) then 1 else 0) + CountWhere(xs[1..], p)
  }

  /** The positions of `xs` whose element satisfies `p`. */
  function Positions<T>(xs: seq<T>, p: T -> bool): set<nat>
  {
    set i: nat | i < |xs| && p(xs[i])
  }

  /** Counting over `a + b` is counting over `a`, then over `b`. */
  lemma {:induction false} CountWhereAppend<T>(a: seq<T>, b: seq<T>, p: T -> bool)
    ensures CountWhere(a + b, p) == CountWhere(a, p) + CountWhere(b, p)
    decreases |a|
  {
    if |a| == 0 {
      assert a + b == b;
    } else {
      assert (a + b)[0] == a[0];
      assert (a + b)[1..] == a[1..] + b;
      CountWhereAppend(a[1..], b, p);
    }
  }

  /** The count is the number of positions whose element satisfies `p`. */
  lemma {:induction false} CountWherePositions<T>(xs: seq<T>, p: T -> bool)
    ensures CountWhere(xs, p) == |Positions(xs, p)|
    decreases |xs|
  {
    if |xs| > 0 {
      var init := xs[..|xs| - 1];
      var last := xs[|xs| - 1];
      assert xs == init + [last];
      CountWherePositions(init, p);
      CountWhereAppend(init, [last], p);
      assert CountWhere([last], p) == if p(last) then 1 else 0 by {
        assert [last][1..] == [];
      }
      var here: set<nat> := if p(last) then {|xs| - 1} else {};
      assert Positions(xs, p) == Positions(init, p) + here by {
        forall i: nat | i < |xs| - 1 ensures xs[i] == init[i] { }
      }
      assert |xs| - 1 !in Positions(init, p);
    }
  }

  /** Nothing is counted exactly when no element satisfies `p`. */
  lemma {:induction false} CountWhereZero<T>(xs: seq<T>, p: T -> bool)
    ensures CountWhere(xs, p) == 0 <==> forall i :: 0 <= i < |xs| ==> !p(xs[i])
    decreases |xs|
  {
    if |xs| > 0 {
      CountWhereZero(xs[1..], p);
      assert forall i :: 1 <= i < |xs| ==> xs[i] == xs[1..][i - 1];
    }
  }
}
