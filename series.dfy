/** Sequence helpers shared by the event-detection modules: a wrapper for
    missing values (NaN / NaT), ordering predicates, and the array reductions
    and boolean-mask selection that the detectors take from numpy and xarray. */
module Series {

  /** A value that may be missing: a NaN sample or a NaT date. */
  datatype Option<+T> = None | Some(value: T)

  predicate StrictlyIncreasing(s: seq<int>) {
    forall i, j :: 0 <= i < j < |s| ==> s[i] < s[j]
  }

  /** Putting a value below every element in front keeps a sequence strictly increasing. */
  lemma PrependIncreasing(a: int, rest: seq<int>)
    requires StrictlyIncreasing(rest) && forall y :: y in rest ==> a < y
    ensures StrictlyIncreasing([a] + rest)
  {
    var r := [a] + rest;
    forall i, j | 0 <= i < j < |r| ensures r[i] < r[j] {
      if i == 0 {
        assert r[j] == rest[j - 1] && rest[j - 1] in rest;
      } else {
        assert r[i] == rest[i - 1] && r[j] == rest[j - 1];
      }
    }
  }

  /** The minimum of a non-empty array (numpy's `min`). */
  function SeqMin(s: seq<real>): (m: real)
    requires |s| > 0
    ensures m in s
    ensures forall x :: x in s ==> m <= x
  {
    if |s| == 1 then s[0]
    else
      var rest := SeqMin(s[1..]);
      assert s == [s[0]] + s[1..];
      if s[0] <= rest then s[0] else rest
  }

  /** The maximum of a non-empty array (numpy's `max`). */
  function SeqMax(s: seq<real>): (m: real)
    requires |s| > 0
    ensures m in s
    ensures forall x :: x in s ==> x <= m
  {
    if |s| == 1 then s[0]
    else
      var rest := SeqMax(s[1..]);
      assert s == [s[0]] + s[1..];
      if s[0] >= rest then s[0] else rest
  }

  /** The indices at which a boolean mask is true, in increasing order. */
  function Positions(mask: seq<bool>): (pos: seq<nat>)
    ensures forall p :: 0 <= p < |pos| ==> pos[p] < |mask| && mask[pos[p]]
    ensures forall p, q :: 0 <= p < q < |pos| ==> pos[p] < pos[q]
    ensures forall i :: 0 <= i < |mask| && mask[i] ==> i in pos
    ensures |pos| <= |mask|
  {
    if |mask| == 0 then []
    else
      var front := Positions(mask[..|mask| - 1]);
      front + (if mask[|mask| - 1] then [|mask| - 1] else [])
  }

  /** The mask has a true entry exactly when it selects some position. */
  lemma PositionsEmpty(mask: seq<bool>)
    ensures Positions(mask) == [] <==> true !in mask
  {
    var pos := Positions(mask);
    if |pos| > 0 {
      assert mask[pos[0]];
    }
    if true in mask {
      var i :| 0 <= i < |mask| && mask[i];
      assert i in pos;
    }
  }

  /** Boolean-mask selection, `xs[mask]` in numpy or `isel` in xarray:
      the elements of xs at the positions where mask is true, in order. */
  function Select<T>(xs: seq<T>, mask: seq<bool>): (r: seq<T>)
    requires |xs| == |mask|
    ensures |r| == |Positions(mask)|
    ensures forall p :: 0 <= p < |r| ==> r[p] == xs[Positions(mask)[p]]
  {
    var pos := Positions(mask);
    seq(|pos|, p requires 0 <= p < |pos| => xs[pos[p]])
  }

  /** An element is selected exactly when it sits at a position where the mask is true. */
  lemma SelectMembership<T>(xs: seq<T>, mask: seq<bool>, x: T)
    requires |xs| == |mask|
    ensures x in Select(xs, mask) <==> exists i :: 0 <= i < |xs| && mask[i] && xs[i] == x
  {
    var r, pos := Select(xs, mask), Positions(mask);
    if x in r {
      var p :| 0 <= p < |r| && r[p] == x;
      assert mask[pos[p]] && xs[pos[p]] == x;
    }
    if i :| 0 <= i < |xs| && mask[i] && xs[i] == x {
      var p :| 0 <= p < |pos| && pos[p] == i;
      assert r[p] == x;
    }
  }

  /** Selecting from a strictly increasing sequence keeps it strictly increasing. */
  lemma SelectIncreasing(xs: seq<int>, mask: seq<bool>)
    requires |xs| == |mask| && StrictlyIncreasing(xs)
    ensures StrictlyIncreasing(Select(xs, mask))
  {
    var r, pos := Select(xs, mask), Positions(mask);
    forall p, q | 0 <= p < q < |r| ensures r[p] < r[q] {
      assert pos[p] < pos[q];
    }
  }

  /** An all-true mask selects everything. */
  lemma {:induction false} PositionsAllTrue(mask: seq<bool>)
    requires forall i :: 0 <= i < |mask| ==> mask[i]
    ensures Positions(mask) == seq(|mask|, i requires 0 <= i < |mask| => i)
  {
    if |mask| > 0 {
      PositionsAllTrue(mask[..|mask| - 1]);
    }
  }

  lemma SelectAllTrue<T>(xs: seq<T>, mask: seq<bool>)
    requires |xs| == |mask|
    requires forall i :: 0 <= i < |mask| ==> mask[i]
    ensures Select(xs, mask) == xs
  {
    PositionsAllTrue(mask);
  }
}
