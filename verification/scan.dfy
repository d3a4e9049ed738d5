/** "The first element, in order, for which a lookup succeeds": the shape of
    every early-return `for` loop in the core. */
module Scan {
  import opened Wrappers

  /** f applied to the elements of xs in order; the first Some wins. */
  function FirstSome<T, U>(xs: seq<T>, f: T -> Option<U>): (r: Option<U>)
    ensures r.None? <==> forall i | 0 <= i < |xs| :: f(xs[i]).None?
    ensures r.Some? ==> exists i | 0 <= i < |xs| ::
              f(xs[i]) == r && forall k | 0 <= k < i :: f(xs[k]).None?
  {
    if xs == [] then None
    else if f(xs[0]).Some? then f(xs[0])
    else
      var r := FirstSome(xs[1..], f);
      assert forall i | 1 <= i < |xs| :: xs[1..][i - 1] == xs[i];
      r
  }

  /** The hit at index i is the result when nothing before i hits. */
  lemma FirstSomeAt<T, U>(xs: seq<T>, f: T -> Option<U>, i: nat)
    requires i < |xs| && f(xs[i]).Some?
    requires forall k | 0 <= k < i :: f(xs[k]).None?
    ensures FirstSome(xs, f) == f(xs[i])
  {
    var r := FirstSome(xs, f);
    var j :| 0 <= j < |xs| && f(xs[j]) == r && forall k | 0 <= k < j :: f(xs[k]).None?;
  }
}
