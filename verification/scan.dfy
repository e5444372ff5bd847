/** Linear left-to-right search, the shape shared by every scan in the function table. */
module Scan {

  /** The first index at or after `from` whose element satisfies `p`, or -1 when there is none. */
  function FirstIndex<T>(s: seq<T>, p: T -> bool, from: nat): (r: int)
    requires from <= |s|
    ensures r == -1 <==> forall j :: from <= j < |s| ==> !p(s[j])
    ensures r != -1 ==> from <= r < |s| && p(s[r])
    ensures r != -1 ==> forall j :: from <= j < r ==> !p(s[j])
    decreases |s| - from
  {
    if from == |s| then -1
    else if p(s[from]) then from
    else FirstIndex(s, p, from + 1)
  }
}
