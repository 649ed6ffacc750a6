/** Positions in a sequence, used to say "these inputs, in input order". */
module Positions {

  ghost predicate StrictlyIncreasing(ix: seq<nat>)
  {
    forall k, l :: 0 <= k < l < |ix| ==> ix[k] < ix[l]
  }

  /** The positions below `n` at which `p` holds, in increasing order. */
  ghost function IndicesWhere(n: nat, p: nat -> bool): (ix: seq<nat>)
    ensures |ix| <= n
    ensures forall k :: 0 <= k < |ix| ==> ix[k] < n
    ensures StrictlyIncreasing(ix)
    ensures forall i :: 0 <= i < n ==> (i in ix <==> p(i))
  {
    if n == 0 then []
    else IndicesWhere(n - 1, p) + (if p(n - 1) then [n - 1] else [])
  }
}
