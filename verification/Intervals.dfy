/** Half-open intervals of addresses or sectors, as sets. */
module Intervals {
  predicate InRange(k: nat, first: nat, end: nat) { first <= k < end }

  function Between(first: nat, end: nat): (s: set<nat>)
    ensures forall k :: k in s <==> InRange(k, first, end)
  {
    set k: nat | first <= k < end && InRange(k, first, end)
  }
}
