/** Places on a circle of n. */
module Circles {
  function Succ(i: nat, n: nat): (j: nat)
    requires i < n
    ensures j < n
  {
    if i + 1 == n then 0 else i + 1
  }

  function Pred(i: nat, n: nat): (j: nat)
    requires i < n
    ensures j < n
  {
    if i == 0 then n - 1 else i - 1
  }

  /** The index d places after i on a circle of n. */
  function At(i: nat, d: nat, n: nat): (j: nat)
    requires i < n && d <= n
    ensures j < n
  {
    if i + d < n then i + d else i + d - n
  }
}
