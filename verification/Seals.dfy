/**
 * How many steps of recursion a sealed predicate is behind. A sealed predicate is equal to what it
 * seals, by a lemma that breaks the seal; a proof that only hands it on never looks inside.
 */
module Seals {
  const SEAL: nat := 4
}
