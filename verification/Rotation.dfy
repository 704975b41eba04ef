/** Going round a fixed number of places. */
module Rotation {
  /** The index `j` places after `start`, going round `n` places. */
  function Around(n: nat, start: nat, j: nat): (i: nat)
    requires start < n && j < n
    ensures i < n
  {
    if start + j < n then start + j else start + j - n
  }

  /** The place after `i`. */
  function After(n: nat, i: nat): nat
    requires i < n
  {
    if i + 1 == n then 0 else i + 1
  }

  lemma AfterIs(n: nat, i: nat)
    requires i < n
    ensures After(n, i) == (i + 1) % n
  {
  }
}
