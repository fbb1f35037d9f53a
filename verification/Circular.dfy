/** Positions in a ring of `n` places. */
module Circular {

  /** A position at most once around. */
  function Wrap(i: nat, n: nat): nat {
    if i < n then i else i - n
  }

  lemma WrapIsRemainder(i: nat, n: nat)
    requires i < n
    ensures (i + 1) % n == Wrap(i + 1, n)
  {
    if i + 1 < n {
    } else {
      assert n % n == 0;
    }
  }

  /** How many steps lead from `from` to `pos`. */
  function Distance(n: nat, from: nat, pos: nat): nat
    requires from < n && pos < n
  {
    if pos >= from then pos - from else pos + n - from
  }

  lemma DistanceIsRemainder(n: nat, from: nat, pos: nat)
    requires from < n && pos < n
    ensures Distance(n, from, pos) == (pos + n - from) % n
  {
    if pos >= from {
      assert (pos - from + n) % n == pos - from;
    }
  }
}
