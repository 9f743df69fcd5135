/**
  A way to state a large invariant so that proofs see only its name.  A predicate written as
      forall y {:trigger Seen(y)} :: y == x && Seen(y) ==> Inv(y)
  is equal to Inv(x), but the solver unfolds it only where a proof says `assert Seen(x)`.  The methods that
  carry an invariant from step to step, and the proofs that only hand it on, then stay small; one lemma
  beside each such predicate looks inside.
*/
module Hiding {
  predicate Seen<T>(x: T) { true }
}
