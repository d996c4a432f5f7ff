/** Runs of one action over and over. */
module Repeats {

  /** The same action `n` times. */
  function Repeat<A>(a: A, n: nat): (s: seq<A>)
    ensures |s| == n
  {
    seq(n, _ => a)
  }

  lemma RepeatFront<A>(a: A, n: nat)
    requires n > 0
    ensures Repeat(a, n)[1..] == Repeat(a, n - 1) && Repeat(a, n)[0] == a
  {}
}
