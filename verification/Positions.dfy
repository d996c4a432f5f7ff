/** Positions that go round a ring of `cap` places. */
module Positions {

  function Wrap(x: nat, cap: nat): nat {
    if x < cap then x else x - cap
  }

  lemma WrapIsMod(x: nat, cap: nat)
    requires 1 <= cap && x < 2 * cap
    ensures x % cap == Wrap(x, cap)
  {
    if x < cap {
      SmallMod(x, cap);
    } else {
      SmallMod(x - cap, cap);
      assert x / cap == 1 by { QuotientOne(x, cap); }
    }
  }

  lemma SmallMod(x: nat, cap: nat)
    requires x < cap
    ensures x % cap == x
  {}

  lemma QuotientOne(x: nat, cap: nat)
    requires 1 <= cap <= x < 2 * cap
    ensures x / cap == 1 && x % cap == x - cap
  {}

  /** How many cells `to` lies ahead of `from`, going round the ring. */
  function Ahead(cap: nat, from: nat, to: nat): nat
    requires from < cap && to < cap
  {
    if to >= from then to - from else to + cap - from
  }

  /** A non-zero multiple of `cap` is at least `cap` away from zero. */
  lemma Multiples(d: int, cap: nat)
    ensures d >= 1 ==> d * cap >= cap
    ensures d <= -1 ==> d * cap + cap <= 0
  {
    if d >= 1 {
      assert d * cap == (d - 1) * cap + cap && (d - 1) * cap >= 0;
    } else if d <= -1 {
      assert d * cap == (d + 1) * cap - cap && (d + 1) * cap <= 0;
    }
  }
}
