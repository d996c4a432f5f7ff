/** `ConnectionPool::get` and `LoadBalancer::next_backend`: a shared 64-bit ticket counter, reduced
    modulo the list length. */
module RoundRobin {
  import opened LittleEndian
  import opened Positions

  class ConnectionPool<T> {
    const connections: seq<T>
    var current: nat
    /** Tickets drawn since the pool was created. */
    ghost var tickets: nat

    ghost predicate Valid()
      reads this
    {
      |connections| > 0 && current == tickets % U64
    }

    /** An empty list makes the source panic on the first `get`. */
    constructor (items: seq<T>)
      requires |items| > 0
      ensures Valid() && connections == items && tickets == 0
    {
      connections := items;
      current, tickets := 0, 0;
    }

    method Get() returns (r: T)
      requires Valid()
      modifies this
      ensures Valid() && tickets == old(tickets) + 1
      ensures r == connections[Slot(|connections|, old(tickets))]
    {
      var ticket := current;
      current := (current + 1) % U64;
      tickets := tickets + 1;
      r := connections[ticket % |connections|];
    }
  }

  /** The entry that ticket number `t` selects. */
  function Slot(n: nat, t: nat): (k: nat)
    requires n > 0
    ensures k < n
  {
    (t % U64) % n
  }

  /** The entries that the `len` tickets from `t` on select. Interleaving of callers permutes who
      gets which ticket, never the tickets themselves. */
  function Slots(n: nat, t: nat, len: nat): (s: seq<nat>)
    requires n > 0
    ensures |s| == len
  {
    seq<nat>(len, i requires 0 <= i < len => Slot(n, t + i))
  }

  function Occurrences(s: seq<nat>, k: nat): nat {
    if s == [] then 0 else Occurrences(s[..|s| - 1], k) + if s[|s| - 1] == k then 1 else 0
  }

  /** How often entry `k` is selected by the `len` tickets from `t` on. */
  function Chosen(n: nat, t: nat, len: nat, k: nat): nat
    requires n > 0
  {
    Occurrences(Slots(n, t, len), k)
  }

  // ---------- slots advance by one ----------

  lemma {:induction false} TimesGrows(n: nat, a: nat, b: nat)
    requires a <= b
    ensures n * a <= n * b
    decreases b
  {
    if a < b {
      TimesGrows(n, a, b - 1);
      assert n * b == n * (b - 1) + n;
    }
  }

  lemma QuotientUnique(n: nat, q: nat, r: nat, q': nat, r': nat)
    requires r < n && r' < n && n * q + r == n * q' + r'
    ensures q == q' && r == r'
  {
    assert n * (q + 1) == n * q + n && n * (q' + 1) == n * q' + n;
    if q < q' {
      TimesGrows(n, q + 1, q');
    } else if q' < q {
      TimesGrows(n, q' + 1, q);
    }
  }

  lemma RemainderIs(x: nat, n: nat, q: nat, r: nat)
    requires r < n && x == n * q + r
    ensures x % n == r
  {
    QuotientUnique(n, q, r, x / n, x % n);
  }

  lemma RemainderOfNext(x: nat, n: nat)
    requires n > 0
    ensures (x + 1) % n == if x % n + 1 == n then 0 else x % n + 1
  {
    var q, r := x / n, x % n;
    if r + 1 == n {
      assert x + 1 == n * (q + 1) + 0;
      RemainderIs(x + 1, n, q + 1, 0);
    } else {
      RemainderIs(x + 1, n, q, r + 1);
    }
  }

  /** The step from ticket `t` to the next one goes round the list, unless the counter wraps there
      and the list length does not divide 2^64. */
  lemma SlotOfNext(n: nat, t: nat)
    requires n > 0 && ((t + 1) % U64 != 0 || U64 % n == 0)
    ensures Slot(n, t + 1) == Wrap(Slot(n, t) + 1, n)
  {
    if (t + 1) % U64 == 0 {
      assert t % U64 == U64 - 1;
      RemainderOfNext(U64 - 1, n);
      RemainderIs(0, n, 0, 0);
    } else {
      assert (t + 1) % U64 == t % U64 + 1;
      RemainderOfNext(t % U64, n);
    }
  }

  // ---------- fairness ----------

  /** Complete turns through the list in `len` selections, and how far the next turn has got. */
  function Turns(n: nat, len: nat): (p: (nat, nat))
    requires n > 0
    ensures p.1 < n
  {
    if len == 0 then (0, 0)
    else
      var (turns, off) := Turns(n, len - 1);
      if off + 1 == n then (turns + 1, 0) else (turns, off + 1)
  }

  /** The window of `len` tickets from `t` does not cross the counter's wrap, or crossing does no harm. */
  predicate SmoothWindow(n: nat, t: nat, len: nat)
    requires n > 0
  {
    t % U64 + len <= U64 || U64 % n == 0
  }

  /** `s` goes round the entries 0..n one by one from `first` on. */
  ghost predicate Rotates(s: seq<nat>, n: nat, first: nat)
    requires n > 0
  {
    forall i :: 0 <= i < |s| ==> s[i] == Wrap(first + Turns(n, i).1, n)
  }

  lemma TicketInWindow(t: nat, i: nat)
    requires t % U64 + i < U64
    ensures (t + i) % U64 == t % U64 + i
  {}

  lemma {:induction false} SlotAlong(n: nat, t: nat, i: nat)
    requires n > 0 && SmoothWindow(n, t, i + 1)
    ensures Slot(n, t + i) == Wrap(Slot(n, t) + Turns(n, i).1, n)
  {
    if i > 0 {
      SlotAlong(n, t, i - 1);
      if U64 % n != 0 {
        TicketInWindow(t, i);
      }
      SlotOfNext(n, t + i - 1);
    }
  }

  lemma SlotsRotate(n: nat, t: nat, len: nat)
    requires n > 0 && SmoothWindow(n, t, len)
    ensures Rotates(Slots(n, t, len), n, Slot(n, t))
  {
    forall i | 0 <= i < len
      ensures Slots(n, t, len)[i] == Wrap(Slot(n, t) + Turns(n, i).1, n)
    {
      SlotAlong(n, t, i);
    }
  }

  /** Every entry occurs once per complete turn, and once more if the last turn reached it. */
  lemma {:induction false} OccurrencesByTurns(s: seq<nat>, n: nat, first: nat, k: nat)
    requires first < n && k < n && Rotates(s, n, first)
    ensures var (turns, off) := Turns(n, |s|);
      Occurrences(s, k) == turns + if Ahead(n, first, k) < off then 1 else 0
  {
    if s != [] {
      OccurrencesByTurns(s[..|s| - 1], n, first, k);
    }
  }

  lemma ChosenByTurns(n: nat, t: nat, len: nat, k: nat)
    requires n > 0 && k < n && SmoothWindow(n, t, len)
    ensures var (turns, off) := Turns(n, len);
      Chosen(n, t, len, k) == turns + if Ahead(n, Slot(n, t), k) < off then 1 else 0
  {
    SlotsRotate(n, t, len);
    OccurrencesByTurns(Slots(n, t, len), n, Slot(n, t), k);
  }

  /** In any window that does not cross the wrap the selection counts of two entries differ by at
      most one; if the list length divides 2^64 this holds for every window. */
  lemma WindowsAreFair(n: nat, t: nat, len: nat, j: nat, k: nat)
    requires n > 0 && j < n && k < n && SmoothWindow(n, t, len)
    ensures Chosen(n, t, len, j) <= Chosen(n, t, len, k) + 1
  {
    ChosenByTurns(n, t, len, j);
    ChosenByTurns(n, t, len, k);
  }

  lemma {:induction false} OccurrencesAppend(a: seq<nat>, b: seq<nat>, k: nat)
    ensures Occurrences(a + b, k) == Occurrences(a, k) + Occurrences(b, k)
    decreases |b|
  {
    if b == [] {
      assert a + b == a;
    } else {
      assert (a + b)[..|a + b| - 1] == a + b[..|b| - 1];
      OccurrencesAppend(a, b[..|b| - 1], k);
    }
  }

  lemma ChosenSplit(n: nat, t: nat, a: nat, b: nat, k: nat)
    requires n > 0
    ensures Chosen(n, t, a + b, k) == Chosen(n, t, a, k) + Chosen(n, t + a, b, k)
  {
    assert Slots(n, t, a + b) == Slots(n, t, a) + Slots(n, t + a, b);
    OccurrencesAppend(Slots(n, t, a), Slots(n, t + a, b), k);
  }

  lemma {:induction false} FirstTurn(n: nat, len: nat)
    requires len < n
    ensures Turns(n, len) == (0, len)
  {
    if len > 0 {
      FirstTurn(n, len - 1);
    }
  }

  lemma PartialTurn(n: nat, t: nat, len: nat, k: nat)
    requires n > 0 && k < n && len < n && SmoothWindow(n, t, len) && Slot(n, t) == 0
    ensures Chosen(n, t, len, k) == if k < len then 1 else 0
  {
    FirstTurn(n, len);
    ChosenByTurns(n, t, len, k);
  }

  lemma TurnStartsAroundWrap(n: nat)
    requires n > 0
    ensures U64 % n <= U64
    ensures Slot(n, U64 - U64 % n) == 0 && Slot(n, U64) == 0
  {
    var q, r := U64 / n, U64 % n;
    TimesGrows(n, 0, q);
    assert U64 - r == n * q + 0;
    RemainderIs(0, n, 0, 0);
    RemainderIs(U64 - r, n, q, 0);
    assert r > 0 ==> (U64 - r) % U64 == U64 - r;
  }

  lemma ChosenAroundWrap(n: nat, r: nat, k: nat)
    requires n > 0 && 0 < r < n && r <= U64 && k < n
    requires Slot(n, U64 - r) == 0 && Slot(n, U64) == 0
    ensures Chosen(n, U64 - r, r + r, k) == if k < r then 2 else 0
  {
    ChosenSplit(n, U64 - r, r, r, k);
    PartialTurn(n, U64 - r, r, k);
    PartialTurn(n, U64, r, k);
  }

  /** If the length does not divide 2^64, the last r and the first r tickets around the wrap, where
      r is the remainder, choose entry 0 twice and entry r not at all. */
  lemma WrapIsUnfair(n: nat)
    requires n > 0 && U64 % n != 0
    ensures U64 % n <= U64
    ensures var r := U64 % n; Chosen(n, U64 - r, r + r, 0) == 2 && Chosen(n, U64 - r, r + r, r) == 0
  {
    TurnStartsAroundWrap(n);
    ChosenAroundWrap(n, U64 % n, 0);
    ChosenAroundWrap(n, U64 % n, U64 % n);
  }

  ghost predicate AlwaysFair(n: nat)
    requires n > 0
  {
    forall t: nat, len: nat, j: nat, k: nat :: j < n && k < n ==> Chosen(n, t, len, j) <= Chosen(n, t, len, k) + 1
  }

  /** Round robin is fair on every window of tickets exactly when the list length divides 2^64. */
  lemma FairForeverIffDividing(n: nat)
    requires n > 0
    ensures AlwaysFair(n) <==> U64 % n == 0
  {
    if U64 % n == 0 {
      forall t: nat, len: nat, j: nat, k: nat | j < n && k < n
        ensures Chosen(n, t, len, j) <= Chosen(n, t, len, k) + 1
      {
        WindowsAreFair(n, t, len, j, k);
      }
    } else {
      var r := U64 % n;
      WrapIsUnfair(n);
      assert Chosen(n, U64 - r, r + r, 0) > Chosen(n, U64 - r, r + r, r) + 1;
    }
  }
}
