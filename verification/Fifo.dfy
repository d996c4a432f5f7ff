/** The specification of a ring: a first-in first-out queue of byte strings whose records
    cost four bytes each on top of their payload, out of a budget of capacity - 1 bytes. */
module Fifo {
  import opened LittleEndian

  type Payload = seq<Byte>

  datatype WriteResult = Written(n: nat) | BufferFull

  /** `OutOfBounds` stands for a copy that would leave the mapped cells; it is no value of the source. */
  datatype ReadResult = Got(data: Payload) | BufferEmpty | InvalidState | OutOfBounds

  const PREFIX: nat := 4

  function Cost(items: seq<Payload>): nat {
    if items == [] then 0 else PREFIX + |items[0]| + Cost(items[1..])
  }

  predicate Fits(cap: nat, items: seq<Payload>, data: Payload) {
    Cost(items) + PREFIX + |data| + 1 <= cap
  }

  function Put(cap: nat, items: seq<Payload>, data: Payload): seq<Payload> {
    if Fits(cap, items, data) then items + [data] else items
  }

  function Peek(items: seq<Payload>, bufLen: nat): ReadResult {
    if items == [] then BufferEmpty
    else if bufLen < |items[0]| then InvalidState
    else Got(items[0])
  }

  function Get(items: seq<Payload>, bufLen: nat): seq<Payload> {
    if Peek(items, bufLen).Got? then items[1..] else items
  }

  lemma {:induction false} CostAppend(a: seq<Payload>, b: seq<Payload>)
    ensures Cost(a + b) == Cost(a) + Cost(b)
  {
    if a == [] {
      assert a + b == b;
    } else {
      CostAppend(a[1..], b);
      assert (a + b)[1..] == a[1..] + b;
    }
  }

  /** What `k` records of `n` bytes each cost. */
  function Bulk(k: nat, n: nat): nat {
    if k == 0 then 0 else PREFIX + n + Bulk(k - 1, n)
  }

  lemma {:induction false} BulkIsProduct(k: nat, n: nat)
    ensures Bulk(k, n) == k * (PREFIX + n)
  {
    if k > 0 {
      BulkIsProduct(k - 1, n);
      assert k * (PREFIX + n) == (k - 1) * (PREFIX + n) + (PREFIX + n);
    }
  }

  lemma {:induction false} BulkGrows(j: nat, k: nat, n: nat)
    requires j <= k
    ensures Bulk(j, n) <= Bulk(k, n)
  {
    if j < k {
      BulkGrows(j, k - 1, n);
    }
  }

  lemma {:induction false} CostUpperBound(items: seq<Payload>, n: nat)
    requires forall d :: d in items ==> |d| <= n
    ensures Cost(items) <= Bulk(|items|, n)
  {
    if items != [] {
      assert forall d :: d in items[1..] ==> d in items;
      CostUpperBound(items[1..], n);
      assert items[0] in items;
    }
  }

  /** A queue with fewer than `limit` records of at most `n` bytes has room for one more. */
  lemma RoomForOne(cap: nat, items: seq<Payload>, data: Payload, n: nat, limit: nat)
    requires (forall d :: d in items ==> |d| <= n) && |data| <= n
    requires |items| < limit && Bulk(limit, n) < cap
    ensures Fits(cap, items, data)
  {
    CostUpperBound(items, n);
    BulkGrows(|items| + 1, limit, n);
  }

  lemma BudgetPreserved(cap: nat, items: seq<Payload>, data: Payload, bufLen: nat)
    requires Cost(items) < cap
    ensures Cost(Put(cap, items, data)) < cap && Cost(Get(items, bufLen)) < cap
  {
    CostAppend(items, [data]);
    assert [data][1..] == [];
  }

  /** At most (capacity - 1) / 4 records can be queued at once. */
  lemma {:induction false} CostBoundsCount(items: seq<Payload>)
    ensures PREFIX * |items| <= Cost(items)
  {
    if items != [] {
      CostBoundsCount(items[1..]);
    }
  }
}
