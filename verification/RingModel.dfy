/** The shared-memory ring as a value: header positions plus the data area, with the effect of
    one complete `write` and one complete `read` on it. The prefix is stored contiguously at
    `wp` (possibly into the slack cells past `cap`) but gathered modulo `cap`, as in the source. */
module RingModel {
  import opened LittleEndian
  import opened Fifo
  import opened Positions

  /** Cells past the capacity that an unwrapped four-byte store can reach. */
  const SLACK: nat := 3

  datatype Ring = Ring(cap: nat, mem: seq<Byte>, wp: nat, rp: nat)

  predicate WellFormed(r: Ring) {
    PREFIX < r.cap && |r.mem| == r.cap + SLACK && r.wp < r.cap && r.rp < r.cap
  }

  // ---------- cells ----------

  /** The `n` ring cells from `pos` on. */
  function Cells(mem: seq<Byte>, cap: nat, pos: nat, n: nat): (c: seq<Byte>)
    requires pos < cap && n <= cap <= |mem|
    ensures |c| == n
  {
    seq(n, i requires 0 <= i < n => mem[Wrap(pos + i, cap)])
  }

  lemma CellsSplit(mem: seq<Byte>, cap: nat, pos: nat, a: nat, b: nat)
    requires pos < cap && a + b <= cap <= |mem| && a < cap
    ensures Cells(mem, cap, pos, a + b) == Cells(mem, cap, pos, a) + Cells(mem, cap, Wrap(pos + a, cap), b)
  {
    var whole, front, back :=
      Cells(mem, cap, pos, a + b), Cells(mem, cap, pos, a), Cells(mem, cap, Wrap(pos + a, cap), b);
    forall i | 0 <= i < a + b
      ensures whole[i] == (front + back)[i]
    {
      if i >= a {
        assert Wrap(Wrap(pos + a, cap) + (i - a), cap) == Wrap(pos + i, cap);
        assert back[i - a] == whole[i];
      }
    }
  }

  lemma CancelLeft<T>(a: seq<T>, b: seq<T>, a': seq<T>, b': seq<T>)
    requires |a| == |a'|
    ensures a + b == a' + b' <==> a == a' && b == b'
  {
    assert (a + b)[..|a|] == a && (a + b)[|a|..] == b;
    assert (a' + b')[..|a'|] == a' && (a' + b')[|a'|..] == b';
  }

  /** A stretch spells out `a + b` iff its front spells out `a` and its back `b`. */
  lemma CellsParts(mem: seq<Byte>, cap: nat, pos: nat, a: seq<Byte>, b: seq<Byte>)
    requires pos < cap && |a| + |b| <= cap <= |mem| && |a| < cap
    ensures Cells(mem, cap, pos, |a| + |b|) == a + b <==>
            Cells(mem, cap, pos, |a|) == a && Cells(mem, cap, Wrap(pos + |a|, cap), |b|) == b
  {
    CellsSplit(mem, cap, pos, |a|, |b|);
    CancelLeft(Cells(mem, cap, pos, |a|), Cells(mem, cap, Wrap(pos + |a|, cap), |b|), a, b);
  }

  /** Cells of a stretch depend only on the memory inside the stretch. */
  lemma CellsFrame(mem: seq<Byte>, mem': seq<Byte>, cap: nat, pos: nat, n: nat)
    requires pos < cap && n <= cap <= |mem| && cap <= |mem'|
    requires forall c :: 0 <= c < cap && Ahead(cap, pos, c) < n ==> mem'[c] == mem[c]
    ensures Cells(mem', cap, pos, n) == Cells(mem, cap, pos, n)
  {
    forall i | 0 <= i < n
      ensures Cells(mem', cap, pos, n)[i] == Cells(mem, cap, pos, n)[i]
    {
      assert Ahead(cap, pos, Wrap(pos + i, cap)) == i;
    }
  }

  // ---------- one write ----------

  function Used(r: Ring): nat
    requires WellFormed(r)
  {
    Ahead(r.cap, r.rp, r.wp)
  }

  /** Free space as `write` computes it from the two positions it loaded. */
  function Available(cap: nat, wp: nat, rp: nat): nat
    requires wp < cap && rp < cap
  {
    if wp >= rp then cap - (wp - rp) - 1 else rp - wp - 1
  }

  /** A ring of at most four cells has no room for any record, whatever its positions. */
  lemma TinyRingsAcceptNothing(cap: nat, wp: nat, rp: nat, data: Payload)
    requires wp < cap <= PREFIX && rp < cap
    ensures Available(cap, wp, rp) < PREFIX + |data|
  {}

  function PrefixOf(data: Payload): (b: seq<Byte>)
    ensures |b| == PREFIX
  {
    ToLe(|data|, PREFIX)
  }

  function StoreContiguous(mem: seq<Byte>, pos: nat, bytes: seq<Byte>): (m: seq<Byte>)
    requires pos + |bytes| <= |mem|
    ensures |m| == |mem|
  {
    mem[..pos] + bytes + mem[pos + |bytes|..]
  }

  function StoreAround(mem: seq<Byte>, cap: nat, pos: nat, data: Payload): (m: seq<Byte>)
    requires pos < cap <= |mem| && |data| <= cap
    ensures |m| == |mem|
  {
    seq(|mem|, c requires 0 <= c < |mem| =>
      if c < cap && Ahead(cap, pos, c) < |data| then data[Ahead(cap, pos, c)] else mem[c])
  }

  predicate Accepts(r: Ring, data: Payload)
    requires WellFormed(r)
  {
    PREFIX + |data| <= Available(r.cap, r.wp, r.rp)
  }

  function Write(r: Ring, data: Payload): (r': Ring)
    requires WellFormed(r)
    ensures WellFormed(r') && r'.cap == r.cap && r'.rp == r.rp
  {
    if Accepts(r, data) then
      var mem := StoreContiguous(r.mem, r.wp, PrefixOf(data));
      r.(mem := StoreAround(mem, r.cap, Wrap(r.wp + PREFIX, r.cap), data),
         wp := Wrap(r.wp + PREFIX + |data|, r.cap))
    else r
  }

  function WriteOutcome(r: Ring, data: Payload): WriteResult
    requires WellFormed(r)
  {
    if Accepts(r, data) then Written(|data|) else BufferFull
  }

  // ---------- one read ----------

  /** The length the reader decodes at `rp`. */
  function DecodedLength(r: Ring): nat
    requires WellFormed(r)
  {
    FromLe(Cells(r.mem, r.cap, r.rp, PREFIX))
  }

  /** The unsafe copies of `read` stay inside the mapped cells. */
  predicate CopyInBounds(r: Ring, len: nat)
    requires WellFormed(r)
  {
    Wrap(r.rp + PREFIX, r.cap) + len <= r.cap + |r.mem|
  }

  function CopyOut(r: Ring, len: nat): (d: Payload)
    requires WellFormed(r) && CopyInBounds(r, len)
    ensures |d| == len
  {
    var start := Wrap(r.rp + PREFIX, r.cap);
    if start + len <= r.cap then r.mem[start..start + len]
    else r.mem[start..r.cap] + r.mem[..len - (r.cap - start)]
  }

  function ReadOutcome(r: Ring, bufLen: nat): ReadResult
    requires WellFormed(r)
  {
    if r.wp == r.rp then BufferEmpty
    else if bufLen < DecodedLength(r) then InvalidState
    else if !CopyInBounds(r, DecodedLength(r)) then OutOfBounds
    else Got(CopyOut(r, DecodedLength(r)))
  }

  function Read(r: Ring, bufLen: nat): (r': Ring)
    requires WellFormed(r)
    ensures WellFormed(r') && r'.cap == r.cap && r'.wp == r.wp && r'.mem == r.mem
  {
    if ReadOutcome(r, bufLen).Got? then r.(rp := (r.rp + PREFIX + DecodedLength(r)) % r.cap) else r
  }

  // ---------- the FIFO a ring represents ----------

  function Record(data: Payload): (b: seq<Byte>)
    ensures |b| == PREFIX + |data|
  {
    PrefixOf(data) + data
  }

  function Flat(q: seq<Payload>): (b: seq<Byte>)
    ensures |b| == Cost(q)
  {
    if q == [] then [] else Record(q[0]) + Flat(q[1..])
  }

  /** From `rp` to `wp` the cells spell out exactly these bytes. */
  predicate Spells(r: Ring, bytes: seq<Byte>) {
    && WellFormed(r)
    && |bytes| < r.cap
    && r.wp == Wrap(r.rp + |bytes|, r.cap)
    && Cells(r.mem, r.cap, r.rp, |bytes|) == bytes
  }

  /** Every length is a u32. */
  predicate Short(q: seq<Payload>) {
    forall d :: d in q ==> |d| < U32
  }

  predicate Represents(r: Ring, q: seq<Payload>) {
    Spells(r, Flat(q)) && Short(q)
  }

  lemma {:induction false} FlatAppend(q: seq<Payload>, data: Payload)
    ensures Flat(q + [data]) == Flat(q) + Record(data)
    ensures Cost(q + [data]) == Cost(q) + PREFIX + |data|
  {
    if q == [] {
      assert Flat([data][1..]) == [];
      assert Flat([data]) == Record(data);
    } else {
      FlatAppend(q[1..], data);
      assert (q + [data])[1..] == q[1..] + [data];
    }
  }

  /** Space accounting: both branches of `available` are the byte budget the queue leaves,
      and equal positions mean an empty queue, never a full one. */
  lemma SpaceAccounting(r: Ring, q: seq<Payload>, data: Payload)
    requires Represents(r, q)
    ensures Available(r.cap, r.wp, r.rp) == r.cap - 1 - Cost(q)
    ensures Accepts(r, data) <==> Fits(r.cap, q, data)
    ensures r.wp == r.rp <==> q == []
  {}

  /** The condition under which the contiguous prefix store and the modular prefix load agree:
      the prefix does not cross the end, or the cells it should have wrapped to already hold it. */
  predicate PrefixLands(r: Ring, data: Payload)
    requires WellFormed(r)
  {
    r.wp + PREFIX <= r.cap ||
    (var k := r.cap - r.wp;
     r.mem[..PREFIX - k] == PrefixOf(data)[k..])
  }

  lemma WriteKeepsOldCells(r: Ring, data: Payload)
    requires WellFormed(r) && Accepts(r, data)
    ensures Used(Write(r, data)) == Used(r) + PREFIX + |data|
    ensures forall c :: 0 <= c < r.cap && Ahead(r.cap, r.rp, c) < Used(r) ==> Write(r, data).mem[c] == r.mem[c]
  {}

  lemma WriteStoresPayload(r: Ring, data: Payload)
    requires WellFormed(r) && Accepts(r, data)
    ensures Cells(Write(r, data).mem, r.cap, Wrap(r.wp + PREFIX, r.cap), |data|) == data
  {
    var start := Wrap(r.wp + PREFIX, r.cap);
    forall i | 0 <= i < |data|
      ensures Cells(Write(r, data).mem, r.cap, start, |data|)[i] == data[i]
    {
      assert Ahead(r.cap, start, Wrap(start + i, r.cap)) == i;
    }
  }

  /** The four cells the reader will gather: the prefix bytes that fit before the end,
      then whatever the first cells of the ring held before the write. */
  function GatheredPrefix(r: Ring, data: Payload): (b: seq<Byte>)
    requires WellFormed(r)
    ensures |b| == PREFIX
  {
    if r.wp + PREFIX <= r.cap then PrefixOf(data)
    else PrefixOf(data)[..r.cap - r.wp] + r.mem[..PREFIX - (r.cap - r.wp)]
  }

  lemma WriteStoresPrefix(r: Ring, data: Payload)
    requires WellFormed(r) && Accepts(r, data)
    ensures Cells(Write(r, data).mem, r.cap, r.wp, PREFIX) == GatheredPrefix(r, data)
  {
    var start := Wrap(r.wp + PREFIX, r.cap);
    var mem := StoreContiguous(r.mem, r.wp, PrefixOf(data));
    forall i | 0 <= i < PREFIX
      ensures Cells(Write(r, data).mem, r.cap, r.wp, PREFIX)[i] == GatheredPrefix(r, data)[i]
    {
      var c := Wrap(r.wp + i, r.cap);
      assert Ahead(r.cap, start, c) >= |data|;
      assert Write(r, data).mem[c] == mem[c];
    }
  }

  lemma LandsMeansGathered(r: Ring, data: Payload)
    requires WellFormed(r)
    ensures PrefixLands(r, data) <==> GatheredPrefix(r, data) == PrefixOf(data)
  {
    if r.wp + PREFIX > r.cap {
      var k := r.cap - r.wp;
      assert PrefixOf(data) == PrefixOf(data)[..k] + PrefixOf(data)[k..];
      assert GatheredPrefix(r, data)[k..] == r.mem[..PREFIX - k];
    }
  }

  lemma WriteStoresRecord(r: Ring, data: Payload)
    requires WellFormed(r) && Accepts(r, data)
    ensures Cells(Write(r, data).mem, r.cap, r.wp, PREFIX + |data|) == Record(data) <==> PrefixLands(r, data)
  {
    CellsParts(Write(r, data).mem, r.cap, r.wp, PrefixOf(data), data);
    WriteStoresPayload(r, data);
    WriteStoresPrefix(r, data);
    LandsMeansGathered(r, data);
  }

  lemma ShortAppend(q: seq<Payload>, data: Payload)
    ensures Short(q + [data]) <==> Short(q) && |data| < U32
  {
    assert data in q + [data];
    assert forall d :: d in q ==> d in q + [data];
  }

  /** A ring that keeps its unread cells and moves `wp` past as many cells as `b` has bytes
      gains `b` iff those cells spell it out. */
  lemma SpellsAppend(r: Ring, r': Ring, a: seq<Byte>, b: seq<Byte>)
    requires Spells(r, a) && WellFormed(r') && r'.cap == r.cap && r'.rp == r.rp
    requires |a| + |b| < r.cap && r'.wp == Wrap(r.wp + |b|, r.cap)
    requires forall c :: 0 <= c < r.cap && Ahead(r.cap, r.rp, c) < |a| ==> r'.mem[c] == r.mem[c]
    ensures Spells(r', a + b) <==> Cells(r'.mem, r.cap, r.wp, |b|) == b
  {
    CellsFrame(r.mem, r'.mem, r.cap, r.rp, |a|);
    CellsParts(r'.mem, r.cap, r.rp, a, b);
  }

  /** `write` refines `Put`: it is accepted iff the record fits the budget, and an accepted write
      leaves the FIFO with the record appended iff the prefix lands and the length fits a u32. */
  lemma WriteRefinesPut(r: Ring, q: seq<Payload>, data: Payload)
    requires Represents(r, q)
    ensures WriteOutcome(r, data) == if Fits(r.cap, q, data) then Written(|data|) else BufferFull
    ensures !Fits(r.cap, q, data) ==> Represents(Write(r, data), Put(r.cap, q, data))
    ensures Fits(r.cap, q, data) ==>
      (Represents(Write(r, data), Put(r.cap, q, data)) <==> PrefixLands(r, data) && |data| < U32)
  {
    SpaceAccounting(r, q, data);
    if Fits(r.cap, q, data) {
      WriteKeepsOldCells(r, data);
      WriteStoresRecord(r, data);
      FlatAppend(q, data);
      ShortAppend(q, data);
      SpellsAppend(r, Write(r, data), Flat(q), Record(data));
    }
  }

  lemma CopyOutIsCells(r: Ring, len: nat)
    requires WellFormed(r) && PREFIX + len < r.cap
    ensures CopyInBounds(r, len)
    ensures CopyOut(r, len) == Cells(r.mem, r.cap, Wrap(r.rp + PREFIX, r.cap), len)
    ensures (r.rp + PREFIX + len) % r.cap == Wrap(r.rp + PREFIX + len, r.cap)
  {
    WrapIsMod(r.rp + PREFIX + len, r.cap);
    var start := Wrap(r.rp + PREFIX, r.cap);
    forall i | 0 <= i < len
      ensures CopyOut(r, len)[i] == Cells(r.mem, r.cap, start, len)[i]
    {}
  }

  lemma FlatHead(q: seq<Payload>)
    requires q != []
    ensures Flat(q) == Record(q[0]) + Flat(q[1..]) && Cost(q) == PREFIX + |q[0]| + Cost(q[1..])
  {}

  lemma HeadRecordCells(r: Ring, q: seq<Payload>)
    requires Represents(r, q) && q != []
    ensures PREFIX + |q[0]| <= Cost(q)
    ensures Cells(r.mem, r.cap, r.rp, PREFIX + |q[0]|) == Record(q[0])
    ensures Cells(r.mem, r.cap, Wrap(r.rp + PREFIX + |q[0]|, r.cap), Cost(q[1..])) == Flat(q[1..])
  {
    FlatHead(q);
    CellsParts(r.mem, r.cap, r.rp, Record(q[0]), Flat(q[1..]));
  }

  lemma HeadCells(r: Ring, q: seq<Payload>)
    requires Represents(r, q) && q != []
    ensures PREFIX + |q[0]| <= Cost(q)
    ensures Cells(r.mem, r.cap, r.rp, PREFIX) == PrefixOf(q[0])
    ensures Cells(r.mem, r.cap, Wrap(r.rp + PREFIX, r.cap), |q[0]|) == q[0]
  {
    HeadRecordCells(r, q);
    CellsParts(r.mem, r.cap, r.rp, PrefixOf(q[0]), q[0]);
  }

  /** Byte `i` of the head record, where the reader finds it. */
  lemma HeadByte(r: Ring, q: seq<Payload>, i: nat)
    requires Represents(r, q) && q != [] && i < PREFIX + |q[0]|
    ensures r.mem[Wrap(r.rp + i, r.cap)] == Record(q[0])[i]
  {
    HeadRecordCells(r, q);
    assert Cells(r.mem, r.cap, r.rp, PREFIX + |q[0]|)[i] == Record(q[0])[i];
  }

  lemma PrefixDecodes(data: Payload)
    requires |data| < U32
    ensures FromLe(PrefixOf(data)) == |data|
  {
    DecodeEncode(|data|, PREFIX);
    PowersUsed();
  }

  lemma HeadLength(r: Ring, q: seq<Payload>)
    requires Represents(r, q) && q != []
    ensures DecodedLength(r) == |q[0]|
  {
    HeadCells(r, q);
    assert q[0] in q;
    PrefixDecodes(q[0]);
  }

  lemma HeadReleased(r: Ring, q: seq<Payload>)
    requires Represents(r, q) && q != []
    ensures Represents(r.(rp := Wrap(r.rp + PREFIX + |q[0]|, r.cap)), q[1..])
  {
    FlatHead(q);
    HeadRecordCells(r, q);
    assert forall d :: d in q[1..] ==> d in q;
  }

  /** `read` refines `Get`: on a ring that represents `q` it returns and releases exactly the head. */
  lemma ReadRefinesGet(r: Ring, q: seq<Payload>, bufLen: nat)
    requires Represents(r, q)
    ensures ReadOutcome(r, bufLen) == Peek(q, bufLen)
    ensures Represents(Read(r, bufLen), Get(q, bufLen))
  {
    if q != [] {
      HeadCells(r, q);
      HeadLength(r, q);
      CopyOutIsCells(r, |q[0]|);
      HeadReleased(r, q);
    }
  }

  /** What keeps the unsafe copies of `read` in bounds: a buffer no longer than the ring, whatever
      length is decoded, or a ring that represents a queue, whatever the buffer. */
  lemma ReadIsSafe(r: Ring, q: seq<Payload>, bufLen: nat)
    requires WellFormed(r) && (bufLen <= r.cap || Represents(r, q))
    ensures ReadOutcome(r, bufLen) != OutOfBounds
  {
    if Represents(r, q) {
      ReadRefinesGet(r, q, bufLen);
    }
  }
}
