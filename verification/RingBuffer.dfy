/** `SharedMemoryRingBuffer`: the byte ring as the object that `write` and `read` update in place.
    Its mutexes make one writer and one reader run at a time; here each call runs alone. */
module RingBuffer {
  import opened LittleEndian
  import opened Fifo
  import opened Positions
  import opened RingModel

  class SharedMemoryRingBuffer {
    const capacity: nat
    const cells: array<Byte>
    var writePos: nat
    var readPos: nat

    ghost predicate Valid()
      reads this, cells
    {
      WellFormed(View())
    }

    ghost function View(): Ring
      reads this, cells
    {
      Ring(capacity, cells[..], writePos, readPos)
    }

    /** The header as `RingBufferHeader::new` initialises it, over arbitrary memory. */
    constructor (memory: array<Byte>)
      requires memory.Length > PREFIX + SLACK
      ensures Valid() && cells == memory && capacity == memory.Length - SLACK
      ensures Represents(View(), [])
    {
      capacity := memory.Length - SLACK;
      cells := memory;
      writePos, readPos := 0, 0;
    }

    /** `copy_nonoverlapping` into the data area. */
    method CopyIn(src: Payload, from: nat, to: nat, n: nat)
      requires from + n <= |src| && to + n <= cells.Length
      modifies cells
      ensures cells[..] == StoreContiguous(old(cells[..]), to, src[from..from + n])
    {
      for i := 0 to n
        invariant cells[..] == StoreContiguous(old(cells[..]), to, src[from..from + i])
      {
        cells[to + i] := src[from + i];
      }
    }

    /** `copy_nonoverlapping` out of the data area. */
    method CopyTo(from: nat, buf: array<Byte>, to: nat, n: nat)
      requires from + n <= cells.Length && to + n <= buf.Length && buf != cells
      modifies buf
      ensures buf[..] == StoreContiguous(old(buf[..]), to, cells[from..from + n])
    {
      for i := 0 to n
        invariant cells[..] == old(cells[..])
        invariant buf[..] == StoreContiguous(old(buf[..]), to, cells[from..from + i])
      {
        buf[to + i] := cells[from + i];
      }
    }

    /** `x % capacity` where at most one turn has to be taken off. */
    method Around(x: nat) returns (y: nat)
      requires 1 <= capacity && x < 2 * capacity
      ensures y == Wrap(x, capacity)
    {
      WrapIsMod(x, capacity);
      y := x % capacity;
    }

    /** The payload copy of `write`, in one part or split at the end of the data area. */
    method CopyPayloadIn(start: nat, data: Payload)
      requires start < capacity <= cells.Length && |data| <= capacity
      modifies cells
      ensures cells[..] == StoreAround(old(cells[..]), capacity, start, data)
    {
      if start + |data| <= capacity {
        CopyIn(data, 0, start, |data|);
        assert data[0..|data|] == data;
        StoreAroundInOnePart(old(cells[..]), capacity, start, data);
      } else {
        var firstPart := capacity - start;
        var secondPart := |data| - firstPart;
        CopyIn(data, 0, start, firstPart);
        CopyIn(data, firstPart, 0, secondPart);
        StoreAroundInTwoParts(old(cells[..]), capacity, start, data);
      }
    }

    /** `write`: prefix stored contiguously, payload in one or two parts, then the position published. */
    method Write(data: Payload) returns (res: WriteResult)
      requires Valid()
      modifies `writePos, cells
      ensures Valid()
      ensures View() == RingModel.Write(old(View()), data)
      ensures res == WriteOutcome(old(View()), data)
    {
      var available := if writePos >= readPos then capacity - (writePos - readPos) - 1 else readPos - writePos - 1;
      var totalSize := 4 + |data|;
      if available < totalSize {
        return BufferFull;
      }
      var lenBytes := ToLe(|data|, 4);
      CopyIn(lenBytes, 0, writePos, 4);
      assert lenBytes[0..4] == lenBytes;
      var dataStart := Around(writePos + 4);
      CopyPayloadIn(dataStart, data);
      writePos := Around(writePos + totalSize);
      res := Written(|data|);
    }

    /** The length prefix at `readPos`, gathered byte by byte modulo the capacity. */
    method GatherLength() returns (n: nat)
      requires Valid()
      ensures n == DecodedLength(View())
    {
      var c1 := Around(readPos + 1);
      var c2 := Around(readPos + 2);
      var c3 := Around(readPos + 3);
      var lenBytes := [cells[readPos], cells[c1], cells[c2], cells[c3]];
      FourCells(cells[..], capacity, readPos);
      n := FromLe(lenBytes);
    }

    /** The payload copy of `read`, in one part or split at the end of the data area. */
    method CopyPayloadOut(start: nat, len: nat, buf: array<Byte>)
      requires start < capacity <= cells.Length && buf != cells
      requires len <= buf.Length && start + len <= capacity + cells.Length
      modifies buf
      ensures start + len <= capacity ==> buf[..] == cells[start..start + len] + old(buf[len..])
      ensures start + len > capacity ==>
        buf[..] == cells[start..capacity] + cells[0..len - (capacity - start)] + old(buf[len..])
    {
      if start + len <= capacity {
        CopyTo(start, buf, 0, len);
        StoreAtFront(old(buf[..]), cells[start..start + len], []);
      } else {
        var firstPart := capacity - start;
        CopyTo(start, buf, 0, firstPart);
        CopyTo(0, buf, firstPart, len - firstPart);
        StoreAtFront(old(buf[..]), cells[start..start + firstPart], cells[0..len - firstPart]);
      }
    }

    /** `read` into the first bytes of `buf`; the precondition is what its unsafe copies rely on. */
    method Read(buf: array<Byte>) returns (res: ReadResult)
      requires Valid() && buf != cells
      requires ReadOutcome(View(), buf.Length) != OutOfBounds
      modifies `readPos, buf
      ensures Valid()
      ensures View() == RingModel.Read(old(View()), buf.Length)
      ensures res == ReadOutcome(old(View()), buf.Length)
      ensures buf[..] == if res.Got? then res.data + old(buf[|res.data|..]) else old(buf[..])
    {
      if writePos == readPos {
        return BufferEmpty;
      }
      var dataLen := GatherLength();
      if buf.Length < dataLen {
        return InvalidState;
      }
      var dataStart := Around(readPos + 4);
      CopyPayloadOut(dataStart, dataLen, buf);
      res := Got(buf[..dataLen]);
      readPos := (readPos + 4 + dataLen) % capacity;
    }
  }

  lemma FourCells(mem: seq<Byte>, cap: nat, pos: nat)
    requires pos < cap <= |mem| && PREFIX < cap
    ensures Cells(mem, cap, pos, PREFIX)
         == [mem[pos], mem[Wrap(pos + 1, cap)], mem[Wrap(pos + 2, cap)], mem[Wrap(pos + 3, cap)]]
  {
    var c := Cells(mem, cap, pos, PREFIX);
    assert Wrap(pos + 0, cap) == pos;
    assert c[0] == mem[Wrap(pos + 0, cap)] && c[1] == mem[Wrap(pos + 1, cap)];
    assert c[2] == mem[Wrap(pos + 2, cap)] && c[3] == mem[Wrap(pos + 3, cap)];
  }

  lemma StoreAtFront(b: seq<Byte>, x: seq<Byte>, y: seq<Byte>)
    requires |x| + |y| <= |b|
    ensures StoreContiguous(StoreContiguous(b, 0, x), |x|, y) == x + y + b[|x| + |y|..]
    ensures StoreContiguous(b, 0, x) == x + b[|x|..]
  {}

  lemma StoreAroundInOnePart(mem: seq<Byte>, cap: nat, pos: nat, data: Payload)
    requires pos + |data| <= cap <= |mem| && pos < cap
    ensures StoreContiguous(mem, pos, data) == StoreAround(mem, cap, pos, data)
  {}

  lemma StoreAroundInTwoParts(mem: seq<Byte>, cap: nat, pos: nat, data: Payload)
    requires pos < cap <= |mem| && |data| <= cap < pos + |data|
    ensures var n := cap - pos;
      StoreContiguous(StoreContiguous(mem, pos, data[0..n]), 0, data[n..n + (|data| - n)])
      == StoreAround(mem, cap, pos, data)
  {}
}
