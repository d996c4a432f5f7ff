/** The wire format of the two id-carrying transports, as bincode 1.3 lays it out: fixed-width
    little-endian integers, strings and byte vectors behind an eight-byte length, trailing bytes
    ignored. Strings are their UTF-8 bytes. */
module Codec {
  import opened LittleEndian

  datatype Option<+T> = None | Some(value: T) {
    predicate IsFailure() { None? }
    function PropagateFailure<U>(): Option<U> requires None? { None }
    function Extract(): T requires Some? { value }
  }

  type I64 = n: int | -0x8000_0000_0000_0000 <= n < 0x8000_0000_0000_0000

  type Id = seq<Byte>

  datatype Request = Request(message: seq<Byte>, timestampNs: I64, payload: seq<Byte>)
  datatype Response = Response(message: seq<Byte>, timestampNs: I64, processingUs: I64, payload: seq<Byte>)

  /** The echo the backend builds; its two time fields are whatever the clock said. */
  predicate IsEcho(q: Request, p: Response) {
    p.message == q.message && p.payload == q.payload
  }

  function EncodeBytes(s: seq<Byte>): seq<Byte> { ToLe(|s|, 8) + s }

  function EncodeI64(n: I64): (b: seq<Byte>)
    ensures |b| == 8
  {
    ToLe(if n < 0 then n + U64 else n, 8)
  }

  function TakeBytes(b: seq<Byte>): Option<(seq<Byte>, seq<Byte>)> {
    if |b| < 8 then None
    else
      var n := FromLe(b[..8]);
      if |b| - 8 < n then None else Some((b[8..8 + n], b[8 + n..]))
  }

  function TakeI64(b: seq<Byte>): Option<(I64, seq<Byte>)> {
    if |b| < 8 then None
    else
      DecodeBound(b[..8]);
      PowersUsed();
      var n := FromLe(b[..8]);
      Some((if n < U64 / 2 then n else n - U64, b[8..]))
  }

  function EncodeRequest(id: Id, q: Request): seq<Byte> {
    EncodeBytes(id) + (EncodeBytes(q.message) + (EncodeI64(q.timestampNs) + EncodeBytes(q.payload)))
  }

  function EncodeResponse(id: Id, p: Response): seq<Byte> {
    EncodeBytes(id) + (EncodeBytes(p.message)
    + (EncodeI64(p.timestampNs) + (EncodeI64(p.processingUs) + EncodeBytes(p.payload))))
  }

  function DecodeRequest(b: seq<Byte>): Option<(Id, Request)> {
    var (id, b1) :- TakeBytes(b);
    var (message, b2) :- TakeBytes(b1);
    var (ts, b3) :- TakeI64(b2);
    var (payload, _) :- TakeBytes(b3);
    Some((id, Request(message, ts, payload)))
  }

  function DecodeResponse(b: seq<Byte>): Option<(Id, Response)> {
    var (id, b1) :- TakeBytes(b);
    var (message, b2) :- TakeBytes(b1);
    var (ts, b3) :- TakeI64(b2);
    var (us, b4) :- TakeI64(b3);
    var (payload, _) :- TakeBytes(b4);
    Some((id, Response(message, ts, us, payload)))
  }

  lemma EightBytes(n: nat)
    requires n < U64
    ensures FromLe(ToLe(n, 8)) == n
  {
    DecodeEncode(n, 8);
    PowersUsed();
  }

  lemma BytesRoundTrip(s: seq<Byte>, rest: seq<Byte>)
    requires |s| < U64
    ensures TakeBytes(EncodeBytes(s) + rest) == Some((s, rest))
  {
    var b := EncodeBytes(s) + rest;
    assert b[..8] == ToLe(|s|, 8);
    EightBytes(|s|);
    assert b[8..8 + |s|] == s && b[8 + |s|..] == rest;
  }

  lemma I64RoundTrip(n: I64, rest: seq<Byte>)
    ensures TakeI64(EncodeI64(n) + rest) == Some((n, rest))
  {
    var b := EncodeI64(n) + rest;
    assert b[..8] == EncodeI64(n) && b[8..] == rest;
    EightBytes(if n < 0 then n + U64 else n);
  }

  /** Bytes a request takes on the wire: three length prefixes, one time stamp and the texts. */
  function WireLength(id: Id, q: Request): nat {
    32 + |id| + |q.message| + |q.payload|
  }

  lemma RequestLength(id: Id, q: Request)
    ensures |EncodeRequest(id, q)| == WireLength(id, q)
  {}

  /** A response is eight bytes longer than the request it echoes. */
  lemma ResponseLength(id: Id, q: Request, p: Response)
    requires IsEcho(q, p)
    ensures |EncodeResponse(id, p)| == WireLength(id, q) + 8
  {}

  lemma RequestRoundTrip(id: Id, q: Request, rest: seq<Byte>)
    requires |EncodeRequest(id, q)| < U64
    ensures DecodeRequest(EncodeRequest(id, q) + rest) == Some((id, q))
  {
    RequestLength(id, q);
    var t3 := EncodeBytes(q.payload) + rest;
    var t2 := EncodeI64(q.timestampNs) + t3;
    var t1 := EncodeBytes(q.message) + t2;
    assert EncodeRequest(id, q) + rest == EncodeBytes(id) + t1;
    BytesRoundTrip(id, t1);
    BytesRoundTrip(q.message, t2);
    I64RoundTrip(q.timestampNs, t3);
    BytesRoundTrip(q.payload, rest);
  }

  lemma ResponseRoundTrip(id: Id, p: Response, rest: seq<Byte>)
    requires |EncodeResponse(id, p)| < U64
    ensures DecodeResponse(EncodeResponse(id, p) + rest) == Some((id, p))
  {
    var t4 := EncodeBytes(p.payload) + rest;
    var t3 := EncodeI64(p.processingUs) + t4;
    var t2 := EncodeI64(p.timestampNs) + t3;
    var t1 := EncodeBytes(p.message) + t2;
    assert EncodeResponse(id, p) + rest == EncodeBytes(id) + t1;
    BytesRoundTrip(id, t1);
    BytesRoundTrip(p.message, t2);
    I64RoundTrip(p.timestampNs, t3);
    I64RoundTrip(p.processingUs, t4);
    BytesRoundTrip(p.payload, rest);
  }
}
