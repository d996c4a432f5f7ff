/** Bytes and little-endian integers, as `u32::to_le_bytes` and friends produce them. */
module LittleEndian {
  import opened Positions

  type Byte = n: int | 0 <= n < 256

  const U32: nat := 0x1_0000_0000
  const U64: nat := 0x1_0000_0000_0000_0000

  function Pow256(k: nat): (p: nat)
    ensures p >= 1
  {
    if k == 0 then 1 else 256 * Pow256(k - 1)
  }

  /** The `k` low-order bytes of `n`, least significant first; higher bytes are truncated. */
  function ToLe(n: nat, k: nat): (b: seq<Byte>)
    ensures |b| == k
  {
    if k == 0 then [] else [n % 256] + ToLe(n / 256, k - 1)
  }

  function FromLe(b: seq<Byte>): nat {
    if b == [] then 0 else b[0] + 256 * FromLe(b[1..])
  }

  lemma PowersUsed()
    ensures Pow256(1) == 256 && Pow256(2) == 0x1_0000 && Pow256(3) == 0x100_0000
    ensures Pow256(4) == U32 && Pow256(8) == U64
  {
    assert Pow256(4) == 256 * Pow256(3);
    assert Pow256(6) == 256 * Pow256(5);
    assert Pow256(8) == 256 * Pow256(7);
  }

  /** What `ToLe(n, k)` leaves out. */
  function Dropped(n: nat, k: nat): nat {
    if k == 0 then n else Dropped(n / 256, k - 1)
  }

  lemma {:induction false} DecodeEncodeSplit(n: nat, k: nat)
    ensures n == FromLe(ToLe(n, k)) + Pow256(k) * Dropped(n, k)
  {
    if k > 0 {
      DecodeEncodeSplit(n / 256, k - 1);
      assert ToLe(n, k)[1..] == ToLe(n / 256, k - 1);
      assert 256 * (Pow256(k - 1) * Dropped(n / 256, k - 1)) == Pow256(k) * Dropped(n, k);
    }
  }

  lemma RemainderOf(n: nat, x: nat, m: nat, h: nat)
    requires n == x + m * h && x < m
    ensures x == n % m
  {
    var k := n / m;
    assert (h - k) * m == n % m - x by {
      assert n == m * k + n % m;
      assert (h - k) * m == m * h - m * k;
    }
    Multiples(h - k, m);
  }

  /** Encoding then decoding keeps exactly the value modulo 256^k (the `as u32` truncation). */
  lemma DecodeEncode(n: nat, k: nat)
    ensures FromLe(ToLe(n, k)) == n % Pow256(k)
  {
    DecodeEncodeSplit(n, k);
    DecodeBound(ToLe(n, k));
    RemainderOf(n, FromLe(ToLe(n, k)), Pow256(k), Dropped(n, k));
  }

  lemma {:induction false} DecodeBound(b: seq<Byte>)
    ensures FromLe(b) < Pow256(|b|)
  {
    if b != [] {
      DecodeBound(b[1..]);
    }
  }

  /** Decoding is injective on byte strings of one length: re-encoding gives them back. */
  lemma {:induction false} EncodeDecode(b: seq<Byte>)
    ensures ToLe(FromLe(b), |b|) == b
  {
    if b != [] {
      EncodeDecode(b[1..]);
      assert FromLe(b) / 256 == FromLe(b[1..]);
    }
  }

  lemma {:induction false} DecodeAppend(a: seq<Byte>, b: seq<Byte>)
    ensures FromLe(a + b) == FromLe(a) + Pow256(|a|) * FromLe(b)
  {
    if a == [] {
      assert a + b == b;
    } else {
      DecodeAppend(a[1..], b);
      assert (a + b)[1..] == a[1..] + b;
      assert 256 * (Pow256(|a| - 1) * FromLe(b)) == Pow256(|a|) * FromLe(b);
    }
  }

  lemma {:induction false} EncodePrefix(n: nat, k: nat, j: nat)
    requires j <= k
    ensures ToLe(n, k)[..j] == ToLe(n, j)
  {
    if j > 0 {
      EncodePrefix(n / 256, k - 1, j - 1);
      assert ToLe(n, k)[..j] == [n % 256] + ToLe(n / 256, k - 1)[..j - 1];
    }
  }
}
