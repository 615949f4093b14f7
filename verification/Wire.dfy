/**
 Big-endian integers on the wire.  Shifts and ors over bytes are sums of multiples of 256.
 */
module Wire {

  type Byte = b: int | 0 <= b < 256

  type Bytes = seq<Byte>

  function Pow256(n: nat): (r: nat)
    ensures r > 0
  {
    if n == 0 then 1 else 256 * Pow256(n - 1)
  }

  /** The integer that the bytes spell, most significant first. */
  function Decode(b: Bytes): (n: nat) {
    if b == [] then 0 else 256 * Decode(b[..|b| - 1]) + b[|b| - 1]
  }

  /** The low `k` bytes of `n`, most significant first. */
  function Encode(n: nat, k: nat): (b: Bytes)
    ensures |b| == k
  {
    if k == 0 then [] else Encode(n / 256, k - 1) + [n % 256]
  }

  lemma {:induction false} DecodeEncode(n: nat, k: nat)
    requires n < Pow256(k)
    ensures Decode(Encode(n, k)) == n
  {
    if k > 0 {
      DecodeEncode(n / 256, k - 1);
      assert Encode(n, k)[..k - 1] == Encode(n / 256, k - 1);
    }
  }

  lemma {:induction false} EncodeDecode(b: Bytes)
    ensures Decode(b) < Pow256(|b|)
    ensures Encode(Decode(b), |b|) == b
  {
    if b != [] {
      EncodeDecode(b[..|b| - 1]);
      assert b == b[..|b| - 1] + [b[|b| - 1]];
    }
  }

  /** The first byte is the most significant one. */
  lemma {:induction false} FirstIsHighest(b: Bytes)
    requires b != []
    ensures Decode(b) == b[0] * Pow256(|b| - 1) + Decode(b[1..])
  {
    if |b| > 1 {
      var p := b[..|b| - 1];
      FirstIsHighest(p);
      assert b[1..][..|b| - 2] == p[1..];
      Shifted(b[0], Pow256(|b| - 2));
    }
  }

  lemma Shifted(x: nat, y: nat)
    ensures 256 * (x * y) == x * (256 * y)
  {
  }

  /** Two bytes, as they are read: high and low. */
  lemma Pair(b: Bytes)
    requires |b| == 2
    ensures var hi: int, lo: int := b[0], b[1]; Decode(b) == 256 * hi + lo
  {
    assert b[..1] == [b[0]];
    assert Decode([b[0]]) == b[0];
  }

  /** Only zero bytes spell zero. */
  lemma {:induction false} ZeroBytes(b: Bytes)
    ensures Decode(b) == 0 <==> forall k :: 0 <= k < |b| ==> b[k] == 0
  {
    if b != [] {
      ZeroBytes(b[..|b| - 1]);
    }
  }

  lemma Widths()
    ensures Pow256(2) == 0x1_0000
    ensures Pow256(4) == 0x1_0000_0000
    ensures Pow256(6) == 0x1_0000_0000_0000
    ensures Pow256(8) == 0x1_0000_0000_0000_0000
  {
  }

  // ----- Host order, least significant first -----

  function DecodeLow(b: Bytes): (n: nat) {
    if b == [] then 0 else b[0] + 256 * DecodeLow(b[1..])
  }

  function EncodeLow(n: nat, k: nat): (b: Bytes)
    ensures |b| == k
  {
    if k == 0 then [] else [n % 256] + EncodeLow(n / 256, k - 1)
  }

  lemma LowPair(n: nat)
    ensures EncodeLow(n, 2) == [n % 256, n / 256 % 256]
  {
    assert EncodeLow(n / 256, 1) == [n / 256 % 256] + EncodeLow(n / 256 / 256, 0);
  }

  lemma LowFour(n: nat)
    ensures EncodeLow(n, 4) == [n % 256, n / 256 % 256, n / 256 / 256 % 256, n / 256 / 256 / 256 % 256]
  {
    assert EncodeLow(n, 4) == [n % 256] + ([n / 256 % 256] + EncodeLow(n / 256 / 256, 2));
    LowPair(n / 256 / 256);
  }

  /** The last byte is the most significant one. */
  lemma {:induction false} LastIsHighest(b: Bytes)
    requires b != []
    ensures DecodeLow(b) == DecodeLow(b[..|b| - 1]) + b[|b| - 1] * Pow256(|b| - 1)
  {
    if |b| > 1 {
      LastIsHighest(b[1..]);
      assert b[1..][..|b| - 2] == b[..|b| - 1][1..];
      Shifted(b[|b| - 1], Pow256(|b| - 2));
    }
  }

  lemma {:induction false} DecodeEncodeLow(n: nat, k: nat)
    requires n < Pow256(k)
    ensures DecodeLow(EncodeLow(n, k)) == n
  {
    if k > 0 {
      DecodeEncodeLow(n / 256, k - 1);
      assert EncodeLow(n, k)[1..] == EncodeLow(n / 256, k - 1);
    }
  }
}
