/** Unsigned bytes and the big-endian integer encodings used by the container. */
module Bytes {

  /** A Go `byte`: an unsigned 8-bit value. Wrap-around is always written out explicitly. */
  type byte = x: int | 0 <= x < 256

  /** 256^n, the number of values an n-byte big-endian integer can take. */
  function Pow256(n: nat): (r: nat)
    ensures r >= 1
  {
    if n == 0 then 1 else 256 * Pow256(n - 1)
  }

  /** The value of `s` read as a big-endian unsigned integer (most significant byte first). */
  function BigEndian(s: seq<byte>): nat
  {
    if s == [] then 0 else BigEndian(s[..|s| - 1]) * 256 + s[|s| - 1]
  }

  /** Every big-endian value fits in its width. */
  lemma {:induction false} BigEndianBound(s: seq<byte>)
    ensures BigEndian(s) < Pow256(|s|)
  {
    if s != [] {
      var p := s[..|s| - 1];
      BigEndianBound(p);
      assert BigEndian(p) <= Pow256(|p|) - 1;
      assert BigEndian(s) <= (Pow256(|p|) - 1) * 256 + 255;
    }
  }

  /** A sequence of `n` zero bytes. */
  function Zeros(n: nat): (r: seq<byte>)
    ensures |r| == n && forall i :: 0 <= i < n ==> r[i] == 0
  {
    if n == 0 then [] else Zeros(n - 1) + [0]
  }

  lemma {:induction false} ZerosValue(n: nat)
    ensures BigEndian(Zeros(n)) == 0
  {
    if n > 0 {
      assert Zeros(n)[..n - 1] == Zeros(n - 1);
      ZerosValue(n - 1);
    }
  }

  const Uint32Limit: nat := 0x1_0000_0000

  /** `binary.BigEndian.PutUint32`: the four bytes of `v`, most significant first. */
  function PutUint32(v: nat): (r: seq<byte>)
    requires v < Uint32Limit
  {
    [v / 0x100_0000, (v / 0x1_0000) % 256, (v / 0x100) % 256, v % 256]
  }

  /** `binary.BigEndian.Uint32`: the value of four bytes, most significant first. */
  function Uint32(b: seq<byte>): (r: nat)
    requires |b| == 4
    ensures r < Uint32Limit
  {
    b[0] as int * 0x100_0000 + b[1] as int * 0x1_0000 + b[2] as int * 0x100 + b[3] as int
  }

  /** `Uint32` is the big-endian value of its four bytes. */
  lemma Uint32BigEndian(b: seq<byte>)
    requires |b| == 4
    ensures Uint32(b) == BigEndian(b)
  {
    assert b[..1][..0] == [] && b[..2][..1] == b[..1] && b[..3][..2] == b[..2] && b[..4][..3] == b[..3];
    var b0, b1, b2: int := b[0], b[1], b[2];
    assert BigEndian(b[..1]) == b0;
    assert BigEndian(b[..2]) == b0 * 256 + b1;
    assert BigEndian(b[..3]) == (b0 * 256 + b1) * 256 + b2;
    assert b[..4] == b;
  }

  /** Decoding a length prefix gives back the length that was encoded. */
  lemma PutUint32RoundTrip(v: nat)
    requires v < Uint32Limit
    ensures |PutUint32(v)| == 4 && Uint32(PutUint32(v)) == v
  {
    var hi := v / 0x1_0000;
    assert v == hi * 0x1_0000 + (v / 0x100) % 256 * 0x100 + v % 256;
    assert hi == v / 0x100_0000 * 256 + hi % 256;
  }
}
