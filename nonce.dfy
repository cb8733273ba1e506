/** The per-chunk nonce counter: `incrementNonce` and the nonce sequence it generates. */
module Nonce {
  import opened Bytes

  /** The nonce that follows `s`: `s` read as a big-endian counter plus one, propagating the
      carry leftward and wrapping silently when every byte is 0xFF. */
  function Incremented(s: seq<byte>): (r: seq<byte>)
    ensures |r| == |s|
  {
    if s == [] then []
    else if s[|s| - 1] < 255 then s[..|s| - 1] + [s[|s| - 1] + 1]
    else Incremented(s[..|s| - 1]) + [0]
  }

  /** Every byte from position `from` on is 0xFF. */
  ghost predicate AllMax(s: seq<byte>, from: int)
  {
    forall m :: 0 <= m < |s| && from <= m ==> s[m] == 255
  }

  /** The counter increases by exactly one, modulo 256^len. */
  lemma {:induction false} IncrementedValue(s: seq<byte>)
    ensures BigEndian(Incremented(s)) == (BigEndian(s) + 1) % Pow256(|s|)
  {
    if s == [] {
      ModExact(1, 1, 1);
    } else {
      var p := s[..|s| - 1];
      var r := Incremented(s);
      var m := Pow256(|p|);
      var v := BigEndian(s) + 1;
      assert Pow256(|s|) == m * 256;
      BigEndianBound(p);
      if s[|s| - 1] < 255 {
        assert r[..|r| - 1] == p;
        assert BigEndian(r) == v;
        ModExact(v, m * 256, 0);
      } else {
        var a := BigEndian(p) + 1;
        assert r[..|r| - 1] == Incremented(p);
        assert BigEndian(r) == BigEndian(Incremented(p)) * 256;
        IncrementedValue(p);
        assert v == a * 256;
        if a < m {
          ModExact(a, m, 0);
          ModExact(v, m * 256, 0);
          assert BigEndian(r) == v % (m * 256);
        } else {
          ModExact(a, m, 1);
          ModExact(v, m * 256, 1);
          assert BigEndian(r) == v % (m * 256);
        }
      }
    }
  }

  /** `x % m` is the remainder of any exact decomposition `x == q * m + r`. */
  lemma ModExact(x: int, m: int, q: int)
    requires m > 0 && 0 <= x - q * m < m
    ensures x % m == x - q * m
  {
    var d := x / m - q;
    assert d * m == (x - q * m) - x % m by {
      assert x == (x / m) * m + x % m;
      assert d * m == (x / m) * m - q * m;
    }
    if d > 0 {
      assert d * m == (d - 1) * m + m;
    } else if d < 0 {
      assert d * m == (d + 1) * m - m;
    }
  }

  /** Byte by byte: position k gains one (mod 256) exactly when everything after it is 0xFF,
      and keeps its value otherwise. Only the trailing run of 0xFF and the byte before it change. */
  lemma {:induction false} IncrementedAt(s: seq<byte>, k: nat)
    requires k < |s|
    ensures Incremented(s)[k] == if AllMax(s, k + 1) then (s[k] as int + 1) % 256 else s[k]
  {
    var n := |s| - 1;
    var p := s[..n];
    if k < n {
      if s[n] < 255 {
        assert !AllMax(s, k + 1) by { assert s[n] != 255; }
      } else {
        IncrementedAt(p, k);
        assert AllMax(s, k + 1) <==> AllMax(p, k + 1) by {
          if AllMax(p, k + 1) {
            forall m | k + 1 <= m < |s| ensures s[m] == 255 {
              if m < n { assert s[m] == p[m]; }
            }
          }
          if AllMax(s, k + 1) {
            forall m | k + 1 <= m < |p| ensures p[m] == 255 { assert s[m] == 255; }
          }
        }
      }
    }
  }

  /** An all-0xFF counter wraps to all zeros, of value 0, without error. */
  lemma {:induction false} IncrementedWraps(s: seq<byte>)
    requires AllMax(s, 0)
    ensures Incremented(s) == Zeros(|s|)
    ensures BigEndian(Incremented(s)) == 0
  {
    ZerosValue(|s|);
    if s != [] {
      var p := s[..|s| - 1];
      assert AllMax(p, 0) by {
        forall m | 0 <= m < |p| ensures p[m] == 255 { assert s[m] == 255; }
      }
      IncrementedWraps(p);
    }
  }

  /** Incrementing a counter whose tail from `j` on is all 0xFF increments the head and zeroes
      the tail: the loop invariant of `IncrementNonce`. */
  lemma {:induction false} IncrementedCarry(s: seq<byte>, j: nat)
    requires j <= |s| && AllMax(s, j)
    ensures Incremented(s) == Incremented(s[..j]) + Zeros(|s| - j)
  {
    if j < |s| {
      var p := s[..|s| - 1];
      assert s[|s| - 1] == 255;
      assert AllMax(p, j) by {
        forall m | j <= m < |p| ensures p[m] == 255 { assert s[m] == 255; }
      }
      IncrementedCarry(p, j);
      assert p[..j] == s[..j];
    } else {
      assert s[..j] == s;
    }
  }

  /** `incrementNonce`: adds one to the big-endian counter held in `nonce`, in place. */
  method IncrementNonce(nonce: array<byte>)
    modifies nonce
    ensures nonce[..] == Incremented(old(nonce[..]))
  {
    ghost var s := nonce[..];
    var i := nonce.Length - 1;
    while i >= 0
      invariant -1 <= i < nonce.Length
      invariant AllMax(s, i + 1)
      invariant nonce[..i + 1] == s[..i + 1]
      invariant nonce[i + 1..] == Zeros(nonce.Length - (i + 1))
    {
      nonce[i] := (nonce[i] as int + 1) % 256;
      if nonce[i] != 0 {
        assert s[i] < 255;
        IncrementedCarry(s, i + 1);
        assert s[..i + 1] == s[..i] + [s[i]];
        assert nonce[..] == nonce[..i + 1] + nonce[i + 1..];
        return;
      }
      i := i - 1;
    }
    IncrementedCarry(s, 0);
    assert nonce[..] == nonce[0..];
  }

  /** The nonce of the k-th chunk (0-based): the base nonce incremented k times. */
  function NonceAt(base: seq<byte>, k: nat): (r: seq<byte>)
    ensures |r| == |base|
  {
    if k == 0 then base else Incremented(NonceAt(base, k - 1))
  }

  /** Advancing the base by one shifts the whole sequence by one. */
  lemma {:induction false} NonceAtShift(base: seq<byte>, k: nat)
    ensures NonceAt(Incremented(base), k) == NonceAt(base, k + 1)
  {
    if k > 0 {
      NonceAtShift(base, k - 1);
    }
  }

  /** The k-th nonce is the base counter plus k, modulo 256^len. */
  lemma {:induction false} NonceAtValue(base: seq<byte>, k: nat)
    ensures BigEndian(NonceAt(base, k)) == (BigEndian(base) + k) % Pow256(|base|)
  {
    var m := Pow256(|base|);
    if k == 0 {
      BigEndianBound(base);
      ModExact(BigEndian(base), m, 0);
    } else {
      NonceAtValue(base, k - 1);
      IncrementedValue(NonceAt(base, k - 1));
      ModSucc(BigEndian(base) + k - 1, m);
    }
  }

  lemma ModSucc(x: nat, m: nat)
    requires m > 0
    ensures (x % m + 1) % m == (x + 1) % m
  {
    var q, r := x / m, x % m;
    assert x == q * m + r;
    if r + 1 < m {
      ModExact(r + 1, m, 0);
      ModExact(x + 1, m, q);
    } else {
      ModExact(r + 1, m, 1);
      assert (q + 1) * m == q * m + m;
      ModExact(x + 1, m, q + 1);
    }
  }

  /** Chunk nonces never repeat within one stream of fewer than 256^len chunks (2^96 for the
      12-byte nonce): the uniqueness requirement for AES-GCM nonces under one key. */
  lemma NonceAtDistinct(base: seq<byte>, j: nat, k: nat)
    requires j < k < Pow256(|base|)
    ensures NonceAt(base, j) != NonceAt(base, k)
  {
    NonceAtValue(base, j);
    NonceAtValue(base, k);
    BigEndianBound(base);
    ModDistinct(BigEndian(base), j, k, Pow256(|base|));
  }

  lemma ModDistinct(b: nat, j: nat, k: nat, m: nat)
    requires b < m && j < k < m
    ensures (b + j) % m != (b + k) % m
  {
    if b + k < m {
      ModExact(b + j, m, 0);
      ModExact(b + k, m, 0);
    } else if b + j >= m {
      ModExact(b + j, m, 1);
      ModExact(b + k, m, 1);
    } else {
      ModExact(b + j, m, 0);
      ModExact(b + k, m, 1);
    }
  }
}
