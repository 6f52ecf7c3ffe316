/** Little-endian integers in byte sequences and in byte buffers. */
module Bytes {
  import opened Ints

  function Pow256(k: nat): nat { if k == 0 then 1 else 256 * Pow256(k - 1) }

  /** The k low bytes of v, lowest first. */
  function LE(v: nat, k: nat): (b: seq<u8>)
    ensures |b| == k
  {
    if k == 0 then [] else [v % 256] + LE(v / 256, k - 1)
  }

  function FromLE(b: seq<u8>): nat {
    if b == [] then 0 else b[0] + 256 * FromLE(b[1..])
  }

  lemma {:induction false} FromLEInverts(v: nat, k: nat)
    requires v < Pow256(k)
    ensures FromLE(LE(v, k)) == v
  {
    if k > 0 {
      FromLEInverts(v / 256, k - 1);
      assert LE(v, k)[1..] == LE(v / 256, k - 1);
    }
  }

  lemma {:induction false} FromLEBound(b: seq<u8>)
    ensures FromLE(b) < Pow256(|b|)
  {
    if b != [] {
      FromLEBound(b[1..]);
    }
  }

  lemma Widths()
    ensures Pow256(2) == 0x1_0000 && Pow256(4) == 0x1_0000_0000 && Pow256(8) == TWO64
  {
    assert Pow256(1) == 256;
    assert Pow256(3) == 256 * Pow256(2);
    assert Pow256(5) == 256 * Pow256(4);
    assert Pow256(6) == 256 * Pow256(5);
    assert Pow256(7) == 256 * Pow256(6);
  }

  function Zeros(n: nat): (b: seq<u8>)
    ensures |b| == n && forall i :: 0 <= i < n ==> b[i] == 0
  {
    seq(n, i => 0)
  }

  /** Zeros behind the bytes of a little-endian number do not change it. */
  lemma {:induction false} FromLEPads(b: seq<u8>, n: nat)
    ensures FromLE(b + Zeros(n)) == FromLE(b)
  {
    if b != [] {
      assert (b + Zeros(n))[1..] == b[1..] + Zeros(n);
      FromLEPads(b[1..], n);
    } else if n > 0 {
      assert (b + Zeros(n))[1..] == [] + Zeros(n - 1);
      FromLEPads([], n - 1);
    }
  }

  /** The first j bytes of a number are the number modulo 256^j. */
  lemma {:induction false} LowBytes(v: nat, k: nat, j: nat)
    requires j <= k
    ensures Pow256(j) > 0 && FromLE(LE(v, k)[..j]) == v % Pow256(j)
  {
    if j > 0 {
      LowBytes(v / 256, k - 1, j - 1);
      assert LE(v, k)[..j][1..] == LE(v / 256, k - 1)[..j - 1];
      var p, q := Pow256(j - 1), v / 256;
      MulDiv(q, p, v % 256);
    }
  }

  lemma MulDiv(q: nat, p: nat, r: nat)
    requires p > 0 && r < 256
    ensures (256 * q + r) % (256 * p) == r + 256 * (q % p)
  {
    var n := q / p;
    assert q == p * n + q % p;
    assert 256 * q + r == (256 * p) * n + (r + 256 * (q % p));
    DivUnique(256 * q + r, 256 * p, n, r + 256 * (q % p));
  }

  /** Stores the k low bytes of v at position at. */
  method Put(buf: array<u8>, at: nat, v: nat, k: nat)
    requires at + k <= buf.Length
    modifies buf
    ensures buf[at..at + k] == LE(v, k)
    ensures forall i :: 0 <= i < buf.Length && !(at <= i < at + k) ==> buf[i] == old(buf[i])
    decreases k
  {
    if k > 0 {
      buf[at] := v % 256;
      Put(buf, at + 1, v / 256, k - 1);
      assert buf[at..at + k] == [buf[at]] + buf[at + 1..at + k];
    }
  }
}
