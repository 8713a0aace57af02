/** Byte strings and the little-endian integer codings the modelled code uses:
    the 32-byte canonical serialisation of a scalar (`serialize_compressed`
    on `Fr`) and `from_le_bytes_mod_order`. */
module Bytes {
  import opened Field

  type Byte = x: int | 0 <= x < 256

  /** 256^n */
  function Pow256(n: nat): (r: nat)
    ensures r >= 1
  {
    if n == 0 then 1 else 256 * Pow256(n - 1)
  }

  /** The n low-order bytes of v, least significant first. */
  function LeBytes(v: nat, n: nat): (r: seq<Byte>)
    ensures |r| == n
  {
    if n == 0 then [] else [v % 256] + LeBytes(v / 256, n - 1)
  }

  /** The integer whose little-endian bytes are bs. */
  function FromLe(bs: seq<Byte>): nat {
    if |bs| == 0 then 0 else bs[0] + 256 * FromLe(bs[1..])
  }

  lemma {:induction false} FromLeBound(bs: seq<Byte>)
    ensures FromLe(bs) < Pow256(|bs|)
    decreases |bs|
  {
    if |bs| > 0 {
      FromLeBound(bs[1..]);
      var r := FromLe(bs[1..]);
      assert r <= Pow256(|bs| - 1) - 1;
      assert 256 * r <= 256 * Pow256(|bs| - 1) - 256;
    }
  }

  lemma DivBound(v: nat, p: nat)
    requires v < 256 * p
    ensures v / 256 < p
  {
    assert 256 * (v / 256) <= v;
  }

  /** Decoding the bytes of a value that fits gives the value back. */
  lemma {:induction false} FromLeOfLeBytes(v: nat, n: nat)
    requires v < Pow256(n)
    ensures FromLe(LeBytes(v, n)) == v
    decreases n
  {
    if n > 0 {
      var q := v / 256;
      assert v == 256 * q + v % 256;
      DivBound(v, Pow256(n - 1));
      FromLeOfLeBytes(q, n - 1);
      assert LeBytes(v, n)[1..] == LeBytes(q, n - 1);
    }
  }

  /** Encoding the value of a byte string at its own width gives it back. */
  lemma {:induction false} LeBytesOfFromLe(bs: seq<Byte>)
    ensures LeBytes(FromLe(bs), |bs|) == bs
    decreases |bs|
  {
    if |bs| > 0 {
      var v, r := FromLe(bs), FromLe(bs[1..]);
      assert v == bs[0] + 256 * r;
      assert v % 256 == bs[0] && v / 256 == r;
      LeBytesOfFromLe(bs[1..]);
    }
  }

  // ---------------------------------------------------------------------------
  // Scalars as bytes.

  /** Width of a serialised scalar. */
  const SCALAR_BYTES: nat := 32

  lemma ScalarFits()
    ensures L < Pow256(SCALAR_BYTES)
  {
    var p8 := Pow256(8);
    assert p8 == 0x1_0000_0000_0000_0000 by {
      assert Pow256(4) == 0x1_0000_0000;
    }
    assert Pow256(16) == p8 * p8 by {
      Pow256Add(8, 8);
    }
    assert Pow256(32) == Pow256(16) * Pow256(16) by {
      Pow256Add(16, 16);
    }
  }

  lemma {:induction false} Pow256Add(m: nat, n: nat)
    ensures Pow256(m + n) == Pow256(m) * Pow256(n)
    decreases m
  {
    if m > 0 {
      Pow256Add(m - 1, n);
      assert Pow256(m + n) == 256 * Pow256(m - 1 + n);
    }
  }

  /** `serialize_compressed` on a scalar: 32 bytes, little-endian. */
  function ScalarBytes(s: Scalar): (r: seq<Byte>)
    ensures |r| == SCALAR_BYTES
  {
    LeBytes(s, SCALAR_BYTES)
  }

  /** The serialisation is the only 32-byte string whose little-endian
      value is the scalar. */
  lemma ScalarBytesUnique(bs: seq<Byte>, s: Scalar)
    requires |bs| == SCALAR_BYTES && FromLe(bs) == s
    ensures bs == ScalarBytes(s)
  {
    LeBytesOfFromLe(bs);
  }

  /** `ScalarField::from_le_bytes_mod_order`: the little-endian value of any
      number of bytes, reduced modulo L. */
  function FromLeBytesModOrder(bs: seq<Byte>): Scalar {
    FromLe(bs) % L
  }

  /** Serialising then reading back is the identity on scalars. */
  lemma ScalarBytesRoundTrip(s: Scalar)
    ensures FromLe(ScalarBytes(s)) == s
    ensures FromLeBytesModOrder(ScalarBytes(s)) == s
  {
    ScalarFits();
    FromLeOfLeBytes(s, SCALAR_BYTES);
    ModSmall(s);
  }

  /** Distinct scalars serialise to distinct bytes. */
  lemma ScalarBytesInjective(s: Scalar, t: Scalar)
    requires ScalarBytes(s) == ScalarBytes(t)
    ensures s == t
  {
    ScalarBytesRoundTrip(s);
    ScalarBytesRoundTrip(t);
  }

  /** The bytes of an ASCII string literal (Rust's `b"..."` and `&str` bytes). */
  function Ascii(s: string): (r: seq<Byte>)
    requires forall i :: 0 <= i < |s| ==> s[i] as int < 128
    ensures |r| == |s|
    ensures forall i :: 0 <= i < |s| ==> r[i] == s[i] as int
  {
    seq(|s|, i requires 0 <= i < |s| => s[i] as int)
  }
}
