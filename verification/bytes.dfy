/** Bytes and fixed-width integers as they appear on the hasher's input stream.
    `LittleEndian` is what `binary.Write(w, binary.LittleEndian, x)` writes for a
    fixed-size integer; the decoders are its partners, used to state what the
    bytes mean. */
module Bytes {

  newtype byte = x: int | 0 <= x < 0x100

  /** Go's `uint64`, the type of every digest. */
  newtype u64 = x: int | 0 <= x < 0x1_0000_0000_0000_0000

  /** 256 to the power `w`: the number of distinct values of `w` bytes. */
  function Pow256(w: nat): (r: nat)
    ensures r >= 1
  {
    if w == 0 then 1 else 256 * Pow256(w - 1)
  }

  /** The `w` bytes of `x` in little-endian order. An `x` outside `[0, 256^w)`
      is reduced modulo 256^w, which is two's complement for a negative `x`. */
  function LittleEndian(x: int, w: nat): (r: seq<byte>)
    ensures |r| == w
    decreases w
  {
    if w == 0 then [] else [(x % 256) as byte] + LittleEndian(x / 256, w - 1)
  }

  /** Reads bytes as an unsigned little-endian integer. */
  function FromLittleEndian(bs: seq<byte>): (r: nat)
    ensures r < Pow256(|bs|)
  {
    if bs == [] then 0
    else
      var rest := FromLittleEndian(bs[1..]);
      assert rest <= Pow256(|bs| - 1) - 1;
      bs[0] as nat + 256 * rest
  }

  /** Reads an unsigned `w`-byte quantity as a two's complement signed one. */
  function ToSigned(u: nat, w: nat): int
  {
    if 2 * u >= Pow256(w) then u - Pow256(w) else u
  }

  /** Signed `w`-byte integers: `-2^(8w-1) <= i < 2^(8w-1)`. */
  predicate InSignedRange(i: int, w: nat)
  {
    -(Pow256(w) as int) <= 2 * i < Pow256(w)
  }

  /** Unsigned `w`-byte integers: `0 <= u < 2^(8w)`. */
  predicate InUnsignedRange(u: int, w: nat)
  {
    0 <= u < Pow256(w)
  }

  lemma ModOfDecomposition(x: int, m: int, a: int, c: int)
    requires m > 0 && 0 <= c < m && x == m * a + c
    ensures x % m == c
  {
    var q, r := x / m, x % m;
    assert x == m * q + r;
    var k := a - q;
    assert m * k == r - c;
    if k > 0 {
      MulAtLeast(m, k);
    } else if k < 0 {
      assert m * (-k) == c - r;
    }
  }

  lemma MulAtLeast(m: int, k: int)
    requires m > 0 && k >= 1
    ensures m * k >= m
  {
    assert m * k == m + m * (k - 1);
  }

  /** Decoding the little-endian bytes of `x` gives `x` modulo 256^w. */
  lemma {:induction false} LittleEndianRoundTrip(x: int, w: nat)
    ensures FromLittleEndian(LittleEndian(x, w)) == x % Pow256(w)
    decreases w
  {
    if w > 0 {
      var q := x / 256;
      LittleEndianRoundTrip(q, w - 1);
      var bs := LittleEndian(x, w);
      assert bs[0] == (x % 256) as byte && bs[1..] == LittleEndian(q, w - 1);
      DigitStep(x, Pow256(w - 1));
    }
  }

  /** The lowest base-256 digit of `x`, followed by the remaining digits
      modulo `p`, is `x` modulo `256 * p`. */
  lemma DigitStep(x: int, p: int)
    requires p >= 1
    ensures x % 256 + 256 * ((x / 256) % p) == x % (256 * p)
  {
    var q, r := x / 256, x % 256;
    var a, b := q / p, q % p;
    assert q == p * a + b;
    assert x == (256 * p) * a + (256 * b + r);
    assert 256 * b + r < 256 * p;
    ModOfDecomposition(x, 256 * p, a, 256 * b + r);
  }

  /** An unsigned value of `w` bytes is written so that it reads back exactly. */
  lemma UnsignedRoundTrip(u: int, w: nat)
    requires InUnsignedRange(u, w)
    ensures FromLittleEndian(LittleEndian(u, w)) == u
  {
    LittleEndianRoundTrip(u, w);
    ModOfDecomposition(u, Pow256(w), 0, u);
  }

  /** A signed value of `w` bytes is written in two's complement, so that it
      reads back exactly as a signed quantity. */
  lemma SignedRoundTrip(i: int, w: nat)
    requires InSignedRange(i, w)
    ensures ToSigned(FromLittleEndian(LittleEndian(i, w)), w) == i
  {
    var p := Pow256(w);
    LittleEndianRoundTrip(i, w);
    if i >= 0 {
      ModOfDecomposition(i, p, 0, i);
    } else {
      ModOfDecomposition(i, p, -1, i + p);
    }
  }
}
