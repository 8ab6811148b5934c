/**
 * The little-endian integer readers of the LNAV decoder
 * (`int.from_bytes(b, "little", signed=...)`) and, as their partner,
 * the writers that produce the n-byte encoding of an in-range value.
 */
module LeCodec {
  import opened Common

  /** Unsigned little-endian value of `b`: the sum of b[i] * 256^i. */
  function ExtractUnsigned(b: seq<Byte>): (r: nat)
    ensures r < Pow256(|b|)
  {
    if |b| == 0 then 0 else b[0] + 256 * ExtractUnsigned(b[1..])
  }

  /** Half the range of an n-byte value: 2^(8n-1) for n > 0. */
  function Half(n: nat): int
  {
    Pow256(n) / 2
  }

  lemma HalfDoubles(n: nat)
    requires n > 0
    ensures 2 * Half(n) == Pow256(n)
  {
    assert Pow256(n) == 256 * Pow256(n - 1);
  }

  /**
   * Appending a more significant byte adds it at weight 256^|b|;
   * in particular the last byte is the most significant one.
   */
  lemma {:induction false} ExtractUnsignedSnoc(b: seq<Byte>, x: Byte)
    ensures ExtractUnsigned(b + [x]) == ExtractUnsigned(b) + x * Pow256(|b|)
  {
    if |b| == 0 {
      assert b + [x] == [x];
    } else {
      var xv := x;
      var p := Pow256(|b| - 1);
      var rest := ExtractUnsigned(b[1..]);
      assert (b + [x])[1..] == b[1..] + [x];
      ExtractUnsignedSnoc(b[1..], x);
      SnocStep(b[0], rest, xv, p);
    }
  }

  lemma SnocStep(b0: nat, rest: nat, x: nat, p: nat)
    ensures b0 + 256 * (rest + x * p) == (b0 + 256 * rest) + x * (256 * p)
  {
  }

  /** The top byte is at least 0x80 exactly when the unsigned value is at least 2^(8n-1). */
  lemma TopByteIsSign(b: seq<Byte>)
    requires |b| > 0
    ensures b[|b| - 1] >= 0x80 <==> ExtractUnsigned(b) >= Half(|b|)
  {
    var n := |b|;
    var lo, top := b[..n - 1], b[n - 1];
    var u, p := ExtractUnsigned(lo), Pow256(n - 1);
    assert ExtractUnsigned(b) == u + top * p by {
      assert b == lo + [top];
      ExtractUnsignedSnoc(lo, top);
    }
    assert Half(n) == 128 * p by {
      HalfOfNext(n - 1);
    }
    SignSplit(u, top, p);
  }

  lemma HalfOfNext(n: nat)
    ensures Half(n + 1) == 128 * Pow256(n)
  {
  }

  lemma SignSplit(u: nat, t: nat, p: nat)
    requires u < p && t < 256
    ensures t >= 128 <==> u + t * p >= 128 * p
  {
    if t >= 128 {
      MulMonotone(128, t, p);
    } else {
      MulMonotone(t, 127, p);
    }
  }

  lemma MulMonotone(a: nat, b: nat, p: nat)
    requires a <= b
    ensures a * p <= b * p
  {
  }

  /**
   * Two's-complement little-endian value of `b`: the unsigned value, less
   * 256^n when the top byte has its sign bit set. The empty string reads as 0.
   */
  function ExtractSigned(b: seq<Byte>): (r: int)
    ensures |b| == 0 ==> r == 0
    ensures |b| > 0 ==> -Half(|b|) <= r < Half(|b|)
    ensures r < 0 <==> |b| > 0 && b[|b| - 1] >= 0x80
  {
    if |b| > 0 then TopByteIsSign(b); HalfDoubles(|b|); SignedOf(b) else 0
  }

  function SignedOf(b: seq<Byte>): int
    requires |b| > 0
  {
    var u := ExtractUnsigned(b);
    if b[|b| - 1] >= 0x80 then u - Pow256(|b|) else u
  }

  /** The n-byte little-endian encoding of v, least significant byte first. */
  function UnsignedBytes(v: nat, n: nat): (b: seq<Byte>)
    ensures |b| == n
  {
    if n == 0 then [] else [v % 256] + UnsignedBytes(v / 256, n - 1)
  }

  /** The n-byte two's-complement encoding of v. */
  function SignedBytes(v: int, n: nat): (b: seq<Byte>)
    requires -Half(n) <= v < Half(n)
    ensures |b| == n
  {
    UnsignedBytes(if v < 0 then v + Pow256(n) else v, n)
  }

  /** Reading back the encoding of an in-range value gives the value. */
  lemma {:induction false} UnsignedRoundTrip(v: nat, n: nat)
    requires v < Pow256(n)
    ensures ExtractUnsigned(UnsignedBytes(v, n)) == v
  {
    if n > 0 {
      var b := UnsignedBytes(v, n);
      assert b[0] == v % 256 && b[1..] == UnsignedBytes(v / 256, n - 1);
      DivBound(v, Pow256(n - 1));
      UnsignedRoundTrip(v / 256, n - 1);
      DigitSplit(v);
    }
  }

  lemma DivBound(v: nat, p: nat)
    requires v < 256 * p
    ensures v / 256 < p
  {
  }

  lemma DigitSplit(v: nat)
    ensures v == v % 256 + 256 * (v / 256)
  {
  }

  lemma DigitsOf(d: nat, rest: nat)
    requires d < 256
    ensures (d + 256 * rest) % 256 == d && (d + 256 * rest) / 256 == rest
  {
  }

  /** Encoding the value read from `b` gives `b` back: the reader is injective. */
  lemma {:induction false} UnsignedBytesOfExtract(b: seq<Byte>)
    ensures UnsignedBytes(ExtractUnsigned(b), |b|) == b
  {
    if |b| > 0 {
      var v := ExtractUnsigned(b);
      var rest := ExtractUnsigned(b[1..]);
      DigitsOf(b[0], rest);
      UnsignedBytesOfExtract(b[1..]);
      assert UnsignedBytes(v, |b|) == [b[0]] + b[1..];
    }
  }

  /** Reading back the two's-complement encoding of an in-range value gives the value. */
  lemma SignedRoundTrip(v: int, n: nat)
    requires n > 0
    requires -Half(n) <= v < Half(n)
    ensures ExtractSigned(SignedBytes(v, n)) == v
  {
    var u := if v < 0 then v + Pow256(n) else v;
    assert 0 <= u < Pow256(n);
    UnsignedRoundTrip(u, n);
    var b := SignedBytes(v, n);
    TopByteIsSign(b);
    assert v < 0 <==> u >= Half(n);
  }
}
