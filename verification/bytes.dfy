/** Big-endian integers over byte sequences, as produced by Python's
    `int.from_bytes(bs, 'big')` and `int.from_bytes(bs, 'big', signed=True)`. */
module Bytes {

  type Byte = b: int | 0 <= b < 256

  /** 256 to the power n: one more than the largest n-byte unsigned value. */
  function Pow256(n: nat): (r: nat)
    ensures r >= 1
  {
    if n == 0 then 1 else 256 * Pow256(n - 1)
  }

  /** Smallest value a 32-bit two's-complement field can hold is -Int32Bound. */
  const Int32Bound: int := 0x8000_0000
  const Uint32Bound: int := 0x1_0000_0000

  predicate IsInt32(x: int) {
    -Int32Bound <= x < Int32Bound
  }

  /** Unsigned big-endian value: the first byte is the most significant. */
  function FromBE(bs: seq<Byte>): (r: nat)
    ensures r < Pow256(|bs|)
  {
    if |bs| == 0 then 0
    else
      var rest := FromBE(bs[1..]);
      MulMono(bs[0], 255, Pow256(|bs| - 1));
      bs[0] * Pow256(|bs| - 1) + rest
  }

  /** Two's-complement big-endian value; an empty sequence is 0, as in Python. */
  function FromBESigned(bs: seq<Byte>): (r: int)
    ensures |bs| == 0 ==> r == 0
    ensures |bs| > 0 ==> -128 * Pow256(|bs| - 1) <= r < 128 * Pow256(|bs| - 1)
    ensures |bs| > 0 ==> (r < 0 <==> bs[0] >= 128)
  {
    var u := FromBE(bs);
    if |bs| > 0 then
      TopBit(bs);
      if bs[0] >= 128 then u - Pow256(|bs|) else u
    else u
  }

  /** The leading byte has its top bit set exactly when the unsigned value
      reaches the upper half of its range. */
  lemma TopBit(bs: seq<Byte>)
    requires |bs| > 0
    ensures bs[0] >= 128 <==> FromBE(bs) >= 128 * Pow256(|bs| - 1)
  {
    var p := Pow256(|bs| - 1);
    var rest := FromBE(bs[1..]);
    var b: int := bs[0];
    assert FromBE(bs) == b * p + rest;
    if b >= 128 {
      MulMono(128, b, p);
    } else {
      MulMono(b, 127, p);
    }
    HalfSplit(b, p, rest, b * p);
  }

  /** The linear step of TopBit, kept apart from its products. */
  lemma HalfSplit(b: int, p: int, rest: int, bp: int)
    requires 0 <= rest < p
    requires b >= 128 ==> bp >= 128 * p
    requires b < 128 ==> bp <= 127 * p
    ensures b >= 128 <==> bp + rest >= 128 * p
  {
  }

  /** The n-byte big-endian encoding of an unsigned value below 256^n. */
  function ToBE(x: nat, n: nat): (bs: seq<Byte>)
    requires x < Pow256(n)
    ensures |bs| == n
  {
    if n == 0 then []
    else
      var p := Pow256(n - 1);
      DivBound(x, p);
      [x / p] + ToBE(x % p, n - 1)
  }

  lemma DivBound(x: nat, p: nat)
    requires p >= 1 && x < 256 * p
    ensures 0 <= x / p < 256
  {
    var q := x / p;
    assert x == q * p + x % p;
    if q >= 256 {
      MulMono(256, q, p);
    } else if q < 0 {
      MulMono(q, -1, p);
    }
  }

  /** Multiplying by a non-negative factor preserves order. */
  lemma {:induction false} MulMono(a: int, b: int, c: nat)
    requires a <= b
    ensures a * c <= b * c
  {
    if c > 0 {
      MulMono(a, b, c - 1);
      assert a * c == a * (c - 1) + a;
      assert b * c == b * (c - 1) + b;
    }
  }

  /** The n-byte two's-complement big-endian encoding of a value that fits. */
  function ToBESigned(x: int, n: nat): (bs: seq<Byte>)
    requires n >= 1
    requires -128 * Pow256(n - 1) <= x < 128 * Pow256(n - 1)
    ensures |bs| == n
  {
    ToBE(if x < 0 then x + Pow256(n) else x, n)
  }

  /** Decoding an encoding gives the value back. */
  lemma {:induction false} FromToBE(x: nat, n: nat)
    requires x < Pow256(n)
    ensures FromBE(ToBE(x, n)) == x
  {
    if n > 0 {
      var p := Pow256(n - 1);
      var q, r := x / p, x % p;
      DivMod(x, p);
      ToBEUnfold(x, n);
      FromToBE(r, n - 1);
      FromBEUnfold(ToBE(x, n));
    }
  }

  lemma ToBEUnfold(x: nat, n: nat)
    requires n > 0 && x < Pow256(n)
    ensures ToBE(x, n)[0] == x / Pow256(n - 1)
    ensures ToBE(x, n)[1..] == ToBE(x % Pow256(n - 1), n - 1)
  {
  }

  lemma FromBEUnfold(bs: seq<Byte>)
    requires |bs| > 0
    ensures FromBE(bs) == bs[0] * Pow256(|bs| - 1) + FromBE(bs[1..])
  {
  }

  /** Encoding a decoded sequence gives the sequence back: no two byte
      sequences of one length share a value. */
  lemma {:induction false} ToFromBE(bs: seq<Byte>)
    ensures ToBE(FromBE(bs), |bs|) == bs
  {
    if |bs| > 0 {
      var p := Pow256(|bs| - 1);
      var rest := FromBE(bs[1..]);
      var x := FromBE(bs);
      assert x == bs[0] * p + rest;
      DivModUnique(x, p, bs[0], rest);
      ToFromBE(bs[1..]);
      assert ToBE(x, |bs|) == [bs[0]] + ToBE(rest, |bs| - 1);
    }
  }

  lemma DivMod(x: nat, p: nat)
    requires p >= 1
    ensures x == (x / p) * p + x % p && 0 <= x % p < p
  {
  }

  lemma DivModUnique(x: int, p: int, q: int, r: int)
    requires p >= 1 && 0 <= r < p && x == q * p + r
    ensures x / p == q && x % p == r
  {
    var q', r' := x / p, x % p;
    assert x == q' * p + r';
    assert (q' - q) * p == r - r' by {
      assert (q' - q) * p == q' * p - q * p;
    }
    if q' > q {
      MulMono(1, q' - q, p);
    } else if q' < q {
      MulMono(1, q - q', p);
    }
  }

  lemma FromToBESigned(x: int, n: nat)
    requires n >= 1
    requires -128 * Pow256(n - 1) <= x < 128 * Pow256(n - 1)
    ensures FromBESigned(ToBESigned(x, n)) == x
  {
    var u := if x < 0 then x + Pow256(n) else x;
    FromToBE(u, n);
    TopBit(ToBE(u, n));
  }

  lemma ToFromBESigned(bs: seq<Byte>)
    requires |bs| >= 1
    ensures ToBESigned(FromBESigned(bs), |bs|) == bs
  {
    ToFromBE(bs);
    TopBit(bs);
  }

  /** Unsigned and signed readings of the same bytes agree when the top bit
      is clear and differ by exactly 256^n when it is set. */
  lemma UnsignedVersusSigned(bs: seq<Byte>)
    ensures FromBE(bs) == FromBESigned(bs) + (if FromBESigned(bs) < 0 then Pow256(|bs|) else 0)
  {
  }
}
