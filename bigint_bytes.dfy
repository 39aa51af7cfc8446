/**
 * The two byte-array primitives of `java.math.BigInteger` that the time codec relies on:
 * `toByteArray` (minimal big-endian two's complement) and the constructor `BigInteger(byte[])`
 * (big-endian two's complement). Bytes are octets 0..255; Java's signed `byte` is the same bit pattern.
 */
module BigIntBytes {
  import opened JavaArith

  type Byte = b: int | 0 <= b < 256

  /** 256^n, the number of distinct n-byte strings. */
  function Pow256(n: nat): (p: nat)
    ensures p >= 1
  {
    if n == 0 then 1 else 256 * Pow256(n - 1)
  }

  /** Half the range of n bytes: n-byte two's complement holds exactly -Half(n) .. Half(n) - 1. */
  function Half(n: nat): (h: int)
    requires n >= 1
    ensures h >= 128 && 2 * h == Pow256(n)
  {
    128 * Pow256(n - 1)
  }

  /** n zero bytes, as a freshly allocated Java `byte[n]` holds. */
  function Zeros(n: nat): (z: seq<Byte>)
    ensures |z| == n
    ensures forall i :: 0 <= i < n ==> z[i] == 0
  {
    if n == 0 then [] else [0] + Zeros(n - 1)
  }

  /** Big-endian unsigned value of a byte string: the sum of b[i] * 256^(|b|-1-i). */
  function Unsigned(b: seq<Byte>): (v: nat)
    ensures v < Pow256(|b|)
  {
    if b == [] then 0 else Unsigned(b[..|b| - 1]) * 256 + b[|b| - 1]
  }

  /** The n-byte big-endian string whose unsigned value is x. */
  function BytesOf(x: nat, n: nat): (b: seq<Byte>)
    requires x < Pow256(n)
    ensures |b| == n && Unsigned(b) == x
  {
    if n == 0 then []
    else
      var b := BytesOf(x / 256, n - 1) + [x % 256];
      assert b[..|b| - 1] == BytesOf(x / 256, n - 1);
      b
  }

  /** `new BigInteger(b)`: big-endian two's complement, the top bit of b[0] being the sign. */
  function Signed(b: seq<Byte>): (v: int)
    requires |b| >= 1
    ensures -Half(|b|) <= v < Half(|b|)
    ensures v % Pow256(|b|) == Unsigned(b)
  {
    SignBit(b);
    if b[0] < 128 then
      DivModUnique(Unsigned(b), Pow256(|b|), 0, Unsigned(b));
      Unsigned(b)
    else
      DivModUnique(Unsigned(b) - Pow256(|b|), Pow256(|b|), -1, Unsigned(b));
      Unsigned(b) - Pow256(|b|)
  }

  /** v is representable in n bytes of two's complement. */
  predicate Fits(v: int, n: nat) {
    n >= 1 && -Half(n) <= v < Half(n)
  }

  /** The number of bytes `toByteArray` uses: the fewest that hold v with its sign bit. */
  function MinLength(v: int): (n: nat)
    ensures Fits(v, n)
    ensures n == 1 || !Fits(v, n - 1)
    decreases if v < 0 then -v else v
  {
    if -128 <= v < 128 then 1 else 1 + MinLength(v / 256)
  }

  /** `BigInteger.toByteArray`: the minimal big-endian two's-complement bytes of v. */
  function ToByteArray(v: int): (r: seq<Byte>)
    ensures |r| >= 1 && Fits(v, |r|)
    ensures |r| == 1 || !Fits(v, |r| - 1)
    ensures Signed(r) == v
  {
    var n := MinLength(v);
    var r := BytesOf(v % Pow256(n), n);
    SignBit(r);
    if v >= 0 then
      DivModUnique(v, Pow256(n), 0, v);
      r
    else
      DivModUnique(v, Pow256(n), -1, v + Pow256(n));
      r
  }

  /** Unsigned value of a concatenation: the high part shifted by the length of the low part. */
  lemma {:induction false} UnsignedAppend(a: seq<Byte>, b: seq<Byte>)
    ensures Unsigned(a + b) == Unsigned(a) * Pow256(|b|) + Unsigned(b)
  {
    if b == [] {
      assert a + b == a;
    } else {
      var b' := b[..|b| - 1];
      var last := b[|b| - 1];
      assert (a + b)[..|a + b| - 1] == a + b';
      assert (a + b)[|a + b| - 1] == last;
      assert b == b' + [last];
      UnsignedAppend(a, b');
      ShiftStep(Unsigned(a), Pow256(|b'|), Unsigned(b'), last, Unsigned(a + b'), Unsigned(a + b), Unsigned(b));
    }
  }

  /** The arithmetic of one step of UnsignedAppend, kept apart from the sequences. */
  lemma {:induction false} ShiftStep(ua: int, p: int, ub': int, last: int, uab': int, uab: int, ub: int)
    requires uab' == ua * p + ub'
    requires uab == uab' * 256 + last
    requires ub == ub' * 256 + last
    ensures uab == ua * (256 * p) + ub
  {
  }

  /** The sign bit: b[0] >= 128 exactly when the unsigned value reaches the upper half. */
  lemma {:induction false} SignBit(b: seq<Byte>)
    requires |b| >= 1
    ensures b[0] < 128 <==> Unsigned(b) < Half(|b|)
  {
    assert b == [b[0]] + b[1..];
    UnsignedAppend([b[0]], b[1..]);
    assert Unsigned([b[0]]) == b[0] by {
      assert [b[0]][..0] == [];
    }
    var p := Pow256(|b| - 1);
    if b[0] < 128 {
      MulLe(b[0], 127, p);
    } else {
      MulLe(128, b[0], p);
    }
  }

  /** A single byte is its own value. */
  lemma {:induction false} SingleByte(r: seq<Byte>)
    requires |r| == 1
    ensures Unsigned(r) == r[0]
  {
    assert r[..0] == [];
  }

  /** Values of -128 .. 127 take one byte: the value itself, or 256 plus it when negative. */
  lemma {:induction false} ToByteArraySmall(v: int)
    requires -128 <= v < 128
    ensures ToByteArray(v) == [if v >= 0 then v else v + 256]
  {
    var r := ToByteArray(v);
    SingleByte(r);
  }

  /** Zero bytes behind shift the value up by a byte each. */
  lemma {:induction false} TrailingZeros(b: seq<Byte>, k: nat)
    ensures Unsigned(b + Zeros(k)) == Unsigned(b) * Pow256(k)
  {
    var z := Zeros(k);
    UnsignedAppend(b, z);
    ZerosUnsigned(k);
  }

  /** Zero bytes in front do not change the unsigned value. */
  lemma {:induction false} LeadingZeros(k: nat, b: seq<Byte>)
    ensures Unsigned(Zeros(k) + b) == Unsigned(b)
  {
    UnsignedAppend(Zeros(k), b);
    ZerosUnsigned(k);
  }

  lemma {:induction false} ZerosUnsigned(k: nat)
    ensures Unsigned(Zeros(k)) == 0
  {
    if k > 0 {
      var z := Zeros(k);
      assert z == Zeros(k - 1) + [0];
      assert z[..k - 1] == Zeros(k - 1);
      ZerosUnsigned(k - 1);
    }
  }

  /** A leading zero byte makes `new BigInteger` read the rest as unsigned. */
  lemma {:induction false} LeadingZeroSigned(b: seq<Byte>)
    ensures Signed([0] + b) == Unsigned(b)
  {
    var z: seq<Byte> := [0];
    assert (z + b)[0] == 0;
    UnsignedAppend(z, b);
    assert Unsigned(z) == 0 by {
      assert z[..0] == [];
    }
    assert Unsigned(z) * Pow256(|b|) == 0;
  }

  /** The low k bytes of a string hold its value modulo 256^k. */
  lemma {:induction false} LowBytes(b: seq<Byte>, k: nat)
    requires k <= |b|
    ensures Unsigned(b[|b| - k..]) == Unsigned(b) % Pow256(k)
  {
    var hi, lo := b[..|b| - k], b[|b| - k..];
    assert hi + lo == b;
    UnsignedAppend(hi, lo);
    ModOfShifted(Unsigned(b), Unsigned(hi), Unsigned(lo), Pow256(k));
  }

  lemma {:induction false} ModOfShifted(u: int, uh: int, ul: int, p: int)
    requires p > 0 && 0 <= ul < p && u == uh * p + ul
    ensures u % p == ul
  {
    DivModUnique(u, p, uh, ul);
  }

  /** A byte string is determined by its length and unsigned value. */
  lemma {:induction false} BytesOfUnsigned(b: seq<Byte>)
    ensures BytesOf(Unsigned(b), |b|) == b
  {
    if b != [] {
      var b', last := b[..|b| - 1], b[|b| - 1];
      var u, u' := Unsigned(b), Unsigned(b[..|b| - 1]);
      assert u == u' * 256 + last;
      assert u / 256 == u' && u % 256 == last;
      assert BytesOf(u, |b|) == BytesOf(u', |b'|) + [last];
      BytesOfUnsigned(b');
      assert b == b' + [last];
    }
  }

  /** 256^i <= 256^j for i <= j. */
  lemma {:induction false} Pow256Monotone(i: nat, j: nat)
    requires i <= j
    ensures Pow256(i) <= Pow256(j)
  {
    if i < j {
      Pow256Monotone(i, j - 1);
    }
  }

  /** The unsigned value of `toByteArray`: v modulo 256^length, which is v itself when v >= 0. */
  lemma {:induction false} ToByteArrayUnsigned(v: int)
    ensures Unsigned(ToByteArray(v)) == v % Pow256(|ToByteArray(v)|)
    ensures 0 <= v ==> Unsigned(ToByteArray(v)) == v
  {
    var r := ToByteArray(v);
    if 0 <= v {
      DivModUnique(v, Pow256(|r|), 0, v);
    }
  }

  lemma {:induction false} Pow256Add(i: nat, j: nat)
    ensures Pow256(i + j) == Pow256(i) * Pow256(j)
  {
    if i > 0 {
      Pow256Add(i - 1, j);
      assert Pow256(i + j) == 256 * Pow256(i - 1 + j);
    }
  }
}
