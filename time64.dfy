/**
 * Time64 of the ITS certificate formats: a count of TAI microseconds since a
 * certificate-version-specific epoch, carried on the wire as 8 big-endian bytes.
 *
 * The calendar translation (java.util.Date to and from a TAI instant, with its leap-second
 * table) belongs to the time4j library and is not modelled: its TAI side is the input
 * `TaiDecimal` of the date constructor and the output `MomentArgs` of `AsDate`.
 */
module Time64 {
  import opened JavaArith
  import opened BigIntBytes
  import opened Streams

  datatype Option<T> = None | Some(value: T)

  const SecondsBetweenTaiZeroAnd2004: int := 1009843232
  const SecondsBetweenTaiZeroAnd2010: int := 1199232034
  /** The value of `Certificate.CERTIFICATE_VERSION_1`. */
  const CertificateVersion1: int := 1
  const MicrosPerSecond: int := 1000000

  // ---------------------------------------------------------------- epoch policy

  /** The TAI second at which counting starts: 2010-01-01 for version 1, 2004-01-01 for every other version. */
  function EpochBase(certVersion: int): (base: int)
    ensures base == SecondsBetweenTaiZeroAnd2010 <==> certVersion == CertificateVersion1
    ensures base == SecondsBetweenTaiZeroAnd2004 <==> certVersion != CertificateVersion1
  {
    if certVersion == CertificateVersion1 then SecondsBetweenTaiZeroAnd2010 else SecondsBetweenTaiZeroAnd2004
  }

  // ---------------------------------------------------------------- forward conversion

  /**
   * A TAI instant as time4j returns it from `Moment.transform(TimeScale.TAI)`: a `BigDecimal`
   * number of seconds since the TAI zero point, worth unscaled / 10^scale.
   */
  datatype TaiDecimal = TaiDecimal(unscaled: int, scale: nat)

  /** Microseconds from the epoch to the instant, exactly, as a numerator over 10^scale. */
  function ExactMicros(certVersion: int, tai: TaiDecimal): int {
    (tai.unscaled - EpochBase(certVersion) * Pow10(tai.scale)) * MicrosPerSecond
  }

  /**
   * The date constructor's count: (tai - base) * 10^6 with the fraction discarded,
   * so the whole number of microseconds elapsed, rounded toward zero.
   */
  function ElapsedFromTai(certVersion: int, tai: TaiDecimal): (t: int)
    ensures var n, d := ExactMicros(certVersion, tai), Pow10(tai.scale);
      && (0 <= n ==> 0 <= t && t * d <= n < (t + 1) * d)
      && (n < 0 ==> t <= 0 && (t - 1) * d < n <= t * d)
  {
    TruncDiv(ExactMicros(certVersion, tai), Pow10(tai.scale))
  }

  /** An instant exactly at a version's epoch counts as zero, whatever the decimal's scale. */
  lemma {:induction false} EpochAnchoring(certVersion: int, scale: nat)
    ensures ElapsedFromTai(certVersion, TaiDecimal(EpochBase(certVersion) * Pow10(scale), scale)) == 0
  {
  }

  /**
   * An instant a whole number k of microseconds from the epoch counts as exactly k, before or
   * after it, whatever decimal scale of at least six places the instant is written with.
   */
  lemma {:induction false} WholeMicros(certVersion: int, k: int, scale: nat)
    requires scale >= 6
    ensures ElapsedFromTai(certVersion,
      TaiDecimal(EpochBase(certVersion) * Pow10(scale) + k * Pow10(scale - 6), scale)) == k
  {
    var d, p := Pow10(scale), Pow10(scale - 6);
    var b := EpochBase(certVersion);
    Pow10Add(scale - 6, 6);
    assert Pow10(6) == MicrosPerSecond;
    var tai := TaiDecimal(b * d + k * p, scale);
    assert ExactMicros(certVersion, tai) == (b * d + k * p - b * d) * MicrosPerSecond;
    ScaledMicros(b * d, k, p, d);
    TruncDivExact(k, d);
  }

  /** The arithmetic of WholeMicros: k * 10^(s-6) whole microseconds are k * 10^s millionths of a 10^-s. */
  lemma {:induction false} ScaledMicros(x: int, k: int, p: int, d: int)
    requires d == p * MicrosPerSecond
    ensures (x + k * p - x) * MicrosPerSecond == k * d
  {
  }

  /** Dividing an exact multiple of d by d, toward zero, gives the multiplier. */
  lemma {:induction false} TruncDivExact(k: int, d: int)
    requires d > 0
    ensures TruncDiv(k * d, d) == k
  {
    if k >= 0 {
      DivModUnique(k * d, d, k, 0);
    } else {
      DivModUnique(-k * d, d, -k, 0);
    }
  }

  /**
   * For an instant at or after both epochs, a version-2 count exceeds the version-1 count
   * by exactly the 189,388,802 seconds between them, in microseconds.
   */
  lemma {:induction false} EpochOffset(certVersion: int, tai: TaiDecimal)
    requires certVersion != CertificateVersion1
    requires tai.unscaled >= SecondsBetweenTaiZeroAnd2010 * Pow10(tai.scale)
    ensures ElapsedFromTai(certVersion, tai) - ElapsedFromTai(CertificateVersion1, tai)
         == (SecondsBetweenTaiZeroAnd2010 - SecondsBetweenTaiZeroAnd2004) * MicrosPerSecond
  {
    var d := Pow10(tai.scale);
    var gap := (SecondsBetweenTaiZeroAnd2010 - SecondsBetweenTaiZeroAnd2004) * MicrosPerSecond;
    var n1 := ExactMicros(CertificateVersion1, tai);
    var n2 := ExactMicros(certVersion, tai);
    assert n2 == n1 + gap * d;
    DivAddMultiple(n1, gap, d);
  }

  /**
   * For an instant at or before both epochs both exact counts are negative and both are
   * rounded toward zero, so the gap between them is again exact.
   */
  lemma {:induction false} EpochOffsetBeforeBoth(certVersion: int, tai: TaiDecimal)
    requires certVersion != CertificateVersion1
    requires tai.unscaled <= SecondsBetweenTaiZeroAnd2004 * Pow10(tai.scale)
    ensures ElapsedFromTai(certVersion, tai) - ElapsedFromTai(CertificateVersion1, tai)
         == (SecondsBetweenTaiZeroAnd2010 - SecondsBetweenTaiZeroAnd2004) * MicrosPerSecond
  {
    var d := Pow10(tai.scale);
    var gap := (SecondsBetweenTaiZeroAnd2010 - SecondsBetweenTaiZeroAnd2004) * MicrosPerSecond;
    var n1 := ExactMicros(CertificateVersion1, tai);
    var n2 := ExactMicros(certVersion, tai);
    assert n2 == n1 + gap * d;
    assert n2 <= 0 && n1 < 0 by {
      MulLe(tai.unscaled - SecondsBetweenTaiZeroAnd2004 * d, 0, MicrosPerSecond);
    }
    assert -n1 == -n2 + gap * d;
    DivAddMultiple(-n2, gap, d);
    assert TruncDiv(n1, d) == -((-n1) / d);
    assert TruncDiv(n2, d) == -((-n2) / d);
  }

  /**
   * Between the epochs the gap is exact for every instant a whole number of microseconds
   * from the 2010 epoch, at any scale of six or more decimals.
   */
  lemma {:induction false} EpochOffsetWholeMicros(certVersion: int, k: int, scale: nat)
    requires certVersion != CertificateVersion1
    requires scale >= 6
    ensures var tai := TaiDecimal(SecondsBetweenTaiZeroAnd2010 * Pow10(scale) + k * Pow10(scale - 6), scale);
      ElapsedFromTai(certVersion, tai) - ElapsedFromTai(CertificateVersion1, tai)
        == (SecondsBetweenTaiZeroAnd2010 - SecondsBetweenTaiZeroAnd2004) * MicrosPerSecond
  {
    var gapSeconds := SecondsBetweenTaiZeroAnd2010 - SecondsBetweenTaiZeroAnd2004;
    var gap := gapSeconds * MicrosPerSecond;
    var p, d := Pow10(scale - 6), Pow10(scale);
    Pow10Add(scale - 6, 6);
    assert Pow10(6) == MicrosPerSecond;
    WholeMicros(CertificateVersion1, k, scale);
    WholeMicros(certVersion, k + gap, scale);
    ShiftedEpoch(SecondsBetweenTaiZeroAnd2004, gapSeconds, k, p, d);
  }

  /** The arithmetic of EpochOffsetWholeMicros: moving the base by g seconds moves k by g * 10^6. */
  lemma {:induction false} ShiftedEpoch(b: int, g: int, k: int, p: int, d: int)
    requires d == p * MicrosPerSecond
    ensures (b + g) * d + k * p == b * d + (k + g * MicrosPerSecond) * p
  {
  }

  /**
   * Between the epochs an instant with a sub-microsecond fraction breaks the gap: half a
   * microsecond before 2010 the version-1 count rounds toward zero to 0 while the version-2
   * count falls one short of the gap.
   */
  lemma {:induction false} EpochOffsetBeforeEpoch()
    ensures var tai := TaiDecimal(11992320339999995, 7);
      && ElapsedFromTai(CertificateVersion1, tai) == 0
      && ElapsedFromTai(2, tai) == (SecondsBetweenTaiZeroAnd2010 - SecondsBetweenTaiZeroAnd2004) * MicrosPerSecond - 1
  {
    var tai := TaiDecimal(11992320339999995, 7);
    assert Pow10(7) == 10000000;
    assert ExactMicros(CertificateVersion1, tai) == -5000000;
    assert ExactMicros(2, tai) == 1893888019999995000000;
    DivModUnique(5000000, 10000000, 0, 5000000);
    DivModUnique(1893888019999995000000, 10000000, 189388801999999, 5000000);
  }

  // ---------------------------------------------------------------- backward split (asDate)

  /** The arguments `asDate` passes to `Moment.of(elapsedTime, nanoSeconds, TimeScale.TAI)`. */
  datatype MomentArgs = MomentArgs(taiSeconds: int, nanoArgument: int)

  /**
   * `asDate` up to the time4j call: the count split into whole seconds (rounded toward zero,
   * narrowed to a `long`) plus the epoch base in `long` arithmetic, and the microsecond
   * remainder, which is passed on where time4j expects nanoseconds. The remainder is below
   * 10^6 in magnitude, so its narrowing by `intValue` leaves it unchanged.
   */
  function DateArguments(t: int, certVersion: int): (m: MomentArgs)
    ensures -TwoTo63 <= m.taiSeconds < TwoTo63
    ensures (TruncDiv(t, MicrosPerSecond) + EpochBase(certVersion) - m.taiSeconds) % TwoTo64 == 0
    ensures t == TruncDiv(t, MicrosPerSecond) * MicrosPerSecond + m.nanoArgument
    ensures -MicrosPerSecond < m.nanoArgument < MicrosPerSecond
    ensures 0 <= t ==> 0 <= m.nanoArgument
  {
    var elapsedTime := ToLong(TruncDiv(t, MicrosPerSecond));
    var nanoSeconds := TruncRem(t, MicrosPerSecond);
    MomentArgs(ToLong(elapsedTime + EpochBase(certVersion)), nanoSeconds)
  }

  /**
   * For a non-negative count: t = (t div 10^6) * 10^6 + (t mod 10^6), the remainder is what is
   * passed as the sub-second part, and on the whole wire range the seconds are exactly
   * t div 10^6 plus the version's base (no `long` wrap-around).
   */
  lemma {:induction false} DateSplit(t: int, certVersion: int)
    requires 0 <= t
    ensures var m := DateArguments(t, certVersion);
      && t == (t / MicrosPerSecond) * MicrosPerSecond + m.nanoArgument
      && m.nanoArgument == t % MicrosPerSecond
      && 0 <= m.nanoArgument < MicrosPerSecond
      && (t < TwoTo64 ==> m.taiSeconds == t / MicrosPerSecond + EpochBase(certVersion))
  {
    var q := t / MicrosPerSecond;
    assert TruncDiv(t, MicrosPerSecond) == q;
    if t < TwoTo64 {
      assert q <= TwoTo64 / MicrosPerSecond;
      assert ToLong(q) == q;
      assert ToLong(q + EpochBase(certVersion)) == q + EpochBase(certVersion);
    }
  }

  /**
   * The instant `Moment.of` is given, in nanoseconds after the epoch, falls short of the
   * stored count by 999 ns per microsecond of remainder: it is exact just when the count is
   * a whole number of seconds.
   */
  lemma {:induction false} NanoArgumentIsMicros(t: int, certVersion: int)
    requires 0 <= t < TwoTo64
    ensures var m := DateArguments(t, certVersion);
      && (m.taiSeconds - EpochBase(certVersion)) * 1000000000 + m.nanoArgument
         == t * 1000 - 999 * (t % MicrosPerSecond)
      && ((m.taiSeconds - EpochBase(certVersion)) * 1000000000 + m.nanoArgument == t * 1000
          <==> t % MicrosPerSecond == 0)
  {
    DateSplit(t, certVersion);
  }

  /**
   * Forward then backward: for an instant at or after the epoch whose count fits the wire,
   * `asDate` hands time4j exactly the instant's whole TAI seconds, and as sub-second part the
   * whole microseconds of its fraction.
   */
  lemma {:induction false} ForwardBack(certVersion: int, tai: TaiDecimal)
    requires tai.unscaled >= EpochBase(certVersion) * Pow10(tai.scale)
    requires ElapsedFromTai(certVersion, tai) < TwoTo64
    ensures var d := Pow10(tai.scale);
      var m := DateArguments(ElapsedFromTai(certVersion, tai), certVersion);
      && m.taiSeconds == tai.unscaled / d
      && m.nanoArgument == (tai.unscaled % d) * MicrosPerSecond / d
  {
    var d := Pow10(tai.scale);
    var u := tai.unscaled;
    var b := EpochBase(certVersion);
    var t := ElapsedFromTai(certVersion, tai);
    assert t == ((u - b * d) * MicrosPerSecond) / d;
    DateSplit(t, certVersion);
    SecondsOfCount(u, b, d);
    MicrosOfCount(u, b, d);
  }

  /** Whole seconds of the count, in TAI seconds: the instant's whole seconds less the base. */
  lemma {:induction false} SecondsOfCount(u: int, b: int, d: int)
    requires d > 0 && u >= b * d
    ensures ((u - b * d) * MicrosPerSecond / d) / MicrosPerSecond == u / d - b
  {
    var n := (u - b * d) * MicrosPerSecond;
    DivDiv(n, d, MicrosPerSecond);
    MulDivCancel(u - b * d, d, MicrosPerSecond);
    assert d * MicrosPerSecond == MicrosPerSecond * d;
    DivAddMultiple(u, -b, d);
    assert u + (-b) * d == u - b * d;
  }

  /** Sub-second microseconds of the count: the whole microseconds in the instant's fraction. */
  lemma {:induction false} MicrosOfCount(u: int, b: int, d: int)
    requires d > 0 && u >= b * d
    ensures ((u - b * d) * MicrosPerSecond / d) % MicrosPerSecond == (u % d) * MicrosPerSecond / d
  {
    var n := (u - b * d) * MicrosPerSecond;
    var t := n / d;
    var w := u * MicrosPerSecond;
    assert n == w + (-b * MicrosPerSecond) * d;
    DivAddMultiple(w, -b * MicrosPerSecond, d);
    assert t == w / d - b * MicrosPerSecond;
    var f := (u % d) * MicrosPerSecond;
    assert u == (u / d) * d + u % d;
    assert f == w + (-(u / d) * MicrosPerSecond) * d;
    DivAddMultiple(w, -(u / d) * MicrosPerSecond, d);
    SecondsOfCount(u, b, d);
    assert t / MicrosPerSecond == u / d - b;
    assert t % MicrosPerSecond == t - (t / MicrosPerSecond) * MicrosPerSecond;
  }

  // ---------------------------------------------------------------- fixed-width codec

  /**
   * The 8 bytes `encode` writes: `toByteArray`, left-padded with zero bytes when shorter than 8,
   * cut to its low 8 bytes when longer. For v >= 0 they are v modulo 2^64, big-endian.
   */
  function EncodeBytes(v: int): (r: seq<Byte>)
    ensures |r| == 8
  {
    var data := ToByteArray(v);
    if |data| > 8 then data[|data| - 8..] else Zeros(8 - |data|) + data
  }

  /**
   * The value of the 8 bytes: v modulo 256^min(length, 8) of its `toByteArray` form, so for
   * v >= 0 exactly v modulo 2^64; a negative v is zero-padded, not sign-extended.
   */
  lemma {:induction false} EncodeValue(v: int)
    ensures Unsigned(EncodeBytes(v)) == v % Pow256(Min(|ToByteArray(v)|, 8))
    ensures 0 <= v ==> Unsigned(EncodeBytes(v)) == v % TwoTo64
  {
    var data := ToByteArray(v);
    var n := |data|;
    ToByteArrayUnsigned(v);
    assert Pow256(8) == TwoTo64;
    if n > 8 {
      LowBytes(data, 8);
      Pow256Add(n - 8, 8);
      ModMod(v, Pow256(8), Pow256(n - 8));
    } else {
      LeadingZeros(8 - n, data);
      Pow256Monotone(n, 8);
      if 0 <= v {
        DivModUnique(v, Pow256(8), 0, v);
      }
    }
  }

  /** Round-trip: decoding what `encode` wrote gives back every value of the unsigned 64-bit range. */
  lemma {:induction false} EncodeDecode(v: int)
    requires 0 <= v < TwoTo64
    ensures Signed([0] + EncodeBytes(v)) == v
  {
    EncodeValue(v);
    LeadingZeroSigned(EncodeBytes(v));
    DivModUnique(v, TwoTo64, 0, v);
  }

  /** The other direction: every 8-byte string is what `encode` writes for the value decoded from it. */
  lemma {:induction false} DecodeEncode(b: seq<Byte>)
    requires |b| == 8
    ensures 0 <= Signed([0] + b) < TwoTo64
    ensures EncodeBytes(Signed([0] + b)) == b
  {
    LeadingZeroSigned(b);
    var v := Unsigned(b);
    assert Pow256(8) == TwoTo64;
    DivModUnique(v, TwoTo64, 0, v);
    EncodeValue(v);
    BytesOfUnsigned(b);
    BytesOfUnsigned(EncodeBytes(v));
  }

  /** A value of 2^64 or more loses its high bytes silently: it encodes as v mod 2^64 does. */
  lemma {:induction false} OversizeKeepsLowBytes(v: int)
    requires v >= 0
    ensures EncodeBytes(v) == EncodeBytes(v % TwoTo64)
    ensures |ToByteArray(v)| > 8 ==> EncodeBytes(v) == ToByteArray(v)[|ToByteArray(v)| - 8..]
  {
    var w := v % TwoTo64;
    DivModUnique(w, TwoTo64, 0, w);
    EncodeValue(v);
    EncodeValue(w);
    BytesOfUnsigned(EncodeBytes(v));
    BytesOfUnsigned(EncodeBytes(w));
  }

  /**
   * From 2^63 up to 2^64 `toByteArray` yields 9 bytes, the first of them 0x00, and `encode`
   * drops exactly that byte.
   */
  lemma {:induction false} NineByteArray(v: int)
    requires TwoTo63 <= v < TwoTo64
    ensures |ToByteArray(v)| == 9 && ToByteArray(v)[0] == 0
    ensures EncodeBytes(v) == ToByteArray(v)[1..]
  {
    var r := ToByteArray(v);
    var n := |r|;
    assert Half(8) == TwoTo63;
    assert Half(9) == 128 * TwoTo64;
    if n <= 8 {
      Pow256Monotone(n - 1, 7);
      assert false;
    }
    if n >= 10 {
      Pow256Monotone(8, n - 2);
      assert false;
    }
    SignBit(r);
    ToByteArrayUnsigned(v);
    assert r == [r[0]] + r[1..];
    UnsignedAppend([r[0]], r[1..]);
    assert Unsigned([r[0]]) == r[0] by {
      assert [r[0]][..0] == [];
    }
    if r[0] > 0 {
      MulLe(1, r[0], TwoTo64);
      assert false;
    }
  }

  lemma {:induction false} EncodeZero()
    ensures EncodeBytes(0) == [0, 0, 0, 0, 0, 0, 0, 0]
  {
    ToByteArraySmall(0);
    assert Zeros(7) == [0, 0, 0, 0, 0, 0, 0];
  }

  lemma {:induction false} EncodeOne()
    ensures EncodeBytes(1) == [0, 0, 0, 0, 0, 0, 0, 1]
  {
    ToByteArraySmall(1);
    assert Zeros(7) == [0, 0, 0, 0, 0, 0, 0];
  }

  /** A negative count is not sign-extended: -1 becomes seven zero bytes and 0xFF. */
  lemma {:induction false} EncodeMinusOne()
    ensures EncodeBytes(-1) == [0, 0, 0, 0, 0, 0, 0, 255]
  {
    ToByteArraySmall(-1);
    assert Zeros(7) == [0, 0, 0, 0, 0, 0, 0];
  }

  /** The decoded value is the big-endian sum of the 8 bytes, b[i] weighted by 256^(7-i). */
  lemma {:induction false} UnsignedEightBytes(b: seq<Byte>)
    requires |b| == 8
    ensures Unsigned(b) == b[0] as int * 72057594037927936 + b[1] as int * 281474976710656
      + b[2] as int * 1099511627776 + b[3] as int * 4294967296 + b[4] as int * 16777216
      + b[5] as int * 65536 + b[6] as int * 256 + b[7] as int
  {
    assert Unsigned(b) == Unsigned(b[..7]) * 256 + b[7];
    assert b[..7][..6] == b[..6];
    assert Unsigned(b[..7]) == Unsigned(b[..6]) * 256 + b[6];
    assert b[..6][..5] == b[..5];
    assert Unsigned(b[..6]) == Unsigned(b[..5]) * 256 + b[5];
    assert b[..5][..4] == b[..4];
    assert Unsigned(b[..5]) == Unsigned(b[..4]) * 256 + b[4];
    assert b[..4][..3] == b[..3];
    assert Unsigned(b[..4]) == Unsigned(b[..3]) * 256 + b[3];
    assert b[..3][..2] == b[..2];
    assert Unsigned(b[..3]) == Unsigned(b[..2]) * 256 + b[2];
    assert b[..2][..1] == b[..1];
    assert Unsigned(b[..2]) == Unsigned(b[..1]) * 256 + b[1];
    assert b[..1][..0] == [];
    assert Unsigned(b[..1]) == b[0];
  }

  /**
   * A short read leaves the unread bytes of the buffer zero: the bytes that did arrive are
   * read as the high bytes of the value, and no error is raised.
   */
  lemma {:induction false} ShortRead(got: seq<Byte>)
    requires |got| < 8
    ensures Unsigned(got + Zeros(8 - |got|)) == Unsigned(got) * Pow256(8 - |got|)
  {
    TrailingZeros(got, 8 - |got|);
  }

  // ---------------------------------------------------------------- the value object

  class Time64 {
    /** `null` until set: the serialization constructor leaves it unset. */
    var timeStamp: Option<int>

    /** From a TAI instant and a certificate version. */
    constructor FromDate(certVersion: int, tai: TaiDecimal)
      ensures timeStamp == Some(ElapsedFromTai(certVersion, tai))
    {
      timeStamp := Some(ElapsedFromTai(certVersion, tai));
    }

    /** From a raw microsecond count, stored unchanged. */
    constructor FromElapsed(elapsedTime: int)
      ensures timeStamp == Some(elapsedTime)
    {
      timeStamp := Some(elapsedTime);
    }

    /** The serialization constructor: nothing set until `Decode`. */
    constructor ()
      ensures timeStamp == None
    {
      timeStamp := None;
    }

    /** `asElapsedTime`: the stored count, `None` while unset. */
    function AsElapsedTime(): (r: Option<int>)
      reads this
      ensures r == timeStamp
    {
      timeStamp
    }

    /** The TAI side of `asDate`: what is passed to time4j for the given version. */
    function AsDate(certVersion: int): (m: MomentArgs)
      requires timeStamp.Some?
      reads this
      ensures 0 <= timeStamp.value < TwoTo64 ==>
        && m.taiSeconds == timeStamp.value / MicrosPerSecond + EpochBase(certVersion)
        && m.nanoArgument == timeStamp.value % MicrosPerSecond
    {
      if 0 <= timeStamp.value then
        DateSplit(timeStamp.value, certVersion);
        DateArguments(timeStamp.value, certVersion)
      else
        DateArguments(timeStamp.value, certVersion)
    }

    /** Writes the 8-byte form: a sliced write of the low 8 bytes, or padding then the data. */
    method Encode(out: OutputSink)
      requires timeStamp.Some?
      modifies out
      ensures out.written == old(out.written) + EncodeBytes(timeStamp.value)
    {
      var data := ToByteArray(timeStamp.value);
      if |data| > 8 {
        out.Write(data, |data| - 8, 8);
        assert data[|data| - 8..|data| - 8 + 8] == data[|data| - 8..];
      } else {
        var padding := Zeros(8 - |data|);
        out.WriteAll(padding);
        out.WriteAll(data);
        assert old(out.written) + padding + data == old(out.written) + (padding + data);
      }
    }

    /**
     * Reads up to 8 bytes into a 9-byte buffer behind a zero byte and takes the buffer as a
     * `BigInteger`, so the count is the bytes read as unsigned, missing bytes being zero.
     */
    method Decode(input: InputSource)
      modifies this, input
      ensures var k := Min(8, |old(input.remaining)|);
        && input.remaining == old(input.remaining)[k..]
        && timeStamp == Some(Unsigned(old(input.remaining)[..k] + Zeros(8 - k)))
      ensures 0 <= timeStamp.value < TwoTo64
    {
      ghost var k := Min(8, |input.remaining|);
      ghost var got := input.remaining[..k];
      var data := new Byte[9](_ => 0);
      var n := input.Read(data, 1, 8);
      assert data[..] == [0] + got + Zeros(8 - k);
      LeadingZeroSigned(got + Zeros(8 - k));
      assert [0] + got + Zeros(8 - k) == [0] + (got + Zeros(8 - k));
      timeStamp := Some(Signed(data[..]));
      assert Pow256(8) == TwoTo64;
    }

    /** `equals`: the same class and the same stored count, unset counts being equal to each other. */
    function Equals(other: Time64?): (r: bool)
      reads this, other
      ensures r <==> other != null && timeStamp == other.timeStamp
    {
      if this == other then true
      else if other == null then false
      else if timeStamp.None? then other.timeStamp.None?
      else other.timeStamp.Some? && timeStamp.value == other.timeStamp.value
    }
  }

  // ---------------------------------------------------------------- clients

  /** The raw constructor stores its argument and `asElapsedTime` returns it. */
  method RawValueRoundTrip(v: int) returns (r: Option<int>)
    ensures r == Some(v)
  {
    var t := new Time64.FromElapsed(v);
    r := t.AsElapsedTime();
  }

  /**
   * Through the streams: encode a count, decode the bytes into a fresh serialization instance.
   * Exactly 8 bytes travel, and a non-negative count comes back modulo 2^64.
   */
  method WireRoundTrip(v: int) returns (wire: seq<Byte>, r: Option<int>)
    ensures |wire| == 8 && Unsigned(wire) == v % Pow256(Min(|ToByteArray(v)|, 8))
    ensures 0 <= v ==> r == Some(v % TwoTo64)
    ensures 0 <= v < TwoTo64 ==> r == Some(v)
  {
    var t := new Time64.FromElapsed(v);
    var out := new OutputSink();
    t.Encode(out);
    wire := out.written;
    assert wire == EncodeBytes(v);
    EncodeValue(v);
    var input := new InputSource(wire);
    var u := new Time64();
    u.Decode(input);
    assert Min(8, |wire|) == 8;
    assert wire[..8] + Zeros(0) == wire;
    assert u.timeStamp == Some(Unsigned(wire));
    r := u.AsElapsedTime();
    if 0 <= v < TwoTo64 {
      DivModUnique(v, TwoTo64, 0, v);
    }
  }

  /** Equality ignores how a value was built: from a date, or from the count that date gives. */
  method DateAndRawAreEqual(certVersion: int, tai: TaiDecimal) returns (same: bool)
    ensures same
  {
    var a := new Time64.FromDate(certVersion, tai);
    var b := new Time64.FromElapsed(ElapsedFromTai(certVersion, tai));
    same := a.Equals(b);
  }
}
