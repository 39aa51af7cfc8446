# Time64: TAI microsecond timestamps of ITS certificates

`Time64` is the time value of the ITS certificate structures: an unbounded integer count
of TAI (International Atomic Time) microseconds since an epoch chosen by the certificate
version, carried on the wire as 8 big-endian bytes. Version 1 certificates count from TAI
second 1,199,232,034 (2010-01-01). Every other version counts from TAI second 1,009,843,232
(2004-01-01).

The model has four modules:

- `JavaArith` (`java_arith.dfy`): JVM arithmetic over unbounded integers. It has
  division and remainder rounded toward zero (`BigInteger.divide`, `remainder`,
  `BigDecimal.toBigInteger`) and narrowing to a signed 64-bit `long` with wrap-around
  (`longValue`, `long` addition). It also holds the division lemmas the proofs use.
- `BigIntBytes` (`bigint_bytes.dfy`): the two `BigInteger` byte primitives the codec
  uses. `ToByteArray` is the minimal big-endian two's-complement form. `Signed` is the
  constructor `new BigInteger(byte[])`. Bytes are octets 0..255, the same bit patterns
  as Java's signed `byte`.
- `Streams` (`streams.dfy`): an output stream as the bytes written so far (`OutputSink`)
  and an input stream as the bytes not yet read (`InputSource`).
- `Time64` (`time64.dfy`): the epoch constants and the epoch policy.
  - The forward conversion `ElapsedFromTai` is what the date constructor computes.
  - The backward split `DateArguments` is what `asDate` computes before calling time4j.
  - The 8-byte form is `EncodeBytes`.
  - The class `Time64` has the mutable field `timeStamp`, its three constructors,
    `asElapsedTime`, `asDate`, `encode`, `decode` and `equals`.
  - Three client methods compose the constructors, `encode`, `decode`, `asElapsedTime` and
    `equals`, and state what comes out.

The calendar side belongs to the time4j library and is not modelled. This covers
`java.util.Date` to a TAI instant, the leap-second table, and the way back. The date
constructor therefore takes the TAI instant that time4j would produce. It is a decimal
`TaiDecimal(unscaled, scale)` worth unscaled / 10^scale seconds, like the `BigDecimal`
returned by `Moment.transform(TimeScale.TAI)`. `asDate` returns the arguments it would
pass to `Moment.of`.

The field is `Option<int>`, because the serialization constructor leaves the Java field
`null`. `equals` treats two unset values as equal. `encode` and `asDate` would throw
a null-reference exception on an unset value, so they require the field to be set.

Two behaviours of the code are modelled as written:

- `asDate` passes the microsecond remainder to `Moment.of` where time4j expects
  nanoseconds. `NanoArgumentIsMicros` states how far the resulting instant is from the
  stored count.
- `encode` keeps only the low 8 bytes of a longer `toByteArray` result, with no error.
  `OversizeKeepsLowBytes` states this.

A hardened codec would reject three cases. The code raises no error for any of them, and
the model follows the code:

- A negative count or one of 2^64 or more is not rejected. A negative count is
  zero-padded, not sign-extended (`EncodeMinusOne`).
- A date at least one microsecond before the epoch gives a negative count. One less
  than a microsecond before it counts 0, because the count is rounded toward zero.
- The two versions' counts differ by the fixed 189,388,802 seconds, in microseconds, at or
  after both epochs (`EpochOffset`) and at or before both (`EpochOffsetBeforeBoth`). Between
  the epochs the gap is exact for whole-microsecond instants (`EpochOffsetWholeMicros`), but
  an instant with a sub-microsecond fraction makes it one short (`EpochOffsetBeforeEpoch`).
- A short read does not fail. The unread positions of the buffer stay zero
  (`Decode`, `ShortRead`).

## Model

| member | source | states |
|---|---|---|
| Time64.EpochBase | src/main/java/org/certificateservices/custom/c2x/its/datastructs/basic/Time64.java:63-67 | version 1, and only version 1, selects TAI second 1,199,232,034; every other version selects 1,009,843,232 |
| Time64.ElapsedFromTai | src/main/java/org/certificateservices/custom/c2x/its/datastructs/basic/Time64.java:60-68 | the count is the exact microseconds from the version's epoch to the TAI instant, rounded toward zero (non-negative at or after the epoch) |
| Time64.EpochAnchoring | src/main/java/org/certificateservices/custom/c2x/its/datastructs/basic/Time64.java:63-67 | an instant exactly at the version's epoch counts as 0, at any decimal scale |
| Time64.WholeMicros | src/main/java/org/certificateservices/custom/c2x/its/datastructs/basic/Time64.java:64-66 | an instant a whole k microseconds from the epoch, written with any scale of six or more decimals, counts as exactly k, before or after the epoch |
| Time64.EpochOffset | src/main/java/org/certificateservices/custom/c2x/its/datastructs/basic/Time64.java:63-67 | for an instant at or after both epochs, the version-2 count minus the version-1 count is exactly 189,388,802 * 10^6 |
| Time64.EpochOffsetBeforeEpoch | src/main/java/org/certificateservices/custom/c2x/its/datastructs/basic/Time64.java:63-67 | half a microsecond before the 2010 epoch (after the 2004 one), the version-1 count is 0 and the version-2 count is 189,388,802 * 10^6 - 1, one short of the fixed offset |
| Time64.EpochOffsetBeforeBoth | src/main/java/org/certificateservices/custom/c2x/its/datastructs/basic/Time64.java:63-67 | for an instant at or before both epochs, the version-2 count minus the version-1 count is exactly 189,388,802 * 10^6 |
| Time64.EpochOffsetWholeMicros | src/main/java/org/certificateservices/custom/c2x/its/datastructs/basic/Time64.java:63-67 | for an instant a whole number of microseconds from the 2010 epoch, at any scale of six or more decimals, the version-2 count minus the version-1 count is exactly 189,388,802 * 10^6 |
| Time64.DateArguments | src/main/java/org/certificateservices/custom/c2x/its/datastructs/basic/Time64.java:97-105 | the seconds passed are the count divided by 10^6 toward zero plus the base, modulo 2^64 as a long; the remainder passed has the sign of the count, magnitude below 10^6, and completes the division |
| Time64.DateSplit | src/main/java/org/certificateservices/custom/c2x/its/datastructs/basic/Time64.java:98-104 | for a non-negative count t: t = (t div 10^6) * 10^6 + t mod 10^6, the remainder lies in [0, 10^6), and on the wire range the seconds are exactly t div 10^6 plus the version's base |
| Time64.NanoArgumentIsMicros | src/main/java/org/certificateservices/custom/c2x/its/datastructs/basic/Time64.java:99-102 | the instant handed to Moment.of, in nanoseconds after the epoch, is the count * 1000 less 999 per microsecond of remainder; it is exact exactly when the count is a whole number of seconds |
| Time64.ForwardBack | src/main/java/org/certificateservices/custom/c2x/its/datastructs/basic/Time64.java:60-106 | for an instant at or after the epoch whose count fits the wire, asDate hands time4j exactly the instant's whole TAI seconds, and the whole microseconds of its fraction as the sub-second argument |
| Time64.SecondsOfCount | src/main/java/org/certificateservices/custom/c2x/its/datastructs/basic/Time64.java:98 | the whole seconds of the count are the instant's whole seconds less the base |
| Time64.MicrosOfCount | src/main/java/org/certificateservices/custom/c2x/its/datastructs/basic/Time64.java:99 | the sub-second remainder of the count is the whole microseconds of the instant's fraction |
| Time64.EncodeBytes | src/main/java/org/certificateservices/custom/c2x/its/datastructs/basic/Time64.java:119-128 | encode always produces exactly 8 bytes |
| Time64.EncodeValue | src/main/java/org/certificateservices/custom/c2x/its/datastructs/basic/Time64.java:119-128 | the 8 bytes' big-endian value is v mod 256^min(length of toByteArray, 8); for v >= 0 it is v mod 2^64 |
| Time64.EncodeDecode | src/main/java/org/certificateservices/custom/c2x/its/datastructs/basic/Time64.java:119-135 | for 0 <= v < 2^64, decoding the bytes encode writes (behind the zero byte of the 9-byte buffer) gives v, including v >= 2^63 |
| Time64.DecodeEncode | src/main/java/org/certificateservices/custom/c2x/its/datastructs/basic/Time64.java:119-135 | every 8-byte string decodes into [0, 2^64), and encoding that value gives the same 8 bytes back |
| Time64.OversizeKeepsLowBytes | src/main/java/org/certificateservices/custom/c2x/its/datastructs/basic/Time64.java:121-122 | a non-negative v encodes exactly as v mod 2^64 does; when toByteArray is longer than 8 bytes, the output is its low 8 bytes |
| Time64.NineByteArray | src/main/java/org/certificateservices/custom/c2x/its/datastructs/basic/Time64.java:120-122 | for 2^63 <= v < 2^64, toByteArray gives 9 bytes with a leading 0x00, and encode writes the other 8 |
| Time64.EncodeZero | src/main/java/org/certificateservices/custom/c2x/its/datastructs/basic/Time64.java:120-126 | encode(0) is eight zero bytes |
| Time64.EncodeOne | src/main/java/org/certificateservices/custom/c2x/its/datastructs/basic/Time64.java:120-126 | encode(1) is seven zero bytes followed by 0x01 |
| Time64.EncodeMinusOne | src/main/java/org/certificateservices/custom/c2x/its/datastructs/basic/Time64.java:120-126 | encode(-1) is seven zero bytes followed by 0xFF: negative counts are zero-padded, not sign-extended |
| Time64.UnsignedEightBytes | src/main/java/org/certificateservices/custom/c2x/its/datastructs/basic/Time64.java:132-134 | the decoded value is the big-endian sum of b[i] * 256^(7-i) over the 8 bytes |
| Time64.ShortRead | src/main/java/org/certificateservices/custom/c2x/its/datastructs/basic/Time64.java:132-134 | when fewer than 8 bytes arrive, the bytes read become the high bytes of the value, the rest being zero |
| Time64.Time64.FromDate | src/main/java/org/certificateservices/custom/c2x/its/datastructs/basic/Time64.java:60-68 | the date constructor stores the forward conversion of the TAI instant for the given version |
| Time64.Time64.FromElapsed | src/main/java/org/certificateservices/custom/c2x/its/datastructs/basic/Time64.java:75-77 | the raw constructor stores its argument unchanged |
| Time64.Time64.constructor | src/main/java/org/certificateservices/custom/c2x/its/datastructs/basic/Time64.java:83-86 | the serialization constructor leaves the count unset |
| Time64.Time64.AsElapsedTime | src/main/java/org/certificateservices/custom/c2x/its/datastructs/basic/Time64.java:113-115 | returns the stored count, None while it is unset |
| Time64.Time64.AsDate | src/main/java/org/certificateservices/custom/c2x/its/datastructs/basic/Time64.java:97-105 | on the wire range, the seconds passed to time4j are the count div 10^6 plus the version's base, and the sub-second argument is the count mod 10^6 |
| Time64.Time64.Encode | src/main/java/org/certificateservices/custom/c2x/its/datastructs/basic/Time64.java:119-128 | appends exactly the 8 bytes of EncodeBytes of the count to the output stream, by a sliced write or by padding then data |
| Time64.Time64.Decode | src/main/java/org/certificateservices/custom/c2x/its/datastructs/basic/Time64.java:131-135 | consumes min(8, available) bytes; the count becomes their unsigned value with missing bytes zero, always in [0, 2^64) |
| Time64.Time64.Equals | src/main/java/org/certificateservices/custom/c2x/its/datastructs/basic/Time64.java:161-175 | equal exactly when the other object is non-null and the stored counts are equal, unset counts being equal to each other |
| Time64.RawValueRoundTrip | src/main/java/org/certificateservices/custom/c2x/its/datastructs/basic/Time64.java:113-115 | asElapsedTime on a raw-constructed value returns the constructor's argument |
| Time64.WireRoundTrip | src/main/java/org/certificateservices/custom/c2x/its/datastructs/basic/Time64.java:118-135 | through the streams, exactly 8 bytes travel and a non-negative count comes back mod 2^64, so unchanged on [0, 2^64) |
| Time64.DateAndRawAreEqual | src/main/java/org/certificateservices/custom/c2x/its/datastructs/basic/Time64.java:161-175 | a value built from a date equals one built from the count that date gives: no version is retained |
| BigIntBytes.ToByteArray | src/main/java/org/certificateservices/custom/c2x/its/datastructs/basic/Time64.java:120 | toByteArray is the shortest two's-complement byte string holding v, and new BigInteger of it gives v back |
| BigIntBytes.ToByteArrayUnsigned | src/main/java/org/certificateservices/custom/c2x/its/datastructs/basic/Time64.java:120 | the unsigned value of toByteArray is v mod 256^length, which is v itself for v >= 0 |
| BigIntBytes.MinLength | src/main/java/org/certificateservices/custom/c2x/its/datastructs/basic/Time64.java:120 | the byte count of toByteArray is the least n with -2^(8n-1) <= v < 2^(8n-1) |
| BigIntBytes.Signed | src/main/java/org/certificateservices/custom/c2x/its/datastructs/basic/Time64.java:134 | new BigInteger(byte[]) lies in the two's-complement range of the length and is congruent to the unsigned value |
| BigIntBytes.LeadingZeroSigned | src/main/java/org/certificateservices/custom/c2x/its/datastructs/basic/Time64.java:132-134 | a leading zero byte makes new BigInteger read the remaining bytes as unsigned |
| BigIntBytes.Unsigned | src/main/java/org/certificateservices/custom/c2x/its/datastructs/basic/Time64.java:132-134 | the unsigned big-endian value of n bytes is below 256^n |
| BigIntBytes.LowBytes | src/main/java/org/certificateservices/custom/c2x/its/datastructs/basic/Time64.java:122 | the last k bytes of a string hold its value mod 256^k |
| BigIntBytes.LeadingZeros | src/main/java/org/certificateservices/custom/c2x/its/datastructs/basic/Time64.java:124-126 | zero padding in front leaves the unsigned value unchanged |
| BigIntBytes.BytesOfUnsigned | src/main/java/org/certificateservices/custom/c2x/its/datastructs/basic/Time64.java:119-128 | a byte string is determined by its length and unsigned value |
| Streams.OutputSink.Write | src/main/java/org/certificateservices/custom/c2x/its/datastructs/basic/Time64.java:122 | write(b, off, len) appends b[off..off+len] |
| Streams.OutputSink.WriteAll | src/main/java/org/certificateservices/custom/c2x/its/datastructs/basic/Time64.java:125-126 | write(b) appends all of b |
| Streams.InputSource.Read | src/main/java/org/certificateservices/custom/c2x/its/datastructs/basic/Time64.java:133 | read(buf, off, len) copies the next min(len, available) bytes into buf at off, leaves the rest of buf unchanged, and returns the count or -1 at end of stream |
| JavaArith.TruncDiv | src/main/java/org/certificateservices/custom/c2x/its/datastructs/basic/Time64.java:64 | the quotient is rounded toward zero: q*d <= a < (q+1)*d for a >= 0, and (q-1)*d < a <= q*d for a < 0 |
| JavaArith.TruncRem | src/main/java/org/certificateservices/custom/c2x/its/datastructs/basic/Time64.java:99 | the remainder completes the truncating division and has the sign of the dividend |
| JavaArith.ToLong | src/main/java/org/certificateservices/custom/c2x/its/datastructs/basic/Time64.java:98 | longValue is the one value in the signed 64-bit range congruent to x mod 2^64, and x itself when x fits |

## Left out

- The calendar translation is not modelled: `TemporalType.JAVA_UTIL_DATE.translate` and
  `from`, `Moment.transform(TimeScale.TAI)` and `Moment.of`. They are time4j code with
  leap-second tables. The model takes and returns their TAI side.
- Time4j's own checks on the arguments of `Moment.of` are not modelled (a negative
  sub-second value, for example). They live in time4j.
- `java.util.Date` and `BigDecimal` are not modelled as such. A TAI instant is a decimal
  with a non-negative scale. A `BigDecimal` with a negative scale is an integer and can be
  written with scale 0.
- `Streams.InputSource.Read` always reads all the bytes it can, up to `len`. A Java
  `InputStream` may legally return fewer. That case gives the same zero-filled result as
  a shorter stream.
- The exceptions are not modelled: `IOException` from the streams, and
  a null-reference exception from `encode` and `asDate` on an unset value. `Encode` and
  `AsDate` require the value to be set.
- `equals` can receive an object of another class. Here the argument is typed `Time64?`,
  so that case cannot arise.
- `toString`, `toString(certVersion)` and `hashCode` are left out. They are
  informational, and the hash depends on `BigInteger.hashCode`.
- The value of `Certificate.CERTIFICATE_VERSION_1` is taken to be 1. Certificate.java is
  not part of this model.
- `Time64.Time64.FromElapsed`: a `null` argument is not modelled. It gives the same unset
  state as the serialization constructor `Time64.Time64.constructor`.
- Concurrent use of one instance is not modelled.
