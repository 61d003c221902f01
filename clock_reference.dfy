/** Program clock reference (PCR) and original PCR: a 33-bit base counted at
    90 kHz, six reserved bits, and a 9-bit extension counted at 27 MHz
    (section 2.4.3.5 of ITU-T H.222.0). */
module ClockReference {
  import opened Common

  const NanosPerSecond: nat := 1_000_000_000
  const BaseHz: nat := 90_000
  const ExtensionHz: nat := 27_000_000

  /** The Go `ClockReference`; `duration` is the `time.Duration` in nanoseconds. */
  datatype ClockReference = ClockReference(base: uint33, extension: uint9, duration: int)

  /** Six bytes packed big-endian into a 48-bit value. The Go code ORs
      non-overlapping shifted bytes, which is the same as adding them. */
  function Pack48(b: seq<byte>): (v: nat)
    requires |b| >= 6
    ensures v < 0x1_0000_0000_0000
  {
    b[0] as int * 0x100_0000_0000 + b[1] as int * 0x1_0000_0000 + b[2] as int * 0x100_0000
      + b[3] as int * 0x1_0000 + b[4] as int * 0x100 + b[5] as int
  }

  /** The clock value: base is the packed value without its low 15 bits,
      extension its low 9 bits, and the duration the sum of the two
      truncating integer conversions to nanoseconds. */
  function ParseClockReference(b: seq<byte>): (r: ClockReference)
    requires |b| >= 6
    // base is exactly b[0..4] followed by the top bit of b[4]
    ensures r.base == b[0] as int * 0x200_0000 + b[1] as int * 0x2_0000 + b[2] as int * 0x200
                      + b[3] as int * 2 + b[4] as int / 0x80
    // extension is exactly the low bit of b[4] followed by b[5]
    ensures r.extension == b[4] as int % 2 * 0x100 + b[5] as int
    // the duration is base/90 kHz + extension/27 MHz seconds, less than 2 ns short of exact
    ensures 0 <= r.duration
    ensures r.duration * ExtensionHz <= (300 * r.base + r.extension) * NanosPerSecond
    ensures (300 * r.base + r.extension) * NanosPerSecond < (r.duration + 2) * ExtensionHz
  {
    var pcr := Pack48(b);
    PackSplit(b);
    var base := pcr / 0x8000;
    var ext := pcr % 0x200;
    ClockReference(base, ext, Nanoseconds(base, ext))
  }

  /** The packed value split at bit 15 and at bit 9. */
  lemma PackSplit(b: seq<byte>)
    requires |b| >= 6
    ensures Pack48(b) / 0x8000 == b[0] as int * 0x200_0000 + b[1] as int * 0x2_0000
                                + b[2] as int * 0x200 + b[3] as int * 2 + b[4] as int / 0x80
    ensures Pack48(b) % 0x200 == b[4] as int % 2 * 0x100 + b[5] as int
  {
    var high := b[0] as int * 0x200_0000 + b[1] as int * 0x2_0000 + b[2] as int * 0x200
      + b[3] as int * 2 + b[4] as int / 0x80;
    var mid := b[4] as int % 0x80;
    assert b[4] as int == b[4] as int / 0x80 * 0x80 + mid;
    assert Pack48(b) == high * 0x8000 + (mid * 0x100 + b[5] as int);
    DivMod0x8000(Pack48(b), high, mid * 0x100 + b[5] as int);
    assert b[4] as int == b[4] as int / 2 * 2 + b[4] as int % 2;
    assert Pack48(b) == (high * 0x40 + mid / 2) * 0x200 + (b[4] as int % 2 * 0x100 + b[5] as int);
    DivMod0x200(Pack48(b), high * 0x40 + mid / 2, b[4] as int % 2 * 0x100 + b[5] as int);
  }

  lemma DivMod0x8000(x: int, q: int, r: int)
    requires 0 <= r < 0x8000 && x == q * 0x8000 + r
    ensures x / 0x8000 == q
  {
  }

  lemma DivMod0x200(x: int, q: int, r: int)
    requires 0 <= r < 0x200 && x == q * 0x200 + r
    ensures x % 0x200 == r
  {
  }

  /** `(base * 1e9) / 90_000 + (extension * 1e9) / 27_000_000`, as in the Go code. */
  function Nanoseconds(base: uint33, ext: uint9): int
  {
    base * NanosPerSecond / BaseHz + ext * NanosPerSecond / ExtensionHz
  }

  /** The Go code multiplies an int64 base by 1e9: a 33-bit base keeps that below 2^63. */
  lemma NoInt64Overflow(base: uint33)
    ensures base * NanosPerSecond < 0x8000_0000_0000_0000
  {
  }

  /** Zero clock, one second of base ticks, and the largest extension. */
  lemma DurationExamples()
    ensures Nanoseconds(0, 0) == 0
    ensures Nanoseconds(90_000, 0) == NanosPerSecond
    ensures Nanoseconds(0, 511) == 18_925
  {
  }

  /** The six bytes of a clock reference with the reserved bits set, as a multiplexer writes them. */
  function EncodeClockReference(base: uint33, ext: uint9): (b: seq<byte>)
    ensures |b| == 6
  {
    [ base / 0x200_0000,
      base / 0x2_0000 % 0x100,
      base / 0x200 % 0x100,
      base / 2 % 0x100,
      base % 2 * 0x80 + 0x7E + ext / 0x100,
      ext % 0x100 ]
  }

  /** Decoding an encoded clock reference gives back its base and extension,
      whatever the six reserved bits hold. */
  lemma ClockReferenceRoundTrip(base: uint33, ext: uint9)
    ensures ParseClockReference(EncodeClockReference(base, ext)).base == base
    ensures ParseClockReference(EncodeClockReference(base, ext)).extension == ext
  {
    var b := EncodeClockReference(base, ext);
    MarkerByte(base % 2, ext / 0x100);
    BaseDigits(base);
    assert b[4] as int / 0x80 == base % 2;
    assert b[4] as int % 2 == ext / 0x100;
  }

  /** The byte holding the low base bit, the six reserved bits and the high extension bit. */
  lemma MarkerByte(h: nat, e: nat)
    requires h < 2 && e < 2
    ensures (h * 0x80 + 0x7E + e) / 0x80 == h && (h * 0x80 + 0x7E + e) % 2 == e
  {
  }

  /** A 33-bit base is its top 25 bits, three more bytes and its low bit. */
  lemma BaseDigits(base: uint33)
    ensures base == base / 0x200_0000 * 0x200_0000 + base / 0x2_0000 % 0x100 * 0x2_0000
                    + base / 0x200 % 0x100 * 0x200 + base / 2 % 0x100 * 2 + base % 2
  {
    assert base / 2 == base / 0x200 * 0x100 + base / 2 % 0x100;
    assert base / 0x200 == base / 0x2_0000 * 0x100 + base / 0x200 % 0x100;
    assert base / 0x2_0000 == base / 0x200_0000 * 0x100 + base / 0x2_0000 % 0x100;
  }

  /** The reserved bits (bits 6..1 of b[4]) never reach the decoded clock. */
  lemma ReservedBitsIgnored(b: seq<byte>, c: seq<byte>)
    requires |b| >= 6 && |c| >= 6
    requires b[0] == c[0] && b[1] == c[1] && b[2] == c[2] && b[3] == c[3] && b[5] == c[5]
    requires b[4] / 0x80 == c[4] / 0x80 && b[4] % 2 == c[4] % 2
    ensures ParseClockReference(b) == ParseClockReference(c)
  {
  }
}
