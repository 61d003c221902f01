/** The packetized elementary stream (PES) header: stream id, packet length
    and the 3-byte prefix of the optional PES header (section 2.4.3.6-2.4.3.7
    of ITU-T H.222.0). The optional sub-fields those flags announce, and the
    packet data, are not decoded. */
module PacketizedElementaryStream {
  import opened Common
  import opened Cursor

  /** The Go `OptionalPacketizedElementaryHeader`. */
  datatype OptionalPesHeader = OptionalPesHeader(
    scramblingControl: uint2,
    priority: bool,
    dataAlignmentIndicator: bool,
    copyright: bool,
    original: bool,
    ptsDtsIndicator: uint2,
    escrFlag: bool,
    esRateFlag: bool,
    dsmTrickModeFlag: bool,
    additionalCopyInfoFlag: bool,
    crcFlag: bool,
    extensionFlag: bool,
    headerLength: byte)

  /** The Go `PacketizedElementaryStream`. The optional header is always
      decoded, so it is a plain field rather than an option. */
  datatype PacketizedElementaryStream = PacketizedElementaryStream(
    streamId: byte,
    packetLength: uint16,
    optionalPesHeader: OptionalPesHeader)

  /** The stream ids this decoder calls video: 0xE0 (the first MPEG video
      stream) and 0xFD (extended_stream_id). */
  predicate IsVideoStream(s: PacketizedElementaryStream)
  {
    s.streamId == 0xE0 || s.streamId == 0xFD
  }

  /** The six bytes at `pos`: stream id, big-endian packet length, then the
      two flag bytes and the header length of the optional header. */
  function DecodePes(b: seq<byte>, pos: nat): Result<PacketizedElementaryStream>
  {
    if |b| < pos + 6 then Err(OutOfBounds)
    else
      var opt := DecodeOptionalHeader(b[pos + 3], b[pos + 4], b[pos + 5]);
      Ok(PacketizedElementaryStream(b[pos], Be16(b[pos + 1], b[pos + 2]), opt))
  }

  /** The optional header's prefix: scrambling control in bits 5-4 and four
      flags in bits 3-0 of `x`, the PTS/DTS indicator in bits 7-6 and six
      flags in bits 5-0 of `y`, and the header length `z`. */
  function DecodeOptionalHeader(x: byte, y: byte, z: byte): OptionalPesHeader
  {
    OptionalPesHeader(
      x / 0x10 % 4, x / 8 % 2 == 1, x / 4 % 2 == 1, x / 2 % 2 == 1, x % 2 == 1,
      y / 0x40, y / 0x20 % 2 == 1, y / 0x10 % 2 == 1, y / 8 % 2 == 1, y / 4 % 2 == 1,
      y / 2 % 2 == 1, y % 2 == 1,
      z)
  }

  /** `ParsePacketizedElementaryStream`: two 3-byte reads through the cursor. */
  method ParsePacketizedElementaryStream(r: ByteReader) returns (res: Result<PacketizedElementaryStream>)
    modifies r`pos
    ensures res == DecodePes(r.b, old(r.pos))
    ensures res.Ok? ==> r.pos == old(r.pos) + 6
  {
    var bs :- r.ReadBytes(3);
    var streamId, packetLength := bs[0], Be16(bs[1], bs[2]);
    bs :- r.ReadBytes(3);
    var opt := DecodeOptionalHeader(bs[0], bs[1], bs[2]);
    res := Ok(PacketizedElementaryStream(streamId, packetLength, opt));
  }

  // A multiplexer's encoding, with the '10' marker bits of the optional header.

  /** A flag as the bit a multiplexer writes for it. */
  function Flag(f: bool): (v: nat)
    ensures v < 2 && (v == 1 <==> f)
  {
    if f then 1 else 0
  }

  /** The fourth byte: the '10' marker, scrambling control and four flags. */
  function ScramblingByte(o: OptionalPesHeader): (x: nat)
    ensures x < 0x100
  {
    0x80 + o.scramblingControl * 0x10 + Flag(o.priority) * 8 + Flag(o.dataAlignmentIndicator) * 4
      + Flag(o.copyright) * 2 + Flag(o.original)
  }

  /** The fifth byte: the PTS/DTS indicator and six flags. */
  function FlagsByte(o: OptionalPesHeader): (y: nat)
    ensures y < 0x100
  {
    o.ptsDtsIndicator * 0x40 + Flag(o.escrFlag) * 0x20 + Flag(o.esRateFlag) * 0x10
      + Flag(o.dsmTrickModeFlag) * 8 + Flag(o.additionalCopyInfoFlag) * 4
      + Flag(o.crcFlag) * 2 + Flag(o.extensionFlag)
  }

  function EncodeOptionalHeader(o: OptionalPesHeader): (b: seq<byte>)
    ensures |b| == 3
  {
    [ScramblingByte(o), FlagsByte(o), o.headerLength]
  }

  function EncodePes(s: PacketizedElementaryStream): (b: seq<byte>)
    ensures |b| == 6
  {
    [s.streamId, s.packetLength / 0x100, s.packetLength % 0x100] + EncodeOptionalHeader(s.optionalPesHeader)
  }

  /** A number made of a high part and four low bits gives back each bit and the high part. */
  lemma LowBits(high: nat, b3: nat, b2: nat, b1: nat, b0: nat)
    requires b3 < 2 && b2 < 2 && b1 < 2 && b0 < 2
    ensures var x := high * 0x10 + b3 * 8 + b2 * 4 + b1 * 2 + b0;
      x / 0x10 == high && x / 8 % 2 == b3 && x / 4 % 2 == b2 && x / 2 % 2 == b1 && x % 2 == b0
  {
    var x := high * 0x10 + b3 * 8 + b2 * 4 + b1 * 2 + b0;
    var h2 := high * 2 + b3;
    var h4 := h2 * 2 + b2;
    var h8 := h4 * 2 + b1;
    Div2(x, h8, b0);
    Div4(x, h4, b1 * 2 + b0);
    Div8(x, h2, b2 * 4 + b1 * 2 + b0);
    Div16(x, high, b3 * 8 + b2 * 4 + b1 * 2 + b0);
    Div2(h8, h4, b1);
    Div2(h4, h2, b2);
    Div2(h2, high, b3);
  }

  /** A number made of a high part, two bits and a low nibble gives back the
      high part and the two bits. */
  lemma HighBits(high: nat, b5: nat, b4: nat, low: nat)
    requires b5 < 2 && b4 < 2 && low < 0x10
    ensures var y := high * 0x40 + b5 * 0x20 + b4 * 0x10 + low;
      y / 0x40 == high && y / 0x20 % 2 == b5 && y / 0x10 % 2 == b4
  {
    var y := high * 0x40 + b5 * 0x20 + b4 * 0x10 + low;
    var half := high * 2 + b5;
    var top := half * 2 + b4;
    Div64(y, high, b5 * 0x20 + b4 * 0x10 + low);
    Div32(y, half, b4 * 0x10 + low);
    Div16(y, top, low);
    Div2(half, high, b5);
    Div2(top, half, b4);
  }

  /** A byte is its high nibble followed by its four low bits. */
  lemma SplitLowBits(x: nat)
    ensures x == x / 0x10 * 0x10 + x / 8 % 2 * 8 + x / 4 % 2 * 4 + x / 2 % 2 * 2 + x % 2
  {
    var q1 := x / 2;
    var q2 := q1 / 2;
    var q3 := q2 / 2;
    Div4(x, q2, q1 % 2 * 2 + x % 2);
    Div8(x, q3, q2 % 2 * 4 + q1 % 2 * 2 + x % 2);
    Div16(x, q3 / 2, q3 % 2 * 8 + q2 % 2 * 4 + q1 % 2 * 2 + x % 2);
  }

  /** The fourth byte's fields come back from their encoding. */
  lemma ScramblingByteRoundTrip(o: OptionalPesHeader)
    ensures var x := ScramblingByte(o);
      && x / 0x10 % 4 == o.scramblingControl
      && (x / 8 % 2 == 1 <==> o.priority) && (x / 4 % 2 == 1 <==> o.dataAlignmentIndicator)
      && (x / 2 % 2 == 1 <==> o.copyright) && (x % 2 == 1 <==> o.original)
  {
    LowBits(8 + o.scramblingControl, Flag(o.priority), Flag(o.dataAlignmentIndicator),
            Flag(o.copyright), Flag(o.original));
  }

  /** The fifth byte's fields come back from their encoding. */
  lemma FlagsByteRoundTrip(o: OptionalPesHeader)
    ensures var y := FlagsByte(o);
      && y / 0x40 == o.ptsDtsIndicator
      && (y / 0x20 % 2 == 1 <==> o.escrFlag) && (y / 0x10 % 2 == 1 <==> o.esRateFlag)
      && (y / 8 % 2 == 1 <==> o.dsmTrickModeFlag) && (y / 4 % 2 == 1 <==> o.additionalCopyInfoFlag)
      && (y / 2 % 2 == 1 <==> o.crcFlag) && (y % 2 == 1 <==> o.extensionFlag)
  {
    FlagsByteBits(o);
  }

  lemma FlagsByteBits(o: OptionalPesHeader)
    ensures var y := FlagsByte(o);
      && y / 0x40 == o.ptsDtsIndicator && y / 0x20 % 2 == Flag(o.escrFlag) && y / 0x10 % 2 == Flag(o.esRateFlag)
      && y / 8 % 2 == Flag(o.dsmTrickModeFlag) && y / 4 % 2 == Flag(o.additionalCopyInfoFlag)
      && y / 2 % 2 == Flag(o.crcFlag) && y % 2 == Flag(o.extensionFlag)
  {
    var low := Flag(o.dsmTrickModeFlag) * 8 + Flag(o.additionalCopyInfoFlag) * 4
               + Flag(o.crcFlag) * 2 + Flag(o.extensionFlag);
    var top := o.ptsDtsIndicator * 4 + Flag(o.escrFlag) * 2 + Flag(o.esRateFlag);
    var y := FlagsByte(o);
    assert y == top * 0x10 + low;
    assert y == o.ptsDtsIndicator * 0x40 + Flag(o.escrFlag) * 0x20 + Flag(o.esRateFlag) * 0x10 + low;
    LowBits(top, Flag(o.dsmTrickModeFlag), Flag(o.additionalCopyInfoFlag), Flag(o.crcFlag), Flag(o.extensionFlag));
    HighBits(o.ptsDtsIndicator, Flag(o.escrFlag), Flag(o.esRateFlag), low);
  }

  /** Decoding the six bytes a multiplexer writes gives back every field. */
  lemma PesRoundTrip(s: PacketizedElementaryStream, rest: seq<byte>)
    ensures DecodePes(EncodePes(s) + rest, 0) == Ok(s)
  {
    var b := EncodePes(s) + rest;
    var o := s.optionalPesHeader;
    OptionalHeaderRoundTrip(o);
    Div256(s.packetLength, s.packetLength / 0x100, s.packetLength % 0x100);
    assert b[3] == ScramblingByte(o) && b[4] == FlagsByte(o) && b[5] == o.headerLength;
    assert Be16(b[1], b[2]) == s.packetLength;
  }

  /** The three bytes of the optional header's prefix decode to the header they encode. */
  lemma OptionalHeaderRoundTrip(o: OptionalPesHeader)
    ensures DecodeOptionalHeader(ScramblingByte(o), FlagsByte(o), o.headerLength) == o
  {
    ScramblingByteRoundTrip(o);
    FlagsByteRoundTrip(o);
  }

  /** Re-encoding the decoded fourth byte gives it back with the marker bits set. */
  lemma ScramblingByteCoversEveryBit(x: byte)
    ensures x / 0x10 % 4 * 0x10 + (x / 8 % 2) * 8 + (x / 4 % 2) * 4 + (x / 2 % 2) * 2 + x % 2 == x % 0x40
  {
    var hi, lo := x / 0x10, x % 0x10;
    SplitLowBits(x);
    Div4(hi, hi / 4, hi % 4);
    Div64(x, hi / 4, hi % 4 * 0x10 + lo);
  }

  /** Re-encoding the decoded fifth byte gives it back. */
  lemma FlagsByteCoversEveryBit(y: byte)
    ensures y / 0x40 * 0x40 + (y / 0x20 % 2) * 0x20 + (y / 0x10 % 2) * 0x10
            + (y / 8 % 2) * 8 + (y / 4 % 2) * 4 + (y / 2 % 2) * 2 + y % 2 == y
  {
    var hi, lo := y / 0x10, y % 0x10;
    var h2 := hi / 2;
    SplitLowBits(y);
    Div4(hi, h2 / 2, h2 % 2 * 2 + hi % 2);
    Div64(y, h2 / 2, (h2 % 2 * 2 + hi % 2) * 0x10 + lo);
    Div32(y, h2, hi % 2 * 0x10 + lo);
  }

  /** A flag decoded from a bit encodes back to that bit's weight. */
  lemma FlagOfBit(f: bool, v: nat)
    requires v < 2 && (f <==> v == 1)
    ensures Flag(f) == v
  {
  }

  /** Re-encoding the decoded optional header prefix gives back its three
      bytes, except the two marker bits at the top of the first, which the
      decoder ignores. */
  lemma OptionalHeaderCoversEveryBit(x: byte, y: byte, z: byte)
    ensures EncodeOptionalHeader(DecodeOptionalHeader(x, y, z)) == [0x80 + x % 0x40, y, z]
  {
    var o := DecodeOptionalHeader(x, y, z);
    var e := EncodeOptionalHeader(o);
    ScramblingByteReencodes(x, o);
    FlagsByteReencodes(y, o);
    assert e == [e[0], e[1], e[2]];
  }

  lemma ScramblingByteReencodes(x: byte, o: OptionalPesHeader)
    requires o.scramblingControl == x / 0x10 % 4
    requires o.priority == (x / 8 % 2 == 1) && o.dataAlignmentIndicator == (x / 4 % 2 == 1)
    requires o.copyright == (x / 2 % 2 == 1) && o.original == (x % 2 == 1)
    ensures ScramblingByte(o) == 0x80 + x % 0x40
  {
    ScramblingByteFromBits(x, o);
    ScramblingByteCoversEveryBit(x);
  }

  lemma ScramblingByteFromBits(x: byte, o: OptionalPesHeader)
    requires o.scramblingControl == x / 0x10 % 4
    requires o.priority == (x / 8 % 2 == 1) && o.dataAlignmentIndicator == (x / 4 % 2 == 1)
    requires o.copyright == (x / 2 % 2 == 1) && o.original == (x % 2 == 1)
    ensures ScramblingByte(o) == 0x80 + x / 0x10 % 4 * 0x10 + (x / 8 % 2) * 8 + (x / 4 % 2) * 4 + (x / 2 % 2) * 2 + x % 2
  {
    FlagOfBit(o.priority, x / 8 % 2);
    FlagOfBit(o.dataAlignmentIndicator, x / 4 % 2);
    FlagOfBit(o.copyright, x / 2 % 2);
    FlagOfBit(o.original, x % 2);
  }

  lemma FlagsByteReencodes(y: byte, o: OptionalPesHeader)
    requires o.ptsDtsIndicator == y / 0x40
    requires o.escrFlag == (y / 0x20 % 2 == 1) && o.esRateFlag == (y / 0x10 % 2 == 1)
    requires o.dsmTrickModeFlag == (y / 8 % 2 == 1) && o.additionalCopyInfoFlag == (y / 4 % 2 == 1)
    requires o.crcFlag == (y / 2 % 2 == 1) && o.extensionFlag == (y % 2 == 1)
    ensures FlagsByte(o) == y
  {
    FlagsByteFromBits(y, o);
    FlagsByteCoversEveryBit(y);
  }

  lemma FlagsByteFromBits(y: byte, o: OptionalPesHeader)
    requires o.ptsDtsIndicator == y / 0x40
    requires o.escrFlag == (y / 0x20 % 2 == 1) && o.esRateFlag == (y / 0x10 % 2 == 1)
    requires o.dsmTrickModeFlag == (y / 8 % 2 == 1) && o.additionalCopyInfoFlag == (y / 4 % 2 == 1)
    requires o.crcFlag == (y / 2 % 2 == 1) && o.extensionFlag == (y % 2 == 1)
    ensures FlagsByte(o) == y / 0x40 * 0x40 + (y / 0x20 % 2) * 0x20 + (y / 0x10 % 2) * 0x10
            + (y / 8 % 2) * 8 + (y / 4 % 2) * 4 + (y / 2 % 2) * 2 + y % 2
  {
    FlagOfBit(o.escrFlag, y / 0x20 % 2);
    FlagOfBit(o.esRateFlag, y / 0x10 % 2);
    FlagOfBit(o.dsmTrickModeFlag, y / 8 % 2);
    FlagOfBit(o.additionalCopyInfoFlag, y / 4 % 2);
    FlagOfBit(o.crcFlag, y / 2 % 2);
    FlagOfBit(o.extensionFlag, y % 2);
  }

  /** Re-encoding a decoded header gives back its six bytes, except the two
      marker bits at the top of the fourth byte: every other bit lands in
      exactly one field. */
  lemma PesFieldsCoverEveryBit(b: seq<byte>, pos: nat)
    requires pos + 6 <= |b|
    ensures var e := EncodePes(DecodePes(b, pos).value);
      && e[..3] == b[pos..pos + 3]
      && e[3] == 0x80 + b[pos + 3] % 0x40
      && e[4..] == b[pos + 4..pos + 6]
  {
    var s := DecodePes(b, pos).value;
    Div256(s.packetLength, b[pos + 1], b[pos + 2]);
    OptionalHeaderCoversEveryBit(b[pos + 3], b[pos + 4], b[pos + 5]);
  }

  /** The decoder fails exactly when fewer than six bytes remain, and the
      packet is video exactly when the byte at the cursor is 0xE0 or 0xFD. */
  lemma PesVideoClassification(b: seq<byte>, pos: nat)
    ensures DecodePes(b, pos).Ok? <==> pos + 6 <= |b|
    ensures DecodePes(b, pos).Ok? ==> (IsVideoStream(DecodePes(b, pos).value) <==> b[pos] in {0xE0, 0xFD})
  {
  }
}
