/** The four-byte transport stream packet header (Table 2-2 and sections
    2.4.3.2-2.4.3.3 of ITU-T H.222.0) and the adaptation field it may
    announce. */
module PacketHeader {
  import opened Common
  import opened AdaptationField

  /** The fields carried by header bytes 1..3. */
  datatype HeaderFields = HeaderFields(
    packetId: PID,
    transportErrorIndicator: bool,
    payloadUnitStartIndicator: bool,
    transportPriority: bool,
    transportScramblingControl: uint2,
    adaptationFieldControl: uint2,
    continuityCounter: uint4)

  /** The Go `PacketHeader`: the fixed fields and the optional adaptation field. */
  datatype PacketHeader = PacketHeader(fields: HeaderFields, adaptationField: Option<AdaptationField>)

  /** The low 5 bits of the first byte followed by the second. */
  function PacketId(b1: byte, b2: byte): PID
  {
    b1 % 0x20 * 0x100 + b2
  }

  /** Bits 7-6 of byte 3. */
  function ScramblingControl(b3: byte): uint2
  {
    b3 / 0x40
  }

  /** Bits 5-4 of byte 3. */
  function AdaptationFieldControl(b3: byte): uint2
  {
    b3 / 0x10 % 4
  }

  /** Bits 3-0 of byte 3: the 4-bit counter of section 2.4.3.2. */
  function ContinuityCounter(b3: byte): uint4
  {
    b3 % 0x10
  }

  /** Adaptation field control 10 (adaptation field only) and 11 (adaptation
      field followed by payload) both announce an adaptation field. */
  predicate HasAdaptationField(afc: uint2)
  {
    afc == 2 || afc == 3
  }

  /** Adaptation field control 01 and 11 announce a payload. */
  predicate HasPayload(afc: uint2)
  {
    afc % 2 == 1
  }

  /** Header bytes 1..3 decoded; the three flags are bits 7, 6 and 5 of byte 1. */
  function DecodeFields(b1: byte, b2: byte, b3: byte): HeaderFields
  {
    HeaderFields(PacketId(b1, b2), b1 / 0x80 == 1, b1 / 0x40 % 2 == 1, b1 / 0x20 % 2 == 1,
                 ScramblingControl(b3), AdaptationFieldControl(b3), ContinuityCounter(b3))
  }

  /** The header bytes 1..3 a multiplexer writes for the given fields. */
  function EncodeFields(f: HeaderFields): (b: seq<byte>)
    ensures |b| == 3
  {
    [ (if f.transportErrorIndicator then 0x80 else 0) + (if f.payloadUnitStartIndicator then 0x40 else 0)
        + (if f.transportPriority then 0x20 else 0) + f.packetId / 0x100,
      f.packetId % 0x100,
      f.transportScramblingControl * 0x40 + f.adaptationFieldControl * 0x10 + f.continuityCounter ]
  }

  /** `ParseHeader`: the sync byte, the fixed fields, and the adaptation field
      starting at byte 4 when the control field announces one. Where the Go
      code indexes past the slice this gives OutOfBounds. */
  function ParseHeader(b: seq<byte>): (r: Result<PacketHeader>)
    // a wrong sync byte is the one InvalidSyncByte error
    ensures r == Err(InvalidSyncByte) <==> 1 <= |b| && b[0] != SyncByte
    ensures r.Ok? ==> 4 <= |b| && b[0] == SyncByte
    // a well-formed header without an adaptation field never fails
    ensures 4 <= |b| && b[0] == SyncByte && !HasAdaptationField(AdaptationFieldControl(b[3])) ==> r.Ok?
    // the adaptation field is there exactly when the control field announces it, decoded at byte 4
    ensures r.Ok? ==> (r.value.adaptationField.Some? <==> HasAdaptationField(r.value.fields.adaptationFieldControl))
    ensures r.Ok? && r.value.adaptationField.Some? ==>
              DecodeAdaptationField(b, 4).Ok? && r.value.adaptationField.value == DecodeAdaptationField(b, 4).value.0
  {
    if |b| < 1 then Err(OutOfBounds)
    else if b[0] != SyncByte then Err(InvalidSyncByte)
    else if |b| < 4 then Err(OutOfBounds)
    else
      var f := DecodeFields(b[1], b[2], b[3]);
      if HasAdaptationField(f.adaptationFieldControl) then
        var af :- DecodeAdaptationField(b, 4);
        Ok(PacketHeader(f, Some(af.0)))
      else Ok(PacketHeader(f, None))
  }

  /** A byte is its top three bits and its low five bits. */
  lemma SplitFlagsByte(x: byte)
    ensures x == x / 0x80 * 0x80 + x / 0x40 % 2 * 0x40 + x / 0x20 % 2 * 0x20 + x % 0x20
  {
    assert x == x / 0x20 * 0x20 + x % 0x20;
    assert x / 0x20 == x / 0x40 * 2 + x / 0x20 % 2;
    assert x / 0x40 == x / 0x80 * 2 + x / 0x40 % 2;
  }

  /** A byte built from three flag bits and a 5-bit value gives them back. */
  lemma JoinFlagsByte(t: bool, u: bool, v: bool, low: int)
    requires 0 <= low < 0x20
    ensures var x := (if t then 0x80 else 0) + (if u then 0x40 else 0) + (if v then 0x20 else 0) + low;
      && (x / 0x80 == 1 <==> t) && (x / 0x40 % 2 == 1 <==> u) && (x / 0x20 % 2 == 1 <==> v) && x % 0x20 == low
  {
    var x := (if t then 0x80 else 0) + (if u then 0x40 else 0) + (if v then 0x20 else 0) + low;
    var top := (if t then 4 else 0) + (if u then 2 else 0) + (if v then 1 else 0);
    assert x == top * 0x20 + low;
    assert x / 0x20 == top;
    assert x / 0x40 == top / 2;
    assert x / 0x80 == top / 4;
  }

  /** A byte is its top two, middle two and low four bits. */
  lemma SplitControlByte(x: byte)
    ensures x == x / 0x40 * 0x40 + x / 0x10 % 4 * 0x10 + x % 0x10
  {
    assert x == x / 0x10 * 0x10 + x % 0x10;
    assert x / 0x10 == x / 0x40 * 4 + x / 0x10 % 4;
  }

  /** Every header bit is decoded into exactly one field: encoding the decoded
      fields gives back the three bytes. */
  lemma FieldsCoverEveryBit(b1: byte, b2: byte, b3: byte)
    ensures EncodeFields(DecodeFields(b1, b2, b3)) == [b1, b2, b3]
  {
    SplitFlagsByte(b1);
    SplitControlByte(b3);
    var f := DecodeFields(b1, b2, b3);
    assert f.packetId / 0x100 == b1 % 0x20;
    assert f.packetId % 0x100 == b2;
  }

  /** Decoding the encoded header bytes gives back every field. */
  lemma FieldsRoundTrip(f: HeaderFields)
    ensures var e := EncodeFields(f); DecodeFields(e[0], e[1], e[2]) == f
  {
    var e := EncodeFields(f);
    JoinFlagsByte(f.transportErrorIndicator, f.payloadUnitStartIndicator, f.transportPriority, f.packetId / 0x100);
    assert PacketId(e[0], e[1]) == f.packetId;
    var c := f.transportScramblingControl * 4 + f.adaptationFieldControl;
    assert e[2] == c * 0x10 + f.continuityCounter;
    assert e[2] / 0x10 == c;
  }

  /** A header whose control field announces no adaptation field decodes
      from its four bytes alone, whatever follows. */
  lemma HeaderRoundTrip(f: HeaderFields, rest: seq<byte>)
    requires !HasAdaptationField(f.adaptationFieldControl)
    ensures ParseHeader([SyncByte] + EncodeFields(f) + rest) == Ok(PacketHeader(f, None))
  {
    var b := [SyncByte] + EncodeFields(f) + rest;
    FieldsRoundTrip(f);
    assert b[1..4] == EncodeFields(f);
  }

  /** Field by field, where each value sits in the header bytes. */
  lemma HeaderFieldLayout(b: seq<byte>)
    requires ParseHeader(b).Ok?
    ensures var f := ParseHeader(b).value.fields;
      && f.packetId == b[1] as int % 0x20 * 0x100 + b[2] as int
      && (f.transportErrorIndicator <==> Bit(b[1], 7))
      && (f.payloadUnitStartIndicator <==> Bit(b[1], 6))
      && (f.transportPriority <==> Bit(b[1], 5))
      && f.transportScramblingControl * 0x40 + f.adaptationFieldControl * 0x10 + f.continuityCounter == b[3]
  {
    BitShift(b[1], 7);
    BitShift(b[1], 6);
    BitShift(b[1], 5);
    SplitControlByte(b[3]);
  }

  // The code as written.

  /** packet_header.go as written: `uint8(b[3] & 0xC0)`, the two scrambling
      bits left in place. */
  function ScramblingControlAsWritten(b3: byte): (r: byte)
    // as written it is the corrected value shifted up by six: only 0, 64, 128 or 192
    ensures r == ScramblingControl(b3) * 0x40
  {
    b3 / 0x40 * 0x40
  }

  /** packet_header.go as written: `uint8(b[3] >> 6 & 0x3)`, the scrambling bits again. */
  function ContinuityCounterAsWritten(b3: byte): (r: uint2)
    // as written the counter is a copy of the scrambling control and ignores the low nibble
    ensures r == ScramblingControl(b3)
    ensures r < 4
  {
    b3 / 0x40
  }

  /** packet_header.go as written: an adaptation field only for control 11. */
  predicate HasAdaptationFieldAsWritten(afc: uint2)
  {
    afc >= 3
  }

  /** Byte 3 = 0x15 (unscrambled, payload only, counter 5): as written the
      counter reads 0. */
  lemma ContinuityCounterAsWrittenMisread()
    ensures ContinuityCounter(0x15) == 5
    ensures ContinuityCounterAsWritten(0x15) == 0
  {
  }

  /** Byte 3 = 0x90 (scrambled with the odd key, payload only): as written
      the scrambling control reads 128 rather than 2. */
  lemma ScramblingControlAsWrittenUnshifted()
    ensures ScramblingControl(0x90) == 2
    ensures ScramblingControlAsWritten(0x90) == 128
  {
  }

  /** An adaptation-field-only packet (control 10): as written its adaptation
      field is never decoded. */
  lemma AdaptationOnlyAsWrittenSkipped()
    ensures HasAdaptationField(2)
    ensures !HasAdaptationFieldAsWritten(2)
    ensures ParseHeader([0x47, 0x00, 0x00, 0x20, 0x00]) == Ok(PacketHeader(DecodeFields(0, 0, 0x20), Some(StuffingOnly())))
  {
    assert AdaptationFieldControl(0x20) == 2;
  }
}
