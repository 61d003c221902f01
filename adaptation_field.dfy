/** The adaptation field: a length byte, eight flags and the flag-gated PCR,
    OPCR, splice countdown, transport private data and extension
    (Table 2-6 and section 2.4.3.5 of ITU-T H.222.0). */
module AdaptationField {
  import opened Common
  import opened ClockReference
  import opened AdaptationExtension
  import opened Cursor

  datatype AdaptationField = AdaptationField(
    adaptationFieldLength: byte,
    discontinuityIndicator: bool,
    randomAccessIndicator: bool,
    elementaryStreamPriorityIndicator: bool,
    programClockReferenceFlag: bool,
    originalProgramClockReferenceFlag: bool,
    splicingPointFlag: bool,
    transportPrivateDataFlag: bool,
    adaptationFieldExtensionFlag: bool,
    programClockReference: Option<ClockReference>,
    originalProgramClockReference: Option<ClockReference>,
    spliceCountdown: int8,
    transportPrivateDataLength: byte,
    transportPrivateData: seq<byte>,
    adaptationExtension: Option<AdaptationExtension>)

  /** Go's `int8(x)`: the two's-complement reading of one byte. */
  function AsInt8(x: byte): (r: int8)
    ensures r < 0 <==> Bit(x, 7)
    ensures (r + 0x100) % 0x100 == x
  {
    BitShift(x, 7);
    if x < 0x80 then x else x - 0x100
  }

  // Each reader below takes the cursor position i and, when its flag is set,
  // reads its sub-field there; it returns the value and the next position.

  function ClockAt(b: seq<byte>, i: nat, present: bool): Result<(Option<ClockReference>, nat)>
  {
    if !present then Ok((None, i))
    else
      var c :- ReadAt(b, i, 6);
      Ok((Some(ParseClockReference(c)), i + 6))
  }

  function SpliceCountdownAt(b: seq<byte>, i: nat, present: bool): Result<(int8, nat)>
  {
    if !present then Ok((0, i))
    else
      var c :- ReadAt(b, i, 1);
      Ok((AsInt8(c[0]), i + 1))
  }

  function PrivateDataAt(b: seq<byte>, i: nat, present: bool): Result<(byte, seq<byte>, nat)>
  {
    if !present then Ok((0, [], i))
    else
      var l :- ReadAt(b, i, 1);
      var d :- ReadAt(b, i + 1, l[0]);
      Ok((l[0], d, i + 1 + l[0]))
  }

  /** The extension: its length byte is peeked, then the length byte and the
      `length` bytes it announces are handed to the extension decoder. */
  function ExtensionAt(b: seq<byte>, i: nat, present: bool): Result<(Option<AdaptationExtension>, nat)>
  {
    if !present then Ok((None, i))
    else
      var l :- ReadAt(b, i, 1);
      var e :- ReadAt(b, i, 1 + l[0] as int);
      var x :- ParseAdaptationExtension(e);
      Ok((Some(x), i + 1 + l[0]))
  }

  /** What an adaptation field of length 0 (a single stuffing byte) decodes to. */
  function StuffingOnly(): AdaptationField
  {
    AdaptationField(0, false, false, false, false, false, false, false, false,
                    None, None, 0, 0, [], None)
  }

  /** The flag-gated sub-fields, in wire order, and the position after the last one. */
  datatype OptionalFields = OptionalFields(
    pcr: Option<ClockReference>,
    opcr: Option<ClockReference>,
    spliceCountdown: int8,
    privateDataLength: byte,
    privateData: seq<byte>,
    extension: Option<AdaptationExtension>,
    end: nat)

  function OptionalFieldsAt(b: seq<byte>, i: nat, flags: byte): Result<OptionalFields>
  {
    var pcr :- ClockAt(b, i, Bit(flags, 4));
    var opcr :- ClockAt(b, pcr.1, Bit(flags, 3));
    var splice :- SpliceCountdownAt(b, opcr.1, Bit(flags, 2));
    var tpd :- PrivateDataAt(b, splice.1, Bit(flags, 1));
    var ext :- ExtensionAt(b, tpd.2, Bit(flags, 0));
    Ok(OptionalFields(pcr.0, opcr.0, splice.0, tpd.0, tpd.1, ext.0, ext.1))
  }

  /** The adaptation field starting at s, with the position just after it.
      The sub-fields are read in wire order; the bytes after them up to the
      declared length are stuffing, which is skipped; sub-fields that run
      past the declared length, or a declared length that runs past the
      buffer, are OutOfBounds. */
  function DecodeAdaptationField(b: seq<byte>, s: nat): Result<(AdaptationField, nat)>
  {
    if |b| <= s then Err(OutOfBounds)
    else if b[s] == 0 then Ok((StuffingOnly(), s + 1))
    else if |b| <= s + 1 then Err(OutOfBounds)
    else
      var len, flags := b[s], b[s + 1];
      var o :- OptionalFieldsAt(b, s + 2, flags);
      if s + 1 + len < o.end || |b| < s + 1 + len then Err(OutOfBounds)
      else Ok((WithFlags(len, flags, o), s + 1 + len))
  }

  /** The field whose flags are the bits of `flags`, from bit 7 down to bit 0. */
  function WithFlags(len: byte, flags: byte, o: OptionalFields): AdaptationField
  {
    AdaptationField(len, Bit(flags, 7), Bit(flags, 6), Bit(flags, 5), Bit(flags, 4),
                    Bit(flags, 3), Bit(flags, 2), Bit(flags, 1), Bit(flags, 0),
                    o.pcr, o.opcr, o.spliceCountdown, o.privateDataLength, o.privateData, o.extension)
  }

  /** Bytes taken by the length byte, the flags byte and the sub-fields the flags announce. */
  function SubfieldBytes(af: AdaptationField): nat
  {
    2 + (if af.programClockReferenceFlag then 6 else 0)
      + (if af.originalProgramClockReferenceFlag then 6 else 0)
      + (if af.splicingPointFlag then 1 else 0)
      + (if af.transportPrivateDataFlag then 1 + af.transportPrivateDataLength else 0)
      + (if af.adaptationFieldExtensionFlag && af.adaptationExtension.Some?
         then 1 + af.adaptationExtension.value.adaptationExtensionLength else 0)
  }

  // Cursor counterparts of the readers above: each performs the same reads
  // through the cursor and leaves it where its reader's position says.

  method ReadClock(r: ByteReader, present: bool) returns (res: Result<Option<ClockReference>>)
    modifies r`pos
    ensures res.Ok? ==> ClockAt(r.b, old(r.pos), present) == Ok((res.value, r.pos))
    ensures res.Err? ==> res == Err(OutOfBounds) && ClockAt(r.b, old(r.pos), present) == Err(OutOfBounds)
  {
    if !present {
      return Ok(None);
    }
    var c :- r.ReadBytes(6);
    res := Ok(Some(ParseClockReference(c)));
  }

  method ReadSpliceCountdown(r: ByteReader, present: bool) returns (res: Result<int8>)
    modifies r`pos
    ensures res.Ok? ==> SpliceCountdownAt(r.b, old(r.pos), present) == Ok((res.value, r.pos))
    ensures res.Err? ==> res == Err(OutOfBounds) && SpliceCountdownAt(r.b, old(r.pos), present) == Err(OutOfBounds)
  {
    if !present {
      return Ok(0);
    }
    var c :- r.ReadByte();
    res := Ok(AsInt8(c));
  }

  method ReadPrivateData(r: ByteReader, present: bool) returns (res: Result<(byte, seq<byte>)>)
    modifies r`pos
    ensures res.Ok? ==> PrivateDataAt(r.b, old(r.pos), present) == Ok((res.value.0, res.value.1, r.pos))
    ensures res.Err? ==> res == Err(OutOfBounds) && PrivateDataAt(r.b, old(r.pos), present) == Err(OutOfBounds)
  {
    if !present {
      return Ok((0, []));
    }
    var l :- r.ReadByte();
    var d :- r.ReadBytes(l);
    res := Ok((l, d));
  }

  method ReadExtension(r: ByteReader, present: bool) returns (res: Result<Option<AdaptationExtension>>)
    modifies r`pos
    ensures res.Ok? ==> ExtensionAt(r.b, old(r.pos), present) == Ok((res.value, r.pos))
    ensures res.Err? ==> res == Err(OutOfBounds) && ExtensionAt(r.b, old(r.pos), present) == Err(OutOfBounds)
  {
    if !present {
      return Ok(None);
    }
    // peek at the extension's length byte, then read it with the bytes it announces
    var l :- r.ReadByte();
    r.Dec(1);
    var e :- r.ReadBytes(1 + l as int);
    var x :- ParseAdaptationExtension(e);
    res := Ok(Some(x));
  }

  method ReadOptionalFields(r: ByteReader, flags: byte) returns (res: Result<OptionalFields>)
    modifies r`pos
    ensures res.Ok? ==> OptionalFieldsAt(r.b, old(r.pos), flags) == res && r.pos == res.value.end
    ensures res.Err? ==> res == Err(OutOfBounds) && OptionalFieldsAt(r.b, old(r.pos), flags) == Err(OutOfBounds)
  {
    var pcr :- ReadClock(r, Bit(flags, 4));
    var opcr :- ReadClock(r, Bit(flags, 3));
    var countdown :- ReadSpliceCountdown(r, Bit(flags, 2));
    var tpd :- ReadPrivateData(r, Bit(flags, 1));
    var extension :- ReadExtension(r, Bit(flags, 0));
    res := Ok(OptionalFields(pcr, opcr, countdown, tpd.0, tpd.1, extension, r.pos));
  }

  /** The decoder reads an adaptation field from the cursor and leaves the
      cursor just after it. */
  method ParseAdaptationField(r: ByteReader) returns (res: Result<AdaptationField>)
    modifies r`pos
    ensures res.Ok? ==> DecodeAdaptationField(r.b, old(r.pos)) == Ok((res.value, r.pos))
    ensures res.Err? ==> res == Err(OutOfBounds) && DecodeAdaptationField(r.b, old(r.pos)) == Err(OutOfBounds)
  {
    var start := r.Position();
    var len :- r.ReadByte();
    if len == 0 {
      return Ok(StuffingOnly());
    }
    res := ReadFlaggedField(r, start, len);
  }

  /** The rest of a field of non-zero length `len` whose length byte is at
      `start`: the flags byte, the sub-fields it announces, and the
      stuffing up to the declared length. */
  method ReadFlaggedField(r: ByteReader, start: nat, len: byte) returns (res: Result<AdaptationField>)
    requires start < |r.b| && r.b[start] == len && len != 0 && r.pos == start + 1
    modifies r`pos
    ensures res.Ok? ==> DecodeAdaptationField(r.b, start) == Ok((res.value, r.pos))
    ensures res.Err? ==> res == Err(OutOfBounds) && DecodeAdaptationField(r.b, start) == Err(OutOfBounds)
  {
    var flags :- r.ReadByte();
    assert flags == r.b[start + 1];
    var fields := ReadOptionalFields(r, flags);
    if fields.Err? {
      SubfieldsRunOut(r.b, start);
      return Err(OutOfBounds);
    }
    res := SkipStuffing(r, start, fields.value);
  }

  /** Checks that the sub-fields `o` read after the flags byte end within
      the declared length and that the declared length fits, then moves the
      cursor past the stuffing to the end of the field. */
  method SkipStuffing(r: ByteReader, start: nat, o: OptionalFields) returns (res: Result<AdaptationField>)
    requires start + 1 < |r.b| && r.b[start] != 0 && OptionalFieldsAt(r.b, start + 2, r.b[start + 1]) == Ok(o)
    modifies r`pos
    ensures res.Ok? ==> DecodeAdaptationField(r.b, start) == Ok((res.value, r.pos))
    ensures res.Err? ==> res == Err(OutOfBounds) && DecodeAdaptationField(r.b, start) == Err(OutOfBounds)
  {
    var end := start + 1 + r.b[start] as int;
    if end < o.end || |r.b| < end {
      SubfieldsOverrun(r.b, start, o);
      return Err(OutOfBounds);
    }
    r.Jump(end);
    SubfieldsFit(r.b, start, o);
    res := Ok(WithFlags(r.b[start], r.b[start + 1], o));
  }

  lemma SubfieldsRunOut(b: seq<byte>, s: nat)
    requires s + 1 < |b| && b[s] != 0 && OptionalFieldsAt(b, s + 2, b[s + 1]) == Err(OutOfBounds)
    ensures DecodeAdaptationField(b, s) == Err(OutOfBounds)
  {
  }

  lemma SubfieldsOverrun(b: seq<byte>, s: nat, o: OptionalFields)
    requires s + 1 < |b| && b[s] != 0 && OptionalFieldsAt(b, s + 2, b[s + 1]) == Ok(o)
    requires s + 1 + b[s] as int < o.end || |b| < s + 1 + b[s] as int
    ensures DecodeAdaptationField(b, s) == Err(OutOfBounds)
  {
  }

  lemma SubfieldsFit(b: seq<byte>, s: nat, o: OptionalFields)
    requires s + 1 < |b| && b[s] != 0 && OptionalFieldsAt(b, s + 2, b[s + 1]) == Ok(o)
    requires o.end <= s + 1 + b[s] as int <= |b|
    ensures DecodeAdaptationField(b, s) == Ok((WithFlags(b[s], b[s + 1], o), s + 1 + b[s] as int))
  {
  }

  // Properties of the decoder.

  /** Whatever its flags, a decoded adaptation field occupies exactly its
      length byte plus the length it declares, inside the buffer. */
  lemma AdaptationFieldConsumesDeclaredLength(b: seq<byte>, s: nat)
    requires DecodeAdaptationField(b, s).Ok?
    ensures s < |b|
    ensures DecodeAdaptationField(b, s).value.0.adaptationFieldLength == b[s]
    ensures DecodeAdaptationField(b, s).value.1 == s + 1 + b[s] as int <= |b|
  {
  }

  /** The eight flags are bits 7 down to 0 of the byte after the length, in
      declared order; a zero length carries no flags byte and no sub-field. */
  lemma AdaptationFieldFlags(b: seq<byte>, s: nat)
    requires DecodeAdaptationField(b, s).Ok?
    ensures var af := DecodeAdaptationField(b, s).value.0;
      if b[s] == 0 then af == StuffingOnly()
      else
        && af.discontinuityIndicator == Bit(b[s + 1], 7)
        && af.randomAccessIndicator == Bit(b[s + 1], 6)
        && af.elementaryStreamPriorityIndicator == Bit(b[s + 1], 5)
        && af.programClockReferenceFlag == Bit(b[s + 1], 4)
        && af.originalProgramClockReferenceFlag == Bit(b[s + 1], 3)
        && af.splicingPointFlag == Bit(b[s + 1], 2)
        && af.transportPrivateDataFlag == Bit(b[s + 1], 1)
        && af.adaptationFieldExtensionFlag == Bit(b[s + 1], 0)
  {
  }

  /** A sub-field is present exactly when its flag is set; clock references
      are read at their wire offsets; the splice countdown is zero without
      its flag; the private data has exactly its announced length; and the
      sub-fields end within the declared length. */
  lemma AdaptationFieldSubfields(b: seq<byte>, s: nat)
    requires DecodeAdaptationField(b, s).Ok?
    ensures var af := DecodeAdaptationField(b, s).value.0;
      && (af.programClockReference.Some? <==> af.programClockReferenceFlag)
      && (af.originalProgramClockReference.Some? <==> af.originalProgramClockReferenceFlag)
      && (af.adaptationExtension.Some? <==> af.adaptationFieldExtensionFlag)
      && (!af.splicingPointFlag ==> af.spliceCountdown == 0)
      && (!af.transportPrivateDataFlag ==> af.transportPrivateDataLength == 0)
      && |af.transportPrivateData| == af.transportPrivateDataLength as int
      && (af.programClockReferenceFlag ==>
            s + 8 <= |b| && af.programClockReference == Some(ParseClockReference(b[s + 2..s + 8])))
      && (af.adaptationFieldLength > 0 ==> SubfieldBytes(af) <= 1 + af.adaptationFieldLength as int)
  {
    var len := b[s];
    if len > 0 {
      var flags := b[s + 1];
      var o := OptionalFieldsAt(b, s + 2, flags).value;
      OptionalFieldsEnd(b, s + 2, flags);
    }
  }

  // Where each flagged sub-field of a decoded field sits: right after the
  // flagged sub-fields before it, counting from s + 2, just past the flags byte.

  function OpcrOffset(s: nat, af: AdaptationField): nat
  {
    s + 2 + (if af.programClockReferenceFlag then 6 else 0)
  }

  function SpliceCountdownOffset(s: nat, af: AdaptationField): nat
  {
    OpcrOffset(s, af) + (if af.originalProgramClockReferenceFlag then 6 else 0)
  }

  function PrivateDataOffset(s: nat, af: AdaptationField): nat
  {
    SpliceCountdownOffset(s, af) + (if af.splicingPointFlag then 1 else 0)
  }

  function ExtensionOffset(s: nat, af: AdaptationField): nat
  {
    PrivateDataOffset(s, af) + (if af.transportPrivateDataFlag then 1 + af.transportPrivateDataLength as int else 0)
  }

  /** The OPCR of `af` is the six bytes at OpcrOffset. */
  predicate OpcrAtOffset(b: seq<byte>, s: nat, af: AdaptationField)
  {
    var at := OpcrOffset(s, af);
    af.originalProgramClockReferenceFlag ==>
      at + 6 <= |b| && af.originalProgramClockReference == Some(ParseClockReference(b[at..at + 6]))
  }

  /** The splice countdown of `af` is the signed byte at SpliceCountdownOffset. */
  predicate SpliceCountdownAtOffset(b: seq<byte>, s: nat, af: AdaptationField)
  {
    var at := SpliceCountdownOffset(s, af);
    af.splicingPointFlag ==> at < |b| && af.spliceCountdown == AsInt8(b[at])
  }

  /** The private data of `af` is its length byte, then that many bytes,
      read at PrivateDataOffset. */
  predicate PrivateDataAtOffset(b: seq<byte>, s: nat, af: AdaptationField)
  {
    var at := PrivateDataOffset(s, af);
    af.transportPrivateDataFlag ==>
      && at < |b| && af.transportPrivateDataLength == b[at]
      && ExtensionOffset(s, af) <= |b| && af.transportPrivateData == b[at + 1..ExtensionOffset(s, af)]
  }

  /** The extension of `af` is decoded from its length byte and the bytes
      that byte announces, read at ExtensionOffset. */
  predicate ExtensionAtOffset(b: seq<byte>, s: nat, af: AdaptationField)
  {
    var at := ExtensionOffset(s, af);
    af.adaptationFieldExtensionFlag ==>
      && at < |b| && at + 1 + b[at] as int <= |b|
      && af.adaptationExtension.Some?
      && ParseAdaptationExtension(b[at..at + 1 + b[at] as int]) == Ok(af.adaptationExtension.value)
  }

  /** Each flagged sub-field of a decoded adaptation field is read at the
      offset that the sizes of the flagged sub-fields before it give. */
  lemma AdaptationFieldOffsets(b: seq<byte>, s: nat)
    requires DecodeAdaptationField(b, s).Ok?
    ensures var af := DecodeAdaptationField(b, s).value.0;
      && OpcrAtOffset(b, s, af) && SpliceCountdownAtOffset(b, s, af)
      && PrivateDataAtOffset(b, s, af) && ExtensionAtOffset(b, s, af)
  {
    var af := DecodeAdaptationField(b, s).value.0;
    if b[s] > 0 {
      var flags := b[s + 1];
      var o := OptionalFieldsAt(b, s + 2, flags).value;
      assert af == WithFlags(b[s], flags, o);
      OpcrOffsetHolds(b, s, b[s], flags, o, af);
      SpliceCountdownOffsetHolds(b, s, b[s], flags, o, af);
      PrivateDataOffsetHolds(b, s, b[s], flags, o, af);
      ExtensionOffsetHolds(b, s, b[s], flags, o, af);
    } else {
      assert af == StuffingOnly();
    }
  }

  /** The reads `OptionalFieldsAt` chains, one after the other, all succeed
      and give the fields of `o`. */
  lemma OptionalFieldsParts(b: seq<byte>, i: nat, flags: byte, o: OptionalFields)
    requires OptionalFieldsAt(b, i, flags) == Ok(o)
    ensures ClockAt(b, i, Bit(flags, 4)).Ok?
    ensures var pcr := ClockAt(b, i, Bit(flags, 4)).value;
      && ClockAt(b, pcr.1, Bit(flags, 3)).Ok?
      && o.opcr == ClockAt(b, pcr.1, Bit(flags, 3)).value.0
    ensures var pcr := ClockAt(b, i, Bit(flags, 4)).value;
      var opcr := ClockAt(b, pcr.1, Bit(flags, 3)).value;
      && SpliceCountdownAt(b, opcr.1, Bit(flags, 2)).Ok?
      && o.spliceCountdown == SpliceCountdownAt(b, opcr.1, Bit(flags, 2)).value.0
    ensures var pcr := ClockAt(b, i, Bit(flags, 4)).value;
      var opcr := ClockAt(b, pcr.1, Bit(flags, 3)).value;
      var splice := SpliceCountdownAt(b, opcr.1, Bit(flags, 2)).value;
      && PrivateDataAt(b, splice.1, Bit(flags, 1)).Ok?
      && o.privateDataLength == PrivateDataAt(b, splice.1, Bit(flags, 1)).value.0
      && o.privateData == PrivateDataAt(b, splice.1, Bit(flags, 1)).value.1
    ensures var pcr := ClockAt(b, i, Bit(flags, 4)).value;
      var opcr := ClockAt(b, pcr.1, Bit(flags, 3)).value;
      var splice := SpliceCountdownAt(b, opcr.1, Bit(flags, 2)).value;
      var tpd := PrivateDataAt(b, splice.1, Bit(flags, 1)).value;
      && ExtensionAt(b, tpd.2, Bit(flags, 0)).Ok?
      && o.extension == ExtensionAt(b, tpd.2, Bit(flags, 0)).value.0
  {
  }

  /** The positions at which `OptionalFieldsAt` reads the OPCR, the splice
      countdown, the private data and the extension, each where the one
      before it ends. */
  lemma FieldsChain(b: seq<byte>, i: nat, flags: byte, o: OptionalFields)
    returns (opcrAt: nat, spliceAt: nat, privateAt: nat, extensionAt: nat)
    requires OptionalFieldsAt(b, i, flags) == Ok(o)
    ensures opcrAt == i + (if Bit(flags, 4) then 6 else 0)
    ensures spliceAt == opcrAt + (if Bit(flags, 3) then 6 else 0)
    ensures privateAt == spliceAt + (if Bit(flags, 2) then 1 else 0)
    ensures extensionAt == privateAt + (if Bit(flags, 1) then 1 + o.privateDataLength as int else 0)
    ensures ClockAt(b, opcrAt, Bit(flags, 3)) == Ok((o.opcr, spliceAt))
    ensures SpliceCountdownAt(b, spliceAt, Bit(flags, 2)) == Ok((o.spliceCountdown, privateAt))
    ensures PrivateDataAt(b, privateAt, Bit(flags, 1)) == Ok((o.privateDataLength, o.privateData, extensionAt))
    ensures ExtensionAt(b, extensionAt, Bit(flags, 0)).Ok?
    ensures ExtensionAt(b, extensionAt, Bit(flags, 0)).value.0 == o.extension
  {
    OptionalFieldsParts(b, i, flags, o);
    ClockAtEnd(b, i, Bit(flags, 4));
    opcrAt := ClockAt(b, i, Bit(flags, 4)).value.1;
    spliceAt := ClockAt(b, opcrAt, Bit(flags, 3)).value.1;
    privateAt := SpliceCountdownAt(b, spliceAt, Bit(flags, 2)).value.1;
    extensionAt := PrivateDataAt(b, privateAt, Bit(flags, 1)).value.2;
    ClockAtEnd(b, opcrAt, Bit(flags, 3));
    SpliceCountdownAtEnd(b, spliceAt, Bit(flags, 2));
    PrivateDataAtEnd(b, privateAt, Bit(flags, 1));
  }

  // Each of the four placements holds of a field built from these flags.

  lemma OpcrOffsetHolds(b: seq<byte>, s: nat, len: byte, flags: byte, o: OptionalFields, af: AdaptationField)
    requires OptionalFieldsAt(b, s + 2, flags) == Ok(o) && af == WithFlags(len, flags, o)
    ensures OpcrAtOffset(b, s, af)
  {
    var opcrAt, spliceAt, privateAt, extensionAt := FieldsChain(b, s + 2, flags, o);
    ClockAtEnd(b, opcrAt, Bit(flags, 3));
    WithFlagsOffsets(s, len, flags, o);
  }

  /** ExtensionAtOffset, from the facts it is made of. */
  lemma ExtensionFound(b: seq<byte>, s: nat, af: AdaptationField, at: nat)
    requires at == ExtensionOffset(s, af) && at < |b| && at + 1 + b[at] as int <= |b|
    requires af.adaptationExtension.Some?
    requires ParseAdaptationExtension(b[at..at + 1 + b[at] as int]) == Ok(af.adaptationExtension.value)
    ensures ExtensionAtOffset(b, s, af)
  {
  }

  /** PrivateDataAtOffset, from the facts it is made of. */
  lemma PrivateDataFound(b: seq<byte>, s: nat, af: AdaptationField, at: nat, end: nat)
    requires at == PrivateDataOffset(s, af) && end == ExtensionOffset(s, af)
    requires at < |b| && af.transportPrivateDataLength == b[at]
    requires at + 1 <= end <= |b| && af.transportPrivateData == b[at + 1..end]
    ensures PrivateDataAtOffset(b, s, af)
  {
  }

  /** The offsets of a field built from a flags byte, in terms of its bits. */
  lemma WithFlagsOffsets(s: nat, len: byte, flags: byte, o: OptionalFields)
    ensures var af := WithFlags(len, flags, o);
      && OpcrOffset(s, af) == s + 2 + (if Bit(flags, 4) then 6 else 0)
      && SpliceCountdownOffset(s, af) == OpcrOffset(s, af) + (if Bit(flags, 3) then 6 else 0)
      && PrivateDataOffset(s, af) == SpliceCountdownOffset(s, af) + (if Bit(flags, 2) then 1 else 0)
      && ExtensionOffset(s, af) == PrivateDataOffset(s, af) + (if Bit(flags, 1) then 1 + o.privateDataLength as int else 0)
  {
  }

  lemma SpliceCountdownOffsetHolds(b: seq<byte>, s: nat, len: byte, flags: byte, o: OptionalFields, af: AdaptationField)
    requires OptionalFieldsAt(b, s + 2, flags) == Ok(o) && af == WithFlags(len, flags, o)
    ensures SpliceCountdownAtOffset(b, s, af)
  {
    var opcrAt, spliceAt, privateAt, extensionAt := FieldsChain(b, s + 2, flags, o);
    SpliceCountdownAtEnd(b, spliceAt, Bit(flags, 2));
    WithFlagsOffsets(s, len, flags, o);
  }

  lemma PrivateDataOffsetHolds(b: seq<byte>, s: nat, len: byte, flags: byte, o: OptionalFields, af: AdaptationField)
    requires OptionalFieldsAt(b, s + 2, flags) == Ok(o) && af == WithFlags(len, flags, o)
    ensures PrivateDataAtOffset(b, s, af)
  {
    if af.transportPrivateDataFlag {
      var opcrAt, spliceAt, privateAt, extensionAt := FieldsChain(b, s + 2, flags, o);
      WithFlagsOffsets(s, len, flags, o);
      PrivateDataAtEnd(b, privateAt, true);
      PrivateDataFound(b, s, af, privateAt, extensionAt);
    }
  }

  lemma ExtensionOffsetHolds(b: seq<byte>, s: nat, len: byte, flags: byte, o: OptionalFields, af: AdaptationField)
    requires OptionalFieldsAt(b, s + 2, flags) == Ok(o) && af == WithFlags(len, flags, o)
    ensures ExtensionAtOffset(b, s, af)
  {
    if af.adaptationFieldExtensionFlag {
      var opcrAt, spliceAt, privateAt, extensionAt := FieldsChain(b, s + 2, flags, o);
      WithFlagsOffsets(s, len, flags, o);
      ExtensionAtEnd(b, extensionAt, true);
      ExtensionFound(b, s, af, extensionAt);
    }
  }

  lemma ClockAtEnd(b: seq<byte>, i: nat, present: bool)
    requires ClockAt(b, i, present).Ok?
    ensures var v := ClockAt(b, i, present).value;
      && (v.0.Some? <==> present)
      && v.1 == i + (if present then 6 else 0)
      && (present ==> i + 6 <= |b| && v.0 == Some(ParseClockReference(b[i..i + 6])))
  {
  }

  lemma SpliceCountdownAtEnd(b: seq<byte>, i: nat, present: bool)
    requires SpliceCountdownAt(b, i, present).Ok?
    ensures var v := SpliceCountdownAt(b, i, present).value;
      && (!present ==> v.0 == 0)
      && (present ==> i < |b| && v.0 == AsInt8(b[i]))
      && v.1 == i + (if present then 1 else 0)
  {
  }

  lemma PrivateDataAtEnd(b: seq<byte>, i: nat, present: bool)
    requires PrivateDataAt(b, i, present).Ok?
    ensures var v := PrivateDataAt(b, i, present).value;
      && (!present ==> v.0 == 0)
      && |v.1| == v.0 as int
      && (present ==> i < |b| && v.0 == b[i] && i + 1 + v.0 as int <= |b| && v.1 == b[i + 1..i + 1 + v.0 as int])
      && v.2 == i + (if present then 1 + v.0 as int else 0)
  {
  }

  lemma ExtensionAtEnd(b: seq<byte>, i: nat, present: bool)
    requires ExtensionAt(b, i, present).Ok?
    ensures var v := ExtensionAt(b, i, present).value;
      && (v.0.Some? <==> present)
      && (present ==> i < |b| && i + 1 + b[i] as int <= |b| && ParseAdaptationExtension(b[i..i + 1 + b[i] as int]) == Ok(v.0.value))
      && v.1 == i + (if present then 1 + v.0.value.adaptationExtensionLength as int else 0)
  {
    if present {
      var l := b[i];
      var e := b[i..i + 1 + l as int];
      assert ExtensionAt(b, i, present).value.0 == Some(ParseAdaptationExtension(e).value);
    }
  }

  /** The sub-fields end `SubfieldBytes - 2` bytes after the flags byte. */
  lemma OptionalFieldsEnd(b: seq<byte>, i: nat, flags: byte)
    requires OptionalFieldsAt(b, i, flags).Ok?
    ensures var o := OptionalFieldsAt(b, i, flags).value;
      && (o.pcr.Some? <==> Bit(flags, 4))
      && (o.opcr.Some? <==> Bit(flags, 3))
      && (o.extension.Some? <==> Bit(flags, 0))
      && (!Bit(flags, 2) ==> o.spliceCountdown == 0)
      && (!Bit(flags, 1) ==> o.privateDataLength == 0)
      && |o.privateData| == o.privateDataLength as int
      && (Bit(flags, 4) ==> i + 6 <= |b| && o.pcr == Some(ParseClockReference(b[i..i + 6])))
      && o.end + 2 == i + SubfieldBytes(WithFlags(1, flags, o))
  {
    var pcr := ClockAt(b, i, Bit(flags, 4)).value;
    ClockAtEnd(b, i, Bit(flags, 4));
    var opcr := ClockAt(b, pcr.1, Bit(flags, 3)).value;
    ClockAtEnd(b, pcr.1, Bit(flags, 3));
    var splice := SpliceCountdownAt(b, opcr.1, Bit(flags, 2)).value;
    SpliceCountdownAtEnd(b, opcr.1, Bit(flags, 2));
    var tpd := PrivateDataAt(b, splice.1, Bit(flags, 1)).value;
    PrivateDataAtEnd(b, splice.1, Bit(flags, 1));
    ExtensionAtEnd(b, tpd.2, Bit(flags, 0));
  }

  // The code as written.

  /** adaptation_field.go as written: it always reads a flags byte, hands the
      extension decoder `length` bytes starting at the extension's length
      byte (one short), and leaves the cursor after the last sub-field, so
      stuffing bytes are not skipped. */
  function DecodeAdaptationFieldAsWritten(b: seq<byte>, s: nat): (r: Result<(AdaptationField, nat)>)
    // as written the cursor ends where the sub-fields end, not at the declared length
    ensures r.Ok? ==> r.value.1 == s + SubfieldBytes(r.value.0)
                                     - (if r.value.0.adaptationFieldExtensionFlag then 1 else 0)
  {
    var bs :- ReadAt(b, s, 2);
    var o :- OptionalFieldsAsWrittenAt(b, s + 2, bs[1]);
    OptionalFieldsAsWrittenEnd(b, s + 2, bs[1]);
    Ok((WithFlags(bs[0], bs[1], o), o.end))
  }

  function OptionalFieldsAsWrittenAt(b: seq<byte>, i: nat, flags: byte): Result<OptionalFields>
  {
    var pcr :- ClockAt(b, i, Bit(flags, 4));
    var opcr :- ClockAt(b, pcr.1, Bit(flags, 3));
    var splice :- SpliceCountdownAt(b, opcr.1, Bit(flags, 2));
    var tpd :- PrivateDataAt(b, splice.1, Bit(flags, 1));
    var ext :- ExtensionAsWrittenAt(b, tpd.2, Bit(flags, 0));
    Ok(OptionalFields(pcr.0, opcr.0, splice.0, tpd.0, tpd.1, ext.0, ext.1))
  }

  /** `l := ReadByte(); Dec(1); ParseAdaptationExtension(ReadBytes(l))`. */
  function ExtensionAsWrittenAt(b: seq<byte>, i: nat, present: bool): Result<(Option<AdaptationExtension>, nat)>
  {
    if !present then Ok((None, i))
    else
      var l :- ReadAt(b, i, 1);
      var e :- ReadAt(b, i, l[0]);
      var x :- ParseAdaptationExtensionAsWritten(e);
      Ok((Some(x), i + l[0]))
  }

  lemma ExtensionAsWrittenAtEnd(b: seq<byte>, i: nat, present: bool)
    requires ExtensionAsWrittenAt(b, i, present).Ok?
    ensures var v := ExtensionAsWrittenAt(b, i, present).value;
      && (v.0.Some? <==> present)
      && v.1 == i + (if present then v.0.value.adaptationExtensionLength as int else 0)
  {
    if present {
      var l := b[i];
      var e := b[i..i + l as int];
      assert ExtensionAsWrittenAt(b, i, present).value.0 == Some(ParseAdaptationExtensionAsWritten(e).value);
    }
  }

  lemma OptionalFieldsAsWrittenEnd(b: seq<byte>, i: nat, flags: byte)
    requires OptionalFieldsAsWrittenAt(b, i, flags).Ok?
    ensures var o := OptionalFieldsAsWrittenAt(b, i, flags).value;
      o.end + 2 == i + SubfieldBytes(WithFlags(1, flags, o)) - (if Bit(flags, 0) then 1 else 0)
  {
    var pcr := ClockAt(b, i, Bit(flags, 4)).value;
    ClockAtEnd(b, i, Bit(flags, 4));
    var opcr := ClockAt(b, pcr.1, Bit(flags, 3)).value;
    ClockAtEnd(b, pcr.1, Bit(flags, 3));
    var splice := SpliceCountdownAt(b, opcr.1, Bit(flags, 2)).value;
    SpliceCountdownAtEnd(b, opcr.1, Bit(flags, 2));
    var tpd := PrivateDataAt(b, splice.1, Bit(flags, 1)).value;
    PrivateDataAtEnd(b, splice.1, Bit(flags, 1));
    ExtensionAsWrittenAtEnd(b, tpd.2, Bit(flags, 0));
  }

  /** A three-byte field with only an extension of length 1 (its flags byte):
      the declared lengths agree, yet as written the extension decoder gets
      only the length byte and fails. */
  lemma ExtensionSliceAsWrittenOneShort()
    ensures DecodeAdaptationField([3, 0x01, 1, 0x00], 0).Ok?
    ensures DecodeAdaptationField([3, 0x01, 1, 0x00], 0).value.1 == 4
    ensures DecodeAdaptationFieldAsWritten([3, 0x01, 1, 0x00], 0) == Err(OutOfBounds)
  {
    assert ReadAt([3, 0x01, 1, 0x00], 2, 2).value == [1, 0x00];
    assert ReadAt([3, 0x01, 1, 0x00], 2, 1).value == [1];
  }

  /** A field of declared length 3 whose flags announce nothing is followed by
      two stuffing bytes: the payload starts at 4, but as written the cursor
      is left at 2. */
  lemma StuffingAsWrittenNotSkipped()
    ensures DecodeAdaptationField([3, 0x00, 0xFF, 0xFF, 0x00], 0).Ok?
    ensures DecodeAdaptationField([3, 0x00, 0xFF, 0xFF, 0x00], 0).value.1 == 4
    ensures DecodeAdaptationFieldAsWritten([3, 0x00, 0xFF, 0xFF, 0x00], 0).Ok?
    ensures DecodeAdaptationFieldAsWritten([3, 0x00, 0xFF, 0xFF, 0x00], 0).value.1 == 2
  {
    var b: seq<byte> := [3, 0x00, 0xFF, 0xFF, 0x00];
    assert !Bit(0, 4) && !Bit(0, 3) && !Bit(0, 2) && !Bit(0, 1) && !Bit(0, 0);
    assert OptionalFieldsAt(b, 2, 0) == Ok(OptionalFields(None, None, 0, 0, [], None, 2));
    assert OptionalFieldsAsWrittenAt(b, 2, 0) == Ok(OptionalFields(None, None, 0, 0, [], None, 2));
    assert ReadAt(b, 0, 2).value == [3, 0x00];
  }

  /** A zero-length field (one stuffing byte) followed by a payload byte 0x80:
      as written that payload byte is taken as flags and sets the
      discontinuity indicator. */
  lemma ZeroLengthAsWrittenReadsPayload()
    ensures DecodeAdaptationField([0, 0x80], 0) == Ok((StuffingOnly(), 1))
    ensures DecodeAdaptationFieldAsWritten([0, 0x80], 0).Ok?
    ensures DecodeAdaptationFieldAsWritten([0, 0x80], 0).value.0.discontinuityIndicator
  {
    assert ReadAt([0, 0x80], 0, 2).value == [0, 0x80];
  }
}
