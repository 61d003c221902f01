/** Program specific information: the pointer field, then sections made of a
    3-byte header, a 5-byte syntax section, table data and a CRC32, until a
    table id of 0xFF (sections 2.4.4.1-2.4.4.5 of ITU-T H.222.0). A table id
    of 0 carries a program association table; every other id is kept as a
    section without table data. */
module ProgramSpecificInformation {
  import opened Common
  import opened Session
  import opened ProgramAssociationTable

  /** The table id after which the rest of the payload is stuffing. */
  const StuffingTableId: byte := 0xFF
  const PatTableId: byte := 0

  /** Bytes counted by section_length that are not table data: the syntax
      section before the data and the CRC32 after it. */
  const SyntaxBytes: nat := 5
  const CrcBytes: nat := 4

  datatype PSISectionHeader = PSISectionHeader(
    tableId: byte,
    sectionSyntaxIndicator: bool,
    privateBit: bool,
    sectionLength: uint12)

  /** The Go `PSISectionSyntax`, which also holds the CRC and the table data. */
  datatype PSISectionSyntax = PSISectionSyntax(
    tableIdExtension: uint16,
    versionNumber: uint5,
    currentNextIndicator: bool,
    sectionNumber: byte,
    lastSectionNumber: byte,
    crc32: uint32,
    pat: Option<ProgramAssociationTable>)

  datatype PSISection = PSISection(header: PSISectionHeader, syntax: PSISectionSyntax)

  datatype ProgramSpecificInformation = ProgramSpecificInformation(pointerField: byte, sections: seq<PSISection>)

  /** `ParsePSISectionHeader`: table id, two flags in bits 7 and 6 of the
      second byte, and a 12-bit length from its low nibble and the third byte. */
  function ParsePSISectionHeader(b: seq<byte>): (h: PSISectionHeader)
    requires |b| >= 3
    ensures h.tableId == b[0]
  {
    PSISectionHeader(b[0], b[1] / 0x80 == 1, b[1] / 0x40 % 2 == 1, b[1] as int % 0x10 * 0x100 + b[2] as int)
  }

  /** `ParsePSISectionSyntax`: the extension, the 5-bit version in bits 5-1
      and the current/next flag in bit 0 of the third byte, and the two
      section numbers. The CRC and the table data are filled in by the scan. */
  function ParsePSISectionSyntax(b: seq<byte>): (s: PSISectionSyntax)
    requires |b| >= 5
    ensures s.crc32 == 0 && s.pat == None
    ensures s.sectionNumber == b[3] && s.lastSectionNumber == b[4]
  {
    PSISectionSyntax(Be16(b[0], b[1]), b[2] % 0x40 / 2, b[2] % 2 == 1, b[3], b[4], 0, None)
  }

  /** The table data a section of this id carries. */
  function TableFor(tableId: byte, data: seq<byte>): Option<ProgramAssociationTable>
  {
    if tableId == PatTableId then Some(ProgramAssociationTable(PatEntries(data))) else None
  }

  /** The sections decoded from position i, and whether the scan ended well
      (at the end of the payload or at a 0xFF table id) rather than at a
      section that runs past the payload or is too short for its syntax
      section and CRC. */
  datatype ScanOutcome = ScanOutcome(sections: seq<PSISection>, complete: bool)

  /** section_length of the header at i. */
  function SectionLengthAt(b: seq<byte>, i: nat): uint12
    requires i + 3 <= |b|
  {
    ParsePSISectionHeader(b[i..i + 3]).sectionLength
  }

  /** The header at i fits, its length covers a syntax section and a CRC,
      and the section it announces ends inside the payload. */
  predicate SectionFits(b: seq<byte>, i: nat)
  {
    && i + 3 <= |b|
    && SectionLengthAt(b, i) >= SyntaxBytes + CrcBytes
    && i + 3 + SectionLengthAt(b, i) <= |b|
  }

  /** The section at i: its header, its syntax fields, the CRC in its last
      four bytes, and the table carried by the bytes in between. */
  function SectionAt(b: seq<byte>, i: nat): PSISection
    requires SectionFits(b, i)
  {
    var h := ParsePSISectionHeader(b[i..i + 3]);
    var end := i + 3 + h.sectionLength;
    PSISection(h, ParsePSISectionSyntax(b[i + 3..i + 8]).(
      crc32 := Be32(b[end - CrcBytes..end]),
      pat := TableFor(h.tableId, b[i + 8..end - CrcBytes])))
  }

  function ScanFrom(b: seq<byte>, i: nat): ScanOutcome
    decreases |b| - i
  {
    if |b| <= i || b[i] == StuffingTableId then ScanOutcome([], true)
    else if !SectionFits(b, i) then ScanOutcome([], false)
    else
      var rest := ScanFrom(b, i + 3 + SectionLengthAt(b, i));
      ScanOutcome([SectionAt(b, i)] + rest.sections, rest.complete)
  }

  /** The sections a payload yields, scanning from just after the pointer
      field and the pointer_field filler bytes it announces. */
  function ScannedSections(b: seq<byte>): seq<PSISection>
  {
    if |b| == 0 then [] else ScanFrom(b, 1 + b[0] as int).sections
  }

  /** The decoded payload, or OutOfBounds when the scan did not end well. */
  function DecodeProgramSpecificInformation(b: seq<byte>): Result<ProgramSpecificInformation>
  {
    if |b| == 0 then Err(OutOfBounds)
    else
      var o := ScanFrom(b, 1 + b[0] as int);
      if o.complete then Ok(ProgramSpecificInformation(b[0], o.sections)) else Err(OutOfBounds)
  }

  /** The registry entries contributed by the association tables among the
      sections, a later section overriding an earlier one. */
  function Registered(ss: seq<PSISection>): map<PID, uint16>
  {
    if |ss| == 0 then map[]
    else Registered(ss[..|ss| - 1]) + TablesOf(ss[|ss| - 1])
  }

  function Join(acc: seq<PSISection>, o: ScanOutcome): ScanOutcome
  {
    ScanOutcome(acc + o.sections, o.complete)
  }

  /** `ParseProgramSpecificInformation`: reads the pointer field, then one
      section per iteration, decoding the association table of a table-0
      section into the session registry, until a 0xFF table id or the end
      of the payload. */
  method ParseProgramSpecificInformation(p: Parser, b: seq<byte>) returns (res: Result<ProgramSpecificInformation>)
    modifies p`programMap
    ensures res == DecodeProgramSpecificInformation(b)
    ensures p.programMap == old(p.programMap) + Registered(ScannedSections(b))
  {
    if |b| == 0 {
      assert p.programMap == old(p.programMap) + map[];
      return Err(OutOfBounds);
    }
    var pointerField := b[0];
    var sections: seq<PSISection> := [];
    var i := 1 + pointerField as int;
    assert Join(sections, ScanFrom(b, i)) == ScanFrom(b, i);
    while i < |b| && b[i] != StuffingTableId
      invariant ScanFrom(b, 1 + pointerField as int) == Join(sections, ScanFrom(b, i))
      invariant p.programMap == old(p.programMap) + Registered(sections)
      decreases |b| - i
    {
      if |b| < i + 3 {
        ScanStopsShort(b, i, sections);
        return Err(OutOfBounds);
      }
      var header := ParsePSISectionHeader(b[i..i + 3]);
      var end := i + 3 + header.sectionLength as int;
      if header.sectionLength < SyntaxBytes + CrcBytes || |b| < end {
        ScanStopsShort(b, i, sections);
        return Err(OutOfBounds);
      }
      var section := ParseSection(p, b, i);
      RegisteredStep(old(p.programMap), sections, section);
      ScanAdvances(b, 1 + pointerField as int, i, sections, end);
      sections := sections + [section];
      i := end;
    }
    ScanEndsWell(b, i, sections);
    res := Ok(ProgramSpecificInformation(pointerField, sections));
  }

  /** One section that fits at i: its syntax section, its CRC, and for
      table id 0 the association table of its data, which also goes into
      the session registry. */
  method ParseSection(p: Parser, b: seq<byte>, i: nat) returns (section: PSISection)
    requires SectionFits(b, i)
    modifies p`programMap
    ensures section == SectionAt(b, i)
    ensures p.programMap == old(p.programMap) + TablesOf(section)
  {
    var header := ParsePSISectionHeader(b[i..i + 3]);
    var end := i + 3 + header.sectionLength as int;
    var syntax := ParsePSISectionSyntax(b[i + 3..i + 8]);
    var pat: Option<ProgramAssociationTable> := None;
    if header.tableId == PatTableId {
      var t := ParseProgramAssociationTable(p, b[i + 8..end - CrcBytes]);
      pat := Some(t);
    } else {
      assert p.programMap == old(p.programMap) + map[];
    }
    syntax := syntax.(crc32 := Be32(b[end - CrcBytes..end]), pat := pat);
    section := PSISection(header, syntax);
  }

  /** A section that does not fit ends the scan with the sections before it, as a failure. */
  lemma ScanStopsShort(b: seq<byte>, i: nat, sections: seq<PSISection>)
    requires 0 < |b| && i < |b| && b[i] != StuffingTableId && !SectionFits(b, i)
    requires ScanFrom(b, 1 + b[0] as int) == Join(sections, ScanFrom(b, i))
    ensures ScannedSections(b) == sections
    ensures DecodeProgramSpecificInformation(b) == Err(OutOfBounds)
  {
    assert ScanFrom(b, i) == ScanOutcome([], false);
    assert sections + [] == sections;
  }

  /** The scan reached the end of the payload or stuffing: everything before it was decoded. */
  lemma ScanEndsWell(b: seq<byte>, i: nat, sections: seq<PSISection>)
    requires 0 < |b| && (|b| <= i || b[i] == StuffingTableId)
    requires ScanFrom(b, 1 + b[0] as int) == Join(sections, ScanFrom(b, i))
    ensures ScannedSections(b) == sections
    ensures DecodeProgramSpecificInformation(b) == Ok(ProgramSpecificInformation(b[0], sections))
  {
    assert ScanFrom(b, i) == ScanOutcome([], true);
    assert sections + [] == sections;
  }

  /** The loop's scan invariant holds again after the section at i. */
  lemma ScanAdvances(b: seq<byte>, start: nat, i: nat, sections: seq<PSISection>, end: nat)
    requires SectionFits(b, i) && b[i] != StuffingTableId && end == i + 3 + SectionLengthAt(b, i)
    requires ScanFrom(b, start) == Join(sections, ScanFrom(b, i))
    ensures ScanFrom(b, start) == Join(sections + [SectionAt(b, i)], ScanFrom(b, end))
  {
    var next := ScanFrom(b, end);
    ScanStepTo(b, i, SectionAt(b, i), end);
    JoinStep(sections, SectionAt(b, i), next);
  }

  lemma RegisteredStep(m: map<PID, uint16>, ss: seq<PSISection>, s: PSISection)
    ensures m + Registered(ss) + TablesOf(s) == m + Registered(ss + [s])
  {
    RegisteredSnoc(ss, s);
    MapUnionAssoc(m, Registered(ss), TablesOf(s));
  }

  lemma RegisteredSnoc(ss: seq<PSISection>, s: PSISection)
    ensures Registered(ss + [s]) == Registered(ss) + TablesOf(s)
  {
    assert (ss + [s])[..|ss|] == ss;
  }

  lemma MapUnionAssoc(a: map<PID, uint16>, b: map<PID, uint16>, c: map<PID, uint16>)
    ensures a + b + c == a + (b + c)
  {
  }

  lemma JoinStep(acc: seq<PSISection>, s: PSISection, o: ScanOutcome)
    ensures Join(acc, ScanOutcome([s] + o.sections, o.complete)) == Join(acc + [s], o)
  {
    assert acc + ([s] + o.sections) == (acc + [s]) + o.sections;
  }

  /** The registry entries of one section. */
  function TablesOf(s: PSISection): map<PID, uint16>
  {
    if s.syntax.pat.Some? then s.syntax.pat.value.programMap else map[]
  }

  // Properties of the scan.

  /** Every decoded section has a table id other than 0xFF, a length that
      covers its syntax section and CRC, and table data exactly when its
      table id is 0. */
  lemma {:induction false} ScannedSectionsWellFormed(b: seq<byte>, i: nat)
    ensures forall k :: 0 <= k < |ScanFrom(b, i).sections| ==>
      var s := ScanFrom(b, i).sections[k];
      && s.header.tableId != StuffingTableId
      && s.header.sectionLength >= SyntaxBytes + CrcBytes
      && (s.syntax.pat.Some? <==> s.header.tableId == PatTableId)
    decreases |b| - i
  {
    if i < |b| && b[i] != StuffingTableId && i + 3 <= |b| {
      var h := ParsePSISectionHeader(b[i..i + 3]);
      var end := i + 3 + h.sectionLength;
      if h.sectionLength >= SyntaxBytes + CrcBytes && end <= |b| {
        ScannedSectionsWellFormed(b, end);
      }
    }
  }

  /** Bytes a section occupies: its header and the section_length after it. */
  function SectionBytes(ss: seq<PSISection>): nat
  {
    if |ss| == 0 then 0 else 3 + ss[0].header.sectionLength + SectionBytes(ss[1..])
  }

  /** The sections lie one after the other inside the payload: the read head
      moves forward by at least 12 bytes per section and never past the end. */
  lemma {:induction false} ScanWithinPayload(b: seq<byte>, i: nat)
    ensures ScanFrom(b, i).sections != [] ==> i + SectionBytes(ScanFrom(b, i).sections) <= |b|
    ensures SectionBytes(ScanFrom(b, i).sections) >= 12 * |ScanFrom(b, i).sections|
    decreases |b| - i
  {
    if i < |b| && b[i] != StuffingTableId && i + 3 <= |b| {
      var h := ParsePSISectionHeader(b[i..i + 3]);
      var end := i + 3 + h.sectionLength;
      if h.sectionLength >= SyntaxBytes + CrcBytes && end <= |b| {
        ScanWithinPayload(b, end);
        var ss := ScanFrom(b, i).sections;
        assert ss[1..] == ScanFrom(b, end).sections;
      }
    }
  }

  // A multiplexer's encoding of sections, with every reserved bit set.

  function EncodeHeader(h: PSISectionHeader): (b: seq<byte>)
    ensures |b| == 3
  {
    [ h.tableId,
      (if h.sectionSyntaxIndicator then 0x80 else 0) + (if h.privateBit then 0x40 else 0) + 0x30
        + h.sectionLength / 0x100,
      h.sectionLength % 0x100 ]
  }

  function EncodeSyntax(s: PSISectionSyntax): (b: seq<byte>)
    ensures |b| == 5
  {
    [ s.tableIdExtension / 0x100, s.tableIdExtension % 0x100,
      0xC0 + s.versionNumber * 2 + (if s.currentNextIndicator then 1 else 0),
      s.sectionNumber, s.lastSectionNumber ]
  }

  function EncodeBe32(x: uint32): (b: seq<byte>)
    ensures |b| == 4
  {
    [x / 0x100_0000, x / 0x1_0000 % 0x100, x / 0x100 % 0x100, x % 0x100]
  }

  lemma Be32RoundTrip(x: uint32)
    ensures Be32(EncodeBe32(x)) == x
  {
    var b := EncodeBe32(x);
    assert x / 0x100 == x / 0x1_0000 * 0x100 + b[2] as int;
    assert x / 0x1_0000 == b[0] as int * 0x100 + b[1] as int;
  }

  lemma HeaderRoundTrip(h: PSISectionHeader)
    ensures ParsePSISectionHeader(EncodeHeader(h)) == h
  {
    var b1 := EncodeHeader(h)[1] as int;
    var top := (if h.sectionSyntaxIndicator then 8 else 0) + (if h.privateBit then 4 else 0) + 3;
    Div16(b1, top, h.sectionLength / 0x100);
    Div64(b1, top / 4, top % 4 * 0x10 + h.sectionLength / 0x100);
    Div2(top / 4, top / 8, top / 4 % 2);
  }

  lemma SyntaxRoundTrip(s: PSISectionSyntax)
    ensures ParsePSISectionSyntax(EncodeSyntax(s)) == s.(crc32 := 0, pat := None)
  {
    var b2 := EncodeSyntax(s)[2] as int;
    var c := if s.currentNextIndicator then 1 else 0;
    Div64(b2, 3, s.versionNumber * 2 + c);
    Div2(b2 % 0x40, s.versionNumber, c);
    Div2(b2, 0x60 + s.versionNumber, c);
  }

  /** Re-encoding a decoded header gives back every bit the decoder reads:
      the table id, the two flags in bits 7-6 of the second byte, and the
      12-bit length in its low nibble and the third byte. Only the two
      reserved bits 5-4 come back set, so a header with them set comes
      back whole. */
  lemma HeaderCoversEveryBit(b: seq<byte>)
    requires |b| == 3
    ensures var e := EncodeHeader(ParsePSISectionHeader(b));
      && e[0] == b[0] && e[2] == b[2]
      && e[1] / 0x40 == b[1] / 0x40 && e[1] % 0x10 == b[1] % 0x10
      && (b[1] / 0x10 % 4 == 3 ==> e == b)
  {
    var x := b[1] as int;
    Div16(x, x / 0x10, x % 0x10);
    Div4(x / 0x10, x / 0x40, x / 0x10 % 4);
  }

  /** Re-encoding a decoded syntax section gives back every bit the decoder
      reads: the extension, the version in bits 5-1 and the current/next
      flag in bit 0 of the third byte, and the two section numbers. Only the
      two reserved bits 7-6 come back set. */
  lemma SyntaxCoversEveryBit(b: seq<byte>)
    requires |b| == 5
    ensures var e := EncodeSyntax(ParsePSISectionSyntax(b));
      && e[0] == b[0] && e[1] == b[1] && e[3] == b[3] && e[4] == b[4]
      && e[2] % 0x40 == b[2] % 0x40
      && (b[2] / 0x40 == 3 ==> e == b)
  {
    var x := b[2] as int;
    Div64(x, x / 0x40, x % 0x40);
    Div2(x % 0x40, x % 0x40 / 2, x % 2);
  }

  /** A section as a multiplexer writes it: header, syntax section, table data, CRC. */
  datatype WireSection = WireSection(header: PSISectionHeader, syntax: PSISectionSyntax, data: seq<byte>)

  /** The table id is not the stuffing value and section_length counts the
      syntax section, the data and the CRC. */
  predicate WellFormedWire(w: WireSection)
  {
    w.header.tableId != StuffingTableId && w.header.sectionLength == SyntaxBytes + |w.data| + CrcBytes
  }

  function EncodeWire(w: WireSection): (b: seq<byte>)
    ensures |b| == 12 + |w.data|
  {
    EncodeHeader(w.header) + EncodeSyntax(w.syntax) + w.data + EncodeBe32(w.syntax.crc32)
  }

  function EncodeWires(ws: seq<WireSection>): seq<byte>
  {
    if |ws| == 0 then [] else EncodeWire(ws[0]) + EncodeWires(ws[1..])
  }

  /** What the scan should give for a section: its header, its syntax
      fields and CRC, and the association table of its data when it is one. */
  function Expected(w: WireSection): PSISection
  {
    PSISection(w.header, w.syntax.(pat := TableFor(w.header.tableId, w.data)))
  }

  function ExpectedAll(ws: seq<WireSection>): (ss: seq<PSISection>)
    ensures |ss| == |ws|
  {
    if |ws| == 0 then [] else [Expected(ws[0])] + ExpectedAll(ws[1..])
  }

  /** Where the parts of an encoded section sit in a buffer that holds it at i. */
  lemma WireSectionParts(b: seq<byte>, i: nat, w: WireSection, rest: seq<byte>)
    requires i <= |b| && b[i..] == EncodeWire(w) + rest
    ensures var end := i + |EncodeWire(w)|;
      && end <= |b| && b[end..] == rest
      && b[i..i + 3] == EncodeHeader(w.header)
      && b[i + 3..i + 8] == EncodeSyntax(w.syntax)
      && b[i + 8..end - CrcBytes] == w.data
      && b[end - CrcBytes..end] == EncodeBe32(w.syntax.crc32)
  {
    var e := EncodeWire(w);
    var end := i + |e|;
    assert b[i..end] == e;
    assert b[end..] == rest;
    assert e[..3] == EncodeHeader(w.header);
    assert e[3..8] == EncodeSyntax(w.syntax);
    assert e[8..|e| - 4] == w.data;
    assert e[|e| - 4..] == EncodeBe32(w.syntax.crc32);
  }

  /** An encoded section at i fits, and decodes to what was encoded. */
  lemma WireSectionDecodes(b: seq<byte>, i: nat, w: WireSection, rest: seq<byte>)
    requires WellFormedWire(w)
    requires i <= |b| && b[i..] == EncodeWire(w) + rest
    ensures i < |b| && b[i] == w.header.tableId
    ensures SectionFits(b, i) && SectionLengthAt(b, i) == w.header.sectionLength
    ensures SectionAt(b, i) == Expected(w)
  {
    WireSectionParts(b, i, w, rest);
    HeaderRoundTrip(w.header);
    SyntaxRoundTrip(w.syntax);
    Be32RoundTrip(w.syntax.crc32);
    assert b[i] == b[i..i + 3][0];
  }

  /** An encoded section at i is decoded, and the scan goes on from its end. */
  lemma WireSectionRoundTrip(b: seq<byte>, i: nat, w: WireSection, rest: seq<byte>) returns (end: nat)
    requires WellFormedWire(w)
    requires i <= |b| && b[i..] == EncodeWire(w) + rest
    ensures end == i + |EncodeWire(w)| <= |b| && b[end..] == rest
    ensures ScanFrom(b, i) == ScanOutcome([Expected(w)] + ScanFrom(b, end).sections, ScanFrom(b, end).complete)
  {
    WireSectionDecodes(b, i, w, rest);
    WireSectionEnd(b, i, w, rest);
    end := i + |EncodeWire(w)|;
    ScanStepTo(b, i, Expected(w), end);
  }

  lemma WireSectionEnd(b: seq<byte>, i: nat, w: WireSection, rest: seq<byte>)
    requires i <= |b| && b[i..] == EncodeWire(w) + rest
    ensures i + |EncodeWire(w)| <= |b| && b[i + |EncodeWire(w)|..] == rest
  {
    var e := EncodeWire(w);
    assert b[i + |e|..] == b[i..][|e|..];
  }

  /** A section that fits is decoded, and the scan goes on after it. */
  lemma ScanStep(b: seq<byte>, i: nat)
    requires SectionFits(b, i) && b[i] != StuffingTableId
    ensures var next := ScanFrom(b, i + 3 + SectionLengthAt(b, i));
      ScanFrom(b, i) == ScanOutcome([SectionAt(b, i)] + next.sections, next.complete)
  {
  }

  /** ScanStep, for a section and an end already known. */
  lemma ScanStepTo(b: seq<byte>, i: nat, s: PSISection, end: nat)
    requires SectionFits(b, i) && b[i] != StuffingTableId
    requires SectionAt(b, i) == s && end == i + 3 + SectionLengthAt(b, i)
    ensures ScanFrom(b, i) == ScanOutcome([s] + ScanFrom(b, end).sections, ScanFrom(b, end).complete)
  {
    ScanStep(b, i);
  }

  /** At the end of the payload or at a 0xFF table id the scan ends well with no section. */
  lemma ScanAtStuffing(b: seq<byte>, i: nat)
    requires i == |b| || (i < |b| && b[i] == StuffingTableId)
    ensures ScanFrom(b, i) == ScanOutcome([], true)
  {
  }

  lemma {:induction false} WireSectionsRoundTrip(b: seq<byte>, i: nat, ws: seq<WireSection>, tail: seq<byte>)
    requires forall k :: 0 <= k < |ws| ==> WellFormedWire(ws[k])
    requires tail == [] || tail[0] == StuffingTableId
    requires i <= |b| && b[i..] == EncodeWires(ws) + tail
    ensures ScanFrom(b, i) == ScanOutcome(ExpectedAll(ws), true)
    decreases |ws|
  {
    if |ws| == 0 {
      assert b[i..] == tail;
      ScanAtStuffing(b, i);
    } else {
      var rest := EncodeWires(ws[1..]) + tail;
      assert b[i..] == EncodeWire(ws[0]) + rest by {
        assert EncodeWires(ws) == EncodeWire(ws[0]) + EncodeWires(ws[1..]);
      }
      var end := WireSectionRoundTrip(b, i, ws[0], rest);
      assert forall k :: 0 <= k < |ws[1..]| ==> WellFormedWire(ws[1..][k]) by {
        forall k | 0 <= k < |ws[1..]| ensures WellFormedWire(ws[1..][k]) {
          assert ws[1..][k] == ws[k + 1];
        }
      }
      WireSectionsRoundTrip(b, end, ws[1..], tail);
      var later := ScanFrom(b, end);
      assert later == ScanOutcome(ExpectedAll(ws[1..]), true);
      assert ScanFrom(b, i) == ScanOutcome([Expected(ws[0])] + later.sections, later.complete);
      assert ExpectedAll(ws) == [Expected(ws[0])] + ExpectedAll(ws[1..]);
    }
  }

  /** A scan from just after the pointer field that ends well is the decoded payload. */
  lemma DecodeFromScan(b: seq<byte>, start: nat, ss: seq<PSISection>)
    requires 0 < |b| && start == 1 + b[0] as int && ScanFrom(b, start) == ScanOutcome(ss, true)
    ensures DecodeProgramSpecificInformation(b) == Ok(ProgramSpecificInformation(b[0], ss))
  {
  }

  /** A payload of pointer field, filler, well-formed sections and 0xFF
      stuffing decodes to the pointer field and exactly those sections:
      scanning stops at the stuffing and returns everything before it. */
  lemma PayloadRoundTrip(b: seq<byte>, filler: seq<byte>, ws: seq<WireSection>, stuffing: seq<byte>)
    requires |filler| < 0x100
    requires forall k :: 0 <= k < |ws| ==> WellFormedWire(ws[k])
    requires stuffing == [] || stuffing[0] == StuffingTableId
    requires b == [|filler|] + filler + EncodeWires(ws) + stuffing
    ensures DecodeProgramSpecificInformation(b) == Ok(ProgramSpecificInformation(|filler|, ExpectedAll(ws)))
  {
    var start := 1 + |filler|;
    PointerFieldPrefix(b, filler, EncodeWires(ws), stuffing);
    WireSectionsRoundTrip(b, start, ws, stuffing);
    DecodeFromScan(b, start, ExpectedAll(ws));
  }

  lemma PointerFieldPrefix(b: seq<byte>, filler: seq<byte>, body: seq<byte>, tail: seq<byte>)
    requires |filler| < 0x100 && b == [|filler|] + filler + body + tail
    ensures 0 < |b| && b[0] as int == |filler| && 1 + |filler| <= |b| && b[1 + |filler|..] == body + tail
  {
    assert b == ([|filler|] + filler) + (body + tail);
  }

  // The code as written.

  /** program_specific_information.go as written: the scan starts at the
      pointer field's own value rather than after it, a section's data is
      handed everything after its syntax section, the CRC is never read,
      and the head then skips section_length bytes after the syntax section
      although section_length already counts it. Where Go would panic on a
      slice this gives OutOfBounds. */
  function ScanAsWritten(b: seq<byte>, i: nat): Result<seq<PSISection>>
    decreases |b| - i
  {
    if |b| <= i then Ok([])
    else if |b| < i + 3 then Err(OutOfBounds)
    else
      var h := ParsePSISectionHeader(b[i..i + 3]);
      if h.tableId == StuffingTableId then Ok([])
      else if |b| < i + 8 then Err(OutOfBounds)
      else
        var pat := if h.tableId == PatTableId
                   then Some(ProgramAssociationTable(PatEntriesAsWritten(b[i + 8..]))) else None;
        var syntax := ParsePSISectionSyntax(b[i + 3..i + 8]).(pat := pat);
        var rest :- ScanAsWritten(b, i + 8 + h.sectionLength);
        Ok([PSISection(h, syntax)] + rest)
  }

  function DecodeProgramSpecificInformationAsWritten(b: seq<byte>): (r: Result<ProgramSpecificInformation>)
    // as written no CRC is ever stored
    ensures r.Ok? ==> forall k :: 0 <= k < |r.value.sections| ==> r.value.sections[k].syntax.crc32 == 0
  {
    if |b| == 0 then Err(OutOfBounds)
    else
      var ss :- ScanAsWritten(b, b[0]);
      ScanAsWrittenNoCrc(b, b[0]);
      Ok(ProgramSpecificInformation(b[0], ss))
  }

  lemma {:induction false} ScanAsWrittenNoCrc(b: seq<byte>, i: nat)
    ensures ScanAsWritten(b, i).Ok? ==>
      forall k :: 0 <= k < |ScanAsWritten(b, i).value| ==> ScanAsWritten(b, i).value[k].syntax.crc32 == 0
    decreases |b| - i
  {
    if i + 8 <= |b| {
      var h := ParsePSISectionHeader(b[i..i + 3]);
      ScanAsWrittenNoCrc(b, i + 8 + h.sectionLength);
    }
  }

  /** A PAT section for program 1 on PID 0x1000, after a zero pointer field
      and followed by stuffing. */
  const PatPayload: seq<byte> :=
    [0x00,                                // pointer_field
     0x00, 0xB0, 0x0D,                    // table 0, section_length 13
     0x00, 0x01, 0xC1, 0x00, 0x00,        // transport stream 1, version 0, current
     0x00, 0x01, 0xF0, 0x00,              // program 1 -> PID 0x1000
     0x12, 0x34, 0x56, 0x78,              // CRC32
     0xFF]

  /** The section of PatPayload as a multiplexer wrote it. */
  function PatWire(): WireSection
  {
    WireSection(PSISectionHeader(0, true, false, 13),
                PSISectionSyntax(1, 0, true, 0, 0, 0x1234_5678, None),
                [0x00, 0x01, 0xF0, 0x00])
  }

  /** PatPayload yields exactly the one section a multiplexer wrote, CRC included. */
  lemma PatPayloadDecodes()
    ensures DecodeProgramSpecificInformation(PatPayload) == Ok(ProgramSpecificInformation(0, [Expected(PatWire())]))
  {
    var w := PatWire();
    PatWireBytes();
    assert PatPayload == [0] + [] + EncodeWires([w]) + [0xFF];
    PayloadRoundTrip(PatPayload, [], [w], [0xFF]);
    assert ExpectedAll([w]) == [Expected(w)];
  }

  /** PatPayload is the pointer field, PatWire's bytes and one stuffing byte. */
  lemma PatWireBytes()
    ensures WellFormedWire(PatWire())
    ensures EncodeWires([PatWire()]) == PatPayload[1..17]
  {
    var w := PatWire();
    assert EncodeHeader(w.header) == [0x00, 0xB0, 0x0D];
    assert EncodeSyntax(w.syntax) == [0x00, 0x01, 0xC1, 0x00, 0x00];
    assert EncodeBe32(w.syntax.crc32) == [0x12, 0x34, 0x56, 0x78];
    assert EncodeWires([w]) == EncodeWire(w) + EncodeWires([]);
  }

  /** Its table maps PID 0x1000 to program 1. */
  lemma PatWireTable()
    ensures Expected(PatWire()).syntax.pat == Some(ProgramAssociationTable(map[0x1000 := 1]))
  {
    PatDataEntries();
  }

  lemma PatDataEntries()
    ensures PatEntries([0x00, 0x01, 0xF0, 0x00]) == map[0x1000 := 1]
  {
    var d: seq<byte> := [0x00, 0x01, 0xF0, 0x00];
    assert RecordPid(d, 0) == 0x1000 && RecordNum(d, 0) == 1;
  }

  /** As written the scan starts on the table id byte, so the section header
      is read from 0x00 0x00 0xB0 and section_length is 0xB0 = 176; the next
      head at 8 + 176 lies past the payload and ends the scan. */
  lemma PatPayloadAsWrittenHeader()
    ensures ScanAsWritten(PatPayload, 0)
            == Ok([PSISection(PSISectionHeader(0, false, false, 0xB0),
                              ParsePSISectionSyntax(PatPayload[3..8])
                                .(pat := Some(ProgramAssociationTable(PatEntriesAsWritten(PatPayload[8..])))))])
  {
    var b := PatPayload;
    assert |b| == 18;
    assert b[0..3] == [0x00, 0x00, 0xB0];
    assert ParsePSISectionHeader(b[0..3]) == PSISectionHeader(0, false, false, 0xB0);
    var h := ParsePSISectionHeader(b[0..3]);
    var syntax := ParsePSISectionSyntax(b[3..8])
                    .(pat := Some(ProgramAssociationTable(PatEntriesAsWritten(b[8..]))));
    assert ScanAsWritten(b, 0 + 8 + h.sectionLength) == Ok([]);
    assert ScanAsWritten(b, 0) == Ok([PSISection(h, syntax)] + []);
    assert [PSISection(h, syntax)] + [] == [PSISection(h, syntax)];
  }

  /** ... and the table is decoded from the syntax bytes 0x00 0x00 0x01 0xF0:
      PID 0x1F0 -> program 0. */
  lemma PatPayloadAsWrittenTable()
    ensures PatEntriesAsWritten(PatPayload[8..]) == map[0x1F0 := 0]
  {
    var d := PatPayload[8..];
    assert d[..4] == [0x00, 0x00, 0x01, 0xF0];
    assert RecordPid(d, 0) == 0x1F0;
    assert RecordNum(d, 0) == 0;
  }

  /** The same payload decoded as written: one section of length 0xB0 whose
      table is PID 0x1F0 -> program 0, where the corrected decoder finds
      PID 0x1000 -> program 1. */
  lemma PsiScanAsWrittenMisaligned()
    ensures DecodeProgramSpecificInformation(PatPayload).Ok?
    ensures DecodeProgramSpecificInformation(PatPayload).value.sections[0].syntax.pat
            == Some(ProgramAssociationTable(map[0x1000 := 1]))
    ensures DecodeProgramSpecificInformationAsWritten(PatPayload).Ok?
    ensures var s := DecodeProgramSpecificInformationAsWritten(PatPayload).value.sections;
      |s| == 1 && s[0].header.sectionLength == 0xB0
      && s[0].syntax.pat == Some(ProgramAssociationTable(map[0x1F0 := 0]))
  {
    PatPayloadDecodes();
    PatWireTable();
    PatPayloadAsWrittenHeader();
    PatPayloadAsWrittenTable();
  }
}
