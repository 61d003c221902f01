# tsgo transport stream decoder, modelled in Dafny

This project models the core of `tsgo`, a Go decoder for MPEG-2 transport
streams (ITU-T H.222.0). The core decodes one 188-byte packet at a time within
a session. Each packet is decoded in this order:

- the four-byte header: sync byte, PID, flags, scrambling control,
  adaptation field control and continuity counter;
- the adaptation field: eight flags, PCR and OPCR clock references, splice
  countdown, transport private data, and the adaptation field extension;
- on PID 0, or on any PID an earlier association table registered, the
  program specific information: pointer field, then section header, syntax
  section, table data and CRC32 for each section, up to a 0xFF table id.

A program association table (table id 0) adds `PID -> program number` entries
to the session registry. That registry decides which PIDs later packets treat
as table PIDs. The PES header decoder is modelled as the source defines it.
The program map table decoder is modelled corrected, as the Findings row for
program_map_table.go:45-57 describes; a separate member models it as written.

The model has one module per Go file:

| module | Go file | form |
|---|---|---|
| `Cursor` | byte_reader.go | class `ByteReader` with a `const` buffer and a `pos` field that its methods update |
| `Session` | packet.go (`Parser`) | class `Parser`: the cursor, the registry, and the last continuity counters |
| `PacketHeader` | packet_header.go | pure functions and lemmas |
| `ClockReference` | clock_reference.go | pure functions and lemmas |
| `AdaptationExtension` | adaptation_extension.go | pure functions and lemmas |
| `AdaptationField` | adaptation_field.go | methods that read through the cursor, proved against decoding functions |
| `ProgramAssociationTable` | program_association_table.go | a loop method that updates the registry, proved against `PatEntries` |
| `ProgramMapTable` | program_map_table.go | a loop method proved against `DecodeProgramMapTable` |
| `ProgramSpecificInformation` | program_specific_information.go | the section scan as a loop method, proved against `ScanFrom` |
| `PacketizedElementaryStream` | packetized_elementary_stream.go | a cursor method proved against `DecodePes` |
| `Packet` | packet.go | `ParsePacket` as a method on the session, proved against `DecodePacket` |

Conventions:

- Bytes are the subset type `byte`. Every fixed-width field has its own
  subset type (`PID`, `uint4`, `uint12`, ...).
- Bit extraction is written with `/` and `%` by powers of two.
- Where the Go code would panic on an out-of-range slice or index, the model
  returns `Err(OutOfBounds)`. A first byte other than 0x47 is
  `Err(InvalidSyncByte)`.
- Several Go callers do not match the signatures of what they call:
  - `packet.go:97` calls `p.ParseProgramSpecificInformation()` with no
    arguments;
  - `program_specific_information.go:82` calls the parser method
    `ParseProgramAssociationTable` as a plain function;
  - `packet_header.go:35` calls `ParseAdaptationField(b[4:])` with a slice.

  The model settles on one convention. Table decoders take the rest of the
  payload as a sequence, plus the session `Parser` when they update the
  registry. Cursor decoders take the `ByteReader`.
- Where the Go code's comments and its statements disagree, the model follows
  the code, except for the defects listed under Findings and the inputs the
  corrected decoders reject, listed under Left out:
  - the association table is keyed by PID, as `program_association_table.go:25-26`
    stores it, although the comment at lines 7-10 says the key is the program
    number;
  - only table id 0 is decoded, as `program_specific_information.go:80-83`
    does. Program map sections are kept without table data.
- Continuity is the rule documented at `packet.go:43-52`. The Go code never
  checks it. The model adds it as a separate session method,
  `CheckContinuity`, that keeps the last counter of each PID.

## Model

| member | source | states |
|---|---|---|
| Cursor.ByteReader.constructor | byte_reader.go:7-12 | a new cursor is over exactly the given buffer, at position 0 |
| Cursor.ByteReader.Position | byte_reader.go:15-20 | returns the current position and changes nothing |
| Cursor.ByteReader.Jump | byte_reader.go:23-28 | the position becomes exactly the argument; only `pos` may change |
| Cursor.ByteReader.Inc | byte_reader.go:31-36 | the position moves forward by exactly n |
| Cursor.ByteReader.Dec | byte_reader.go:39-44 | the position moves back by exactly n, so Dec(n) undoes Inc(n) |
| Cursor.ByteReader.ReadByte | byte_reader.go:48-55 | inside the buffer: returns the byte at the old position and advances by one; at the end: OutOfBounds, position unchanged |
| Cursor.ByteReader.ReadBytes | byte_reader.go:59-66 | returns the n bytes from the old position and advances by n exactly when they all exist; otherwise OutOfBounds, position unchanged |
| Session.Parser.constructor | packet.go:65-68 | a new session has an empty registry, no continuity history and an empty cursor |
| PacketHeader.ParseHeader | packet_header.go:18-41 | InvalidSyncByte exactly when byte 0 is not 0x47; success needs four bytes and the sync byte; a header without an adaptation field never fails; the adaptation field is present exactly when control is 10 or 11, and is the one decoded at byte 4 |
| PacketHeader.FieldsRoundTrip | packet_header.go:23-31 | decoding the three encoded header bytes gives back every field |
| PacketHeader.FieldsCoverEveryBit | packet_header.go:23-31 | re-encoding the decoded fields gives back the three bytes, so every header bit lands in exactly one field |
| PacketHeader.HeaderRoundTrip | packet_header.go:18-41 | sync byte plus encoded fields, with no adaptation field announced, decodes to those fields whatever follows |
| PacketHeader.HeaderFieldLayout | packet_header.go:24-30 | PID is the low 5 bits of byte 1 then byte 2; the three flags are bits 7, 6 and 5 of byte 1; scrambling control, adaptation field control and continuity counter are bits 7-6, 5-4 and 3-0 of byte 3 |
| PacketHeader.ScramblingControlAsWritten | packet_header.go:28 | as written the scrambling control is the intended 2-bit value shifted up by 6 |
| PacketHeader.ContinuityCounterAsWritten | packet_header.go:30 | as written the continuity counter is a copy of the scrambling control bits |
| PacketHeader.ContinuityCounterAsWrittenMisread | packet_header.go:30 | byte 3 = 0x15 has counter 5; as written it reads 0 |
| PacketHeader.ScramblingControlAsWrittenUnshifted | packet_header.go:28 | byte 3 = 0x90 has scrambling control 2; as written it reads 128 |
| PacketHeader.AdaptationOnlyAsWrittenSkipped | packet_header.go:33-38 | control 10 announces an adaptation field, which the corrected decoder decodes; the `>= 3` test as written does not |
| ClockReference.ParseClockReference | clock_reference.go:13-31 | base is bytes 0-3 followed by the top bit of byte 4; extension is the low bit of byte 4 followed by byte 5; the duration is never negative and less than 2 ns short of base/90 kHz + extension/27 MHz |
| ClockReference.Pack48 | clock_reference.go:14-19 | six bytes packed big-endian stay below 2^48 |
| ClockReference.PackSplit | clock_reference.go:21-24 | shifting the packed value right by 15 and masking it with 0x1FF give the byte-level base and extension |
| ClockReference.NoInt64Overflow | clock_reference.go:26 | a 33-bit base times 10^9 stays below 2^63, so the Go int64 product never overflows |
| ClockReference.DurationExamples | clock_reference.go:26-28 | zero clock is 0 ns; 90000 base ticks is one second; extension 511 is 18925 ns |
| ClockReference.ClockReferenceRoundTrip | clock_reference.go:13-24 | decoding an encoded clock reference gives back its base and extension, whatever the reserved bits hold |
| ClockReference.ReservedBitsIgnored | clock_reference.go:14-24 | the six reserved bits of byte 4 never affect the decoded clock |
| AdaptationExtension.DecodeExtension | adaptation_extension.go:15-41 | succeeds exactly when the slice holds the length and flags bytes and every sub-field the flags announce |
| AdaptationExtension.ParseAdaptationExtension | adaptation_extension.go:15-41 | fails only with OutOfBounds, exactly when the slice is shorter than its announced sub-fields; on success the length, the flags at bits 7, 6 and 5, the legal-time-window pair, the rate and the splice type sit where the flags place them, and fields whose flag is clear are zero |
| AdaptationExtension.ExtensionLayoutHolds | adaptation_extension.go:16-38 | whenever the slice is long enough, the decoder succeeds with that layout |
| AdaptationExtension.ParseAdaptationExtensionAsWritten | adaptation_extension.go:19-21 | as written the seamless-splice flag is always a copy of the legal-time-window flag |
| AdaptationExtension.SeamlessSpliceFlagAsWrittenMisread | adaptation_extension.go:21 | flags 0x20 announce a seamless splice of type 3; as written no splice is seen |
| AdaptationField.AsInt8 | adaptation_field.go:45 | Go's int8 conversion: negative exactly when bit 7 is set, and congruent to the byte modulo 256 |
| AdaptationField.ReadClock | adaptation_field.go:36-42 | the cursor reader agrees with the pure reader on value and new position, and fails with OutOfBounds exactly when it does |
| AdaptationField.ReadSpliceCountdown | adaptation_field.go:44-46 | the same agreement for the splice countdown |
| AdaptationField.ReadPrivateData | adaptation_field.go:48-51 | the same agreement for the private data length and bytes |
| AdaptationField.ReadExtension | adaptation_field.go:53-61 | the same agreement for the extension, peeked through ReadByte then Dec(1) |
| AdaptationField.ReadOptionalFields | adaptation_field.go:36-61 | the five readers in wire order agree with OptionalFieldsAt, and the cursor ends after the last sub-field |
| AdaptationField.ParseAdaptationField | adaptation_field.go:21-64 | success means DecodeAdaptationField gives the same field and the cursor's new position; failure is OutOfBounds, exactly as the pure decoder fails |
| AdaptationField.ReadFlaggedField | adaptation_field.go:22-61 | for a non-zero length, the flags byte and sub-fields read through the cursor agree with DecodeAdaptationField |
| AdaptationField.SkipStuffing | adaptation_field.go:21-64 | sub-fields overrunning the declared length, or a length past the buffer, fail; otherwise the cursor lands at the declared end |
| AdaptationField.AdaptationFieldConsumesDeclaredLength | adaptation_field.go:21-64 | a decoded field always occupies its length byte plus the length it declares, inside the buffer |
| AdaptationField.AdaptationFieldFlags | adaptation_field.go:24-34 | the eight flags are bits 7 down to 0 of the flags byte in declared order; a zero length is one stuffing byte with no flags |
| AdaptationField.AdaptationFieldSubfields | adaptation_field.go:36-61 | each sub-field is present exactly when its flag is set; the PCR is read at bytes 2-7; the private data has exactly its announced length; the sub-fields end within the declared length |
| AdaptationField.AdaptationFieldOffsets | adaptation_field.go:36-61 | where each flagged sub-field sits: the OPCR after the PCR, the splice countdown after both clocks, the private data length and bytes after that, and the extension (its length byte plus that many bytes) last; each decodes from the bytes at its offset |
| AdaptationField.OptionalFieldsEnd | adaptation_field.go:36-61 | the sub-fields end SubfieldBytes - 2 bytes after the flags byte |
| AdaptationField.ExtensionAtEnd | adaptation_field.go:53-61 | an extension of declared length l takes exactly 1 + l bytes |
| AdaptationField.DecodeAdaptationFieldAsWritten | adaptation_field.go:21-64 | as written the cursor ends where the sub-fields end, one byte short with an extension, not at the declared length |
| AdaptationField.ExtensionSliceAsWrittenOneShort | adaptation_field.go:54-58 | a field with a one-byte extension decodes; as written the extension decoder gets only the length byte and the field fails |
| AdaptationField.StuffingAsWrittenNotSkipped | adaptation_field.go:21-64 | length 3 with no flags: the payload starts at 4, while as written the cursor stays at 2 |
| AdaptationField.ZeroLengthAsWrittenReadsPayload | adaptation_field.go:22-26 | length 0 is one stuffing byte; as written the next payload byte is read as flags |
| ProgramAssociationTable.ParseProgramAssociationTable | program_association_table.go:17-30 | the returned table is PatEntries of the bytes, and the session registry becomes the old registry overridden by that table |
| ProgramAssociationTable.EntriesKeys | program_association_table.go:22-27 | a PID is in the table exactly when some whole record carries it |
| ProgramAssociationTable.EntriesLastWins | program_association_table.go:25-26 | the program number stored for a PID is that of the last record carrying it |
| ProgramAssociationTable.PatKeys | program_association_table.go:22-27 | the key set of the whole table is the set of PIDs of its whole records |
| ProgramAssociationTable.RegistryGrows | program_association_table.go:26 | decoding a table never removes a registry entry, and keeps the value of a PID no record carries |
| ProgramAssociationTable.TableInRegistry | program_association_table.go:25-26 | every table entry is in the registry afterwards with the same value |
| ProgramAssociationTable.ShortTableEmpty | program_association_table.go:22 | fewer than four bytes give an empty table |
| ProgramAssociationTable.SingleProgramExample | program_association_table.go:23-25 | bytes 00 01 90 00 map PID 0x1000 to program 1 |
| ProgramAssociationTable.TwoProgramsExample | program_association_table.go:22-27 | two records give both entries |
| ProgramAssociationTable.PatEntriesAsWritten | program_association_table.go:22-27 | as written only the first record is ever stored |
| ProgramAssociationTable.SecondRecordAsWrittenLost | program_association_table.go:22-27 | the same two records as written register only the first |
| ProgramMapTable.ParseProgramMapTable | program_map_table.go:35-59 | the method's result is DecodeProgramMapTable of the bytes |
| ProgramMapTable.ReadEsRecords | program_map_table.go:49-57 | the record loop returns EsRecords of the bytes from its start |
| ProgramMapTable.EsRecordRoundTrip | program_map_table.go:51-55 | one encoded record decodes to itself, reserved bits masked off |
| ProgramMapTable.EsRecordsRoundTrip | program_map_table.go:49-57 | encoded records decode to the same records in the same order |
| ProgramMapTable.ProgramMapTableRoundTrip | program_map_table.go:35-59 | an encoded table decodes to itself: PCR PID, program info length and streams |
| ProgramMapTable.EsRecordsFill | program_map_table.go:49-57 | decoded records and their descriptors exactly fill the bytes they came from |
| ProgramMapTable.DecodeProgramMapTableAsWritten | program_map_table.go:35-59 | as written a table shorter than 40 bytes never yields a stream record |
| ProgramMapTable.EsRecordAsWrittenMissed | program_map_table.go:45-57 | a 9-byte table with one stream decodes to that stream; as written the record is never read |
| ProgramSpecificInformation.ParsePSISectionHeader | program_specific_information.go:96-103 | the table id is byte 0 |
| ProgramSpecificInformation.ParsePSISectionSyntax | program_specific_information.go:105-113 | the section numbers are bytes 3 and 4; the CRC and table data are left for the scan |
| ProgramSpecificInformation.HeaderCoversEveryBit | program_specific_information.go:96-103 | re-encoding a decoded header gives back byte 0, byte 2, the two flag bits and the low length nibble of byte 1; with the reserved bits set it gives back all three bytes |
| ProgramSpecificInformation.SyntaxCoversEveryBit | program_specific_information.go:105-113 | re-encoding a decoded syntax section gives back bytes 0, 1, 3 and 4 and the low six bits of byte 2; with the reserved bits set it gives back all five bytes |
| ProgramSpecificInformation.HeaderRoundTrip | program_specific_information.go:96-103 | an encoded section header decodes to itself |
| ProgramSpecificInformation.SyntaxRoundTrip | program_specific_information.go:105-113 | an encoded syntax section decodes to its five fields |
| ProgramSpecificInformation.Be32RoundTrip | program_specific_information.go:55-57 | four big-endian CRC bytes decode to the CRC |
| ProgramSpecificInformation.ParseProgramSpecificInformation | program_specific_information.go:63-94 | the scan loop returns DecodeProgramSpecificInformation of the payload; the registry gains exactly the association tables of the scanned sections, a later one overriding an earlier |
| ProgramSpecificInformation.ParseSection | program_specific_information.go:70-88 | one section that fits decodes to SectionAt, and only its association table enters the registry |
| ProgramSpecificInformation.ScanStopsShort | program_specific_information.go:69-91 | a section that does not fit ends the scan with OutOfBounds, keeping the sections before it |
| ProgramSpecificInformation.ScanEndsWell | program_specific_information.go:69-75 | reaching the end of the payload or a 0xFF table id decodes everything before it |
| ProgramSpecificInformation.ScannedSectionsWellFormed | program_specific_information.go:69-91 | every decoded section has a table id other than 0xFF, a length covering syntax and CRC, and table data exactly for table id 0 |
| ProgramSpecificInformation.ScanWithinPayload | program_specific_information.go:69-91 | sections lie one after another inside the payload, at least 12 bytes each |
| ProgramSpecificInformation.WireSectionDecodes | program_specific_information.go:70-88 | an encoded section fits and decodes to its header, syntax, CRC and table |
| ProgramSpecificInformation.WireSectionRoundTrip | program_specific_information.go:69-91 | an encoded section is decoded and the scan continues right after its CRC |
| ProgramSpecificInformation.WireSectionsRoundTrip | program_specific_information.go:69-91 | consecutive encoded sections before stuffing are all decoded, in order |
| ProgramSpecificInformation.PayloadRoundTrip | program_specific_information.go:63-94 | pointer field, filler, sections and 0xFF stuffing decode to that pointer field and exactly those sections |
| ProgramSpecificInformation.PatPayloadDecodes | program_specific_information.go:63-94 | a one-section association table payload decodes to that section, CRC included |
| ProgramSpecificInformation.DecodeProgramSpecificInformationAsWritten | program_specific_information.go:63-94 | as written no section ever holds a CRC |
| ProgramSpecificInformation.PsiScanAsWrittenMisaligned | program_specific_information.go:69-90 | the sample payload gives PID 0x1000 -> program 1; as written the scan reads section length 0xB0 and the table PID 0x1F0 -> program 0 |
| PacketizedElementaryStream.ParsePacketizedElementaryStream | packetized_elementary_stream.go:56-81 | the two 3-byte cursor reads give DecodePes at the old position and advance by six |
| PacketizedElementaryStream.PesRoundTrip | packetized_elementary_stream.go:56-81 | an encoded PES header decodes to itself: stream id, length and all thirteen optional header fields |
| PacketizedElementaryStream.OptionalHeaderRoundTrip | packetized_elementary_stream.go:63-77 | the three bytes of the optional header prefix, encoded with the marker bits set, decode to the same scrambling control, PTS/DTS indicator, ten flags and header length |
| PacketizedElementaryStream.PesFieldsCoverEveryBit | packetized_elementary_stream.go:57-78 | re-encoding a decoded header gives back its six bytes except the two marker bits, so every other bit lands in exactly one field |
| PacketizedElementaryStream.PesVideoClassification | packetized_elementary_stream.go:52-54 | decoding fails exactly when fewer than six bytes remain; the stream is video exactly for stream id 0xE0 or 0xFD |
| Packet.ParsePacket | packet.go:70-101 | a fresh cursor is installed over the input; the result and the new registry are DecodePacket of the input and the old registry |
| Packet.AdaptationAt | packet.go:88-94 | the adaptation field is present exactly when announced, and the payload starts between byte 4 and the end |
| Packet.SyncErrorIff | packet.go:73-75 | InvalidSyncByte exactly when byte 0 is not 0x47, and then the registry is unchanged |
| Packet.PacketAgreesWithParseHeader | packet.go:77-94 | a packet fails with ParseHeader's error whenever ParseHeader fails, and otherwise carries its fields and adaptation field |
| Packet.TablesDecodedIff | packet.go:88-98 | tables are decoded exactly for a payload on PID 0 or a registered PID; the adaptation field exactly when announced |
| Packet.RegistryOnlyGrows | packet.go:96-98 | no packet removes a registered PID, and a packet that is not a table packet leaves the registry unchanged |
| Packet.PsiStaysPsi | packet.go:103-108 | a table PID stays a table PID after any packet |
| Packet.NewPidsComeFromTables | packet.go:96-98 | a newly registered PID comes from an association table in a table packet's payload |
| Packet.IsPesIffStartCode | packet.go:110-112 | isPES holds exactly for the start code prefix 00 00 01 |
| Packet.StreamKeepsPsi | packet.go:103-108 | once a PID carries tables it does so after any sequence of packets |
| Packet.PayloadOnlyTablePacket | packet.go:96-98 | a payload-only table packet hands bytes 4 onward to the table decoder and registers what they carry |
| Packet.ProgramMapPidRegistered | packet.go:96-108 | PID 0x1000 is not a table PID until the sample association table packet registers it, after which it is |
| Packet.CheckContinuity | packet.go:43-52 | the verdict and the new table of last counters are ContinuityStep of the old table and the packet |
| Packet.ContinuityBreaks | packet.go:47-51 | a raised discontinuity indicator, or a payload packet whose counter is not the last counter of its PID plus one modulo 16 (a repeat among them), is discontinuous; a payload packet with the next counter and no indicator is continuous |
| Packet.ContinuityOtherPids | packet.go:43-49 | judging a packet changes no other PID's last counter |
| Packet.IncrementingRunContinuous | packet.go:43-49 | payload packets of one PID whose counters rise by one modulo 16, without the indicator, are all continuous |
| Packet.ContinuityExamples | packet.go:43-52 | counters 3, 4 are continuous; a jump to 6 is not; a flagged packet is not; 15 wraps to 0 |

## Left out

- The `sync.Mutex` embedded in `ByteReader` (byte_reader.go:8) and the lock
  calls. The model is sequential.
- cmd/main.go, which reads files and prints JSON, and the JSON field tags.
  These are I/O and formatting.
- `DTSNextAccessUnit` (adaptation_extension.go:37) is never decoded by the
  source and stays 0.
- The PES `Data` field and the optional PES sub-fields. The source never
  fills them.
- `ProgramMapTable.ProgramDescriptors` and the elementary stream descriptors.
  The source never fills them, and the model skips their bytes.
- CRC32 checking. The CRC is stored but, as in the source, never verified.
- The 1021 cap on section_length (program_specific_information.go:31). The
  source does not enforce it.
- Program map sections are kept without a decoded table, as in the source's
  scan, which dispatches only table id 0.
- The pointer field is read whatever the payload unit start indicator says,
  as in the source.
- The order of two checks in the section scan. The model recognises a 0xFF
  table id even when fewer than three bytes remain. The Go code slices the
  three header bytes first (program_specific_information.go:70-73). This only
  matters for a payload cut short right after a section.
- AdaptationField.DecodeAdaptationField: sub-fields that run past the
  declared adaptation_field_length are OutOfBounds, although they lie inside
  the buffer. The Go cursor reads them regardless (adaptation_field.go:36-61):
  `01 10` followed by six bytes yields a PCR there. The corrected model keeps
  every sub-field inside the length the field declares.
- ProgramSpecificInformation.SectionFits: a section_length below 9, too short
  to hold the syntax section and the CRC, ends the scan incomplete, and the
  payload fails with OutOfBounds. The Go code has no such check; the
  corrected model needs the CRC's place to exist.
- ProgramSpecificInformation.SectionFits: a section whose section_length
  runs past the payload, even with its header and syntax bytes present, ends
  the scan incomplete, and the payload, and so the packet, fails with
  OutOfBounds. The Go code appends the section and leaves the loop
  (program_specific_information.go:69-91): the cut-short PAT payload
  `00 00 B0 0D 00 01 C1 00 00 00 01 F0` gives it one section. The corrected
  model decodes a section only when all of it, CRC included, is in the
  payload; a section continued in the next packet is not reassembled.
- ProgramMapTable.DecodeProgramMapTable: a program_info_length running past
  the table is OutOfBounds. The Go code returns a table with no streams
  (program_map_table.go:45-58): `E1 00 F0 05` gives PCR PID 0x100. The
  corrected model skips exactly the descriptor bytes announced and requires
  them to be there.
- ProgramMapTable.EsRecords: an ES_info_length running past the table is
  OutOfBounds, so `E1 00 F0 00 1B E1 00 F0 05` fails, where the Go code
  returns a table. The corrected model requires each record's descriptors
  to be present.
- AdaptationField.DecodeAdaptationField: a declared
  adaptation_field_length running past the buffer is OutOfBounds even when
  every announced sub-field is present: `05 00` fails, where the Go code
  reads the flags and returns the field, since it never moves to the
  declared end (adaptation_field.go:21-64). The corrected model skips the
  stuffing up to the declared end and requires it to be there.
- ProgramMapTable.EsRecords: one to four bytes left after the last whole
  record are OutOfBounds, so a table handed with its CRC still attached
  (`E1 00 F0 00 1B E1 00 F0 00` then four CRC bytes) fails. The Go code
  returns a table there (program_map_table.go:50). The corrected model
  expects the table data alone, as the section scan hands it over.
- Go panics on short input become `Err(OutOfBounds)`. This covers an empty
  packet, a short header, and a slice past the end.
- Cursor.ByteReader.Dec: requires `n <= pos`. Go's unsigned subtraction would
  wrap to a huge position, which the next read turns into a panic.
- Packet.CheckContinuity: a packet without a payload is judged only by the
  discontinuity indicator. The first payload packet of a PID counts as
  continuous. The documentation does not say either.
- ClockReference.ParseClockReference: states the duration to within 2 ns of
  the exact value rather than as Go's two truncating divisions.

## Findings

| source | as written | input that shows it | evidently intended | confidence | as-written member | corrected member |
|---|---|---|---|---|---|---|
| packet_header.go:30 | continuity counter taken as `b[3] >> 6 & 0x3` | byte 3 = 0x15 reads counter 0 | low nibble of byte 3 (counter 5) | high, not executed | PacketHeader.ContinuityCounterAsWrittenMisread | PacketHeader.HeaderFieldLayout |
| packet_header.go:28 | scrambling control taken as `b[3] & 0xC0`, not shifted | byte 3 = 0x90 reads 128 | bits 7-6 as a 2-bit value (2) | high, not executed | PacketHeader.ScramblingControlAsWrittenUnshifted | PacketHeader.HeaderFieldLayout |
| packet_header.go:33 | adaptation field parsed only for control `>= 3` | 47 00 00 20 00: control 10 announces a field that is never decoded | decode it for control 10 and 11 | high, not executed | PacketHeader.AdaptationOnlyAsWrittenSkipped | PacketHeader.ParseHeader |
| adaptation_extension.go:21 | seamless_splice_flag read from bit 7 | extension 02 20 30 has no splice as written | bit 5: splice type 3 | high, not executed | AdaptationExtension.SeamlessSpliceFlagAsWrittenMisread | AdaptationExtension.ParseAdaptationExtension |
| adaptation_field.go:54-58 | extension handed `ReadBytes(l)` from its length byte, one short | field 03 01 01 00 fails as written | length byte plus l bytes | high, not executed | AdaptationField.ExtensionSliceAsWrittenOneShort | AdaptationField.ExtensionAtEnd |
| adaptation_field.go:21-64 | cursor left after the sub-fields; stuffing not skipped | field 03 00 FF FF leaves the cursor at 2, not 4 | cursor at 1 + declared length | high, not executed | AdaptationField.StuffingAsWrittenNotSkipped | AdaptationField.AdaptationFieldConsumesDeclaredLength |
| adaptation_field.go:22 | a flags byte is read even for length 0 | 00 80 sets the discontinuity indicator from payload | length 0 is one stuffing byte with no flags | high, not executed | AdaptationField.ZeroLengthAsWrittenReadsPayload | AdaptationField.AdaptationFieldFlags |
| program_association_table.go:22-24 | loop to `len(b)/4` stepping by 4, always reading bytes 0-3 | two records 0001 9000 0002 9001 keep only PID 0x1000 | one entry per 4-byte record | high, not executed | ProgramAssociationTable.SecondRecordAsWrittenLost | ProgramAssociationTable.EntriesKeys |
| program_map_table.go:45-57 | descriptor skip by `ProgramInfoLength*8`; record loop to `len(b)/8` by 8; descriptors not skipped | 9-byte table E1 00 F0 00 1B E1 00 F0 00 yields no stream | skip program_info_length bytes, then 5-byte records each followed by their descriptors | high, not executed | ProgramMapTable.EsRecordAsWrittenMissed | ProgramMapTable.ProgramMapTableRoundTrip |
| program_specific_information.go:69-90 | scan starts at the pointer field's value, not after it; table gets all remaining bytes; CRC never read; head skips section_length after the syntax section | the sample PAT payload reads section length 0xB0 and PID 0x1F0 -> program 0 | start after the pointer field and its filler; table data between syntax and CRC; next section at 3 + section_length | high, not executed | ProgramSpecificInformation.PsiScanAsWrittenMisaligned | ProgramSpecificInformation.PayloadRoundTrip |
