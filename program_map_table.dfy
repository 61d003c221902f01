/** The program map table: the PCR PID, the program-info length, the
    program descriptors, and elementary-stream records each followed by
    their own descriptors (section 2.4.4.8 of ITU-T H.222.0). Descriptor
    contents are skipped. */
module ProgramMapTable {
  import opened Common

  datatype ElementaryStreamInfo = ElementaryStreamInfo(
    streamType: byte,
    elementaryPid: PID,
    elementaryStreamLength: uint10)

  /** The Go `ProgramMapTable`; its `ProgramDescriptors` are never filled and are not modelled. */
  datatype ProgramMapTable = ProgramMapTable(
    programClockReferencePid: PID,
    programInfoLength: uint10,
    elementaryStreamInfoData: seq<ElementaryStreamInfo>)

  /** A 13-bit PID from two bytes, the three reserved bits dropped. */
  function Pid13(hi: byte, lo: byte): PID
  {
    hi % 0x20 * 0x100 + lo
  }

  /** A length from two bytes, keeping the low 2 bits of the first (`&0x3`). */
  function Length10(hi: byte, lo: byte): uint10
  {
    hi % 4 * 0x100 + lo
  }

  /** The 5-byte record at i. */
  function EsRecordAt(b: seq<byte>, i: nat): ElementaryStreamInfo
    requires i + 5 <= |b|
  {
    ElementaryStreamInfo(b[i], Pid13(b[i + 1], b[i + 2]), Length10(b[i + 3], b[i + 4]))
  }

  /** The records filling `b`: each is 5 bytes followed by as many descriptor
      bytes as it announces. A record or its descriptors running past the end
      is OutOfBounds. */
  function EsRecords(b: seq<byte>): Result<seq<ElementaryStreamInfo>>
    decreases |b|
  {
    if |b| == 0 then Ok([])
    else if |b| < 5 then Err(OutOfBounds)
    else
      var info := EsRecordAt(b, 0);
      var next := 5 + info.elementaryStreamLength as int;
      if |b| < next then Err(OutOfBounds)
      else
        var rest :- EsRecords(b[next..]);
        Ok([info] + rest)
  }

  /** The table: the 4 fixed bytes, `program_info_length` descriptor bytes
      skipped, then the records up to the end of `b`. */
  function DecodeProgramMapTable(b: seq<byte>): Result<ProgramMapTable>
  {
    if |b| < 4 then Err(OutOfBounds)
    else
      var pil := Length10(b[2], b[3]);
      if |b| < 4 + pil then Err(OutOfBounds)
      else
        var es :- EsRecords(b[4 + pil..]);
        Ok(ProgramMapTable(Pid13(b[0], b[1]), pil, es))
  }

  /** `acc` followed by the records of r, or r's error. */
  function Prepend(acc: seq<ElementaryStreamInfo>, r: Result<seq<ElementaryStreamInfo>>): Result<seq<ElementaryStreamInfo>>
  {
    if r.Ok? then Ok(acc + r.value) else r
  }

  /** `ParseProgramMapTable`: the fixed fields, a read head moved past the
      program descriptors, then one record per iteration, the head moved past
      the record and its descriptors. */
  method ParseProgramMapTable(b: seq<byte>) returns (res: Result<ProgramMapTable>)
    ensures res == DecodeProgramMapTable(b)
  {
    if |b| < 4 {
      return Err(OutOfBounds);
    }
    var pcrPid := Pid13(b[0], b[1]);
    var pil := Length10(b[2], b[3]);
    var i := 4 + pil as int;
    if |b| < i {
      return Err(OutOfBounds);
    }
    var es :- ReadEsRecords(b, i);
    return Ok(ProgramMapTable(pcrPid, pil, es));
  }

  /** The record loop from i to the end of b. */
  method ReadEsRecords(b: seq<byte>, start: nat) returns (res: Result<seq<ElementaryStreamInfo>>)
    requires start <= |b|
    ensures res == EsRecords(b[start..])
  {
    var i := start;
    var es: seq<ElementaryStreamInfo> := [];
    assert Prepend(es, EsRecords(b[i..])) == EsRecords(b[i..]) by {
      if EsRecords(b[i..]).Ok? { assert [] + EsRecords(b[i..]).value == EsRecords(b[i..]).value; }
    }
    while i < |b|
      invariant start <= i <= |b|
      invariant EsRecords(b[start..]) == Prepend(es, EsRecords(b[i..]))
      decreases |b| - i
    {
      if |b| < i + 5 {
        EsRecordsCut(b, i);
        return Err(OutOfBounds);
      }
      var info := ElementaryStreamInfo(b[i], Pid13(b[i + 1], b[i + 2]), Length10(b[i + 3], b[i + 4]));
      var next := i + 5 + info.elementaryStreamLength as int;
      if |b| < next {
        EsRecordsCut(b, i);
        return Err(OutOfBounds);
      }
      EsRecordsAdvance(b, start, i, es, next);
      es := es + [info];
      i := next;
    }
    assert b[i..] == [];
    assert es + [] == es;
    return Ok(es);
  }

  /** A record at i that does not fit, or whose descriptors do not fit, fails the walk. */
  lemma EsRecordsCut(b: seq<byte>, i: nat)
    requires i < |b|
    requires |b| < i + 5 || |b| < i + 5 + EsRecordAt(b, i).elementaryStreamLength as int
    ensures EsRecords(b[i..]) == Err(OutOfBounds)
  {
    if i + 5 <= |b| {
      assert EsRecordAt(b[i..], 0) == EsRecordAt(b, i);
    }
  }

  /** A record at i that fits is the first of those from i. */
  lemma EsRecordsStep(b: seq<byte>, i: nat)
    requires i + 5 <= |b|
    requires i + 5 + EsRecordAt(b, i).elementaryStreamLength as int <= |b|
    ensures EsRecords(b[i..]) ==
            Prepend([EsRecordAt(b, i)], EsRecords(b[i + 5 + EsRecordAt(b, i).elementaryStreamLength as int..]))
  {
    var next := i + 5 + EsRecordAt(b, i).elementaryStreamLength as int;
    assert EsRecordAt(b[i..], 0) == EsRecordAt(b, i);
    assert b[i..][next - i..] == b[next..];
  }

  /** The loop's invariant carried past the record at i. */
  lemma EsRecordsAdvance(b: seq<byte>, start: nat, i: nat, es: seq<ElementaryStreamInfo>, next: nat)
    requires start <= i && i + 5 <= |b| && next == i + 5 + EsRecordAt(b, i).elementaryStreamLength as int <= |b|
    requires EsRecords(b[start..]) == Prepend(es, EsRecords(b[i..]))
    ensures EsRecords(b[start..]) == Prepend(es + [EsRecordAt(b, i)], EsRecords(b[next..]))
  {
    EsRecordsStep(b, i);
    PrependAssoc(es, EsRecordAt(b, i), EsRecords(b[next..]));
  }

  lemma PrependAssoc(es: seq<ElementaryStreamInfo>, x: ElementaryStreamInfo, r: Result<seq<ElementaryStreamInfo>>)
    ensures Prepend(es, Prepend([x], r)) == Prepend(es + [x], r)
  {
    if r.Ok? {
      assert es + ([x] + r.value) == (es + [x]) + r.value;
    }
  }

  // A multiplexer's encoding, with every reserved bit set.

  function EncodeEsRecord(e: ElementaryStreamInfo): (r: seq<byte>)
    ensures |r| == 5 + e.elementaryStreamLength as int
  {
    [ e.streamType,
      0xE0 + e.elementaryPid / 0x100, e.elementaryPid % 0x100,
      0xF0 + e.elementaryStreamLength / 0x100, e.elementaryStreamLength % 0x100 ]
      + Repeat(0xFF, e.elementaryStreamLength)
  }

  function EncodeEsRecords(es: seq<ElementaryStreamInfo>): seq<byte>
  {
    if |es| == 0 then [] else EncodeEsRecord(es[0]) + EncodeEsRecords(es[1..])
  }

  function EncodeProgramMapTable(t: ProgramMapTable): seq<byte>
  {
    [ 0xE0 + t.programClockReferencePid / 0x100, t.programClockReferencePid % 0x100,
      0xF0 + t.programInfoLength / 0x100, t.programInfoLength % 0x100 ]
      + Repeat(0xFF, t.programInfoLength) + EncodeEsRecords(t.elementaryStreamInfoData)
  }

  /** One encoded record decodes to itself, the reserved bits masked off. */
  lemma EsRecordRoundTrip(e: ElementaryStreamInfo, rest: seq<byte>)
    ensures EsRecordAt(EncodeEsRecord(e) + rest, 0) == e
  {
    var b := EncodeEsRecord(e) + rest;
    assert Pid13(b[1], b[2]) == e.elementaryPid;
    assert Length10(b[3], b[4]) == e.elementaryStreamLength;
  }

  /** Encoded records decode to the same records in the same order. */
  lemma {:induction false} EsRecordsRoundTrip(es: seq<ElementaryStreamInfo>)
    ensures EsRecords(EncodeEsRecords(es)) == Ok(es)
  {
    if |es| > 0 {
      var b := EncodeEsRecords(es);
      var head := EncodeEsRecord(es[0]);
      EsRecordRoundTrip(es[0], EncodeEsRecords(es[1..]));
      EsRecordsRoundTrip(es[1..]);
      assert b[|head|..] == EncodeEsRecords(es[1..]);
      assert [es[0]] + es[1..] == es;
    }
  }

  /** A whole encoded table decodes to itself. */
  lemma ProgramMapTableRoundTrip(t: ProgramMapTable)
    ensures DecodeProgramMapTable(EncodeProgramMapTable(t)) == Ok(t)
  {
    var b := EncodeProgramMapTable(t);
    assert Pid13(b[0], b[1]) == t.programClockReferencePid;
    assert Length10(b[2], b[3]) == t.programInfoLength;
    assert b[4 + t.programInfoLength..] == EncodeEsRecords(t.elementaryStreamInfoData);
    EsRecordsRoundTrip(t.elementaryStreamInfoData);
  }

  /** The records and their descriptors exactly fill the bytes they came
      from: every decoded record has its 5 bytes and its descriptor bytes. */
  lemma {:induction false} EsRecordsFill(b: seq<byte>)
    requires EsRecords(b).Ok?
    ensures |b| == EsBytes(EsRecords(b).value)
    decreases |b|
  {
    if |b| > 0 {
      var next := 5 + EsRecordAt(b, 0).elementaryStreamLength as int;
      EsRecordsFill(b[next..]);
      var es := EsRecords(b).value;
      assert es[1..] == EsRecords(b[next..]).value;
    }
  }

  /** Bytes taken by records: 5 each plus their descriptors. */
  function EsBytes(es: seq<ElementaryStreamInfo>): nat
  {
    if |es| == 0 then 0 else 5 + es[0].elementaryStreamLength as int + EsBytes(es[1..])
  }

  // The code as written.

  /** program_map_table.go as written: `for ; i < int(ProgramInfoLength)*8; i += 8 {}`. */
  function SkipDescriptorsAsWritten(i: nat, pil: uint10): nat
    decreases pil * 8 - i
  {
    if i < pil * 8 then SkipDescriptorsAsWritten(i + 8, pil) else i
  }

  /** program_map_table.go as written: `for ; i < len(b)/8; i += 8`, one
      record at each i. */
  function EsLoopAsWritten(b: seq<byte>, i: nat): seq<ElementaryStreamInfo>
    decreases |b| / 8 - i
  {
    if i < |b| / 8 then [EsRecordAt(b, i)] + EsLoopAsWritten(b, i + 8) else []
  }

  function DecodeProgramMapTableAsWritten(b: seq<byte>): (r: Result<ProgramMapTable>)
    ensures r.Ok? <==> 4 <= |b|
    // as written no table shorter than 40 bytes yields any stream record
    ensures r.Ok? && |b| < 40 ==> r.value.elementaryStreamInfoData == []
  {
    if |b| < 4 then Err(OutOfBounds)
    else
      var pil := Length10(b[2], b[3]);
      var i := SkipDescriptorsAsWritten(4, pil);
      SkipAsWrittenAtLeast(4, pil);
      Ok(ProgramMapTable(Pid13(b[0], b[1]), pil, EsLoopAsWritten(b, i)))
  }

  lemma {:induction false} SkipAsWrittenAtLeast(i: nat, pil: uint10)
    ensures SkipDescriptorsAsWritten(i, pil) >= i
    decreases pil * 8 - i
  {
    if i < pil * 8 {
      SkipAsWrittenAtLeast(i + 8, pil);
    }
  }

  /** A 9-byte table with no program descriptors and one H.264 stream on PID
      0x100: as written the record is never read. */
  lemma EsRecordAsWrittenMissed()
    ensures DecodeProgramMapTable([0xE1, 0x00, 0xF0, 0x00, 0x1B, 0xE1, 0x00, 0xF0, 0x00])
            == Ok(ProgramMapTable(0x100, 0, [ElementaryStreamInfo(0x1B, 0x100, 0)]))
    ensures DecodeProgramMapTableAsWritten([0xE1, 0x00, 0xF0, 0x00, 0x1B, 0xE1, 0x00, 0xF0, 0x00])
            == Ok(ProgramMapTable(0x100, 0, []))
  {
    var b: seq<byte> := [0xE1, 0x00, 0xF0, 0x00, 0x1B, 0xE1, 0x00, 0xF0, 0x00];
    var c: seq<byte> := [0x1B, 0xE1, 0x00, 0xF0, 0x00];
    assert b[4..] == c;
    assert c[5..] == [];
    assert EsRecordAt(c, 0) == ElementaryStreamInfo(0x1B, 0x100, 0);
    assert EsRecords(c) == Ok([ElementaryStreamInfo(0x1B, 0x100, 0)] + []);
    assert Length10(b[2], b[3]) == 0 && Pid13(b[0], b[1]) == 0x100;
    assert [ElementaryStreamInfo(0x1B, 0x100, 0)] + [] == [ElementaryStreamInfo(0x1B, 0x100, 0)];
    assert DecodeProgramMapTable(b) == Ok(ProgramMapTable(0x100, 0, EsRecords(c).value));
  }
}
