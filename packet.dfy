/** One transport stream packet decoded within a session: the 4-byte header,
    the adaptation field when the control field announces one, and the
    program specific information when the packet carries a payload on a PID
    the session knows to carry tables (sections 2.4.3.2-2.4.3.3 and 2.4.4 of
    ITU-T H.222.0). The PIDs registered by a program association table decide
    how later packets are classified. */
module Packet {
  import opened Common
  import opened Cursor
  import opened Session
  import opened AdaptationField
  import opened PacketHeader
  import opened ProgramSpecificInformation

  /** The Go `Packet`: the header fields and the two optional parts. */
  datatype Packet = Packet(
    fields: HeaderFields,
    adaptationField: Option<AdaptationField>,
    programSpecificInformation: Option<ProgramSpecificInformation>)

  /** `isPSI`: PID 0 always carries the association table; any PID in the
      registry carries a program map table. */
  predicate IsPSI(pid: PID, m: map<PID, uint16>)
  {
    pid in m || pid == 0
  }

  /** `isPES`: the three bytes read as one 24-bit number equal 1. */
  predicate IsPes(b: seq<byte>)
    requires |b| >= 3
  {
    b[0] as int * 0x1_0000 + b[1] as int * 0x100 + b[2] as int == 1
  }

  /** The outcome of one packet: the decoded packet or the error, and the
      registry the session holds afterwards. */
  datatype Step = Step(result: Result<Packet>, registry: map<PID, uint16>)

  /** The adaptation field announced by the control field, decoded at byte 4,
      and the offset where the payload starts. */
  function AdaptationAt(b: seq<byte>, afc: uint2): (r: Result<(Option<AdaptationField>, nat)>)
    requires 4 <= |b|
    ensures r.Ok? ==> 4 <= r.value.1 <= |b|
    ensures r.Ok? ==> (r.value.0.Some? <==> HasAdaptationField(afc))
  {
    if HasAdaptationField(afc) then
      match DecodeAdaptationField(b, 4)
      case Err(e) => Err(e)
      case Ok((af, end)) =>
        AdaptationFieldConsumesDeclaredLength(b, 4);
        Ok((Some(af), end))
    else Ok((None, 4))
  }

  /** The packet as `ParsePacket` decodes it from a session whose registry is `m`. */
  function DecodePacket(b: seq<byte>, m: map<PID, uint16>): Step
  {
    if |b| == 0 then Step(Err(OutOfBounds), m)
    else if b[0] != SyncByte then Step(Err(InvalidSyncByte), m)
    else if |b| < 4 then Step(Err(OutOfBounds), m)
    else
      var f := DecodeFields(b[1], b[2], b[3]);
      match AdaptationAt(b, f.adaptationFieldControl)
      case Err(e) => Step(Err(e), m)
      case Ok((af, start)) =>
        if HasPayload(f.adaptationFieldControl) && IsPSI(f.packetId, m) then
          var payload := b[start..];
          var reg := m + Registered(ScannedSections(payload));
          match DecodeProgramSpecificInformation(payload)
          case Err(e) => Step(Err(e), reg)
          case Ok(psi) => Step(Ok(Packet(f, af, Some(psi))), reg)
        else Step(Ok(Packet(f, af, None)), m)
  }

  /** `ParsePacket`: a fresh cursor over the input, the sync byte, the three
      header bytes, the adaptation field through the cursor, then the
      tables of the remaining payload, which may register PIDs. */
  method ParsePacket(p: Parser, input: seq<byte>) returns (r: Result<Packet>)
    modifies p`reader, p`programMap
    ensures fresh(p.reader) && p.reader.b == input
    ensures Step(r, p.programMap) == DecodePacket(input, old(p.programMap))
  {
    p.reader := new ByteReader(input);
    var reader := p.reader;
    var sync := reader.ReadByte();
    if sync.Err? {
      return Err(OutOfBounds);
    }
    if sync.value != SyncByte {
      return Err(InvalidSyncByte);
    }
    var bs :- reader.ReadBytes(3);
    var f := DecodeFields(bs[0], bs[1], bs[2]);
    var af: Option<AdaptationField> := None;
    if HasAdaptationField(f.adaptationFieldControl) {
      var a :- ParseAdaptationField(reader);
      AdaptationFieldConsumesDeclaredLength(input, 4);
      af := Some(a);
    }
    if HasPayload(f.adaptationFieldControl) && IsPSI(f.packetId, p.programMap) {
      var start := reader.Position();
      var psi :- ParseProgramSpecificInformation(p, input[start..]);
      return Ok(Packet(f, af, Some(psi)));
    }
    r := Ok(Packet(f, af, None));
  }

  // Properties of one packet.

  /** The one InvalidSyncByte error is a first byte other than 0x47, and an
      error before the payload leaves the registry as it was. */
  lemma SyncErrorIff(b: seq<byte>, m: map<PID, uint16>)
    ensures DecodePacket(b, m).result == Err(InvalidSyncByte) <==> 1 <= |b| && b[0] != SyncByte
    ensures 1 <= |b| && b[0] != SyncByte ==> DecodePacket(b, m).registry == m
  {
  }

  /** The header fields and the adaptation field are those `ParseHeader`
      decodes from the same bytes, and the packet fails whenever it does. */
  lemma PacketAgreesWithParseHeader(b: seq<byte>, m: map<PID, uint16>)
    ensures ParseHeader(b).Err? ==> DecodePacket(b, m).result == Err(ParseHeader(b).error)
    ensures DecodePacket(b, m).result.Ok? ==>
      var pkt := DecodePacket(b, m).result.value;
      ParseHeader(b) == Ok(PacketHeader(pkt.fields, pkt.adaptationField))
  {
  }

  /** Tables are decoded exactly when the packet has a payload and its PID is
      PID 0 or registered, the adaptation field exactly when announced. */
  lemma TablesDecodedIff(b: seq<byte>, m: map<PID, uint16>)
    requires DecodePacket(b, m).result.Ok?
    ensures var pkt := DecodePacket(b, m).result.value;
      && (pkt.programSpecificInformation.Some? <==>
            HasPayload(pkt.fields.adaptationFieldControl) && IsPSI(pkt.fields.packetId, m))
      && (pkt.adaptationField.Some? <==> HasAdaptationField(pkt.fields.adaptationFieldControl))
  {
  }

  /** A packet never removes a PID from the registry, and one that is not a
      table packet leaves the registry exactly as it was. */
  lemma RegistryOnlyGrows(b: seq<byte>, m: map<PID, uint16>)
    ensures m.Keys <= DecodePacket(b, m).registry.Keys
    ensures 4 <= |b| && !(HasPayload(AdaptationFieldControl(b[3])) && IsPSI(PacketId(b[1], b[2]), m)) ==>
              DecodePacket(b, m).registry == m
  {
  }

  /** A PID that carries tables keeps carrying them after any packet. */
  lemma PsiStaysPsi(b: seq<byte>, m: map<PID, uint16>, pid: PID)
    requires IsPSI(pid, m)
    ensures IsPSI(pid, DecodePacket(b, m).registry)
  {
    RegistryOnlyGrows(b, m);
  }

  /** A PID becomes registered only through an association table decoded
      from a table packet's payload. */
  lemma NewPidsComeFromTables(b: seq<byte>, m: map<PID, uint16>, pid: PID)
    requires pid in DecodePacket(b, m).registry && pid !in m
    ensures 4 <= |b| && b[0] == SyncByte
    ensures HasPayload(AdaptationFieldControl(b[3])) && IsPSI(PacketId(b[1], b[2]), m)
    ensures exists start :: 4 <= start <= |b| && pid in Registered(ScannedSections(b[start..]))
  {
    var f := DecodeFields(b[1], b[2], b[3]);
    var start := AdaptationAt(b, f.adaptationFieldControl).value.1;
    assert pid in Registered(ScannedSections(b[start..]));
  }

  /** `isPES` holds exactly for the packet start code prefix 00 00 01. */
  lemma IsPesIffStartCode(b: seq<byte>)
    requires |b| >= 3
    ensures IsPes(b) <==> b[..3] == [0x00, 0x00, 0x01]
  {
    if IsPes(b) {
      assert b[0] == 0 && b[1] == 0;
      assert b[..3] == [b[0], b[1], b[2]];
    }
  }

  // A stream of packets.

  /** The registry after decoding the packets in order. */
  function DecodeStream(ps: seq<seq<byte>>, m: map<PID, uint16>): map<PID, uint16>
    decreases |ps|
  {
    if |ps| == 0 then m else DecodeStream(ps[1..], DecodePacket(ps[0], m).registry)
  }

  /** Once a PID carries tables, it does so for every later packet. */
  lemma {:induction false} StreamKeepsPsi(ps: seq<seq<byte>>, m: map<PID, uint16>, pid: PID)
    requires IsPSI(pid, m)
    ensures IsPSI(pid, DecodeStream(ps, m))
    decreases |ps|
  {
    if |ps| > 0 {
      PsiStaysPsi(ps[0], m, pid);
      StreamKeepsPsi(ps[1..], DecodePacket(ps[0], m).registry, pid);
    }
  }

  /** A payload-only packet on PID 0 with the payload unit start flag set,
      carrying the association table for program 1 on PID 0x1000. */
  const PatPacket: seq<byte> := [0x47, 0x40, 0x00, 0x10] + PatPayload

  /** A payload-only packet on a table PID hands the bytes after its header
      to the table decoder and registers what they carry. */
  lemma PayloadOnlyTablePacket(b: seq<byte>, m: map<PID, uint16>)
    requires 4 <= |b| && b[0] == SyncByte
    requires AdaptationFieldControl(b[3]) == 1 && IsPSI(PacketId(b[1], b[2]), m)
    ensures DecodePacket(b, m).registry == m + Registered(ScannedSections(b[4..]))
    ensures DecodeProgramSpecificInformation(b[4..]).Ok? ==>
      DecodePacket(b, m).result
        == Ok(Packet(DecodeFields(b[1], b[2], b[3]), None, Some(DecodeProgramSpecificInformation(b[4..]).value)))
  {
    assert AdaptationAt(b, 1) == Ok((None, 4));
  }

  lemma PatPacketBytes()
    ensures |PatPacket| == 22 && PatPacket[0] == SyncByte
    ensures PatPacket[1] == 0x40 && PatPacket[2] == 0x00 && PatPacket[3] == 0x10
    ensures PatPacket[4..] == PatPayload
  {
  }

  /** The association table in PatPayload registers program 1 on PID 0x1000. */
  lemma PatPayloadRegisters()
    ensures DecodeProgramSpecificInformation(PatPayload).Ok?
    ensures Registered(ScannedSections(PatPayload)) == map[0x1000 := 1]
  {
    PatPayloadDecodes();
    PatWireTable();
    ScannedFromDecoded(PatPayload);
    var s := Expected(PatWire());
    assert ScannedSections(PatPayload) == [s];
    assert [s][..0] == [];
    assert Registered([s]) == Registered([]) + TablesOf(s);
  }

  /** Before the association table PID 0x1000 is not a table PID; after it,
      it is, so a program map packet on PID 0x1000 is then decoded. */
  lemma ProgramMapPidRegistered()
    ensures !IsPSI(0x1000, map[])
    ensures DecodePacket(PatPacket, map[]).result.Ok?
    ensures DecodePacket(PatPacket, map[]).registry == map[0x1000 := 1]
    ensures IsPSI(0x1000, DecodePacket(PatPacket, map[]).registry)
  {
    PatPacketBytes();
    PatPayloadRegisters();
    RegisteringPacket(PatPacket, map[0x1000 := 1]);
  }

  /** The header bytes 40 00 10 name PID 0 and a payload-only packet. */
  lemma PatHeaderFields()
    ensures AdaptationFieldControl(0x10) == 1 && PacketId(0x40, 0x00) == 0
  {
    Div16(0x10, 1, 0);
    Div4(1, 0, 1);
    Div32(0x40, 2, 0);
  }

  /** Merging into an empty registry leaves exactly the merged entries. */
  lemma EmptyUnion(reg: map<PID, uint16>)
    ensures map[] + reg == reg
  {
  }

  /** A payload-only packet on PID 0 whose table registers `reg` leaves
      exactly `reg` in an empty registry. */
  lemma RegisteringPacket(b: seq<byte>, reg: map<PID, uint16>)
    requires 4 <= |b| && b[0] == SyncByte && b[1] == 0x40 && b[2] == 0x00 && b[3] == 0x10
    requires DecodeProgramSpecificInformation(b[4..]).Ok?
    requires Registered(ScannedSections(b[4..])) == reg
    ensures DecodePacket(b, map[]).result.Ok?
    ensures DecodePacket(b, map[]).registry == reg
  {
    PatHeaderFields();
    PayloadOnlyTablePacket(b, map[]);
    EmptyUnion(reg);
  }

  /** A payload that decodes gives its sections to the registry. */
  lemma ScannedFromDecoded(b: seq<byte>)
    requires DecodeProgramSpecificInformation(b).Ok?
    ensures ScannedSections(b) == DecodeProgramSpecificInformation(b).value.sections
  {
  }

  // Continuity, as the counter's documentation describes it.

  /** Whether the adaptation field raises the discontinuity indicator. */
  predicate Discontinuity(pkt: Packet)
  {
    pkt.adaptationField.Some? && pkt.adaptationField.value.discontinuityIndicator
  }

  /** Whether a packet is continuous after the last payload counter of its
      PID, and the table of last counters afterwards. A packet without a
      payload does not advance the counter and is judged only by the
      discontinuity indicator; the first payload packet of a PID has no
      predecessor to contradict it. */
  function ContinuityStep(last: map<PID, uint4>, pkt: Packet): (bool, map<PID, uint4>)
  {
    var pid, cc := pkt.fields.packetId, pkt.fields.continuityCounter;
    if !HasPayload(pkt.fields.adaptationFieldControl) then (!Discontinuity(pkt), last)
    else
      var follows := pid !in last || cc == (last[pid] as int + 1) % 0x10;
      (follows && !Discontinuity(pkt), last[pid := cc])
  }

  /** Judges one packet against the session's table of last counters and
      records its counter when it carries a payload. */
  method CheckContinuity(p: Parser, pkt: Packet) returns (continuous: bool)
    modifies p`lastCounter
    ensures (continuous, p.lastCounter) == ContinuityStep(old(p.lastCounter), pkt)
  {
    var pid, cc := pkt.fields.packetId, pkt.fields.continuityCounter;
    var discontinuity := pkt.adaptationField.Some? && pkt.adaptationField.value.discontinuityIndicator;
    if !HasPayload(pkt.fields.adaptationFieldControl) {
      return !discontinuity;
    }
    continuous := !discontinuity && (pid !in p.lastCounter || cc == (p.lastCounter[pid] as int + 1) % 0x10);
    p.lastCounter := p.lastCounter[pid := cc];
  }

  /** The verdicts for packets judged in order. */
  function JudgeAll(last: map<PID, uint4>, ps: seq<Packet>): (r: seq<bool>)
    ensures |r| == |ps|
    decreases |ps|
  {
    if |ps| == 0 then []
    else
      var (ok, next) := ContinuityStep(last, ps[0]);
      [ok] + JudgeAll(next, ps[1..])
  }

  /** A raised discontinuity indicator always breaks continuity, and so does
      a payload packet whose counter is not one more, modulo 16, than the
      last counter of its PID (a repeated counter among them). Without the
      indicator, a payload packet with the next counter is continuous. */
  lemma ContinuityBreaks(last: map<PID, uint4>, pkt: Packet)
    ensures Discontinuity(pkt) ==> !ContinuityStep(last, pkt).0
    ensures (HasPayload(pkt.fields.adaptationFieldControl) && pkt.fields.packetId in last
             && pkt.fields.continuityCounter == last[pkt.fields.packetId]) ==> !ContinuityStep(last, pkt).0
    ensures (HasPayload(pkt.fields.adaptationFieldControl) && pkt.fields.packetId in last
             && pkt.fields.continuityCounter as int != (last[pkt.fields.packetId] as int + 1) % 0x10)
            ==> !ContinuityStep(last, pkt).0
    ensures (HasPayload(pkt.fields.adaptationFieldControl) && pkt.fields.packetId in last && !Discontinuity(pkt)
             && pkt.fields.continuityCounter as int == (last[pkt.fields.packetId] as int + 1) % 0x10)
            ==> ContinuityStep(last, pkt).0
  {
  }

  /** Judging a packet changes no other PID's last counter. */
  lemma ContinuityOtherPids(last: map<PID, uint4>, pkt: Packet, q: PID)
    requires q != pkt.fields.packetId
    ensures var next := ContinuityStep(last, pkt).1;
      (q in next <==> q in last) && (q in last ==> next[q] == last[q])
  {
  }

  /** Payload packets of one PID whose counters go up by one modulo 16 from
      the last recorded counter, with no discontinuity, are all continuous. */
  lemma {:induction false} IncrementingRunContinuous(last: map<PID, uint4>, pid: PID, ps: seq<Packet>)
    requires forall k :: 0 <= k < |ps| ==>
      ps[k].fields.packetId == pid && HasPayload(ps[k].fields.adaptationFieldControl) && !Discontinuity(ps[k])
    requires 0 < |ps| && pid in last ==> ps[0].fields.continuityCounter == (last[pid] as int + 1) % 0x10
    requires forall k :: 0 <= k < |ps| - 1 ==>
      ps[k + 1].fields.continuityCounter == (ps[k].fields.continuityCounter as int + 1) % 0x10
    ensures forall k :: 0 <= k < |ps| ==> JudgeAll(last, ps)[k]
    decreases |ps|
  {
    if |ps| > 0 {
      var next := ContinuityStep(last, ps[0]).1;
      assert next == last[pid := ps[0].fields.continuityCounter];
      var tail := ps[1..];
      assert forall k :: 0 <= k < |tail| - 1 ==>
        tail[k + 1].fields.continuityCounter == (tail[k].fields.continuityCounter as int + 1) % 0x10 by {
        forall k | 0 <= k < |tail| - 1
          ensures tail[k + 1].fields.continuityCounter == (tail[k].fields.continuityCounter as int + 1) % 0x10
        {
          assert tail[k] == ps[k + 1] && tail[k + 1] == ps[k + 2];
        }
      }
      if 0 < |tail| {
        assert tail[0] == ps[1];
      }
      IncrementingRunContinuous(next, pid, tail);
      var r := JudgeAll(last, ps);
      assert r == [ContinuityStep(last, ps[0]).0] + JudgeAll(next, tail);
      forall k | 0 <= k < |ps|
        ensures r[k]
      {
        if k > 0 {
          assert r[k] == JudgeAll(next, tail)[k - 1];
        }
      }
    }
  }

  function PayloadPacket(pid: PID, cc: uint4, discontinuity: bool): Packet
  {
    var af := StuffingOnly().(discontinuityIndicator := discontinuity);
    Packet(HeaderFields(pid, false, false, false, 0, 3, cc), Some(af), None)
  }

  /** Counters 3, 4 on one PID are continuous, a jump to 6 is not, a flagged
      packet is not, and the counter wraps from 15 to 0. */
  lemma ContinuityExamples()
    ensures JudgeAll(map[], [PayloadPacket(0x100, 3, false), PayloadPacket(0x100, 4, false),
                             PayloadPacket(0x100, 6, false), PayloadPacket(0x100, 7, true)])
            == [true, true, false, false]
    ensures JudgeAll(map[0x100 := 15], [PayloadPacket(0x100, 0, false)]) == [true]
  {
    var t1 := map[0x100 := 3];
    var t2 := map[0x100 := 4];
    var t3 := map[0x100 := 6];
    var ps := [PayloadPacket(0x100, 3, false), PayloadPacket(0x100, 4, false),
               PayloadPacket(0x100, 6, false), PayloadPacket(0x100, 7, true)];
    assert ContinuityStep(map[], ps[0]) == (true, t1);
    assert t1[0x100 := 4] == t2;
    assert ContinuityStep(t1, ps[1]) == (true, t2);
    assert t2[0x100 := 6] == t3;
    assert ContinuityStep(t2, ps[2]) == (false, t3);
    assert ps[1..][1..][1..][1..] == [];
  }
}
