/** The program association table: 4-byte records, each a 16-bit program
    number and a 13-bit program map PID (section 2.4.4.3 of ITU-T H.222.0). */
module ProgramAssociationTable {
  import opened Common
  import opened Session

  /** The Go `ProgramAssociationTable`, keyed by PID as the registry needs. */
  datatype ProgramAssociationTable = ProgramAssociationTable(programMap: map<PID, uint16>)

  /** Number of whole records in `b`. */
  function RecordCount(b: seq<byte>): nat
  {
    |b| / 4
  }

  /** The program number of record j: bytes 0-1 big-endian. */
  function RecordNum(b: seq<byte>, j: nat): uint16
    requires j < RecordCount(b)
  {
    Be16(b[4 * j], b[4 * j + 1])
  }

  /** The PID of record j: bytes 2-3 with the three reserved bits dropped. */
  function RecordPid(b: seq<byte>, j: nat): PID
    requires j < RecordCount(b)
  {
    b[4 * j + 2] as int % 0x20 * 0x100 + b[4 * j + 3] as int
  }

  /** The table after storing the first n records in order, a later record
      overwriting an earlier one with the same PID. */
  function Entries(b: seq<byte>, n: nat): map<PID, uint16>
    requires n <= RecordCount(b)
  {
    if n == 0 then map[]
    else Entries(b, n - 1)[RecordPid(b, n - 1) := RecordNum(b, n - 1)]
  }

  /** The table of every whole record; trailing bytes short of a record are ignored. */
  function PatEntries(b: seq<byte>): map<PID, uint16>
  {
    Entries(b, RecordCount(b))
  }

  /** `ParseProgramAssociationTable`: walks the records 4 bytes at a time, storing
      each PID -> program number in the returned table and in the session registry. */
  method ParseProgramAssociationTable(p: Parser, b: seq<byte>) returns (t: ProgramAssociationTable)
    modifies p`programMap
    ensures t.programMap == PatEntries(b)
    ensures p.programMap == old(p.programMap) + PatEntries(b)
  {
    var local: map<PID, uint16> := map[];
    var i := 0;
    ghost var n := 0;
    while i + 4 <= |b|
      invariant i == 4 * n <= |b|
      invariant local == Entries(b, n)
      invariant p.programMap == old(p.programMap) + local
    {
      Div4(|b|, |b| / 4, |b| % 4);
      var num := Be16(b[i], b[i + 1]);
      var pid: PID := b[i + 2] as int % 0x20 * 0x100 + b[i + 3] as int;
      assert num == RecordNum(b, n) && pid == RecordPid(b, n);
      UpdateBoth(old(p.programMap), local, pid, num);
      local := local[pid := num];
      p.programMap := p.programMap[pid := num];
      i := i + 4;
      n := n + 1;
    }
    Div4(|b|, n, |b| - i);
    t := ProgramAssociationTable(local);
  }

  /** Storing a record in the table and in the registry keeps the registry the union of the two. */
  lemma UpdateBoth(m: map<PID, uint16>, local: map<PID, uint16>, pid: PID, num: uint16)
    ensures (m + local)[pid := num] == m + local[pid := num]
  {
  }

  // Properties of the table.

  /** A PID is in the table exactly when some whole record carries it. */
  lemma {:induction false} EntriesKeys(b: seq<byte>, n: nat, k: PID)
    requires n <= RecordCount(b)
    ensures k in Entries(b, n) <==> exists j :: 0 <= j < n && RecordPid(b, j) == k
  {
    if n > 0 {
      EntriesKeys(b, n - 1, k);
      if RecordPid(b, n - 1) == k {
        assert k in Entries(b, n);
      }
    }
  }

  /** The program number stored for a PID is the one of the last record that carries it. */
  lemma {:induction false} EntriesLastWins(b: seq<byte>, n: nat, j: nat)
    requires j < n <= RecordCount(b)
    requires forall l :: j < l < n ==> RecordPid(b, l) != RecordPid(b, j)
    ensures RecordPid(b, j) in Entries(b, n)
    ensures Entries(b, n)[RecordPid(b, j)] == RecordNum(b, j)
  {
    if j < n - 1 {
      EntriesLastWins(b, n - 1, j);
    }
  }

  lemma PatKeys(b: seq<byte>, k: PID)
    ensures k in PatEntries(b) <==> exists j :: 0 <= j < RecordCount(b) && RecordPid(b, j) == k
  {
    EntriesKeys(b, RecordCount(b), k);
  }

  /** The session registry only grows: every PID it held is still there, and
      a PID no record carries keeps its program number. */
  lemma RegistryGrows(m: map<PID, uint16>, b: seq<byte>, k: PID)
    requires k in m
    ensures k in m + PatEntries(b)
    ensures (forall j :: 0 <= j < RecordCount(b) ==> RecordPid(b, j) != k) ==> (m + PatEntries(b))[k] == m[k]
  {
    PatKeys(b, k);
  }

  /** Every entry of the table is in the registry after the call, with the same value. */
  lemma TableInRegistry(m: map<PID, uint16>, b: seq<byte>, k: PID)
    requires k in PatEntries(b)
    ensures k in m + PatEntries(b) && (m + PatEntries(b))[k] == PatEntries(b)[k]
  {
  }

  /** Fewer than four bytes hold no record, so neither table changes. */
  lemma ShortTableEmpty(b: seq<byte>)
    requires |b| < 4
    ensures PatEntries(b) == map[]
  {
  }

  /** Program 1 carried on PID 0x1000. */
  lemma SingleProgramExample()
    ensures PatEntries([0x00, 0x01, 0x90, 0x00]) == map[0x1000 := 1]
  {
    var b: seq<byte> := [0x00, 0x01, 0x90, 0x00];
    assert RecordPid(b, 0) == 0x1000 && RecordNum(b, 0) == 1;
  }

  // The code as written.

  /** program_association_table.go as written: `for i := 0; i < len(b)/4; i += 4`,
      whose body always decodes bytes 0..3. */
  function PatLoopAsWritten(b: seq<byte>, i: nat, m: map<PID, uint16>): map<PID, uint16>
    decreases RecordCount(b) - i
  {
    if i < RecordCount(b) then PatLoopAsWritten(b, i + 4, m[RecordPid(b, 0) := RecordNum(b, 0)])
    else m
  }

  function PatEntriesAsWritten(b: seq<byte>): (r: map<PID, uint16>)
    // as written only the first record is ever stored
    ensures r == if |b| < 4 then map[] else map[RecordPid(b, 0) := RecordNum(b, 0)]
  {
    PatLoopAsWrittenFirstOnly(b, 0, map[]);
    PatLoopAsWritten(b, 0, map[])
  }

  lemma {:induction false} PatLoopAsWrittenFirstOnly(b: seq<byte>, i: nat, m: map<PID, uint16>)
    ensures PatLoopAsWritten(b, i, m) ==
              if i < RecordCount(b) then m[RecordPid(b, 0) := RecordNum(b, 0)] else m
    decreases RecordCount(b) - i
  {
    if i < RecordCount(b) {
      var m' := m[RecordPid(b, 0) := RecordNum(b, 0)];
      PatLoopAsWrittenFirstOnly(b, i + 4, m');
      assert m'[RecordPid(b, 0) := RecordNum(b, 0)] == m';
    }
  }

  /** Two programs, 1 on PID 0x1000 and 2 on PID 0x1001, both reach the table. */
  lemma TwoProgramsExample()
    ensures PatEntries([0x00, 0x01, 0x90, 0x00, 0x00, 0x02, 0x90, 0x01]) == map[0x1000 := 1, 0x1001 := 2]
  {
    var b: seq<byte> := [0x00, 0x01, 0x90, 0x00, 0x00, 0x02, 0x90, 0x01];
    TwoRecords(b);
    assert b[2] == 0x90 && b[6] == 0x90;
    Div32(0x90, 4, 0x10);
    assert RecordPid(b, 0) == 0x1000 && RecordNum(b, 0) == 1;
    assert RecordPid(b, 1) == 0x1001 && RecordNum(b, 1) == 2;
  }

  lemma TwoRecords(b: seq<byte>)
    requires RecordCount(b) == 2
    ensures PatEntries(b) == map[RecordPid(b, 0) := RecordNum(b, 0)][RecordPid(b, 1) := RecordNum(b, 1)]
  {
    assert Entries(b, 1) == map[][RecordPid(b, 0) := RecordNum(b, 0)];
  }

  /** The same two records: as written the second never reaches the registry. */
  lemma SecondRecordAsWrittenLost()
    ensures PatEntriesAsWritten([0x00, 0x01, 0x90, 0x00, 0x00, 0x02, 0x90, 0x01]) == map[0x1000 := 1]
  {
    var b: seq<byte> := [0x00, 0x01, 0x90, 0x00, 0x00, 0x02, 0x90, 0x01];
    assert RecordPid(b, 0) == 0x1000 && RecordNum(b, 0) == 1;
  }
}
