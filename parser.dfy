/** The decoding session: one cursor per packet and the program registry
    that persists from packet to packet. */
module Session {
  import opened Common
  import opened Cursor

  /** The Go `Parser`: the embedded `ByteReader` and `ProgramMap`, plus the
      last continuity counter seen for each PID that carried a payload. The
      registry maps a program map PID to its program number. */
  class Parser {
    var reader: ByteReader
    var programMap: map<PID, uint16>
    var lastCounter: map<PID, uint4>

    /** A session that has seen no packet: an empty cursor and empty tables. */
    constructor ()
      ensures programMap == map[] && lastCounter == map[]
      ensures reader.b == [] && reader.pos == 0
    {
      reader := new ByteReader([]);
      programMap := map[];
      lastCounter := map[];
    }
  }
}
