/** The DNS message header record (section 4.1.1 of RFC 1035). */
module Models {
  import opened Wire

  /**
   * The thirteen fields of a DNS header. OPCODE, Z and RCODE are held in a
   * whole byte, as the program holds them, so a value wider than the field's
   * 4, 3 or 4 bits can be represented; the encoder masks it.
   */
  datatype Header = Header(
    id: bv16,       // packet identifier
    qr: bool,       // query (false) or response (true)
    opcode: byte,   // operation code, 4 bits on the wire
    aa: bool,       // authoritative answer
    tc: bool,       // truncation
    rd: bool,       // recursion desired
    ra: bool,       // recursion available
    z: byte,        // reserved, 3 bits on the wire
    rcode: byte,    // response code, 4 bits on the wire
    qdCount: bv16,  // question count
    anCount: bv16,  // answer record count
    nsCount: bv16,  // authority record count
    arCount: bv16   // additional record count
  )

  /** Every multi-bit field fits in its width on the wire. */
  predicate InRange(h: Header)
  {
    h.opcode <= 15 && h.z <= 7 && h.rcode <= 15
  }
}
