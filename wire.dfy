/** Big-endian 16-bit fields, as DNS uses them (network byte order). */
module Wire {

  /** One octet of a datagram (Go's byte / uint8). */
  type byte = bv8

  /** Reads the big-endian 16-bit value whose high byte is hi and low byte is lo. */
  function Uint16(hi: byte, lo: byte): (v: bv16)
    ensures v >> 8 == hi as bv16 && v & 0xFF == lo as bv16
  {
    (hi as bv16 << 8) | lo as bv16
  }

  /** The two bytes a big-endian write of v appends, high byte first. */
  function PutUint16(v: bv16): (b: seq<byte>)
    ensures |b| == 2
    ensures Uint16(b[0], b[1]) == v
  {
    [(v >> 8) as byte, (v & 0xFF) as byte]
  }

  /** Reading two bytes and writing the value back gives the two bytes. */
  lemma PutAfterRead(hi: byte, lo: byte)
    ensures PutUint16(Uint16(hi, lo)) == [hi, lo]
  {
  }

  /** The value read is the number hi * 256 + lo. */
  lemma Uint16Value(hi: byte, lo: byte)
    ensures Uint16(hi, lo) as int == hi as int * 256 + lo as int
  {
    WordFromBytes(Uint16(hi, lo), hi, lo);
  }

  /** The two bytes written for v are the base-256 digits of v. */
  lemma PutUint16Value(v: bv16)
    ensures PutUint16(v)[0] as int * 256 + PutUint16(v)[1] as int == v as int
  {
    Uint16Value(PutUint16(v)[0], PutUint16(v)[1]);
  }

  /** A 16-bit word with high byte hi and low byte lo is the number hi * 256 + lo. */
  lemma WordFromBytes(v: bv16, hi: byte, lo: byte)
    requires v >> 8 == hi as bv16 && v & 0xFF == lo as bv16
    ensures v as int == hi as int * 256 + lo as int
  {
    SplitWord(v);
    Widen(hi);
    Widen(lo);
  }

  /** A 16-bit word as a number: its high byte times 256 plus its low byte. */
  lemma SplitWord(v: bv16)
    ensures v as int == (v >> 8) as int * 256 + (v & 0xFF) as int
  {
  }

  /** Widening a byte to 16 bits keeps its value. */
  lemma Widen(b: byte)
    ensures (b as bv16) as int == b as int
  {
  }
}
