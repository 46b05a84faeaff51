/**
 * The header codec of the DNS server: decoding the 12-byte header of a
 * query and packing the header of the reply.
 */
module DnsServer {
  import opened Wire
  import opened Models

  /** The header section is always this many bytes long. */
  const HeaderSize := 12

  // Masks of the one-bit flags in byte 2 of the header.
  const AaMask: byte := 1 << 2
  const TcMask: byte := 1 << 1
  const RdMask: byte := 1

  // OPCODE occupies bits 6-3 of byte 2: shift it down, then keep four bits.
  const OpcodeShift := 3
  const OpcodeMask: byte := 0x0F

  /**
   * The masks of byte 2 are the single bits 2, 1 and 0; together with the QR
   * bit and the shifted OPCODE mask they cover the byte without overlapping.
   * The fields of byte 3 (RA, Z and RCODE) cover it in the same way.
   */
  lemma FieldMasksPartition()
    ensures AaMask == 0x04 && TcMask == 0x02 && RdMask == 0x01
    ensures OpcodeMask << OpcodeShift == 0x78
    ensures 0x80 | (OpcodeMask << OpcodeShift) | AaMask | TcMask | RdMask == 0xFF
    ensures 0x80 & (OpcodeMask << OpcodeShift) == 0 && 0x80 & (AaMask | TcMask | RdMask) == 0
    ensures (OpcodeMask << OpcodeShift) & (AaMask | TcMask | RdMask) == 0
    ensures AaMask & TcMask == 0 && AaMask & RdMask == 0 && TcMask & RdMask == 0
    ensures 0x80 as byte | (0x07 << 4) | 0x0F == 0xFF
    ensures 0x80 as byte & (0x07 << 4) == 0 && 0x80 as byte & 0x0F == 0 && (0x07 as byte << 4) & 0x0F == 0
  {
  }

  /** Why a buffer could not be decoded. */
  datatype ParseError = BufferTooShort

  datatype Result<T> = Ok(value: T) | Err(error: ParseError)

  /**
   * Decodes the header at the start of buf. Fails exactly when buf holds
   * fewer than HeaderSize bytes; every decoded header has its multi-bit
   * fields in range.
   */
  function ParseDnsHeader(buf: seq<byte>): (r: Result<Header>)
    ensures r.Err? <==> |buf| < HeaderSize
    ensures r.Ok? ==> InRange(r.value)
  {
    if |buf| < HeaderSize then
      Err(BufferTooShort)
    else
      Ok(Header(
        id := Uint16(buf[0], buf[1]),
        qr := buf[2] & 0x80 != 0,
        opcode := (buf[2] >> OpcodeShift) & OpcodeMask,
        aa := buf[2] & AaMask != 0,
        tc := buf[2] & TcMask != 0,
        rd := buf[2] & RdMask != 0,
        ra := buf[3] & 0x80 != 0,
        z := (buf[3] >> 4) & 0x07,
        rcode := buf[3] & 0x0F,
        qdCount := Uint16(buf[4], buf[5]),
        anCount := Uint16(buf[6], buf[7]),
        nsCount := Uint16(buf[8], buf[9]),
        arCount := Uint16(buf[10], buf[11])))
  }

  /** The 16-bit word holding a single flag: 1 when it is set, 0 otherwise. */
  function BoolToUint16(b: bool): (r: bv16)
    ensures r <= 1
    ensures r == 1 <==> b
  {
    if b then 1 else 0
  }

  /** Byte 2 of the header: QR, OPCODE, AA, TC and RD, high bit first. */
  function FlagsHigh(h: Header): byte
  {
    (if h.qr then 0x80 else 0)
    | ((h.opcode & OpcodeMask) << OpcodeShift)
    | (if h.aa then AaMask else 0)
    | (if h.tc then TcMask else 0)
    | (if h.rd then RdMask else 0)
  }

  /** Byte 3 of the header: RA, Z and RCODE, high bit first. */
  function FlagsLow(h: Header): byte
  {
    (if h.ra then 0x80 else 0) | ((h.z & 0x07) << 4) | (h.rcode & 0x0F)
  }

  /**
   * The wire image of h: ID, the two flag bytes and the four counts, each
   * 16-bit field big-endian. Only the low 4, 3 and 4 bits of OPCODE, Z and
   * RCODE are kept.
   */
  function HeaderBytes(h: Header): (b: seq<byte>)
    ensures |b| == HeaderSize
  {
    PutUint16(h.id) + [FlagsHigh(h), FlagsLow(h)]
    + PutUint16(h.qdCount) + PutUint16(h.anCount)
    + PutUint16(h.nsCount) + PutUint16(h.arCount)
  }

  /** h with OPCODE, Z and RCODE reduced to the bits their fields hold. */
  function Masked(h: Header): (m: Header)
    ensures InRange(m)
    ensures InRange(h) ==> m == h
    ensures m.(opcode := h.opcode, z := h.z, rcode := h.rcode) == h
    ensures m.opcode as int == h.opcode as int % 16
    ensures m.z as int == h.z as int % 8
    ensures m.rcode as int == h.rcode as int % 16
  {
    NibbleValue(h.opcode);
    ThreeBitsValue(h.z);
    NibbleValue(h.rcode);
    h.(opcode := h.opcode & OpcodeMask, z := h.z & 0x07, rcode := h.rcode & 0x0F)
  }

  /** A reference to a caller's header, which BuildResponse updates in place. */
  class HeaderRef {
    var value: Header

    constructor (h: Header)
      ensures value == h
    {
      value := h;
    }
  }

  /**
   * Marks the caller's header as a response and returns the 12 bytes of the
   * reply header, which decode to that header with its multi-bit fields
   * masked.
   */
  method BuildResponse(header: HeaderRef) returns (response: seq<byte>)
    modifies header
    ensures header.value == old(header.value).(qr := true)
    ensures response == HeaderBytes(header.value)
    ensures |response| == HeaderSize && response[2] & 0x80 == 0x80
    ensures ParseDnsHeader(response) == Ok(Masked(header.value))
  {
    header.value := header.value.(qr := true);
    var h := header.value;

    var buf: seq<byte> := [];
    buf := buf + PutUint16(h.id);

    var flags: bv16 := 0;
    flags := flags | 0x8000;
    flags := flags | ((h.opcode as bv16 & OpcodeMask as bv16) << 11);
    flags := flags | (BoolToUint16(h.aa) << 10);
    flags := flags | (BoolToUint16(h.tc) << 9);
    flags := flags | (BoolToUint16(h.rd) << 8);
    flags := flags | (BoolToUint16(h.ra) << 7);
    flags := flags | ((h.z as bv16 & 0x07) << 4);
    flags := flags | (h.rcode as bv16 & 0x0F);
    buf := buf + PutUint16(flags);

    buf := buf + PutUint16(h.qdCount);
    buf := buf + PutUint16(h.anCount);
    buf := buf + PutUint16(h.nsCount);
    buf := buf + PutUint16(h.arCount);
    response := buf;

    ParseAfterEncode(h);
  }

  // ---------------------------------------------------------------------
  // Properties of the codec

  /** Bytes past the header never influence the decoded header. */
  lemma ParseIgnoresTrailingBytes(buf: seq<byte>, rest: seq<byte>)
    requires |buf| >= HeaderSize
    ensures ParseDnsHeader(buf + rest) == ParseDnsHeader(buf)
    ensures ParseDnsHeader(buf) == ParseDnsHeader(buf[..HeaderSize])
  {
  }

  /**
   * Each decoded field is the number found at its fixed position: ID and the
   * counts are the big-endian values at offsets 0, 4, 6, 8 and 10; the flags
   * are the bits of bytes 2 and 3 named in section 4.1.1 of RFC 1035.
   */
  lemma ParseFieldPositions(buf: seq<byte>)
    requires |buf| >= HeaderSize
    ensures ParseDnsHeader(buf).Ok?
    ensures var h := ParseDnsHeader(buf).value;
      && h.id as int == buf[0] as int * 256 + buf[1] as int
      && h.qr == (buf[2] as int / 128 == 1)
      && h.opcode as int == buf[2] as int / 8 % 16
      && h.aa == (buf[2] as int / 4 % 2 == 1)
      && h.tc == (buf[2] as int / 2 % 2 == 1)
      && h.rd == (buf[2] as int % 2 == 1)
      && h.ra == (buf[3] as int / 128 == 1)
      && h.z as int == buf[3] as int / 16 % 8
      && h.rcode as int == buf[3] as int % 16
      && h.qdCount as int == buf[4] as int * 256 + buf[5] as int
      && h.anCount as int == buf[6] as int * 256 + buf[7] as int
      && h.nsCount as int == buf[8] as int * 256 + buf[9] as int
      && h.arCount as int == buf[10] as int * 256 + buf[11] as int
  {
    HighFlagsValues(buf[2]);
    LowFlagsValues(buf[3]);
    Uint16Value(buf[0], buf[1]);
    Uint16Value(buf[4], buf[5]);
    Uint16Value(buf[6], buf[7]);
    Uint16Value(buf[8], buf[9]);
    Uint16Value(buf[10], buf[11]);
  }

  // Helpers: the bit fields of bytes 2 and 3 read as numbers, and a flag
  // byte rebuilt as the weighted sum of its fields.

  /** The fields of byte 2 read as numbers: QR is bit 7, OPCODE bits 6-3, AA, TC, RD bits 2-0. */
  lemma HighFlagsValues(b: byte)
    ensures (b & 0x80 != 0) == (b as int / 128 == 1)
    ensures ((b >> OpcodeShift) & OpcodeMask) as int == b as int / 8 % 16
    ensures (b & AaMask != 0) == (b as int / 4 % 2 == 1)
    ensures (b & TcMask != 0) == (b as int / 2 % 2 == 1)
    ensures (b & RdMask != 0) == (b as int % 2 == 1)
  {
    HighBitValue(b);
    OpcodeValue(b);
    LowBitsValues(b);
  }

  /** The fields of byte 3 read as numbers: RA is bit 7, Z bits 6-4, RCODE bits 3-0. */
  lemma LowFlagsValues(b: byte)
    ensures (b & 0x80 != 0) == (b as int / 128 == 1)
    ensures ((b >> 4) & 0x07) as int == b as int / 16 % 8
    ensures (b & 0x0F) as int == b as int % 16
  {
    HighBitValue(b);
    ZValue(b);
    NibbleValue(b);
  }

  lemma HighBitValue(b: byte)
    ensures (b & 0x80 != 0) == (b as int / 128 == 1)
  {
  }

  lemma OpcodeValue(b: byte)
    ensures ((b >> OpcodeShift) & OpcodeMask) as int == b as int / 8 % 16
  {
    NibbleValue(b >> OpcodeShift);
    Shift3Value(b);
  }

  lemma Shift3Value(b: byte)
    ensures (b >> 3) as int == b as int / 8
  {
  }

  lemma Shift4Value(b: byte)
    ensures (b >> 4) as int == b as int / 16
  {
  }

  lemma LowBitsValues(b: byte)
    ensures (b & AaMask != 0) == (b as int / 4 % 2 == 1)
    ensures (b & TcMask != 0) == (b as int / 2 % 2 == 1)
    ensures (b & RdMask != 0) == (b as int % 2 == 1)
  {
    Bit2Value(b);
    Bit1Value(b);
    Bit0Value(b);
  }

  lemma Bit2Value(b: byte)
    ensures (b & 4 != 0) == (b as int / 4 % 2 == 1)
  {
  }

  lemma Bit1Value(b: byte)
    ensures (b & 2 != 0) == (b as int / 2 % 2 == 1)
  {
  }

  lemma Bit0Value(b: byte)
    ensures (b & 1 != 0) == (b as int % 2 == 1)
  {
  }

  lemma ZValue(b: byte)
    ensures ((b >> 4) & 0x07) as int == b as int / 16 % 8
  {
    ThreeBitsValue(b >> 4);
    Shift4Value(b);
  }

  lemma NibbleValue(b: byte)
    ensures (b & 0x0F) as int == b as int % 16
  {
  }

  lemma ThreeBitsValue(b: byte)
    ensures (b & 0x07) as int == b as int % 8
  {
  }

  /** A byte whose QR, OPCODE, AA, TC and RD fields read as given is their weighted sum. */
  lemma HighByteDigits(n: int, qr: bool, opcode: int, aa: bool, tc: bool, rd: bool)
    requires 0 <= n < 256
    requires qr == (n / 128 == 1) && opcode == n / 8 % 16
    requires aa == (n / 4 % 2 == 1) && tc == (n / 2 % 2 == 1) && rd == (n % 2 == 1)
    ensures n == (if qr then 128 else 0) + opcode * 8
                 + (if aa then 4 else 0) + (if tc then 2 else 0) + (if rd then 1 else 0)
  {
    HighByteSum(n);
    assert (if qr then 128 else 0) == 128 * (n / 128);
    assert (if aa then 4 else 0) == 4 * (n / 4 % 2);
    assert (if tc then 2 else 0) == 2 * (n / 2 % 2);
    assert (if rd then 1 else 0) == n % 2;
  }

  /** A byte whose RA, Z and RCODE fields read as given is their weighted sum. */
  lemma LowByteDigits(n: int, ra: bool, z: int, rcode: int)
    requires 0 <= n < 256
    requires ra == (n / 128 == 1) && z == n / 16 % 8 && rcode == n % 16
    ensures n == (if ra then 128 else 0) + z * 16 + rcode
  {
    LowByteSum(n);
    assert (if ra then 128 else 0) == 128 * (n / 128);
  }

  lemma HighByteSum(n: int)
    requires 0 <= n < 256
    ensures n == 128 * (n / 128) + 8 * (n / 8 % 16) + 4 * (n / 4 % 2) + 2 * (n / 2 % 2) + n % 2
    ensures 0 <= n / 128 <= 1
  {
    assert n == 8 * (n / 8) + n % 8;
    assert n / 8 == 16 * (n / 128) + n / 8 % 16;
    assert n % 8 == 4 * (n / 4 % 2) + 2 * (n / 2 % 2) + n % 2;
  }

  lemma LowByteSum(n: int)
    requires 0 <= n < 256
    ensures n == 128 * (n / 128) + 16 * (n / 16 % 8) + n % 16
    ensures 0 <= n / 128 <= 1
  {
    assert n == 16 * (n / 16) + n % 16;
    assert n / 16 == 8 * (n / 128) + n / 16 % 8;
  }

  /** Each field of h is written at its fixed position, OPCODE, Z and RCODE truncated. */
  lemma EncodeFieldPositions(h: Header)
    ensures var b := HeaderBytes(h);
      && b[0] as int * 256 + b[1] as int == h.id as int
      && b[2] as int == (if h.qr then 128 else 0) + h.opcode as int % 16 * 8
                        + (if h.aa then 4 else 0) + (if h.tc then 2 else 0) + (if h.rd then 1 else 0)
      && b[3] as int == (if h.ra then 128 else 0) + h.z as int % 8 * 16 + h.rcode as int % 16
      && b[4] as int * 256 + b[5] as int == h.qdCount as int
      && b[6] as int * 256 + b[7] as int == h.anCount as int
      && b[8] as int * 256 + b[9] as int == h.nsCount as int
      && b[10] as int * 256 + b[11] as int == h.arCount as int
  {
    FlagsHighValue(h);
    FlagsLowValue(h);
    PutUint16Value(h.id);
    PutUint16Value(h.qdCount);
    PutUint16Value(h.anCount);
    PutUint16Value(h.nsCount);
    PutUint16Value(h.arCount);
  }

  /** Byte 2 of the wire image as a number. */
  lemma FlagsHighValue(h: Header)
    ensures FlagsHigh(h) as int == (if h.qr then 128 else 0) + h.opcode as int % 16 * 8
                                   + (if h.aa then 4 else 0) + (if h.tc then 2 else 0) + (if h.rd then 1 else 0)
  {
    var f := FlagsHigh(h);
    FlagsHighFields(h);
    HighFlagsValues(f);
    NibbleValue(h.opcode);
    HighByteDigits(f as int, h.qr, h.opcode as int % 16, h.aa, h.tc, h.rd);
  }

  /** Byte 3 of the wire image as a number. */
  lemma FlagsLowValue(h: Header)
    ensures FlagsLow(h) as int == (if h.ra then 128 else 0) + h.z as int % 8 * 16 + h.rcode as int % 16
  {
    var f := FlagsLow(h);
    FlagsLowFields(h);
    LowFlagsValues(f);
    ThreeBitsValue(h.z);
    NibbleValue(h.rcode);
    LowByteDigits(f as int, h.ra, h.z as int % 8, h.rcode as int % 16);
  }

  /** Each field of byte 2 reads back from the byte FlagsHigh packs. */
  lemma FlagsHighFields(h: Header)
    ensures (FlagsHigh(h) & 0x80 != 0) == h.qr
    ensures (FlagsHigh(h) >> OpcodeShift) & OpcodeMask == h.opcode & OpcodeMask
    ensures (FlagsHigh(h) & AaMask != 0) == h.aa
    ensures (FlagsHigh(h) & TcMask != 0) == h.tc
    ensures (FlagsHigh(h) & RdMask != 0) == h.rd
  {
  }

  /** Each field of byte 3 reads back from the byte FlagsLow packs. */
  lemma FlagsLowFields(h: Header)
    ensures (FlagsLow(h) & 0x80 != 0) == h.ra
    ensures (FlagsLow(h) >> 4) & 0x07 == h.z & 0x07
    ensures FlagsLow(h) & 0x0F == h.rcode & 0x0F
  {
  }

  /**
   * Decoding the wire image of any header gives that header back with its
   * multi-bit fields masked: no field's value reaches a neighbour's bits.
   */
  lemma ParseAfterEncode(h: Header)
    ensures ParseDnsHeader(HeaderBytes(h)) == Ok(Masked(h))
  {
  }

  /** For a header whose fields are in range, encoding then decoding is the identity. */
  lemma RoundTrip(h: Header)
    requires InRange(h)
    ensures ParseDnsHeader(HeaderBytes(h)) == Ok(h)
  {
    ParseAfterEncode(h);
  }

  /** Encoding a decoded header gives back the first HeaderSize bytes it came from. */
  lemma EncodeAfterParse(buf: seq<byte>)
    requires |buf| >= HeaderSize
    ensures HeaderBytes(ParseDnsHeader(buf).value) == buf[..HeaderSize]
  {
  }

  /** Only the bits a multi-bit field holds on the wire are written. */
  lemma EncodeMasks(h: Header)
    ensures HeaderBytes(h) == HeaderBytes(Masked(h))
  {
  }

  /** Two buffers decode to the same header exactly when their first HeaderSize bytes agree. */
  lemma ParseInjective(a: seq<byte>, b: seq<byte>)
    requires |a| >= HeaderSize && |b| >= HeaderSize
    ensures ParseDnsHeader(a) == ParseDnsHeader(b) <==> a[..HeaderSize] == b[..HeaderSize]
  {
    EncodeAfterParse(a);
    EncodeAfterParse(b);
  }

  /** Two in-range headers with the same wire image are the same header. */
  lemma EncodeInjective(g: Header, h: Header)
    requires InRange(g) && InRange(h)
    ensures HeaderBytes(g) == HeaderBytes(h) <==> g == h
  {
    RoundTrip(g);
    RoundTrip(h);
  }

  // ---------------------------------------------------------------------
  // The cases exercised by the program's own tests

  /** A one-byte buffer is too short to hold a header. */
  lemma ShortBufferFails()
    ensures ParseDnsHeader([0x01]) == Err(BufferTooShort)
  {
  }

  /** A query with only RD set, RCODE 2 and four distinct counts. */
  lemma ParseSampleHeader()
    ensures ParseDnsHeader([0x00, 0x00, 0x01, 0x02, 0x01, 0x02, 0x03, 0x04, 0x05, 0x06, 0x07, 0x08])
         == Ok(Header(
              id := 0, qr := false, opcode := 0, aa := false, tc := false, rd := true,
              ra := false, z := 0, rcode := 2,
              qdCount := 0x0102, anCount := 0x0304, nsCount := 0x0506, arCount := 0x0708))
  {
  }

  /** BoolToUint16 maps true to 1 and false to 0. */
  lemma BoolToUint16Cases()
    ensures BoolToUint16(true) == 1 && BoolToUint16(false) == 0
  {
  }
}
