# DNS header codec

A model of the header codec of a small DNS server written in Go. The server
receives a UDP datagram and decodes its fixed 12-byte header (section 4.1.1
of RFC 1035). It then marks that header as a response and packs it back into
the 12 bytes of the reply header.

The project has three modules:

- `Wire` (`wire.dfy`) holds big-endian 16-bit reads and writes. They stand for
  `binary.BigEndian.Uint16` and `binary.Write` into a `bytes.Buffer`.
- `Models` (`models.dfy`) holds the `Header` record of `app/models.go`,
  lines 13-27. Its thirteen fields keep the Go types: `bv16` for ID and the
  four counts, `bool` for the one-bit flags, and a whole `bv8` byte for
  OPCODE, Z and RCODE. A byte can hold values wider than the field, so
  out-of-range values can be represented. `InRange` says that OPCODE ≤ 15,
  Z ≤ 7 and RCODE ≤ 15.
- `DnsServer` (`dns_server.dfy`) holds the codec of `app/main.go`:
  - the mask and shift constants;
  - `ParseDnsHeader`, a pure function from a byte sequence to a
    `Result<Header>`;
  - `BoolToUint16`;
  - `BuildResponse`, an imperative method.

`BuildResponse` takes a `HeaderRef`, the model of Go's `*Header`. It sets the
caller's QR flag in place. It appends the ID to a byte buffer, then builds
the 16-bit flags word by successive ORs and appends it, then appends the
four counts. Its contract ties the new state and the bytes to `HeaderBytes`,
the byte-level layout of the header. The lemmas relate `HeaderBytes` and `ParseDnsHeader` to each
other and to an arithmetic description of the field positions:

- decoding an encoded header gives it back, masked;
- encoding a decoded header gives back the first 12 bytes;
- both directions are injective where they should be.

Z is 3 bits wide in the code (`app/main.go`, lines 81 and 119). The model
follows the code, not the "1 bit" comment on the field in `app/models.go`.
The encoder copies Z's low three bits into the reply. It does not force Z to
0, and the model does the same.

## Model

| member | source | states |
|---|---|---|
| `Wire.Uint16` | app/main.go:74 | The big-endian read puts the first byte in the high 8 bits and the second byte in the low 8 bits. |
| `Wire.Uint16Value` | app/main.go:83-86 | The value read from bytes hi, lo is the number hi * 256 + lo. |
| `Wire.PutUint16` | app/main.go:122-127 | A big-endian write of a 16-bit value appends exactly two bytes, and reading them back gives the value. |
| `Wire.PutUint16Value` | app/main.go:124-127 | The two bytes written are the base-256 digits of the value, high digit first. |
| `Wire.PutAfterRead` | app/main.go:83-86 | Writing back the value read from two bytes reproduces those two bytes. |
| `DnsServer.FieldMasksPartition` | app/main.go:10-23 | The masks of AA, TC and RD are the single bits 2, 1 and 0. The OPCODE mask shifted by OPCODE_Shift covers bits 6-3. With the QR bit, these four cover byte 2 without overlapping. The RA bit, the shifted Z mask and the RCODE mask cover byte 3 in the same way. |
| `DnsServer.ParseDnsHeader` | app/main.go:67-90 | Decoding fails exactly when the buffer is shorter than 12 bytes. Every decoded header has OPCODE ≤ 15, Z ≤ 7 and RCODE ≤ 15. |
| `DnsServer.BoolToUint16` | app/main.go:132-137 | The result is at most 1, and it is 1 exactly when the flag is set. |
| `DnsServer.HeaderBytes` | app/main.go:97-129 | The reply header is always exactly 12 bytes. |
| `DnsServer.FlagsHighFields` | app/main.go:105-115 | QR, AA, TC and RD read back from `FlagsHigh`, the high byte of the flags word, through the decoder's masks, and OPCODE reads back as its low 4 bits. |
| `DnsServer.FlagsLowFields` | app/main.go:116-122 | RA reads back from `FlagsLow`, the low byte of the flags word, and Z and RCODE read back as their low 3 and 4 bits. |
| `DnsServer.FlagsHighValue` | app/main.go:105-115 | As a number, the high flags byte is 128·QR + 8·(OPCODE mod 16) + 4·AA + 2·TC + RD. |
| `DnsServer.FlagsLowValue` | app/main.go:116-122 | As a number, the low flags byte is 128·RA + 16·(Z mod 8) + (RCODE mod 16). |
| `DnsServer.HeaderRef.constructor` | app/main.go:92 | The reference holds the header it is given. It stands for the caller's `*Header`, which `buildResponse` updates in place. |
| `DnsServer.Masked` | app/main.go:109-121 | Masking leaves every header in range. It is the identity on a header that is already in range. It changes no field other than OPCODE, Z and RCODE, and those become their values mod 16, 8 and 16. |
| `DnsServer.BuildResponse` | app/main.go:92-130 | The caller's header becomes the old header with QR set, and nothing else in it changes. The response is the 12-byte encoding of that header, and the high bit of byte 2 is 1. Decoding the response gives the updated header with OPCODE, Z and RCODE masked. |
| `DnsServer.ParseIgnoresTrailingBytes` | app/main.go:73-87 | Bytes at index 12 and beyond do not change the decoded header. |
| `DnsServer.ParseFieldPositions` | app/main.go:73-87 | ID and the counts are the big-endian numbers at offsets 0, 4, 6, 8 and 10. QR is bit 7, OPCODE bits 6-3, and AA, TC, RD bits 2, 1, 0 of byte 2. RA is bit 7, Z bits 6-4 and RCODE bits 3-0 of byte 3. All are stated in integer arithmetic. |
| `DnsServer.EncodeFieldPositions` | app/main.go:105-127 | Each field is written at its fixed position, stated as a number: byte 2 is 128·QR + 8·(OPCODE mod 16) + 4·AA + 2·TC + RD; byte 3 is 128·RA + 16·(Z mod 8) + (RCODE mod 16); the 16-bit fields are big-endian. |
| `DnsServer.ParseAfterEncode` | app/main.go:92-130 | Decoding the encoding of any header gives that header with OPCODE, Z and RCODE reduced to 4, 3 and 4 bits. An out-of-range value never reaches another field. |
| `DnsServer.RoundTrip` | app/main.go:92-130 | For a header in range, decoding its encoding gives exactly that header. |
| `DnsServer.EncodeAfterParse` | app/main.go:67-90 | Encoding a decoded header reproduces the first 12 bytes of the buffer. No header bit is lost or moved. |
| `DnsServer.EncodeMasks` | app/main.go:109-121 | Only the low 4, 3 and 4 bits of OPCODE, Z and RCODE reach the wire. Encoding a header and encoding its masked form give the same bytes. |
| `DnsServer.ParseInjective` | app/main.go:67-90 | Two buffers decode to the same header if and only if their first 12 bytes agree. |
| `DnsServer.EncodeInjective` | app/main.go:97-129 | Two in-range headers have the same encoding if and only if they are equal. |
| `DnsServer.ShortBufferFails` | app/main_test.go:16-19 | The one-byte buffer `01` fails to decode. |
| `DnsServer.ParseSampleHeader` | app/main_test.go:21-47 | The bytes `00 00 01 02 01 02 03 04 05 06 07 08` decode to ID 0, RD set, RCODE 2, every other flag clear, and counts 0x0102, 0x0304, 0x0506, 0x0708. |
| `DnsServer.BoolToUint16Cases` | app/main_test.go:64-88 | true maps to 1 and false to 0. |

## Left out

- `main` (`app/main.go`, lines 25-65) is not modelled. It resolves the UDP address, listens on the socket, and runs the receive/decode/reply/send loop with logging. This is I/O.
- `ParseDnsHeader` does not model the text of the "buffer too short" error. The model keeps only the failure itself, as the error value `BufferTooShort`.
- `ParseDnsHeader` returns the header as a value, not as a fresh `*Header`. Nothing else holds the new object, so no aliasing is lost.
- `BuildResponse` has no error result. The Go function's error result is always nil, and the ignored errors of `binary.Write` cannot occur for an in-memory buffer.
- `BuildResponse` cannot receive a nil header, because `HeaderRef` is a non-null reference. The Go function would crash on a nil pointer at line 94.
- The files modelled here contain no code for domain-name labels, compression pointers, or question and answer records, so none of them is modelled.
