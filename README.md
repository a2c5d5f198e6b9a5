# IPv6 extension header and ICMPv6 header codecs, modelled in Dafny

This project models two byte-level codecs of the etherparse packet library:

- **The generic IPv6 extension header** (RFC 8200, section 4). Byte 0 is the next header. Byte 1 ("Hdr Ext Len") counts 8-octet units beyond the first 8 octets. The payload follows. `Ipv6RawExtensionHeader` is a class. It holds a next-header byte, a length byte and a fixed 2046-byte payload buffer (`array<u8>`). `NewRaw` and `SetPayload` check the payload length. `Ipv6RawExtensionHeaderSlice` is a datatype view over `seq<u8>`. It is built by a validating `FromSlice`, or by a `FromSliceUnchecked` method whose caller must guarantee both length checks.
- **The ICMPv6 header** (RFC 4443). The closed message-type enums with raw fallbacks are datatypes. `from_bytes` and `to_bytes` are functions. The owned header writes its 8 bytes as a `seq<u8>`. The 8-byte view decodes fields on demand. The checksum of RFC 4443, section 2.3 is the RFC 1071 Internet checksum over the IPv6 pseudo-header, the header and the payload.

Files: `results.dfy` (Result/Option), `errors.dfy` (read and value errors), `byte_order.dfy` (u8/u16/u32 and big-endian conversion), `checksum.dfy` (RFC 1071 word sum, end-around-carry fold and complement), `ip_number.dfy` (protocol numbers), `icmp_echo.dfy` (echo identifier and sequence number), `ipv6_header.dfy` (the two addresses of the IPv6 header), `icmp6.dfy`, `ipv6_raw_extension.dfy`.

Two properties of the library that a reader might not expect:

- Encoding a decoded ICMPv6 type is **not** the identity on every `(type, code, four_bytes)` triple. Destination Unreachable and Time Exceeded always encode four zero bytes. This includes a raw unreachable reason, whose stored bytes are dropped (`icmp6.rs:396-397`). Packet Too Big and Echo always encode code 0. `EncodeAfterDecode` states exactly what is kept. `EncodeAfterDecodeDropsUnreachableBytes` gives an input on which the identity fails. `DecodeAfterEncode` proves the other direction for canonical values.
- The checksum length guard uses the ICMPv4 header size, as the code does. Its value is 8, the same as the ICMPv6 header size.

## Model

| member | source | states |
|---|---|---|
| `Icmp6.DestUnreachable.FromBytes` | src/transport/icmp6.rs:154-166 | the decoded reason's code is the input code; it is `Raw` exactly for codes above 6, and then keeps the four bytes |
| `Icmp6.DestUnreachable.Code` | src/transport/icmp6.rs:171-183 | every named reason has one of the codes 0-6 |
| `Icmp6.DestUnreachable.ToBytes` | src/transport/icmp6.rs:187-199 | the code is `Code()`; the four bytes are the stored ones for `Raw` and zeros otherwise |
| `Icmp6.DestUnreachableBytesRoundTrip` | src/transport/icmp6.rs:154-199 | encoding a decoded reason gives `(c, f)` for codes above 6 and `(c, [0;4])` otherwise |
| `Icmp6.DestUnreachableDecodeEncode` | src/transport/icmp6.rs:154-199 | decoding an encoded reason gives it back, unless it is `Raw` with a code 0-6 |
| `Icmp6.TimeExceededCode.FromU8` | src/transport/icmp6.rs:214-234 | `u8::from` inverts it for every byte; 0 and only 0 gives HopLimitExceeded, 1 and only 1 gives FragmentReassemblyTimeExceeded |
| `Icmp6.TimeExceededCodeDecodeEncode` | src/transport/icmp6.rs:214-234 | converting a code to a byte and back gives it back, unless it is `Raw` with code 0 or 1 |
| `Icmp6.ParameterProblemCode.FromU8` | src/transport/icmp6.rs:244-251 | `u8::from` inverts it for every byte |
| `Icmp6.ParameterProblemCodeRoundTrip` | src/transport/icmp6.rs:244-260 | converting a code to a byte and back gives it back |
| `Icmp6.Icmp6Type.FromBytes` | src/transport/icmp6.rs:367-386 | total on all byte triples; the encoded type byte is the input type; `Raw` exactly for types outside {1,2,3,4,128,129} |
| `Icmp6.Icmp6Type.ToBytes` | src/transport/icmp6.rs:392-404 | `Raw` encodes its three fields verbatim; every named variant encodes one of the six known types |
| `Icmp6.FromBytesClassifies` | src/transport/icmp6.rs:367-386 | each known type selects its own variant whatever the code and bytes; unknown types give `Raw{t,c,f}` |
| `Icmp6.EncodeAfterDecode` | src/transport/icmp6.rs:367-404 | decode then encode keeps the type; it keeps the code except types 2, 128 and 129 (code 0); it keeps the four bytes except types 1 and 3 (zeros); mtu and pointer are the big-endian u32 of the four bytes |
| `Icmp6.DecodeAfterEncode` | src/transport/icmp6.rs:367-404 | `from_bytes(to_bytes(v)) == v` for every canonical `v` |
| `Icmp6.NormalFormIsCanonical` | src/transport/icmp6.rs:367-404 | decode, encode and decode again always gives a canonical value |
| `Icmp6.EncodeAfterDecodeIsIdempotent` | src/transport/icmp6.rs:367-404 | a second decode-encode changes nothing |
| `Icmp6.KnownVectors` | src/transport/icmp6.rs:367-404 | (1,4,0000) decodes to Port and back; (2,0,00 00 05 D0) gives mtu 1488; type 200 passes through as `Raw` |
| `Icmp6.EncodeAfterDecodeDropsUnreachableBytes` | src/transport/icmp6.rs:396-397 | (1,7,01 02 03 04) does not survive decode then encode |
| `Icmp6.Icmp6Header.New` | src/transport/icmp6.rs:425-430 | keeps the type; the written checksum field is zero |
| `Icmp6.Icmp6Header.HeaderLen` | src/transport/icmp6.rs:421-423 | equals the number of bytes `Write` emits (8) |
| `Icmp6.Icmp6Header.Write` | src/transport/icmp6.rs:433-446 | 8 bytes: type, code, big-endian checksum, then the four bytes of `to_bytes` |
| `Icmp6.Icmp6Header.CalcChecksumIpv6` | src/transport/icmp6.rs:448-472 | fails with `Ipv6PayloadLengthTooLarge(len)` exactly when `len > u32::MAX - 8` (the ICMPv4 header size, 8, as written); a successful checksum is below 0xFFFF (the pseudo-header's next-header word keeps the sum nonzero), and `ChecksumValidates` with `ChecksumIsOnlyValidValue` fix its value |
| `Icmp6.ChecksumIgnoresStoredChecksum` | src/transport/icmp6.rs:448-472 | the result never depends on the stored checksum |
| `Icmp6.ChecksumValidates` | src/transport/icmp6.rs:448-472 | writing the computed checksum into the header makes the one's-complement sum of pseudo-header, header and payload 0xFFFF |
| `Icmp6.ChecksumIsOnlyValidValue` | src/transport/icmp6.rs:448-472 | any checksum below 0xFFFF that passes the receiver's all-ones test is the computed one |
| `Icmp6.Icmp6Header.CalcChecksumIpv6Rfc` | src/transport/icmp6.rs:448-472 | the same error, exactly when `len > u32::MAX - 8`; a successful checksum, over the RFC 8200 pseudo-header with a 32-bit length, is below 0xFFFF and passes `ChecksumRfcValidates` |
| `Icmp6.ChecksumRfcValidates` | src/transport/icmp6.rs:448-472 | the receiver's all-ones test holds for the RFC 8200 pseudo-header |
| `Icmp6.ChecksumAgreesBelow64K` | src/transport/icmp6.rs:456-465 | below 65536 message bytes the truncated and the 32-bit length give the same checksum |
| `Icmp6.ChecksumDiffersFrom64K` | src/transport/icmp6.rs:450-465 | for message lengths in [65536, 0xFFFF0000) the two checksums differ |
| `Icmp6.Icmp6Header.FromSlice` | src/transport/icmp6.rs:476-481 | fails with `UnexpectedEndOfSlice(8)` exactly below 8 bytes; otherwise returns `slice[8..]`, the big-endian checksum of bytes 2-3 and a type that encodes byte 0 |
| `Icmp6.WriteThenFromSlice` | src/transport/icmp6.rs:433-481 | reading back `Write()` followed by `rest` gives the header with its type normalised, and exactly `rest`; a canonical header comes back unchanged |
| `Icmp6.Icmp6HeaderSlice.FromSlice` | src/transport/icmp6.rs:493-512 | fails with `UnexpectedEndOfSlice(8)` exactly below 8 bytes; otherwise the view is exactly the first 8 bytes |
| `Icmp6.Icmp6HeaderSlice.IcmpType` | src/transport/icmp6.rs:523-539 | decodes bytes 0, 1 and 4-7; the decoded type encodes byte 0 |
| `Icmp6.Icmp6HeaderSlice.IcmpCode` | src/transport/icmp6.rs:541-550 | returns the type byte (byte 0), as written |
| `Icmp6.Icmp6HeaderSlice.IcmpCodeIntended` | src/transport/icmp6.rs:541-550 | returns byte 1, which is the decoded code for every type except 2, 128 and 129 |
| `Icmp6.IcmpCodeReturnsType` | src/transport/icmp6.rs:541-550 | on an echo request with code 0, `icmp_code` returns 128 |
| `Icmp6.Icmp6HeaderSlice.IcmpChksum` | src/transport/icmp6.rs:552-561 | the checksum's big-endian bytes are bytes 2-3 |
| `Icmp6.Icmp6HeaderSlice.ToHeader` | src/transport/icmp6.rs:516-521 | the header writes back bytes 2-3 exactly; bytes 0-3 unless the type forces code 0; bytes 4-7 unless the type forces zeros |
| `IcmpEcho.EchoBytesRoundTrip` | src/transport/icmp6.rs:382-383 | encoding a decoded echo header gives back its four bytes |
| `IcmpEcho.EchoHeaderRoundTrip` | src/transport/icmp6.rs:401-402 | decoding an encoded echo header gives it back |
| `ByteOrder.U16BeRoundTrip` | src/transport/icmp6.rs:433-446 | two bytes read as a big-endian u16 (`from_be_bytes`) and written back (`to_be_bytes`, as for the checksum field) are the same two bytes |
| `ByteOrder.U32BeRoundTrip` | src/transport/icmp6.rs:372-380 | `u32::to_be_bytes(u32::from_be_bytes(b)) == b` for the mtu and pointer fields |
| `Checksum.InternetChecksum` | src/transport/icmp6.rs:461-470 | the checksum added to the word sum of the data gives a multiple of 0xFFFF (one's-complement negative zero), and it is 0xFFFF exactly when the word sum is zero |
| `Checksum.Fold` | src/transport/icmp6.rs:469 | the folded sum fits 16 bits, is congruent to the input modulo 0xFFFF, and is zero only for zero |
| `Checksum.FoldDistinguishes` | src/transport/icmp6.rs:461-470 | adding a word sum that is not a multiple of 0xFFFF always changes the folded sum |
| `Checksum.ChecksumIsUnique` | src/transport/icmp6.rs:461-470 | for a nonzero word sum, the checksum is the only value below 0xFFFF that completes the sum to a multiple of 0xFFFF |
| `Checksum.ChecksumValidates` | src/transport/icmp6.rs:461-470 | a checksum stored as a word at an even offset makes the whole data sum to 0xFFFF |
| `Ipv6RawExtension.HeaderTypeSupported` | src/internet/ipv6_raw_extension.rs:61-64 | true exactly for Hop-by-Hop, Routing, Destination Options, Mobility, HIP and Shim6; never for AH or ESP |
| `Ipv6RawExtension.PayloadLengthError` | src/internet/ipv6_raw_extension.rs:78-86 | too small below 6, then too large above 2046, then unaligned when `(len+2)%8 != 0`, each carrying `len`; an accepted length is `6 + 8*((len-6)/8)` with `(len-6)/8 <= 255` |
| `Ipv6RawExtension.LengthByteAccepted` | src/internet/ipv6_raw_extension.rs:284-289 | for every length byte `b`, `(b+1)*8-2` passes all three checks and encodes back to `b`, so `to_header`'s `unwrap` cannot fail |
| `Ipv6RawExtension.CopyInto` | src/internet/ipv6_raw_extension.rs:92 | the buffer front becomes the bytes; the rest of the buffer is unchanged |
| `Ipv6RawExtension.Ipv6RawExtensionHeader.Zeroed` | src/internet/ipv6_raw_extension.rs:87-91 | a fresh 2046-byte zeroed buffer with the given next header and length byte |
| `Ipv6RawExtension.Ipv6RawExtensionHeader.NewRaw` | src/internet/ipv6_raw_extension.rs:78-95 | fails exactly with the length error; otherwise `header_length = (len-6)/8`, the next header is kept and `payload()` is exactly the input |
| `Ipv6RawExtension.Ipv6RawExtensionHeader.Payload` | src/internet/ipv6_raw_extension.rs:111-113 | `6 + 8*header_length` bytes, always a length the checks accept |
| `Ipv6RawExtension.Ipv6RawExtensionHeader.SetPayload` | src/internet/ipv6_raw_extension.rs:122-135 | the same checks in the same order; on an error nothing changes; on success `payload()` is the new bytes, the next header is untouched and the buffer beyond the payload keeps its bytes |
| `Ipv6RawExtension.Ipv6RawExtensionHeader.HeaderLen` | src/internet/ipv6_raw_extension.rs:164-166 | `2 + payload().len() == (header_length+1)*8`, a multiple of 8 in [8, 2048] |
| `Ipv6RawExtension.Ipv6RawExtensionHeader.Write` | src/internet/ipv6_raw_extension.rs:157-161 | `[next_header, header_length] ++ payload()`, `header_len()` bytes long, with `(byte1+1)*8` equal to the length |
| `Ipv6RawExtension.Ipv6RawExtensionHeader.Equals` | src/internet/ipv6_raw_extension.rs:43-48 | two headers are equal exactly when their wire forms are equal |
| `Ipv6RawExtension.Ipv6RawExtensionHeader.FromSlice` | src/internet/ipv6_raw_extension.rs:98-106 | fails exactly as the view does; otherwise the new header writes exactly `slice[..n]` and the rest is `slice[n..]`, `n = (slice[1]+1)*8` |
| `Ipv6RawExtension.Ipv6RawExtensionHeaderSlice.FromSlice` | src/internet/ipv6_raw_extension.rs:197-225 | `UnexpectedEndOfSlice(8)` below 8 bytes, then `UnexpectedEndOfSlice(n)` below `n = (slice[1]+1)*8`; otherwise the view is exactly `slice[..n]` |
| `Ipv6RawExtension.Ipv6RawExtensionHeaderSlice.FromSliceUnchecked` | src/internet/ipv6_raw_extension.rs:227-246 | when the caller guarantees both checks, the same view as `from_slice` |
| `Ipv6RawExtension.Ipv6RawExtensionHeaderSlice.Slice` | src/internet/ipv6_raw_extension.rs:250-252 | the whole header, a multiple of 8 bytes in [8, 2048] |
| `Ipv6RawExtension.ViewFields` | src/internet/ipv6_raw_extension.rs:258-277 | for a view built by `from_slice`, `next_header()` is `slice[0]` and `payload()` is `slice[2..n]`, where `n = (slice[1]+1)*8` |
| `Ipv6RawExtension.Ipv6RawExtensionHeaderSlice.Payload` | src/internet/ipv6_raw_extension.rs:270-277 | the view is next header, length byte, then this payload; its length always passes the owned header's checks |
| `Ipv6RawExtension.Ipv6RawExtensionHeaderSlice.ToHeader` | src/internet/ipv6_raw_extension.rs:284-289 | never fails; the owned header has the view's next header and payload and writes exactly the view |
| `Ipv6RawExtension.ViewOfWritten` | src/internet/ipv6_raw_extension.rs:197-225 | the view over `write()` followed by any bytes is exactly `write()`, with the same next header and payload |
| `Ipv6RawExtension.ViewLengthExamples` | src/internet/ipv6_raw_extension.rs:197-225 | `[6,0]+6 bytes` gives a 6-byte payload; 7 bytes need 8; length byte 1 with 10 bytes needs 16 |
| `Ipv6RawExtension.WriteThenFromSlice` | src/internet/ipv6_raw_extension.rs:98-106 | `from_slice(write() ++ rest)` succeeds with a header equal to the original and exactly `rest` |

## Findings

| source | as written | input that shows it | evidently intended | confidence | as-written member | corrected member |
|---|---|---|---|---|---|---|
| src/transport/icmp6.rs:541-550 | `icmp_code` returns byte 0 (the type), although its documentation says it returns the code | the view `[128,0,0,0,0,0,0,0]` (echo request, code 0): `icmp_code` returns 128 | return byte 1, the code | high; not executed | `Icmp6.Icmp6HeaderSlice.IcmpCode` (shown by `Icmp6.IcmpCodeReturnsType`) | `Icmp6.Icmp6HeaderSlice.IcmpCodeIntended` |
| src/transport/icmp6.rs:449-465 | the guard accepts payloads up to `u32::MAX - 8` bytes, but the pseudo-header length is added as `msg_len as u16`, so the high half of the length is lost | any payload of 65528 bytes: the length word is 0 instead of the 32-bit length 0x00010000 of RFC 8200, section 8.1, and the checksum differs | add the 32-bit upper-layer packet length | medium; not executed | `Icmp6.Icmp6Header.CalcChecksumIpv6` (shown by `Icmp6.ChecksumDiffersFrom64K`) | `Icmp6.Icmp6Header.CalcChecksumIpv6Rfc` (with `Icmp6.ChecksumRfcValidates` and `Icmp6.ChecksumAgreesBelow64K`) |

## Left out

- `Ipv6RawExtensionHeader::read` (src/internet/ipv6_raw_extension.rs:138-154) reads from an `io::Read`. I/O is not modelled. The writer side of both `write` methods is not modelled either: `write` is a function returning the bytes, and I/O write errors do not arise.
- The `Debug` impl, the unused ICMPv6 type constants (src/transport/icmp6.rs:26-63) and `IPV6_MAX_NUM_HEADER_EXTENSIONS` are not modelled. They are formatting, or constants that nothing in the core uses.
- `Ipv6RawExtensionHeaderSlice::header_type_supported` (src/internet/ipv6_raw_extension.rs:192-194) and `Icmp6HeaderSlice::slice` (src/transport/icmp6.rs:565-567) have no members of their own. They only delegate to `HeaderTypeSupported` or return the view's bytes.
- Raw-pointer reads (`from_raw_parts`, `get_unchecked`, `get_unchecked_be_u16`) are modelled as sequence indexing and slicing under the view's `Valid()` invariant. Undefined behaviour when the unchecked constructor's precondition is broken is not modelled; Dafny makes callers prove it.
- The library's `Sum16BitWords` accumulator is not part of this model. Its result is specified as the RFC 1071 sum of big-endian words, including its host-endian `to_be()` handling. Padding an odd trailing byte with a zero byte is an assumption about that accumulator.
- `IcmpEchoHeader` is not part of this model. It is modelled as an identifier and a sequence number, each a big-endian u16, as RFC 4443 sections 4.1 and 4.2 lay them out.
- `Ipv6Header` is not part of this model beyond its 16-byte source and destination addresses.
- Lengths are unbounded naturals. `usize` overflow of `payload.len() + 2`, and of the checksum's running sum, cannot happen for real slices and is not modelled.
- `Ipv6RawExtensionHeader` is a `Clone` value in the library. The model is a class with reference semantics. Cloning is not modelled, and no member shares a header between two owners.
