/**
 * The parts of the library's error taxonomy that the two codecs raise.
 * Each error carries the length that caused it.
 */
module Errors {

  /** Decode-time errors: the input is shorter than the given minimum length. */
  datatype ReadError =
    | UnexpectedEndOfSlice(expectedMinLen: nat)

  /** Construction-time errors about a caller-supplied value. */
  datatype ValueError =
    | Ipv6ExtensionPayloadTooSmall(len: nat)
    | Ipv6ExtensionPayloadTooLarge(len: nat)
    | Ipv6ExtensionPayloadLengthUnaligned(len: nat)
    | Ipv6PayloadLengthTooLarge(len: nat)
}
