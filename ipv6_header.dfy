/**
 * The fields of the fixed IPv6 header (RFC 8200, section 3) that the
 * ICMPv6 checksum borrows for its pseudo-header: the two addresses.
 */
module Ipv6 {
  import opened ByteOrder

  datatype Ipv6Header = Ipv6Header(source: Bytes16, destination: Bytes16)
}
