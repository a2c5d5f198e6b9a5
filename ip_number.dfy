/**
 * The IP protocol numbers (IANA "Assigned Internet Protocol Numbers") that
 * the two codecs refer to.
 */
module IpNumber {
  import opened ByteOrder

  const IPV6_HOP_BY_HOP: u8 := 0
  const IPV6_ROUTE: u8 := 43
  const ENCAPSULATING_SECURITY_PAYLOAD: u8 := 50
  const AUTHENTICATION_HEADER: u8 := 51
  const IPV6_ICMP: u8 := 58
  const IPV6_DEST_OPTIONS: u8 := 60
  const MOBILITY: u8 := 135
  const HIP: u8 := 139
  const SHIM6: u8 := 140
}
