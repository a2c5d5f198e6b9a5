/**
 * The ICMPv6 header codec of RFC 4443: the 8-byte header of section 2.1
 * (type, code, checksum, four type-specific bytes), the message types of
 * sections 3.1-3.4 and 4.1-4.2 with a raw fallback for every other type,
 * and the checksum of section 2.3 over the IPv6 pseudo-header.
 */
module Icmp6 {
  import opened ByteOrder
  import opened Results
  import opened Errors
  import opened IcmpEcho
  import Ipv6
  import IpNumber
  import Checksum

  const TYPE_DST_UNREACH: u8 := 1
  const TYPE_PACKET_TOO_BIG: u8 := 2
  const TYPE_TIME_EXCEEDED: u8 := 3
  const TYPE_PARAM_PROB: u8 := 4
  const TYPE_ECHO_REQUEST: u8 := 128
  const TYPE_ECHO_REPLY: u8 := 129

  const CODE_DST_UNREACH_NOROUTE: u8 := 0
  const CODE_DST_UNREACH_PROHIBITED: u8 := 1
  const CODE_DST_UNREACH_BEYONDSCOPE: u8 := 2
  const CODE_DST_UNREACH_ADDR: u8 := 3
  const CODE_DST_UNREACH_PORT: u8 := 4
  const CODE_DST_UNREACH_SOURCE_ADDRESS_FAILED_POLICY: u8 := 5
  const CODE_DST_UNREACH_REJECT_ROUTE_TO_DEST: u8 := 6

  const CODE_TIME_EXCEEDED_HOP_LIMIT_EXCEEDED: u8 := 0
  const CODE_TIME_EXCEEDED_FRAGMENT_REASSEMBLY_TIME_EXCEEDED: u8 := 1

  /** Serialized size of the ICMPv6 header (without the message body). */
  const SERIALIZED_SIZE: nat := 8

  /** Serialized size of the ICMPv4 header, which the checksum length guard borrows. */
  const ICMP4_SERIALIZED_SIZE: nat := 8

  /** Largest payload `CalcChecksumIpv6` accepts. */
  const MAX_CHECKSUM_PAYLOAD_LENGTH: nat := U32_MAX - ICMP4_SERIALIZED_SIZE

  // ---------------------------------------------------------------------
  // Destination Unreachable codes (RFC 4443, section 3.1)
  // ---------------------------------------------------------------------

  datatype DestUnreachable =
    | Raw(code: u8, fourBytes: Bytes4)
    | NoRoute
    | Prohibited
    | BeyondScope
    | Address
    | Port
    | SourceAddressFailedPolicy
    | RejectRoute
  {
    /** Classifies a code byte; unknown codes keep the code and the four bytes. */
    static function FromBytes(code: u8, fourBytes: Bytes4): (d: DestUnreachable)
      ensures d.Code() == code
      ensures d.Raw? <==> code > CODE_DST_UNREACH_REJECT_ROUTE_TO_DEST
      ensures d.Raw? ==> d.fourBytes == fourBytes
    {
      match code
      case 0 => NoRoute
      case 1 => Prohibited
      case 2 => BeyondScope
      case 3 => Address
      case 4 => Port
      case 5 => SourceAddressFailedPolicy
      case 6 => RejectRoute
      case _ => DestUnreachable.Raw(code, fourBytes)
    }

    /** The code byte (second header byte) of this reason. */
    function Code(): (c: u8)
      ensures !Raw? ==> c <= CODE_DST_UNREACH_REJECT_ROUTE_TO_DEST
    {
      match this
      case Raw(code, _) => code
      case NoRoute => CODE_DST_UNREACH_NOROUTE
      case Prohibited => CODE_DST_UNREACH_PROHIBITED
      case BeyondScope => CODE_DST_UNREACH_BEYONDSCOPE
      case Address => CODE_DST_UNREACH_ADDR
      case Port => CODE_DST_UNREACH_PORT
      case SourceAddressFailedPolicy => CODE_DST_UNREACH_SOURCE_ADDRESS_FAILED_POLICY
      case RejectRoute => CODE_DST_UNREACH_REJECT_ROUTE_TO_DEST
    }

    /** The code byte and the four trailing bytes; named reasons send zeros. */
    function ToBytes(): (r: (u8, Bytes4))
      ensures r.0 == Code()
      ensures r.1 == if Raw? then fourBytes else ZERO4
    {
      match this
      case Raw(code, fourBytes) => (code, fourBytes)
      case NoRoute => (CODE_DST_UNREACH_NOROUTE, ZERO4)
      case Prohibited => (CODE_DST_UNREACH_PROHIBITED, ZERO4)
      case BeyondScope => (CODE_DST_UNREACH_BEYONDSCOPE, ZERO4)
      case Address => (CODE_DST_UNREACH_ADDR, ZERO4)
      case Port => (CODE_DST_UNREACH_PORT, ZERO4)
      case SourceAddressFailedPolicy => (CODE_DST_UNREACH_SOURCE_ADDRESS_FAILED_POLICY, ZERO4)
      case RejectRoute => (CODE_DST_UNREACH_REJECT_ROUTE_TO_DEST, ZERO4)
    }
  }

  /** Encoding a decoded reason keeps the code, and the four bytes of unknown codes only. */
  lemma DestUnreachableBytesRoundTrip(code: u8, fourBytes: Bytes4)
    ensures DestUnreachable.FromBytes(code, fourBytes).ToBytes()
         == if code > CODE_DST_UNREACH_REJECT_ROUTE_TO_DEST then (code, fourBytes) else (code, ZERO4)
  {
  }

  /** Decoding an encoded reason gives it back unless it is a raw value with a known code. */
  lemma DestUnreachableDecodeEncode(d: DestUnreachable)
    requires d.Raw? ==> d.code > CODE_DST_UNREACH_REJECT_ROUTE_TO_DEST
    ensures DestUnreachable.FromBytes(d.ToBytes().0, d.ToBytes().1) == d
  {
  }

  // ---------------------------------------------------------------------
  // Time Exceeded and Parameter Problem codes (RFC 4443, sections 3.3, 3.4)
  // ---------------------------------------------------------------------

  datatype TimeExceededCode =
    | Raw(code: u8)
    | HopLimitExceeded
    | FragmentReassemblyTimeExceeded
  {
    /** `From<u8> for Icmp6TimeExceededCode` */
    static function FromU8(code: u8): (t: TimeExceededCode)
      ensures t.ToU8() == code
      ensures t == HopLimitExceeded <==> code == CODE_TIME_EXCEEDED_HOP_LIMIT_EXCEEDED
      ensures t == FragmentReassemblyTimeExceeded
          <==> code == CODE_TIME_EXCEEDED_FRAGMENT_REASSEMBLY_TIME_EXCEEDED
    {
      match code
      case 0 => HopLimitExceeded
      case 1 => FragmentReassemblyTimeExceeded
      case _ => TimeExceededCode.Raw(code)
    }

    /** `From<Icmp6TimeExceededCode> for u8` */
    function ToU8(): u8
    {
      match this
      case Raw(code) => code
      case HopLimitExceeded => CODE_TIME_EXCEEDED_HOP_LIMIT_EXCEEDED
      case FragmentReassemblyTimeExceeded => CODE_TIME_EXCEEDED_FRAGMENT_REASSEMBLY_TIME_EXCEEDED
    }
  }

  /** Every code that is not a raw value with a known number survives encode-decode. */
  lemma TimeExceededCodeDecodeEncode(t: TimeExceededCode)
    requires t.Raw? ==> t.code > CODE_TIME_EXCEEDED_FRAGMENT_REASSEMBLY_TIME_EXCEEDED
    ensures TimeExceededCode.FromU8(t.ToU8()) == t
  {
  }

  /** No named parameter-problem codes are defined: every code is kept raw. */
  datatype ParameterProblemCode = Raw(code: u8)
  {
    /** `From<u8> for Icmp6ParameterProblemCode` */
    static function FromU8(code: u8): (p: ParameterProblemCode)
      ensures p.ToU8() == code
    {
      ParameterProblemCode.Raw(code)
    }

    /** `From<Icmp6ParameterProblemCode> for u8` */
    function ToU8(): u8
    {
      code
    }
  }

  /** The parameter-problem code conversions are inverse to each other. */
  lemma ParameterProblemCodeRoundTrip(p: ParameterProblemCode)
    ensures ParameterProblemCode.FromU8(p.ToU8()) == p
  {
  }

  // ---------------------------------------------------------------------
  // Message types
  // ---------------------------------------------------------------------

  /** The header's type, code and four type-specific bytes, without the checksum. */
  datatype Icmp6Type =
    | Raw(icmpType: u8, icmpCode: u8, fourBytes: Bytes4)
    | DestinationUnreachable(reason: DestUnreachable)
    | PacketTooBig(mtu: u32)
    | TimeExceeded(timeCode: TimeExceededCode)
    | ParameterProblem(problemCode: ParameterProblemCode, pointer: u32)
    | EchoRequest(echo: IcmpEchoHeader)
    | EchoReply(echo: IcmpEchoHeader)
  {
    /**
     * Total classification of the first byte; the code and the four bytes are
     * interpreted by the message type.
     */
    static function FromBytes(icmpType: u8, icmpCode: u8, fourBytes: Bytes4): (t: Icmp6Type)
      ensures t.ToBytes().0 == icmpType
      ensures t.Raw? <==> !IsKnownType(icmpType)
    {
      match icmpType
      case 1 => DestinationUnreachable(DestUnreachable.FromBytes(icmpCode, fourBytes))
      case 2 => PacketTooBig(BeU32(fourBytes))
      case 3 => TimeExceeded(TimeExceededCode.FromU8(icmpCode))
      case 4 => ParameterProblem(ParameterProblemCode.FromU8(icmpCode), BeU32(fourBytes))
      case 128 => EchoRequest(IcmpEchoHeader.FromBytes(fourBytes))
      case 129 => EchoReply(IcmpEchoHeader.FromBytes(fourBytes))
      case _ => Icmp6Type.Raw(icmpType, icmpCode, fourBytes)
    }

    /** The on-wire type, code and four bytes. */
    function ToBytes(): (r: (u8, u8, Bytes4))
      ensures Raw? ==> r == (icmpType, icmpCode, fourBytes)
      ensures !Raw? ==> IsKnownType(r.0)
    {
      match this
      case Raw(icmpType, icmpCode, fourBytes) => (icmpType, icmpCode, fourBytes)
      case DestinationUnreachable(reason) => (TYPE_DST_UNREACH, reason.Code(), ZERO4)
      case PacketTooBig(mtu) => (TYPE_PACKET_TOO_BIG, 0, U32ToBe(mtu))
      case TimeExceeded(timeCode) => (TYPE_TIME_EXCEEDED, timeCode.ToU8(), ZERO4)
      case ParameterProblem(problemCode, pointer) => (TYPE_PARAM_PROB, problemCode.ToU8(), U32ToBe(pointer))
      case EchoRequest(echo) => (TYPE_ECHO_REQUEST, 0, echo.ToBytes())
      case EchoReply(echo) => (TYPE_ECHO_REPLY, 0, echo.ToBytes())
    }

    /**
     * The values that encoding reproduces exactly: raw only for unknown
     * types, raw unreachable reasons only with unknown codes and zero bytes,
     * raw time-exceeded codes only with unknown codes.
     */
    predicate Canonical()
    {
      match this
      case Raw(icmpType, _, _) => !IsKnownType(icmpType)
      case DestinationUnreachable(reason) =>
        reason.Raw? ==> reason.code > CODE_DST_UNREACH_REJECT_ROUTE_TO_DEST && reason.fourBytes == ZERO4
      case TimeExceeded(timeCode) =>
        timeCode.Raw? ==> timeCode.code > CODE_TIME_EXCEEDED_FRAGMENT_REASSEMBLY_TIME_EXCEEDED
      case _ => true
    }
  }

  /** The six types with a named variant. */
  predicate IsKnownType(t: u8)
  {
    t == TYPE_DST_UNREACH || t == TYPE_PACKET_TOO_BIG || t == TYPE_TIME_EXCEEDED
    || t == TYPE_PARAM_PROB || t == TYPE_ECHO_REQUEST || t == TYPE_ECHO_REPLY
  }

  /** Which variant the type byte selects, whatever the code and four bytes. */
  lemma FromBytesClassifies(icmpType: u8, icmpCode: u8, fourBytes: Bytes4)
    ensures var t := Icmp6Type.FromBytes(icmpType, icmpCode, fourBytes);
      && (t.DestinationUnreachable? <==> icmpType == TYPE_DST_UNREACH)
      && (t.PacketTooBig? <==> icmpType == TYPE_PACKET_TOO_BIG)
      && (t.TimeExceeded? <==> icmpType == TYPE_TIME_EXCEEDED)
      && (t.ParameterProblem? <==> icmpType == TYPE_PARAM_PROB)
      && (t.EchoRequest? <==> icmpType == TYPE_ECHO_REQUEST)
      && (t.EchoReply? <==> icmpType == TYPE_ECHO_REPLY)
      && (t.Raw? ==> t == Icmp6Type.Raw(icmpType, icmpCode, fourBytes))
  {
  }

  /**
   * Decoding then encoding keeps the type byte; it keeps the code except for
   * Packet Too Big and Echo (code 0), and the four bytes except for
   * Destination Unreachable and Time Exceeded (zeros). The MTU and the
   * pointer are the big-endian number in the four bytes.
   */
  lemma {:induction false} EncodeAfterDecode(icmpType: u8, icmpCode: u8, fourBytes: Bytes4)
    ensures var t := Icmp6Type.FromBytes(icmpType, icmpCode, fourBytes);
      && t.ToBytes().0 == icmpType
      && t.ToBytes().1 == (if icmpType in {TYPE_PACKET_TOO_BIG, TYPE_ECHO_REQUEST, TYPE_ECHO_REPLY} then 0 else icmpCode)
      && t.ToBytes().2 == (if icmpType in {TYPE_DST_UNREACH, TYPE_TIME_EXCEEDED} then ZERO4 else fourBytes)
      && (t.PacketTooBig? ==> t.mtu == BeU32(fourBytes))
      && (t.ParameterProblem? ==> t.pointer == BeU32(fourBytes))
  {
    if icmpType == TYPE_PACKET_TOO_BIG || icmpType == TYPE_PARAM_PROB {
      U32BeRoundTrip(fourBytes);
    } else if icmpType == TYPE_ECHO_REQUEST || icmpType == TYPE_ECHO_REPLY {
      EchoBytesRoundTrip(fourBytes);
    }
  }

  /** Decoding the encoding of a canonical value gives the value back. */
  lemma {:induction false} DecodeAfterEncode(t: Icmp6Type)
    requires t.Canonical()
    ensures Icmp6Type.FromBytes(t.ToBytes().0, t.ToBytes().1, t.ToBytes().2) == t
  {
    match t
    case DestinationUnreachable(reason) => DestUnreachableDecodeEncode(reason);
    case TimeExceeded(timeCode) => TimeExceededCodeDecodeEncode(timeCode);
    case EchoRequest(echo) => EchoHeaderRoundTrip(echo);
    case EchoReply(echo) => EchoHeaderRoundTrip(echo);
    case _ =>
  }

  /**
   * Decoding, encoding and decoding again gives a canonical value, so one
   * further encode-decode changes nothing.
   */
  lemma {:induction false} NormalFormIsCanonical(icmpType: u8, icmpCode: u8, fourBytes: Bytes4)
    ensures var b := Icmp6Type.FromBytes(icmpType, icmpCode, fourBytes).ToBytes();
      Icmp6Type.FromBytes(b.0, b.1, b.2).Canonical()
  {
    EncodeAfterDecode(icmpType, icmpCode, fourBytes);
  }

  /** Encoding after decoding is idempotent on byte triples. */
  lemma {:induction false} EncodeAfterDecodeIsIdempotent(icmpType: u8, icmpCode: u8, fourBytes: Bytes4)
    ensures var b := Icmp6Type.FromBytes(icmpType, icmpCode, fourBytes).ToBytes();
      Icmp6Type.FromBytes(b.0, b.1, b.2).ToBytes() == b
  {
    EncodeAfterDecode(icmpType, icmpCode, fourBytes);
    var b := Icmp6Type.FromBytes(icmpType, icmpCode, fourBytes).ToBytes();
    EncodeAfterDecode(b.0, b.1, b.2);
  }

  /** Concrete byte triples: a port-unreachable message, an MTU of 1488 and an unknown type. */
  lemma KnownVectors()
    ensures Icmp6Type.FromBytes(1, 4, [0, 0, 0, 0]) == DestinationUnreachable(Port)
    ensures Icmp6Type.DestinationUnreachable(Port).ToBytes() == (1, 4, [0, 0, 0, 0])
    ensures Icmp6Type.FromBytes(2, 0, [0, 0, 5, 0xD0]) == PacketTooBig(1488)
    ensures Icmp6Type.FromBytes(200, 7, [9, 9, 9, 9]) == Icmp6Type.Raw(200, 7, [9, 9, 9, 9])
  {
  }

  /**
   * Encoding after decoding is not the identity on every byte triple: the
   * four bytes of an unreachable message with an unknown code are dropped.
   */
  lemma EncodeAfterDecodeDropsUnreachableBytes()
    ensures Icmp6Type.FromBytes(1, 7, [1, 2, 3, 4]).ToBytes() != (1, 7, [1, 2, 3, 4])
  {
  }

  // ---------------------------------------------------------------------
  // The owned header
  // ---------------------------------------------------------------------

  datatype Icmp6Header = Icmp6Header(icmpType: Icmp6Type, icmpChksum: u16)
  {
    /** A header whose checksum field is still zero (filled in later by the caller). */
    static function New(icmpType: Icmp6Type): (h: Icmp6Header)
      ensures h.icmpType == icmpType
      ensures h.Write()[2..4] == [0, 0]
    {
      Icmp6Header(icmpType, 0)
    }

    /** Serialized length of the header: the number of bytes `Write` emits. */
    function HeaderLen(): (n: nat)
      ensures n == |Write()|
    {
      SERIALIZED_SIZE
    }

    /** Type, code, checksum (big-endian), then the four bytes. */
    function Write(): (bytes: seq<u8>)
      ensures |bytes| == SERIALIZED_SIZE
      ensures (bytes[0], bytes[1], bytes[4..]) == icmpType.ToBytes()
      ensures BeU16(bytes[2..4]) == icmpChksum
    {
      var (t, c, f) := icmpType.ToBytes();
      var k := U16ToBe(icmpChksum);
      var bytes := [t, c, k[0], k[1], f[0], f[1], f[2], f[3]];
      assert bytes[2..4] == k && bytes[4..] == f;
      bytes
    }

    /**
     * The checksum of RFC 4443, section 2.3, with the pseudo-header length
     * word cut to 16 bits; fails when the payload is longer than the guard.
     */
    function CalcChecksumIpv6(ip: Ipv6.Ipv6Header, payload: seq<u8>): (r: Result<u16, ValueError>)
      ensures r.Err? <==> |payload| > MAX_CHECKSUM_PAYLOAD_LENGTH
      ensures r.Err? ==> r.error == Ipv6PayloadLengthTooLarge(|payload|)
      ensures r.Ok? ==> r.value < 0xFFFF
    {
      if MAX_CHECKSUM_PAYLOAD_LENGTH < |payload| then
        Err(Ipv6PayloadLengthTooLarge(|payload|))
      else
        PseudoHeaderWordSum(ip, |payload|);
        Checksum.WordSumAppend(PseudoHeader(ip, |payload|), ChecksumBody(icmpType, payload));
        Ok(Checksum.InternetChecksum(PseudoHeader(ip, |payload|) + ChecksumBody(icmpType, payload)))
    }

    /**
     * The same checksum with the 32-bit upper-layer packet length of the
     * pseudo-header of RFC 8200, section 8.1.
     */
    function CalcChecksumIpv6Rfc(ip: Ipv6.Ipv6Header, payload: seq<u8>): (r: Result<u16, ValueError>)
      ensures r.Err? <==> |payload| > MAX_CHECKSUM_PAYLOAD_LENGTH
      ensures r.Err? ==> r.error == Ipv6PayloadLengthTooLarge(|payload|)
      ensures r.Ok? ==> r.value < 0xFFFF
    {
      if MAX_CHECKSUM_PAYLOAD_LENGTH < |payload| then
        Err(Ipv6PayloadLengthTooLarge(|payload|))
      else
        RfcPseudoHeaderWordSum(ip, |payload|);
        Checksum.WordSumAppend(RfcPseudoHeader(ip, |payload|), ChecksumBody(icmpType, payload));
        Ok(Checksum.InternetChecksum(RfcPseudoHeader(ip, |payload|) + ChecksumBody(icmpType, payload)))
    }

    /** Reads a header from the first 8 bytes and returns the rest of the input. */
    static function FromSlice(slice: seq<u8>): (r: Result<(Icmp6Header, seq<u8>), ReadError>)
      ensures r.Err? <==> |slice| < SERIALIZED_SIZE
      ensures r.Err? ==> r.error == UnexpectedEndOfSlice(SERIALIZED_SIZE)
      ensures r.Ok? ==> r.value.1 == slice[SERIALIZED_SIZE..]
      ensures r.Ok? ==> r.value.0.icmpChksum == BeU16(slice[2..4])
      ensures r.Ok? ==> r.value.0.icmpType.ToBytes().0 == slice[0]
    {
      match Icmp6HeaderSlice.FromSlice(slice)
      case Err(e) => Err(e)
      case Ok(view) => Ok((view.ToHeader(), slice[SERIALIZED_SIZE..]))
    }
  }

  /**
   * The pseudo-header words as the checksum adds them: source, destination,
   * `[0, 58]`, and the message length truncated to 16 bits.
   */
  function PseudoHeader(ip: Ipv6.Ipv6Header, payloadLen: nat): (p: seq<u8>)
    ensures |p| == 36
  {
    ip.source + ip.destination + [0, IpNumber.IPV6_ICMP]
      + U16ToBe((payloadLen + SERIALIZED_SIZE) % 0x1_0000)
  }

  /**
   * The pseudo-header of RFC 8200, section 8.1: source, destination, 32-bit
   * upper-layer packet length, three zero bytes and the next header.
   */
  function RfcPseudoHeader(ip: Ipv6.Ipv6Header, payloadLen: nat): (p: seq<u8>)
    requires payloadLen + SERIALIZED_SIZE <= U32_MAX
    ensures |p| == 40
  {
    ip.source + ip.destination + U32ToBe(payloadLen + SERIALIZED_SIZE)
      + [0, 0, 0, IpNumber.IPV6_ICMP]
  }

  /** The summed message: type and code, the four bytes, then the payload (the checksum field left out). */
  function ChecksumBody(t: Icmp6Type, payload: seq<u8>): seq<u8>
  {
    var (ty, c, f) := t.ToBytes();
    [ty, c] + f + payload
  }

  /** The checksum is computed from the type, code and four bytes only, never from the stored checksum. */
  lemma ChecksumIgnoresStoredChecksum(h: Icmp6Header, other: u16, ip: Ipv6.Ipv6Header, payload: seq<u8>)
    ensures h.(icmpChksum := other).CalcChecksumIpv6(ip, payload) == h.CalcChecksumIpv6(ip, payload)
  {
  }

  /** Putting checksum `c` into the written header puts its word right after the first two bytes of the summed message. */
  lemma {:induction false} WrittenMessage(h: Icmp6Header, pseudo: seq<u8>, c: u16, payload: seq<u8>)
    ensures var b := ChecksumBody(h.icmpType, payload);
      pseudo + h.(icmpChksum := c).Write() + payload == (pseudo + b[..2]) + U16ToBe(c) + b[2..]
  {
    var (t, cd, f) := h.icmpType.ToBytes();
    var b := ChecksumBody(h.icmpType, payload);
    assert b[..2] == [t, cd] && b[2..] == f + payload;
    assert h.(icmpChksum := c).Write() == [t, cd] + U16ToBe(c) + f;
  }

  /**
   * A header written with the computed checksum passes the receiver's test:
   * the one's-complement sum of pseudo-header, header and payload is all ones.
   */
  lemma {:induction false} ChecksumValidates(h: Icmp6Header, ip: Ipv6.Ipv6Header, payload: seq<u8>)
    requires h.CalcChecksumIpv6(ip, payload).Ok?
    ensures var c := h.CalcChecksumIpv6(ip, payload).value;
      Checksum.OnesComplementSum(PseudoHeader(ip, |payload|) + h.(icmpChksum := c).Write() + payload) == 0xFFFF
  {
    var pseudo := PseudoHeader(ip, |payload|);
    var b := ChecksumBody(h.icmpType, payload);
    var c := h.CalcChecksumIpv6(ip, payload).value;
    assert pseudo + b == (pseudo + b[..2]) + b[2..];
    Checksum.ChecksumValidates(pseudo + b[..2], b[2..]);
    WrittenMessage(h, pseudo, c, payload);
  }

  /**
   * Conversely, the computed checksum is the only value below 0xFFFF that
   * passes the receiver's test for this header, pseudo-header and payload.
   */
  lemma {:induction false} ChecksumIsOnlyValidValue(h: Icmp6Header, ip: Ipv6.Ipv6Header, payload: seq<u8>, c: u16)
    requires h.CalcChecksumIpv6(ip, payload).Ok? && c < 0xFFFF
    requires Checksum.OnesComplementSum(PseudoHeader(ip, |payload|) + h.(icmpChksum := c).Write() + payload) == 0xFFFF
    ensures c == h.CalcChecksumIpv6(ip, payload).value
  {
    var pseudo := PseudoHeader(ip, |payload|);
    var b := ChecksumBody(h.icmpType, payload);
    var sent := pseudo + h.(icmpChksum := c).Write() + payload;
    SentWordSum(h, pseudo, c, payload);
    assert Checksum.WordSum(pseudo + b) != 0 by {
      PseudoHeaderWordSum(ip, |payload|);
      Checksum.WordSumAppend(pseudo, b);
    }
    Checksum.AllOnesIsMultiple(Checksum.WordSum(sent));
    Checksum.ChecksumIsUnique(pseudo + b, c);
  }

  /** The stored checksum adds its value to the word sum of the summed message. */
  lemma {:induction false} SentWordSum(h: Icmp6Header, pseudo: seq<u8>, c: u16, payload: seq<u8>)
    requires |pseudo| % 2 == 0
    ensures Checksum.WordSum(pseudo + h.(icmpChksum := c).Write() + payload)
         == Checksum.WordSum(pseudo + ChecksumBody(h.icmpType, payload)) + c
  {
    var b := ChecksumBody(h.icmpType, payload);
    var front := pseudo + b[..2];
    WrittenMessage(h, pseudo, c, payload);
    assert pseudo + h.(icmpChksum := c).Write() + payload == front + (U16ToBe(c) + b[2..]);
    Checksum.WordSumAppend(front, U16ToBe(c) + b[2..]);
    Checksum.WordSumAppend(U16ToBe(c), b[2..]);
    Checksum.WordSumOfWord(c);
    assert pseudo + b == front + b[2..];
    Checksum.WordSumAppend(front, b[2..]);
  }

  /** The same receiver's test for the RFC 8200 pseudo-header. */
  lemma {:induction false} ChecksumRfcValidates(h: Icmp6Header, ip: Ipv6.Ipv6Header, payload: seq<u8>)
    requires h.CalcChecksumIpv6Rfc(ip, payload).Ok?
    ensures var c := h.CalcChecksumIpv6Rfc(ip, payload).value;
      Checksum.OnesComplementSum(RfcPseudoHeader(ip, |payload|) + h.(icmpChksum := c).Write() + payload) == 0xFFFF
  {
    var pseudo := RfcPseudoHeader(ip, |payload|);
    var b := ChecksumBody(h.icmpType, payload);
    var c := h.CalcChecksumIpv6Rfc(ip, payload).value;
    assert pseudo + b == (pseudo + b[..2]) + b[2..];
    Checksum.ChecksumValidates(pseudo + b[..2], b[2..]);
    WrittenMessage(h, pseudo, c, payload);
  }

  /** The word sum of the 16-bit pseudo-header. */
  lemma {:induction false} PseudoHeaderWordSum(ip: Ipv6.Ipv6Header, payloadLen: nat)
    ensures Checksum.WordSum(PseudoHeader(ip, payloadLen))
         == Checksum.WordSum(ip.source + ip.destination) + IpNumber.IPV6_ICMP
            + (payloadLen + SERIALIZED_SIZE) % 0x1_0000
  {
    var addrs := ip.source + ip.destination;
    var nh: seq<u8> := [0, IpNumber.IPV6_ICMP];
    var low := U16ToBe((payloadLen + SERIALIZED_SIZE) % 0x1_0000);
    assert PseudoHeader(ip, payloadLen) == addrs + (nh + low);
    Checksum.WordSumAppend(addrs, nh + low);
    Checksum.WordSumAppend(nh, low);
    Checksum.WordSumOfWord(BeU16(nh));
    Checksum.WordSumOfWord((payloadLen + SERIALIZED_SIZE) % 0x1_0000);
  }

  /** The word sum of the RFC 8200 pseudo-header. */
  lemma {:induction false} RfcPseudoHeaderWordSum(ip: Ipv6.Ipv6Header, payloadLen: nat)
    requires payloadLen + SERIALIZED_SIZE <= U32_MAX
    ensures Checksum.WordSum(RfcPseudoHeader(ip, payloadLen))
         == Checksum.WordSum(ip.source + ip.destination) + IpNumber.IPV6_ICMP
            + (payloadLen + SERIALIZED_SIZE) / 0x1_0000 + (payloadLen + SERIALIZED_SIZE) % 0x1_0000
  {
    var addrs := ip.source + ip.destination;
    var len := U32ToBe(payloadLen + SERIALIZED_SIZE);
    var nh: seq<u8> := [0, 0, 0, IpNumber.IPV6_ICMP];
    assert Checksum.WordSum(nh) == IpNumber.IPV6_ICMP by {
      assert nh == U16ToBe(0) + U16ToBe(IpNumber.IPV6_ICMP);
      Checksum.WordSumAppend(U16ToBe(0), U16ToBe(IpNumber.IPV6_ICMP));
      Checksum.WordSumOfWord(0);
      Checksum.WordSumOfWord(IpNumber.IPV6_ICMP);
    }
    assert Checksum.WordSum(len + nh) == Checksum.WordSum(len) + Checksum.WordSum(nh) by {
      Checksum.WordSumAppend(len, nh);
    }
    Checksum.WordSumOfU32(payloadLen + SERIALIZED_SIZE);
    assert RfcPseudoHeader(ip, payloadLen) == addrs + (len + nh);
    Checksum.WordSumAppend(addrs, len + nh);
  }

  /** Below 64 KiB the truncated length word is the RFC 8200 one: the two checksums agree. */
  lemma {:induction false} ChecksumAgreesBelow64K(h: Icmp6Header, ip: Ipv6.Ipv6Header, payload: seq<u8>)
    requires |payload| + SERIALIZED_SIZE < 0x1_0000
    ensures h.CalcChecksumIpv6(ip, payload) == h.CalcChecksumIpv6Rfc(ip, payload)
  {
    var body := ChecksumBody(h.icmpType, payload);
    var written := PseudoHeader(ip, |payload|) + body;
    var rfc := RfcPseudoHeader(ip, |payload|) + body;
    PseudoHeaderWordSum(ip, |payload|);
    RfcPseudoHeaderWordSum(ip, |payload|);
    Checksum.WordSumAppend(PseudoHeader(ip, |payload|), ChecksumBody(h.icmpType, payload));
    Checksum.WordSumAppend(RfcPseudoHeader(ip, |payload|), ChecksumBody(h.icmpType, payload));
    assert Checksum.WordSum(written) == Checksum.WordSum(rfc);
    assert Checksum.InternetChecksum(written) == Checksum.InternetChecksum(rfc);
  }

  /**
   * From 64 KiB on, the truncated length word loses the high half of the
   * length, and the checksum differs from the RFC 8200 one (until the high
   * half is 0xFFFF, which one's-complement arithmetic cannot tell from 0).
   */
  lemma {:induction false} ChecksumDiffersFrom64K(h: Icmp6Header, ip: Ipv6.Ipv6Header, payload: seq<u8>)
    requires 0x1_0000 <= |payload| + SERIALIZED_SIZE < 0xFFFF_0000
    ensures h.CalcChecksumIpv6(ip, payload) != h.CalcChecksumIpv6Rfc(ip, payload)
  {
    PseudoHeaderWordSum(ip, |payload|);
    RfcPseudoHeaderWordSum(ip, |payload|);
    Checksum.WordSumAppend(PseudoHeader(ip, |payload|), ChecksumBody(h.icmpType, payload));
    Checksum.WordSumAppend(RfcPseudoHeader(ip, |payload|), ChecksumBody(h.icmpType, payload));
    var s := Checksum.WordSum(PseudoHeader(ip, |payload|) + ChecksumBody(h.icmpType, payload));
    var d := (|payload| + SERIALIZED_SIZE) / 0x1_0000;
    assert 1 <= d < 0xFFFF;
    Checksum.FoldDistinguishes(s, d);
  }

  // ---------------------------------------------------------------------
  // The validated 8-byte view
  // ---------------------------------------------------------------------

  /** A view of exactly the 8 header bytes of an ICMPv6 message. */
  datatype Icmp6HeaderSlice = Icmp6HeaderSlice(slice: seq<u8>)
  {
    /** What `FromSlice` guarantees of every view it returns. */
    predicate Valid()
    {
      |slice| == SERIALIZED_SIZE
    }

    /** Fails with the header size on short input; otherwise views the first 8 bytes. */
    static function FromSlice(s: seq<u8>): (r: Result<Icmp6HeaderSlice, ReadError>)
      ensures r.Err? <==> |s| < SERIALIZED_SIZE
      ensures r.Err? ==> r.error == UnexpectedEndOfSlice(SERIALIZED_SIZE)
      ensures r.Ok? ==> r.value.Valid() && r.value.slice == s[..SERIALIZED_SIZE]
    {
      if |s| < SERIALIZED_SIZE then Err(UnexpectedEndOfSlice(SERIALIZED_SIZE))
      else Ok(Icmp6HeaderSlice(s[..SERIALIZED_SIZE]))
    }

    /** Decodes the message type from bytes 0, 1 and 4-7. */
    function IcmpType(): (t: Icmp6Type)
      requires Valid()
      ensures t.ToBytes().0 == slice[0]
    {
      Icmp6Type.FromBytes(slice[0], slice[1], slice[4..8])
    }

    /** Documented as the code, but reads byte 0: the type. */
    function IcmpCode(): (c: u8)
      requires Valid()
      ensures c == IcmpType().ToBytes().0
    {
      slice[0]
    }

    /** The code byte, byte 1, as the documentation of `IcmpCode` describes. */
    function IcmpCodeIntended(): (c: u8)
      requires Valid()
      ensures slice[0] !in {TYPE_PACKET_TOO_BIG, TYPE_ECHO_REQUEST, TYPE_ECHO_REPLY}
          ==> c == IcmpType().ToBytes().1
    {
      EncodeAfterDecode(slice[0], slice[1], slice[4..8]);
      slice[1]
    }

    /** The checksum, big-endian in bytes 2-3. */
    function IcmpChksum(): (c: u16)
      requires Valid()
      ensures U16ToBe(c) == slice[2..4]
    {
      U16BeRoundTrip(slice[2..4]);
      BeU16(slice[2..4])
    }

    /** Decodes every field into an owned header. */
    function ToHeader(): (h: Icmp6Header)
      requires Valid()
      ensures h.Write()[..4] == slice[..4] || slice[0] in {TYPE_PACKET_TOO_BIG, TYPE_ECHO_REQUEST, TYPE_ECHO_REPLY}
      ensures h.Write()[2..4] == slice[2..4]
      ensures h.Write()[4..] == slice[4..] || slice[0] in {TYPE_DST_UNREACH, TYPE_TIME_EXCEEDED}
    {
      EncodeAfterDecode(slice[0], slice[1], slice[4..8]);
      Icmp6Header(IcmpType(), IcmpChksum())
    }
  }

  /** On the view of an echo request with code 0, `IcmpCode` returns 128, not the code 0. */
  lemma IcmpCodeReturnsType()
    ensures var v := Icmp6HeaderSlice([TYPE_ECHO_REQUEST, 0, 0, 0, 0, 0, 0, 0]);
      v.IcmpCode() == 128 && v.slice[1] == 0 && v.IcmpCodeIntended() == 0
  {
  }

  /**
   * Reading back what `Write` emitted, followed by any bytes, gives the
   * header with its type normalised, and exactly those bytes; a canonical
   * header comes back unchanged.
   */
  lemma {:induction false} WriteThenFromSlice(h: Icmp6Header, rest: seq<u8>)
    ensures var b := h.icmpType.ToBytes();
      Icmp6Header.FromSlice(h.Write() + rest)
        == Ok((Icmp6Header(Icmp6Type.FromBytes(b.0, b.1, b.2), h.icmpChksum), rest))
    ensures h.icmpType.Canonical() ==> Icmp6Header.FromSlice(h.Write() + rest) == Ok((h, rest))
  {
    var w := h.Write();
    var s := w + rest;
    assert s[..SERIALIZED_SIZE] == w;
    assert s[SERIALIZED_SIZE..] == rest;
    assert w[4..8] == h.icmpType.ToBytes().2;
    U16BeRoundTrip(w[2..4]);
    if h.icmpType.Canonical() {
      DecodeAfterEncode(h.icmpType);
    }
  }
}
