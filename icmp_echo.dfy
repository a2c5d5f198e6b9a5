/**
 * The identifier and sequence number carried in the last four header bytes
 * of an echo request or reply (RFC 4443, sections 4.1 and 4.2), each a
 * big-endian 16-bit number.
 */
module IcmpEcho {
  import opened ByteOrder

  datatype IcmpEchoHeader = IcmpEchoHeader(id: u16, sequenceNumber: u16) {

    static function FromBytes(b: Bytes4): (e: IcmpEchoHeader)
      ensures e.id == BeU16(b[..2]) && e.sequenceNumber == BeU16(b[2..])
    {
      IcmpEchoHeader(BeU16(b[..2]), BeU16(b[2..]))
    }

    function ToBytes(): (b: Bytes4)
      ensures BeU16(b[..2]) == id && BeU16(b[2..]) == sequenceNumber
    {
      var b := U16ToBe(id) + U16ToBe(sequenceNumber);
      assert b[..2] == U16ToBe(id) && b[2..] == U16ToBe(sequenceNumber);
      b
    }
  }

  /** Encoding a decoded echo header gives back the four bytes. */
  lemma EchoBytesRoundTrip(b: Bytes4)
    ensures IcmpEchoHeader.FromBytes(b).ToBytes() == b
  {
    var e := IcmpEchoHeader.FromBytes(b);
    U16BeRoundTrip(b[..2]);
    U16BeRoundTrip(b[2..]);
    assert e.ToBytes() == b[..2] + b[2..];
  }

  /** Decoding an encoded echo header gives back the header. */
  lemma EchoHeaderRoundTrip(e: IcmpEchoHeader)
    ensures IcmpEchoHeader.FromBytes(e.ToBytes()) == e
  {
  }
}
