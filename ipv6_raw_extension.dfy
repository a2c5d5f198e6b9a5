/**
 * The generic IPv6 extension header of RFC 8200, section 4: a next-header
 * byte, a "Hdr Ext Len" byte counting 8-octet units beyond the first eight
 * octets, and the payload. The owned header keeps the payload in a fixed
 * buffer of the largest possible size; the view is a validated window onto
 * the input.
 */
module Ipv6RawExtension {
  import opened ByteOrder
  import opened Results
  import opened Errors
  import IpNumber

  /** Smallest payload: an 8-byte header minus the two fixed bytes. */
  const MIN_PAYLOAD_LEN: nat := 6

  /** Largest payload: 255 further 8-octet units. */
  const MAX_PAYLOAD_LEN: nat := 0xff * 8 + 6

  /**
   * The extension headers that follow the length convention modelled here.
   * The Authentication Header counts its length differently and ESP has no
   * length field, so both are excluded.
   */
  function HeaderTypeSupported(nextHeader: u8): (b: bool)
    ensures b <==> nextHeader in {IpNumber.IPV6_HOP_BY_HOP, IpNumber.IPV6_ROUTE, IpNumber.IPV6_DEST_OPTIONS,
                                  IpNumber.MOBILITY, IpNumber.HIP, IpNumber.SHIM6}
    ensures b ==> nextHeader != IpNumber.AUTHENTICATION_HEADER && nextHeader != IpNumber.ENCAPSULATING_SECURITY_PAYLOAD
  {
    match nextHeader
    case 0 => true     // IPV6_HOP_BY_HOP
    case 43 => true    // IPV6_ROUTE
    case 60 => true    // IPV6_DEST_OPTIONS
    case 135 => true   // MOBILITY
    case 139 => true   // HIP
    case 140 => true   // SHIM6
    case _ => false
  }

  /**
   * The payload-length checks shared by `NewRaw` and `SetPayload`, in their
   * order: too small, then too large, then not a multiple of 8 with the two
   * fixed bytes. An accepted length is exactly representable in the length byte.
   */
  function PayloadLengthError(len: nat): (e: Option<ValueError>)
    ensures e.None? <==> MIN_PAYLOAD_LEN <= len <= MAX_PAYLOAD_LEN && (len + 2) % 8 == 0
    ensures len < MIN_PAYLOAD_LEN ==> e == Some(Ipv6ExtensionPayloadTooSmall(len))
    ensures MIN_PAYLOAD_LEN <= len && MAX_PAYLOAD_LEN < len ==> e == Some(Ipv6ExtensionPayloadTooLarge(len))
    ensures MIN_PAYLOAD_LEN <= len <= MAX_PAYLOAD_LEN && (len + 2) % 8 != 0
            ==> e == Some(Ipv6ExtensionPayloadLengthUnaligned(len))
    ensures e.None? ==> (len - 6) / 8 <= 0xff && MIN_PAYLOAD_LEN + (len - 6) / 8 * 8 == len
  {
    if len < MIN_PAYLOAD_LEN then Some(Ipv6ExtensionPayloadTooSmall(len))
    else if len > MAX_PAYLOAD_LEN then Some(Ipv6ExtensionPayloadTooLarge(len))
    else if 0 != (len + 2) % 8 then Some(Ipv6ExtensionPayloadLengthUnaligned(len))
    else None
  }

  /** Every value of the length byte gives a payload length the checks accept. */
  lemma {:induction false} LengthByteAccepted(lengthByte: u8)
    ensures PayloadLengthError((lengthByte as int + 1) * 8 - 2).None?
    ensures ((lengthByte as int + 1) * 8 - 2 - 6) / 8 == lengthByte
  {
    var len := (lengthByte as int + 1) * 8 - 2;
    assert len + 2 == 8 * (lengthByte + 1);
    assert len - 6 == 8 * lengthByte;
  }

  /** Copies `src` into the front of `buffer`, leaving the rest as it was. */
  method CopyInto(buffer: array<u8>, src: seq<u8>)
    requires |src| <= buffer.Length
    modifies buffer
    ensures buffer[..|src|] == src
    ensures buffer[|src|..] == old(buffer[|src|..])
  {
    forall i | 0 <= i < |src| {
      buffer[i] := src[i];
    }
  }

  /** An owned extension header with a fixed-capacity payload buffer. */
  class Ipv6RawExtensionHeader {
    /** Protocol number of the header or transport protocol that follows. */
    var nextHeader: u8
    /** Length in 8-octet units, not counting the first 8 octets. */
    var headerLength: u8
    /** Payload storage; only the first `6 + 8 * headerLength` bytes are the payload. */
    const payloadBuffer: array<u8>

    ghost predicate Valid()
      reads this
    {
      payloadBuffer.Length == MAX_PAYLOAD_LEN
    }

    /** The header with a zeroed buffer that `NewRaw` then fills. */
    constructor Zeroed(nextHeader: u8, headerLength: u8)
      ensures Valid() && fresh(payloadBuffer)
      ensures this.nextHeader == nextHeader && this.headerLength == headerLength
      ensures payloadBuffer[..] == seq(MAX_PAYLOAD_LEN, _ => 0)
    {
      this.nextHeader := nextHeader;
      this.headerLength := headerLength;
      payloadBuffer := new u8[MAX_PAYLOAD_LEN](_ => 0);
    }

    /**
     * Checks the payload length and builds a header holding `payload`; the
     * length byte is the payload length in 8-octet units minus the first.
     */
    static method NewRaw(nextHeader: u8, payload: seq<u8>) returns (r: Result<Ipv6RawExtensionHeader, ValueError>)
      ensures r.Err? <==> PayloadLengthError(|payload|).Some?
      ensures r.Err? ==> Some(r.error) == PayloadLengthError(|payload|)
      ensures r.Ok? ==> fresh(r.value) && fresh(r.value.payloadBuffer) && r.value.Valid()
      ensures r.Ok? ==> r.value.nextHeader == nextHeader && r.value.Payload() == payload
      ensures r.Ok? ==> r.value.headerLength == (|payload| - 6) / 8
    {
      var e := PayloadLengthError(|payload|);
      if e.Some? {
        return Err(e.value);
      }
      var h := new Ipv6RawExtensionHeader.Zeroed(nextHeader, (|payload| - 6) / 8);
      CopyInto(h.payloadBuffer, payload);
      return Ok(h);
    }

    /** The payload: the bytes after the two fixed fields, as many as the length byte says. */
    function Payload(): (p: seq<u8>)
      reads this, payloadBuffer
      requires Valid()
      ensures |p| == MIN_PAYLOAD_LEN + headerLength as int * 8
      ensures PayloadLengthError(|p|).None?
    {
      LengthByteAccepted(headerLength);
      payloadBuffer[..MIN_PAYLOAD_LEN + headerLength as int * 8]
    }

    /**
     * Replaces the payload after the same checks as `NewRaw`; on an error
     * nothing changes. Buffer bytes beyond the new payload are left as they were.
     */
    method SetPayload(payload: seq<u8>) returns (r: Result<(), ValueError>)
      requires Valid()
      modifies this`headerLength, payloadBuffer
      ensures Valid()
      ensures r.Err? <==> PayloadLengthError(|payload|).Some?
      ensures r.Err? ==> Some(r.error) == PayloadLengthError(|payload|)
      ensures r.Err? ==> unchanged(this) && unchanged(payloadBuffer)
      ensures nextHeader == old(nextHeader)
      ensures r.Ok? ==> Payload() == payload && headerLength == (|payload| - 6) / 8
      ensures r.Ok? ==> payloadBuffer[|payload|..] == old(payloadBuffer[|payload|..])
    {
      var e := PayloadLengthError(|payload|);
      if e.Some? {
        return Err(e.value);
      }
      CopyInto(payloadBuffer, payload);
      headerLength := (|payload| - 6) / 8;
      return Ok(());
    }

    /** Serialized length: the two fixed bytes plus the payload, a multiple of 8 in [8, 2048]. */
    function HeaderLen(): (n: nat)
      reads this, payloadBuffer
      requires Valid()
      ensures n == 2 + |Payload()|
      ensures n == (headerLength as int + 1) * 8
      ensures n % 8 == 0 && 8 <= n <= 2048
    {
      2 + (MIN_PAYLOAD_LEN + headerLength as int * 8)
    }

    /** The wire form: next header, length byte, payload. */
    function Write(): (bytes: seq<u8>)
      reads this, payloadBuffer
      requires Valid()
      ensures |bytes| == HeaderLen()
      ensures |bytes| == (bytes[1] as int + 1) * 8
      ensures bytes[0] == nextHeader && bytes[2..] == Payload()
    {
      [nextHeader, headerLength] + Payload()
    }

    /**
     * `PartialEq`: the next header and the payload; stale buffer bytes beyond
     * the payload do not matter. Equal headers are those with equal wire forms.
     */
    function Equals(other: Ipv6RawExtensionHeader): (eq: bool)
      reads this, payloadBuffer, other, other.payloadBuffer
      requires Valid() && other.Valid()
      ensures eq <==> Write() == other.Write()
    {
      if nextHeader == other.nextHeader && Payload() == other.Payload() then
        assert Write() == other.Write();
        true
      else
        false
    }

    /**
     * Reads a header from the front of `slice` through the validating view and
     * returns the bytes after it untouched.
     */
    static method FromSlice(slice: seq<u8>) returns (r: Result<(Ipv6RawExtensionHeader, seq<u8>), ReadError>)
      ensures r.Err? <==> Ipv6RawExtensionHeaderSlice.FromSlice(slice).Err?
      ensures r.Err? ==> r.error == Ipv6RawExtensionHeaderSlice.FromSlice(slice).error
      ensures r.Ok? ==> fresh(r.value.0) && fresh(r.value.0.payloadBuffer) && r.value.0.Valid()
      ensures r.Ok? ==> var n := (slice[1] as int + 1) * 8;
        r.value.0.Write() == slice[..n] && r.value.1 == slice[n..]
    {
      match Ipv6RawExtensionHeaderSlice.FromSlice(slice)
      case Err(e) =>
        return Err(e);
      case Ok(view) =>
        var rest := slice[|view.Slice()|..];
        var header := view.ToHeader();
        return Ok((header, rest));
    }
  }

  /** A validated view of exactly one extension header at the front of the input. */
  datatype Ipv6RawExtensionHeaderSlice = Ipv6RawExtensionHeaderSlice(slice: seq<u8>)
  {
    /** What both constructors guarantee: the view is exactly as long as its length byte says. */
    predicate Valid()
    {
      |slice| >= 8 && |slice| == (slice[1] as int + 1) * 8
    }

    /**
     * Needs 8 bytes, then as many as the length byte says; narrows the view
     * to exactly that many. Both failures report the missing minimum.
     */
    static function FromSlice(s: seq<u8>): (r: Result<Ipv6RawExtensionHeaderSlice, ReadError>)
      ensures |s| < 8 ==> r == Err(UnexpectedEndOfSlice(8))
      ensures 8 <= |s| < (s[1] as int + 1) * 8 ==> r == Err(UnexpectedEndOfSlice((s[1] as int + 1) * 8))
      ensures r.Ok? <==> 8 <= |s| && (s[1] as int + 1) * 8 <= |s|
      ensures r.Ok? ==> r.value.Valid() && r.value.slice == s[..(s[1] as int + 1) * 8]
    {
      if |s| < 8 then Err(UnexpectedEndOfSlice(8))
      else
        var len := (s[1] as int + 1) * 8;
        if |s| < len then Err(UnexpectedEndOfSlice(len))
        else Ok(Ipv6RawExtensionHeaderSlice(s[..len]))
    }

    /**
     * The unchecked constructor: its caller promises both length checks,
     * and then it gives the same view as the validating one.
     */
    static method FromSliceUnchecked(s: seq<u8>) returns (view: Ipv6RawExtensionHeaderSlice)
      requires |s| >= 8 && |s| >= (s[1] as int + 1) * 8
      ensures view.Valid()
      ensures FromSlice(s) == Ok(view)
    {
      view := Ipv6RawExtensionHeaderSlice(s[..(s[1] as int + 1) * 8]);
    }

    /** The whole header, a multiple of 8 bytes. */
    function Slice(): (s: seq<u8>)
      requires Valid()
      ensures |s| % 8 == 0 && 8 <= |s| <= 2048
    {
      slice
    }

    /** The first byte of the view. */
    function NextHeader(): u8
      requires Valid()
    {
      slice[0]
    }

    /** Everything after the two fixed bytes; always a length the owned header accepts. */
    function Payload(): (p: seq<u8>)
      requires Valid()
      ensures Slice() == [NextHeader(), slice[1]] + p
      ensures PayloadLengthError(|p|).None?
    {
      LengthByteAccepted(slice[1]);
      slice[2..]
    }

    /** Copies the view into an owned header; never fails. */
    method ToHeader() returns (h: Ipv6RawExtensionHeader)
      requires Valid()
      ensures fresh(h) && fresh(h.payloadBuffer) && h.Valid()
      ensures h.nextHeader == NextHeader() && h.Payload() == Payload()
      ensures h.Write() == slice
    {
      LengthByteAccepted(slice[1]);
      var r := Ipv6RawExtensionHeader.NewRaw(NextHeader(), Payload());
      h := r.value;
      assert h.Write() == [slice[0], slice[1]] + slice[2..];
    }
  }

  /**
   * The validating view over the wire form of a header, followed by any
   * bytes, is exactly that wire form: next header and payload come back.
   */
  lemma {:induction false} ViewOfWritten(h: Ipv6RawExtensionHeader, rest: seq<u8>)
    requires h.Valid()
    ensures var r := Ipv6RawExtensionHeaderSlice.FromSlice(h.Write() + rest);
      && r == Ok(Ipv6RawExtensionHeaderSlice(h.Write()))
      && r.value.NextHeader() == h.nextHeader
      && r.value.Payload() == h.Payload()
  {
    var w := h.Write();
    assert (w + rest)[1] == w[1];
    assert (w + rest)[..|w|] == w;
  }

  /**
   * A view produced by `from_slice` reads its next header from byte 0 and its
   * payload from bytes 2 up to the length the length byte gives.
   */
  lemma ViewFields(s: seq<u8>)
    ensures var r := Ipv6RawExtensionHeaderSlice.FromSlice(s);
      r.Ok? ==> r.value.NextHeader() == s[0] && r.value.Payload() == s[2..(s[1] as int + 1) * 8]
  {
  }

  /**
   * An 8-byte header with length byte 0 is accepted with a 6-byte payload;
   * seven bytes are too few; a length byte of 1 needs 16 bytes.
   */
  lemma ViewLengthExamples(payload6: seq<u8>, ten: seq<u8>)
    requires |payload6| == 6 && |ten| == 10 && ten[1] == 1
    ensures var r := Ipv6RawExtensionHeaderSlice.FromSlice([6, 0] + payload6);
      r.Ok? && r.value.Payload() == payload6
    ensures Ipv6RawExtensionHeaderSlice.FromSlice(([6, 0] + payload6)[..7]) == Err(UnexpectedEndOfSlice(8))
    ensures Ipv6RawExtensionHeaderSlice.FromSlice(ten) == Err(UnexpectedEndOfSlice(16))
  {
    assert ([6, 0] + payload6)[..8] == [6, 0] + payload6;
  }

  /**
   * Round trip of the owned header: reading back its wire form followed by
   * `rest` gives an equal header and exactly `rest`.
   */
  method WriteThenFromSlice(h: Ipv6RawExtensionHeader, rest: seq<u8>)
      returns (r: Result<(Ipv6RawExtensionHeader, seq<u8>), ReadError>)
    requires h.Valid()
    ensures r.Ok? && r.value.0.Valid()
    ensures r.value.0.Equals(h) && r.value.1 == rest
  {
    var w := h.Write();
    assert (w + rest)[1] == w[1];
    assert (w + rest)[..|w|] == w && (w + rest)[|w|..] == rest;
    r := Ipv6RawExtensionHeader.FromSlice(w + rest);
  }
}
