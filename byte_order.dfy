/**
 * Fixed-width unsigned integers and their big-endian (network order)
 * byte encodings.
 */
module ByteOrder {

  type u8 = x: int | 0 <= x < 0x100
  type u16 = x: int | 0 <= x < 0x1_0000
  type u32 = x: int | 0 <= x < 0x1_0000_0000

  const U32_MAX: int := 0xFFFF_FFFF

  /** Exactly two, four or sixteen bytes (Rust's `[u8; N]`). */
  type Bytes2 = s: seq<u8> | |s| == 2 witness [0, 0]
  type Bytes4 = s: seq<u8> | |s| == 4 witness [0, 0, 0, 0]
  type Bytes16 = s: seq<u8> | |s| == 16 witness seq(16, _ => 0)

  const ZERO4: Bytes4 := [0, 0, 0, 0]

  /** `u16::from_be_bytes` */
  function BeU16(b: Bytes2): (x: u16)
    ensures x / 0x100 == b[0] && x % 0x100 == b[1]
  {
    b[0] as int * 0x100 + b[1]
  }

  /** `u16::to_be_bytes` */
  function U16ToBe(x: u16): (b: Bytes2)
    ensures BeU16(b) == x
  {
    [x / 0x100, x % 0x100]
  }

  /** `u32::from_be_bytes` */
  function BeU32(b: Bytes4): (x: u32)
  {
    ((b[0] as int * 0x100 + b[1]) * 0x100 + b[2]) * 0x100 + b[3]
  }

  /** `u32::to_be_bytes` */
  function U32ToBe(x: u32): (b: Bytes4)
    ensures BeU32(b) == x
  {
    [x / 0x100_0000, x / 0x1_0000 % 0x100, x / 0x100 % 0x100, x % 0x100]
  }

  lemma U16BeRoundTrip(b: Bytes2)
    ensures U16ToBe(BeU16(b)) == b
  {
  }

  lemma U32BeRoundTrip(b: Bytes4)
    ensures U32ToBe(BeU32(b)) == b
  {
  }
}
