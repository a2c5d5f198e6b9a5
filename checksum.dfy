/**
 * The Internet checksum of RFC 1071, section 1: the one's-complement sum of
 * the data read as big-endian 16-bit words (an odd trailing byte is padded
 * with a zero byte), complemented.
 *
 * The library's running accumulator is not part of this model; these
 * functions state what it computes.
 */
module Checksum {
  import opened ByteOrder

  /** Plain integer sum of the big-endian 16-bit words of `bytes`. */
  function WordSum(bytes: seq<u8>): nat
    decreases |bytes|
  {
    if |bytes| == 0 then 0
    else if |bytes| == 1 then bytes[0] * 0x100
    else BeU16(bytes[..2]) + WordSum(bytes[2..])
  }

  /** `65536 * q + m` and `q + m` leave the same remainder modulo 0xFFFF. */
  lemma EndAroundCarry(q: nat, m: nat)
    ensures (0x1_0000 * q + m) % 0xFFFF == (q + m) % 0xFFFF
  {
    assert 0x1_0000 * q + m == 0xFFFF * q + (q + m);
  }

  /**
   * Folds the carries of `n` back into the low 16 bits (end-around carry)
   * until it fits in 16 bits: the one's-complement value of `n`.
   */
  function Fold(n: nat): (r: u16)
    ensures r % 0xFFFF == n % 0xFFFF
    ensures r == 0 <==> n == 0
    ensures r <= n
    decreases n
  {
    if n <= 0xFFFF then n
    else
      var q, m := n / 0x1_0000, n % 0x1_0000;
      EndAroundCarry(q, m);
      Fold(q + m)
  }

  /** The 16-bit one's-complement sum of `bytes`. */
  function OnesComplementSum(bytes: seq<u8>): u16
  {
    Fold(WordSum(bytes))
  }

  /**
   * The checksum: the complement of the one's-complement sum, so that adding
   * it to the word sum gives a multiple of 0xFFFF (negative zero).
   */
  function InternetChecksum(bytes: seq<u8>): (c: u16)
    ensures (WordSum(bytes) + c) % 0xFFFF == 0
    ensures c == 0xFFFF <==> WordSum(bytes) == 0
  {
    var n := WordSum(bytes);
    var f := Fold(n);
    assert n == 0xFFFF * (n / 0xFFFF) + n % 0xFFFF;
    assert f == 0xFFFF * (f / 0xFFFF) + f % 0xFFFF;
    assert n + (0xFFFF - f) == 0xFFFF * (n / 0xFFFF - f / 0xFFFF + 1);
    MultipleOfAllOnes(n / 0xFFFF - f / 0xFFFF + 1);
    0xFFFF - f
  }

  /** Splitting the data at an even offset splits the word sum. */
  lemma {:induction false} WordSumAppend(a: seq<u8>, b: seq<u8>)
    requires |a| % 2 == 0
    ensures WordSum(a + b) == WordSum(a) + WordSum(b)
    decreases |a|
  {
    if |a| > 0 {
      assert (a + b)[..2] == a[..2];
      assert (a + b)[2..] == a[2..] + b;
      WordSumAppend(a[2..], b);
    } else {
      assert a + b == b;
    }
  }

  /** A word on its own sums to its value. */
  lemma WordSumOfWord(x: u16)
    ensures WordSum(U16ToBe(x)) == x
  {
    var b := U16ToBe(x);
    assert b[2..] == [];
  }

  /** A multiple of 0xFFFF leaves no remainder. */
  lemma MultipleOfAllOnes(k: nat)
    ensures (0xFFFF * k) % 0xFFFF == 0
  {
  }

  /** Adding the complement of the folded sum gives a sum that folds to all ones. */
  lemma FoldPlusComplement(s: nat)
    ensures Fold(s + (0xFFFF - Fold(s))) == 0xFFFF
  {
    var f := Fold(s);
    var t := s + (0xFFFF - f);
    assert s == 0xFFFF * (s / 0xFFFF) + s % 0xFFFF;
    assert f == 0xFFFF * (f / 0xFFFF) + f % 0xFFFF;
    assert f <= s;
    var k := s / 0xFFFF - f / 0xFFFF + 1;
    assert t == 0xFFFF * k;
    MultipleOfAllOnes(k);
    assert t > 0;
  }

  /** A 32-bit number sums to its high half plus its low half. */
  lemma WordSumOfU32(x: u32)
    ensures WordSum(U32ToBe(x)) == x / 0x1_0000 + x % 0x1_0000
  {
    var b := U32ToBe(x);
    assert b == U16ToBe(x / 0x1_0000) + U16ToBe(x % 0x1_0000) by {
      DivDiv(x);
    }
    WordSumAppend(U16ToBe(x / 0x1_0000), U16ToBe(x % 0x1_0000));
    WordSumOfWord(x / 0x1_0000);
    WordSumOfWord(x % 0x1_0000);
  }

  /** Byte positions of a 32-bit number seen through its two halves: bytes 0 and 2. */
  lemma DivDiv(x: u32)
    ensures x / 0x100_0000 == x / 0x1_0000 / 0x100
    ensures x / 0x100 % 0x100 == x % 0x1_0000 / 0x100
  {
  }

  /**
   * Storing the checksum of `prefix + suffix` as one word between them makes
   * the one's-complement sum of the whole 0xFFFF (all ones), which is the
   * receiver's test of RFC 1071; `prefix` must end on a word boundary.
   */
  lemma {:induction false} ChecksumValidates(prefix: seq<u8>, suffix: seq<u8>)
    requires |prefix| % 2 == 0
    ensures OnesComplementSum(prefix + U16ToBe(InternetChecksum(prefix + suffix)) + suffix) == 0xFFFF
  {
    var s := WordSum(prefix + suffix);
    var c := InternetChecksum(prefix + suffix);
    var w := U16ToBe(c);
    WordSumAppend(prefix, suffix);
    assert prefix + w + suffix == prefix + (w + suffix);
    WordSumAppend(prefix, w + suffix);
    WordSumAppend(w, suffix);
    WordSumOfWord(c);
    assert WordSum(prefix + w + suffix) == s + (0xFFFF - Fold(s));
    FoldPlusComplement(s);
  }

  /** A sum that folds to all ones is a multiple of 0xFFFF. */
  lemma AllOnesIsMultiple(n: nat)
    requires Fold(n) == 0xFFFF
    ensures n % 0xFFFF == 0
  {
  }

  /**
   * For data whose word sum is not zero, the checksum is the only 16-bit
   * value below 0xFFFF that completes the sum to a multiple of 0xFFFF.
   */
  lemma {:induction false} ChecksumIsUnique(bytes: seq<u8>, c: u16)
    requires WordSum(bytes) != 0 && c < 0xFFFF
    requires (WordSum(bytes) + c) % 0xFFFF == 0
    ensures c == InternetChecksum(bytes)
  {
    var n := WordSum(bytes);
    var d := InternetChecksum(bytes);
    assert d < 0xFFFF;
    assert n + c == 0xFFFF * ((n + c) / 0xFFFF);
    assert n + d == 0xFFFF * ((n + d) / 0xFFFF);
    assert (n + c) / 0xFFFF == (n + d) / 0xFFFF;
  }

  /**
   * Adding `d` to a word sum changes the one's-complement sum unless `d` is
   * a multiple of 0xFFFF.
   */
  lemma FoldDistinguishes(s: nat, d: nat)
    requires d % 0xFFFF != 0
    ensures Fold(s + d) != Fold(s)
  {
    var x, y := s % 0xFFFF, d % 0xFFFF;
    var k := s / 0xFFFF + d / 0xFFFF;
    assert s + d == 0xFFFF * k + (x + y);
    if x + y < 0xFFFF {
      RemainderOf(k, x + y);
    } else {
      assert s + d == 0xFFFF * (k + 1) + (x + y - 0xFFFF);
      RemainderOf(k + 1, x + y - 0xFFFF);
    }
  }

  /** Division by 0xFFFF is unique. */
  lemma RemainderOf(k: nat, r: nat)
    requires r < 0xFFFF
    ensures (0xFFFF * k + r) % 0xFFFF == r
  {
  }
}
