/** Bytes, the words they make, and hexadecimal digits as characters. */
module Bytes {
  type Byte = b: int | 0 <= b < 256

  const WORD_LIMIT: nat := 0x1_0000_0000_0000_0000

  /** Unsigned value of little-endian bytes. */
  function LittleEndian(bytes: seq<Byte>): nat {
    if bytes == [] then 0 else bytes[0] + 256 * LittleEndian(bytes[1..])
  }

  function ByteCapacity(size: nat): nat {
    if size == 0 then 1 else 256 * ByteCapacity(size - 1)
  }

  lemma {:induction false} LittleEndianFits(bytes: seq<Byte>)
    ensures LittleEndian(bytes) < ByteCapacity(|bytes|)
  {
    if bytes != [] {
      LittleEndianFits(bytes[1..]);
    }
  }

  lemma WordFits(bytes: seq<Byte>)
    requires |bytes| == 4 || |bytes| == 8
    ensures LittleEndian(bytes) < WORD_LIMIT
  {
    LittleEndianFits(bytes);
    assert ByteCapacity(4) == 0x1_0000_0000;
    assert ByteCapacity(8) == 256 * (256 * (256 * (256 * ByteCapacity(4))));
  }

  predicate IsDecimal(c: char) { '0' <= c <= '9' }

  predicate IsHex(c: char) { IsDecimal(c) || 'a' <= c <= 'f' || 'A' <= c <= 'F' }

  function DigitValue(c: char): (v: nat)
    requires IsHex(c)
    ensures v < 16
  {
    if IsDecimal(c) then c as nat - '0' as nat
    else if 'a' <= c <= 'f' then c as nat - 'a' as nat + 10
    else c as nat - 'A' as nat + 10
  }
}
