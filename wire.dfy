/** Little-endian fixed-width integers as they appear on the ASF wire.

    An input file is a sequence of bytes; the validator reads every multi-byte
    integer in little-endian order (least significant byte first), exactly as
    `fread` into a `uint16_t`, `uint32_t` or `uint64_t` does on the
    little-endian hosts the program targets. */
module Wire {

  type byte = x: int | 0 <= x < 0x100
  type u16 = x: int | 0 <= x < 0x1_0000
  type u32 = x: int | 0 <= x < 0x1_0000_0000
  type u64 = x: int | 0 <= x < 0x1_0000_0000_0000_0000

  /** The 16-bit value stored at `bytes[i..i+2]`. */
  function LE16(bytes: seq<byte>, i: nat): (r: u16)
    requires i + 2 <= |bytes|
  {
    (bytes[i] as int) + 0x100 * (bytes[i + 1] as int)
  }

  /** The 32-bit value stored at `bytes[i..i+4]`. */
  function LE32(bytes: seq<byte>, i: nat): (r: u32)
    requires i + 4 <= |bytes|
  {
    LE16(bytes, i) + 0x1_0000 * LE16(bytes, i + 2)
  }

  /** The 64-bit value stored at `bytes[i..i+8]`. */
  function LE64(bytes: seq<byte>, i: nat): (r: u64)
    requires i + 8 <= |bytes|
  {
    LE32(bytes, i) + 0x1_0000_0000 * LE32(bytes, i + 4)
  }

  /** The two bytes that store `x`, least significant first. */
  function ToLE16(x: u16): (r: seq<byte>)
    ensures |r| == 2
  {
    [x % 0x100, x / 0x100]
  }

  function ToLE32(x: u32): (r: seq<byte>)
    ensures |r| == 4
  {
    ToLE16(x % 0x1_0000) + ToLE16(x / 0x1_0000)
  }

  function ToLE64(x: u64): (r: seq<byte>)
    ensures |r| == 8
  {
    ToLE32(x % 0x1_0000_0000) + ToLE32(x / 0x1_0000_0000)
  }

  /** Reading does not depend on what surrounds the field. */
  lemma LE16Slice(bytes: seq<byte>, lo: nat, hi: nat, i: nat)
    requires lo <= hi <= |bytes| && i + 2 <= hi - lo
    ensures LE16(bytes[lo..hi], i) == LE16(bytes, lo + i)
  {
  }

  lemma LE32Slice(bytes: seq<byte>, lo: nat, hi: nat, i: nat)
    requires lo <= hi <= |bytes| && i + 4 <= hi - lo
    ensures LE32(bytes[lo..hi], i) == LE32(bytes, lo + i)
  {
  }

  lemma LE64Slice(bytes: seq<byte>, lo: nat, hi: nat, i: nat)
    requires lo <= hi <= |bytes| && i + 8 <= hi - lo
    ensures LE64(bytes[lo..hi], i) == LE64(bytes, lo + i)
  {
  }

  /** Decoding an encoded 16-bit value gives it back, and encoding a decoded
      field gives back the field's bytes. */
  lemma LE16RoundTrip(x: u16, bytes: seq<byte>, i: nat)
    requires i + 2 <= |bytes|
    ensures LE16(ToLE16(x), 0) == x
    ensures ToLE16(LE16(bytes, i)) == bytes[i..i + 2]
  {
  }

  lemma {:induction false} LE32RoundTrip(x: u32, bytes: seq<byte>, i: nat)
    requires i + 4 <= |bytes|
    ensures LE32(ToLE32(x), 0) == x
    ensures ToLE32(LE32(bytes, i)) == bytes[i..i + 4]
  {
    var e := ToLE32(x);
    LE16RoundTrip(x % 0x1_0000, bytes, i);
    LE16RoundTrip(x / 0x1_0000, bytes, i + 2);
    assert e[..2] == ToLE16(x % 0x1_0000) && e[2..] == ToLE16(x / 0x1_0000);
    assert LE16(e, 2) == LE16(e[2..], 0);
    var v := LE32(bytes, i);
    assert v % 0x1_0000 == LE16(bytes, i) && v / 0x1_0000 == LE16(bytes, i + 2);
    assert bytes[i..i + 4] == bytes[i..i + 2] + bytes[i + 2..i + 4];
  }

  lemma {:induction false} LE64RoundTrip(x: u64, bytes: seq<byte>, i: nat)
    requires i + 8 <= |bytes|
    ensures LE64(ToLE64(x), 0) == x
    ensures ToLE64(LE64(bytes, i)) == bytes[i..i + 8]
  {
    var e := ToLE64(x);
    LE32RoundTrip(x % 0x1_0000_0000, bytes, i);
    LE32RoundTrip(x / 0x1_0000_0000, bytes, i + 4);
    LE32RoundTrip(x / 0x1_0000_0000, e, 4);
    assert e[..4] == ToLE32(x % 0x1_0000_0000) && e[4..] == ToLE32(x / 0x1_0000_0000);
    LE32Slice(e, 4, 8, 0);
    LE32Slice(e, 0, 4, 0);
    var v := LE64(bytes, i);
    assert v % 0x1_0000_0000 == LE32(bytes, i) && v / 0x1_0000_0000 == LE32(bytes, i + 4);
    assert bytes[i..i + 8] == bytes[i..i + 4] + bytes[i + 4..i + 8];
  }
}
