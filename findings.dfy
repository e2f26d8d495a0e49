/** Where the validator's code computes something other than what it
    evidently means to. */
module Findings {
  import opened Wire
  import opened Walker

  /** The number of bytes the validator skips after the fixed part of a
      Stream Properties Object, as written: the two `uint32_t` lengths are
      added in 32-bit unsigned arithmetic before the sum reaches `fseek`, so
      a sum of 2^32 or more wraps around. It agrees with the full sum exactly
      when that sum fits in 32 bits. */
  function StreamDataLengthAsWritten(typeSpecificDataLength: u32, errorCorrectionDataLength: u32): (r: u32)
    ensures r <= StreamDataLength(typeSpecificDataLength, errorCorrectionDataLength)
    ensures r == StreamDataLength(typeSpecificDataLength, errorCorrectionDataLength) <==>
      StreamDataLength(typeSpecificDataLength, errorCorrectionDataLength) < 0x1_0000_0000
  {
    (typeSpecificDataLength + errorCorrectionDataLength) % 0x1_0000_0000
  }

  /** Lengths 0xFFFFFFFF and 1 declare 4 GiB of data, but the skip as
      written moves the cursor by nothing. */
  lemma StreamDataLengthWraps()
    ensures StreamDataLengthAsWritten(0xFFFF_FFFF, 1) == 0
    ensures StreamDataLength(0xFFFF_FFFF, 1) == 0x1_0000_0000
  {
  }

  /** A concrete Stream Properties Object of audio media with those two
      lengths and nothing after its 54 bytes: the skip as written would land
      exactly at the end of the input, while the full sum runs past the end
      and the object is rejected as truncated. */
  lemma StreamPropertiesWrapExample()
    ensures var bytes := WrappingStreamProperties();
      54 + StreamDataLengthAsWritten(LE32(bytes, 40), LE32(bytes, 44)) == |bytes| &&
      StreamProperties(bytes, 0) == Err(Truncated)
  {
    var bytes := WrappingStreamProperties();
    assert bytes[..16] == Guids.ASF_AUDIO_MEDIA;
    assert LE32(bytes, 40) == 0xFFFF_FFFF && LE32(bytes, 44) == 1;
  }

  /** 54 bytes: the audio media GUID, an error correction type of zeros, a
      zero time offset, lengths 0xFFFFFFFF and 1, zero flags and a zero
      reserved field. */
  function WrappingStreamProperties(): (bytes: seq<byte>)
    ensures |bytes| == 54
  {
    Guids.ASF_AUDIO_MEDIA + seq(16, _ => 0) + seq(8, _ => 0) +
    [0xFF, 0xFF, 0xFF, 0xFF] + [1, 0, 0, 0] + [0, 0] + [0, 0, 0, 0]
  }
}
