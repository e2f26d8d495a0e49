/** The GUID registry: the well-known 16-byte identifiers that tag ASF
    objects (Microsoft ASF Specification, revision 01.20.05, section 10).

    A GUID is declared as four fields `a` (32 bits), `b` and `c` (16 bits
    each) and `d` (8 bytes); its wire form is `a`, `b` and `c` little-endian
    followed by the eight bytes of `d`. The validator compares GUIDs byte by
    byte (`memcmp`), so the registry below holds each identifier in its wire
    form. */
module Guids {
  import opened Wire

  datatype Guid = Guid(a: u32, b: u16, c: u16, d: seq<byte>)
  {
    predicate Valid() { |d| == 8 }
  }

  /** The 16 bytes that store `g`. */
  function GuidBytes(g: Guid): (r: seq<byte>)
    requires g.Valid()
    ensures |r| == 16
  {
    ToLE32(g.a) + ToLE16(g.b) + ToLE16(g.c) + g.d
  }

  /** The GUID stored at `bytes[i..i+16]`. */
  function DecodeGuid(bytes: seq<byte>, i: nat): (g: Guid)
    requires i + 16 <= |bytes|
    ensures g.Valid()
  {
    Guid(LE32(bytes, i), LE16(bytes, i + 4), LE16(bytes, i + 6), bytes[i + 8..i + 16])
  }

  /** Decoding the wire form of a GUID gives the GUID back, and the wire form
      of a decoded GUID is the bytes it was decoded from. */
  lemma {:induction false} GuidRoundTrip(g: Guid, bytes: seq<byte>, i: nat)
    requires g.Valid() && i + 16 <= |bytes|
    ensures DecodeGuid(GuidBytes(g), 0) == g
    ensures GuidBytes(DecodeGuid(bytes, i)) == bytes[i..i + 16]
  {
    var h := DecodeGuid(bytes, i);
    LE32RoundTrip(h.a, bytes, i);
    LE16RoundTrip(h.b, bytes, i + 4);
    LE16RoundTrip(h.c, bytes, i + 6);
    assert bytes[i..i + 16] == bytes[i..i + 4] + bytes[i + 4..i + 6] + bytes[i + 6..i + 8] + bytes[i + 8..i + 16];
    var w := GuidBytes(g);
    LE32RoundTrip(g.a, w, 0);
    LE16RoundTrip(g.b, w, 4);
    LE16RoundTrip(g.c, w, 6);
    assert w[..4] == ToLE32(g.a);
    assert w[4..6] == ToLE16(g.b) && LE16(w, 4) == LE16(w[4..6], 0);
    assert w[6..8] == ToLE16(g.c) && LE16(w, 6) == LE16(w[6..8], 0);
    LE32Slice(w, 0, 4, 0);
    assert w[8..16] == g.d;
  }

  // Top-level objects
  const ASF_HEADER_OBJECT: seq<byte> :=
    GuidBytes(Guid(0x75B22630, 0x668E, 0x11CF, [0xA6, 0xD9, 0x00, 0xAA, 0x00, 0x62, 0xCE, 0x6C]))
  const ASF_DATA_OBJECT: seq<byte> :=
    GuidBytes(Guid(0x75B22636, 0x668E, 0x11CF, [0xA6, 0xD9, 0x00, 0xAA, 0x00, 0x62, 0xCE, 0x6C]))

  // Header sub-objects
  const ASF_FILE_PROPERTIES_OBJECT: seq<byte> :=
    GuidBytes(Guid(0x8CABDCA1, 0xA947, 0x11CF, [0x8E, 0xE4, 0x00, 0xC0, 0x0C, 0x20, 0x53, 0x65]))
  const ASF_STREAM_PROPERTIES_OBJECT: seq<byte> :=
    GuidBytes(Guid(0xB7DC0791, 0xA9B7, 0x11CF, [0x8E, 0xE6, 0x00, 0xC0, 0x0C, 0x20, 0x53, 0x65]))
  const ASF_HEADER_EXTENSION_OBJECT: seq<byte> :=
    GuidBytes(Guid(0x5FBF03B5, 0xA92E, 0x11CF, [0x8E, 0xE3, 0x00, 0xC0, 0x0C, 0x20, 0x53, 0x65]))
  const ASF_CODEC_LIST_OBJECT: seq<byte> :=
    GuidBytes(Guid(0x86D15240, 0x311D, 0x11D0, [0xA3, 0xA4, 0x00, 0xA0, 0xC9, 0x03, 0x48, 0xF6]))
  const ASF_ERROR_CORRECTION_OBJECT: seq<byte> :=
    GuidBytes(Guid(0x75B22635, 0x668E, 0x11CF, [0xA6, 0xD9, 0x00, 0xAA, 0x00, 0x62, 0xCE, 0x6C]))
  const ASF_EXTENDED_CONTENT_DESCRIPTION_OBJECT: seq<byte> :=
    GuidBytes(Guid(0xD2D0A440, 0xE307, 0x11D2, [0x97, 0xF0, 0x00, 0xA0, 0xC9, 0x5E, 0xA8, 0x50]))

  // Stream Properties stream types
  const ASF_AUDIO_MEDIA: seq<byte> :=
    GuidBytes(Guid(0xF8699E40, 0x5B4D, 0x11CF, [0xA8, 0xFD, 0x00, 0x80, 0x5F, 0x5C, 0x44, 0x2B]))

  // Stream Properties error correction types (declared, never compared)
  const ASF_NO_ERROR_CORRECTION: seq<byte> :=
    GuidBytes(Guid(0x20FB5700, 0x5B55, 0x11CF, [0xA8, 0xFD, 0x00, 0x80, 0x5F, 0x5C, 0x44, 0x2B]))
  const ASF_AUDIO_SPREAD: seq<byte> :=
    GuidBytes(Guid(0xBFC3CD50, 0x618F, 0x11CF, [0x8B, 0xB2, 0x00, 0xAA, 0x00, 0xB4, 0xE2, 0x20]))

  // Header Extension reserved field
  const ASF_RESERVED_1: seq<byte> :=
    GuidBytes(Guid(0xABD3D211, 0xA9BA, 0x11CF, [0x8E, 0xE6, 0x00, 0xC0, 0x0C, 0x20, 0x53, 0x65]))

  // Codec List reserved field
  const ASF_RESERVED_2: seq<byte> :=
    GuidBytes(Guid(0x86D15241, 0x311D, 0x11D0, [0xA3, 0xA4, 0x00, 0xA0, 0xC9, 0x03, 0x48, 0xF6]))

  /** The identifiers the validator dispatches on are pairwise different, so
      the order of its comparisons decides nothing; in particular the Error
      Correction Object matches none of the decoded header sub-objects and
      always takes the generic skip. */
  lemma RegistryDistinct()
    ensures ASF_HEADER_OBJECT != ASF_DATA_OBJECT
    ensures ASF_ERROR_CORRECTION_OBJECT !in
      [ASF_FILE_PROPERTIES_OBJECT, ASF_STREAM_PROPERTIES_OBJECT, ASF_HEADER_EXTENSION_OBJECT,
       ASF_EXTENDED_CONTENT_DESCRIPTION_OBJECT, ASF_CODEC_LIST_OBJECT]
    ensures ASF_FILE_PROPERTIES_OBJECT !in
      [ASF_STREAM_PROPERTIES_OBJECT, ASF_HEADER_EXTENSION_OBJECT,
       ASF_EXTENDED_CONTENT_DESCRIPTION_OBJECT, ASF_CODEC_LIST_OBJECT]
    ensures ASF_STREAM_PROPERTIES_OBJECT !in
      [ASF_HEADER_EXTENSION_OBJECT, ASF_EXTENDED_CONTENT_DESCRIPTION_OBJECT, ASF_CODEC_LIST_OBJECT]
    ensures ASF_HEADER_EXTENSION_OBJECT !in
      [ASF_EXTENDED_CONTENT_DESCRIPTION_OBJECT, ASF_CODEC_LIST_OBJECT]
    ensures ASF_EXTENDED_CONTENT_DESCRIPTION_OBJECT != ASF_CODEC_LIST_OBJECT
  {
    // the first byte, the low byte of `a`, already tells most of them apart
    assert ASF_HEADER_OBJECT[0] == 0x30 && ASF_DATA_OBJECT[0] == 0x36;
    assert ASF_FILE_PROPERTIES_OBJECT[0] == 0xA1 && ASF_STREAM_PROPERTIES_OBJECT[0] == 0x91;
    assert ASF_HEADER_EXTENSION_OBJECT[0] == 0xB5 && ASF_ERROR_CORRECTION_OBJECT[0] == 0x35;
    assert ASF_CODEC_LIST_OBJECT[0] == 0x40 && ASF_EXTENDED_CONTENT_DESCRIPTION_OBJECT[0] == 0x40;
    assert ASF_CODEC_LIST_OBJECT[1] == 0x52 && ASF_EXTENDED_CONTENT_DESCRIPTION_OBJECT[1] == 0xA4;
  }
}
