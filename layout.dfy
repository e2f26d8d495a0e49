/** The packed (`#pragma pack(1)`) structures and bit-field unions the
    validator reads, with their wire layouts.

    Every structure is read with a single `fread` of its exact size, so each
    is decoded here from a byte sequence of exactly that size. Bit fields are
    allocated from the least significant bit upwards in declaration order;
    they are decoded with explicit shifts and masks, written on naturals as
    `x / 2^k % 2^w`, which is `(x >> k) & (2^w - 1)`. Each decoder has an
    encoder beside it, and the two are proved inverse in both directions, so
    that no field is lost, overlaps another or is read from the wrong bytes. */
module Layout {
  import opened Wire
  import opened Guids

  // ---------------------------------------------------------------------
  // Bit-field unions

  /** `FilePropertiesObject::Flags` (u32): Broadcast Flag, Seekable Flag,
      30 reserved bits (ASF section 3.2). */
  datatype FileFlags = FileFlags(broadcast: nat, seekable: nat, reserved: nat)
  {
    predicate Valid() { broadcast < 2 && seekable < 2 && reserved < 0x4000_0000 }
  }

  function EncodeFileFlags(f: FileFlags): (r: u32)
    requires f.Valid()
  {
    f.broadcast + 2 * f.seekable + 4 * f.reserved
  }

  function DecodeFileFlags(x: u32): (f: FileFlags)
    ensures f.Valid()
  {
    var x1 := x / 2;
    FileFlags(x % 2, x1 % 2, x1 / 2)
  }

  lemma FileFlagsRoundTrip(f: FileFlags, x: u32)
    requires f.Valid()
    ensures DecodeFileFlags(EncodeFileFlags(f)) == f
    ensures EncodeFileFlags(DecodeFileFlags(x)) == x
  {
    var e1 := f.seekable + 2 * f.reserved;
    QuotientRemainder(EncodeFileFlags(f), 2, e1, f.broadcast);
    QuotientRemainder(e1, 2, f.reserved, f.seekable);
    var x1 := x / 2;
    assert x == 2 * x1 + x % 2;
    assert x1 == 2 * (x1 / 2) + x1 % 2;
  }

  /** `StreamPropertiesObject::Flags` (u16): Stream Number (7 bits),
      8 reserved bits, Encrypted Content Flag (ASF section 3.3). */
  datatype StreamFlags = StreamFlags(streamNumber: nat, reserved: nat, encryptedContent: nat)
  {
    predicate Valid() { streamNumber < 0x80 && reserved < 0x100 && encryptedContent < 2 }
  }

  function EncodeStreamFlags(f: StreamFlags): (r: u16)
    requires f.Valid()
  {
    f.streamNumber + 0x80 * f.reserved + 0x8000 * f.encryptedContent
  }

  function DecodeStreamFlags(x: u16): (f: StreamFlags)
    ensures f.Valid()
  {
    var x7 := x / 0x80;
    StreamFlags(x % 0x80, x7 % 0x100, x7 / 0x100)
  }

  lemma StreamFlagsRoundTrip(f: StreamFlags, x: u16)
    requires f.Valid()
    ensures DecodeStreamFlags(EncodeStreamFlags(f)) == f
    ensures EncodeStreamFlags(DecodeStreamFlags(x)) == x
  {
    var e7 := f.reserved + 0x100 * f.encryptedContent;
    QuotientRemainder(EncodeStreamFlags(f), 0x80, e7, f.streamNumber);
    QuotientRemainder(e7, 0x100, f.encryptedContent, f.reserved);
    var x7 := x / 0x80;
    assert x == 0x80 * x7 + x % 0x80;
    assert x7 == 0x100 * (x7 / 0x100) + x7 % 0x100;
  }

  /** `ErrorCorrectionFlags` (one byte): Error Correction Data Length (4 bits),
      Opaque Data Present, Error Correction Length Type (2 bits), Error
      Correction Present (ASF section 5.2.1). */
  datatype ErrorCorrectionFlags =
    ErrorCorrectionFlags(dataLength: nat, opaqueDataPresent: nat, lengthType: nat, present: nat)
  {
    predicate Valid() { dataLength < 0x10 && opaqueDataPresent < 2 && lengthType < 4 && present < 2 }
  }

  function EncodeErrorCorrectionFlags(f: ErrorCorrectionFlags): (r: byte)
    requires f.Valid()
  {
    f.dataLength + 0x10 * f.opaqueDataPresent + 0x20 * f.lengthType + 0x80 * f.present
  }

  function DecodeErrorCorrectionFlags(b: byte): (f: ErrorCorrectionFlags)
    ensures f.Valid()
  {
    var b4 := b / 0x10; var b5 := b4 / 2; var b7 := b5 / 4;
    ErrorCorrectionFlags(b % 0x10, b4 % 2, b5 % 4, b7)
  }

  lemma ErrorCorrectionFlagsRoundTrip(f: ErrorCorrectionFlags, b: byte)
    requires f.Valid()
    ensures DecodeErrorCorrectionFlags(EncodeErrorCorrectionFlags(f)) == f
    ensures EncodeErrorCorrectionFlags(DecodeErrorCorrectionFlags(b)) == b
  {
    var e5 := f.lengthType + 4 * f.present;
    var e4 := f.opaqueDataPresent + 2 * e5;
    QuotientRemainder(EncodeErrorCorrectionFlags(f), 0x10, e4, f.dataLength);
    QuotientRemainder(e4, 2, e5, f.opaqueDataPresent);
    QuotientRemainder(e5, 4, f.present, f.lengthType);
    var b4 := b / 0x10; var b5 := b4 / 2;
    assert b == 0x10 * b4 + b % 0x10;
    assert b4 == 2 * b5 + b4 % 2;
    assert b5 == 4 * (b5 / 4) + b5 % 4;
  }

  /** `ErrorCorrectionData` (two bytes): a type/number byte (Type in the low
      nibble, Number in the high nibble) followed by Cycle. */
  datatype ErrorCorrectionData = ErrorCorrectionData(kind: nat, number: nat, cycle: byte)
  {
    predicate Valid() { kind < 0x10 && number < 0x10 }
  }

  function EncodeErrorCorrectionData(e: ErrorCorrectionData): (r: seq<byte>)
    requires e.Valid()
    ensures |r| == 2
  {
    [e.kind + 0x10 * e.number, e.cycle]
  }

  function DecodeErrorCorrectionData(s: seq<byte>): (e: ErrorCorrectionData)
    requires |s| == 2
    ensures e.Valid()
  {
    ErrorCorrectionData(s[0] % 0x10, s[0] / 0x10, s[1])
  }

  lemma ErrorCorrectionDataRoundTrip(e: ErrorCorrectionData, s: seq<byte>)
    requires e.Valid() && |s| == 2
    ensures DecodeErrorCorrectionData(EncodeErrorCorrectionData(e)) == e
    ensures EncodeErrorCorrectionData(DecodeErrorCorrectionData(s)) == s
  {
    QuotientRemainder(e.kind + 0x10 * e.number, 0x10, e.number, e.kind);
    assert s[0] == 0x10 * (s[0] / 0x10) + s[0] % 0x10;
  }

  /** `PayloadParsingInformation::LengthTypeFlags` (one byte): Multiple
      Payloads Present, Sequence Type (2 bits), Padding Length Type (2 bits),
      Packet Length Type (2 bits), Error Correction Present (ASF section
      5.2.2). */
  datatype LengthTypeFlags = LengthTypeFlags(
    multiplePayloadsPresent: nat, sequenceType: nat, paddingLengthType: nat,
    packetLengthType: nat, errorCorrectionPresent: nat)
  {
    predicate Valid() {
      multiplePayloadsPresent < 2 && sequenceType < 4 && paddingLengthType < 4 &&
      packetLengthType < 4 && errorCorrectionPresent < 2
    }
  }

  function EncodeLengthTypeFlags(f: LengthTypeFlags): (r: byte)
    requires f.Valid()
  {
    f.multiplePayloadsPresent + 2 * f.sequenceType + 8 * f.paddingLengthType +
    0x20 * f.packetLengthType + 0x80 * f.errorCorrectionPresent
  }

  function DecodeLengthTypeFlags(b: byte): (f: LengthTypeFlags)
    ensures f.Valid()
  {
    var b1 := b / 2; var b3 := b1 / 4; var b5 := b3 / 4; var b7 := b5 / 4;
    LengthTypeFlags(b % 2, b1 % 4, b3 % 4, b5 % 4, b7)
  }

  lemma LengthTypeFlagsRoundTrip(f: LengthTypeFlags, b: byte)
    requires f.Valid()
    ensures DecodeLengthTypeFlags(EncodeLengthTypeFlags(f)) == f
    ensures EncodeLengthTypeFlags(DecodeLengthTypeFlags(b)) == b
  {
    var e5 := f.packetLengthType + 4 * f.errorCorrectionPresent;
    var e3 := f.paddingLengthType + 4 * e5;
    var e1 := f.sequenceType + 4 * e3;
    QuotientRemainder(EncodeLengthTypeFlags(f), 2, e1, f.multiplePayloadsPresent);
    QuotientRemainder(e1, 4, e3, f.sequenceType);
    QuotientRemainder(e3, 4, e5, f.paddingLengthType);
    QuotientRemainder(e5, 4, f.errorCorrectionPresent, f.packetLengthType);
    var b1 := b / 2; var b3 := b1 / 4; var b5 := b3 / 4;
    assert b == 2 * b1 + b % 2;
    assert b1 == 4 * b3 + b1 % 4;
    assert b3 == 4 * b5 + b3 % 4;
    assert b5 == 4 * (b5 / 4) + b5 % 4;
  }

  /** `PayloadParsingInformation::PropertyFlags` (one byte): the length types
      (2 bits each) of Replicated Data Length, Offset Into Media Object, Media
      Object Number and Stream Number (ASF section 5.2.2). */
  datatype PropertyFlags = PropertyFlags(
    replicatedDataLengthType: nat, offsetIntoMediaObjectLengthType: nat,
    mediaObjectNumberLengthType: nat, streamNumberLengthType: nat)
  {
    predicate Valid() {
      replicatedDataLengthType < 4 && offsetIntoMediaObjectLengthType < 4 &&
      mediaObjectNumberLengthType < 4 && streamNumberLengthType < 4
    }
  }

  function EncodePropertyFlags(f: PropertyFlags): (r: byte)
    requires f.Valid()
  {
    f.replicatedDataLengthType + 4 * f.offsetIntoMediaObjectLengthType +
    0x10 * f.mediaObjectNumberLengthType + 0x40 * f.streamNumberLengthType
  }

  function DecodePropertyFlags(b: byte): (f: PropertyFlags)
    ensures f.Valid()
  {
    var b2 := b / 4; var b4 := b2 / 4; var b6 := b4 / 4;
    PropertyFlags(b % 4, b2 % 4, b4 % 4, b6)
  }

  lemma PropertyFlagsRoundTrip(f: PropertyFlags, b: byte)
    requires f.Valid()
    ensures DecodePropertyFlags(EncodePropertyFlags(f)) == f
    ensures EncodePropertyFlags(DecodePropertyFlags(b)) == b
  {
    var e4 := f.mediaObjectNumberLengthType + 4 * f.streamNumberLengthType;
    var e2 := f.offsetIntoMediaObjectLengthType + 4 * e4;
    QuotientRemainder(EncodePropertyFlags(f), 4, e2, f.replicatedDataLengthType);
    QuotientRemainder(e2, 4, e4, f.offsetIntoMediaObjectLengthType);
    QuotientRemainder(e4, 4, f.streamNumberLengthType, f.mediaObjectNumberLengthType);
    var b2 := b / 4; var b4 := b2 / 4;
    assert b == 4 * b2 + b % 4;
    assert b2 == 4 * b4 + b2 % 4;
    assert b4 == 4 * (b4 / 4) + b4 % 4;
  }

  // ---------------------------------------------------------------------
  // Packed structures

  /** `HeaderObject`, the 6 bytes after the Header Object's GUID and size. */
  datatype HeaderObject = HeaderObject(numObjects: u32, reserved1: byte, reserved2: byte)

  const HEADER_OBJECT_SIZE := 6

  function EncodeHeaderObject(h: HeaderObject): (r: seq<byte>)
    ensures |r| == HEADER_OBJECT_SIZE
  {
    ToLE32(h.numObjects) + [h.reserved1, h.reserved2]
  }

  function DecodeHeaderObject(s: seq<byte>): (h: HeaderObject)
    requires |s| == HEADER_OBJECT_SIZE
  {
    HeaderObject(LE32(s, 0), s[4], s[5])
  }

  lemma {:induction false} HeaderObjectRoundTrip(h: HeaderObject, s: seq<byte>)
    requires |s| == HEADER_OBJECT_SIZE
    ensures DecodeHeaderObject(EncodeHeaderObject(h)) == h
    ensures EncodeHeaderObject(DecodeHeaderObject(s)) == s
  {
    LE32RoundTrip(0, s, 0);
    var w := EncodeHeaderObject(h);
    LE32RoundTrip(h.numObjects, w, 0);
    assert w[..4] == ToLE32(h.numObjects);
    LE32Slice(w, 0, 4, 0);
  }

  /** `FilePropertiesObject` (ASF section 3.2), 80 bytes. */
  datatype FilePropertiesObject = FilePropertiesObject(
    fileId: Guid, fileSize: u64, creationDate: u64, dataPacketsCount: u64,
    playDuration: u64, sendDuration: u64, preroll: u64, flags: FileFlags,
    minDataPacketSize: u32, maxDataPacketSize: u32, maxBitrate: u32)
  {
    predicate Valid() { fileId.Valid() && flags.Valid() }
  }

  const FILE_PROPERTIES_SIZE := 80

  function EncodeFileProperties(f: FilePropertiesObject): (r: seq<byte>)
    requires f.Valid()
    ensures |r| == FILE_PROPERTIES_SIZE
  {
    GuidBytes(f.fileId) + ToLE64(f.fileSize) + ToLE64(f.creationDate) +
    ToLE64(f.dataPacketsCount) + ToLE64(f.playDuration) + ToLE64(f.sendDuration) +
    ToLE64(f.preroll) + ToLE32(EncodeFileFlags(f.flags)) + ToLE32(f.minDataPacketSize) +
    ToLE32(f.maxDataPacketSize) + ToLE32(f.maxBitrate)
  }

  function DecodeFileProperties(s: seq<byte>): (f: FilePropertiesObject)
    requires |s| == FILE_PROPERTIES_SIZE
    ensures f.Valid()
  {
    FilePropertiesObject(
      DecodeGuid(s, 0), LE64(s, 16), LE64(s, 24), LE64(s, 32), LE64(s, 40), LE64(s, 48),
      LE64(s, 56), DecodeFileFlags(LE32(s, 64)), LE32(s, 68), LE32(s, 72), LE32(s, 76))
  }

  lemma {:induction false} FilePropertiesEncodes(s: seq<byte>, f: FilePropertiesObject)
    requires |s| == FILE_PROPERTIES_SIZE && f.Valid()
    requires GuidBytes(f.fileId) == s[..16]
    requires f.fileSize == LE64(s, 16) && f.creationDate == LE64(s, 24)
    requires f.dataPacketsCount == LE64(s, 32) && f.playDuration == LE64(s, 40)
    requires f.sendDuration == LE64(s, 48) && f.preroll == LE64(s, 56)
    requires EncodeFileFlags(f.flags) == LE32(s, 64) && f.minDataPacketSize == LE32(s, 68)
    requires f.maxDataPacketSize == LE32(s, 72) && f.maxBitrate == LE32(s, 76)
    ensures EncodeFileProperties(f) == s
  {
    var acc := GuidBytes(f.fileId);
    LE64RoundTrip(0, s, 16); Extend(s, 16, 24, acc, ToLE64(f.fileSize)); acc := acc + ToLE64(f.fileSize);
    LE64RoundTrip(0, s, 24); Extend(s, 24, 32, acc, ToLE64(f.creationDate)); acc := acc + ToLE64(f.creationDate);
    LE64RoundTrip(0, s, 32); Extend(s, 32, 40, acc, ToLE64(f.dataPacketsCount)); acc := acc + ToLE64(f.dataPacketsCount);
    LE64RoundTrip(0, s, 40); Extend(s, 40, 48, acc, ToLE64(f.playDuration)); acc := acc + ToLE64(f.playDuration);
    LE64RoundTrip(0, s, 48); Extend(s, 48, 56, acc, ToLE64(f.sendDuration)); acc := acc + ToLE64(f.sendDuration);
    LE64RoundTrip(0, s, 56); Extend(s, 56, 64, acc, ToLE64(f.preroll)); acc := acc + ToLE64(f.preroll);
    var flags := EncodeFileFlags(f.flags);
    LE32RoundTrip(0, s, 64); Extend(s, 64, 68, acc, ToLE32(flags)); acc := acc + ToLE32(flags);
    LE32RoundTrip(0, s, 68); Extend(s, 68, 72, acc, ToLE32(f.minDataPacketSize)); acc := acc + ToLE32(f.minDataPacketSize);
    LE32RoundTrip(0, s, 72); Extend(s, 72, 76, acc, ToLE32(f.maxDataPacketSize)); acc := acc + ToLE32(f.maxDataPacketSize);
    LE32RoundTrip(0, s, 76); Extend(s, 76, 80, acc, ToLE32(f.maxBitrate)); acc := acc + ToLE32(f.maxBitrate);
    assert s[..80] == s;
  }

  lemma {:induction false} FilePropertiesRoundTrip(f: FilePropertiesObject, s: seq<byte>)
    requires f.Valid() && |s| == FILE_PROPERTIES_SIZE
    ensures DecodeFileProperties(EncodeFileProperties(f)) == f
    ensures EncodeFileProperties(DecodeFileProperties(s)) == s
  {
    var d := DecodeFileProperties(s);
    GuidRoundTrip(d.fileId, s, 0);
    FileFlagsRoundTrip(d.flags, LE32(s, 64));
    FilePropertiesEncodes(s, d);
    var w := EncodeFileProperties(f);
    GuidPrefix(f.fileId, w);
    U64At(f.fileSize, w, 16); U64At(f.creationDate, w, 24); U64At(f.dataPacketsCount, w, 32);
    U64At(f.playDuration, w, 40); U64At(f.sendDuration, w, 48); U64At(f.preroll, w, 56);
    U32At(EncodeFileFlags(f.flags), w, 64); U32At(f.minDataPacketSize, w, 68);
    U32At(f.maxDataPacketSize, w, 72); U32At(f.maxBitrate, w, 76);
    FileFlagsRoundTrip(f.flags, 0);
  }

  /** `StreamPropertiesObject` (ASF section 3.3), the 54 fixed bytes; the
      type-specific and error-correction data follow it. */
  datatype StreamPropertiesObject = StreamPropertiesObject(
    streamType: Guid, errorCorrectionType: Guid, timeOffset: u64,
    typeSpecificDataLength: u32, errorCorrectionDataLength: u32,
    flags: StreamFlags, reserved: u32)
  {
    predicate Valid() { streamType.Valid() && errorCorrectionType.Valid() && flags.Valid() }
  }

  const STREAM_PROPERTIES_SIZE := 54

  function EncodeStreamProperties(p: StreamPropertiesObject): (r: seq<byte>)
    requires p.Valid()
    ensures |r| == STREAM_PROPERTIES_SIZE
  {
    GuidBytes(p.streamType) + GuidBytes(p.errorCorrectionType) + ToLE64(p.timeOffset) +
    ToLE32(p.typeSpecificDataLength) + ToLE32(p.errorCorrectionDataLength) +
    ToLE16(EncodeStreamFlags(p.flags)) + ToLE32(p.reserved)
  }

  function DecodeStreamProperties(s: seq<byte>): (p: StreamPropertiesObject)
    requires |s| == STREAM_PROPERTIES_SIZE
    ensures p.Valid()
  {
    StreamPropertiesObject(
      DecodeGuid(s, 0), DecodeGuid(s, 16), LE64(s, 32), LE32(s, 40), LE32(s, 44),
      DecodeStreamFlags(LE16(s, 48)), LE32(s, 50))
  }

  lemma {:induction false} StreamPropertiesRoundTrip(p: StreamPropertiesObject, s: seq<byte>)
    requires p.Valid() && |s| == STREAM_PROPERTIES_SIZE
    ensures DecodeStreamProperties(EncodeStreamProperties(p)) == p
    ensures EncodeStreamProperties(DecodeStreamProperties(s)) == s
  {
    var d := DecodeStreamProperties(s);
    GuidRoundTrip(d.streamType, s, 0);
    GuidRoundTrip(d.errorCorrectionType, s, 16);
    StreamFlagsRoundTrip(d.flags, LE16(s, 48));
    StreamPropertiesEncodes(s, d);
    StreamPropertiesDecodes(p);
  }

  lemma {:induction false} StreamPropertiesEncodes(s: seq<byte>, d: StreamPropertiesObject)
    requires |s| == STREAM_PROPERTIES_SIZE && d.Valid()
    requires GuidBytes(d.streamType) == s[..16] && GuidBytes(d.errorCorrectionType) == s[16..32]
    requires d.timeOffset == LE64(s, 32) && d.typeSpecificDataLength == LE32(s, 40)
    requires d.errorCorrectionDataLength == LE32(s, 44)
    requires EncodeStreamFlags(d.flags) == LE16(s, 48) && d.reserved == LE32(s, 50)
    ensures EncodeStreamProperties(d) == s
  {
    var acc := GuidBytes(d.streamType);
    Extend(s, 16, 32, acc, GuidBytes(d.errorCorrectionType)); acc := acc + GuidBytes(d.errorCorrectionType);
    LE64RoundTrip(0, s, 32); Extend(s, 32, 40, acc, ToLE64(d.timeOffset)); acc := acc + ToLE64(d.timeOffset);
    LE32RoundTrip(0, s, 40); Extend(s, 40, 44, acc, ToLE32(d.typeSpecificDataLength)); acc := acc + ToLE32(d.typeSpecificDataLength);
    LE32RoundTrip(0, s, 44); Extend(s, 44, 48, acc, ToLE32(d.errorCorrectionDataLength)); acc := acc + ToLE32(d.errorCorrectionDataLength);
    var flags := EncodeStreamFlags(d.flags);
    LE16RoundTrip(0, s, 48); Extend(s, 48, 50, acc, ToLE16(flags)); acc := acc + ToLE16(flags);
    LE32RoundTrip(0, s, 50); Extend(s, 50, 54, acc, ToLE32(d.reserved)); acc := acc + ToLE32(d.reserved);
    assert s[..54] == s;
  }

  lemma {:induction false} StreamPropertiesDecodes(p: StreamPropertiesObject)
    requires p.Valid()
    ensures DecodeStreamProperties(EncodeStreamProperties(p)) == p
  {
    var w := EncodeStreamProperties(p);
    GuidPrefix(p.streamType, w);
    GuidAt(p.errorCorrectionType, w, 16);
    U64At(p.timeOffset, w, 32); U32At(p.typeSpecificDataLength, w, 40);
    U32At(p.errorCorrectionDataLength, w, 44); U16At(EncodeStreamFlags(p.flags), w, 48);
    U32At(p.reserved, w, 50);
    StreamFlagsRoundTrip(p.flags, 0);
  }

  /** `HeaderExtensionObject` (ASF section 3.4), the 22 fixed bytes. */
  datatype HeaderExtensionObject = HeaderExtensionObject(
    reserved1: Guid, reserved2: u16, headerExtensionDataSize: u32)
  {
    predicate Valid() { reserved1.Valid() }
  }

  const HEADER_EXTENSION_SIZE := 22

  function EncodeHeaderExtension(e: HeaderExtensionObject): (r: seq<byte>)
    requires e.Valid()
    ensures |r| == HEADER_EXTENSION_SIZE
  {
    GuidBytes(e.reserved1) + ToLE16(e.reserved2) + ToLE32(e.headerExtensionDataSize)
  }

  function DecodeHeaderExtension(s: seq<byte>): (e: HeaderExtensionObject)
    requires |s| == HEADER_EXTENSION_SIZE
    ensures e.Valid()
  {
    HeaderExtensionObject(DecodeGuid(s, 0), LE16(s, 16), LE32(s, 18))
  }

  lemma {:induction false} HeaderExtensionRoundTrip(e: HeaderExtensionObject, s: seq<byte>)
    requires e.Valid() && |s| == HEADER_EXTENSION_SIZE
    ensures DecodeHeaderExtension(EncodeHeaderExtension(e)) == e
    ensures EncodeHeaderExtension(DecodeHeaderExtension(s)) == s
  {
    GuidRoundTrip(DecodeGuid(s, 0), s, 0);
    LE16RoundTrip(0, s, 16); LE32RoundTrip(0, s, 18);
    assert s == s[..16] + s[16..18] + s[18..22];
    var w := EncodeHeaderExtension(e);
    GuidPrefix(e.reserved1, w);
    U16At(e.reserved2, w, 16); U32At(e.headerExtensionDataSize, w, 18);
  }

  /** `DataObject` (the Data Object fields of ASF section 5.1), the 26
      bytes after the Data Object's GUID and size. */
  datatype DataObject = DataObject(fileId: Guid, totalDataPackets: u64, reserved: u16)
  {
    predicate Valid() { fileId.Valid() }
  }

  const DATA_OBJECT_SIZE := 26

  function EncodeDataObject(d: DataObject): (r: seq<byte>)
    requires d.Valid()
    ensures |r| == DATA_OBJECT_SIZE
  {
    GuidBytes(d.fileId) + ToLE64(d.totalDataPackets) + ToLE16(d.reserved)
  }

  function DecodeDataObject(s: seq<byte>): (d: DataObject)
    requires |s| == DATA_OBJECT_SIZE
    ensures d.Valid()
  {
    DataObject(DecodeGuid(s, 0), LE64(s, 16), LE16(s, 24))
  }

  lemma {:induction false} DataObjectRoundTrip(d: DataObject, s: seq<byte>)
    requires d.Valid() && |s| == DATA_OBJECT_SIZE
    ensures DecodeDataObject(EncodeDataObject(d)) == d
    ensures EncodeDataObject(DecodeDataObject(s)) == s
  {
    GuidRoundTrip(DecodeGuid(s, 0), s, 0);
    LE64RoundTrip(0, s, 16); LE16RoundTrip(0, s, 24);
    assert s == s[..16] + s[16..24] + s[24..26];
    var w := EncodeDataObject(d);
    GuidPrefix(d.fileId, w);
    U64At(d.totalDataPackets, w, 16); U16At(d.reserved, w, 24);
  }

  // ---------------------------------------------------------------------
  // Helpers: Euclidean division, and a field encoded inside a larger encoding reads back unchanged

  lemma Extend(s: seq<byte>, j: nat, k: nat, prefix: seq<byte>, piece: seq<byte>)
    requires j <= k <= |s| && prefix == s[..j] && piece == s[j..k]
    ensures prefix + piece == s[..k]
  {
    assert s[..k] == s[..j] + s[j..k];
  }

  /** Euclidean division by one of the field widths used above. */
  lemma QuotientRemainder(x: nat, d: nat, q: nat, r: nat)
    requires (d == 2 || d == 4 || d == 0x10 || d == 0x80 || d == 0x100) && r < d && x == q * d + r
    ensures x / d == q && x % d == r
  {
    if d == 2 { assert x == 2 * q + r; }
    else if d == 4 { assert x == 4 * q + r; }
    else if d == 0x10 { assert x == 0x10 * q + r; }
    else if d == 0x80 { assert x == 0x80 * q + r; }
    else { assert x == 0x100 * q + r; }
  }

  lemma GuidPrefix(g: Guid, w: seq<byte>)
    requires g.Valid() && 16 <= |w| && w[..16] == GuidBytes(g)
    ensures DecodeGuid(w, 0) == g
  {
    GuidAt(g, w, 0);
  }

  lemma GuidAt(g: Guid, w: seq<byte>, i: nat)
    requires g.Valid() && i + 16 <= |w| && w[i..i + 16] == GuidBytes(g)
    ensures DecodeGuid(w, i) == g
  {
    GuidRoundTrip(g, w, i);
    var v := w[i..i + 16];
    LE32Slice(w, i, i + 16, 0);
    LE16Slice(w, i, i + 16, 4);
    LE16Slice(w, i, i + 16, 6);
    assert DecodeGuid(w, i) == DecodeGuid(v, 0);
  }

  lemma U16At(x: u16, w: seq<byte>, i: nat)
    requires i + 2 <= |w| && w[i..i + 2] == ToLE16(x)
    ensures LE16(w, i) == x
  {
    LE16RoundTrip(x, w, i);
  }

  lemma U32At(x: u32, w: seq<byte>, i: nat)
    requires i + 4 <= |w| && w[i..i + 4] == ToLE32(x)
    ensures LE32(w, i) == x
  {
    LE32RoundTrip(x, w, i);
    LE32Slice(w, i, i + 4, 0);
  }

  lemma U64At(x: u64, w: seq<byte>, i: nat)
    requires i + 8 <= |w| && w[i..i + 8] == ToLE64(x)
    ensures LE64(w, i) == x
  {
    LE64RoundTrip(x, w, i);
    LE64Slice(w, i, i + 8, 0);
  }
}
