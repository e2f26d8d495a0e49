/** The validator itself: a cursor over the input file moved forward step by
    step, with the "has error correction" flag it sets while walking the
    header and consults in every data packet.

    The primitive reads and `Peek` are specified directly on the input bytes.
    Every other method is proved to compute exactly what its counterpart in
    `Walker` computes from the state it starts in (the same name, or
    `Skip`, `SubObject`, `SubObjects`, `HeaderObjectBody`, `DataObjectBody`,
    `Walk` and `Validate` for `Seek`, `HeaderSubObject`, `HeaderSubObjects`,
    `HeaderObject`, `DataObject`, `Run` and `ValidateFile`); on success the method's new cursor is the
    position that function returns. After a
    failure the run is over and the cursor is not specified. The Stream
    Properties skip is over the full sum of its two data lengths, where the
    program's 32-bit sum can wrap; `Findings` models the wrapping sum. */
module Validator {
  import opened Wire
  import opened Guids
  import opened Layout
  import opened Walker

  class AsfValidator {
    /** The whole input file. */
    const bytes: seq<byte>
    /** The file position. */
    var pos: nat
    /** Set once an Error Correction Object has been seen among the header's
        sub-objects. */
    var hasErrorCorrection: bool

    ghost predicate Valid()
      reads this
    {
      pos <= |bytes|
    }

    ghost function Cursor(): State
      reads this
    {
      State(pos, hasErrorCorrection)
    }

    constructor (input: seq<byte>)
      ensures Valid() && bytes == input
      ensures pos == 0 && !hasErrorCorrection
    {
      bytes := input;
      pos := 0;
      hasErrorCorrection := false;
    }

    // -------------------------------------------------------------------
    // Reading

    /** `fread` of `n` bytes; a short read is a failure. */
    method Read(n: nat) returns (r: Result<seq<byte>>)
      requires Valid()
      modifies this`pos
      ensures Valid()
      ensures r == if old(pos) + n <= |bytes| then Ok(bytes[old(pos)..old(pos) + n]) else Err(Truncated)
      ensures pos == if r.Ok? then old(pos) + n else old(pos)
    {
      if pos + n > |bytes| {
        return Err(Truncated);
      }
      r := Ok(bytes[pos..pos + n]);
      pos := pos + n;
    }

    /** `fgetc`, or `fread` of a one-byte structure. */
    method ReadByte() returns (r: Result<byte>)
      requires Valid()
      modifies this`pos
      ensures Valid()
      ensures r == if old(pos) < |bytes| then Ok(bytes[old(pos)]) else Err(Truncated)
      ensures pos == if r.Ok? then old(pos) + 1 else old(pos)
    {
      if pos >= |bytes| {
        return Err(Truncated);
      }
      r := Ok(bytes[pos]);
      pos := pos + 1;
    }

    method ReadU16() returns (r: Result<u16>)
      requires Valid()
      modifies this`pos
      ensures Valid()
      ensures r == if old(pos) + 2 <= |bytes| then Ok(LE16(bytes, old(pos))) else Err(Truncated)
      ensures pos == if r.Ok? then old(pos) + 2 else old(pos)
    {
      var raw :- Read(2);
      return Ok(LE16(raw, 0));
    }

    method ReadU32() returns (r: Result<u32>)
      requires Valid()
      modifies this`pos
      ensures Valid()
      ensures r == if old(pos) + 4 <= |bytes| then Ok(LE32(bytes, old(pos))) else Err(Truncated)
      ensures pos == if r.Ok? then old(pos) + 4 else old(pos)
    {
      var raw :- Read(4);
      LE32Slice(bytes, old(pos), pos, 0);
      return Ok(LE32(raw, 0));
    }

    method ReadU64() returns (r: Result<u64>)
      requires Valid()
      modifies this`pos
      ensures Valid()
      ensures r == if old(pos) + 8 <= |bytes| then Ok(LE64(bytes, old(pos))) else Err(Truncated)
      ensures pos == if r.Ok? then old(pos) + 8 else old(pos)
    {
      var raw :- Read(8);
      LE64Slice(bytes, old(pos), pos, 0);
      return Ok(LE64(raw, 0));
    }

    /** `fseek` forward by `n` bytes from the current position; a position
        beyond the end of the file is a failure. */
    method Seek(n: nat) returns (r: Result<nat>)
      requires Valid()
      modifies this`pos
      ensures Valid()
      ensures r == Walker.Skip(bytes, old(pos), n)
      ensures pos == if r.Ok? then r.value else old(pos)
    {
      if pos + n > |bytes| {
        return Err(Truncated);
      }
      pos := pos + n;
      return Ok(pos);
    }

    /** `fpeek`: the byte at the cursor, which stays where it is. */
    method Peek() returns (r: Result<byte>)
      requires Valid()
      ensures r == if pos < |bytes| then Ok(bytes[pos]) else Err(Truncated)
    {
      if pos >= |bytes| {
        return Err(Truncated);
      }
      return Ok(bytes[pos]);
    }

    /** A GUID and a 64-bit size; the size must be at least 24. */
    method ReadObjectHeader() returns (r: Result<ObjectHeader>)
      requires Valid()
      modifies this`pos
      ensures Valid()
      ensures r == Walker.ReadObjectHeader(bytes, old(pos))
      ensures r.Ok? ==> pos == old(pos) + OBJECT_HEADER_SIZE
    {
      var guid :- Read(16);
      var size :- ReadU64();
      if size < OBJECT_HEADER_SIZE {
        return Err(ObjectTooSmall);
      }
      return Ok(ObjectHeader(guid, size));
    }

    // -------------------------------------------------------------------
    // Header sub-objects

    method FileProperties() returns (r: Result<nat>)
      requires Valid()
      modifies this`pos
      ensures Valid()
      ensures r == Walker.FileProperties(bytes, old(pos))
      ensures r.Ok? ==> pos == r.value
    {
      var raw :- Read(FILE_PROPERTIES_SIZE);
      var file := DecodeFileProperties(raw);
      LE32Slice(bytes, old(pos), pos, 64);
      LE32Slice(bytes, old(pos), pos, 68);
      LE32Slice(bytes, old(pos), pos, 72);
      if file.flags.broadcast != 0 {
        return Err(BroadcastFlagSet);
      }
      if file.flags.reserved != 0 {
        return Err(FileFlagsReserved);
      }
      if file.minDataPacketSize != file.maxDataPacketSize {
        return Err(PacketSizeMismatch);
      }
      return Ok(pos);
    }

    method StreamProperties() returns (r: Result<nat>)
      requires Valid()
      modifies this`pos
      ensures Valid()
      ensures r == Walker.StreamProperties(bytes, old(pos))
      ensures r.Ok? ==> pos == r.value
    {
      var raw :- Read(STREAM_PROPERTIES_SIZE);
      var stream := DecodeStreamProperties(raw);
      GuidRoundTrip(stream.streamType, raw, 0);
      assert raw[0..16] == bytes[old(pos)..old(pos) + 16];
      LE16Slice(bytes, old(pos), pos, 48);
      LE32Slice(bytes, old(pos), pos, 40);
      LE32Slice(bytes, old(pos), pos, 44);
      LE32Slice(bytes, old(pos), pos, 50);
      if GuidBytes(stream.streamType) != ASF_AUDIO_MEDIA {
        return Err(StreamNotAudio);
      }
      if stream.flags.reserved != 0 {
        return Err(StreamFlagsReserved);
      }
      if stream.flags.encryptedContent != 0 {
        return Err(StreamEncrypted);
      }
      if stream.reserved != 0 {
        return Err(StreamReserved);
      }
      r := Seek(StreamDataLength(stream.typeSpecificDataLength, stream.errorCorrectionDataLength));
    }

    method HeaderExtension() returns (r: Result<nat>)
      requires Valid()
      modifies this`pos
      ensures Valid()
      ensures r == Walker.HeaderExtension(bytes, old(pos))
      ensures r.Ok? ==> pos == r.value
    {
      var raw :- Read(HEADER_EXTENSION_SIZE);
      var ext := DecodeHeaderExtension(raw);
      GuidRoundTrip(ext.reserved1, raw, 0);
      assert raw[0..16] == bytes[old(pos)..old(pos) + 16];
      LE16Slice(bytes, old(pos), pos, 16);
      LE32Slice(bytes, old(pos), pos, 18);
      if GuidBytes(ext.reserved1) != ASF_RESERVED_1 {
        return Err(ExtensionReserved1);
      }
      if ext.reserved2 != 6 {
        return Err(ExtensionReserved2);
      }
      if ext.headerExtensionDataSize != 0 {
        return Err(ExtensionDataPresent);
      }
      return Ok(pos);
    }

    method ExtendedContentDescription() returns (r: Result<nat>)
      requires Valid()
      modifies this`pos
      ensures Valid()
      ensures r == Walker.ExtendedContentDescription(bytes, old(pos))
      ensures r.Ok? ==> pos == r.value
    {
      var count :- ReadU16();
      r := ContentDescriptors(count);
    }

    /** `count` content descriptors in a row. */
    method ContentDescriptors(count: nat) returns (r: Result<nat>)
      requires Valid()
      modifies this`pos
      ensures Valid()
      ensures r == Walker.ContentDescriptors(bytes, old(pos), count)
      ensures r.Ok? ==> pos == r.value
    {
      var j := 0;
      while j < count
        invariant Valid() && j <= count
        invariant Walker.ContentDescriptors(bytes, old(pos), count) == Walker.ContentDescriptors(bytes, pos, count - j)
      {
        var descriptor :- ContentDescriptor();
        j := j + 1;
      }
      return Ok(pos);
    }

    /** One content descriptor; the name is read and discarded, the value
        skipped. */
    method ContentDescriptor() returns (r: Result<nat>)
      requires Valid()
      modifies this`pos
      ensures Valid()
      ensures r == Walker.ContentDescriptor(bytes, old(pos))
      ensures r.Ok? ==> pos == r.value
    {
      var nameLength :- ReadU16();
      var name :- Read(nameLength);
      var valueDataType :- ReadU16();
      var valueLength :- ReadU16();
      r := Seek(valueLength);
    }

    method CodecList() returns (r: Result<nat>)
      requires Valid()
      modifies this`pos
      ensures Valid()
      ensures r == Walker.CodecList(bytes, old(pos))
      ensures r.Ok? ==> pos == r.value
    {
      var reserved :- Read(16);
      var count :- ReadU32();
      if reserved != ASF_RESERVED_2 {
        return Err(CodecListReserved);
      }
      r := CodecEntries(count);
    }

    /** `count` codec entries in a row. */
    method CodecEntries(count: nat) returns (r: Result<nat>)
      requires Valid()
      modifies this`pos
      ensures Valid()
      ensures r == Walker.CodecEntries(bytes, old(pos), count)
      ensures r.Ok? ==> pos == r.value
    {
      var j := 0;
      while j < count
        invariant Valid() && j <= count
        invariant Walker.CodecEntries(bytes, old(pos), count) == Walker.CodecEntries(bytes, pos, count - j)
      {
        var entry :- CodecEntry();
        j := j + 1;
      }
      return Ok(pos);
    }

    /** One codec entry; its type is checked once all of it has been read. */
    method CodecEntry() returns (r: Result<nat>)
      requires Valid()
      modifies this`pos
      ensures Valid()
      ensures r == Walker.CodecEntry(bytes, old(pos))
      ensures r.Ok? ==> pos == r.value
    {
      var codecType :- ReadU16();
      var nameLength :- ReadU16();
      var name :- Read(2 * (nameLength as nat));
      var descriptionLength :- ReadU16();
      var description :- Read(2 * (descriptionLength as nat));
      var informationLength :- ReadU16();
      var information :- Seek(informationLength);
      if codecType != 2 {
        return Err(CodecTypeNotAudio);
      }
      return Ok(pos);
    }

    /** One header sub-object; an Error Correction Object sets the flag. */
    method HeaderSubObject() returns (r: Result<State>)
      requires Valid()
      modifies this
      ensures Valid()
      ensures r == Walker.SubObject(bytes, old(Cursor()))
      ensures r.Ok? ==> Cursor() == r.value
    {
      var header :- ReadObjectHeader();
      var end :- SubObjectBody(header.guid, header.size);
      if !hasErrorCorrection && header.guid == ASF_ERROR_CORRECTION_OBJECT {
        hasErrorCorrection := true;
      }
      return Ok(State(pos, hasErrorCorrection));
    }

    /** The body of a header sub-object: decoded when its GUID is known,
        skipped by its body length otherwise. */
    method SubObjectBody(guid: seq<byte>, size: u64) returns (r: Result<nat>)
      requires Valid() && size >= OBJECT_HEADER_SIZE
      modifies this`pos
      ensures Valid()
      ensures r == Walker.SubObjectBody(bytes, guid, size, old(pos))
      ensures r.Ok? ==> pos == r.value
    {
      if guid == ASF_FILE_PROPERTIES_OBJECT {
        r := FileProperties();
      } else if guid == ASF_STREAM_PROPERTIES_OBJECT {
        r := StreamProperties();
      } else if guid == ASF_HEADER_EXTENSION_OBJECT {
        r := HeaderExtension();
      } else if guid == ASF_EXTENDED_CONTENT_DESCRIPTION_OBJECT {
        r := ExtendedContentDescription();
      } else if guid == ASF_CODEC_LIST_OBJECT {
        r := CodecList();
      } else {
        r := Seek(size - OBJECT_HEADER_SIZE);
      }
    }

    /** The Header Object's body: its fixed fields, then `numObjects`
        sub-objects. */
    method HeaderObject() returns (r: Result<State>)
      requires Valid()
      modifies this
      ensures Valid()
      ensures r == Walker.HeaderObjectBody(bytes, old(Cursor()))
      ensures r.Ok? ==> Cursor() == r.value
    {
      var raw :- Read(HEADER_OBJECT_SIZE);
      var header := DecodeHeaderObject(raw);
      LE32Slice(bytes, old(pos), pos, 0);
      if header.reserved1 != 1 {
        return Err(HeaderReserved1);
      }
      if header.reserved2 != 2 {
        return Err(HeaderReserved2);
      }
      r := HeaderSubObjects(header.numObjects);
    }

    /** `count` header sub-objects in a row. */
    method HeaderSubObjects(count: nat) returns (r: Result<State>)
      requires Valid()
      modifies this
      ensures Valid()
      ensures r == SubObjects(bytes, old(Cursor()), count)
      ensures r.Ok? ==> Cursor() == r.value
    {
      var i := 0;
      while i < count
        invariant Valid() && i <= count
        invariant SubObjects(bytes, old(Cursor()), count) == SubObjects(bytes, Cursor(), count - i)
      {
        ghost var before := Cursor();
        var sub := HeaderSubObject();
        if sub.Err? {
          return Err(sub.failure);
        }
        assert SubObjects(bytes, before, count - i) == SubObjects(bytes, sub.value, count - i - 1);
        i := i + 1;
      }
      return Ok(State(pos, hasErrorCorrection));
    }

    // -------------------------------------------------------------------
    // Data packets

    /** The prefix of one data packet: the peeked error correction flags,
        the optional error correction data, and the two payload parsing
        information flag bytes. */
    method DataPacket() returns (r: Result<nat>)
      requires Valid()
      modifies this`pos
      ensures Valid()
      ensures r == Walker.DataPacket(bytes, old(pos), hasErrorCorrection)
      ensures r.Ok? ==> pos == r.value
    {
      var first :- Peek();
      var flags := DecodeErrorCorrectionFlags(first);
      if flags.dataLength != 2 {
        return Err(ErrorCorrectionDataLength);
      }
      if flags.opaqueDataPresent != 0 {
        return Err(OpaqueDataPresent);
      }
      if flags.lengthType != 0 {
        return Err(ErrorCorrectionLengthType);
      }
      if flags.present != 0 {
        // the peeked byte is there, so consuming it cannot fail
        var flagsByte := ReadByte();
        var raw :- Read(2);
        var data := DecodeErrorCorrectionData(raw);
        if data.kind != 0 || hasErrorCorrection {
          return Err(ErrorCorrectionConflict);
        }
      }
      var lengthTypeByte :- ReadByte();
      var propertyByte :- ReadByte();
      var lengthTypeFlags := DecodeLengthTypeFlags(lengthTypeByte);
      var propertyFlags := DecodePropertyFlags(propertyByte);
      if lengthTypeFlags.sequenceType != 0 {
        return Err(SequenceTypePresent);
      }
      return Ok(pos);
    }

    /** The Data Object's body: its fixed fields, then `totalDataPackets`
        packet prefixes. */
    method DataObject() returns (r: Result<nat>)
      requires Valid()
      modifies this`pos
      ensures Valid()
      ensures r == Walker.DataObjectBody(bytes, old(pos), hasErrorCorrection)
      ensures r.Ok? ==> pos == r.value
    {
      var raw :- Read(DATA_OBJECT_SIZE);
      var dataObject := DecodeDataObject(raw);
      LE16Slice(bytes, old(pos), pos, 24);
      LE64Slice(bytes, old(pos), pos, 16);
      if dataObject.reserved != 0x101 {
        return Err(DataObjectReserved);
      }
      r := DataPackets(dataObject.totalDataPackets);
    }

    /** `count` data packet prefixes in a row. */
    method DataPackets(count: nat) returns (r: Result<nat>)
      requires Valid()
      modifies this`pos
      ensures Valid()
      ensures r == Walker.DataPackets(bytes, old(pos), hasErrorCorrection, count)
      ensures r.Ok? ==> pos == r.value
    {
      var i := 0;
      while i < count
        invariant Valid() && i <= count
        invariant Walker.DataPackets(bytes, old(pos), hasErrorCorrection, count) ==
          Walker.DataPackets(bytes, pos, hasErrorCorrection, count - i)
      {
        ghost var before := pos;
        var packet :- DataPacket();
        assert Walker.DataPackets(bytes, before, hasErrorCorrection, count - i) ==
          Walker.DataPackets(bytes, packet, hasErrorCorrection, count - i - 1);
        i := i + 1;
      }
      return Ok(pos);
    }

    // -------------------------------------------------------------------
    // Top level

    method TopObject() returns (r: Result<State>)
      requires Valid()
      modifies this
      ensures Valid()
      ensures r == Walker.TopObject(bytes, old(Cursor()))
      ensures r.Ok? ==> Cursor() == r.value
    {
      var header :- ReadObjectHeader();
      if header.guid == ASF_HEADER_OBJECT {
        r := HeaderObject();
      } else if header.guid == ASF_DATA_OBJECT {
        var end :- DataObject();
        return Ok(State(end, hasErrorCorrection));
      } else {
        var end :- Seek(header.size - OBJECT_HEADER_SIZE);
        return Ok(State(end, hasErrorCorrection));
      }
    }

    /** Top-level objects until no input is left. */
    method Run() returns (r: Result<State>)
      requires Valid()
      modifies this
      ensures Valid()
      ensures r == Walker.Walk(bytes, old(Cursor()))
      ensures r.Ok? ==> Cursor() == r.value
    {
      while pos < |bytes|
        invariant Valid()
        invariant Walker.Walk(bytes, old(Cursor())) == Walker.Walk(bytes, Cursor())
        decreases |bytes| - pos
      {
        var next :- TopObject();
      }
      return Ok(State(pos, hasErrorCorrection));
    }
  }

  /** Validates a whole file held in memory: accepted exactly when the walk
      from the start, with the flag clear, accepts it. */
  method ValidateFile(input: seq<byte>) returns (r: Result<State>)
    ensures r == Walker.Validate(input)
  {
    var validator := new AsfValidator(input);
    r := validator.Run();
  }
}
