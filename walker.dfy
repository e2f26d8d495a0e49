/** The validator's logic as functions over the input bytes.

    Each function takes the whole input and a cursor position (and, where the
    validator consults or sets it, the "has error correction" flag) and
    returns either the position after what it consumed or the reason the file
    is rejected. Every assertion of the validator becomes one `Failure`; a
    read or a skip beyond the end of the input is `Truncated`. These functions
    are the specification the imperative validator in `Validator` is proved
    against. */
module Walker {
  import opened Wire
  import opened Guids
  import opened Layout

  /** Why a file is rejected, one reason per check of the validator. */
  datatype Failure =
    | Truncated                    // a read or a skip beyond the end of the input
    | ObjectTooSmall               // declared object size below 24
    | HeaderReserved1              // Header Object: reserved1 != 1
    | HeaderReserved2              // Header Object: reserved2 != 2
    | BroadcastFlagSet             // File Properties: broadcast flag set
    | FileFlagsReserved            // File Properties: reserved flag bits set
    | PacketSizeMismatch           // File Properties: min != max data packet size
    | StreamNotAudio               // Stream Properties: stream type is not audio media
    | StreamFlagsReserved          // Stream Properties: reserved flag bits set
    | StreamEncrypted              // Stream Properties: encrypted content flag set
    | StreamReserved               // Stream Properties: trailing reserved field nonzero
    | ExtensionReserved1           // Header Extension: reserved1 is not ASF_Reserved_1
    | ExtensionReserved2           // Header Extension: reserved2 != 6
    | ExtensionDataPresent         // Header Extension: extension data size nonzero
    | CodecListReserved            // Codec List: reserved is not ASF_Reserved_2
    | CodecTypeNotAudio            // Codec List: an entry's type != 2
    | DataObjectReserved           // Data Object: reserved != 0x101
    | ErrorCorrectionDataLength    // packet: error correction data length != 2
    | OpaqueDataPresent            // packet: opaque data present
    | ErrorCorrectionLengthType    // packet: error correction length type != 0
    | ErrorCorrectionConflict      // packet: error correction type != 0, or the header declared an Error Correction Object
    | SequenceTypePresent          // packet: sequence type != 0

  datatype Result<+T> = Ok(value: T) | Err(failure: Failure)
  {
    predicate IsFailure() { Err? }

    function PropagateFailure<U>(): Result<U>
      requires Err?
    {
      Err(failure)
    }

    function Extract(): T
      requires Ok?
    {
      value
    }
  }

  /** The cursor and the flag recording that the header declared an Error
      Correction Object. */
  datatype State = State(pos: nat, hasErrorCorrection: bool)

  /** A GUID and a 64-bit size start every object. */
  const OBJECT_HEADER_SIZE := 24

  datatype ObjectHeader = ObjectHeader(guid: seq<byte>, size: u64)

  /** A result that, when it is a position, lies between `pos` and the end of
      the input: the cursor never moves backwards nor past the end. */
  ghost predicate Forward(bytes: seq<byte>, pos: nat, r: Result<nat>)
  {
    r.Ok? ==> pos <= r.value <= |bytes|
  }

  ghost predicate ForwardState(bytes: seq<byte>, st: State, r: Result<State>)
  {
    r.Ok? ==>
      st.pos <= r.value.pos <= |bytes| &&
      (st.hasErrorCorrection ==> r.value.hasErrorCorrection)
  }

  // ---------------------------------------------------------------------
  // Cursor primitives

  /** Advancing over `n` bytes fails exactly when fewer than `n` remain. */
  function Skip(bytes: seq<byte>, pos: nat, n: nat): (r: Result<nat>)
    ensures r.Ok? <==> pos + n <= |bytes|
    ensures r.Ok? ==> r.value == pos + n
  {
    if pos + n <= |bytes| then Ok(pos + n) else Err(Truncated)
  }

  /** The GUID and size at `pos`; the size must cover the 24 bytes of the
      object header itself. */
  function ReadObjectHeader(bytes: seq<byte>, pos: nat): (r: Result<ObjectHeader>)
    ensures r.Ok? <==> pos + OBJECT_HEADER_SIZE <= |bytes| && LE64(bytes, pos + 16) >= OBJECT_HEADER_SIZE
    ensures r.Ok? ==>
      r.value.guid == bytes[pos..pos + 16] && r.value.size == LE64(bytes, pos + 16)
  {
    if pos + OBJECT_HEADER_SIZE > |bytes| then Err(Truncated)
    else
      var size := LE64(bytes, pos + 16);
      if size < OBJECT_HEADER_SIZE then Err(ObjectTooSmall)
      else Ok(ObjectHeader(bytes[pos..pos + 16], size))
  }

  // ---------------------------------------------------------------------
  // Header sub-objects. `pos` is the first byte after the object header.

  /** File Properties Object: the 80-byte structure, whose flags are the
      u32 at offset 64 and whose minimum and maximum data packet sizes are
      the u32s at offsets 68 and 72. */
  function FileProperties(bytes: seq<byte>, pos: nat): (r: Result<nat>)
    ensures Forward(bytes, pos, r)
  {
    if pos + FILE_PROPERTIES_SIZE > |bytes| then Err(Truncated)
    else
      var flags := DecodeFileFlags(LE32(bytes, pos + 64));
      if flags.broadcast != 0 then Err(BroadcastFlagSet)
      else if flags.reserved != 0 then Err(FileFlagsReserved)
      else if LE32(bytes, pos + 68) != LE32(bytes, pos + 72) then Err(PacketSizeMismatch)
      else Ok(pos + FILE_PROPERTIES_SIZE)
  }

  /** The number of bytes of type-specific and error correction data that
      follow the fixed part of a Stream Properties Object: the full sum of
      the two 32-bit lengths. */
  function StreamDataLength(typeSpecificDataLength: u32, errorCorrectionDataLength: u32): (r: nat)
  {
    typeSpecificDataLength + errorCorrectionDataLength
  }

  /** Stream Properties Object: the 54-byte structure (stream type GUID
      first, the two data lengths at offsets 40 and 44, the u16 flags at 48,
      a reserved u32 at 50), then the type-specific and error correction
      data, skipped. */
  function StreamProperties(bytes: seq<byte>, pos: nat): (r: Result<nat>)
    ensures Forward(bytes, pos, r)
  {
    if pos + STREAM_PROPERTIES_SIZE > |bytes| then Err(Truncated)
    else
      var flags := DecodeStreamFlags(LE16(bytes, pos + 48));
      if bytes[pos..pos + 16] != ASF_AUDIO_MEDIA then Err(StreamNotAudio)
      else if flags.reserved != 0 then Err(StreamFlagsReserved)
      else if flags.encryptedContent != 0 then Err(StreamEncrypted)
      else if LE32(bytes, pos + 50) != 0 then Err(StreamReserved)
      else Skip(bytes, pos + STREAM_PROPERTIES_SIZE, StreamDataLength(LE32(bytes, pos + 40), LE32(bytes, pos + 44)))
  }

  /** Header Extension Object: the 22-byte structure, a reserved GUID, a
      reserved u16 at offset 16 and the extension data size, a u32 at 18. */
  function HeaderExtension(bytes: seq<byte>, pos: nat): (r: Result<nat>)
    ensures Forward(bytes, pos, r)
  {
    if pos + HEADER_EXTENSION_SIZE > |bytes| then Err(Truncated)
    else if bytes[pos..pos + 16] != ASF_RESERVED_1 then Err(ExtensionReserved1)
    else if LE16(bytes, pos + 16) != 6 then Err(ExtensionReserved2)
    else if LE32(bytes, pos + 18) != 0 then Err(ExtensionDataPresent)
    else Ok(pos + HEADER_EXTENSION_SIZE)
  }

  /** One content descriptor: a 16-bit name length (in bytes), the name, a
      16-bit value data type, a 16-bit value length and the value. */
  function ContentDescriptor(bytes: seq<byte>, pos: nat): (r: Result<nat>)
    ensures Forward(bytes, pos, r)
    ensures r.Ok? ==> pos + 6 <= r.value
  {
    if pos + 2 > |bytes| then Err(Truncated)
    else
      var nameEnd := pos + 2 + LE16(bytes, pos);
      if nameEnd + 4 > |bytes| then Err(Truncated)
      else Skip(bytes, nameEnd + 4, LE16(bytes, nameEnd + 2))
  }

  /** `count` content descriptors in a row. */
  function ContentDescriptors(bytes: seq<byte>, pos: nat, count: nat): (r: Result<nat>)
    requires pos <= |bytes|
    ensures Forward(bytes, pos, r)
    ensures r.Ok? ==> pos + 6 * count <= r.value
    decreases count
  {
    if count == 0 then Ok(pos)
    else
      var next :- ContentDescriptor(bytes, pos);
      ContentDescriptors(bytes, next, count - 1)
  }

  /** Extended Content Description Object: a 16-bit descriptor count and the
      descriptors. */
  function ExtendedContentDescription(bytes: seq<byte>, pos: nat): (r: Result<nat>)
    ensures Forward(bytes, pos, r)
  {
    if pos + 2 > |bytes| then Err(Truncated)
    else ContentDescriptors(bytes, pos + 2, LE16(bytes, pos))
  }

  /** One codec entry: type, a name length in 16-bit characters, the name, a
      description length in 16-bit characters, the description, an
      information length in bytes and the information. The type is checked
      after the whole entry has been read. */
  function CodecEntry(bytes: seq<byte>, pos: nat): (r: Result<nat>)
    ensures Forward(bytes, pos, r)
    ensures r.Ok? ==> pos + 8 <= r.value
  {
    if pos + 4 > |bytes| then Err(Truncated)
    else
      var nameEnd := pos + 4 + 2 * LE16(bytes, pos + 2);
      if nameEnd + 2 > |bytes| then Err(Truncated)
      else
        var descriptionEnd := nameEnd + 2 + 2 * LE16(bytes, nameEnd);
        if descriptionEnd + 2 > |bytes| then Err(Truncated)
        else
          var end :- Skip(bytes, descriptionEnd + 2, LE16(bytes, descriptionEnd));
          if LE16(bytes, pos) != 2 then Err(CodecTypeNotAudio) else Ok(end)
  }

  /** `count` codec entries in a row. */
  function CodecEntries(bytes: seq<byte>, pos: nat, count: nat): (r: Result<nat>)
    requires pos <= |bytes|
    ensures Forward(bytes, pos, r)
    ensures r.Ok? ==> pos + 8 * count <= r.value
    decreases count
  {
    if count == 0 then Ok(pos)
    else
      var next :- CodecEntry(bytes, pos);
      CodecEntries(bytes, next, count - 1)
  }

  /** Codec List Object: a reserved GUID and a 32-bit entry count (both read
      before the GUID is checked), then the entries. */
  function CodecList(bytes: seq<byte>, pos: nat): (r: Result<nat>)
    ensures Forward(bytes, pos, r)
  {
    if pos + 20 > |bytes| then Err(Truncated)
    else if bytes[pos..pos + 16] != ASF_RESERVED_2 then Err(CodecListReserved)
    else CodecEntries(bytes, pos + 20, LE32(bytes, pos + 16))
  }

  /** The body of a header sub-object with the given GUID and declared size:
      a known object is decoded, any other is skipped by its body length. */
  function SubObjectBody(bytes: seq<byte>, guid: seq<byte>, size: nat, pos: nat): (r: Result<nat>)
    requires size >= OBJECT_HEADER_SIZE
    ensures Forward(bytes, pos, r)
  {
    if guid == ASF_FILE_PROPERTIES_OBJECT then FileProperties(bytes, pos)
    else if guid == ASF_STREAM_PROPERTIES_OBJECT then StreamProperties(bytes, pos)
    else if guid == ASF_HEADER_EXTENSION_OBJECT then HeaderExtension(bytes, pos)
    else if guid == ASF_EXTENDED_CONTENT_DESCRIPTION_OBJECT then ExtendedContentDescription(bytes, pos)
    else if guid == ASF_CODEC_LIST_OBJECT then CodecList(bytes, pos)
    else Skip(bytes, pos, size - OBJECT_HEADER_SIZE)
  }

  /** One header sub-object at `st.pos`; seeing an Error Correction Object
      sets the flag, nothing clears it. */
  function SubObject(bytes: seq<byte>, st: State): (r: Result<State>)
    ensures ForwardState(bytes, st, r)
    ensures r.Ok? ==> st.pos + OBJECT_HEADER_SIZE <= r.value.pos
  {
    var h :- ReadObjectHeader(bytes, st.pos);
    var end :- SubObjectBody(bytes, h.guid, h.size, st.pos + OBJECT_HEADER_SIZE);
    Ok(State(end, st.hasErrorCorrection || h.guid == ASF_ERROR_CORRECTION_OBJECT))
  }

  /** `count` header sub-objects in a row. */
  function SubObjects(bytes: seq<byte>, st: State, count: nat): (r: Result<State>)
    requires st.pos <= |bytes|
    ensures ForwardState(bytes, st, r)
    ensures r.Ok? ==> st.pos + OBJECT_HEADER_SIZE * count <= r.value.pos
    decreases count
  {
    if count == 0 then Ok(st)
    else
      var next :- SubObject(bytes, st);
      SubObjects(bytes, next, count - 1)
  }

  /** Header Object body at `st.pos`: the 6-byte structure (a u32 count of
      sub-objects and two reserved bytes), then exactly that many
      sub-objects. Nothing is skipped after them. */
  function HeaderObjectBody(bytes: seq<byte>, st: State): (r: Result<State>)
    ensures ForwardState(bytes, st, r)
    ensures r.Ok? ==> st.pos + HEADER_OBJECT_SIZE <= r.value.pos
  {
    if st.pos + HEADER_OBJECT_SIZE > |bytes| then Err(Truncated)
    else if bytes[st.pos + 4] != 1 then Err(HeaderReserved1)
    else if bytes[st.pos + 5] != 2 then Err(HeaderReserved2)
    else SubObjects(bytes, State(st.pos + HEADER_OBJECT_SIZE, st.hasErrorCorrection), LE32(bytes, st.pos))
  }

  // ---------------------------------------------------------------------
  // Data packets

  /** The error correction flags byte at `pos` and the two error correction
      data bytes after it: the type must be 0 and the header must not have
      declared an Error Correction Object. */
  function ErrorCorrectionPrefix(bytes: seq<byte>, pos: nat, hasErrorCorrection: bool): (r: Result<nat>)
    ensures Forward(bytes, pos, r)
    ensures r.Ok? ==> r.value == pos + 3
  {
    if pos + 3 > |bytes| then Err(Truncated)
    else
      var e := DecodeErrorCorrectionData(bytes[pos + 1..pos + 3]);
      if e.kind != 0 || hasErrorCorrection then Err(ErrorCorrectionConflict)
      else Ok(pos + 3)
  }

  /** The two Payload Parsing Information flag bytes at `pos`: length type
      flags, whose sequence type must be 0, and property flags. */
  function PayloadParsingFlags(bytes: seq<byte>, pos: nat): (r: Result<nat>)
    ensures Forward(bytes, pos, r)
    ensures r.Ok? ==> r.value == pos + 2
  {
    if pos + 2 > |bytes| then Err(Truncated)
    else if DecodeLengthTypeFlags(bytes[pos]).sequenceType != 0 then Err(SequenceTypePresent)
    else Ok(pos + 2)
  }

  /** The prefix of one data packet. The first byte is inspected as error
      correction flags without being consumed; it and two more bytes are
      consumed only when its Error Correction Present bit is set. */
  function DataPacket(bytes: seq<byte>, pos: nat, hasErrorCorrection: bool): (r: Result<nat>)
    ensures Forward(bytes, pos, r)
    ensures r.Ok? ==> r.value == pos + 2 || r.value == pos + 5
  {
    if pos >= |bytes| then Err(Truncated)
    else
      var flags := DecodeErrorCorrectionFlags(bytes[pos]);
      if flags.dataLength != 2 then Err(ErrorCorrectionDataLength)
      else if flags.opaqueDataPresent != 0 then Err(OpaqueDataPresent)
      else if flags.lengthType != 0 then Err(ErrorCorrectionLengthType)
      else
        var next :- if flags.present != 0 then ErrorCorrectionPrefix(bytes, pos, hasErrorCorrection) else Ok(pos);
        PayloadParsingFlags(bytes, next)
  }

  /** `count` data packets in a row. */
  function DataPackets(bytes: seq<byte>, pos: nat, hasErrorCorrection: bool, count: nat): (r: Result<nat>)
    requires pos <= |bytes|
    ensures Forward(bytes, pos, r)
    ensures r.Ok? ==> pos + 2 * count <= r.value <= pos + 5 * count
    decreases count
  {
    if count == 0 then Ok(pos)
    else
      var next :- DataPacket(bytes, pos, hasErrorCorrection);
      DataPackets(bytes, next, hasErrorCorrection, count - 1)
  }

  /** Data Object body at `pos`: the 26-byte structure (file id, the u64
      count of data packets at offset 16, a reserved u16 at 24), then exactly
      that many packet prefixes. */
  function DataObjectBody(bytes: seq<byte>, pos: nat, hasErrorCorrection: bool): (r: Result<nat>)
    ensures Forward(bytes, pos, r)
    ensures r.Ok? ==> pos + DATA_OBJECT_SIZE <= r.value
  {
    if pos + DATA_OBJECT_SIZE > |bytes| then Err(Truncated)
    else if LE16(bytes, pos + 24) != 0x101 then Err(DataObjectReserved)
    else DataPackets(bytes, pos + DATA_OBJECT_SIZE, hasErrorCorrection, LE64(bytes, pos + 16))
  }

  // ---------------------------------------------------------------------
  // Top level

  /** One top-level object at `st.pos`. */
  function TopObject(bytes: seq<byte>, st: State): (r: Result<State>)
    ensures ForwardState(bytes, st, r)
    ensures r.Ok? ==> st.pos + OBJECT_HEADER_SIZE <= r.value.pos
  {
    var h :- ReadObjectHeader(bytes, st.pos);
    var body := st.pos + OBJECT_HEADER_SIZE;
    if h.guid == ASF_HEADER_OBJECT then
      HeaderObjectBody(bytes, State(body, st.hasErrorCorrection))
    else if h.guid == ASF_DATA_OBJECT then
      var end :- DataObjectBody(bytes, body, st.hasErrorCorrection);
      Ok(State(end, st.hasErrorCorrection))
    else
      var end :- Skip(bytes, body, h.size - OBJECT_HEADER_SIZE);
      Ok(State(end, st.hasErrorCorrection))
  }

  /** Top-level objects from `st.pos` until no input is left. An accepted
      walk ends exactly at the end of the input. */
  function Walk(bytes: seq<byte>, st: State): (r: Result<State>)
    ensures ForwardState(bytes, st, r) || st.pos > |bytes|
    ensures r.Ok? && st.pos <= |bytes| ==> r.value.pos == |bytes|
    decreases |bytes| - st.pos
  {
    if st.pos >= |bytes| then Ok(st)
    else
      var next :- TopObject(bytes, st);
      Walk(bytes, next)
  }

  /** The whole validation: the walk from the start with the flag clear. */
  function Validate(bytes: seq<byte>): (r: Result<State>)
    ensures r.Ok? ==> r.value.pos == |bytes|
  {
    Walk(bytes, State(0, false))
  }
}
