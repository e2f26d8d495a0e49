/** What the validator accepts, stated on the raw bytes of the input.

    The functions in `Walker` follow the validator's order of reads and
    checks. The lemmas here state exactly which inputs are accepted, on byte
    offsets and bit positions: outright for File Properties, Stream
    Properties, Header Extension, each content descriptor, each codec entry
    and each packet prefix; for the Codec List, Header and Data Objects, in
    terms of their fixed fields and the acceptance of the entries,
    sub-objects or packets they declare. Others give the values that reject
    an object and what an accepted one consumes. The remaining lemmas are
    about skips (an unrecognised object is passed over by its declared
    size), the error correction flag, and the data packets, every accepted
    prefix of which turns out to be exactly 5 bytes long. */
module Properties {
  import opened Wire
  import opened Guids
  import opened Layout
  import opened Walker

  // ---------------------------------------------------------------------
  // Object headers and skipping

  /** An object header declaring fewer than the 24 bytes of the header itself
      is rejected, at the top level as among the header's sub-objects. */
  lemma ObjectTooSmallRejected(bytes: seq<byte>, st: State)
    requires st.pos + OBJECT_HEADER_SIZE <= |bytes| && LE64(bytes, st.pos + 16) < OBJECT_HEADER_SIZE
    ensures TopObject(bytes, st) == Err(ObjectTooSmall)
    ensures SubObject(bytes, st) == Err(ObjectTooSmall)
  {
  }

  /** A top-level object that is neither the Header nor the Data Object is
      skipped: the cursor ends `size` bytes after the start of its header. */
  lemma UnknownObjectSkipped(bytes: seq<byte>, st: State)
    requires st.pos + OBJECT_HEADER_SIZE <= |bytes|
    requires bytes[st.pos..st.pos + 16] != ASF_HEADER_OBJECT
    requires bytes[st.pos..st.pos + 16] != ASF_DATA_OBJECT
    requires LE64(bytes, st.pos + 16) >= OBJECT_HEADER_SIZE
    ensures var size := LE64(bytes, st.pos + 16);
      TopObject(bytes, st) ==
        if st.pos + size <= |bytes| then Ok(State(st.pos + size, st.hasErrorCorrection))
        else Err(Truncated)
  {
  }

  /** The same for a header sub-object the validator does not decode; it
      may still be the Error Correction Object, which sets the flag. */
  lemma UnknownSubObjectSkipped(bytes: seq<byte>, st: State)
    requires st.pos + OBJECT_HEADER_SIZE <= |bytes|
    requires bytes[st.pos..st.pos + 16] !in
      [ASF_FILE_PROPERTIES_OBJECT, ASF_STREAM_PROPERTIES_OBJECT, ASF_HEADER_EXTENSION_OBJECT,
       ASF_EXTENDED_CONTENT_DESCRIPTION_OBJECT, ASF_CODEC_LIST_OBJECT]
    requires LE64(bytes, st.pos + 16) >= OBJECT_HEADER_SIZE
    ensures var size := LE64(bytes, st.pos + 16);
      SubObject(bytes, st) ==
        if st.pos + size <= |bytes| then
          Ok(State(st.pos + size,
                   st.hasErrorCorrection || bytes[st.pos..st.pos + 16] == ASF_ERROR_CORRECTION_OBJECT))
        else Err(Truncated)
  {
  }

  /** An Error Correction Object among the header's sub-objects is skipped
      by its declared size and sets the flag. */
  lemma ErrorCorrectionObjectRecorded(bytes: seq<byte>, st: State)
    requires st.pos + OBJECT_HEADER_SIZE <= |bytes|
    requires bytes[st.pos..st.pos + 16] == ASF_ERROR_CORRECTION_OBJECT
    requires OBJECT_HEADER_SIZE <= LE64(bytes, st.pos + 16) && st.pos + LE64(bytes, st.pos + 16) <= |bytes|
    ensures SubObject(bytes, st) == Ok(State(st.pos + LE64(bytes, st.pos + 16), true))
  {
    RegistryDistinct();
    UnknownSubObjectSkipped(bytes, st);
  }

  /** After a sub-object the flag is set exactly when it was set before or
      that sub-object is the Error Correction Object: nothing else sets it and
      nothing clears it. */
  lemma ErrorCorrectionFlag(bytes: seq<byte>, st: State)
    requires SubObject(bytes, st).Ok?
    ensures st.pos + 16 <= |bytes|
    ensures SubObject(bytes, st).value.hasErrorCorrection <==>
      st.hasErrorCorrection || bytes[st.pos..st.pos + 16] == ASF_ERROR_CORRECTION_OBJECT
  {
  }

  // ---------------------------------------------------------------------
  // Container objects

  /** A Header Object declaring no sub-objects ends right after its 6 bytes. */
  lemma EmptyHeaderObject(bytes: seq<byte>, st: State)
    requires st.pos + HEADER_OBJECT_SIZE <= |bytes|
    requires LE32(bytes, st.pos) == 0 && bytes[st.pos + 4] == 1 && bytes[st.pos + 5] == 2
    ensures HeaderObjectBody(bytes, st) == Ok(State(st.pos + HEADER_OBJECT_SIZE, st.hasErrorCorrection))
  {
  }

  /** A Header Object needs both reserved bytes right: 1, then 2. */
  lemma HeaderObjectReserved(bytes: seq<byte>, st: State)
    requires st.pos + HEADER_OBJECT_SIZE <= |bytes|
    ensures bytes[st.pos + 4] != 1 ==> HeaderObjectBody(bytes, st) == Err(HeaderReserved1)
    ensures bytes[st.pos + 4] == 1 && bytes[st.pos + 5] != 2 ==> HeaderObjectBody(bytes, st) == Err(HeaderReserved2)
  {
  }

  /** A Header Object whose 6 fixed bytes are present is accepted exactly
      when its reserved bytes are 1 and 2 and its declared number of
      sub-objects is accepted after them; an accepted one takes at least 24
      bytes per declared sub-object beyond its fixed bytes. */
  lemma HeaderObjectAccepted(bytes: seq<byte>, st: State)
    requires st.pos + HEADER_OBJECT_SIZE <= |bytes|
    ensures HeaderObjectBody(bytes, st).Ok? <==>
      bytes[st.pos + 4] == 1 && bytes[st.pos + 5] == 2 &&
      SubObjects(bytes, State(st.pos + HEADER_OBJECT_SIZE, st.hasErrorCorrection), LE32(bytes, st.pos)).Ok?
    ensures HeaderObjectBody(bytes, st).Ok? ==>
      st.pos + HEADER_OBJECT_SIZE + OBJECT_HEADER_SIZE * LE32(bytes, st.pos) <= HeaderObjectBody(bytes, st).value.pos
  {
  }

  /** A Data Object whose 26 fixed bytes are present is accepted exactly when
      its reserved field is 0x101 and its declared number of packets is
      accepted after them. */
  lemma DataObjectAccepted(bytes: seq<byte>, pos: nat, hasErrorCorrection: bool)
    requires pos + DATA_OBJECT_SIZE <= |bytes|
    ensures DataObjectBody(bytes, pos, hasErrorCorrection).Ok? <==>
      LE16(bytes, pos + 24) == 0x101 &&
      DataPackets(bytes, pos + DATA_OBJECT_SIZE, hasErrorCorrection, LE64(bytes, pos + 16)).Ok?
  {
  }

  /** A Data Object whose reserved field is not 0x101 is rejected before any
      packet is looked at. */
  lemma DataObjectReservedChecked(bytes: seq<byte>, pos: nat, hasErrorCorrection: bool)
    requires pos + DATA_OBJECT_SIZE <= |bytes| && LE16(bytes, pos + 24) != 0x101
    ensures DataObjectBody(bytes, pos, hasErrorCorrection) == Err(DataObjectReserved)
  {
  }

  // ---------------------------------------------------------------------
  // Header sub-objects

  /** File Properties is accepted exactly when bit 0 (broadcast) and bits 2
      to 31 (reserved) of the flags are clear and the minimum and maximum
      data packet sizes agree; it then consumes its 80 bytes. */
  lemma FilePropertiesAccepted(bytes: seq<byte>, pos: nat)
    requires pos + FILE_PROPERTIES_SIZE <= |bytes|
    ensures var flags := LE32(bytes, pos + 64);
      FileProperties(bytes, pos).Ok? <==>
        flags % 2 == 0 && flags < 4 && LE32(bytes, pos + 68) == LE32(bytes, pos + 72)
    ensures FileProperties(bytes, pos).Ok? ==> FileProperties(bytes, pos).value == pos + FILE_PROPERTIES_SIZE
  {
  }

  /** Stream Properties is accepted exactly when the stream type is audio
      media, bits 7 to 15 of the flags (reserved and encrypted content) are
      clear, the trailing reserved u32 is 0 and the input holds the
      type-specific and error correction data; the cursor then advances by
      54 plus the full sum of the two data lengths. */
  lemma StreamPropertiesAccepted(bytes: seq<byte>, pos: nat)
    requires pos + STREAM_PROPERTIES_SIZE <= |bytes|
    ensures var flags := LE16(bytes, pos + 48);
      var length := LE32(bytes, pos + 40) + LE32(bytes, pos + 44);
      StreamProperties(bytes, pos).Ok? <==>
        bytes[pos..pos + 16] == ASF_AUDIO_MEDIA && flags / 0x80 == 0 && LE32(bytes, pos + 50) == 0 &&
        pos + STREAM_PROPERTIES_SIZE + length <= |bytes|
    ensures StreamProperties(bytes, pos).Ok? ==>
      StreamProperties(bytes, pos).value == pos + STREAM_PROPERTIES_SIZE + LE32(bytes, pos + 40) + LE32(bytes, pos + 44)
  {
  }

  /** Header Extension is accepted exactly when its first 16 bytes are
      ASF_Reserved_1, the u16 after them is 6 and the extension data size is
      0; it then consumes its 22 bytes and nothing of the extension data. */
  lemma HeaderExtensionAccepted(bytes: seq<byte>, pos: nat)
    requires pos + HEADER_EXTENSION_SIZE <= |bytes|
    ensures HeaderExtension(bytes, pos).Ok? <==>
      bytes[pos..pos + 16] == ASF_RESERVED_1 && LE16(bytes, pos + 16) == 6 && LE32(bytes, pos + 18) == 0
    ensures HeaderExtension(bytes, pos).Ok? ==> HeaderExtension(bytes, pos).value == pos + HEADER_EXTENSION_SIZE
  {
  }

  /** A content descriptor is accepted exactly when its name length, its
      name, its value type and value length, and its value all fit in the
      input: the validator checks nothing else about it. */
  lemma ContentDescriptorAccepted(bytes: seq<byte>, pos: nat)
    ensures ContentDescriptor(bytes, pos).Ok? <==>
      pos + 2 <= |bytes| &&
      var nameEnd := pos + 2 + LE16(bytes, pos);
      nameEnd + 4 <= |bytes| && nameEnd + 4 + LE16(bytes, nameEnd + 2) <= |bytes|
  {
  }

  /** An accepted content descriptor is 2 + nameLength + 2 + 2 + valueLength
      bytes long, the name length counted in bytes. */
  lemma ContentDescriptorLength(bytes: seq<byte>, pos: nat)
    requires ContentDescriptor(bytes, pos).Ok?
    ensures pos + 2 + LE16(bytes, pos) + 4 <= |bytes|
    ensures var nameLength := LE16(bytes, pos);
      var valueLength := LE16(bytes, pos + 2 + nameLength + 2);
      ContentDescriptor(bytes, pos).value == pos + 2 + nameLength + 2 + 2 + valueLength
  {
  }

  /** An accepted codec entry has type 2 and is 2 + 2 + 2 * nameLength + 2 +
      2 * descriptionLength + 2 + informationLength bytes long, the name and
      description lengths counted in 16-bit characters. */
  lemma CodecEntryLength(bytes: seq<byte>, pos: nat)
    requires CodecEntry(bytes, pos).Ok?
    ensures pos + 4 + 2 * LE16(bytes, pos + 2) + 2 <= |bytes|
    ensures var nameEnd := pos + 4 + 2 * LE16(bytes, pos + 2);
      nameEnd + 2 + 2 * LE16(bytes, nameEnd) + 2 <= |bytes|
    ensures LE16(bytes, pos) == 2
    ensures var nameLength := LE16(bytes, pos + 2);
      var descriptionLength := LE16(bytes, pos + 4 + 2 * nameLength);
      var informationLength := LE16(bytes, pos + 4 + 2 * nameLength + 2 + 2 * descriptionLength);
      CodecEntry(bytes, pos).value ==
        pos + 2 + 2 + 2 * nameLength + 2 + 2 * descriptionLength + 2 + informationLength
  {
  }

  /** A codec entry is accepted exactly when its type is 2 and its type,
      name, description and information, with their lengths, all fit in the
      input. */
  lemma CodecEntryAccepted(bytes: seq<byte>, pos: nat)
    ensures CodecEntry(bytes, pos).Ok? <==>
      pos + 4 <= |bytes| &&
      var nameEnd := pos + 4 + 2 * LE16(bytes, pos + 2);
      nameEnd + 2 <= |bytes| &&
      var descriptionEnd := nameEnd + 2 + 2 * LE16(bytes, nameEnd);
      descriptionEnd + 2 <= |bytes| &&
      descriptionEnd + 2 + LE16(bytes, descriptionEnd) <= |bytes| &&
      LE16(bytes, pos) == 2
  {
  }

  /** A codec entry of a type other than 2 is rejected once it has been read
      in full; one that does not fit in the input is truncated first. */
  lemma CodecEntryTypeChecked(bytes: seq<byte>, pos: nat)
    requires pos + 2 <= |bytes| && LE16(bytes, pos) != 2
    ensures CodecEntry(bytes, pos).Err?
    ensures CodecEntry(bytes, pos) == Err(CodecTypeNotAudio) || CodecEntry(bytes, pos) == Err(Truncated)
  {
  }

  /** A Codec List is accepted only when its first 16 bytes are
      `ASF_Reserved_2`; a full list header with any other value there is
      rejected for it. An accepted list holds its declared number of entries,
      each at least 8 bytes long. */
  lemma CodecListReservedChecked(bytes: seq<byte>, pos: nat)
    ensures CodecList(bytes, pos).Ok? ==>
      pos + 20 <= |bytes| && bytes[pos..pos + 16] == ASF_RESERVED_2 &&
      pos + 20 + 8 * LE32(bytes, pos + 16) <= CodecList(bytes, pos).value
    ensures pos + 20 <= |bytes| && bytes[pos..pos + 16] != ASF_RESERVED_2 ==>
      CodecList(bytes, pos) == Err(CodecListReserved)
  {
  }

  /** A Codec List whose 20-byte list header is present is accepted exactly
      when it starts with `ASF_Reserved_2` and its declared number of entries
      is accepted after the header. */
  lemma CodecListAccepted(bytes: seq<byte>, pos: nat)
    requires pos + 20 <= |bytes|
    ensures CodecList(bytes, pos).Ok? <==>
      bytes[pos..pos + 16] == ASF_RESERVED_2 && CodecEntries(bytes, pos + 20, LE32(bytes, pos + 16)).Ok?
  {
  }

  // ---------------------------------------------------------------------
  // Data packets

  /** The prefix of a data packet, bit by bit. The byte at `pos` is the Error
      Correction Flags byte: low nibble 2, bit 4 and bits 5 and 6 clear. When
      bit 7 is set, that byte and two error correction data bytes are
      consumed, the type nibble of the first of them must be 0 and the header
      must not have declared an Error Correction Object. Then come the Length
      Type Flags byte, whose bits 1 and 2 must be clear, and the Property
      Flags byte. When bit 7 is clear the peeked byte is itself read back as
      the Length Type Flags. */
  lemma DataPacketChecks(bytes: seq<byte>, pos: nat, hasErrorCorrection: bool)
    ensures pos >= |bytes| ==> DataPacket(bytes, pos, hasErrorCorrection) == Err(Truncated)
    ensures pos < |bytes| ==>
      var b := bytes[pos];
      DataPacket(bytes, pos, hasErrorCorrection) ==
        if b % 0x10 != 2 then Err(ErrorCorrectionDataLength)
        else if b / 0x10 % 2 != 0 then Err(OpaqueDataPresent)
        else if b / 0x20 % 4 != 0 then Err(ErrorCorrectionLengthType)
        else if b / 0x80 != 0 then
          if pos + 3 > |bytes| then Err(Truncated)
          else if bytes[pos + 1] % 0x10 != 0 || hasErrorCorrection then Err(ErrorCorrectionConflict)
          else if pos + 5 > |bytes| then Err(Truncated)
          else if bytes[pos + 3] / 2 % 4 != 0 then Err(SequenceTypePresent)
          else Ok(pos + 5)
        else if pos + 2 > |bytes| then Err(Truncated)
        else if b / 2 % 4 != 0 then Err(SequenceTypePresent)
        else Ok(pos + 2)
  {
    if pos < |bytes| {
      var b := bytes[pos];
      var b4 := b / 0x10; var b5 := b4 / 2;
      assert b / 0x20 == b5;
      assert b / 0x80 == b5 / 4;
      if pos + 5 <= |bytes| {
        var c := bytes[pos + 3];
        assert c / 2 % 4 == DecodeLengthTypeFlags(c).sequenceType;
      }
      if pos + 2 <= |bytes| {
        assert b / 2 % 4 == DecodeLengthTypeFlags(b).sequenceType;
      }
    }
  }

  /** A packet whose Error Correction Present bit is clear is always rejected:
      the low nibble of its first byte must be 2, so bit 1 of that byte is
      set, and the same byte read back as Length Type Flags has a nonzero
      sequence type. */
  lemma PacketWithoutErrorCorrectionRejected(bytes: seq<byte>, pos: nat, hasErrorCorrection: bool)
    requires pos < |bytes| && bytes[pos] < 0x80
    ensures DataPacket(bytes, pos, hasErrorCorrection).Err?
  {
    DataPacketChecks(bytes, pos, hasErrorCorrection);
    var b := bytes[pos];
    if b % 0x10 == 2 {
      assert b / 2 % 4 == 1;
    }
  }

  /** Hence an accepted packet always carries error correction data and
      consumes exactly 5 bytes, and no packet is accepted once the header has
      declared an Error Correction Object. */
  lemma DataPacketAccepted(bytes: seq<byte>, pos: nat, hasErrorCorrection: bool)
    requires DataPacket(bytes, pos, hasErrorCorrection).Ok?
    ensures pos < |bytes| && bytes[pos] >= 0x80
    ensures DataPacket(bytes, pos, hasErrorCorrection).value == pos + 5
    ensures !hasErrorCorrection
  {
    DataPacketChecks(bytes, pos, hasErrorCorrection);
    if bytes[pos] < 0x80 {
      PacketWithoutErrorCorrectionRejected(bytes, pos, hasErrorCorrection);
    }
  }

  /** `count` accepted packets take exactly `5 * count` bytes. */
  lemma {:induction false} DataPacketsLength(bytes: seq<byte>, pos: nat, hasErrorCorrection: bool, count: nat)
    requires pos <= |bytes| && DataPackets(bytes, pos, hasErrorCorrection, count).Ok?
    ensures DataPackets(bytes, pos, hasErrorCorrection, count).value == pos + 5 * count
    ensures count > 0 ==> !hasErrorCorrection
    decreases count
  {
    if count > 0 {
      var next := DataPacket(bytes, pos, hasErrorCorrection);
      DataPacketAccepted(bytes, pos, hasErrorCorrection);
      DataPacketsLength(bytes, next.value, hasErrorCorrection, count - 1);
    }
  }

  /** An accepted Data Object body is its 26 fixed bytes followed by exactly
      `totalDataPackets` packets of 5 bytes each; a nonzero packet count is
      accepted only when the header declared no Error Correction Object. */
  lemma DataObjectLength(bytes: seq<byte>, pos: nat, hasErrorCorrection: bool)
    requires DataObjectBody(bytes, pos, hasErrorCorrection).Ok?
    ensures DataObjectBody(bytes, pos, hasErrorCorrection).value ==
      pos + DATA_OBJECT_SIZE + 5 * LE64(bytes, pos + 16)
    ensures LE64(bytes, pos + 16) > 0 ==> !hasErrorCorrection
  {
    DataPacketsLength(bytes, pos + DATA_OBJECT_SIZE, hasErrorCorrection, LE64(bytes, pos + 16));
  }

  // ---------------------------------------------------------------------
  // The whole file

  /** Under the model's end-of-input rule an empty file is accepted: the walk
      stops before reading anything. (The program itself enters its loop once
      on an empty file, with uninitialised values.) */
  lemma ValidateEmpty()
    ensures Validate([]) == Ok(State(0, false))
  {
  }
}
