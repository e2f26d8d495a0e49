# ASF audio container validator, modelled in Dafny

The program is a one-pass validator for ASF (Advanced Systems Format)
files that carry a single audio stream. It walks the file's top-level
objects, each a 16-byte GUID and a 64-bit little-endian size. An object
declaring fewer than 24 bytes is rejected. The Header Object is entered and
its sub-objects are walked. The Data Object's packets are checked. Any other
object is skipped by its declared body length.

Header sub-objects are handled as follows:
- File Properties, Stream Properties, Header Extension, Extended Content
  Description and Codec List are decoded from their packed layouts and
  checked against a fixed profile.
- Every other sub-object is skipped.
- An Error Correction Object sets a flag.

Each data packet's prefix is checked: the Error Correction Flags byte
(peeked, not consumed), the optional error correction data, and the two
Payload Parsing Information flag bytes. Every `assert` of the program is a
rejection here, with its own reason.

The project is organised in these modules:

- `Wire` (`wire.dfy`): bytes, 16/32/64-bit little-endian reads and
  writes, and their round trips.
- `Guids` (`guids.dfy`): the GUID structure, its 16-byte wire form, the
  registry of identifiers, and the fact that the dispatched ones are
  pairwise different.
- `Layout` (`layout.dfy`): the packed structures and bit-field unions.
  - Bit fields are decoded with shifts and masks on naturals, the first
    declared field in the least significant bits.
  - Every decoder has an encoder, and the two are proved inverse in both
    directions.
- `Walker` (`walker.dfy`): the validator's logic as pure functions from the
  input bytes and a cursor to the new cursor or a `Failure`. This is the
  specification.
- `Validator` (`validator.dfy`): the validator itself, as the class
  `AsfValidator`.
  - Its fields are the input, the file position `pos` and the flag
    `hasErrorCorrection`.
  - It has one method per step of the program: reads, seek, peek, one
    method per object, and loops over the sub-object, descriptor, codec
    entry and packet counts.
  - Each method reads the packed structures in the program's order, with
    one deliberate difference: the Stream Properties skip uses the full sum
    of the two data lengths, not the program's 32-bit sum (see "## Findings").
  - Each object and loop method is proved to return exactly what its
    `Walker` counterpart returns (`HeaderSubObject` is `Walker.SubObject`,
    `HeaderSubObjects` is `Walker.SubObjects`, `HeaderObject` and
    `DataObject` are the `...Body` functions, `Run` is `Walker.Walk`), and to
    leave the cursor where that function says. The primitive reads and
    `Peek` are specified directly on the input bytes; `Seek` is `Walker.Skip`.
- `Properties` (`properties.dfy`): exactly which inputs are accepted, as
  if-and-only-if statements on byte offsets and bits, for File Properties,
  Stream Properties, Header Extension, each content descriptor, each codec
  entry and each packet prefix. For the Codec List, Header and Data Objects,
  the same in terms of their fixed fields and the acceptance of the entries,
  sub-objects or packets they declare, with the values that reject each one
  and what an accepted one consumes. Also
  skipping, the error correction flag, and packet lengths.
- `Findings` (`findings.dfy`): the 32-bit wrap-around of the Stream
  Properties skip.

The packet check has a consequence worth stating, which
`Properties.PacketWithoutErrorCorrectionRejected` proves:
1. The validator demands that the low nibble of a packet's first byte be 2.
2. When that byte's bit 7 (Error Correction Present) is clear, the byte is
   not consumed. It is read again as the Length Type Flags.
3. Its bit 1, part of the sequence type, is then set, so the packet is
   rejected.

So every accepted packet prefix carries error correction data and is 5
bytes long, and the next packet is read directly after it
(`Properties.DataPacketsLength`). No packet is accepted once the
header has declared an Error Correction Object.

Modelling decisions:
- End of input ends the walk: the top-level loop runs while bytes remain.
- A read, a seek or a peek beyond the end of the input is the failure
  `Truncated`.
- After a failure the cursor is not specified; the run is over.
- The file is a parameter: `ValidateFile` takes its whole content as a byte
  sequence.
- Opening the file and the command line are not modelled.

## Model

| member | source | states |
|---|---|---|
| Wire.LE16RoundTrip | src/main.cpp:263-264 | decoding the 2-byte little-endian form of a u16 gives it back, and re-encoding a decoded field gives its bytes back |
| Wire.LE32RoundTrip | src/main.cpp:282-285 | the same for u32: 4 bytes, least significant first |
| Wire.LE64RoundTrip | src/main.cpp:213-219 | the same for u64 (the object size): 8 bytes, least significant first |
| Guids.GuidRoundTrip | src/main.cpp:10-16 | a GUID's 16-byte wire form (a LE32, b LE16, c LE16, then d) decodes back to the GUID, and a decoded GUID re-encodes to the bytes it came from |
| Guids.RegistryDistinct | src/main.cpp:19-67 | the GUIDs the validator compares against are pairwise different; in particular the Error Correction Object matches none of the decoded sub-objects |
| Layout.FileFlagsRoundTrip | src/main.cpp:85-94 | the File Properties flags split as broadcast (bit 0), seekable (bit 1), reserved (bits 2-31); decoding, then encoding, is the identity both ways |
| Layout.StreamFlagsRoundTrip | src/main.cpp:107-116 | the Stream Properties flags split as stream number (bits 0-6), reserved (bits 7-14), encrypted content (bit 15); decoding, then encoding, is the identity both ways |
| Layout.ErrorCorrectionFlagsRoundTrip | src/main.cpp:134-144 | Error Correction Flags split as data length (bits 0-3), opaque data present (bit 4), length type (bits 5-6), present (bit 7); decoding, then encoding, is the identity both ways |
| Layout.ErrorCorrectionDataRoundTrip | src/main.cpp:146-158 | error correction data is a type nibble (low), a number nibble (high) and a cycle byte; decoding, then encoding, is the identity both ways |
| Layout.LengthTypeFlagsRoundTrip | src/main.cpp:162-173 | Length Type Flags split as 1+2+2+2+1 bits from the least significant, sequence type in bits 1-2; decoding, then encoding, is the identity both ways |
| Layout.PropertyFlagsRoundTrip | src/main.cpp:175-185 | Property Flags split as four 2-bit length types from the least significant; decoding, then encoding, is the identity both ways |
| Layout.HeaderObjectRoundTrip | src/main.cpp:69-74 | the packed 6-byte header fields (u32 count, two reserved bytes) decode and re-encode losslessly |
| Layout.FilePropertiesRoundTrip | src/main.cpp:76-98 | the packed 80-byte File Properties structure decodes and re-encodes losslessly, every field at its offset |
| Layout.StreamPropertiesRoundTrip | src/main.cpp:100-118 | the packed 54-byte Stream Properties structure decodes and re-encodes losslessly |
| Layout.HeaderExtensionRoundTrip | src/main.cpp:120-125 | the packed 22-byte Header Extension structure decodes and re-encodes losslessly |
| Layout.DataObjectRoundTrip | src/main.cpp:127-132 | the packed 26-byte Data Object structure decodes and re-encodes losslessly |
| Walker.Skip | src/main.cpp:307-310 | a skip of n bytes succeeds exactly when n bytes remain, and lands n bytes further on |
| Walker.ReadObjectHeader | src/main.cpp:218-220 | an object header is accepted exactly when 24 bytes remain and the declared size is at least 24; it yields the raw GUID bytes and the LE64 size |
| Walker.FileProperties | src/main.cpp:237-241 | on success the cursor moves forward and stays within the input |
| Walker.StreamProperties | src/main.cpp:245-251 | on success the cursor moves forward and stays within the input |
| Walker.HeaderExtension | src/main.cpp:255-259 | on success the cursor moves forward and stays within the input |
| Walker.ContentDescriptor | src/main.cpp:267-276 | an accepted descriptor takes at least its 6 length and type bytes and stays within the input |
| Walker.ContentDescriptors | src/main.cpp:265-277 | `count` accepted descriptors take at least 6 bytes each and stay within the input |
| Walker.ExtendedContentDescription | src/main.cpp:263-277 | on success the cursor moves forward and stays within the input |
| Walker.CodecEntry | src/main.cpp:289-304 | an accepted codec entry takes at least its 8 type and length bytes and stays within the input |
| Walker.CodecEntries | src/main.cpp:287-305 | `count` accepted entries take at least 8 bytes each and stay within the input |
| Walker.CodecList | src/main.cpp:281-305 | on success the cursor moves forward and stays within the input |
| Walker.SubObjectBody | src/main.cpp:235-310 | whichever branch the GUID selects, on success the cursor moves forward and stays within the input |
| Walker.SubObject | src/main.cpp:231-315 | an accepted sub-object takes at least its 24 header bytes and stays within the input; the flag, once set, stays set |
| Walker.SubObjects | src/main.cpp:229-316 | `count` accepted sub-objects take at least 24 bytes each; the flag, once set, stays set |
| Walker.HeaderObjectBody | src/main.cpp:224-229 | an accepted Header Object body takes at least its 6 fixed bytes; the flag, once set, stays set |
| Walker.ErrorCorrectionPrefix | src/main.cpp:332-338 | when accepted, the flags byte and the two error correction data bytes are consumed: exactly 3 bytes |
| Walker.PayloadParsingFlags | src/main.cpp:340-347 | when accepted, exactly the 2 flag bytes are consumed |
| Walker.DataPacket | src/main.cpp:325-347 | an accepted packet prefix consumes exactly 2 or 5 bytes |
| Walker.DataPackets | src/main.cpp:323-349 | `count` accepted packets take between 2 and 5 bytes each |
| Walker.DataObjectBody | src/main.cpp:320-349 | an accepted Data Object body takes at least its 26 fixed bytes and stays within the input |
| Walker.TopObject | src/main.cpp:218-354 | an accepted top-level object takes at least 24 bytes; the flag, once set, stays set |
| Walker.Walk | src/main.cpp:216-355 | an accepted walk ends exactly at the end of the input and never clears the flag |
| Walker.Validate | src/main.cpp:212-216 | an accepted file is consumed exactly to its end |
| Validator.AsfValidator.constructor | src/main.cpp:212-214 | the cursor starts at 0 with the error correction flag clear |
| Validator.AsfValidator.Read | src/main.cpp:225 | `fread` of n bytes: returns the next n bytes and advances by n, or fails as truncated and does not move |
| Validator.AsfValidator.ReadByte | src/main.cpp:334 | `fgetc`: returns the next byte and advances by 1, or fails as truncated |
| Validator.AsfValidator.ReadU16 | src/main.cpp:264 | reads a little-endian u16 and advances by 2, or fails as truncated |
| Validator.AsfValidator.ReadU32 | src/main.cpp:285 | reads a little-endian u32 and advances by 4, or fails as truncated |
| Validator.AsfValidator.ReadU64 | src/main.cpp:219 | reads a little-endian u64 and advances by 8, or fails as truncated |
| Validator.AsfValidator.Seek | src/main.cpp:309 | `fseek` forward: equals `Walker.Skip` from the current position |
| Validator.AsfValidator.Peek | src/main.cpp:191-196 | `fpeek`: the byte at the cursor, or a truncation failure at the end; the cursor does not move |
| Validator.AsfValidator.ReadObjectHeader | src/main.cpp:218-220 | result equals `Walker.ReadObjectHeader`; on success the cursor is 24 bytes on |
| Validator.AsfValidator.FileProperties | src/main.cpp:237-241 | reading and decoding the 80-byte structure and checking its flags and packet sizes gives exactly `Walker.FileProperties`; on success the cursor is where that function says |
| Validator.AsfValidator.StreamProperties | src/main.cpp:245-251 | reading and decoding the 54-byte structure, checking it and skipping its data gives exactly `Walker.StreamProperties`; on success the cursor is where that function says |
| Validator.AsfValidator.HeaderExtension | src/main.cpp:255-259 | result equals `Walker.HeaderExtension` |
| Validator.AsfValidator.ExtendedContentDescription | src/main.cpp:263-265 | result equals `Walker.ExtendedContentDescription` |
| Validator.AsfValidator.ContentDescriptors | src/main.cpp:265-277 | the loop over `count` descriptors equals `Walker.ContentDescriptors` |
| Validator.AsfValidator.ContentDescriptor | src/main.cpp:267-276 | result equals `Walker.ContentDescriptor` |
| Validator.AsfValidator.CodecList | src/main.cpp:281-287 | result equals `Walker.CodecList` |
| Validator.AsfValidator.CodecEntries | src/main.cpp:287-305 | the loop over `count` entries equals `Walker.CodecEntries` |
| Validator.AsfValidator.CodecEntry | src/main.cpp:289-304 | result equals `Walker.CodecEntry` |
| Validator.AsfValidator.HeaderSubObject | src/main.cpp:231-315 | result and new cursor and flag equal `Walker.SubObject` |
| Validator.AsfValidator.SubObjectBody | src/main.cpp:235-310 | result equals `Walker.SubObjectBody` for the GUID and size read |
| Validator.AsfValidator.HeaderObject | src/main.cpp:224-229 | result equals `Walker.HeaderObjectBody` |
| Validator.AsfValidator.HeaderSubObjects | src/main.cpp:229-316 | the loop over `numObjects` sub-objects equals `Walker.SubObjects` |
| Validator.AsfValidator.DataPacket | src/main.cpp:325-347 | result equals `Walker.DataPacket` with the current flag |
| Validator.AsfValidator.DataObject | src/main.cpp:320-323 | result equals `Walker.DataObjectBody` |
| Validator.AsfValidator.DataPackets | src/main.cpp:323-349 | the loop over `totalDataPackets` packets equals `Walker.DataPackets` |
| Validator.AsfValidator.TopObject | src/main.cpp:218-354 | result and new cursor and flag equal `Walker.TopObject` |
| Validator.AsfValidator.Run | src/main.cpp:216-355 | the top-level loop equals `Walker.Walk` from the current state |
| Validator.ValidateFile | src/main.cpp:212-216 | validating a whole file equals `Walker.Validate`: start at 0 with the flag clear |
| Properties.ObjectTooSmallRejected | src/main.cpp:218-220 | a declared size below 24 is rejected, at the top level and among the header's sub-objects |
| Properties.UnknownObjectSkipped | src/main.cpp:351-354 | an unrecognised top-level object is skipped: the cursor ends `size` bytes after its start, or the walk fails as truncated |
| Properties.UnknownSubObjectSkipped | src/main.cpp:307-315 | an undecoded sub-object is skipped to its start plus `size`, and sets the flag exactly when it is the Error Correction Object |
| Properties.ErrorCorrectionObjectRecorded | src/main.cpp:312-315 | an Error Correction Object that fits is skipped by its size and sets the flag |
| Properties.ErrorCorrectionFlag | src/main.cpp:312-315 | after a sub-object the flag is set if and only if it was already set or that sub-object is the Error Correction Object |
| Properties.EmptyHeaderObject | src/main.cpp:224-229 | a Header Object with a count of 0 and reserved bytes 1 and 2 processes no sub-object and ends after its 6 bytes |
| Properties.HeaderObjectReserved | src/main.cpp:226-227 | reserved1 other than 1, or reserved2 other than 2, rejects the Header Object |
| Properties.HeaderObjectAccepted | src/main.cpp:224-229 | with its 6 fixed bytes present, a Header Object is accepted if and only if reserved1 is 1, reserved2 is 2 and its `numObjects` sub-objects are accepted; an accepted one takes at least 24 bytes per declared sub-object |
| Properties.DataObjectAccepted | src/main.cpp:320-323 | with its 26 fixed bytes present, a Data Object is accepted if and only if its reserved field is 0x101 and its `totalDataPackets` packets are accepted |
| Properties.DataObjectReservedChecked | src/main.cpp:322 | a Data Object whose reserved u16 is not 0x101 is rejected |
| Properties.FilePropertiesAccepted | src/main.cpp:237-241 | File Properties is accepted iff flags bit 0 is clear, bits 2-31 are clear and min equals max data packet size; it consumes 80 bytes |
| Properties.StreamPropertiesAccepted | src/main.cpp:245-251 | Stream Properties is accepted iff the type is audio media, flag bits 7-15 are clear, the reserved u32 is 0 and the data fits; it advances 54 + typeSpecificDataLength + errorCorrectionDataLength |
| Properties.HeaderExtensionAccepted | src/main.cpp:255-259 | Header Extension is accepted iff it carries ASF_Reserved_1, 6 and a data size of 0; it consumes 22 bytes |
| Properties.ContentDescriptorLength | src/main.cpp:267-276 | an accepted descriptor takes 2 + nameLength + 2 + 2 + valueLength bytes, nameLength in bytes |
| Properties.ContentDescriptorAccepted | src/main.cpp:267-276 | a descriptor is accepted if and only if its name length, name, value type, value length and value all fit in the input |
| Properties.CodecEntryAccepted | src/main.cpp:289-304 | a codec entry is accepted if and only if its type is 2 and its type, name, description and information fields, with their lengths, all fit in the input |
| Properties.CodecEntryLength | src/main.cpp:289-304 | an accepted codec entry has type 2 and takes 2 + 2 + 2·nameLength + 2 + 2·descriptionLength + 2 + informationLength bytes |
| Properties.CodecListReservedChecked | src/main.cpp:281-287 | an accepted Codec List starts with `ASF_Reserved_2` and holds its declared number of entries, at least 8 bytes each; a full list header with any other reserved GUID is rejected for it |
| Properties.CodecListAccepted | src/main.cpp:281-287 | with its 20-byte list header present, a Codec List is accepted if and only if it starts with `ASF_Reserved_2` and its declared entries are accepted |
| Properties.CodecEntryTypeChecked | src/main.cpp:296-304 | an entry of type other than 2 is rejected, as such or as truncated if it does not fit |
| Properties.DataPacketChecks | src/main.cpp:325-347 | the whole packet check bit by bit: low nibble 2, bit 4 clear, bits 5-6 clear; with bit 7, 3 bytes consumed, type nibble 0 and flag clear; then sequence type bits clear; 5 or 2 bytes consumed |
| Properties.PacketWithoutErrorCorrectionRejected | src/main.cpp:326-347 | a packet whose first byte has bit 7 clear is always rejected, because that byte is read again as Length Type Flags with bit 1 set |
| Properties.DataPacketAccepted | src/main.cpp:325-347 | an accepted packet has bit 7 set, consumes exactly 5 bytes, and requires the flag to be clear |
| Properties.DataPacketsLength | src/main.cpp:323-349 | `count` accepted packets take exactly 5·count bytes, and at least one accepted packet means the flag is clear |
| Properties.DataObjectLength | src/main.cpp:320-349 | an accepted Data Object body is 26 bytes plus exactly 5 bytes for each of its `totalDataPackets` packets; a nonzero count is accepted only when no Error Correction Object was declared |
| Properties.ValidateEmpty | src/main.cpp:216 | under the model's end-of-input rule, an empty input is accepted without reading anything (the program itself behaves otherwise; see "## Left out") |
| Findings.StreamDataLengthAsWritten | src/main.cpp:251 | the skip as written, a 32-bit unsigned sum, is at most the full sum and equals it iff the full sum is below 2^32 |
| Findings.StreamDataLengthWraps | src/main.cpp:251 | lengths 0xFFFFFFFF and 1 give a skip of 0 as written, against a full length of 2^32 |
| Findings.StreamPropertiesWrapExample | src/main.cpp:245-251 | a concrete 54-byte audio stream object that the wrapped skip would accept at the end of input, while the full sum rejects it as truncated |

## Left out

- Command-line handling, `fopen` and the return codes (src/main.cpp:200-210): I/O plumbing. The input is a byte sequence parameter.
- The `while (!feof(fp))` termination (src/main.cpp:216). The end-of-file indicator is set only by a read that fails, so after the last object the loop runs again with the previous `guid` and `size`:
  - if that GUID is neither the Header nor the Data Object, the `fseek` at src/main.cpp:353 clears the indicator, and the loop repeats, taking 24 from `size` on each pass, until the assert at src/main.cpp:220 fails;
  - if it is the Data Object's GUID, the packet count is left over from uninitialised storage, and for any nonzero count `fpeek` meets the end of file (0xFF), so the assert at src/main.cpp:328 fails;
  - on an empty file `feof` is still false before the first read, so the loop body runs once on the uninitialised `guid` and `size` (src/main.cpp:212-213), and the outcome is indeterminate; `Properties.ValidateEmpty` states the model's end-of-input rule, not this;
  - so, as written and with asserts enabled, the program rejects almost every non-empty file. The model stops as soon as no bytes remain and accepts such files: it states what the checks evidently intend, not this end-of-file behaviour.
- Unchecked `fread` results: a short read is the failure `Truncated` rather than stale or uninitialised data.
- `fseek` beyond the end of the file, which C allows: it is `Truncated` here. The `uint64_t` offset truncated to `long` is not modelled either.
- `fpeek` at the end of the file, where `getc` returns `EOF` and `ungetc(EOF)` does nothing: modelled as `Truncated`.
- The 260-element `char16_t` name and description buffers (src/main.cpp:270-273, 291-300). They overflow for long names. The model skips names and descriptions by their lengths and stores nothing.
- `NDEBUG`, which would disable every `assert`: every assert is a rejection.
- The commented-out multiple-payloads assertion (src/main.cpp:346): not a check.
- Payload extraction, padding and any output: the program has none.
- The decoded header sub-objects are not realigned to their declared `size`, and the Header Object is not skipped to its declared end after its sub-objects. The Data Object's declared `size` is never used (src/main.cpp:318-350). Within it, each packet's Error Correction Flags byte is peeked directly after the previous packet's two Payload Parsing flag bytes: payloads, padding and the File Properties packet size are never skipped. This follows the code, which does none of these.
- Walker.StreamProperties, Validator.AsfValidator.StreamProperties: they skip the full sum `typeSpecificDataLength + errorCorrectionDataLength`, the corrected behaviour, not the 32-bit wrapped sum of src/main.cpp:251; the code as written is `Findings.StreamDataLengthAsWritten`, and the difference is shown by `Findings.StreamPropertiesWrapExample`.
- Walker.FileProperties: its own ensures states only that the cursor moves forward within the input; what it accepts is stated by `Properties.FilePropertiesAccepted` and by `Validator.AsfValidator.FileProperties`.
- Walker.StreamProperties: its own ensures states only forward movement; its acceptance condition and advance are `Properties.StreamPropertiesAccepted`.
- Walker.HeaderExtension: its own ensures states only forward movement; its acceptance condition is `Properties.HeaderExtensionAccepted`.
- Walker.ExtendedContentDescription: its own ensures states only forward movement; the lengths of its descriptors are `Properties.ContentDescriptorLength`.
- Walker.CodecList: its own ensures states only forward movement; its acceptance condition is `Properties.CodecListAccepted`, its reserved-GUID check and entry count `Properties.CodecListReservedChecked`, the entry lengths and type check `Properties.CodecEntryLength` and `Properties.CodecEntryTypeChecked`.
- Walker.SubObjectBody: its own ensures states only forward movement; each branch is covered by the lemma for that object.

## Findings

| source | as written | input that shows it | evidently intended | confidence | as-written member | corrected member |
|---|---|---|---|---|---|---|
| src/main.cpp:251 | `stream.typeSpecificDataLength + stream.errorCorrectionDataLength` is a `uint32_t` addition, which wraps modulo 2^32 before the result reaches `fseek` | typeSpecificDataLength = 0xFFFFFFFF, errorCorrectionDataLength = 1: the skip is 0 bytes instead of 2^32 | skip both data blocks, the full sum of the two lengths | medium; not executed | Findings.StreamDataLengthAsWritten | Properties.StreamPropertiesAccepted |
