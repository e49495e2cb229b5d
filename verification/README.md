# EmbeddedCFDP: a verified model of the wire layer

EmbeddedCFDP is a C library for the wire format of the CCSDS File Delivery Protocol
(CCSDS 727.0-B-5): the fixed PDU header, the File Data PDU, the File Directive PDUs, the LV
and TLV parameters, the PDU CRC and the modular file checksum. It computes over buffers
supplied by the caller and keeps no state. This project restates that code in Dafny and proves
what the formats and the two integrity checks promise.

`dafny verify dfyconfig.toml` checks everything.

## How the C code appears here

- An octet is a number below 256; `uint8`, `uint16`, `uint32` and `uint64` are bounded
  integers, and every wrap-around, mask and truncating cast is written out.
- A function that stores into `buf` is a method on an `array<octet>` with a start and a
  capacity. It ensures that the buffer afterwards is the old one with exactly the encoded
  octets spliced in (`Octets.Splice`), that the result is their number, and that it is 0
  exactly when the value cannot be encoded or does not fit. So the octets written do not depend
  on spare capacity and nothing behind them changes. Where a failing serialiser may leave
  partial output, it still changes nothing outside its capacity (`Octets.OnlyWithin`).
- A function that reads `buf` is a method on a sequence of octets. It is proved equal to a
  decoding function: `Malformed` (0 in C) or a value and the number of octets it occupied.
- Loops of the C code are loops here: the shift register, the checksum lanes, the integer
  reads and writes, the walk over the TLVs of a Finished PDU, the segment requests of a NAK.
- What an encoder drops (identifiers modulo 256^length, offsets cut to 4 or 8
  octets, codes cut to their bit fields) is stated by one function per format, `OnTheWire`.

## What is proved

**The PDU CRC** (`Gf2`, `Crc`, `CrcDetection`, `CrcOrder`, `PduCrc`). The register after any
octets is the remainder of a polynomial division over GF(2) by x^16 + x^12 + x^5 + 1, as
section 4.2.1.3 of CCSDS 232.0-B-3 defines the encoder. It is linear and keeps parity. Two
messages of one length leave the same register if and only if the generator divides the
polynomial of the bits in which they differ, whatever the register started at. Hence every odd
number of flipped bits is noticed, and every burst of at most sixteen. Two flipped bits are
noticed if and only if their distance is not a multiple of 32767, which is the multiplicative
order of x modulo the generator. A PDU data field may be longer than that, so the exception is
real. `cfdp_pdu_crc_verify` accepts exactly what `cfdp_pdu_crc_append` produces and ignores
what follows the described PDU.

**The file checksum** (`Checksum`, `Sums`). Folding the segments of a file gives the checksum of
the whole file for every split and every order, with the sum wrapping at 2^32 and the position
at 2^64; and that checksum is the sum of the zero-padded big-endian words of section 4.2.5 of
CCSDS 727.0-B-5.

**The formats** (`Header`, `FileData`, `Tlvs`, `Filestore`, `Eof`, `Finished`, `Metadata`, `Nak`,
`Nesting`). Decoding an encoding returns the value as it is on the wire, and encoding a
decoding restores the octets, up to the spare bits each lemma names. The accepted inputs of File
Data, of every modelled directive and of the filestore TLVs are characterised exactly. A buffer
walked to its end as a chain of TLVs determines the list, and filestore TLVs come back out of the
PDUs that carry them. `Layout` describes the same formats a second time, as bit positions and
widths counted from the first bit on the wire, and proves that the encoders agree with it and that
the EOF, Finished and Metadata decoders read from it whatever the spare bits are. `Numbers` states
what can be written, what is accepted and what comes out in plain numbers, without the constants and
helpers that the two directions of a codec share.

**A whole transfer** (`Transfer`). Segments that tile a file, each under its own File Data header,
and the EOF of that file are framed, and sealed if the header has the CRC flag. They arrive in
any order, with any octets behind them, and with damaged frames, Metadata and other directives
in between. A receiver that verifies, tells the PDU types apart and decodes gets the original
offset and octets of every segment, without CRC or padding, and exactly one EOF; and the
checksum that EOF carries is the one it has folded from the segments.

## Where the code does less than one might expect

Each of these is stated as an exact condition.

- `cfdp_finished_deserialize` and `cfdp_metadata_deserialize` store the length of the Filestore
  Responses and of the options in 16 bits. In a buffer beyond 65535 octets the excess is
  silently dropped from the reported span although the octets count as consumed. A PDU data
  field never gets that long (`Finished.Reported`, `Metadata.EncodeOfDecode`).
- `cfdp_finished_serialize` copies the responses unchecked. What it wrote decodes to what was
  given if and only if the responses are a chain of Filestore Response TLVs
  (`Finished.DecodeOfEncode`).
- The EOF and Finished decoders do not insist on the Fault Location rule of their encoders,
  as the repository's README says. `Eof.EncodeOfDecode` and `Finished.EncodeOfDecode` say for
  which accepted inputs re-encoding restores the octets.
- Two flipped bits 32767 positions apart are a damage that the CRC does not notice
  (`PduCrc.DoubleErrorDiscarded`, and `PduCrc.UndetectedPair` for every PDU that is long
  enough).

`Finished.ResponsesLost`, `Finished.ResponsesUnchecked`, `Metadata.OptionsLost` and
`Eof.FaultLocationMissing` are concrete inputs for the others.

## Model

| member | source | states |
|---|---|---|
| `Endian.WriteUint` | include/cfdp_endian.h:25-32 | the loop from the last octet back leaves the big-endian octets of the value, and nothing else in the buffer changes |
| `Endian.ReadUint` | include/cfdp_endian.h:41-49 | the accumulator equals the positional value of the octets read and never wraps for up to eight of them |
| `Endian.ReadOfWrite` | include/cfdp_endian.h:25-49 | reading back what was written gives the value modulo 256^n for n octets |
| `Endian.WriteOfRead` | include/cfdp_endian.h:25-49 | writing back what was read restores the octets, for strings of any length |
| `Crc.CrcUpdate` | src/cfdp_crc.c:16-40 | the nested byte and bit loops compute the register function, for every initial register and every message |
| `Crc.CrcCompute` | src/cfdp_crc.c:42-45 | the one-shot form computes the CRC that ComputeIsEncoder characterises |
| `Crc.UpdateIsRemainder` | src/cfdp_crc.c:25-37 | the register after the message is congruent, modulo the generator over GF(2), to c x^(8n) + M x^16 |
| `Crc.UpdateIsTheRemainder` | src/cfdp_crc.c:16-45 | a 16-bit value is the register after the message exactly when it is congruent to that dividend, so the code is the encoder of section 4.2.1.3 of CCSDS 232.0-B-3 |
| `Crc.ComputeIsEncoder` | src/cfdp_crc.c:42-45 | the CRC is the remainder of sixteen ones followed by the message, both moved past the check bits: the encoder with the register preset to all ones |
| `Crc.ComputeNothing` | src/cfdp_crc.c:18-21 | the CRC of no octets is 0xFFFF |
| `CrcDetection.Residue` | src/cfdp_crc.c:25-37 | a message followed by two octets leaves the register at zero exactly when those octets are its CRC |
| `CrcDetection.UndetectedError` | src/cfdp_crc.c:25-37 | two messages of one length leave the same register, from any start value, exactly when the generator divides the polynomial of their differing bits |
| `CrcDetection.ParityKept` | src/cfdp_crc.c:25-37 | the register ends with an odd number of ones exactly when start value and message together have one |
| `CrcDetection.Linear` | src/cfdp_crc.c:25-37 | the exclusive or of two start values and two messages of one length leaves the exclusive or of their registers |
| `CrcDetection.ErrorWeight` | src/cfdp_crc.c:25-37 | the error polynomial has one term per bit flipped on the wire |
| `CrcDetection.OddErrorDetected` | src/cfdp_crc.c:25-37 | an odd number of flipped bits changes the register, from any start value and for messages of any length |
| `CrcDetection.BurstDetected` | src/cfdp_crc.c:25-37 | any flips confined to sixteen consecutive bits change the register, from any start value and across octet boundaries |
| `CrcOrder.OrderOfX` | src/cfdp_crc.c:25-37 | x^d is 1 modulo the generator exactly when 32767 divides d |
| `CrcDetection.DoubleError` | src/cfdp_crc.c:25-37 | two flipped bits leave the register unchanged, from any start value, exactly when their distance is a multiple of 32767 |
| `PduCrc.CrcAppend` | src/cfdp_pdu.c:187-208 | succeeds exactly for a readable CRC-flagged header that describes a PDU one CRC longer than what is there, with room for it; then two octets are added and nothing else changes |
| `PduCrc.CrcVerify` | src/cfdp_pdu.c:210-243 | the answer is the receiver's rule of section 4.1.2 on the described PDU |
| `PduCrc.VerifiedMeans` | src/cfdp_pdu.c:210-243 | for a CRC-flagged PDU the check holds exactly when the PDU is what appending makes of its front part, and exactly when the CRC of the whole PDU is zero |
| `PduCrc.AcceptedFrames` | src/cfdp_pdu.c:210-243 | a frame is accepted exactly when its octets hold version 1, the described number of octets is there, and, if bit 6 is set, there is room for a CRC and the CRC of the whole is zero |
| `PduCrc.ShortFrames` | src/cfdp_pdu.c:134-139 | fewer than four octets are neither accepted nor sealed |
| `PduCrc.AppendableFrames` | src/cfdp_pdu.c:187-203 | a CRC can be appended exactly when the octets hold version 1 and bit 6 and describe a PDU two octets longer |
| `PduCrc.AppendedOctets` | src/cfdp_pdu.c:205 | the CRC is appended high octet first |
| `PduCrc.PayloadSizes` | src/cfdp_pdu.c:169-185 | the payload is the data field, two octets less with the CRC flag, never less than none |
| `PduCrc.PaddingIgnored` | src/cfdp_pdu.c:219-242 | octets past the described length change neither the header nor the answer |
| `PduCrc.AppendedVerifies` | src/cfdp_pdu.c:187-243 | what was sealed verifies whatever octets follow it, and still shows the same header and length |
| `PduCrc.OddErrorDiscarded` | src/cfdp_pdu.c:210-243 | an odd number of flips behind the fixed octets makes a good PDU fail |
| `PduCrc.BurstDiscarded` | src/cfdp_pdu.c:210-243 | so does any damage confined to sixteen consecutive bits, in identifiers, payload or CRC |
| `PduCrc.DoubleErrorDiscarded` | src/cfdp_pdu.c:210-243 | two flipped bits pass exactly when their distance is a multiple of 32767 |
| `PduCrc.UndetectedPair` | src/cfdp_pdu.c:210-243 | every good PDU with two bits 32767 apart behind its fixed octets has a damaged copy that is accepted |
| `PduCrc.DamagedDiscarded` | src/cfdp_pdu.c:210-243 | a good PDU damaged in any of the three detectable ways is discarded |
| `Checksum.ChecksumUpdate` | src/cfdp_checksum.c:14-32 | the byte-lane loop adds the value of the segment at its offset modulo 2^32 |
| `Checksum.ChecksumCompute` | src/cfdp_checksum.c:34-37 | the one-shot form equals the value of the file from position 0, modulo 2^32 |
| `Checksum.LaneSurvivesWrap` | src/cfdp_checksum.c:26-27 | the byte lane is that of the unbounded position even when the 64-bit one wraps |
| `Checksum.AnySplitAnyOrder` | src/cfdp_checksum.c:21-31 | for every partition of a file and every order of arrival, streaming ends at the checksum of the whole file |
| `Checksum.ComputeIsWordSum` | src/cfdp_checksum.c:21-37 | the checksum is the sum modulo 2^32 of the zero-padded big-endian 4-octet words |
| `Header.HeaderSerialize` | src/cfdp_pdu.c:77-102 | succeeds exactly for version 1, legal identifier lengths and enough room, and then writes exactly the header |
| `Header.HeaderDeserialize` | src/cfdp_pdu.c:134-167 | the field-by-field reads compute the decoding function |
| `Header.ReadFlags` | src/cfdp_pdu.c:110-132 | the bit fields of octets 0 and 3 and the length read by the integer loop are the fields of the decoding function |
| `Header.DecodeOfEncode` | src/cfdp_pdu.c:51-167 | a header decodes, whatever follows it, to itself with identifiers reduced to their length and segment flags cleared for directives |
| `Header.EncodeOfDecode` | src/cfdp_pdu.c:51-167 | an accepted header re-encodes to its own octets, up to bits 7 and 3 of octet 3 for directives |
| `Header.AcceptedLanguage` | src/cfdp_pdu.c:134-167 | a header is accepted exactly when its first three bits hold version 1 and the octets its two lengths ask for are there; no other bit is refused |
| `Header.WritableHeaders` | src/cfdp_pdu.c:25-43 | a header can be written exactly when it has version 1 and identifiers of 1 to 8 octets, and then takes 4 + 2e + t octets |
| `Header.Widths` | include/cfdp_common.h:251-254 | a file-size field loses nothing under the Large File flag and all but 32 bits without it |
| `Layout.HeaderLayout` | src/cfdp_pdu.c:51-102 | every field of an encoded header stands at the bit position and has the width that table 5-1 gives it |
| `FileData.Serialize` | src/cfdp_pdu.c:288-320 | succeeds exactly for metadata that agrees with the flag and enough room, and then writes exactly the payload |
| `FileData.Deserialize` | src/cfdp_pdu.c:351-388 | the reads compute the decoding function and consume the whole payload |
| `FileData.MetadataWrite` | src/cfdp_pdu.c:275-286 | writes the packed octet and the metadata and returns their number |
| `FileData.MetadataRead` | src/cfdp_pdu.c:330-349 | rejects exactly the payloads that end before their metadata does |
| `FileData.DecodeOfEncode` | src/cfdp_pdu.c:256-388 | an encoded payload decodes to the same data and metadata, offset in the chosen width, continuation state only under the flag |
| `FileData.EncodeOfDecode` | src/cfdp_pdu.c:256-388 | every accepted payload re-encodes to itself and all of it was used |
| `FileData.AcceptedLanguage` | src/cfdp_pdu.c:330-388 | a payload is accepted exactly when it is the encoding of some consistent segment |
| `Layout.FileDataLayout` | src/cfdp_pdu.c:275-320 | continuation state, metadata length and metadata under the flag, then the offset in 8 or 4 octets and the data, stand where table 5-14 puts them |
| `Numbers.FileDataWritable` | src/cfdp_pdu.c:256-267 | no metadata without the flag, up to 63 octets with it |
| `Numbers.FileDataAccepted` | src/cfdp_pdu.c:330-388 | accepted exactly: as many octets as the announced metadata and an offset of 8 or 4 octets need |
| `Numbers.FileDataValue` | src/cfdp_pdu.c:330-388 | every field of an accepted payload is read from its octets, the offset from 8 or 4 of them |
| `Numbers.OffsetReturned` | src/cfdp_pdu.c:302-317 | a large-file offset returns unreduced, a small-file offset modulo 2^32 |
| `Tlvs.LvSerialize` | src/cfdp_tlv.c:51-66 | writes length and value exactly when they fit |
| `Tlvs.LvDeserialize` | src/cfdp_tlv.c:68-88 | accepts exactly a length octet followed by that many octets |
| `Tlvs.LvDecodeOfEncode` | src/cfdp_tlv.c:51-88 | an LV decodes to its value, whatever follows it |
| `Numbers.LvAccepted` | src/cfdp_tlv.c:68-88 | an LV is accepted exactly when its announced octets are there, and yields them |
| `Tlvs.TlvSerialize` | src/cfdp_tlv.c:90-106 | writes type, length and value exactly when they fit |
| `Tlvs.TlvDeserialize` | src/cfdp_tlv.c:108-126 | accepts exactly a type, a length octet and that many octets |
| `Tlvs.TlvDecodeOfEncode` | src/cfdp_tlv.c:90-126 | a TLV decodes to itself, whatever follows it |
| `Numbers.TlvAccepted` | src/cfdp_tlv.c:108-126 | a TLV is accepted exactly when its announced octets are there, whatever its type, and yields them |
| `Tlvs.WalkOfEncode` | src/cfdp_tlv.c:90-126 | walking the concatenation of any list of TLVs returns that list and ends at the end |
| `Tlvs.EncodeOfWalk` | src/cfdp_tlv.c:90-126 | a buffer walked to its end is the concatenation of the re-encodings |
| `Tlvs.UniquelyDecodable` | src/cfdp_tlv.c:90-126 | a buffer walks to a list exactly when the list encodes to it, so no two lists share an encoding |
| `Tlvs.EntitySerialize` | src/cfdp_tlv.c:128-144 | writes an Entity ID TLV exactly for lengths 1 to 8 that fit |
| `Tlvs.EntityDeserialize` | src/cfdp_tlv.c:146-163 | accepts exactly a framed TLV of type 6 whose value has 1 to 8 octets |
| `Tlvs.EntityAccepted` | src/cfdp_tlv.c:146-163 | octets are accepted exactly when they start with an Entity ID TLV of 1 to 8 octets |
| `Tlvs.EntityRoundTrip` | src/cfdp_tlv.c:128-163 | the identifier returns reduced to its length |
| `Tlvs.EntityRestored` | src/cfdp_tlv.c:128-163 | an accepted Entity ID TLV re-encodes to itself |
| `Numbers.EntityAccepted` | src/cfdp_tlv.c:146-163 | an Entity ID is accepted exactly for type 6 and length 1 to 8, and its octets are read as a big-endian number |
| `Numbers.EntityWritten` | src/cfdp_tlv.c:139-143 | an Entity ID is written as 6, its length and its octets |
| `Filestore.NamesSerialize` | src/cfdp_tlv.c:250-275 | writes one or two names exactly when they fit, and nothing outside the capacity otherwise |
| `Filestore.NamesDeserialize` | src/cfdp_tlv.c:289-314 | reads one or two names, the second from where the first ended |
| `Filestore.Finish` | src/cfdp_tlv.c:324-336 | puts type and length in front of the value already written, or fails for a value over 255 octets |
| `Filestore.RequestSerialize` | src/cfdp_tlv.c:338-366 | succeeds exactly for a defined action, a value of at most 255 octets and enough room, and then writes exactly the TLV |
| `Filestore.ResponseSerialize` | src/cfdp_tlv.c:401-437 | the same for responses |
| `Filestore.RequestDeserialize` | src/cfdp_tlv.c:368-399 | the names must fill the TLV value exactly |
| `Filestore.ResponseDeserialize` | src/cfdp_tlv.c:439-480 | the names and the message must fill the TLV value exactly |
| `Filestore.RequestDecodeOfEncode` | src/cfdp_tlv.c:338-399 | an encoded request decodes to itself, the second name dropped when the action has none |
| `Filestore.RequestEncodeOfDecode` | src/cfdp_tlv.c:338-399 | an accepted request re-encodes to the octets it occupied, up to the spare low nibble |
| `Filestore.RequestAccepted` | src/cfdp_tlv.c:368-399 | accepted exactly: an encoded request with any spare nibble, and whatever follows it |
| `Filestore.ResponseDecodeOfEncode` | src/cfdp_tlv.c:401-480 | an encoded response decodes to itself, the status in four bits |
| `Filestore.ResponseEncodeOfDecode` | src/cfdp_tlv.c:401-480 | an accepted response re-encodes to exactly the octets it occupied |
| `Filestore.ResponseAccepted` | src/cfdp_tlv.c:439-480 | accepted exactly: an encoded response, and whatever follows it |
| `Numbers.RequestWritable` | src/cfdp_tlv.c:338-366 | a request can be written exactly for actions 0 to 8 and a value of at most 255 octets, second name counted for actions 2, 3 and 4 |
| `Numbers.RequestWritten` | src/cfdp_tlv.c:338-366 | type 0, length, action in the high nibble, first name, and a second name exactly for actions 2, 3 and 4 |
| `Numbers.ResponseWritable` | src/cfdp_tlv.c:401-437 | a response can be written exactly for actions 0 to 8 and a value of at most 255 octets with the message |
| `Numbers.ResponseWritten` | src/cfdp_tlv.c:401-437 | type 1, length, action and status nibbles, first name, second name exactly for actions 2, 3 and 4, message |
| `Numbers.NamesReturned` | src/cfdp_tlv.c:18-23 | the second name returns exactly for actions 2, 3 and 4 |
| `Nesting.ResponsesRoundTrip` | src/cfdp_tlv.c:401-480 | responses written one behind the other read back as that list by repeated decoding |
| `Nesting.ResponsesRestored` | src/cfdp_tlv.c:401-480 | octets that read to their end as responses are the concatenation of their re-encodings |
| `Nesting.RequestsRoundTrip` | src/cfdp_tlv.c:338-399 | requests written one behind the other read back as that list by repeated decoding |
| `Eof.Serialize` | src/cfdp_directive.c:30-75 | succeeds exactly when a required Fault Location has a legal length and everything fits |
| `Eof.Deserialize` | src/cfdp_directive.c:77-115 | the reads compute the decoding function, lenient about the Fault Location |
| `Eof.DecodeOfEncode` | src/cfdp_directive.c:30-115 | checksum and file size return, and the Fault Location exactly when the condition is not "No error" |
| `Eof.EncodeOfDecode` | src/cfdp_directive.c:30-115 | an accepted EOF re-encodes to the octets it occupied, up to the spare nibble, exactly when nothing follows its fixed part if and only if the condition in its octet 1 is "No error" |
| `Eof.AcceptedLanguage` | src/cfdp_directive.c:77-115 | accepted exactly: the code and the fixed part, then nothing or an Entity ID TLV and whatever follows it |
| `Eof.FaultLocationMissing` | src/cfdp_directive.c:100-103 | a ten-octet EOF with a fault condition and no Fault Location is accepted although the encoder would refuse it |
| `Layout.EofLayout` | src/cfdp_directive.c:55-58 | code, condition, spare, checksum and file size stand where section 5.2.2 puts them |
| `Layout.EofRead` | src/cfdp_directive.c:89-96 | the decoder reads condition, checksum and size from those positions of every PDU it accepts |
| `Numbers.EofWritten` | src/cfdp_directive.c:30-75 | writable exactly with condition 0 or a Fault Location of 1 to 8 octets, and then these octets |
| `Numbers.EofAccepted` | src/cfdp_directive.c:77-115 | accepted exactly: 14 or 10 octets that start with 4, then nothing or an Entity ID |
| `Numbers.EofFault` | src/cfdp_directive.c:97-114 | the Fault Location and the consumed length are read from the octets behind the fixed part, or are none |
| `Numbers.EofReturned` | src/cfdp_directive.c:48-58 | a large file size returns unreduced |
| `Finished.Serialize` | src/cfdp_directive.c:117-165 | succeeds exactly when a required Fault Location has a legal length and everything fits |
| `Finished.ParseTlvs` | src/cfdp_directive.c:179-221 | the loop over the TLVs computes the decoding function, for every buffer |
| `Finished.Deserialize` | src/cfdp_directive.c:223-239 | the whole decoder computes the decoding function |
| `Finished.AcceptedLanguage` | src/cfdp_directive.c:179-239 | accepted exactly: the code, an octet of codes, a run of responses, then Entity IDs, nothing left over |
| `Finished.Reported` | src/cfdp_directive.c:193-217 | the last Entity ID is the Fault Location, every octet is consumed, and the span is the front of the leading run that its length modulo 65536 leaves, so the whole run exactly when it fits 16 bits |
| `Finished.DecodeOfEncode` | src/cfdp_directive.c:117-239 | what was written decodes to what was given exactly when the responses are a chain of Filestore Response TLVs |
| `Finished.EncodeOfDecode` | src/cfdp_directive.c:117-239 | an accepted PDU re-encodes to its octets with bit 3 of octet 1 cleared, exactly when the run fits and one Entity ID is there exactly if the condition in the high nibble requires it |
| `Nesting.FinishedCarriesResponses` | src/cfdp_directive.c:117-239 | a Finished PDU filled by the filestore encoder decodes to a span that reads back, TLV by TLV and response by response, as what was put in |
| `Finished.ResponsesLost` | src/cfdp_directive.c:199-200 | 256 responses of 256 octets are accepted, consumed and reported as none |
| `Finished.ResponsesUnchecked` | src/cfdp_directive.c:144-148 | a single stray octet given as responses is written and then rejected by the decoder |
| `Layout.FinishedLayout` | src/cfdp_directive.c:139-142 | code, condition, spare, delivery code and file status stand where section 5.2.3 puts them |
| `Layout.FinishedRead` | src/cfdp_directive.c:225-232 | the decoder reads condition, delivery code and file status from those positions of every PDU it accepts, whatever the spare bit and the Fault Location |
| `Numbers.FinishedWritten` | src/cfdp_directive.c:117-165 | writable exactly with condition 0 or 11 or a Fault Location of 1 to 8 octets, and then these octets |
| `Numbers.FinishedKinds` | src/cfdp_directive.c:193-215 | responses have type 1, entities type 6 and 1 to 8 octets; conditions 0 and 11 ask for no Fault Location, all others for one |
| `Metadata.Serialize` | src/cfdp_directive.c:306-356 | succeeds exactly when the predicted size fits, so the nested LV writers never fail, and writes exactly that many octets |
| `Metadata.Deserialize` | src/cfdp_directive.c:358-405 | the reads compute the decoding function and consume the whole data field |
| `Metadata.DecodeOfEncode` | src/cfdp_directive.c:306-405 | both file names, the options octet for octet and the file size in the chosen width return |
| `Metadata.EncodeOfDecode` | src/cfdp_directive.c:306-405 | the front of an accepted PDU and what follows it are its octets with the reserved bits of octet 1 cleared, and it re-encodes to them exactly when the options fit 16 bits of length |
| `Metadata.AcceptedLanguage` | src/cfdp_directive.c:358-405 | accepted exactly: the code, flags and file size, two LVs, and whatever follows them |
| `Nesting.MetadataCarriesRequests` | src/cfdp_directive.c:349-402 | Metadata options filled by the filestore encoder decode to a span that reads back as the requests put in |
| `Nesting.MetadataCarriesOptions` | src/cfdp_directive.c:349-402 | options of any types come back as the list they were |
| `Metadata.OptionsLost` | src/cfdp_directive.c:400-402 | 65536 octets of options are accepted, consumed and reported as none |
| `Layout.MetadataLayout` | src/cfdp_directive.c:324-353 | closure flag, checksum type, file size, names and options stand where section 5.2.5 puts them |
| `Layout.MetadataRead` | src/cfdp_directive.c:369-378 | the decoder reads closure flag, checksum type and file size from those positions of every PDU it accepts, whatever the reserved bits |
| `Numbers.MetadataAccepted` | src/cfdp_directive.c:368-398 | accepted exactly: 7, flags, 8 or 4 octets of file size, and two LVs within the octets |
| `Numbers.MetadataNames` | src/cfdp_directive.c:380-404 | names and options are read from where the LV lengths say |
| `Numbers.MetadataReturned` | src/cfdp_directive.c:327-329 | a large file size returns unreduced |
| `Nak.Serialize` | src/cfdp_directive.c:407-441 | succeeds exactly for at most 32 requests that fit, and then writes scope and requests exactly |
| `Nak.AppendRequests` | src/cfdp_directive.c:432-438 | the loop writes the requests behind what is there, nothing more |
| `Nak.ParseSegmentRequests` | src/cfdp_directive.c:453-482 | the loop reads the requests exactly when they fill the octets and are not too many |
| `Nak.Deserialize` | src/cfdp_directive.c:484-514 | no requests is told apart from malformed requests although the helper returns 0 for both |
| `Nak.AcceptedLanguage` | src/cfdp_directive.c:453-514 | accepted exactly: the code and a whole number of offset pairs, from 1 to 33 |
| `Nak.DecodeOfEncode` | src/cfdp_directive.c:407-514 | an encodable NAK decodes to itself with offsets in the chosen width |
| `Nak.EncodeOfDecode` | src/cfdp_directive.c:407-514 | every accepted data field re-encodes to itself |
| `Layout.NakLayout` | src/cfdp_directive.c:425-430 | code and scope stand where section 5.2.6 puts them |
| `Layout.RequestLayout` | src/cfdp_directive.c:432-438 | each segment request stands behind the scope and the requests before it |
| `Numbers.NakWritable` | src/cfdp_directive.c:412-423 | at most 32 requests, in 16 or 8 octets each behind as many for the scope |
| `Numbers.NakAccepted` | src/cfdp_directive.c:453-514 | accepted exactly: 8 and then 1 to 33 times 16 or 8 octets |
| `Numbers.NakReturned` | src/cfdp_directive.c:407-514 | under the Large File flag a NAK returns as it was |
| `Transfer.EmitPdu` | examples/example.c:48-77 | a PDU is emitted exactly for a serialisable CRC-flagged header, a data field of at most 65535 octets and enough room; the 16-bit cast of the length never yields a wrong frame |
| `Transfer.ReceiveSegment` | examples/example.c:132-164 | verify, decode, strip the CRC, decode the payload and add its octets at their offset modulo 2^32; a frame that does not verify gives nothing and leaves the checksum alone |
| `Transfer.NothingUnverified` | examples/example.c:134-140 | a frame whose CRC does not check out delivers nothing of any kind |
| `Transfer.NothingDamaged` | examples/example.c:134-140 | so does a detectably damaged copy of a good frame |
| `Transfer.OnlyTheseDiscarded` | README.md:190-213 | frames are discarded for the CRC check or a File Data payload that does not decode, and for nothing else |
| `Transfer.TransmittableMeans` | examples/example.c:55-75 | a PDU can be sent exactly with a writable header and at most 65535 octets of data field, CRC included |
| `Transfer.ReceivePdu` | README.md:190-213 | verify, decode the header, tell File Data from directives and the EOF from the others, as the quick start shows |
| `Transfer.FrameArrives` | src/cfdp_pdu.c:77-243 | an emitted frame verifies with any padding and yields its header and exactly its payload |
| `Transfer.PlainArrives` | src/cfdp_pdu.c:169-178 | without the CRC flag the frame is accepted and the whole data field is the payload |
| `Transfer.EverySegmentArrives` | src/cfdp_pdu.c:169-388 | every segment of a file arrives with its own offset, octets and metadata |
| `Transfer.PiecesArrive` | README.md:190-213 | the delivered pieces and EOFs are those that were sent, up to order, whatever discarded frames and other directives arrive among them |
| `Transfer.CorruptedCopies` | src/cfdp_pdu.c:210-243 | copies of good frames damaged in a detectable way count among the discarded ones |
| `Transfer.MetadataArrives` | README.md:190-213 | a Metadata PDU in the stream leaves checksum and EOF alone and decodes to what was sent |
| `Transfer.OtherDirectiveArrives` | README.md:190-213 | so does any directive whose payload does not start with the EOF code |
| `Transfer.FileArrives` | examples/example.c:132-164 | for every split, order and padding, with EOFs and bystanders in the stream, the running checksum ends at that of the file |
| `Transfer.EofArrives` | examples/example.c:117-130 | the EOF of a file comes out of the stream with its checksum and size |
| `Transfer.TransferComplete` | examples/example.c:48-164 | of all PDUs that arrive in any order exactly one is an EOF, the one that was sent, and its checksum is the one folded from the File Data PDUs |

## Left out

- ACK, Prompt and Keep Alive PDUs and the Fault Handler Override TLV: fixed sizes and one or two branches.
- `cfdp_checksum_type_supported` and `cfdp_checksum_update_by_type`: a two-way dispatch around the modular checksum and the constant 0.
- NULL arguments: the model has no null buffers or values; a NULL value with a positive length, which the C code rejects, cannot be written down.
- Pointers into the input: decoded names, responses, options and data are values here, not views of the caller's buffer, so aliasing is not captured.
- Out-structures after a failed decode: their contents are not described.
- Octets within the capacity after a failed EOF, Finished or filestore serialisation, and after a failed `emit_pdu`: not described beyond the capacity bound where one is stated.
- `size_t` overflow on sums of buffer lengths: lengths are unbounded integers.
- `CFDP_NAK_MAX_SEGMENT_REQUESTS`: fixed at its default 32.
- Enumeration values outside their wire width: two-valued enumerations are datatypes; condition, delivery, status and action codes are octets.
- Corruption of octets 0 to 3 of a PDU: they say where the CRC is and whether it applies, so the detection results assume them intact.
- PduCrc.DamagedDiscarded: three classes of damage that are always detected; `CrcDetection.UndetectedError` is the exact condition for all damage.
- Transfer.TransferComplete: one EOF and each segment once in the stream, because the checksum counts a segment twice that is delivered twice; suppressing duplicates is the caller's business.
- The transaction procedures, timers, retransmission, user operations and the filestore: the repository does not implement them.
- Printing and the fixed header values of examples/example.c; what it does with a payload that fails to decode is to go on with an uninitialised structure, where the model returns nothing.
