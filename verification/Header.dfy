/** The fixed PDU header (src/cfdp_pdu.c, section 5.1 of CCSDS 727.0-B-5). */
module Header {
  import opened Octets
  import opened Endian

  const PROTOCOL_VERSION: uint8 := 1
  const FIXED_LEN: nat := 4

  datatype PduType = DirectivePdu | FileDataPdu
  datatype Direction = TowardReceiver | TowardSender
  datatype TransmissionMode = Acknowledged | Unacknowledged
  datatype CrcFlag = CrcAbsent | CrcPresent
  datatype LargeFileFlag = SmallFile | LargeFile
  datatype SegmentationControl = BoundariesNotPreserved | BoundariesPreserved
  datatype SegmentMetadataFlag = MetadataAbsent | MetadataPresent

  datatype PduHeader = PduHeader(
    version: uint8,
    pduType: PduType,
    direction: Direction,
    transmissionMode: TransmissionMode,
    crcFlag: CrcFlag,
    largeFileFlag: LargeFileFlag,
    dataFieldLength: uint16,
    segmentationControl: SegmentationControl,
    segmentMetadataFlag: SegmentMetadataFlag,
    entityIdLength: uint8,
    transactionSeqLength: uint8,
    sourceEntityId: uint64,
    transactionSeqNumber: uint64,
    destinationEntityId: uint64)

  /** cfdp_file_size_octets */
  function FileSizeOctets(flag: LargeFileFlag): (n: nat)
    ensures 4 <= n <= 8
  {
    if flag.LargeFile? then 8 else 4
  }

  predicate IdLenValid(len: uint8) {
    1 <= len <= 8
  }

  /** cfdp_pdu_header_size: 0 when an identifier length is out of range. */
  function HeaderSize(h: PduHeader): nat {
    if !IdLenValid(h.entityIdLength) || !IdLenValid(h.transactionSeqLength) then 0
    else FIXED_LEN + 2 * h.entityIdLength + h.transactionSeqLength
  }

  function Bit(b: bool): nat {
    if b then 1 else 0
  }

  /** cfdp_pack_octet0 */
  function PackOctet0(h: PduHeader): octet {
    32 * (h.version % 8) + 16 * Bit(h.pduType.FileDataPdu?) + 8 * Bit(h.direction.TowardSender?)
    + 4 * Bit(h.transmissionMode.Unacknowledged?) + 2 * Bit(h.crcFlag.CrcPresent?) + Bit(h.largeFileFlag.LargeFile?)
  }

  /** cfdp_pack_octet3: both segment flags are written as 0 for File Directive PDUs. */
  function PackOctet3(h: PduHeader): octet
    requires HeaderSize(h) > 0
  {
    var flags := h.pduType.FileDataPdu?;
    128 * Bit(flags && h.segmentationControl.BoundariesPreserved?) + 16 * ((h.entityIdLength - 1) % 8)
    + 8 * Bit(flags && h.segmentMetadataFlag.MetadataPresent?) + (h.transactionSeqLength - 1) % 8
  }

  /** The four fixed octets. */
  function EncodeFixed(h: PduHeader): (s: octets)
    requires HeaderSize(h) > 0
    ensures |s| == FIXED_LEN
  {
    [PackOctet0(h)] + BigEndian(h.dataFieldLength, 2) + [PackOctet3(h)]
  }

  /** The three identifiers. */
  function EncodeIds(h: PduHeader): (s: octets)
    ensures |s| == 2 * h.entityIdLength + h.transactionSeqLength
  {
    BigEndian(h.sourceEntityId, h.entityIdLength)
    + BigEndian(h.transactionSeqNumber, h.transactionSeqLength)
    + BigEndian(h.destinationEntityId, h.entityIdLength)
  }

  /** The octets of a header with legal identifier lengths. */
  function EncodeHeader(h: PduHeader): (s: octets)
    requires HeaderSize(h) > 0
    ensures |s| == HeaderSize(h)
  {
    EncodeFixed(h) + EncodeIds(h)
  }

  predicate Serializable(h: PduHeader) {
    h.version == PROTOCOL_VERSION && HeaderSize(h) > 0
  }

  /** cfdp_pdu_header_serialize, writing at `start` with `cap` octets of room. */
  method HeaderSerialize(h: PduHeader, buf: array<octet>, start: nat, cap: nat) returns (n: nat)
    requires start + cap <= buf.Length
    modifies buf
    ensures n == if Serializable(h) && HeaderSize(h) <= cap then HeaderSize(h) else 0
    ensures buf[..] == if n > 0 then Splice(old(buf[..]), start, EncodeHeader(h)) else old(buf[..])
  {
    if h.version != PROTOCOL_VERSION {
      return 0;
    }
    var size := HeaderSize(h);
    if size == 0 || cap < size {
      return 0;
    }
    ghost var before, done := buf[..], [PackOctet0(h)];
    Store(buf, start, PackOctet0(h));
    WriteUint(buf, start + 1, h.dataFieldLength, 2);
    done := Extend(before, start, done, BigEndian(h.dataFieldLength, 2));
    Store(buf, start + 3, PackOctet3(h));
    done := Extend(before, start, done, [PackOctet3(h)]);
    WriteIds(buf, start + FIXED_LEN, h);
    done := Extend(before, start, done, EncodeIds(h));
    return size;
  }

  /** The three identifier writes of cfdp_pdu_header_serialize. */
  method WriteIds(buf: array<octet>, start: nat, h: PduHeader)
    requires start + 2 * h.entityIdLength + h.transactionSeqLength <= buf.Length
    modifies buf
    ensures buf[..] == Splice(old(buf[..]), start, EncodeIds(h))
  {
    var e: nat, t: nat := h.entityIdLength, h.transactionSeqLength;
    ghost var before, source, number := buf[..], BigEndian(h.sourceEntityId, e), BigEndian(h.transactionSeqNumber, t);
    WriteUint(buf, start, h.sourceEntityId, e);
    AppendUint(buf, start, e, h.transactionSeqNumber, t, before, source);
    AppendUint(buf, start, e + t, h.destinationEntityId, e, before, source + number);
  }

  function ReadUint16(s: octets): uint16
    requires |s| == 2
  {
    WriteOfRead(s);
    Pow256Values();
    FromBigEndian(s)
  }

  /** The one-bit field of the given weight. */
  predicate Flag(o: octet, weight: nat)
    requires weight > 0
  {
    o / weight % 2 == 1
  }

  /** The header fields that octets 0 and 3 carry, with the given data field length. */
  function FlagFields(o0: octet, o3: octet, dataFieldLength: uint16): PduHeader {
    var fileData := Flag(o0, 16);
    PduHeader(
      o0 / 32 % 8,
      if fileData then FileDataPdu else DirectivePdu,
      if Flag(o0, 8) then TowardSender else TowardReceiver,
      if Flag(o0, 4) then Unacknowledged else Acknowledged,
      if Flag(o0, 2) then CrcPresent else CrcAbsent,
      if Flag(o0, 1) then LargeFile else SmallFile,
      dataFieldLength,
      if fileData && Flag(o3, 128) then BoundariesPreserved else BoundariesNotPreserved,
      if fileData && Flag(o3, 8) then MetadataPresent else MetadataAbsent,
      o3 / 16 % 8 + 1,
      o3 % 8 + 1,
      0, 0, 0)
  }

  /** The header fields carried by the four fixed octets. */
  function UnpackFlags(s: octets): PduHeader
    requires |s| >= FIXED_LEN
  {
    FlagFields(s[0], s[3], ReadUint16(s[1..3]))
  }

  /** cfdp_unpack_flags */
  method ReadFlags(s: octets) returns (h: PduHeader)
    requires |s| >= FIXED_LEN
    ensures h == UnpackFlags(s[..FIXED_LEN])
  {
    var length := ReadUint(s[1..], 2);
    assert s[1..][..2] == s[1..3] == s[..FIXED_LEN][1..3];
    assert length == ReadUint16(s[1..3]);
    h := FlagFields(s[0], s[3], length);
  }

  function DecodeHeader(s: octets): (r: Decoding<PduHeader>)
    ensures r.Decoded? ==> 0 < r.consumed <= |s| && r.consumed == HeaderSize(r.value)
  {
    if |s| < FIXED_LEN then Malformed
    else
      var h := UnpackFlags(s[..FIXED_LEN]);
      if h.version != PROTOCOL_VERSION || |s| < HeaderSize(h) then Malformed
      else Decoded(WithIds(h, s[FIXED_LEN..HeaderSize(h)]), HeaderSize(h))
  }

  /** The header completed by the identifiers that follow the fixed octets. */
  function WithIds(h: PduHeader, ids: octets): PduHeader
    requires HeaderSize(h) > 0 && |ids| == 2 * h.entityIdLength + h.transactionSeqLength
  {
    var e, t := h.entityIdLength, h.transactionSeqLength;
    h.(sourceEntityId := ReadId(ids[..e]),
       transactionSeqNumber := ReadId(ids[e..e + t]),
       destinationEntityId := ReadId(ids[e + t..]))
  }

  function ReadId(s: octets): uint64
    requires |s| <= 8
  {
    WriteOfRead(s);
    PowMonotone(|s|, 8);
    Pow256Values();
    FromBigEndian(s)
  }

  /** cfdp_pdu_header_deserialize */
  method HeaderDeserialize(s: octets) returns (n: nat, h: PduHeader)
    ensures n > 0 <==> DecodeHeader(s).Decoded?
    ensures n > 0 ==> DecodeHeader(s) == Decoded(h, n)
  {
    h := PduHeader(0, DirectivePdu, TowardReceiver, Acknowledged, CrcAbsent, SmallFile, 0,
                   BoundariesNotPreserved, MetadataAbsent, 1, 1, 0, 0, 0);
    if |s| < FIXED_LEN {
      return 0, h;
    }
    h := ReadFlags(s);
    if h.version != PROTOCOL_VERSION {
      return 0, h;
    }
    var size := HeaderSize(h);
    if size == 0 || |s| < size {
      return 0, h;
    }
    h := ReadIds(s[FIXED_LEN..size], h);
    return size, h;
  }

  /** The three identifier reads of cfdp_pdu_header_deserialize. */
  method ReadIds(ids: octets, h: PduHeader) returns (r: PduHeader)
    requires HeaderSize(h) > 0 && |ids| == 2 * h.entityIdLength + h.transactionSeqLength
    ensures r == WithIds(h, ids)
  {
    var e, t := h.entityIdLength, h.transactionSeqLength;
    var pos: nat := 0;
    var source := ReadUint(ids[pos..], e);
    pos := pos + e;
    assert ids[pos..][..t] == ids[e..e + t];
    var number := ReadUint(ids[pos..], t);
    pos := pos + t;
    assert ids[pos..][..e] == ids[e + t..];
    var destination := ReadUint(ids[pos..], e);
    r := h.(sourceEntityId := source, transactionSeqNumber := number, destinationEntityId := destination);
  }

  // ---------------------------------------------------------------------------
  // Round trips
  // ---------------------------------------------------------------------------

  /** What of a header survives the wire: identifiers modulo 256 to their length,
      and no segment flags on a File Directive PDU. */
  function OnTheWire(h: PduHeader): PduHeader {
    var flags := h.pduType.FileDataPdu?;
    h.(sourceEntityId := LowOctets(h.sourceEntityId, h.entityIdLength),
       transactionSeqNumber := LowOctets(h.transactionSeqNumber, h.transactionSeqLength),
       destinationEntityId := LowOctets(h.destinationEntityId, h.entityIdLength),
       segmentationControl := if flags then h.segmentationControl else BoundariesNotPreserved,
       segmentMetadataFlag := if flags then h.segmentMetadataFlag else MetadataAbsent)
  }

  lemma FlagBit(o: octet, weight: nat)
    requires weight > 0
    ensures Bit(Flag(o, weight)) == o / weight % 2
  {
  }

  lemma BitFlag(o: octet, weight: nat, b: bool)
    requires weight > 0 && o / weight % 2 == Bit(b)
    ensures Flag(o, weight) == b
  {
  }

  lemma SixFields(v: nat, t: nat, d: nat, m: nat, c: nat, l: nat, o: nat)
    requires v < 8 && t < 2 && d < 2 && m < 2 && c < 2 && l < 2
    requires o == 32 * v + 16 * t + 8 * d + 4 * m + 2 * c + l
    ensures o / 32 == v && o / 16 % 2 == t && o / 8 % 2 == d && o / 4 % 2 == m && o / 2 % 2 == c && o % 2 == l
  {
    assert o / 2 == 16 * v + 8 * t + 4 * d + 2 * m + c;
    assert o / 4 == 8 * v + 4 * t + 2 * d + m;
    assert o / 8 == 4 * v + 2 * t + d;
    assert o / 16 == 2 * v + t;
  }

  lemma FourFields(s: nat, e: nat, m: nat, t: nat, o: nat)
    requires s < 2 && e < 8 && m < 2 && t < 8 && o == 128 * s + 16 * e + 8 * m + t
    ensures o / 128 == s && o / 16 % 8 == e && o / 8 % 2 == m && o % 8 == t
  {
    assert o / 8 == 16 * s + 2 * e + m;
    assert o / 16 == 8 * s + e;
  }

  lemma SixDigits(o: nat)
    requires o < 256
    ensures o == 32 * (o / 32 % 8) + 16 * (o / 16 % 2) + 8 * (o / 8 % 2) + 4 * (o / 4 % 2) + 2 * (o / 2 % 2) + o % 2
  {
    assert o / 4 == o / 2 / 2;
    assert o / 8 == o / 4 / 2;
    assert o / 16 == o / 8 / 2;
    assert o / 32 == o / 16 / 2;
  }

  lemma FourDigits(o: nat)
    requires o < 256
    ensures o == 128 * (o / 128 % 2) + 16 * (o / 16 % 8) + 8 * (o / 8 % 2) + o % 8
  {
    assert o / 16 == o / 8 / 2;
    assert o / 128 == o / 16 / 8;
  }

  lemma UnpackOctet0(h: PduHeader, o: octet)
    requires h.version < 8 && o == PackOctet0(h)
    ensures o / 32 % 8 == h.version
    ensures Flag(o, 16) == h.pduType.FileDataPdu? && Flag(o, 8) == h.direction.TowardSender?
    ensures Flag(o, 4) == h.transmissionMode.Unacknowledged? && Flag(o, 2) == h.crcFlag.CrcPresent?
    ensures Flag(o, 1) == h.largeFileFlag.LargeFile?
  {
    var t, d, m := h.pduType.FileDataPdu?, h.direction.TowardSender?, h.transmissionMode.Unacknowledged?;
    var c, l := h.crcFlag.CrcPresent?, h.largeFileFlag.LargeFile?;
    SixFields(h.version, Bit(t), Bit(d), Bit(m), Bit(c), Bit(l), o);
    BitFlag(o, 16, t);
    BitFlag(o, 8, d);
    BitFlag(o, 4, m);
    BitFlag(o, 2, c);
    BitFlag(o, 1, l);
  }

  lemma UnpackOctet3(h: PduHeader, o: octet)
    requires HeaderSize(h) > 0 && o == PackOctet3(h)
    ensures Flag(o, 128) == (h.pduType.FileDataPdu? && h.segmentationControl.BoundariesPreserved?)
    ensures o / 16 % 8 + 1 == h.entityIdLength
    ensures Flag(o, 8) == (h.pduType.FileDataPdu? && h.segmentMetadataFlag.MetadataPresent?)
    ensures o % 8 + 1 == h.transactionSeqLength
  {
    var s := h.pduType.FileDataPdu? && h.segmentationControl.BoundariesPreserved?;
    var m := h.pduType.FileDataPdu? && h.segmentMetadataFlag.MetadataPresent?;
    FourFields(Bit(s), h.entityIdLength - 1, Bit(m), h.transactionSeqLength - 1, o);
    BitFlag(o, 128, s);
    BitFlag(o, 8, m);
  }

  lemma FlagsOfEncode(h: PduHeader)
    requires Serializable(h)
    ensures UnpackFlags(EncodeFixed(h))
         == OnTheWire(h).(sourceEntityId := 0, transactionSeqNumber := 0, destinationEntityId := 0)
  {
    var s := EncodeFixed(h);
    assert s[0] == PackOctet0(h) && s[1..3] == BigEndian(h.dataFieldLength, 2) && s[3] == PackOctet3(h);
    ReadOfWrite(h.dataFieldLength, 2);
    Pow256Values();
    UnpackOctet0(h, s[0]);
    UnpackOctet3(h, s[3]);
  }

  /** Decoding what was encoded, whatever follows it, returns the header as it is on
      the wire and consumes exactly its octets. */
  lemma DecodeOfEncode(h: PduHeader, rest: octets)
    requires Serializable(h)
    ensures DecodeHeader(EncodeHeader(h) + rest) == Decoded(OnTheWire(h), HeaderSize(h))
  {
    var e, t := h.entityIdLength, h.transactionSeqLength;
    var src, num := BigEndian(h.sourceEntityId, e), BigEndian(h.transactionSeqNumber, t);
    var dst := BigEndian(h.destinationEntityId, e);
    var s := EncodeHeader(h) + rest;
    assert EncodeIds(h) == src + num + dst;
    Parts(EncodeFixed(h), EncodeIds(h), rest);
    Parts(src, num, dst);
    FlagsOfEncode(h);
    ReadOfWrite(h.sourceEntityId, e);
    ReadOfWrite(h.transactionSeqNumber, t);
    ReadOfWrite(h.destinationEntityId, e);
  }

  /** The octets of a header with bits 7 and 3 of octet 3, which a File Directive PDU
      leaves unused, cleared. */
  function Canonical(s: octets): octets
    requires |s| >= FIXED_LEN
  {
    if Flag(s[0], 16) then s else s[3 := ClearSegmentFlags(s[3])]
  }

  function ClearSegmentFlags(o: octet): octet {
    FourDigits(o);
    o - 128 * (o / 128 % 2) - 8 * (o / 8 % 2)
  }

  lemma PackOctet0OfFields(o: octet, h: PduHeader)
    requires h.version == o / 32 % 8
    requires Bit(h.pduType.FileDataPdu?) == o / 16 % 2 && Bit(h.direction.TowardSender?) == o / 8 % 2
    requires Bit(h.transmissionMode.Unacknowledged?) == o / 4 % 2 && Bit(h.crcFlag.CrcPresent?) == o / 2 % 2
    requires Bit(h.largeFileFlag.LargeFile?) == o % 2
    ensures PackOctet0(h) == o
  {
    SixDigits(o);
  }

  lemma FlagBits(o: octet)
    ensures Bit(Flag(o, 16)) == o / 16 % 2 && Bit(Flag(o, 8)) == o / 8 % 2 && Bit(Flag(o, 4)) == o / 4 % 2
    ensures Bit(Flag(o, 2)) == o / 2 % 2 && Bit(Flag(o, 1)) == o % 2
  {
    FlagBit(o, 16);
    FlagBit(o, 8);
    FlagBit(o, 4);
    FlagBit(o, 2);
    FlagBit(o, 1);
  }

  lemma PackOctet0OfUnpack(s: octets)
    requires |s| == FIXED_LEN
    ensures PackOctet0(UnpackFlags(s)) == s[0]
  {
    FlagBits(s[0]);
    PackOctet0OfFields(s[0], UnpackFlags(s));
  }

  lemma PackOctet3OfFields(o: octet, h: PduHeader, segmentation: nat, metadata: nat)
    requires HeaderSize(h) > 0 && h.entityIdLength - 1 == o / 16 % 8 && h.transactionSeqLength - 1 == o % 8
    requires segmentation == Bit(h.pduType.FileDataPdu? && h.segmentationControl.BoundariesPreserved?)
    requires metadata == Bit(h.pduType.FileDataPdu? && h.segmentMetadataFlag.MetadataPresent?)
    ensures PackOctet3(h) == o - 128 * (o / 128 % 2 - segmentation) - 8 * (o / 8 % 2 - metadata)
  {
    FourDigits(o);
  }

  lemma PackOctet3OfUnpack(s: octets)
    requires |s| == FIXED_LEN
    ensures PackOctet3(UnpackFlags(s)) == if Flag(s[0], 16) then s[3] else ClearSegmentFlags(s[3])
  {
    var o, fileData := s[3], Flag(s[0], 16);
    FlagBit(o, 128);
    FlagBit(o, 8);
    PackOctet3OfFields(o, UnpackFlags(s), Bit(fileData && Flag(o, 128)), Bit(fileData && Flag(o, 8)));
  }

  lemma PackOfUnpack(s: octets)
    requires |s| == FIXED_LEN
    ensures EncodeFixed(UnpackFlags(s)) == Canonical(s)
  {
    WriteOfRead(s[1..3]);
    PackOctet0OfUnpack(s);
    PackOctet3OfUnpack(s);
  }

  lemma Rewritten(s: octets, n: nat)
    requires |s| == n <= 8
    ensures BigEndian(ReadId(s), n) == s
  {
    WriteOfRead(s);
  }

  lemma EncodeWithIds(h: PduHeader, ids: octets)
    requires HeaderSize(h) > 0 && |ids| == 2 * h.entityIdLength + h.transactionSeqLength
    ensures EncodeIds(WithIds(h, ids)) == ids
  {
    var e: nat, t: nat := h.entityIdLength, h.transactionSeqLength;
    Rewritten(ids[..e], e);
    Rewritten(ids[e..e + t], t);
    Rewritten(ids[e + t..], e);
    ThreeParts(ids, e, e + t);
  }

  lemma IdsUnreduced(h: PduHeader, ids: octets)
    requires HeaderSize(h) > 0 && |ids| == 2 * h.entityIdLength + h.transactionSeqLength
    ensures OnTheWire(WithIds(h, ids)) == WithIds(OnTheWire(h), ids)
  {
    var e, t := h.entityIdLength, h.transactionSeqLength;
    ReadUnreduced(ids[..e]);
    ReadUnreduced(ids[e..e + t]);
    ReadUnreduced(ids[e + t..]);
  }

  lemma ReadUnreduced(s: octets)
    requires |s| <= 8
    ensures LowOctets(ReadId(s), |s|) == ReadId(s)
  {
    WriteOfRead(s);
    ModUnique(ReadId(s), Pow256(|s|), 0, ReadId(s));
  }

  lemma FixedWithIds(h: PduHeader, ids: octets)
    requires HeaderSize(h) > 0 && |ids| == 2 * h.entityIdLength + h.transactionSeqLength
    ensures EncodeFixed(WithIds(h, ids)) == EncodeFixed(h)
  {
  }

  lemma FlagsOnTheWire(s: octets)
    requires |s| == FIXED_LEN
    ensures OnTheWire(UnpackFlags(s)) == UnpackFlags(s)
  {
  }

  lemma CanonicalSplit(s: octets, n: nat)
    requires FIXED_LEN <= n <= |s|
    ensures Canonical(s[..n]) == Canonical(s[..FIXED_LEN]) + s[FIXED_LEN..n]
  {
  }

  /** Encoding what was decoded restores the octets, up to the unused bits. */
  lemma EncodeOfDecode(s: octets)
    requires DecodeHeader(s).Decoded?
    ensures var h, n := DecodeHeader(s).value, DecodeHeader(s).consumed;
            Serializable(h) && OnTheWire(h) == h && EncodeHeader(h) == Canonical(s[..n])
  {
    var f := UnpackFlags(s[..FIXED_LEN]);
    var n := HeaderSize(f);
    var ids := s[FIXED_LEN..n];
    PackOfUnpack(s[..FIXED_LEN]);
    EncodeWithIds(f, ids);
    FixedWithIds(f, ids);
    IdsUnreduced(f, ids);
    FlagsOnTheWire(s[..FIXED_LEN]);
    CanonicalSplit(s, n);
  }

  // ---------------------------------------------------------------------------
  // What is accepted
  // ---------------------------------------------------------------------------

  /** Octets are accepted as a header exactly when their first three bits hold version 1
      and they are as many as the two identifier lengths in octet 3 say, which is also
      the number consumed. No other bit can make them unacceptable. */
  lemma AcceptedLanguage(s: octets)
    ensures DecodeHeader(s).Decoded? <==>
            && |s| >= 4 && s[0] / 32 == 1
            && |s| >= 4 + 2 * (s[3] / 16 % 8 + 1) + (s[3] % 8 + 1)
    ensures DecodeHeader(s).Decoded? ==>
            DecodeHeader(s).consumed == 4 + 2 * (s[3] / 16 % 8 + 1) + (s[3] % 8 + 1)
  {
  }

  /** A header can be written exactly when it has version 1 and identifiers of 1 to 8 octets. */
  lemma WritableHeaders(h: PduHeader)
    ensures Serializable(h) <==>
            h.version == 1 && 1 <= h.entityIdLength <= 8 && 1 <= h.transactionSeqLength <= 8
    ensures Serializable(h) ==> |EncodeHeader(h)| == 4 + 2 * h.entityIdLength + h.transactionSeqLength
  {
  }

  /** File sizes and offsets lose nothing under the Large File flag, and all but their low
      32 bits without it. */
  lemma Widths(v: uint64)
    ensures LowOctets(v, FileSizeOctets(LargeFile)) == v
    ensures LowOctets(v, FileSizeOctets(SmallFile)) == v % 0x1_0000_0000
  {
    Pow256Values();
    ModUnique(v, Pow256(8), 0, v);
  }
}
