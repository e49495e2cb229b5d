/** A whole file transfer (examples/example.c, README.md): segments and directives framed,
    sealed with a CRC if their headers say so, delivered in any order with padding and
    damaged frames among them, checked, told apart by PDU type, decoded and folded into
    the checksum that the EOF PDU carries. */
module Transfer {
  import opened Octets
  import opened Endian
  import opened Header
  import opened PduCrc
  import opened Sums
  import Checksum
  import Crc
  import Eof
  import FileData
  import Metadata
  import Tlvs

  // ---------------------------------------------------------------------------
  // Sending
  // ---------------------------------------------------------------------------

  /** The header with the data field length of a payload and its CRC, cast to 16 bits. */
  function Sized(h: PduHeader, payload: octets): PduHeader {
    h.(dataFieldLength := (|payload| + CRC_LEN) % 0x1_0000)
  }

  predicate Emittable(h: PduHeader, payload: octets) {
    Serializable(h) && h.crcFlag.CrcPresent? && |payload| + CRC_LEN <= 0xFFFF
  }

  function Unsealed(h: PduHeader, payload: octets): octets
    requires Serializable(h)
  {
    EncodeHeader(Sized(h, payload)) + payload
  }

  /** A PDU as it goes on the link. */
  function Frame(h: PduHeader, payload: octets): octets
    requires Emittable(h, payload)
  {
    WithCrc(Unsealed(h, payload))
  }

  lemma UnsealedHeader(h: PduHeader, payload: octets)
    requires Serializable(h)
    ensures DecodeHeader(Unsealed(h, payload)) == Decoded(OnTheWire(Sized(h, payload)), HeaderSize(h))
  {
    DecodeOfEncode(Sized(h, payload), payload);
  }

  lemma AwaitsMeans(s: octets, h: PduHeader, n: nat)
    requires DecodeHeader(s) == Decoded(h, n)
    ensures AwaitsCrc(s) <==> h.crcFlag.CrcPresent? && n + h.dataFieldLength == |s| + CRC_LEN
  {
  }

  lemma SizedFields(h: PduHeader, payload: octets)
    requires Serializable(h)
    ensures var w := OnTheWire(Sized(h, payload));
            && w.crcFlag == h.crcFlag
            && (w.dataFieldLength == |payload| + CRC_LEN <==> |payload| + CRC_LEN <= 0xFFFF)
    ensures |Unsealed(h, payload)| == HeaderSize(h) + |payload|
  {
  }

  lemma UnsealedAwaits(h: PduHeader, payload: octets)
    requires Serializable(h)
    ensures AwaitsCrc(Unsealed(h, payload)) <==> Emittable(h, payload)
  {
    UnsealedHeader(h, payload);
    SizedFields(h, payload);
    AwaitsMeans(Unsealed(h, payload), OnTheWire(Sized(h, payload)), HeaderSize(h));
  }

  /** The header and payload of emit_pdu. */
  method WriteUnsealed(h: PduHeader, payload: octets, out: array<octet>) returns (ok: bool)
    modifies out
    ensures ok <==> Serializable(h) && HeaderSize(h) + |payload| <= out.Length
    ensures ok ==> out[..] == Splice(old(out[..]), 0, Unsealed(h, payload))
  {
    ghost var before := out[..];
    var hlen := HeaderSize(h);
    var n := HeaderSerialize(Sized(h, payload), out, 0, out.Length);
    if n == 0 || out.Length < hlen + |payload| {
      return false;
    }
    CopyAppend(out, 0, hlen, payload, before, EncodeHeader(Sized(h, payload)));
    return true;
  }

  /** emit_pdu: everything it needs is checked by the functions it calls, so it produces
      a frame exactly when there is one and it fits. */
  method EmitPdu(h: PduHeader, payload: octets, out: array<octet>) returns (total: nat)
    modifies out
    ensures total == if Emittable(h, payload) && |Frame(h, payload)| <= out.Length then |Frame(h, payload)| else 0
    ensures total > 0 ==> out[..] == Splice(old(out[..]), 0, Frame(h, payload))
  {
    ghost var before := out[..];
    var ok := WriteUnsealed(h, payload, out);
    if !ok {
      return 0;
    }
    ghost var unsealed := Unsealed(h, payload);
    var pduLen := HeaderSize(h) + |payload|;
    SplicedFront(before, unsealed);
    assert out[0..pduLen] == out[..][..pduLen];
    UnsealedAwaits(h, payload);
    total := CrcAppend(out, 0, pduLen, out.Length);
    if total > 0 {
      SpliceFront(before, unsealed, Frame(h, payload));
    }
  }

  lemma SplicedFront(s: octets, a: octets)
    requires |a| <= |s|
    ensures Splice(s, 0, a)[..|a|] == a
  {
  }

  lemma SpliceFront(s: octets, a: octets, b: octets)
    requires |a| <= |b| <= |s|
    ensures Splice(Splice(s, 0, a), 0, b) == Splice(s, 0, b)
  {
  }

  // ---------------------------------------------------------------------------
  // Receiving
  // ---------------------------------------------------------------------------

  /** The data field of a PDU without its CRC. */
  function Payload(s: octets): octets
    requires DecodeHeader(s).Decoded? && DescribedLength(s) <= |s|
  {
    s[DecodeHeader(s).consumed..][..PayloadSize(DecodeHeader(s).value)]
  }

  /** The file segment that a frame delivers, if its CRC and its payload are in order. */
  function Received(s: octets): Option<FileData.FileSegment> {
    if !Verified(s) then None
    else
      var h := DecodeHeader(s).value;
      match FileData.Decode(Payload(s), h.largeFileFlag, h.segmentMetadataFlag)
      case Malformed => None
      case Decoded(fd, _) => Some(fd)
  }

  function Piece(fd: FileData.FileSegment): Checksum.Segment {
    Checksum.Segment(fd.offset, fd.data)
  }

  lemma ReceivedFrom(s: octets, h: PduHeader, n: nat)
    requires Verified(s) && DecodeHeader(s) == Decoded(h, n)
    ensures n + PayloadSize(h) <= |s|
    ensures var r := FileData.Decode(s[n..][..PayloadSize(h)], h.largeFileFlag, h.segmentMetadataFlag);
            Received(s) == if r.Decoded? then Some(r.value) else None
  {
  }

  /** parse_and_verify, with a running checksum in place of its initial 0; a discarded
      frame leaves the checksum alone. */
  method ReceiveSegment(s: octets, checksum: uint32) returns (fd: Option<FileData.FileSegment>, sum: uint32)
    ensures fd == Received(s)
    ensures fd.None? ==> sum == checksum
    ensures fd.Some? ==> sum == (checksum + Checksum.Contribution(fd.value.offset, fd.value.data)) % 0x1_0000_0000
    ensures !Verified(s) ==> fd == None && sum == checksum
  {
    var ok := CrcVerify(s);
    if !ok {
      return None, checksum;
    }
    var hlen, h := HeaderDeserialize(s);
    ReceivedFrom(s, h, hlen);
    var payload := s[hlen..][..PayloadSize(h)];
    var n, segment := FileData.Deserialize(payload, h.largeFileFlag, h.segmentMetadataFlag);
    if n == 0 {
      return None, checksum;
    }
    var updated := Checksum.ChecksumUpdate(checksum, segment.offset, segment.data);
    return Some(segment), updated;
  }

  /** The EOF that a frame delivers, if it verifies and decodes. */
  function ReceivedEof(s: octets): Option<Eof.EofPdu> {
    if !Verified(s) then None
    else
      match Eof.Decode(Payload(s), DecodeHeader(s).value.largeFileFlag)
      case Malformed => None
      case Decoded(e, _) => Some(e)
  }

  /** A frame whose CRC does not check out delivers nothing of any kind. */
  lemma NothingUnverified(s: octets)
    requires !Verified(s)
    ensures Received(s) == None && ReceivedEof(s) == None && Dispatch(s) == Discarded
    ensures Delivery(s) == [] && EofDelivery(s) == []
  {
  }

  /** A good frame that was damaged in a detectable way therefore delivers nothing. */
  lemma NothingDamaged(s: octets, t: octets)
    requires Verified(s) && DamagedCopy(s, t)
    ensures Received(t) == None && Dispatch(t) == Discarded
  {
    DamagedDiscarded(s, t);
    NothingUnverified(t);
  }

  /** What a receiver of a whole stream of PDUs makes of one of them. */
  datatype Outcome = Discarded | SegmentOf(fd: FileData.FileSegment) | EndOfFile(eof: Eof.EofPdu) | OtherDirective

  function Dispatch(s: octets): Outcome {
    if !Verified(s) then Discarded
    else if DecodeHeader(s).value.pduType.FileDataPdu? then
      match Received(s)
      case None => Discarded
      case Some(fd) => SegmentOf(fd)
    else
      match ReceivedEof(s)
      case None => OtherDirective
      case Some(e) => EndOfFile(e)
  }

  /** Step 2 of the quick start in README.md: verify, decode the header, tell the PDU
      types apart, and tell an EOF from the other directives by its code. */
  method ReceivePdu(s: octets) returns (o: Outcome)
    ensures o == Dispatch(s)
  {
    var ok := CrcVerify(s);
    if !ok {
      return Discarded;
    }
    var hlen, h := HeaderDeserialize(s);
    var payload := s[hlen..][..PayloadSize(h)];
    if h.pduType.DirectivePdu? {
      if |payload| == 0 || payload[0] != Eof.DIRECTIVE_EOF {
        return OtherDirective;
      }
      var n, e := Eof.Deserialize(payload, h.largeFileFlag);
      return if n == 0 then OtherDirective else EndOfFile(e);
    }
    var n, fd := FileData.Deserialize(payload, h.largeFileFlag, h.segmentMetadataFlag);
    return if n == 0 then Discarded else SegmentOf(fd);
  }

  /** The piece of the file that a frame of the stream delivers, if any. */
  function Delivery(s: octets): seq<Checksum.Segment> {
    match Dispatch(s)
    case SegmentOf(fd) => [Piece(fd)]
    case _ => []
  }

  /** The EOF that it delivers, if any. */
  function EofDelivery(s: octets): seq<Eof.EofPdu> {
    match Dispatch(s)
    case EndOfFile(e) => [e]
    case _ => []
  }

  /** Frames are discarded for their CRC, or for a File Data payload too short to decode,
      and for nothing else. */
  lemma OnlyTheseDiscarded(s: octets)
    ensures Dispatch(s) == Discarded <==>
            || !Verified(s)
            || (DecodeHeader(s).value.pduType.FileDataPdu? && Received(s) == None)
    ensures Verified(s) && DecodeHeader(s).value.pduType.FileDataPdu? ==>
            (Received(s) == None <==>
              FileData.Decode(Payload(s), DecodeHeader(s).value.largeFileFlag,
                              DecodeHeader(s).value.segmentMetadataFlag) == Malformed)
  {
  }

  /** The pieces delivered by the frames, in the order of arrival. */
  function Deliveries(frames: seq<octets>): seq<Checksum.Segment> {
    Collect(Delivery, frames)
  }

  /** The EOFs delivered by the frames. */
  function Eofs(frames: seq<octets>): seq<Eof.EofPdu> {
    Collect(EofDelivery, frames)
  }

  /** The running checksum after the frames have been received one by one. */
  function FoldFrames(checksum: uint32, frames: seq<octets>): uint32
    decreases |frames|
  {
    if frames == [] then checksum
    else FoldFrames(Checksum.Fold(checksum, Delivery(frames[0])), frames[1..])
  }

  lemma {:induction false} FoldFramesIsFold(checksum: uint32, frames: seq<octets>)
    ensures FoldFrames(checksum, frames) == Checksum.Fold(checksum, Deliveries(frames))
    decreases |frames|
  {
    if frames != [] {
      FoldFramesIsFold(Checksum.Fold(checksum, Delivery(frames[0])), frames[1..]);
      Checksum.FoldSplit(checksum, Delivery(frames[0]), Deliveries(frames[1..]));
    }
  }

  // ---------------------------------------------------------------------------
  // One PDU
  // ---------------------------------------------------------------------------

  /** A frame verifies whatever padding follows it, and yields its header and exactly
      its payload: none of the CRC, none of the padding. */
  lemma FrameArrives(h: PduHeader, payload: octets, padding: octets)
    requires Emittable(h, payload)
    ensures var s := Frame(h, payload) + padding;
            && Verified(s)
            && DecodeHeader(s) == Decoded(OnTheWire(Sized(h, payload)), HeaderSize(h))
            && DescribedLength(s) == |Frame(h, payload)|
            && Payload(s) == payload
  {
    var unsealed := Unsealed(h, payload);
    UnsealedHeader(h, payload);
    UnsealedAwaits(h, payload);
    AppendedVerifies(unsealed, padding);
    var crc := BigEndian(Crc.Compute(unsealed), CRC_LEN);
    BehindFront(EncodeHeader(Sized(h, payload)), payload, crc, padding);
  }

  lemma BehindFront(a: octets, b: octets, c: octets, d: octets)
    ensures (a + b + c + d)[|a|..][..|b|] == b
  {
  }

  /** The octets that a PDU spends on its CRC. */
  function CrcLength(h: PduHeader): nat {
    if h.crcFlag.CrcPresent? then CRC_LEN else 0
  }

  predicate Transmittable(h: PduHeader, payload: octets) {
    Serializable(h) && |payload| + CrcLength(h) <= 0xFFFF
  }

  /** The header with the length of its data field. */
  function Measured(h: PduHeader, payload: octets): PduHeader
    requires Transmittable(h, payload)
  {
    h.(dataFieldLength := |payload| + CrcLength(h))
  }

  /** A PDU as it goes on the link: sealed, or header and payload alone. */
  function Pdu(h: PduHeader, payload: octets): octets
    requires Transmittable(h, payload)
  {
    if h.crcFlag.CrcPresent? then Frame(h, payload) else EncodeHeader(Measured(h, payload)) + payload
  }

  /** A PDU can be transmitted exactly when its header can be written and its data field,
      with the CRC if there is one, is no longer than 65535 octets; emit_pdu insists on
      the CRC. */
  lemma TransmittableMeans(h: PduHeader, payload: octets)
    ensures Transmittable(h, payload) <==>
            && h.version == 1 && 1 <= h.entityIdLength <= 8 && 1 <= h.transactionSeqLength <= 8
            && |payload| + (if h.crcFlag.CrcPresent? then 2 else 0) <= 65535
    ensures Emittable(h, payload) <==> Transmittable(h, payload) && h.crcFlag.CrcPresent?
  {
  }

  lemma PlainMeans(s: octets, h: PduHeader, n: nat)
    requires DecodeHeader(s) == Decoded(h, n) && h.crcFlag.CrcAbsent? && n + h.dataFieldLength <= |s|
    ensures Verified(s) && DescribedLength(s) == n + h.dataFieldLength
    ensures Payload(s) == s[n..][..h.dataFieldLength]
  {
  }

  /** Without the CRC flag the whole data field is the payload. */
  lemma PlainArrives(h: PduHeader, payload: octets, padding: octets)
    requires Serializable(h) && h.crcFlag.CrcAbsent? && |payload| <= 0xFFFF
    ensures var s := Pdu(h, payload) + padding;
            && Verified(s)
            && DecodeHeader(s) == Decoded(OnTheWire(Measured(h, payload)), HeaderSize(h))
            && DescribedLength(s) == |Pdu(h, payload)|
            && Payload(s) == payload
  {
    var m := Measured(h, payload);
    var s := Pdu(h, payload) + padding;
    Associate(EncodeHeader(m), payload, padding);
    DecodeOfEncode(m, payload + padding);
    PlainMeans(s, OnTheWire(m), HeaderSize(h));
    BehindFront(EncodeHeader(m), payload, padding, []);
    assert EncodeHeader(m) + payload + padding + [] == s;
  }

  /** Either way the PDU verifies whatever padding follows it, and yields its header and
      exactly its payload. */
  lemma PduArrives(h: PduHeader, payload: octets, padding: octets)
    requires Transmittable(h, payload)
    ensures var s := Pdu(h, payload) + padding;
            && Verified(s)
            && DecodeHeader(s) == Decoded(OnTheWire(Measured(h, payload)), HeaderSize(h))
            && DescribedLength(s) == |Pdu(h, payload)|
            && Payload(s) == payload
  {
    if h.crcFlag.CrcPresent? {
      FrameArrives(h, payload, padding);
      assert Measured(h, payload) == Sized(h, payload);
    } else {
      PlainArrives(h, payload, padding);
    }
  }

  /** A file segment with the header it is sent under and whatever the link appends. */
  datatype Sending = Sending(header: PduHeader, segment: FileData.FileSegment, padding: octets)

  predicate Sendable(o: Sending) {
    && o.header.pduType.FileDataPdu?
    && FileData.Consistent(o.segment, o.header.segmentMetadataFlag)
    && Transmittable(o.header, SegmentPayload(o))
  }

  function SegmentPayload(o: Sending): octets {
    FileData.Encode(o.segment, o.header.largeFileFlag, o.header.segmentMetadataFlag)
  }

  function OnLink(o: Sending): octets
    requires Sendable(o)
  {
    Pdu(o.header, SegmentPayload(o)) + o.padding
  }

  /** A sent segment is received as it is on the wire: the same data and metadata, the
      offset in the chosen width. */
  lemma SegmentArrives(o: Sending)
    requires Sendable(o)
    ensures Verified(OnLink(o)) && DecodeHeader(OnLink(o)).value.pduType.FileDataPdu?
    ensures Received(OnLink(o))
         == Some(FileData.OnTheWire(o.segment, o.header.largeFileFlag, o.header.segmentMetadataFlag))
  {
    PduArrives(o.header, SegmentPayload(o), o.padding);
    FileData.DecodeOfEncode(o.segment, o.header.largeFileFlag, o.header.segmentMetadataFlag);
  }

  // ---------------------------------------------------------------------------
  // A whole file
  // ---------------------------------------------------------------------------

  /** Frames that take no part in the transfer of the file: those that are discarded and
      directives other than EOF. */
  predicate Bystanders(frames: seq<octets>) {
    forall i :: 0 <= i < |frames| ==> Dispatch(frames[i]).Discarded? || Dispatch(frames[i]).OtherDirective?
  }

  lemma {:induction false} NothingDelivered(frames: seq<octets>)
    requires Bystanders(frames)
    ensures Deliveries(frames) == [] && Eofs(frames) == []
  {
    if frames != [] {
      NothingDelivered(frames[1..]);
      assert Delivery(frames[0]) == [] && EofDelivery(frames[0]) == [];
    }
  }

  predicate AllSendable(sent: seq<Sending>) {
    forall i :: 0 <= i < |sent| ==> Sendable(sent[i])
  }

  function Frames(sent: seq<Sending>): (frames: seq<octets>)
    requires AllSendable(sent)
    ensures |frames| == |sent|
  {
    if sent == [] then [] else [OnLink(sent[0])] + Frames(sent[1..])
  }

  lemma {:induction false} FrameAt(sent: seq<Sending>, i: nat)
    requires AllSendable(sent) && i < |sent|
    ensures Frames(sent)[i] == OnLink(sent[i])
  {
    if i > 0 {
      FrameAt(sent[1..], i - 1);
    }
  }

  function Pieces(sent: seq<Sending>): (pieces: seq<Checksum.Segment>)
    ensures |pieces| == |sent|
    ensures forall i :: 0 <= i < |sent| ==> pieces[i] == Piece(sent[i].segment)
  {
    if sent == [] then [] else [Piece(sent[0].segment)] + Pieces(sent[1..])
  }

  /** Every offset fits the field that carries it. */
  predicate OffsetsFit(sent: seq<Sending>) {
    forall i :: 0 <= i < |sent| ==> sent[i].segment.offset < Pow256(FileSizeOctets(sent[i].header.largeFileFlag))
  }

  lemma PieceArrives(o: Sending)
    requires Sendable(o) && o.segment.offset < Pow256(FileSizeOctets(o.header.largeFileFlag))
    ensures Delivery(OnLink(o)) == [Piece(o.segment)] && EofDelivery(OnLink(o)) == []
  {
    SegmentArrives(o);
    ModUnique(o.segment.offset, Pow256(FileSizeOctets(o.header.largeFileFlag)), 0, o.segment.offset);
  }

  lemma {:induction false} AllDelivered(sent: seq<Sending>)
    requires AllSendable(sent) && OffsetsFit(sent)
    ensures Deliveries(Frames(sent)) == Pieces(sent) && Eofs(Frames(sent)) == []
  {
    if sent != [] {
      PieceArrives(sent[0]);
      AllDelivered(sent[1..]);
      assert Frames(sent)[1..] == Frames(sent[1..]);
    }
  }

  lemma {:induction false} OffsetsInFile(file: octets, position: nat, segments: seq<Checksum.Segment>, i: nat)
    requires Checksum.Tiles(file, position, segments) && i < |segments|
    ensures segments[i].offset <= position + |file|
    decreases i
  {
    if i > 0 {
      var n := |segments[0].data|;
      OffsetsInFile(file[n..], position + n, segments[1..], i - 1);
    }
  }

  /** The segments of `sent` tile `file`, whose size fits the field that carries it. */
  ghost predicate Covers(sent: seq<Sending>, file: octets, large: LargeFileFlag) {
    && |file| < Pow256(FileSizeOctets(large))
    && AllSendable(sent)
    && (forall i :: 0 <= i < |sent| ==> sent[i].header.largeFileFlag == large)
    && Checksum.Tiles(file, 0, Pieces(sent))
  }

  lemma CoveredOffsets(sent: seq<Sending>, file: octets, large: LargeFileFlag)
    requires Covers(sent, file, large)
    ensures OffsetsFit(sent)
  {
    forall i | 0 <= i < |sent|
      ensures sent[i].segment.offset < Pow256(FileSizeOctets(sent[i].header.largeFileFlag))
    {
      OffsetsInFile(file, 0, Pieces(sent), i);
      assert Pieces(sent)[i].offset == sent[i].segment.offset;
    }
  }

  /** Each segment of the file arrives with its own offset, octets and metadata. */
  lemma EverySegmentArrives(sent: seq<Sending>, file: octets, large: LargeFileFlag, i: nat)
    requires Covers(sent, file, large) && i < |sent|
    ensures Verified(Frames(sent)[i])
    ensures Received(Frames(sent)[i]).Some?
    ensures var fd, o := Received(Frames(sent)[i]).value, sent[i];
            && fd.offset == o.segment.offset && fd.data == o.segment.data && fd.metadata == o.segment.metadata
            && fd == FileData.OnTheWire(o.segment, large, o.header.segmentMetadataFlag)
  {
    CoveredOffsets(sent, file, large);
    FrameAt(sent, i);
    SegmentArrives(sent[i]);
    ModUnique(sent[i].segment.offset, Pow256(FileSizeOctets(large)), 0, sent[i].segment.offset);
  }

  /** Whatever follows the frames on the link, in whatever order they arrive and whatever
      bystanders arrive among them, the pieces delivered are those that were sent, and the
      EOFs are those of the frames in `ends`. */
  lemma PiecesArrive(sent: seq<Sending>, ends: seq<octets>, others: seq<octets>, arrived: seq<octets>)
    requires AllSendable(sent) && OffsetsFit(sent) && Bystanders(others)
    requires forall i :: 0 <= i < |ends| ==> Dispatch(ends[i]).EndOfFile?
    requires multiset(arrived) == multiset(Frames(sent) + (ends + others))
    ensures multiset(Deliveries(arrived)) == multiset(Pieces(sent))
    ensures multiset(Eofs(arrived)) == multiset(Eofs(ends))
  {
    var frames := Frames(sent);
    CollectPermuted(Delivery, arrived, frames + (ends + others));
    CollectSplit(Delivery, frames, ends + others);
    CollectSplit(Delivery, ends, others);
    CollectPermuted(EofDelivery, arrived, frames + (ends + others));
    CollectSplit(EofDelivery, frames, ends + others);
    CollectSplit(EofDelivery, ends, others);
    AllDelivered(sent);
    NothingDelivered(others);
    EndsDeliverNothing(ends);
    assert Pieces(sent) + ([] + []) == Pieces(sent) && [] + (Eofs(ends) + []) == Eofs(ends);
  }

  lemma {:induction false} EndsDeliverNothing(ends: seq<octets>)
    requires forall i :: 0 <= i < |ends| ==> Dispatch(ends[i]).EndOfFile?
    ensures Deliveries(ends) == []
  {
    if ends != [] {
      EndsDeliverNothing(ends[1..]);
      assert Delivery(ends[0]) == [];
    }
  }

  /** So however the file is split, the receiver ends with the checksum of the file. */
  lemma FileArrives(file: octets, large: LargeFileFlag, sent: seq<Sending>,
                    ends: seq<octets>, others: seq<octets>, arrived: seq<octets>)
    requires Covers(sent, file, large) && Bystanders(others)
    requires forall i :: 0 <= i < |ends| ==> Dispatch(ends[i]).EndOfFile?
    requires multiset(arrived) == multiset(Frames(sent) + (ends + others))
    ensures FoldFrames(0, arrived) == Checksum.Compute(file)
  {
    CoveredOffsets(sent, file, large);
    PiecesArrive(sent, ends, others, arrived);
    FoldFramesIsFold(0, arrived);
    Checksum.AnySplitAnyOrder(file, Pieces(sent), Deliveries(arrived));
  }

  /** Corrupted copies of good frames are bystanders. */
  lemma CorruptedCopies(good: seq<octets>, damaged: seq<octets>)
    requires forall i :: 0 <= i < |good| ==> Verified(good[i])
    requires forall k :: 0 <= k < |damaged| ==> exists i :: 0 <= i < |good| && DamagedCopy(good[i], damaged[k])
    ensures Bystanders(damaged)
  {
    forall k | 0 <= k < |damaged|
      ensures Dispatch(damaged[k]).Discarded?
    {
      var i :| 0 <= i < |good| && DamagedCopy(good[i], damaged[k]);
      DamagedDiscarded(good[i], damaged[k]);
    }
  }

  // ---------------------------------------------------------------------------
  // The directives
  // ---------------------------------------------------------------------------

  /** A frame with this header and payload comes out of the stream as a directive. */
  lemma DirectiveOutcome(s: octets, h: PduHeader, n: nat)
    requires Verified(s) && DecodeHeader(s) == Decoded(h, n) && h.pduType.DirectivePdu?
    ensures Dispatch(s) == match Eof.Decode(Payload(s), h.largeFileFlag)
                           case Malformed => OtherDirective
                           case Decoded(e, _) => EndOfFile(e)
  {
  }

  /** Any directive whose payload does not start with the EOF code is a bystander. */
  lemma OtherDirectiveArrives(h: PduHeader, payload: octets, padding: octets)
    requires Transmittable(h, payload) && h.pduType.DirectivePdu?
    requires payload == [] || payload[0] != Eof.DIRECTIVE_EOF
    ensures Dispatch(Pdu(h, payload) + padding) == OtherDirective
  {
    PduArrives(h, payload, padding);
    DirectiveOutcome(Pdu(h, payload) + padding, OnTheWire(Measured(h, payload)), HeaderSize(h));
  }

  /** A Metadata PDU in the stream is a bystander, and its payload decodes to what was sent. */
  lemma MetadataArrives(md: Metadata.MetadataPdu, h: PduHeader, padding: octets)
    requires Transmittable(h, Metadata.Encode(md, h.largeFileFlag)) && h.pduType.DirectivePdu?
    ensures var s := Pdu(h, Metadata.Encode(md, h.largeFileFlag)) + padding;
            && Dispatch(s) == OtherDirective
            && Metadata.Decode(Payload(s), DecodeHeader(s).value.largeFileFlag)
               == Decoded(Metadata.OnTheWire(md, h.largeFileFlag), |Payload(s)|)
  {
    var payload := Metadata.Encode(md, h.largeFileFlag);
    assert payload[0] == Metadata.DIRECTIVE_METADATA;
    OtherDirectiveArrives(h, payload, padding);
    PduArrives(h, payload, padding);
    Metadata.DecodeOfEncode(md, h.largeFileFlag);
  }

  /** The EOF of a complete file. */
  function EofOf(file: octets): Eof.EofPdu {
    Eof.EofPdu(Eof.NO_ERROR, Checksum.Compute(file), |file| % 0x1_0000_0000_0000_0000, Tlvs.NO_ENTITY)
  }

  lemma EofUnreduced(file: octets, large: LargeFileFlag)
    requires |file| < Pow256(FileSizeOctets(large))
    ensures EofOf(file).fileSize == |file| && Eof.OnTheWire(EofOf(file), large) == EofOf(file)
  {
    Pow256Values();
    ModUnique(|file|, Pow256(FileSizeOctets(large)), 0, |file|);
  }

  function EofPayload(file: octets, large: LargeFileFlag): octets {
    Eof.Encode(EofOf(file), large)
  }

  /** The EOF arrives as it was sent, the size of the file included. */
  lemma EofArrives(file: octets, h: PduHeader, padding: octets)
    requires |file| < Pow256(FileSizeOctets(h.largeFileFlag)) && h.pduType.DirectivePdu?
    requires Transmittable(h, EofPayload(file, h.largeFileFlag))
    ensures Dispatch(Pdu(h, EofPayload(file, h.largeFileFlag)) + padding) == EndOfFile(EofOf(file))
    ensures EofOf(file).fileSize == |file| && EofOf(file).condition == 0 && EofOf(file).faultLocation.len == 0
  {
    var payload := EofPayload(file, h.largeFileFlag);
    PduArrives(h, payload, padding);
    DirectiveOutcome(Pdu(h, payload) + padding, OnTheWire(Measured(h, payload)), HeaderSize(h));
    Eof.DecodeOfEncode(EofOf(file), h.largeFileFlag);
    EofUnreduced(file, h.largeFileFlag);
  }

  lemma OnlyOne<T>(s: seq<T>, e: T)
    requires multiset(s) == multiset([e])
    ensures s == [e]
  {
    assert |s| == |multiset(s)| == 1;
    assert s[0] in multiset(s);
  }

  /** End to end: of all the PDUs that arrived, in any order, with bystanders among them,
      exactly one is an EOF, it is the one that was sent, and the checksum it carries is
      the one folded from the File Data PDUs. */
  lemma TransferComplete(file: octets, sent: seq<Sending>, h: PduHeader, padding: octets,
                         others: seq<octets>, arrived: seq<octets>)
    requires Covers(sent, file, h.largeFileFlag) && Bystanders(others)
    requires h.pduType.DirectivePdu? && Transmittable(h, EofPayload(file, h.largeFileFlag))
    requires var end := Pdu(h, EofPayload(file, h.largeFileFlag)) + padding;
             multiset(arrived) == multiset(Frames(sent) + ([end] + others))
    ensures Eofs(arrived) == [EofOf(file)]
    ensures EofOf(file).checksum == FoldFrames(0, arrived) && EofOf(file).fileSize == |file|
  {
    var end := Pdu(h, EofPayload(file, h.largeFileFlag)) + padding;
    EofArrives(file, h, padding);
    CoveredOffsets(sent, file, h.largeFileFlag);
    PiecesArrive(sent, [end], others, arrived);
    OneEof(end, EofOf(file));
    OnlyOne(Eofs(arrived), EofOf(file));
    FileArrives(file, h.largeFileFlag, sent, [end], others, arrived);
  }

  lemma OneEof(end: octets, e: Eof.EofPdu)
    requires Dispatch(end) == EndOfFile(e)
    ensures Eofs([end]) == [e]
  {
    CollectOne(EofDelivery, end);
    assert EofDelivery(end) == [e];
  }
}
