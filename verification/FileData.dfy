/** The File Data PDU payload (src/cfdp_pdu.c, section 5.3 of CCSDS 727.0-B-5). */
module FileData {
  import opened Octets
  import opened Endian
  import opened Header

  const METADATA_MAX_LEN: nat := 63

  datatype FileSegment = FileSegment(
    offset: uint64,
    data: octets,
    continuation: uint8,
    metadata: shortOctets)

  /** cfdp_segment_metadata_consistent */
  predicate Consistent(fd: FileSegment, flag: SegmentMetadataFlag) {
    if flag.MetadataAbsent? then fd.metadata == [] else |fd.metadata| <= METADATA_MAX_LEN
  }

  /** Continuation state, metadata length and metadata; nothing when the flag is clear. */
  function EncodeMetadata(fd: FileSegment, flag: SegmentMetadataFlag): octets {
    if flag.MetadataAbsent? then []
    else [64 * (fd.continuation % 4) + |fd.metadata| % 64] + fd.metadata
  }

  /** Offset and file data. */
  function EncodeBody(fd: FileSegment, large: LargeFileFlag): octets {
    BigEndian(fd.offset, FileSizeOctets(large)) + fd.data
  }

  function Encode(fd: FileSegment, large: LargeFileFlag, flag: SegmentMetadataFlag): octets {
    EncodeMetadata(fd, flag) + EncodeBody(fd, large)
  }

  /** cfdp_segment_metadata_write */
  method MetadataWrite(fd: FileSegment, buf: array<octet>, start: nat) returns (n: nat)
    requires start + |fd.metadata| + 1 <= buf.Length
    modifies buf
    ensures n == |fd.metadata| + 1
    ensures buf[..] == Splice(old(buf[..]), start, EncodeMetadata(fd, MetadataPresent))
  {
    ghost var before, done := buf[..], [64 * (fd.continuation % 4) + |fd.metadata| % 64];
    Store(buf, start, 64 * (fd.continuation % 4) + |fd.metadata| % 64);
    Copy(buf, start + 1, fd.metadata);
    done := Extend(before, start, done, fd.metadata);
    return |fd.metadata| + 1;
  }

  /** The metadata part of cfdp_file_data_serialize, written only under the flag. */
  method FrontWrite(fd: FileSegment, flag: SegmentMetadataFlag, buf: array<octet>, start: nat) returns (n: nat)
    requires start + |EncodeMetadata(fd, flag)| <= buf.Length
    modifies buf
    ensures n == |EncodeMetadata(fd, flag)|
    ensures buf[..] == Splice(old(buf[..]), start, EncodeMetadata(fd, flag))
  {
    if flag.MetadataPresent? {
      n := MetadataWrite(fd, buf, start);
    } else {
      SpliceNothing(buf[..], start);
      n := 0;
    }
  }

  /** The second half of cfdp_file_data_serialize. */
  method BodyWrite(fd: FileSegment, large: LargeFileFlag, buf: array<octet>, start: nat)
    requires start + |EncodeBody(fd, large)| <= buf.Length
    modifies buf
    ensures buf[..] == Splice(old(buf[..]), start, EncodeBody(fd, large))
  {
    ghost var before := buf[..];
    var offsetOctets := FileSizeOctets(large);
    WriteUint(buf, start, fd.offset, offsetOctets);
    Copy(buf, start + offsetOctets, fd.data);
    SpliceTwice(before, start, BigEndian(fd.offset, offsetOctets), fd.data);
  }

  /** The writes of cfdp_file_data_serialize. */
  method WriteAll(fd: FileSegment, large: LargeFileFlag, flag: SegmentMetadataFlag, buf: array<octet>, start: nat)
    requires start + |Encode(fd, large, flag)| <= buf.Length
    modifies buf
    ensures buf[..] == Splice(old(buf[..]), start, Encode(fd, large, flag))
  {
    ghost var before := buf[..];
    var pos := FrontWrite(fd, flag, buf, start);
    BodyWrite(fd, large, buf, start + pos);
    SpliceTwice(before, start, EncodeMetadata(fd, flag), EncodeBody(fd, large));
  }

  /** cfdp_file_data_serialize */
  method Serialize(fd: FileSegment, large: LargeFileFlag, flag: SegmentMetadataFlag,
                   buf: array<octet>, start: nat, cap: nat) returns (n: nat)
    requires start + cap <= buf.Length
    modifies buf
    ensures n == if Consistent(fd, flag) && |Encode(fd, large, flag)| <= cap then |Encode(fd, large, flag)| else 0
    ensures buf[..] == if n > 0 then Splice(old(buf[..]), start, Encode(fd, large, flag)) else old(buf[..])
  {
    if !Consistent(fd, flag) {
      return 0;
    }
    var metadataSize := if flag.MetadataPresent? then |fd.metadata| + 1 else 0;
    var size := metadataSize + FileSizeOctets(large) + |fd.data|;
    if cap < size {
      return 0;
    }
    WriteAll(fd, large, flag, buf, start);
    return size;
  }

  /** The metadata part: its length, or Malformed when the payload is too short. */
  function DecodeMetadata(s: octets, flag: SegmentMetadataFlag): (r: Decoding<FileSegment>)
    ensures r.Decoded? ==> r.consumed <= |s|
  {
    if flag.MetadataAbsent? then Decoded(FileSegment(0, [], 0, []), 0)
    else if |s| < 1 || |s| < s[0] % 64 + 1 then Malformed
    else Decoded(FileSegment(0, [], s[0] / 64 % 4, s[1..s[0] % 64 + 1]), s[0] % 64 + 1)
  }

  function Decode(s: octets, large: LargeFileFlag, flag: SegmentMetadataFlag): Decoding<FileSegment> {
    match DecodeMetadata(s, flag)
    case Malformed => Malformed
    case Decoded(fd, pos) =>
      var body := s[pos..];
      var k := FileSizeOctets(large);
      if |body| < k then Malformed
      else Decoded(fd.(offset := ReadId(body[..k]), data := body[k..]), |s|)
  }

  /** cfdp_segment_metadata_read */
  method MetadataRead(s: octets) returns (n: nat, continuation: uint8, metadata: shortOctets)
    ensures DecodeMetadata(s, MetadataPresent)
         == if n > 0 then Decoded(FileSegment(0, [], continuation, metadata), n) else Malformed
  {
    if |s| < 1 {
      return 0, 0, [];
    }
    continuation := s[0] / 64 % 4;
    var length := s[0] % 64;
    if |s| < length + 1 {
      return 0, continuation, [];
    }
    return length + 1, continuation, s[1..length + 1];
  }

  /** cfdp_file_data_deserialize */
  method Deserialize(s: octets, large: LargeFileFlag, flag: SegmentMetadataFlag) returns (n: nat, fd: FileSegment)
    ensures Decode(s, large, flag) == if n > 0 then Decoded(fd, n) else Malformed
  {
    fd := FileSegment(0, [], 0, []);
    var pos := 0;
    if flag.MetadataPresent? {
      var continuation, metadata;
      pos, continuation, metadata := MetadataRead(s);
      if pos == 0 {
        return 0, fd;
      }
      fd := fd.(continuation := continuation, metadata := metadata);
    }
    assert DecodeMetadata(s, flag) == Decoded(fd, pos);
    var offsetOctets := FileSizeOctets(large);
    if |s| < pos + offsetOctets {
      return 0, fd;
    }
    var offset := ReadUint(s[pos..], offsetOctets);
    assert s[pos..][offsetOctets..] == s[pos + offsetOctets..];
    pos := pos + offsetOctets;
    return |s|, fd.(offset := offset, data := s[pos..]);
  }

  // ---------------------------------------------------------------------------
  // A bijection between payloads and octet strings
  // ---------------------------------------------------------------------------

  /** What survives the wire: the offset in the chosen width, two continuation bits,
      and no continuation state when the flag is clear. */
  function OnTheWire(fd: FileSegment, large: LargeFileFlag, flag: SegmentMetadataFlag): FileSegment {
    fd.(offset := LowOctets(fd.offset, FileSizeOctets(large)),
        continuation := if flag.MetadataPresent? then fd.continuation % 4 else 0)
  }

  lemma MetadataRoundTrip(fd: FileSegment, flag: SegmentMetadataFlag, rest: octets)
    requires Consistent(fd, flag)
    ensures DecodeMetadata(EncodeMetadata(fd, flag) + rest, flag)
         == Decoded(FileSegment(0, [], if flag.MetadataPresent? then fd.continuation % 4 else 0, fd.metadata),
                    |EncodeMetadata(fd, flag)|)
  {
    if flag.MetadataPresent? {
      var s := EncodeMetadata(fd, flag) + rest;
      TwoFields(fd.continuation % 4, |fd.metadata|, s[0]);
      assert s[1..|fd.metadata| + 1] == fd.metadata;
    }
  }

  lemma TwoFields(c: nat, l: nat, o: nat)
    requires c < 4 && l < 64 && o == 64 * c + l
    ensures o / 64 % 4 == c && o % 64 == l
  {
  }

  /** Decoding what was encoded returns the segment as it is on the wire and uses
      every octet. */
  lemma DecodeOfEncode(fd: FileSegment, large: LargeFileFlag, flag: SegmentMetadataFlag)
    requires Consistent(fd, flag)
    ensures Decode(Encode(fd, large, flag), large, flag)
         == Decoded(OnTheWire(fd, large, flag), |Encode(fd, large, flag)|)
  {
    MetadataRoundTrip(fd, flag, EncodeBody(fd, large));
    Parts(EncodeMetadata(fd, flag), EncodeBody(fd, large), []);
    Parts(BigEndian(fd.offset, FileSizeOctets(large)), fd.data, []);
    ReadOfWrite(fd.offset, FileSizeOctets(large));
  }

  /** Every accepted payload is re-encoded to exactly its octets, all of which were used. */
  lemma EncodeOfDecode(s: octets, large: LargeFileFlag, flag: SegmentMetadataFlag)
    requires Decode(s, large, flag).Decoded?
    ensures var fd := Decode(s, large, flag).value;
            && Consistent(fd, flag) && OnTheWire(fd, large, flag) == fd
            && Encode(fd, large, flag) == s && Decode(s, large, flag).consumed == |s|
  {
    var fd, pos := Decode(s, large, flag).value, DecodeMetadata(s, flag).consumed;
    BodyRewritten(fd, large, s[pos..]);
    MetadataRewritten(s, flag);
    SameMetadata(fd, DecodeMetadata(s, flag).value, flag);
    assert s == s[..pos] + s[pos..];
  }

  lemma SameMetadata(a: FileSegment, b: FileSegment, flag: SegmentMetadataFlag)
    requires a.continuation == b.continuation && a.metadata == b.metadata
    ensures EncodeMetadata(a, flag) == EncodeMetadata(b, flag)
  {
  }

  lemma BodyRewritten(fd: FileSegment, large: LargeFileFlag, body: octets)
    requires |body| >= FileSizeOctets(large)
    requires fd.offset == ReadId(body[..FileSizeOctets(large)]) && fd.data == body[FileSizeOctets(large)..]
    ensures EncodeBody(fd, large) == body
    ensures LowOctets(fd.offset, FileSizeOctets(large)) == fd.offset
  {
    var k := FileSizeOctets(large);
    Rewritten(body[..k], k);
    ReadUnreduced(body[..k]);
    assert body == body[..k] + body[k..];
  }

  lemma MetadataRewritten(s: octets, flag: SegmentMetadataFlag)
    requires DecodeMetadata(s, flag).Decoded?
    ensures var fd := DecodeMetadata(s, flag).value;
            && Consistent(fd, flag) && EncodeMetadata(fd, flag) == s[..DecodeMetadata(s, flag).consumed]
  {
    if flag.MetadataPresent? {
      var l := s[0] % 64;
      assert 64 * (s[0] / 64 % 4) + l == s[0];
      assert s[..l + 1] == [s[0]] + s[1..l + 1];
    }
  }

  /** A payload is accepted exactly when it is the encoding of something. */
  lemma AcceptedLanguage(s: octets, large: LargeFileFlag, flag: SegmentMetadataFlag)
    ensures Decode(s, large, flag).Decoded? <==> exists fd :: Consistent(fd, flag) && Encode(fd, large, flag) == s
  {
    if Decode(s, large, flag).Decoded? {
      EncodeOfDecode(s, large, flag);
    }
    forall fd | Consistent(fd, flag) && Encode(fd, large, flag) == s
      ensures Decode(s, large, flag).Decoded?
    {
      DecodeOfEncode(fd, large, flag);
    }
  }
}
