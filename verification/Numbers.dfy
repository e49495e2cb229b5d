/** The payload formats in plain numbers: what can be encoded, to which octets, what is
    accepted and what comes out, stated without the constants and helper functions that
    the codecs share between their two directions. */
module Numbers {
  import opened Octets
  import opened Endian
  import opened Header
  import opened Tlvs
  import Eof
  import FileData
  import Filestore
  import Finished
  import Metadata
  import Nak

  // ---------------------------------------------------------------------------
  // LV, TLV and Entity ID
  // ---------------------------------------------------------------------------

  lemma LvAccepted(s: octets)
    ensures DecodeLv(s).Decoded? <==> |s| >= 1 && |s| - 1 >= s[0]
    ensures DecodeLv(s).Decoded? ==> DecodeLv(s) == Decoded(s[1..1 + (s[0] as int)], 1 + (s[0] as int))
  {
  }

  lemma TlvAccepted(s: octets)
    ensures DecodeTlv(s).Decoded? <==> |s| >= 2 && |s| - 2 >= s[1]
    ensures DecodeTlv(s).Decoded? ==>
            var end := 2 + (s[1] as int);
            DecodeTlv(s) == Decoded(TypeLengthValue(s[0], s[2..end]), end)
  {
  }

  /** An Entity ID has type 6 and 1 to 8 octets. */
  lemma EntityAccepted(s: octets)
    ensures DecodeEntity(s).Decoded? <==> |s| >= 2 && s[0] == 6 && 1 <= s[1] <= 8 && |s| >= 2 + s[1]
    ensures DecodeEntity(s).Decoded? ==>
            DecodeEntity(s).consumed == 2 + s[1]
            && DecodeEntity(s).value.len == s[1] && DecodeEntity(s).value.id == FromBigEndian(s[2..2 + s[1]])
  {
  }

  lemma EntityWritten(e: EntityId)
    requires 1 <= e.len <= 8
    ensures EncodeTlv(EntityTlv(e)) == [6, e.len] + BigEndian(e.id, e.len)
  {
  }

  // ---------------------------------------------------------------------------
  // Filestore
  // ---------------------------------------------------------------------------

  /** A second name is carried by Rename, Append and Replace alone: actions 2, 3 and 4. */
  function TwoNames(action: uint8, first: shortOctets, second: shortOctets): octets {
    if 2 <= action <= 4 then [|first|] + first + [|second|] + second else [|first|] + first
  }

  lemma NamesWritten(action: uint8, first: shortOctets, second: shortOctets)
    ensures Filestore.EncodeNames(first, second, Filestore.HasSecond(action)) == TwoNames(action, first, second)
  {
  }

  lemma RequestValueWritten(r: Filestore.Request)
    ensures Filestore.RequestValue(r) == [16 * (r.action % 16)] + TwoNames(r.action, r.first, r.second)
  {
    NamesWritten(r.action, r.first, r.second);
  }

  /** Actions 0 to 8 are defined, and the value may have 255 octets. */
  lemma RequestWritable(r: Filestore.Request)
    ensures Filestore.RequestEncodable(r) <==> r.action <= 8 && 1 + |TwoNames(r.action, r.first, r.second)| <= 255
  {
    RequestValueWritten(r);
  }

  lemma RequestWritten(r: Filestore.Request)
    requires Filestore.RequestEncodable(r)
    ensures var names := TwoNames(r.action, r.first, r.second);
            Filestore.EncodeRequest(r) == [0, 1 + |names|] + ([16 * r.action] + names)
  {
    RequestWritable(r);
    RequestValueWritten(r);
  }

  lemma ResponseValueWritten(r: Filestore.Response)
    ensures Filestore.ResponseValue(r)
         == [16 * (r.action % 16) + r.status % 16] + TwoNames(r.action, r.first, r.second) + ([|r.message|] + r.message)
  {
    NamesWritten(r.action, r.first, r.second);
  }

  lemma ResponseWritable(r: Filestore.Response)
    ensures Filestore.ResponseEncodable(r) <==>
            r.action <= 8 && 1 + |TwoNames(r.action, r.first, r.second)| + 1 + |r.message| <= 255
  {
    ResponseValueWritten(r);
  }

  lemma ResponseWritten(r: Filestore.Response)
    requires Filestore.ResponseEncodable(r)
    ensures var names := TwoNames(r.action, r.first, r.second);
            Filestore.EncodeResponse(r)
            == [1, 1 + |names| + 1 + |r.message|]
               + ([16 * r.action + r.status % 16] + names + ([|r.message|] + r.message))
  {
    ResponseWritable(r);
    ResponseValueWritten(r);
  }

  /** The names that come back. */
  lemma NamesReturned(r: Filestore.Request, p: Filestore.Response)
    ensures Filestore.RequestOnTheWire(r).first == r.first && Filestore.ResponseOnTheWire(p).first == p.first
    ensures Filestore.RequestOnTheWire(r).second == if 2 <= r.action <= 4 then r.second else []
    ensures Filestore.ResponseOnTheWire(p).second == if 2 <= p.action <= 4 then p.second else []
    ensures Filestore.ResponseOnTheWire(p).status == p.status % 16
  {
  }

  // ---------------------------------------------------------------------------
  // File Data
  // ---------------------------------------------------------------------------

  /** Without the flag there must be no metadata, with it there may be 63 octets. */
  lemma FileDataWritable(fd: FileData.FileSegment, flag: SegmentMetadataFlag)
    ensures FileData.Consistent(fd, flag) <==> if flag.MetadataPresent? then |fd.metadata| <= 63 else fd.metadata == []
  {
  }

  /** Accepted are all payloads long enough for the metadata they announce and an offset;
      the rest is file data. */
  lemma FileDataAccepted(s: octets, large: LargeFileFlag, flag: SegmentMetadataFlag)
    ensures var w := if large.LargeFile? then 8 else 4;
            FileData.Decode(s, large, flag).Decoded? <==>
            if flag.MetadataPresent? then |s| >= 1 && |s| >= 1 + s[0] % 64 + w else |s| >= w
  {
  }

  /** The fields of an accepted payload, read off its octets. */
  lemma FileDataValue(s: octets, large: LargeFileFlag, flag: SegmentMetadataFlag, m: nat)
    requires FileData.Decode(s, large, flag).Decoded?
    requires m == if flag.MetadataPresent? then 1 + s[0] % 64 else 0
    ensures var fd, w := FileData.Decode(s, large, flag).value, if large.LargeFile? then 8 else 4;
            && m + w <= |s| && fd.offset == FromBigEndian(s[m..m + w]) && fd.data == s[m + w..]
            && fd.metadata == (if flag.MetadataPresent? then s[1..m] else [])
            && fd.continuation == (if flag.MetadataPresent? then s[0] / 64 else 0)
  {
    var w := FileSizeOctets(large);
    TailSlice(s, m, 0, w);
    assert s[m..][0..w] == s[m..][..w];
    TailTail(s, m, w);
  }

  /** No offset is reduced under the Large File flag. */
  lemma OffsetReturned(fd: FileData.FileSegment, flag: SegmentMetadataFlag)
    ensures FileData.OnTheWire(fd, LargeFile, flag).offset == fd.offset
    ensures FileData.OnTheWire(fd, SmallFile, flag).offset == fd.offset % 0x1_0000_0000
  {
    Widths(fd.offset);
  }

  // ---------------------------------------------------------------------------
  // EOF
  // ---------------------------------------------------------------------------

  /** A Fault Location, 1 to 8 octets long, is required unless the condition is 0. */
  lemma EofWritten(e: Eof.EofPdu, large: LargeFileFlag)
    ensures Eof.Encodable(e) <==> e.condition == 0 || 1 <= e.faultLocation.len <= 8
    ensures Eof.Encodable(e) ==>
            Eof.Encode(e, large)
            == [4, 16 * (e.condition % 16)] + BigEndian(e.checksum, 4)
               + BigEndian(e.fileSize, if large.LargeFile? then 8 else 4)
               + if e.condition == 0 then []
                 else [6, e.faultLocation.len] + BigEndian(e.faultLocation.id, e.faultLocation.len)
  {
  }

  /** Accepted: 10 or 14 octets that start with 4, and then nothing or an Entity ID. */
  lemma EofAccepted(s: octets, large: LargeFileFlag, size: nat)
    requires size == if large.LargeFile? then 14 else 10
    ensures Eof.Decode(s, large).Decoded? <==>
            && |s| >= size && s[0] == 4
            && (|s| == size || (|s| >= size + 2 && s[size] == 6 && 1 <= s[size + 1] <= 8
                                && |s| >= size + 2 + s[size + 1]))
  {
    if |s| >= size {
      EntityAccepted(s[size..]);
    }
  }

  /** What is decoded of the part behind the fixed one. */
  lemma EofFault(s: octets, large: LargeFileFlag, size: nat)
    requires Eof.Decode(s, large).Decoded? && size == if large.LargeFile? then 14 else 10
    ensures |s| == size ==>
            Eof.Decode(s, large).consumed == size && Eof.Decode(s, large).value.faultLocation == EntityId(0, 0)
    ensures |s| > size ==>
            && |s| >= size + 2 + s[size + 1] && Eof.Decode(s, large).consumed == size + 2 + s[size + 1]
            && Eof.Decode(s, large).value.faultLocation.len == s[size + 1]
            && Eof.Decode(s, large).value.faultLocation.id == FromBigEndian(s[size + 2..size + 2 + s[size + 1]])
  {
    if |s| > size {
      EntityAccepted(s[size..]);
      TailSlice(s, size, 2, 2 + s[size + 1]);
    }
  }

  lemma EofReturned(e: Eof.EofPdu)
    ensures Eof.OnTheWire(e, LargeFile).fileSize == e.fileSize
    ensures Eof.OnTheWire(e, SmallFile).fileSize == e.fileSize % 0x1_0000_0000
    ensures Eof.OnTheWire(e, LargeFile).faultLocation.len == if e.condition == 0 then 0 else e.faultLocation.len
  {
    Widths(e.fileSize);
  }

  // ---------------------------------------------------------------------------
  // Finished
  // ---------------------------------------------------------------------------

  /** A Fault Location, 1 to 8 octets long, is required unless the condition is 0, "No
      error", or 11, "Unsupported checksum type". */
  lemma FinishedWritten(fin: Finished.FinishedPdu)
    ensures var required, fault := fin.condition != 0 && fin.condition != 11, fin.faultLocation;
            && (Finished.Encodable(fin) <==> required ==> 1 <= fault.len <= 8)
            && (Finished.Encodable(fin) ==>
                 Finished.Encode(fin)
                 == [5, 16 * (fin.condition % 16) + 4 * (fin.deliveryCode % 2) + fin.fileStatus % 4] + fin.responses
                    + if required then [6, fault.len] + BigEndian(fault.id, fault.len) else [])
  {
    if Finished.FaultRequired(fin.condition) && Finished.Encodable(fin) {
      ChainOfOne(EntityTlv(fin.faultLocation));
    }
  }

  /** The two kinds of TLV that the grammar of the Finished PDU knows, and when the strict
      reading asks for the second. */
  lemma FinishedKinds(t: Tlv, condition: uint8, es: seq<Tlv>)
    ensures Finished.IsResponse(t) <==> t.kind == 1
    ensures IsEntityTlv(t) <==> t.kind == 6 && 1 <= |t.value| <= 8
    ensures Finished.FaultAsRequired(condition, es) <==> |es| == if condition == 0 || condition == 11 then 0 else 1
  {
  }

  // ---------------------------------------------------------------------------
  // Metadata
  // ---------------------------------------------------------------------------

  /** Accepted: the code 7, flags, a file size of 4 or 8 octets, and two LVs. */
  lemma MetadataAccepted(s: octets, large: LargeFileFlag, a: nat)
    requires a == if large.LargeFile? then 10 else 6
    ensures Metadata.Decode(s, large).Decoded? <==>
            && |s| >= a && s[0] == 7
            && |s| >= a + 1 && |s| >= a + 1 + s[a]
            && |s| >= a + 1 + s[a] + 1 && |s| >= a + 1 + s[a] + 1 + s[a + 1 + s[a]]
  {
    if |s| >= a {
      LvAccepted(s[a..]);
      if |s| >= a + 1 && |s| >= a + 1 + s[a] {
        LvAccepted(s[a..][1 + (s[a] as int)..]);
      }
    }
  }

  lemma NamesRead(md: Metadata.MetadataPdu, t: octets, b: nat, c: nat)
    requires 0 < |t| && b == 1 + t[0] as int && b < |t| && c == b + 1 + t[b] && c <= |t|
    ensures Metadata.DecodeNames(md, t)
         == Some(md.(source := t[1..b], destination := t[b + 1..c], options := t[c..][..(|t| - c) % 0x1_0000]))
  {
    LvAccepted(t);
    LvAccepted(t[b..]);
    TailSlice(t, b, 1, c - b);
  }

  /** The names and the options: whatever follows, its length modulo 65536. */
  lemma MetadataNames(s: octets, large: LargeFileFlag, t: octets, b: nat, c: nat)
    requires Metadata.Decode(s, large).Decoded? && t == if large.LargeFile? then s[10..] else s[6..]
    requires 0 < |t| && b == 1 + t[0] as int && b < |t| && c == b + 1 + t[b] && c <= |t|
    ensures var md := Metadata.Decode(s, large).value;
            && md.source == t[1..b] && md.destination == t[b + 1..c]
            && md.options == t[c..][..(|t| - c) % 0x1_0000] && Metadata.Decode(s, large).consumed == |s|
  {
    var fs := FileSizeOctets(large);
    NamesRead(Metadata.DecodeFlags(s[1], ReadId(s[2..2 + fs])), t, b, c);
  }

  lemma MetadataReturned(md: Metadata.MetadataPdu)
    ensures Metadata.OnTheWire(md, LargeFile).fileSize == md.fileSize
    ensures Metadata.OnTheWire(md, SmallFile).fileSize == md.fileSize % 0x1_0000_0000
  {
    Widths(md.fileSize);
  }

  // ---------------------------------------------------------------------------
  // NAK
  // ---------------------------------------------------------------------------

  /** 32 requests can be written, of 8 or 16 octets each. */
  lemma NakWritable(nak: Nak.NakPdu, large: LargeFileFlag)
    ensures Nak.Encodable(nak) <==> |nak.requests| <= 32
    ensures |Nak.Encode(nak, large)| == 1 + (1 + |nak.requests|) * if large.LargeFile? then 16 else 8
  {
  }

  /** Accepted: the code 8 and 1 to 33 pairs of 8 or 16 octets. */
  lemma NakAccepted(s: octets, large: LargeFileFlag)
    ensures Nak.Decode(s, large).Decoded? <==>
            && |s| > 0 && s[0] == 8
            && if large.LargeFile? then (|s| - 1) % 16 == 0 && 16 <= |s| - 1 <= 33 * 16
               else (|s| - 1) % 8 == 0 && 8 <= |s| - 1 <= 33 * 8
  {
    if large.LargeFile? {
    } else {
    }
  }

  lemma RequestReturned(r: Nak.SegmentRequest)
    ensures Nak.RequestOnTheWire(r, FileSizeOctets(LargeFile)) == r
    ensures Nak.RequestOnTheWire(r, FileSizeOctets(SmallFile))
         == Nak.SegmentRequest(r.startOffset % 0x1_0000_0000, r.endOffset % 0x1_0000_0000)
  {
    Widths(r.startOffset);
    Widths(r.endOffset);
  }

  /** Under the Large File flag a NAK returns as it was. */
  lemma {:induction false} RequestsReturned(rs: seq<Nak.SegmentRequest>)
    ensures Nak.RequestsOnTheWire(rs, FileSizeOctets(LargeFile)) == rs
  {
    if rs != [] {
      RequestsReturned(rs[..|rs| - 1]);
      RequestReturned(rs[|rs| - 1]);
    }
  }

  lemma NakReturned(nak: Nak.NakPdu)
    ensures Nak.OnTheWire(nak, LargeFile) == nak
  {
    RequestsReturned(nak.requests);
    RequestReturned(Nak.Scope(nak));
  }
}
