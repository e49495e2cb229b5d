/** Bit fields as CCSDS 727.0-B-5 tabulates them: a position counted from the first bit
    on the wire, and a width. This is a second description of the formats, independent
    of how the code packs octets. */
module Layout {
  import opened Octets
  import opened Endian
  import opened Header
  import FileData
  import Eof
  import Finished
  import Metadata
  import Nak

  /** The number in the `width` bits from bit `first` on, most significant bit first. */
  function Field(s: octets, first: nat, width: nat): nat
    requires first + width <= 8 * |s|
  {
    if width == 0 then 0 else 2 * Field(s, first, width - 1) + Bit(WireBit(s, first + width - 1))
  }

  lemma Halved(n: nat, p: nat)
    requires p > 0
    ensures n / 2 / p == n / (2 * p)
  {
    var k, r := n / 2 / p, n / 2 % p;
    assert n / 2 == p * k + r;
    assert 2 * (p * k) == (2 * p) * k;
    ModUnique(n, 2 * p, k, 2 * r + n % 2);
  }

  lemma {:induction false} BitByDivision(n: nat, i: nat)
    ensures NumberBit(n, i) <==> n / Pow2(i) % 2 == 1
    decreases i
  {
    if i > 0 {
      BitByDivision(n / 2, i - 1);
      Halved(n, Pow2(i - 1));
    }
  }

  lemma AppendBit(m: nat, p: nat)
    requires p > 0
    ensures 2 * (m / 2 % p) + m % 2 == m % (2 * p)
  {
    var k, r := m / 2 / p, m / 2 % p;
    assert m / 2 == p * k + r;
    assert 2 * (p * k) == (2 * p) * k;
    ModUnique(m, 2 * p, k, 2 * r + m % 2);
  }

  lemma DoubledProduct(p: nat, k: nat, r: nat)
    ensures p * (2 * k + r) == (2 * p) * k + p * r
  {
    assert p * (2 * k + r) == p * (2 * k) + p * r;
    assert p * (2 * k) == (2 * p) * k;
  }

  lemma HalvedQuotient(o: nat, p: nat, k: nat, r: nat, m: nat)
    requires o == (2 * p) * k + p * r + m && r < 2 && m < p
    ensures o / (2 * p) == k
  {
    ModUnique(o, 2 * p, k, if r == 0 then m else p + m);
  }

  lemma HalvedOnce(o: nat, p: nat)
    requires p > 0
    ensures o / (2 * p) == o / p / 2
  {
    var q, m := o / p, o % p;
    var k, r := q / 2, q % 2;
    assert o == p * q + m;
    DoubledProduct(p, k, r);
    HalvedQuotient(o, p, k, r, m);
  }

  lemma LowestBit(o: nat, low: nat, width: nat)
    requires low > 0 && width > 0
    ensures 2 * (o / (2 * low) % Pow2(width - 1)) + o / low % 2 == o / low % Pow2(width)
  {
    HalvedOnce(o, low);
    AppendBit(o / low, Pow2(width - 1));
  }

  lemma BitInOctet(s: octets, i: nat, j: nat)
    requires i < |s| && j < 8
    ensures Bit(WireBit(s, 8 * i + 7 - j)) == s[i] / Pow2(j) % 2
  {
    var p := 8 * i + 7 - j;
    assert p / 8 == i && p % 8 == 7 - j;
    BitByDivision(s[i], j);
  }

  /** A field inside one octet. */
  lemma {:induction false} FieldInOctet(s: octets, i: nat, k: nat, width: nat)
    requires i < |s| && k + width <= 8
    ensures Field(s, 8 * i + k, width) == s[i] / Pow2(8 - k - width) % Pow2(width)
    decreases width
  {
    if width > 0 {
      var j := 8 - k - width;
      FieldInOctet(s, i, k, width - 1);
      BitInOctet(s, i, j);
      LowestBit(s[i], Pow2(j), width);
      assert Pow2(j + 1) == 2 * Pow2(j);
    }
  }

  lemma Doubled(p: nat, x: nat)
    ensures 2 * (p * x) == (2 * p) * x
  {
  }

  lemma {:induction false} FieldSplit(s: octets, first: nat, a: nat, b: nat)
    requires first + a + b <= 8 * |s|
    ensures Field(s, first, a + b) == Pow2(b) * Field(s, first, a) + Field(s, first + a, b)
    decreases b
  {
    if b > 0 {
      FieldSplit(s, first, a, b - 1);
      Doubled(Pow2(b - 1), Field(s, first, a));
      assert Field(s, first, a + b) == 2 * Field(s, first, a + b - 1) + Bit(WireBit(s, first + a + b - 1));
    }
  }

  /** The same, with the powers of two as numbers. */
  lemma FieldValue(s: octets, i: nat, k: nat, width: nat, low: nat, modulus: nat)
    requires i < |s| && k + width <= 8 && low == Pow2(8 - k - width) && modulus == Pow2(width)
    ensures Field(s, 8 * i + k, width) == s[i] / low % modulus
  {
    FieldInOctet(s, i, k, width);
  }

  lemma WholeOctet(s: octets, i: nat, width: nat)
    requires i < |s| && width == 8
    ensures Field(s, 8 * i, width) == s[i]
  {
    PowersOfTwo();
    FieldValue(s, i, 0, width, 1, 256);
  }

  lemma AppendOctet(s: octets, first: nat, i: nat, a: nat, width: nat)
    requires width == 8 && i < |s| && first + a == 8 * i
    ensures Field(s, first, a + width) == 256 * Field(s, first, a) + s[i]
  {
    PowersOfTwo();
    FieldSplit(s, first, a, width);
    WholeOctet(s, i, width);
  }

  /** A field of whole octets is a big-endian integer. */
  lemma {:induction false} FieldOfOctets(s: octets, i: nat, n: nat)
    requires i + n <= |s|
    ensures Field(s, 8 * i, 8 * n) == FromBigEndian(s[i..i + n])
    decreases n
  {
    if n > 0 {
      FieldOfOctets(s, i, n - 1);
      AppendOctet(s, 8 * i, i + n - 1, 8 * (n - 1), 8);
      assert s[i..i + n][..n - 1] == s[i..i + n - 1];
    }
  }

  lemma PowersOfTwo()
    ensures Pow2(0) == 1 && Pow2(1) == 2 && Pow2(2) == 4 && Pow2(3) == 8 && Pow2(4) == 16
    ensures Pow2(5) == 32 && Pow2(6) == 64 && Pow2(7) == 128 && Pow2(8) == 256
  {
    assert Pow2(4) == 16;
  }

  lemma {:induction false} FlagAt(s: octets, i: nat, k: nat)
    requires i < |s| && k < 8
    ensures Field(s, 8 * i + k, 1) == Bit(Flag(s[i], Pow2(7 - k)))
  {
    FieldInOctet(s, i, k, 1);
    PowersOfTwo();
  }

  // ---------------------------------------------------------------------------
  // The PDU header, table 5-1
  // ---------------------------------------------------------------------------

  lemma FirstOctet(h: PduHeader, s: octets)
    requires h.version < 8 && |s| > 0 && s[0] == PackOctet0(h)
    ensures Field(s, 0, 3) == h.version
    ensures Field(s, 3, 1) == Bit(h.pduType.FileDataPdu?) && Field(s, 4, 1) == Bit(h.direction.TowardSender?)
    ensures Field(s, 5, 1) == Bit(h.transmissionMode.Unacknowledged?) && Field(s, 6, 1) == Bit(h.crcFlag.CrcPresent?)
    ensures Field(s, 7, 1) == Bit(h.largeFileFlag.LargeFile?)
  {
    PowersOfTwo();
    UnpackOctet0(h, s[0]);
    FieldInOctet(s, 0, 0, 3);
    FlagAt(s, 0, 3);
    FlagAt(s, 0, 4);
    FlagAt(s, 0, 5);
    FlagAt(s, 0, 6);
    FlagAt(s, 0, 7);
  }

  lemma LengthField(h: PduHeader, s: octets)
    requires |s| > 3 && s[1..3] == BigEndian(h.dataFieldLength, 2)
    ensures Field(s, 8, 16) == h.dataFieldLength
  {
    FieldOfOctets(s, 1, 2);
    ReadOfWrite(h.dataFieldLength, 2);
    Pow256Values();
  }

  lemma SegmentFlags(h: PduHeader, s: octets)
    requires HeaderSize(h) > 0 && |s| > 3 && s[3] == PackOctet3(h)
    ensures Field(s, 24, 1) == Bit(h.pduType.FileDataPdu? && h.segmentationControl.BoundariesPreserved?)
    ensures Field(s, 28, 1) == Bit(h.pduType.FileDataPdu? && h.segmentMetadataFlag.MetadataPresent?)
  {
    PowersOfTwo();
    UnpackOctet3(h, s[3]);
    FlagAt(s, 3, 0);
    FlagAt(s, 3, 4);
  }

  lemma LengthFields(h: PduHeader, s: octets)
    requires HeaderSize(h) > 0 && |s| > 3 && s[3] == PackOctet3(h)
    ensures Field(s, 25, 3) == h.entityIdLength - 1 && Field(s, 29, 3) == h.transactionSeqLength - 1
  {
    PowersOfTwo();
    UnpackOctet3(h, s[3]);
    FieldValue(s, 3, 1, 3, 16, 8);
    FieldValue(s, 3, 5, 3, 1, 8);
  }

  /** The field of the `n` octets from octet `i` on is `v`. */
  predicate Holds(s: octets, i: nat, n: nat, v: nat) {
    i + n <= |s| && Field(s, 8 * i, 8 * n) == v
  }

  /** It is `v` as far as that fits. */
  predicate Carries(s: octets, i: nat, n: nat, v: uint64) {
    Holds(s, i, n, LowOctets(v, n))
  }

  lemma HoldsOctets(s: octets, i: nat, n: nat)
    requires i + n <= |s|
    ensures Holds(s, i, n, FromBigEndian(s[i..i + n]))
  {
    FieldOfOctets(s, i, n);
  }

  lemma IdField(s: octets, i: nat, v: uint64, n: nat)
    requires i + n <= |s| && s[i..i + n] == BigEndian(v, n)
    ensures Carries(s, i, n, v)
  {
    FieldOfOctets(s, i, n);
    ReadOfWrite(v, n);
  }

  lemma ThreeSlices(s: octets, from: nat, a: octets, b: octets, c: octets)
    requires from + |a| + |b| + |c| <= |s| && s[from..from + |a| + |b| + |c|] == a + b + c
    ensures s[from..from + |a|] == a
    ensures s[from + |a|..from + |a| + |b|] == b
    ensures s[from + |a| + |b|..from + |a| + |b| + |c|] == c
  {
    var to := from + |a| + |b| + |c|;
    Parts(a, b, c);
    SliceOfSlice(s, from, to, 0, |a|);
    SliceOfSlice(s, from, to, |a|, |a| + |b|);
    SliceOfSlice(s, from, to, |a| + |b|, |a| + |b| + |c|);
    assert (a + b + c)[0..|a|] == a && (a + b + c)[|a| + |b|..|a| + |b| + |c|] == c;
  }

  lemma IdParts(h: PduHeader, s: octets)
    requires HeaderSize(h) > 0 && |s| >= HeaderSize(h) && s[FIXED_LEN..HeaderSize(h)] == EncodeIds(h)
    ensures var e, t := h.entityIdLength, h.transactionSeqLength;
            && s[4..4 + e] == BigEndian(h.sourceEntityId, e)
            && s[4 + e..4 + e + t] == BigEndian(h.transactionSeqNumber, t)
            && s[4 + e + t..4 + e + t + e] == BigEndian(h.destinationEntityId, e)
  {
    var e, t := h.entityIdLength, h.transactionSeqLength;
    ThreeSlices(s, 4, BigEndian(h.sourceEntityId, e), BigEndian(h.transactionSeqNumber, t),
                BigEndian(h.destinationEntityId, e));
  }

  lemma SliceOfSlice(s: octets, from: nat, to: nat, i: nat, j: nat)
    requires from <= to <= |s| && i <= j <= to - from
    ensures s[from..to][i..j] == s[from + i..from + j]
  {
    var a, b := s[from..to][i..j], s[from + i..from + j];
    assert |a| == |b| && forall k :: 0 <= k < |a| ==> a[k] == b[k];
  }

  lemma IdFields(h: PduHeader, s: octets)
    requires HeaderSize(h) > 0 && |s| >= HeaderSize(h) && s[FIXED_LEN..HeaderSize(h)] == EncodeIds(h)
    ensures var e, t := h.entityIdLength, h.transactionSeqLength;
            && Carries(s, 4, e, h.sourceEntityId) && Carries(s, 4 + e, t, h.transactionSeqNumber)
            && Carries(s, 4 + e + t, e, h.destinationEntityId)
  {
    var e, t := h.entityIdLength, h.transactionSeqLength;
    IdParts(h, s);
    IdField(s, 4, h.sourceEntityId, e);
    IdField(s, 4 + e, h.transactionSeqNumber, t);
    IdField(s, 4 + e + t, h.destinationEntityId, e);
  }

  /** Where cfdp_pdu_header_serialize puts each field of the header. */
  lemma HeaderLayout(h: PduHeader, s: octets)
    requires Serializable(h) && |s| >= HeaderSize(h) && s[..HeaderSize(h)] == EncodeHeader(h)
    ensures Field(s, 0, 3) == 1
    ensures Field(s, 3, 1) == Bit(h.pduType.FileDataPdu?) && Field(s, 4, 1) == Bit(h.direction.TowardSender?)
    ensures Field(s, 5, 1) == Bit(h.transmissionMode.Unacknowledged?) && Field(s, 6, 1) == Bit(h.crcFlag.CrcPresent?)
    ensures Field(s, 7, 1) == Bit(h.largeFileFlag.LargeFile?)
    ensures Field(s, 8, 16) == h.dataFieldLength
    ensures Field(s, 24, 1) == Bit(h.pduType.FileDataPdu? && h.segmentationControl.BoundariesPreserved?)
    ensures Field(s, 25, 3) == h.entityIdLength - 1
    ensures Field(s, 28, 1) == Bit(h.pduType.FileDataPdu? && h.segmentMetadataFlag.MetadataPresent?)
    ensures Field(s, 29, 3) == h.transactionSeqLength - 1
    ensures var e, t := h.entityIdLength, h.transactionSeqLength;
            && Carries(s, 4, e, h.sourceEntityId) && Carries(s, 4 + e, t, h.transactionSeqNumber)
            && Carries(s, 4 + e + t, e, h.destinationEntityId)
  {
    HeaderParts(h, s);
    FirstOctet(h, s);
    LengthField(h, s);
    SegmentFlags(h, s);
    LengthFields(h, s);
    IdFields(h, s);
  }

  lemma HeaderParts(h: PduHeader, s: octets)
    requires Serializable(h) && |s| >= HeaderSize(h) && s[..HeaderSize(h)] == EncodeHeader(h)
    ensures s[0] == PackOctet0(h) && s[1..3] == BigEndian(h.dataFieldLength, 2) && s[3] == PackOctet3(h)
    ensures s[FIXED_LEN..HeaderSize(h)] == EncodeIds(h)
  {
    var head := s[..HeaderSize(h)];
    Parts(EncodeFixed(h), EncodeIds(h), []);
    assert head[..FIXED_LEN] == s[..FIXED_LEN] && head[FIXED_LEN..] == s[FIXED_LEN..HeaderSize(h)];
    Parts([PackOctet0(h)], BigEndian(h.dataFieldLength, 2), [PackOctet3(h)]);
    assert s[..FIXED_LEN][1..3] == s[1..3];
  }

  // ---------------------------------------------------------------------------
  // Data fields
  // ---------------------------------------------------------------------------

  lemma FileDataParts(fd: FileData.FileSegment, large: LargeFileFlag, flag: SegmentMetadataFlag, s: octets, m: nat)
    requires s == FileData.Encode(fd, large, flag) && m == |FileData.EncodeMetadata(fd, flag)|
    ensures var fs := if large.LargeFile? then 8 else 4;
            && |s| == m + fs + |fd.data| && s[..m] == FileData.EncodeMetadata(fd, flag)
            && s[m..m + fs] == BigEndian(fd.offset, fs) && s[m + fs..] == fd.data
  {
    var front, offset := FileData.EncodeMetadata(fd, flag), BigEndian(fd.offset, FileSizeOctets(large));
    Associate(front, offset, fd.data);
    Parts(front, offset, fd.data);
  }

  lemma MetadataOctet(s: octets, c: nat, m: nat)
    requires |s| > 0 && c < 4 && m < 64 && s[0] == 64 * c + m
    ensures Field(s, 0, 2) == c && Field(s, 2, 6) == m
  {
    PowersOfTwo();
    FileData.TwoFields(c, m, s[0]);
    FieldInOctet(s, 0, 0, 2);
    FieldInOctet(s, 0, 2, 6);
  }

  lemma MetadataFront(fd: FileData.FileSegment, s: octets, m: nat)
    requires FileData.Consistent(fd, MetadataPresent) && m == 1 + |fd.metadata| <= |s|
    requires s[..m] == FileData.EncodeMetadata(fd, MetadataPresent)
    ensures s[0] == 64 * (fd.continuation % 4) + |fd.metadata| && s[1..m] == fd.metadata
  {
    assert s[0] == s[..m][0] && s[1..m] == s[..m][1..];
  }

  /** Record continuation state, segment metadata length and metadata, if the flag says
      so, then offset and data of a File Data PDU, table 5-14. */
  lemma FileDataLayout(fd: FileData.FileSegment, large: LargeFileFlag, flag: SegmentMetadataFlag, m: nat)
    requires FileData.Consistent(fd, flag) && m == if flag.MetadataPresent? then 1 + |fd.metadata| else 0
    ensures var s, fs := FileData.Encode(fd, large, flag), if large.LargeFile? then 8 else 4;
            && |s| == m + fs + |fd.data|
            && (flag.MetadataPresent? ==> && Field(s, 0, 2) == fd.continuation % 4
                                          && Field(s, 2, 6) == |fd.metadata| && s[1..m] == fd.metadata)
            && Carries(s, m, fs, fd.offset) && s[m + fs..] == fd.data
  {
    var s := FileData.Encode(fd, large, flag);
    FileDataParts(fd, large, flag, s, m);
    IdField(s, m, fd.offset, FileSizeOctets(large));
    if flag.MetadataPresent? {
      MetadataFront(fd, s, m);
      MetadataOctet(s, fd.continuation % 4, |fd.metadata|);
    }
  }

  lemma TopDigit(o: octet)
    ensures o / 16 % 16 == o / 16
  {
  }

  lemma HighNibble(s: octets, i: nat, width: nat)
    requires i < |s| && width == 4
    ensures Field(s, 8 * i, width) == s[i] / 16
  {
    PowersOfTwo();
    FieldValue(s, i, 0, width, 16, 16);
    TopDigit(s[i]);
  }

  lemma LowNibble(s: octets, i: nat, width: nat)
    requires i < |s| && width == 4
    ensures Field(s, 8 * i + 4, width) == s[i] % 16
  {
    PowersOfTwo();
    FieldValue(s, i, 4, width, 1, 16);
  }

  lemma EofParts(e: Eof.EofPdu, large: LargeFileFlag, s: octets)
    requires Eof.Encodable(e) && s == Eof.Encode(e, large)
    ensures var fs := if large.LargeFile? then 8 else 4;
            && |s| >= 6 + fs && s[0] == 4 && s[1] == 16 * (e.condition % 16)
            && s[2..6] == BigEndian(e.checksum, 4) && s[6..6 + fs] == BigEndian(e.fileSize, fs)
  {
    var fixed, fs := Eof.EncodeFixed(e, large), FileSizeOctets(large);
    Eof.FixedParts(e, large);
    assert s[2..6] == fixed[2..6] && s[6..6 + fs] == fixed[6..] && s[0] == fixed[0] && s[1] == fixed[1];
  }

  lemma FirstTwo(s: octets, code: octet, high: nat, low: nat)
    requires |s| >= 2 && s[0] == code && high < 16 && low < 16 && s[1] == 16 * high + low
    ensures Field(s, 0, 8) == code && Field(s, 8, 4) == high && Field(s, 12, 4) == low
  {
    WholeOctet(s, 0, 8);
    HighNibble(s, 1, 4);
    LowNibble(s, 1, 4);
  }

  /** Directive code, condition code, spare, file checksum and file size of an EOF PDU,
      section 5.2.2. */
  lemma EofLayout(e: Eof.EofPdu, large: LargeFileFlag)
    requires Eof.Encodable(e)
    ensures var s, fs := Eof.Encode(e, large), if large.LargeFile? then 8 else 4;
            && |s| >= 6 + fs
            && Field(s, 0, 8) == 4 && Field(s, 8, 4) == e.condition % 16 && Field(s, 12, 4) == 0
            && Holds(s, 2, 4, e.checksum) && Carries(s, 6, fs, e.fileSize)
  {
    var s, fs := Eof.Encode(e, large), FileSizeOctets(large);
    EofParts(e, large, s);
    FirstTwo(s, 4, e.condition % 16, 0);
    HoldsOctets(s, 2, 4);
    Eof.ChecksumRoundTrip(e.checksum);
    IdField(s, 6, e.fileSize, fs);
  }

  lemma CodesFields(s: octets, c: nat, d: nat, f: nat)
    requires |s| >= 2 && c < 16 && d < 2 && f < 4 && s[1] == 16 * c + 4 * d + f
    ensures Field(s, 8, 4) == c && Field(s, 12, 1) == 0 && Field(s, 13, 1) == d && Field(s, 14, 2) == f
  {
    PowersOfTwo();
    HighNibble(s, 1, 4);
    FieldInOctet(s, 1, 4, 1);
    FieldInOctet(s, 1, 5, 1);
    FieldInOctet(s, 1, 6, 2);
    CodesDigits(c, d, f, s[1]);
  }

  lemma CodesDigits(c: nat, d: nat, f: nat, o: nat)
    requires c < 16 && d < 2 && f < 4 && o == 16 * c + 4 * d + f
    ensures o / 16 == c && o / 8 % 2 == 0 && o / 4 % 2 == d && o % 4 == f
  {
    assert o / 8 == 2 * c;
    assert o / 4 == 4 * c + d;
  }

  /** Directive code, condition code, spare, delivery code and file status of a Finished
      PDU, section 5.2.3. */
  lemma FinishedLayout(fin: Finished.FinishedPdu)
    requires Finished.Encodable(fin)
    ensures var s := Finished.Encode(fin);
            && |s| >= 2
            && Field(s, 0, 8) == 5 && Field(s, 8, 4) == fin.condition % 16 && Field(s, 12, 1) == 0
            && Field(s, 13, 1) == fin.deliveryCode % 2 && Field(s, 14, 2) == fin.fileStatus % 4
  {
    var s := Finished.Encode(fin);
    Finished.EncodedParts(fin);
    WholeOctet(s, 0, 8);
    CodesFields(s, fin.condition % 16, fin.deliveryCode % 2, fin.fileStatus % 4);
  }

  lemma FlagsFields(s: octets, md: Metadata.MetadataPdu)
    requires |s| >= 2 && s[1] == Metadata.FlagsOctet(md)
    ensures Field(s, 8, 1) == 0 && Field(s, 9, 1) == Bit(md.closureRequested) && Field(s, 10, 2) == 0
    ensures Field(s, 12, 4) == md.checksumType % 16
  {
    PowersOfTwo();
    FieldInOctet(s, 1, 0, 1);
    FieldInOctet(s, 1, 1, 1);
    FieldInOctet(s, 1, 2, 2);
    LowNibble(s, 1, 4);
    FlagsDigits(Bit(md.closureRequested), md.checksumType % 16, s[1]);
  }

  lemma FlagsDigits(c: nat, t: nat, o: nat)
    requires c < 2 && t < 16 && o == 64 * c + t
    ensures o / 128 % 2 == 0 && o / 64 % 2 == c && o / 16 % 4 == 0 && o % 16 == t
  {
    assert o / 16 == 4 * c;
  }

  lemma MetadataParts(md: Metadata.MetadataPdu, large: LargeFileFlag, s: octets)
    requires s == Metadata.Encode(md, large)
    ensures var fs := if large.LargeFile? then 8 else 4;
            && |s| >= 2 + fs && s[0] == 7 && s[1] == Metadata.FlagsOctet(md)
            && s[2..2 + fs] == BigEndian(md.fileSize, fs)
            && s[2 + fs..] == [|md.source|] + md.source + [|md.destination|] + md.destination + md.options
  {
    var head := [Metadata.DIRECTIVE_METADATA, Metadata.FlagsOctet(md)];
    var size := BigEndian(md.fileSize, FileSizeOctets(large));
    var names := [|md.source|] + md.source + [|md.destination|] + md.destination + md.options;
    assert s == head + size + names;
    Parts(head, size, names);
    assert s[0] == head[0] && s[1] == head[1];
  }

  /** Directive code, reserved bit, closure requested, reserved bits, checksum type, file
      size, source and destination file names and options of a Metadata PDU, section
      5.2.5. */
  lemma MetadataLayout(md: Metadata.MetadataPdu, large: LargeFileFlag)
    ensures var s, fs := Metadata.Encode(md, large), if large.LargeFile? then 8 else 4;
            && |s| >= 2 + fs
            && Field(s, 0, 8) == 7 && Field(s, 8, 1) == 0 && Field(s, 9, 1) == Bit(md.closureRequested)
            && Field(s, 10, 2) == 0 && Field(s, 12, 4) == md.checksumType % 16 && Carries(s, 2, fs, md.fileSize)
            && s[2 + fs..] == [|md.source|] + md.source + [|md.destination|] + md.destination + md.options
  {
    var s := Metadata.Encode(md, large);
    MetadataParts(md, large, s);
    WholeOctet(s, 0, 8);
    FlagsFields(s, md);
    IdField(s, 2, md.fileSize, FileSizeOctets(large));
  }

  lemma SliceOfFront(a: octets, b: octets, i: nat, j: nat)
    requires i <= j <= |a|
    ensures (a + b)[i..j] == a[i..j]
  {
  }

  lemma SliceOfBack(a: octets, b: octets, i: nat, j: nat)
    requires i == |a| && j == |a| + |b|
    ensures (a + b)[i..j] == b
  {
  }

  lemma LastRequest(rs: seq<Nak.SegmentRequest>, fs: Nak.width)
    requires rs != []
    ensures Nak.EncodeRequests(rs, fs) == Nak.EncodeRequests(rs[..|rs| - 1], fs) + Nak.EncodePair(rs[|rs| - 1], fs)
  {
  }

  lemma {:induction false} RequestAt(rs: seq<Nak.SegmentRequest>, fs: Nak.width, i: nat, p: nat, q: nat)
    requires i < |rs| && p == Nak.Span(i, fs) && q == Nak.Span(i + 1, fs)
    ensures Nak.EncodeRequests(rs, fs)[p..q] == Nak.EncodePair(rs[i], fs)
    decreases |rs|
  {
    var k := |rs| - 1;
    LastRequest(rs, fs);
    if i < k {
      RequestAt(rs[..k], fs, i, p, q);
      SliceOfFront(Nak.EncodeRequests(rs[..k], fs), Nak.EncodePair(rs[k], fs), p, q);
    } else {
      SliceOfBack(Nak.EncodeRequests(rs[..k], fs), Nak.EncodePair(rs[k], fs), p, q);
    }
  }

  lemma PairAt(s: octets, at: nat, r: Nak.SegmentRequest, fs: Nak.width)
    requires at + 2 * fs <= |s| && s[at..at + 2 * fs] == Nak.EncodePair(r, fs)
    ensures Carries(s, at, fs, r.startOffset) && Carries(s, at + fs, fs, r.endOffset)
  {
    Parts(BigEndian(r.startOffset, fs), BigEndian(r.endOffset, fs), []);
    SliceOfSlice(s, at, at + 2 * fs, 0, fs);
    SliceOfSlice(s, at, at + 2 * fs, fs, 2 * fs);
    IdField(s, at, r.startOffset, fs);
    IdField(s, at + fs, r.endOffset, fs);
  }

  /** Directive code, start and end of scope of a NAK PDU, section 5.2.6. */
  lemma NakLayout(nak: Nak.NakPdu, large: LargeFileFlag)
    ensures var s, fs := Nak.Encode(nak, large), if large.LargeFile? then 8 else 4;
            && |s| == 1 + 2 * fs + 2 * fs * |nak.requests|
            && Field(s, 0, 8) == 8 && Carries(s, 1, fs, nak.startOfScope) && Carries(s, 1 + fs, fs, nak.endOfScope)
  {
    var s: octets, fs: Nak.width := Nak.Encode(nak, large), FileSizeOctets(large);
    Nak.EncodedParts(nak, fs);
    WholeOctet(s, 0, 8);
    PairAt(s, 1, Nak.Scope(nak), fs);
  }

  lemma SliceOfTail(front: octets, tail: octets, i: nat, j: nat)
    requires i <= j <= |tail|
    ensures (front + tail)[|front| + i..|front| + j] == tail[i..j]
  {
  }

  lemma PairBehind(front: octets, tail: octets, r: Nak.SegmentRequest, fs: Nak.width, p: nat, at: nat)
    requires p + 2 * fs <= |tail| && tail[p..p + 2 * fs] == Nak.EncodePair(r, fs) && at == |front| + p
    ensures Carries(front + tail, at, fs, r.startOffset) && Carries(front + tail, at + fs, fs, r.endOffset)
  {
    SliceOfTail(front, tail, p, p + 2 * fs);
    PairAt(front + tail, at, r, fs);
  }

  /** Segment request `i`, which starts at octet `at`. */
  lemma RequestLayout(nak: Nak.NakPdu, large: LargeFileFlag, i: nat, fs: Nak.width, at: nat, s: octets)
    requires i < |nak.requests| && fs == (if large.LargeFile? then 8 else 4) && at == 1 + 2 * fs + 2 * fs * i
    requires s == Nak.Encode(nak, large)
    ensures Carries(s, at, fs, nak.requests[i].startOffset) && Carries(s, at + fs, fs, nak.requests[i].endOffset)
  {
    var scope := Nak.EncodeScope(nak, fs);
    assert |scope| == 1 + 2 * fs;
    var p := Nak.Span(i, fs);
    RequestAt(nak.requests, fs, i, p, p + 2 * fs);
    PairBehind(scope, Nak.EncodeRequests(nak.requests, fs), nak.requests[i], fs, p, at);
  }

  // ---------------------------------------------------------------------------
  // What the decoders read, whatever the spare bits and trailing parts are
  // ---------------------------------------------------------------------------

  lemma EofValues(s: octets, large: LargeFileFlag)
    requires Eof.Decode(s, large).Decoded?
    ensures var e, fs := Eof.Decode(s, large).value, if large.LargeFile? then 8 else 4;
            && |s| >= 6 + fs && s[0] == 4 && e.condition == s[1] / 16
            && e.checksum == FromBigEndian(s[2..6]) && e.fileSize == FromBigEndian(s[6..6 + fs])
  {
    var fixed, fs := s[..6 + FileSizeOctets(large)], FileSizeOctets(large);
    assert fixed[2..6] == s[2..6] && fixed[6..] == s[6..6 + fs];
  }

  lemma EofFields(s: octets, fs: nat, condition: nat, checksum: nat, size: nat)
    requires |s| >= 6 + fs && s[0] == 4 && condition == s[1] / 16
    requires checksum == FromBigEndian(s[2..6]) && size == FromBigEndian(s[6..6 + fs])
    ensures Field(s, 0, 8) == 4 && Field(s, 8, 4) == condition
    ensures Holds(s, 2, 4, checksum) && Holds(s, 6, fs, size)
  {
    FirstTwo(s, s[0], s[1] / 16, s[1] % 16);
    HoldsOctets(s, 2, 4);
    HoldsOctets(s, 6, fs);
  }

  /** The condition, checksum and size of every EOF PDU that is accepted. */
  lemma EofRead(s: octets, large: LargeFileFlag)
    requires Eof.Decode(s, large).Decoded?
    ensures var e, fs := Eof.Decode(s, large).value, if large.LargeFile? then 8 else 4;
            && |s| >= 6 + fs && Field(s, 0, 8) == 4 && Field(s, 8, 4) == e.condition
            && Holds(s, 2, 4, e.checksum) && Holds(s, 6, fs, e.fileSize)
  {
    var e := Eof.Decode(s, large).value;
    EofValues(s, large);
    EofFields(s, FileSizeOctets(large), e.condition, e.checksum, e.fileSize);
  }

  lemma FinishedValues(s: octets)
    requires Finished.Decode(s).Decoded?
    ensures |s| >= 2 && s[0] == 5
    ensures var fin := Finished.Decode(s).value;
            fin.condition == s[1] / 16 && fin.deliveryCode == s[1] / 4 % 2 && fin.fileStatus == s[1] % 4
  {
  }

  /** The codes of every Finished PDU that is accepted. */
  lemma FinishedRead(s: octets)
    requires Finished.Decode(s).Decoded?
    ensures |s| >= 2
    ensures var fin := Finished.Decode(s).value;
            && Field(s, 0, 8) == 5 && Field(s, 8, 4) == fin.condition
            && Field(s, 13, 1) == fin.deliveryCode && Field(s, 14, 2) == fin.fileStatus
  {
    FinishedValues(s);
    FirstTwo(s, s[0], s[1] / 16, s[1] % 16);
    LowCodes(s);
  }

  lemma LowCodes(s: octets)
    requires |s| >= 2
    ensures Field(s, 13, 1) == s[1] / 4 % 2 && Field(s, 14, 2) == s[1] % 4
  {
    PowersOfTwo();
    FieldValue(s, 1, 5, 1, 4, 2);
    FieldValue(s, 1, 6, 2, 1, 4);
  }

  lemma MetadataValues(s: octets, large: LargeFileFlag)
    requires Metadata.Decode(s, large).Decoded?
    ensures var md, fs := Metadata.Decode(s, large).value, if large.LargeFile? then 8 else 4;
            && |s| >= 2 + fs && s[0] == 7 && md.closureRequested == (s[1] / 64 % 2 == 1)
            && md.checksumType == s[1] % 16 && md.fileSize == FromBigEndian(s[2..2 + fs])
  {
  }

  lemma SecondBit(s: octets)
    requires |s| >= 2
    ensures Field(s, 9, 1) == s[1] / 64 % 2
  {
    PowersOfTwo();
    FieldValue(s, 1, 1, 1, 64, 2);
  }

  lemma MetadataFields(s: octets, fs: nat, closure: bool, checksumType: nat, size: nat)
    requires |s| >= 2 + fs && s[0] == 7 && closure == (s[1] / 64 % 2 == 1)
    requires checksumType == s[1] % 16 && size == FromBigEndian(s[2..2 + fs])
    ensures Field(s, 0, 8) == 7 && Field(s, 9, 1) == Bit(closure) && Field(s, 12, 4) == checksumType
    ensures Holds(s, 2, fs, size)
  {
    FirstTwo(s, s[0], s[1] / 16, s[1] % 16);
    SecondBit(s);
    HoldsOctets(s, 2, fs);
  }

  /** The closure flag, checksum type and file size of every Metadata PDU that is
      accepted. */
  lemma MetadataRead(s: octets, large: LargeFileFlag)
    requires Metadata.Decode(s, large).Decoded?
    ensures var md, fs := Metadata.Decode(s, large).value, if large.LargeFile? then 8 else 4;
            && |s| >= 2 + fs && Field(s, 0, 8) == 7 && Field(s, 9, 1) == Bit(md.closureRequested)
            && Field(s, 12, 4) == md.checksumType && Holds(s, 2, fs, md.fileSize)
  {
    var md := Metadata.Decode(s, large).value;
    MetadataValues(s, large);
    MetadataFields(s, FileSizeOctets(large), md.closureRequested, md.checksumType, md.fileSize);
  }
}
