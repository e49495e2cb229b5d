/** The EOF PDU (src/cfdp_directive.c, section 5.2.2 of CCSDS 727.0-B-5). */
module Eof {
  import opened Octets
  import opened Endian
  import opened Header
  import opened Tlvs

  const DIRECTIVE_EOF: octet := 0x04
  const NO_ERROR: uint8 := 0

  datatype EofPdu = EofPdu(condition: uint8, checksum: uint32, fileSize: uint64, faultLocation: EntityId)

  /** A Fault Location accompanies every condition but "No error". */
  predicate Encodable(e: EofPdu) {
    e.condition == NO_ERROR || IdLenValid(e.faultLocation.len)
  }

  function EncodeFixed(e: EofPdu, large: LargeFileFlag): octets {
    [DIRECTIVE_EOF, 16 * (e.condition % 16)] + BigEndian(e.checksum, 4) + BigEndian(e.fileSize, FileSizeOctets(large))
  }

  function Encode(e: EofPdu, large: LargeFileFlag): octets
    requires Encodable(e)
  {
    EncodeFixed(e, large) + if e.condition != NO_ERROR then EncodeTlv(EntityTlv(e.faultLocation)) else []
  }

  /** The fixed part of cfdp_eof_serialize. */
  method WriteFixed(e: EofPdu, large: LargeFileFlag, buf: array<octet>, start: nat)
    requires start + FileSizeOctets(large) + 6 <= buf.Length
    modifies buf
    ensures buf[..] == Splice(old(buf[..]), start, EncodeFixed(e, large))
  {
    ghost var before, head := buf[..], [DIRECTIVE_EOF, 16 * (e.condition % 16)];
    StorePair(buf, start, DIRECTIVE_EOF, 16 * (e.condition % 16));
    AppendUint(buf, start, 2, e.checksum, 4, before, head);
    AppendUint(buf, start, 6, e.fileSize, FileSizeOctets(large), before, head + BigEndian(e.checksum, 4));
  }

  /** cfdp_eof_serialize */
  method Serialize(e: EofPdu, large: LargeFileFlag, buf: array<octet>, start: nat, cap: nat) returns (n: nat)
    requires start + cap <= buf.Length
    modifies buf
    ensures n == if Encodable(e) && |Encode(e, large)| <= cap then |Encode(e, large)| else 0
    ensures n > 0 ==> buf[..] == Splice(old(buf[..]), start, Encode(e, large))
    ensures OnlyWithin(old(buf[..]), buf[..], start, cap)
  {
    var withFaultLocation := e.condition != NO_ERROR;
    if withFaultLocation && e.faultLocation.len == 0 {
      return 0;
    }
    var size := FileSizeOctets(large) + 6;
    if cap < size {
      return 0;
    }
    ghost var before, fixed := buf[..], EncodeFixed(e, large);
    WriteFixed(e, large, buf, start);
    SpliceWithin(before, start, fixed, cap);
    if !withFaultLocation {
      assert Encode(e, large) == fixed;
      return size;
    }
    var m := EntityAppend(e.faultLocation, buf, start, size, cap, before, fixed);
    if m == 0 {
      return 0;
    }
    SpliceWithin(before, start, Encode(e, large), cap);
    return size + m;
  }

  function DecodeFixed(s: octets, large: LargeFileFlag): EofPdu
    requires |s| == FileSizeOctets(large) + 6
  {
    EofPdu(s[1] / 16 % 16, ReadUint32(s[2..6]), ReadId(s[6..]), NO_ENTITY)
  }

  function ReadUint32(s: octets): uint32
    requires |s| == 4
  {
    WriteOfRead(s);
    Pow256Values();
    FromBigEndian(s)
  }

  /** Lenient about the Fault Location: it may be present or not whatever the condition. */
  function Decode(s: octets, large: LargeFileFlag): Decoding<EofPdu> {
    var size := FileSizeOctets(large) + 6;
    if |s| < size || s[0] != DIRECTIVE_EOF then Malformed
    else
      var e := DecodeFixed(s[..size], large);
      if |s| == size then Decoded(e, size)
      else
        match DecodeEntity(s[size..])
        case Malformed => Malformed
        case Decoded(entity, n) => Decoded(e.(faultLocation := entity), size + n)
  }

  /** cfdp_eof_deserialize */
  method Deserialize(s: octets, large: LargeFileFlag) returns (n: nat, e: EofPdu)
    ensures Decode(s, large) == if n > 0 then Decoded(e, n) else Malformed
  {
    e := EofPdu(0, 0, 0, NO_ENTITY);
    var fs := FileSizeOctets(large);
    var size := fs + 6;
    if |s| < size || s[0] != DIRECTIVE_EOF {
      return 0, e;
    }
    var fixed := s[..size];
    assert fixed[2..][..4] == fixed[2..6] && fixed[6..][..fs] == fixed[6..];
    var checksum := ReadUint(fixed[2..], 4);
    var fileSize := ReadUint(fixed[6..], fs);
    assert checksum == ReadUint32(fixed[2..6]);
    e := EofPdu(s[1] / 16 % 16, checksum, fileSize, NO_ENTITY);
    if |s| == size {
      return size, e;
    }
    var m, entity := EntityDeserialize(s[size..]);
    if m == 0 {
      return 0, e;
    }
    return size + m, e.(faultLocation := entity);
  }

  /** What survives the wire: four condition bits, the file size in the chosen width,
      and the Fault Location exactly when the condition is not "No error". */
  function OnTheWire(e: EofPdu, large: LargeFileFlag): EofPdu {
    EofPdu(e.condition % 16, e.checksum, LowOctets(e.fileSize, FileSizeOctets(large)),
           if e.condition != NO_ERROR then EntityOnTheWire(e.faultLocation) else NO_ENTITY)
  }

  lemma ChecksumRoundTrip(v: uint32)
    ensures ReadUint32(BigEndian(v, 4)) == v
  {
    ReadOfWrite(v, 4);
    Pow256Values();
  }

  lemma FixedParts(e: EofPdu, large: LargeFileFlag)
    ensures var s := EncodeFixed(e, large);
            && |s| == FileSizeOctets(large) + 6 && s[1] == 16 * (e.condition % 16)
            && s[2..6] == BigEndian(e.checksum, 4) && s[6..] == BigEndian(e.fileSize, FileSizeOctets(large))
  {
    Parts([DIRECTIVE_EOF, 16 * (e.condition % 16)], BigEndian(e.checksum, 4),
          BigEndian(e.fileSize, FileSizeOctets(large)));
  }

  lemma HighNibble(c: nat, o: octet)
    requires c < 16 && o == 16 * c
    ensures o / 16 % 16 == c
  {
  }

  lemma FixedRoundTrip(e: EofPdu, large: LargeFileFlag)
    ensures |EncodeFixed(e, large)| == FileSizeOctets(large) + 6
    ensures DecodeFixed(EncodeFixed(e, large), large) == OnTheWire(e, large).(faultLocation := NO_ENTITY)
  {
    FixedParts(e, large);
    HighNibble(e.condition % 16, EncodeFixed(e, large)[1]);
    ChecksumRoundTrip(e.checksum);
    ReadOfWrite(e.fileSize, FileSizeOctets(large));
  }

  /** Decoding what was encoded returns the PDU as it is on the wire and uses every octet. */
  lemma DecodeOfEncode(e: EofPdu, large: LargeFileFlag)
    requires Encodable(e)
    ensures Decode(Encode(e, large), large) == Decoded(OnTheWire(e, large), |Encode(e, large)|)
  {
    var fixed := EncodeFixed(e, large);
    FixedRoundTrip(e, large);
    if e.condition == NO_ERROR {
      assert Encode(e, large) == fixed;
      assert fixed[..|fixed|] == fixed;
    } else {
      var t := EntityTlv(e.faultLocation);
      Parts(fixed, EncodeTlv(t), []);
      TlvDecodeOfEncode(t, []);
      assert EncodeTlv(t) + [] == EncodeTlv(t);
      EntityRoundTrip(e.faultLocation);
    }
  }

  lemma PatchedParts(s: octets, o: octet)
    requires |s| >= 6
    ensures s[1 := o] == [s[0], o] + s[2..6] + s[6..]
  {
  }

  lemma PatchedPrefix(s: octets, size: nat, n: nat, o: octet)
    requires 2 <= size && size + n <= |s|
    ensures s[..size + n][1 := o] == s[..size][1 := o] + s[size..][..n]
  {
  }

  lemma FixedRestored(s: octets, large: LargeFileFlag)
    requires |s| == FileSizeOctets(large) + 6 && s[0] == DIRECTIVE_EOF
    ensures EncodeFixed(DecodeFixed(s, large), large) == s[1 := 16 * (s[1] / 16)]
  {
    WriteOfRead(s[2..6]);
    Rewritten(s[6..], FileSizeOctets(large));
    PatchedParts(s, 16 * (s[1] / 16));
  }

  lemma EntityReencoded(s: octets)
    requires DecodeEntity(s).Decoded?
    ensures var e, n := DecodeEntity(s).value, DecodeEntity(s).consumed;
            0 < n <= |s| && IdLenValid(e.len) && EncodeTlv(EntityTlv(e)) == s[..n]
  {
    TlvEncodeOfDecode(s);
    EntityRestored(DecodeTlv(s).value);
  }

  lemma FaultPresent(s: octets, large: LargeFileFlag)
    requires Decode(s, large).Decoded?
    ensures var e, n, size := Decode(s, large).value, Decode(s, large).consumed, FileSizeOctets(large) + 6;
            && size <= n <= |s| && (n == size <==> |s| == size) && (n == size <==> e.faultLocation == NO_ENTITY)
            && (n > size ==> IdLenValid(e.faultLocation.len)
                             && EncodeTlv(EntityTlv(e.faultLocation)) == s[size..][..n - size])
  {
    var size := FileSizeOctets(large) + 6;
    if |s| > size {
      EntityReencoded(s[size..]);
    }
  }

  lemma FixedPart(s: octets, large: LargeFileFlag)
    requires Decode(s, large).Decoded?
    ensures EncodeFixed(Decode(s, large).value, large) == s[..FileSizeOctets(large) + 6][1 := 16 * (s[1] / 16)]
  {
    var size := FileSizeOctets(large) + 6;
    FixedRestored(s[..size], large);
    SameFixed(Decode(s, large).value, DecodeFixed(s[..size], large), large);
  }

  /** A strict reading of section 5.2.2: an accepted PDU re-encodes to the octets it
      occupied, with the spare low nibble of octet 1 cleared, exactly when something
      follows the fixed part for every condition but "No error", which is the high nibble
      0. The decoder does not ask. */
  lemma EncodeOfDecode(s: octets, large: LargeFileFlag)
    requires Decode(s, large).Decoded?
    ensures 2 <= Decode(s, large).consumed <= |s|
    ensures var e, n := Decode(s, large).value, Decode(s, large).consumed;
            Encodable(e) && Encode(e, large) == s[..n][1 := 16 * (s[1] / 16)]
            <==> (s[1] / 16 == 0 <==> |s| == FileSizeOctets(large) + 6)
  {
    var size, n := FileSizeOctets(large) + 6, Decode(s, large).consumed;
    FaultPresent(s, large);
    FixedPart(s, large);
    PatchedPrefix(s, size, n - size, 16 * (s[1] / 16));
  }

  /** A data field is accepted exactly when it starts with the EOF code, holds the fixed
      part, and then either ends or goes on with an Entity ID TLV; what follows that TLV
      is ignored. */
  lemma AcceptedLanguage(s: octets, large: LargeFileFlag)
    ensures var size := FileSizeOctets(large) + 6;
            Decode(s, large).Decoded? <==>
            && |s| >= size && s[0] == DIRECTIVE_EOF
            && (|s| == size || exists t, rest :: IsEntityTlv(t) && s[size..] == EncodeTlv(t) + rest)
  {
    var size := FileSizeOctets(large) + 6;
    if |s| >= size {
      EntityAccepted(s[size..]);
    }
  }

  lemma SameFixed(a: EofPdu, b: EofPdu, large: LargeFileFlag)
    requires a == b.(faultLocation := a.faultLocation)
    ensures EncodeFixed(a, large) == EncodeFixed(b, large)
  {
  }

  /** A fault condition without a Fault Location is accepted, and cannot be re-encoded. */
  lemma FaultLocationMissing(s: octets)
    requires s == [DIRECTIVE_EOF, 16] + Zeros(8)
    ensures Decode(s, SmallFile).Decoded? && Decode(s, SmallFile).value.condition == 1
    ensures !Encodable(Decode(s, SmallFile).value)
  {
    assert s[..10] == s;
  }
}
