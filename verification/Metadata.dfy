/** The Metadata PDU (src/cfdp_directive.c, section 5.2.5 of CCSDS 727.0-B-5). */
module Metadata {
  import opened Octets
  import opened Endian
  import opened Header
  import opened Tlvs

  const DIRECTIVE_METADATA: octet := 0x07

  datatype MetadataPdu = MetadataPdu(
    closureRequested: bool,
    checksumType: uint8,
    fileSize: uint64,
    source: shortOctets,
    destination: shortOctets,
    options: mediumOctets)

  function FlagsOctet(md: MetadataPdu): octet {
    64 * Bit(md.closureRequested) + md.checksumType % 16
  }

  /** Everything before the options. */
  function EncodeFront(md: MetadataPdu, large: LargeFileFlag): octets {
    [DIRECTIVE_METADATA, FlagsOctet(md)] + BigEndian(md.fileSize, FileSizeOctets(large))
    + EncodeLv(md.source) + EncodeLv(md.destination)
  }

  function Encode(md: MetadataPdu, large: LargeFileFlag): octets {
    EncodeFront(md, large) + md.options
  }

  /** cfdp_metadata_serialize. The size it predicts is the size its LV writers produce,
      so they cannot fail. */
  method Serialize(md: MetadataPdu, large: LargeFileFlag, buf: array<octet>, start: nat, cap: nat) returns (n: nat)
    requires start + cap <= buf.Length
    modifies buf
    ensures n == if |Encode(md, large)| <= cap then |Encode(md, large)| else 0
    ensures buf[..] == if n > 0 then Splice(old(buf[..]), start, Encode(md, large)) else old(buf[..])
  {
    var fs := FileSizeOctets(large);
    var need := fs + |md.source| + |md.destination| + |md.options| + 4;
    if cap < need {
      return 0;
    }
    ghost var before, head := buf[..], [DIRECTIVE_METADATA, FlagsOctet(md)];
    StorePair(buf, start, DIRECTIVE_METADATA, FlagsOctet(md));
    AppendUint(buf, start, 2, md.fileSize, fs, before, head);
    head := head + BigEndian(md.fileSize, fs);
    var pos := 2 + fs;
    var m := LvAppend(md.source, buf, start, pos, cap, before, head);
    head := head + EncodeLv(md.source);
    pos := pos + m;
    m := LvAppend(md.destination, buf, start, pos, cap, before, head);
    head := head + EncodeLv(md.destination);
    pos := pos + m;
    CopyAppend(buf, start, pos, md.options, before, head);
    return pos + |md.options|;
  }

  /** The file names and what follows them, which becomes the options; their length is
      cast to 16 bits. */
  function DecodeNames(md: MetadataPdu, s: octets): Option<MetadataPdu> {
    match DecodeLv(s)
    case Malformed => None
    case Decoded(source, n) =>
      match DecodeLv(s[n..])
      case Malformed => None
      case Decoded(destination, m) =>
        var rest := s[n + m..];
        Some(md.(source := source, destination := destination, options := rest[..|rest| % 0x1_0000]))
  }

  function DecodeFlags(o: octet, fileSize: uint64): MetadataPdu {
    MetadataPdu(o / 64 % 2 == 1, o % 16, fileSize, [], [], [])
  }

  function Decode(s: octets, large: LargeFileFlag): Decoding<MetadataPdu> {
    var fs := FileSizeOctets(large);
    if |s| < fs + 2 || s[0] != DIRECTIVE_METADATA then Malformed
    else
      match DecodeNames(DecodeFlags(s[1], ReadId(s[2..2 + fs])), s[2 + fs..])
      case None => Malformed
      case Some(r) => Decoded(r, |s|)
  }

  /** The second half of cfdp_metadata_deserialize. */
  method ReadNames(md: MetadataPdu, s: octets) returns (ok: bool, r: MetadataPdu)
    ensures DecodeNames(md, s) == if ok then Some(r) else None
  {
    var n, source := LvDeserialize(s);
    if n == 0 {
      return false, md;
    }
    var pos := n;
    var destination;
    n, destination := LvDeserialize(s[pos..]);
    if n == 0 {
      return false, md;
    }
    pos := pos + n;
    var rest := s[pos..];
    return true, md.(source := source, destination := destination, options := rest[..|rest| % 0x1_0000]);
  }

  /** cfdp_metadata_deserialize */
  method Deserialize(s: octets, large: LargeFileFlag) returns (n: nat, md: MetadataPdu)
    ensures Decode(s, large) == if n > 0 then Decoded(md, n) else Malformed
  {
    md := MetadataPdu(false, 0, 0, [], [], []);
    var fs := FileSizeOctets(large);
    if |s| < fs + 2 || s[0] != DIRECTIVE_METADATA {
      return 0, md;
    }
    assert s[2..][..fs] == s[2..2 + fs];
    var fileSize := ReadUint(s[2..], fs);
    md := DecodeFlags(s[1], fileSize);
    var ok;
    ok, md := ReadNames(md, s[2 + fs..]);
    return if ok then |s| else 0, md;
  }

  // ---------------------------------------------------------------------------
  // Round trips
  // ---------------------------------------------------------------------------

  function OnTheWire(md: MetadataPdu, large: LargeFileFlag): MetadataPdu {
    md.(checksumType := md.checksumType % 16, fileSize := LowOctets(md.fileSize, FileSizeOctets(large)))
  }

  lemma NamesRead(md: MetadataPdu, source: shortOctets, destination: shortOctets, rest: octets)
    ensures DecodeNames(md, EncodeLv(source) + EncodeLv(destination) + rest)
         == Some(md.(source := source, destination := destination, options := rest[..|rest| % 0x1_0000]))
  {
    var a, b := EncodeLv(source), EncodeLv(destination);
    Associate(a, b, rest);
    LvDecodeOfEncode(source, b + rest);
    Parts(a, b + rest, []);
    LvDecodeOfEncode(destination, rest);
    Parts(a, b, rest);
  }

  lemma NamesRoundTrip(md: MetadataPdu, r: MetadataPdu)
    ensures DecodeNames(md, EncodeLv(r.source) + EncodeLv(r.destination) + r.options)
         == Some(md.(source := r.source, destination := r.destination, options := r.options))
  {
    NamesRead(md, r.source, r.destination, r.options);
    assert r.options[..|r.options|] == r.options;
  }

  lemma FlagsRoundTrip(md: MetadataPdu, o: octet)
    requires o == FlagsOctet(md)
    ensures (o / 64 % 2 == 1) == md.closureRequested && o % 16 == md.checksumType % 16
  {
  }

  /** Decoding what was encoded returns both file names, the options octet for octet
      and the file size in the chosen width, and uses every octet. */
  lemma DecodeOfEncode(md: MetadataPdu, large: LargeFileFlag)
    ensures Decode(Encode(md, large), large) == Decoded(OnTheWire(md, large), |Encode(md, large)|)
  {
    var s, fs := Encode(md, large), FileSizeOctets(large);
    var head, size := [DIRECTIVE_METADATA, FlagsOctet(md)], BigEndian(md.fileSize, fs);
    var names := EncodeLv(md.source) + EncodeLv(md.destination) + md.options;
    assert s == head + size + names;
    Parts(head, size, names);
    assert s[0] == head[0] && s[1] == head[1];
    FlagsRoundTrip(md, s[1]);
    ReadOfWrite(md.fileSize, fs);
    NamesRoundTrip(OnTheWire(md, large).(source := [], destination := [], options := []), md);
  }

  /** The octets behind the file names of an accepted PDU. */
  function Trailer(s: octets, large: LargeFileFlag): octets
    requires Decode(s, large).Decoded?
  {
    var names := s[2 + FileSizeOctets(large)..];
    var n := DecodeLv(names).consumed;
    names[n + DecodeLv(names[n..]).consumed..]
  }

  lemma NamesRestored(md: MetadataPdu, s: octets)
    requires DecodeNames(md, s).Some?
    ensures var r := DecodeNames(md, s).value;
            var n := DecodeLv(s).consumed;
            s == EncodeLv(r.source) + EncodeLv(r.destination) + s[n + DecodeLv(s[n..]).consumed..]
  {
    var n := DecodeLv(s).consumed;
    var m := DecodeLv(s[n..]).consumed;
    LvEncodeOfDecode(s);
    LvEncodeOfDecode(s[n..]);
    assert s[n..][..m] == s[n..n + m];
    ThreeParts(s, n, n + m);
  }

  lemma Kept(front: octets, rest: octets)
    ensures front + rest[..|rest| % 0x1_0000] == front + rest <==> |rest| <= 0xFFFF
  {
    var kept := rest[..|rest| % 0x1_0000];
    if |rest| > 0xFFFF {
      assert |front + kept| < |front + rest|;
    } else {
      assert kept == rest;
    }
  }

  lemma FixedRestored(s: octets, fs: nat, flags: octet)
    requires |s| >= fs + 2 && fs <= 8
    ensures s[1 := flags] == [s[0], flags] + BigEndian(ReadId(s[2..2 + fs]), fs) + s[2 + fs..]
  {
    Rewritten(s[2..2 + fs], fs);
  }

  lemma FrontRestored(s: octets, large: LargeFileFlag)
    requires Decode(s, large).Decoded?
    ensures var md := Decode(s, large).value;
            s[1 := FlagsOctet(md)] == EncodeFront(md, large) + Trailer(s, large)
  {
    var md, fs := Decode(s, large).value, FileSizeOctets(large);
    FixedRestored(s, fs, FlagsOctet(md));
    NamesRestored(DecodeFlags(s[1], ReadId(s[2..2 + fs])), s[2 + fs..]);
    var a, b := [s[0], FlagsOctet(md)], BigEndian(md.fileSize, fs);
    Regroup(a + b, EncodeLv(md.source), EncodeLv(md.destination), Trailer(s, large));
  }

  lemma Regroup(a: octets, b: octets, c: octets, d: octets)
    ensures a + (b + c + d) == a + b + c + d
  {
  }

  lemma Unreduced(s: octets, large: LargeFileFlag)
    requires Decode(s, large).Decoded?
    ensures OnTheWire(Decode(s, large).value, large) == Decode(s, large).value
  {
    ReadUnreduced(s[2..2 + FileSizeOctets(large)]);
  }

  lemma OptionsKept(s: octets, large: LargeFileFlag)
    requires Decode(s, large).Decoded?
    ensures var rest := Trailer(s, large);
            Decode(s, large).value.options == rest[..|rest| % 0x1_0000]
  {
  }

  /** The data field with the reserved bits of octet 1 cleared. */
  function Canonical(s: octets): octets
    requires |s| >= 2
  {
    s[1 := 64 * (s[1] / 64 % 2) + s[1] % 16]
  }

  lemma FlagsRestored(s: octets, large: LargeFileFlag)
    requires Decode(s, large).Decoded?
    ensures FlagsOctet(Decode(s, large).value) == 64 * (s[1] / 64 % 2) + s[1] % 16
  {
  }

  /** The front of an accepted PDU and the octets behind it are its own octets with the
      reserved bits of octet 1 cleared, and the options are as many of those octets as
      their length, cast to 16 bits, says. So the PDU re-encodes to its own octets
      exactly when the options fit the 16-bit length field of the C structure. A PDU data
      field always does; a longer buffer loses the excess silently. */
  lemma EncodeOfDecode(s: octets, large: LargeFileFlag)
    requires Decode(s, large).Decoded?
    ensures var md, rest := Decode(s, large).value, Trailer(s, large);
            && OnTheWire(md, large) == md
            && EncodeFront(md, large) + rest == Canonical(s)
            && md.options == rest[..|rest| % 0x1_0000]
            && (Encode(md, large) == Canonical(s) <==> |rest| <= 0xFFFF)
  {
    Unreduced(s, large);
    OptionsKept(s, large);
    FlagsRestored(s, large);
    FrontRestored(s, large);
    Kept(EncodeFront(Decode(s, large).value, large), Trailer(s, large));
  }

  lemma NamesAccepted(md: MetadataPdu, s: octets)
    ensures DecodeNames(md, s).Some? <==>
            exists source, destination, rest :: s == EncodeLv(source) + EncodeLv(destination) + rest
  {
    if DecodeNames(md, s).Some? {
      NamesRestored(md, s);
    }
    forall source, destination, rest | s == EncodeLv(source) + EncodeLv(destination) + rest
      ensures DecodeNames(md, s).Some?
    {
      NamesRead(md, source, destination, rest);
    }
  }

  /** A data field is accepted exactly when it starts with the Metadata code, holds the
      flags and the file size, and goes on with two LVs; anything may follow them. */
  lemma AcceptedLanguage(s: octets, large: LargeFileFlag)
    ensures var fs := FileSizeOctets(large);
            Decode(s, large).Decoded? <==>
            && |s| >= fs + 2 && s[0] == DIRECTIVE_METADATA
            && exists source, destination, rest :: s[2 + fs..] == EncodeLv(source) + EncodeLv(destination) + rest
  {
    var fs := FileSizeOctets(large);
    if |s| >= fs + 2 {
      NamesAccepted(DecodeFlags(s[1], ReadId(s[2..2 + fs])), s[2 + fs..]);
    }
  }

  /** 65536 octets of options are accepted and reported as none. */
  lemma OptionsLost(s: octets)
    requires s == [DIRECTIVE_METADATA] + Zeros(7 + 0x1_0000)
    ensures Decode(s, SmallFile).Decoded? && Decode(s, SmallFile).consumed == |s|
    ensures |Trailer(s, SmallFile)| == 0x1_0000 && Decode(s, SmallFile).value.options == []
  {
    var names := s[6..];
    assert DecodeLv(names) == Decoded([], 1);
    assert DecodeLv(names[1..]) == Decoded([], 1);
  }
}
