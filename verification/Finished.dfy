/** The Finished PDU (src/cfdp_directive.c, section 5.2.3 of CCSDS 727.0-B-5): two
    fixed octets, a run of Filestore Response TLVs, and Entity ID TLVs that give the
    Fault Location. */
module Finished {
  import opened Octets
  import opened Header
  import opened Tlvs

  const DIRECTIVE_FINISHED: octet := 0x05
  const NO_ERROR: uint8 := 0x0
  const UNSUPPORTED_CHECKSUM_TYPE: uint8 := 0xB

  datatype FinishedPdu = FinishedPdu(
    condition: uint8,
    deliveryCode: uint8,
    fileStatus: uint8,
    responses: mediumOctets,
    faultLocation: EntityId)

  /** cfdp_fault_location_required */
  predicate FaultRequired(condition: uint8) {
    condition != NO_ERROR && condition != UNSUPPORTED_CHECKSUM_TYPE
  }

  predicate Encodable(fin: FinishedPdu) {
    FaultRequired(fin.condition) ==> IdLenValid(fin.faultLocation.len)
  }

  function CodesOctet(fin: FinishedPdu): octet {
    16 * (fin.condition % 16) + 4 * (fin.deliveryCode % 2) + fin.fileStatus % 4
  }

  /** The Fault Location as a list of TLVs. */
  function FaultTlvs(fin: FinishedPdu): seq<Tlv>
    requires Encodable(fin)
  {
    if FaultRequired(fin.condition) then [EntityTlv(fin.faultLocation)] else []
  }

  function EncodeFront(fin: FinishedPdu): octets {
    [DIRECTIVE_FINISHED, CodesOctet(fin)] + fin.responses
  }

  function Encode(fin: FinishedPdu): octets
    requires Encodable(fin)
  {
    EncodeFront(fin) + EncodeChain(FaultTlvs(fin))
  }

  /** The fixed octets and the responses in cfdp_finished_serialize. */
  method WriteFront(fin: FinishedPdu, buf: array<octet>, start: nat)
    requires start + |EncodeFront(fin)| <= buf.Length
    modifies buf
    ensures buf[..] == Splice(old(buf[..]), start, EncodeFront(fin))
  {
    ghost var before := buf[..];
    StorePair(buf, start, DIRECTIVE_FINISHED, CodesOctet(fin));
    CopyAppend(buf, start, 2, fin.responses, before, [DIRECTIVE_FINISHED, CodesOctet(fin)]);
  }

  /** cfdp_finished_serialize */
  method Serialize(fin: FinishedPdu, buf: array<octet>, start: nat, cap: nat) returns (n: nat)
    requires start + cap <= buf.Length
    modifies buf
    ensures n == if Encodable(fin) && |Encode(fin)| <= cap then |Encode(fin)| else 0
    ensures n > 0 ==> buf[..] == Splice(old(buf[..]), start, Encode(fin))
    ensures OnlyWithin(old(buf[..]), buf[..], start, cap)
  {
    if cap < 2 {
      return 0;
    }
    var withFaultLocation := FaultRequired(fin.condition);
    if withFaultLocation && fin.faultLocation.len == 0 {
      return 0;
    }
    var pos := 2 + |fin.responses|;
    if cap < pos {
      return 0;
    }
    ghost var before, front := buf[..], EncodeFront(fin);
    WriteFront(fin, buf, start);
    SpliceWithin(before, start, front, cap);
    if !withFaultLocation {
      assert Encode(fin) == front;
      return pos;
    }
    var m := EntityAppend(fin.faultLocation, buf, start, pos, cap, before, front);
    if m == 0 {
      return 0;
    }
    ChainOfOne(EntityTlv(fin.faultLocation));
    SpliceWithin(before, start, Encode(fin), cap);
    return pos + m;
  }

  // ---------------------------------------------------------------------------
  // Decoding
  // ---------------------------------------------------------------------------

  predicate IsResponse(t: Tlv) {
    t.kind == FILESTORE_RESPONSE
  }

  predicate AllResponses(ts: seq<Tlv>) {
    forall i :: 0 <= i < |ts| ==> IsResponse(ts[i])
  }

  predicate AllEntities(ts: seq<Tlv>) {
    forall i :: 0 <= i < |ts| ==> IsEntityTlv(ts[i])
  }

  /** The length of the leading run of Filestore Responses. */
  function Run(ts: seq<Tlv>): (k: nat)
    ensures k <= |ts|
  {
    if ts == [] || !IsResponse(ts[0]) then 0 else 1 + Run(ts[1..])
  }

  /** The last Entity ID wins. */
  function FaultOf(es: seq<Tlv>): EntityId
    requires AllEntities(es)
  {
    if es == [] then NO_ENTITY else EntityOf(es[|es| - 1])
  }

  function DecodeCodes(o: octet, responses: mediumOctets, fault: EntityId): FinishedPdu {
    FinishedPdu(o / 16 % 16, o / 4 % 2, o % 4, responses, fault)
  }

  /** The span of the run, its length cast to 16 bits. */
  function RunSpan(body: octets, rs: seq<Tlv>): mediumOctets
    requires |EncodeChain(rs)| <= |body|
  {
    body[..|EncodeChain(rs)| % 0x1_0000]
  }

  /** The TLVs behind the two fixed octets: a run of responses, then entities. */
  function DecodeTlvs(codes: octet, body: octets): Option<FinishedPdu> {
    match Walk(body)
    case None => None
    case Some(ts) =>
      var k := Run(ts);
      if !AllEntities(ts[k..]) then None
      else
        WalkedPrefix(body, ts, k);
        Some(DecodeCodes(codes, RunSpan(body, ts[..k]), FaultOf(ts[k..])))
  }

  function Decode(s: octets): Decoding<FinishedPdu> {
    if |s| < 2 || s[0] != DIRECTIVE_FINISHED then Malformed
    else
      match DecodeTlvs(s[1], s[2..])
      case None => Malformed
      case Some(fin) => Decoded(fin, |s|)
  }

  lemma WalkedPrefix(body: octets, ts: seq<Tlv>, k: nat)
    requires Walk(body) == Some(ts) && k <= |ts|
    ensures EncodeChain(ts[..k]) + EncodeChain(ts[k..]) == body
  {
    EncodeOfWalk(body);
    ChainSplit(ts[..k], ts[k..]);
    assert ts[..k] + ts[k..] == ts;
  }

  lemma {:induction false} RunUnique(rs: seq<Tlv>, es: seq<Tlv>)
    requires AllResponses(rs) && AllEntities(es)
    ensures Run(rs + es) == |rs|
  {
    if rs == [] {
      assert rs + es == es;
    } else {
      assert (rs + es)[1..] == rs[1..] + es;
      RunUnique(rs[1..], es);
    }
  }

  lemma {:induction false} RunResponses(ts: seq<Tlv>)
    ensures forall i :: 0 <= i < Run(ts) ==> IsResponse(ts[i])
  {
    if ts != [] && IsResponse(ts[0]) {
      RunResponses(ts[1..]);
      assert forall i :: 0 < i < |ts| ==> ts[i] == ts[1..][i - 1];
    }
  }

  lemma {:induction false} RunStops(ts: seq<Tlv>, i: nat)
    requires i < |ts| && !IsResponse(ts[i])
    ensures Run(ts) <= i
  {
    if i > 0 {
      RunStops(ts[1..], i - 1);
    }
  }

  /** Nothing is accepted once a TLV of another kind, or a response behind an entity,
      has been seen. */
  lemma Rejected(ts: seq<Tlv>, i: nat)
    requires i < |ts| && !IsEntityTlv(ts[i])
    requires IsResponse(ts[i]) ==> i > 0 && IsEntityTlv(ts[i - 1])
    ensures !AllEntities(ts[Run(ts)..])
  {
    RunStops(ts, if IsResponse(ts[i]) then i - 1 else i);
    assert ts[Run(ts)..][i - Run(ts)] == ts[i];
  }

  /** The state of cfdp_finished_parse_tlvs at `pos`, when it has passed the responses `rs`
      and the entities `es`. */
  ghost predicate Seen(codes: octet, body: octets, pos: nat, rs: seq<Tlv>, es: seq<Tlv>, fin: FinishedPdu) {
    && pos <= |body| && EncodeChain(rs + es) == body[..pos]
    && AllResponses(rs) && AllEntities(es) && |EncodeChain(rs)| <= pos
    && fin == DecodeCodes(codes, RunSpan(body, rs), FaultOf(es))
  }

  /** What the loop of cfdp_finished_parse_tlvs does with the TLV `t` of `n` octets. */
  method TakeTlv(codes: octet, body: octets, pos: nat, fin: FinishedPdu, t: Tlv, n: nat,
                 ghost rs: seq<Tlv>, ghost es: seq<Tlv>)
    returns (ok: bool, next: FinishedPdu, ghost rs': seq<Tlv>, ghost es': seq<Tlv>)
    requires Seen(codes, body, pos, rs, es, fin) && pos < |body| && DecodeTlv(body[pos..]) == Decoded(t, n)
    ensures ok ==> pos + n <= |body| && Seen(codes, body, pos + n, rs', es', next)
    ensures !ok ==> DecodeTlvs(codes, body).None?
  {
    FaultSeen(es);
    next, rs', es' := fin, rs, es;
    if t.kind == FILESTORE_RESPONSE {
      if fin.faultLocation.len > 0 {
        StepFails(codes, body, pos, rs, es);
        return false, fin, rs, es;
      }
      SeenResponse(codes, body, pos, rs, fin, t, n);
      next := fin.(responses := body[..(pos + n) % 0x1_0000]);
      rs' := rs + [t];
    } else if t.kind == ENTITY_ID {
      var m, entity := EntityDeserialize(body[pos..]);
      if m == 0 {
        StepFails(codes, body, pos, rs, es);
        return false, fin, rs, es;
      }
      SeenEntity(codes, body, pos, rs, es, fin, t, n);
      next := fin.(faultLocation := entity);
      es' := es + [t];
    } else {
      StepFails(codes, body, pos, rs, es);
      return false, fin, rs, es;
    }
    return true, next, rs', es';
  }

  /** cfdp_finished_parse_tlvs on the octets behind the fixed ones. */
  method ParseTlvs(codes: octet, body: octets) returns (ok: bool, fin: FinishedPdu)
    ensures DecodeTlvs(codes, body) == if ok then Some(fin) else None
  {
    fin := DecodeCodes(codes, [], NO_ENTITY);
    var pos := 0;
    ghost var rs: seq<Tlv>, es: seq<Tlv> := [], [];
    while pos < |body|
      invariant Seen(codes, body, pos, rs, es, fin)
      decreases |body| - pos
    {
      var n, t := TlvDeserialize(body[pos..]);
      if n == 0 {
        WalkFails(body, pos, rs + es);
        return false, fin;
      }
      ok, fin, rs, es := TakeTlv(codes, body, pos, fin, t, n, rs, es);
      if !ok {
        return false, fin;
      }
      pos := pos + n;
    }
    Finish(codes, body, rs, es);
    return true, fin;
  }

  lemma SeenResponse(codes: octet, body: octets, pos: nat, rs: seq<Tlv>, fin: FinishedPdu, t: Tlv, n: nat)
    requires Seen(codes, body, pos, rs, [], fin) && pos < |body|
    requires DecodeTlv(body[pos..]) == Decoded(t, n) && IsResponse(t)
    ensures pos + n <= |body|
    ensures Seen(codes, body, pos + n, rs + [t], [], fin.(responses := body[..(pos + n) % 0x1_0000]))
  {
    assert rs + [] == rs && rs + [t] + [] == rs + [t];
    NextTlv(body, pos, rs);
  }

  lemma SeenEntity(codes: octet, body: octets, pos: nat, rs: seq<Tlv>, es: seq<Tlv>, fin: FinishedPdu, t: Tlv, n: nat)
    requires Seen(codes, body, pos, rs, es, fin) && pos < |body|
    requires DecodeTlv(body[pos..]) == Decoded(t, n) && IsEntityTlv(t)
    ensures pos + n <= |body|
    ensures Seen(codes, body, pos + n, rs, es + [t], fin.(faultLocation := EntityOf(t)))
  {
    NextTlv(body, pos, rs + es);
    assert rs + es + [t] == rs + (es + [t]);
  }

  lemma WalkFails(body: octets, pos: nat, seen: seq<Tlv>)
    requires pos < |body| && EncodeChain(seen) == body[..pos] && DecodeTlv(body[pos..]).Malformed?
    ensures Walk(body).None?
  {
    WalkBehind(seen, body[pos..]);
    TwoParts(body, pos);
  }

  lemma NextTlv(body: octets, pos: nat, seen: seq<Tlv>)
    requires pos < |body| && EncodeChain(seen) == body[..pos] && DecodeTlv(body[pos..]).Decoded?
    ensures var t, n := DecodeTlv(body[pos..]).value, DecodeTlv(body[pos..]).consumed;
            EncodeChain(seen + [t]) == body[..pos + n]
  {
    var t, n := DecodeTlv(body[pos..]).value, DecodeTlv(body[pos..]).consumed;
    ChainSplit(seen, [t]);
    ChainOfOne(t);
    TlvEncodeOfDecode(body[pos..]);
    assert body[..pos] + body[pos..][..n] == body[..pos + n];
  }

  lemma WalkGoesOn(body: octets, pos: nat, seen: seq<Tlv>)
    requires pos < |body| && EncodeChain(seen) == body[..pos] && DecodeTlv(body[pos..]).Decoded?
    ensures Walk(body).Some? ==> |Walk(body).value| > |seen|
    ensures Walk(body).Some? ==> Walk(body).value[..|seen|] == seen
    ensures Walk(body).Some? ==> Walk(body).value[|seen|] == DecodeTlv(body[pos..]).value
  {
    WalkBehind(seen, body[pos..]);
    TwoParts(body, pos);
  }

  lemma StepFails(codes: octet, body: octets, pos: nat, rs: seq<Tlv>, es: seq<Tlv>)
    requires AllResponses(rs) && AllEntities(es)
    requires pos < |body| && EncodeChain(rs + es) == body[..pos] && DecodeTlv(body[pos..]).Decoded?
    requires var t := DecodeTlv(body[pos..]).value;
             !IsEntityTlv(t) && (IsResponse(t) ==> es != [])
    ensures DecodeTlvs(codes, body).None?
  {
    WalkGoesOn(body, pos, rs + es);
    if Walk(body).Some? {
      var ts, i := Walk(body).value, |rs + es|;
      if es != [] {
        assert ts[i - 1] == (rs + es)[i - 1] == es[|es| - 1];
      }
      Rejected(ts, i);
    }
  }

  lemma FaultSeen(es: seq<Tlv>)
    requires AllEntities(es)
    ensures FaultOf(es).len > 0 <==> es != []
  {
  }

  /** `body` is a run of responses followed by entities, with nothing left over. */
  predicate Grammar(body: octets, rs: seq<Tlv>, es: seq<Tlv>) {
    AllResponses(rs) && AllEntities(es) && EncodeChain(rs + es) == body
  }

  lemma Finish(codes: octet, body: octets, rs: seq<Tlv>, es: seq<Tlv>)
    requires Grammar(body, rs, es)
    ensures |EncodeChain(rs)| <= |body| && body[..|EncodeChain(rs)|] == EncodeChain(rs)
    ensures DecodeTlvs(codes, body) == Some(DecodeCodes(codes, RunSpan(body, rs), FaultOf(es)))
  {
    WalkOfEncode(rs + es);
    RunUnique(rs, es);
    WalkedPrefix(body, rs + es, |rs|);
    assert (rs + es)[..|rs|] == rs && (rs + es)[|rs|..] == es;
  }

  /** cfdp_finished_deserialize */
  method Deserialize(s: octets) returns (n: nat, fin: FinishedPdu)
    ensures Decode(s) == if n > 0 then Decoded(fin, n) else Malformed
  {
    if |s| < 2 || s[0] != DIRECTIVE_FINISHED {
      return 0, DecodeCodes(0, [], NO_ENTITY);
    }
    var ok;
    ok, fin := ParseTlvs(s[1], s[2..]);
    return if ok then |s| else 0, fin;
  }

  // ---------------------------------------------------------------------------
  // The grammar, and round trips
  // ---------------------------------------------------------------------------

  lemma SplitAt(ts: seq<Tlv>, k: nat)
    requires k <= |ts| && forall i :: 0 <= i < k ==> IsResponse(ts[i])
    ensures AllResponses(ts[..k]) && ts[..k] + ts[k..] == ts
  {
  }

  lemma Accepted(codes: octet, body: octets) returns (rs: seq<Tlv>, es: seq<Tlv>)
    requires DecodeTlvs(codes, body).Some?
    ensures Grammar(body, rs, es)
  {
    var ts := Walk(body).value;
    rs, es := ts[..Run(ts)], ts[Run(ts)..];
    EncodeOfWalk(body);
    RunResponses(ts);
    SplitAt(ts, Run(ts));
  }

  /** A data field is accepted exactly when it is the Finished code, the codes octet,
      and a run of responses followed by entities with nothing left over. */
  lemma AcceptedLanguage(s: octets)
    ensures Decode(s).Decoded? <==>
            |s| >= 2 && s[0] == DIRECTIVE_FINISHED && exists rs, es :: Grammar(s[2..], rs, es)
  {
    if Decode(s).Decoded? {
      var rs, es := Accepted(s[1], s[2..]);
    }
    if |s| >= 2 {
      forall rs, es | Grammar(s[2..], rs, es)
        ensures DecodeTlvs(s[1], s[2..]).Some?
      {
        Finish(s[1], s[2..], rs, es);
      }
    }
  }

  lemma SpanOfPrefix(body: octets, span: octets, m: nat)
    requires m <= |span| <= |body| && body[..|span|] == span
    ensures body[..m] == span[..m]
  {
  }

  lemma Truncated(body: octets, rs: seq<Tlv>)
    requires |EncodeChain(rs)| <= |body| && body[..|EncodeChain(rs)|] == EncodeChain(rs)
    ensures RunSpan(body, rs) == EncodeChain(rs)[..|EncodeChain(rs)| % 0x1_0000]
    ensures RunSpan(body, rs) == EncodeChain(rs) <==> |EncodeChain(rs)| <= 0xFFFF
  {
    SpanOfPrefix(body, EncodeChain(rs), |EncodeChain(rs)| % 0x1_0000);
    if |EncodeChain(rs)| > 0xFFFF {
      assert |RunSpan(body, rs)| != |EncodeChain(rs)|;
    }
  }

  /** What is reported of an accepted data field: the last entity as Fault Location,
      every octet as consumed, and of the leading run as many octets as its length,
      cast to the 16-bit field of the C structure, says. So the responses are exactly the
      run if and only if it fits. A PDU data field always does; a longer buffer loses a
      multiple of 65536 octets silently. */
  lemma Reported(s: octets, rs: seq<Tlv>, es: seq<Tlv>)
    requires |s| >= 2 && s[0] == DIRECTIVE_FINISHED && Grammar(s[2..], rs, es)
    ensures Decode(s).Decoded? && Decode(s).consumed == |s|
    ensures Decode(s).value.faultLocation == FaultOf(es)
    ensures Decode(s).value.responses == EncodeChain(rs)[..|EncodeChain(rs)| % 0x1_0000]
    ensures Decode(s).value.responses == EncodeChain(rs) <==> |EncodeChain(rs)| <= 0xFFFF
  {
    Finish(s[1], s[2..], rs, es);
    Truncated(s[2..], rs);
  }

  /** What survives the wire of a PDU: the codes in their bit widths, the responses,
      and the Fault Location exactly when the condition requires one. */
  function OnTheWire(fin: FinishedPdu): FinishedPdu {
    FinishedPdu(fin.condition % 16, fin.deliveryCode % 2, fin.fileStatus % 4, fin.responses,
                if FaultRequired(fin.condition) then EntityOnTheWire(fin.faultLocation) else NO_ENTITY)
  }

  lemma CodesRoundTrip(fin: FinishedPdu, o: octet)
    requires o == CodesOctet(fin)
    ensures o / 16 % 16 == fin.condition % 16 && o / 4 % 2 == fin.deliveryCode % 2 && o % 4 == fin.fileStatus % 4
  {
    var c: nat, d: nat, f: nat := fin.condition % 16, fin.deliveryCode % 2, fin.fileStatus % 4;
    assert o / 4 == 4 * c + d;
    assert o / 16 == c;
  }

  lemma FaultRoundTrip(fin: FinishedPdu)
    requires Encodable(fin)
    ensures AllEntities(FaultTlvs(fin)) && FaultOf(FaultTlvs(fin)) == OnTheWire(fin).faultLocation
    ensures |EncodeChain(FaultTlvs(fin))| <= 10
  {
    if FaultRequired(fin.condition) {
      EntityRoundTrip(fin.faultLocation);
      ChainOfOne(EntityTlv(fin.faultLocation));
    }
  }

  lemma EncodedParts(fin: FinishedPdu)
    requires Encodable(fin)
    ensures Encode(fin)[0] == DIRECTIVE_FINISHED && Encode(fin)[1] == CodesOctet(fin)
    ensures Encode(fin)[2..] == fin.responses + EncodeChain(FaultTlvs(fin))
  {
    Parts([DIRECTIVE_FINISHED, CodesOctet(fin)], fin.responses, EncodeChain(FaultTlvs(fin)));
  }

  lemma GoodBody(fin: FinishedPdu, rs: seq<Tlv>, body: octets)
    requires Encodable(fin) && AllResponses(rs) && EncodeChain(rs) == fin.responses
    requires body == fin.responses + EncodeChain(FaultTlvs(fin))
    ensures DecodeTlvs(CodesOctet(fin), body) == Some(OnTheWire(fin))
  {
    FaultRoundTrip(fin);
    CodesRoundTrip(fin, CodesOctet(fin));
    ChainSplit(rs, FaultTlvs(fin));
    Finish(CodesOctet(fin), body, rs, FaultTlvs(fin));
    Truncated(body, rs);
  }

  /** A span of which the decoder returns its length modulo 65536 was returned whole if
      at most ten octets lie behind what it returned. */
  lemma WholeSpan(body: octets, responses: octets, tail: octets, span: octets)
    requires body == responses + tail && |tail| <= 10
    requires |span| <= |body| && body[..|span|] == span && |responses| == |span| % 0x1_0000
    ensures responses == span
  {
    NothingLost(|span|, |responses|, |tail|);
  }

  lemma NothingLost(span: nat, m: nat, tail: nat)
    requires m == span % 0x1_0000 && span <= m + tail && tail <= 10
    ensures span == m
  {
  }

  lemma ReportedSpan(codes: octet, body: octets, rs: seq<Tlv>, es: seq<Tlv>, fin: FinishedPdu)
    requires Grammar(body, rs, es) && DecodeTlvs(codes, body) == Some(fin)
    ensures |EncodeChain(rs)| <= |body| && body[..|EncodeChain(rs)|] == EncodeChain(rs)
    ensures |fin.responses| == |EncodeChain(rs)| % 0x1_0000
  {
    Finish(codes, body, rs, es);
    SpanLength(body, rs);
  }

  lemma SpanLength(body: octets, rs: seq<Tlv>)
    requires |EncodeChain(rs)| <= |body|
    ensures |RunSpan(body, rs)| == |EncodeChain(rs)| % 0x1_0000
  {
  }

  lemma OnlyGoodBody(fin: FinishedPdu, body: octets) returns (rs: seq<Tlv>)
    requires Encodable(fin) && body == fin.responses + EncodeChain(FaultTlvs(fin))
    requires DecodeTlvs(CodesOctet(fin), body) == Some(OnTheWire(fin))
    ensures AllResponses(rs) && EncodeChain(rs) == fin.responses
  {
    var es;
    rs, es := Accepted(CodesOctet(fin), body);
    ReportedSpan(CodesOctet(fin), body, rs, es, OnTheWire(fin));
    FaultRoundTrip(fin);
    WholeSpan(body, fin.responses, EncodeChain(FaultTlvs(fin)), EncodeChain(rs));
  }

  /** Decoding what was encoded returns the PDU as it is on the wire and uses every
      octet exactly when the caller's responses are a chain of Filestore Response TLVs;
      the serialiser copies them unchecked. */
  lemma DecodeOfEncode(fin: FinishedPdu)
    requires Encodable(fin)
    ensures Decode(Encode(fin)) == Decoded(OnTheWire(fin), |Encode(fin)|)
            <==> exists rs :: AllResponses(rs) && EncodeChain(rs) == fin.responses
  {
    var body := Encode(fin)[2..];
    EncodedParts(fin);
    if DecodeTlvs(CodesOctet(fin), body) == Some(OnTheWire(fin)) {
      var rs := OnlyGoodBody(fin, body);
    }
    forall rs | AllResponses(rs) && EncodeChain(rs) == fin.responses
      ensures DecodeTlvs(CodesOctet(fin), body) == Some(OnTheWire(fin))
    {
      GoodBody(fin, rs, body);
    }
  }

  lemma {:induction false} ChainLength(ts: seq<Tlv>)
    ensures |EncodeChain(ts)| >= TLV_HEADER_LEN * |ts|
  {
    if ts != [] {
      ChainLength(ts[1..]);
    }
  }

  /** The Fault Location written for a decoded PDU is its last entity. */
  lemma LastEntity(fin: FinishedPdu, es: seq<Tlv>)
    requires AllEntities(es) && es != [] && fin.faultLocation == FaultOf(es) && FaultRequired(fin.condition)
    ensures Encodable(fin) && FaultTlvs(fin) == [es[|es| - 1]]
    ensures |EncodeChain(es)| >= |EncodeChain(FaultTlvs(fin))| + TLV_HEADER_LEN * (|es| - 1)
  {
    var k := |es| - 1;
    EntityRestored(es[k]);
    ChainSplit(es[..k], [es[k]]);
    ChainLength(es[..k]);
    assert es == es[..k] + [es[k]];
  }

  /** One entity where the condition requires a Fault Location, none where it does not. */
  predicate FaultAsRequired(condition: uint8, es: seq<Tlv>) {
    |es| == if FaultRequired(condition) then 1 else 0
  }

  lemma FaultRestored(fin: FinishedPdu, es: seq<Tlv>)
    requires AllEntities(es) && fin.faultLocation == FaultOf(es)
    ensures FaultAsRequired(fin.condition, es) ==> Encodable(fin) && FaultTlvs(fin) == es
    ensures !FaultAsRequired(fin.condition, es) && Encodable(fin) ==> |EncodeChain(FaultTlvs(fin))| < |EncodeChain(es)|
  {
    FaultSeen(es);
    ChainLength(es);
    if FaultRequired(fin.condition) && es != [] {
      LastEntity(fin, es);
    }
  }

  /** The data field with the spare bit of its codes octet cleared. */
  function Canonical(s: octets): octets
    requires |s| >= 2
  {
    s[1 := s[1] - 8 * (s[1] / 8 % 2)]
  }

  lemma CodesRestored(o: octet, responses: mediumOctets, fault: EntityId)
    ensures CodesOctet(DecodeCodes(o, responses, fault)) == o - 8 * (o / 8 % 2)
  {
    CodesDigits(o);
  }

  lemma CodesDigits(o: octet)
    ensures 16 * (o / 16 % 16) + 4 * (o / 4 % 2) + o % 4 == o - 8 * (o / 8 % 2)
  {
    assert o / 8 == o / 4 / 2;
    assert o / 16 == o / 8 / 2;
  }

  /** What an accepted PDU was decoded to, all in one. */
  lemma DecodedAs(s: octets, rs: seq<Tlv>, es: seq<Tlv>, span: octets, responses: mediumOctets)
    requires |s| >= 2 && s[0] == DIRECTIVE_FINISHED && Grammar(s[2..], rs, es)
    requires span == EncodeChain(rs) && responses == span[..|span| % 0x1_0000]
    ensures Decode(s) == Decoded(DecodeCodes(s[1], responses, FaultOf(es)), |s|)
  {
    Finish(s[1], s[2..], rs, es);
    SpanOfPrefix(s[2..], span, |span| % 0x1_0000);
  }

  lemma Prefix(span: octets, m: nat)
    requires m == |span| % 0x1_0000
    ensures m <= |span| && (span[..m] == span <==> |span| <= 0xFFFF) && (|span| > 0xFFFF ==> m < |span|)
  {
  }

  lemma Reencoded(s: octets, fin: FinishedPdu, span: octets, es: seq<Tlv>)
    requires |s| >= 2 && s[0] == DIRECTIVE_FINISHED && s[2..] == span + EncodeChain(es)
    requires AllEntities(es) && fin.faultLocation == FaultOf(es)
    requires CodesOctet(fin) == s[1] - 8 * (s[1] / 8 % 2) && fin.responses == span[..|span| % 0x1_0000]
    ensures Encodable(fin) && Encode(fin) == Canonical(s)
            <==> |span| <= 0xFFFF && FaultAsRequired(fin.condition, es)
  {
    FaultRestored(fin, es);
    Prefix(span, |span| % 0x1_0000);
    if Encodable(fin) {
      Rebuilt(s, CodesOctet(fin), fin.responses, EncodeChain(FaultTlvs(fin)), span, EncodeChain(es));
    }
  }

  lemma ReencodedCodes(s: octets, responses: mediumOctets, span: octets, es: seq<Tlv>)
    requires |s| >= 2 && s[0] == DIRECTIVE_FINISHED && s[2..] == span + EncodeChain(es)
    requires AllEntities(es) && responses == span[..|span| % 0x1_0000]
    ensures var fin := DecodeCodes(s[1], responses, FaultOf(es));
            Encodable(fin) && Encode(fin) == Canonical(s)
            <==> |span| <= 0xFFFF && FaultAsRequired(s[1] / 16, es)
  {
    CodesRestored(s[1], responses, FaultOf(es));
    Reencoded(s, DecodeCodes(s[1], responses, FaultOf(es)), span, es);
  }

  /** A strict reading of section 5.2.3: an accepted data field re-encodes to its own
      octets with the spare bit cleared exactly when the run fits the 16-bit length and
      the Fault Location is there exactly when the condition in the high nibble of octet
      1 requires it. The decoder itself asks for neither. */
  lemma EncodeOfDecode(s: octets, rs: seq<Tlv>, es: seq<Tlv>)
    requires |s| >= 2 && s[0] == DIRECTIVE_FINISHED && Grammar(s[2..], rs, es)
    ensures Decode(s).Decoded?
    ensures var fin := Decode(s).value;
            Encodable(fin) && Encode(fin) == Canonical(s)
            <==> |EncodeChain(rs)| <= 0xFFFF && FaultAsRequired(s[1] / 16, es)
  {
    var span := EncodeChain(rs);
    var responses := span[..|span| % 0x1_0000];
    DecodedAs(s, rs, es, span, responses);
    ChainSplit(rs, es);
    ReencodedCodes(s, responses, span, es);
  }

  lemma Rebuilt(s: octets, codes: octet, a: octets, b: octets, span: octets, tail: octets)
    requires |s| >= 2 && s[2..] == span + tail && |a| <= |span| && |b| <= |tail|
    ensures a == span && b == tail ==> [s[0], codes] + a + b == s[1 := codes]
    ensures |a| < |span| || |b| < |tail| ==> [s[0], codes] + a + b != s[1 := codes]
  {
    if a == span && b == tail {
      assert s[1 := codes] == [s[0], codes] + s[2..];
    } else if |a| < |span| || |b| < |tail| {
      assert |[s[0], codes] + a + b| < |s|;
    }
  }

  // ---------------------------------------------------------------------------
  // Inputs on which the stronger readings fail
  // ---------------------------------------------------------------------------

  function Copies(t: Tlv, n: nat): (ts: seq<Tlv>)
    ensures |ts| == n && forall i :: 0 <= i < n ==> ts[i] == t
  {
    seq(n, _ => t)
  }

  lemma {:induction false} CopiesLength(t: Tlv, n: nat)
    ensures |EncodeChain(Copies(t, n))| == n * (|t.value| + TLV_HEADER_LEN)
  {
    if n > 0 {
      assert Copies(t, n)[1..] == Copies(t, n - 1);
      CopiesLength(t, n - 1);
    }
  }

  /** 256 responses of 256 octets are accepted and reported as none. */
  lemma ResponsesLost(s: octets, rs: seq<Tlv>)
    requires rs == Copies(TypeLengthValue(FILESTORE_RESPONSE, Zeros(254)), 256)
    requires s == [DIRECTIVE_FINISHED, 0] + EncodeChain(rs)
    ensures Grammar(s[2..], rs, []) && |EncodeChain(rs)| == 0x1_0000
    ensures Decode(s).Decoded? && Decode(s).consumed == |s| && Decode(s).value.responses == []
  {
    var t := TypeLengthValue(FILESTORE_RESPONSE, Zeros(254));
    CopiesLength(t, 256);
    assert s[2..] == EncodeChain(rs) && rs + [] == rs;
    Finish(s[1], s[2..], rs, []);
  }

  /** A single stray octet given as responses is written and cannot be decoded. */
  lemma ResponsesUnchecked(fin: FinishedPdu)
    requires fin == FinishedPdu(NO_ERROR, 0, 0, [0], NO_ENTITY)
    ensures Encodable(fin) && Decode(Encode(fin)) == Malformed
  {
    assert Encode(fin)[2..] == [0];
    assert DecodeTlv([0]) == Malformed;
  }
}
