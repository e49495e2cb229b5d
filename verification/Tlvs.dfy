/** LV and TLV objects (src/cfdp_tlv.c, sections 5.1.8, 5.1.9 and 5.4.6 of
    CCSDS 727.0-B-5), and chains of TLVs. */
module Tlvs {
  import opened Octets
  import opened Endian
  import opened Header

  const LV_HEADER_LEN: nat := 1
  const TLV_HEADER_LEN: nat := 2

  const FILESTORE_REQUEST: octet := 0x00
  const FILESTORE_RESPONSE: octet := 0x01
  const ENTITY_ID: octet := 0x06

  // ---------------------------------------------------------------------------
  // LV
  // ---------------------------------------------------------------------------

  function EncodeLv(value: shortOctets): (s: octets)
    ensures |s| == |value| + LV_HEADER_LEN
  {
    [|value|] + value
  }

  function DecodeLv(s: octets): (r: Decoding<shortOctets>)
    ensures r.Decoded? ==> 0 < r.consumed <= |s|
  {
    if |s| < LV_HEADER_LEN || |s| < s[0] + LV_HEADER_LEN then Malformed
    else Decoded(s[LV_HEADER_LEN..s[0] + LV_HEADER_LEN], s[0] + LV_HEADER_LEN)
  }

  /** cfdp_lv_serialize */
  method LvSerialize(value: shortOctets, buf: array<octet>, start: nat, cap: nat) returns (n: nat)
    requires start + cap <= buf.Length
    modifies buf
    ensures n == if |EncodeLv(value)| <= cap then |EncodeLv(value)| else 0
    ensures buf[..] == if n > 0 then Splice(old(buf[..]), start, EncodeLv(value)) else old(buf[..])
  {
    if cap < |value| + LV_HEADER_LEN {
      return 0;
    }
    ghost var before := buf[..];
    Store(buf, start, |value|);
    Copy(buf, start + LV_HEADER_LEN, value);
    SpliceTwice(before, start, [|value|], value);
    return |value| + LV_HEADER_LEN;
  }

  /** cfdp_lv_serialize called on `&buf[pos]` with what is left of the capacity, behind
      the octets `done` already written. */
  method LvAppend(value: shortOctets, buf: array<octet>, start: nat, pos: nat, cap: nat,
                  ghost before: octets, ghost done: octets) returns (n: nat)
    requires start + cap <= buf.Length == |before| && |done| == pos <= cap
    requires buf[..] == Splice(before, start, done)
    modifies buf
    ensures n == if pos + |EncodeLv(value)| <= cap then |EncodeLv(value)| else 0
    ensures buf[..] == Splice(before, start, if n > 0 then done + EncodeLv(value) else done)
  {
    n := LvSerialize(value, buf, start + pos, cap - pos);
    if n > 0 {
      SpliceTwice(before, start, done, EncodeLv(value));
    }
  }

  /** cfdp_lv_deserialize */
  method LvDeserialize(s: octets) returns (n: nat, value: shortOctets)
    ensures DecodeLv(s) == if n > 0 then Decoded(value, n) else Malformed
  {
    if |s| < LV_HEADER_LEN {
      return 0, [];
    }
    var len := s[0];
    if |s| < len + LV_HEADER_LEN {
      return 0, [];
    }
    return len + LV_HEADER_LEN, s[LV_HEADER_LEN..len + LV_HEADER_LEN];
  }

  lemma LvDecodeOfEncode(value: shortOctets, rest: octets)
    ensures DecodeLv(EncodeLv(value) + rest) == Decoded(value, |EncodeLv(value)|)
  {
    Parts([|value|], value, rest);
  }

  lemma LvEncodeOfDecode(s: octets)
    requires DecodeLv(s).Decoded?
    ensures EncodeLv(DecodeLv(s).value) == s[..DecodeLv(s).consumed]
  {
  }

  // ---------------------------------------------------------------------------
  // TLV
  // ---------------------------------------------------------------------------

  datatype Tlv = TypeLengthValue(kind: octet, value: shortOctets)

  function EncodeTlv(t: Tlv): (s: octets)
    ensures |s| == |t.value| + TLV_HEADER_LEN
  {
    [t.kind, |t.value|] + t.value
  }

  function DecodeTlv(s: octets): (r: Decoding<Tlv>)
    ensures r.Decoded? ==> TLV_HEADER_LEN <= r.consumed <= |s| && r.consumed == |EncodeTlv(r.value)|
  {
    if |s| < TLV_HEADER_LEN || |s| < s[1] + TLV_HEADER_LEN then Malformed
    else Decoded(TypeLengthValue(s[0], s[TLV_HEADER_LEN..s[1] + TLV_HEADER_LEN]), s[1] + TLV_HEADER_LEN)
  }

  /** cfdp_tlv_serialize */
  method TlvSerialize(t: Tlv, buf: array<octet>, start: nat, cap: nat) returns (n: nat)
    requires start + cap <= buf.Length
    modifies buf
    ensures n == if |EncodeTlv(t)| <= cap then |EncodeTlv(t)| else 0
    ensures buf[..] == if n > 0 then Splice(old(buf[..]), start, EncodeTlv(t)) else old(buf[..])
  {
    if cap < |t.value| + TLV_HEADER_LEN {
      return 0;
    }
    ghost var before := buf[..];
    StorePair(buf, start, t.kind, |t.value|);
    Copy(buf, start + TLV_HEADER_LEN, t.value);
    SpliceTwice(before, start, [t.kind, |t.value|], t.value);
    return |t.value| + TLV_HEADER_LEN;
  }

  /** cfdp_tlv_deserialize */
  method TlvDeserialize(s: octets) returns (n: nat, t: Tlv)
    ensures DecodeTlv(s) == if n > 0 then Decoded(t, n) else Malformed
  {
    t := TypeLengthValue(0, []);
    if |s| < TLV_HEADER_LEN {
      return 0, t;
    }
    var length := s[1];
    if |s| < length + TLV_HEADER_LEN {
      return 0, t;
    }
    return length + TLV_HEADER_LEN, TypeLengthValue(s[0], s[TLV_HEADER_LEN..length + TLV_HEADER_LEN]);
  }

  lemma TlvDecodeOfEncode(t: Tlv, rest: octets)
    ensures DecodeTlv(EncodeTlv(t) + rest) == Decoded(t, |EncodeTlv(t)|)
  {
    Parts([t.kind, |t.value|], t.value, rest);
  }

  lemma TlvEncodeOfDecode(s: octets)
    requires DecodeTlv(s).Decoded?
    ensures EncodeTlv(DecodeTlv(s).value) == s[..DecodeTlv(s).consumed]
  {
  }

  // ---------------------------------------------------------------------------
  // Chains
  // ---------------------------------------------------------------------------

  function EncodeChain(ts: seq<Tlv>): octets {
    if ts == [] then [] else EncodeTlv(ts[0]) + EncodeChain(ts[1..])
  }

  /** Walking a buffer by repeated cfdp_tlv_deserialize until it is used up. */
  function Walk(s: octets): Option<seq<Tlv>>
    decreases |s|
  {
    if s == [] then Some([])
    else
      match DecodeTlv(s)
      case Malformed => None
      case Decoded(t, n) =>
        match Walk(s[n..])
        case None => None
        case Some(ts) => Some([t] + ts)
  }

  function Prepend(ts: seq<Tlv>, rest: Option<seq<Tlv>>): Option<seq<Tlv>> {
    match rest
    case None => None
    case Some(more) => Some(ts + more)
  }

  lemma PrependTwice(a: seq<Tlv>, b: seq<Tlv>, rest: Option<seq<Tlv>>)
    ensures Prepend([], rest) == rest
    ensures Prepend(a, Prepend(b, rest)) == Prepend(a + b, rest)
  {
    if rest.Some? {
      assert [] + rest.value == rest.value;
      assert a + (b + rest.value) == a + b + rest.value;
    }
  }

  lemma WalkOne(t: Tlv, rest: octets)
    ensures Walk(EncodeTlv(t) + rest) == Prepend([t], Walk(rest))
  {
    TlvDecodeOfEncode(t, rest);
    Parts(EncodeTlv(t), rest, []);
  }

  /** Walking past the encodings of `ts` returns them in front of what follows. */
  lemma {:induction false} WalkBehind(ts: seq<Tlv>, rest: octets)
    ensures Walk(EncodeChain(ts) + rest) == Prepend(ts, Walk(rest))
  {
    if ts == [] {
      assert EncodeChain(ts) + rest == rest;
      PrependTwice(ts, ts, Walk(rest));
    } else {
      Associate(EncodeTlv(ts[0]), EncodeChain(ts[1..]), rest);
      WalkOne(ts[0], EncodeChain(ts[1..]) + rest);
      WalkBehind(ts[1..], rest);
      PrependTwice([ts[0]], ts[1..], Walk(rest));
      assert [ts[0]] + ts[1..] == ts;
    }
  }

  /** Walking the concatenation of any list of TLVs returns precisely that list. */
  lemma WalkOfEncode(ts: seq<Tlv>)
    ensures Walk(EncodeChain(ts)) == Some(ts)
  {
    WalkBehind(ts, []);
    assert EncodeChain(ts) + [] == EncodeChain(ts) && ts + [] == ts;
  }

  /** A fully walked buffer is the concatenation of the re-encodings. */
  lemma {:induction false} EncodeOfWalk(s: octets)
    requires Walk(s).Some?
    ensures EncodeChain(Walk(s).value) == s
    decreases |s|
  {
    if s != [] {
      var t, n := DecodeTlv(s).value, DecodeTlv(s).consumed;
      TlvEncodeOfDecode(s);
      EncodeOfWalk(s[n..]);
      var ts := Walk(s[n..]).value;
      assert ([t] + ts)[1..] == ts;
      assert s == s[..n] + s[n..];
    }
  }

  /** So a buffer is walked to the end exactly when it encodes a list, and then only
      one list. */
  lemma UniquelyDecodable(s: octets, ts: seq<Tlv>)
    ensures Walk(s) == Some(ts) <==> EncodeChain(ts) == s
  {
    WalkOfEncode(ts);
    if Walk(s) == Some(ts) {
      EncodeOfWalk(s);
    }
  }

  lemma {:induction false} ChainSplit(a: seq<Tlv>, b: seq<Tlv>)
    ensures EncodeChain(a + b) == EncodeChain(a) + EncodeChain(b)
  {
    if a == [] {
      assert a + b == b;
    } else {
      assert (a + b)[1..] == a[1..] + b;
      ChainSplit(a[1..], b);
    }
  }

  lemma ChainOfOne(t: Tlv)
    ensures EncodeChain([t]) == EncodeTlv(t)
  {
    assert [t][1..] == [];
  }

  // ---------------------------------------------------------------------------
  // Entity ID
  // ---------------------------------------------------------------------------

  /** An entity identifier and the number of octets it occupies; length 0 stands for
      an absent Fault Location. */
  datatype EntityId = EntityId(id: uint64, len: uint8)

  const NO_ENTITY: EntityId := EntityId(0, 0)

  function EntityTlv(e: EntityId): Tlv
    requires IdLenValid(e.len)
  {
    TypeLengthValue(ENTITY_ID, BigEndian(e.id, e.len))
  }

  predicate IsEntityTlv(t: Tlv) {
    t.kind == ENTITY_ID && IdLenValid(|t.value|)
  }

  function EntityOf(t: Tlv): EntityId
    requires IsEntityTlv(t)
  {
    EntityId(ReadId(t.value), |t.value|)
  }

  function DecodeEntity(s: octets): Decoding<EntityId> {
    match DecodeTlv(s)
    case Malformed => Malformed
    case Decoded(t, n) => if IsEntityTlv(t) then Decoded(EntityOf(t), n) else Malformed
  }

  /** cfdp_entity_id_tlv_serialize */
  method EntitySerialize(e: EntityId, buf: array<octet>, start: nat, cap: nat) returns (n: nat)
    requires start + cap <= buf.Length
    modifies buf
    ensures n == if IdLenValid(e.len) && e.len + TLV_HEADER_LEN <= cap then e.len + TLV_HEADER_LEN else 0
    ensures buf[..] == if n > 0 then Splice(old(buf[..]), start, EncodeTlv(EntityTlv(e))) else old(buf[..])
  {
    if !IdLenValid(e.len) || cap < e.len + TLV_HEADER_LEN {
      return 0;
    }
    ghost var before := buf[..];
    StorePair(buf, start, ENTITY_ID, e.len);
    WriteUint(buf, start + TLV_HEADER_LEN, e.id, e.len);
    SpliceTwice(before, start, [ENTITY_ID, e.len], BigEndian(e.id, e.len));
    return e.len + TLV_HEADER_LEN;
  }

  /** cfdp_entity_id_tlv_serialize called on `&buf[pos]` with what is left of the
      capacity, behind the octets `done` already written. */
  method EntityAppend(e: EntityId, buf: array<octet>, start: nat, pos: nat, cap: nat,
                      ghost before: octets, ghost done: octets) returns (n: nat)
    requires start + cap <= buf.Length == |before| && |done| == pos <= cap
    requires buf[..] == Splice(before, start, done)
    modifies buf
    ensures n == if IdLenValid(e.len) && pos + e.len + TLV_HEADER_LEN <= cap then e.len + TLV_HEADER_LEN else 0
    ensures buf[..] == Splice(before, start, if n > 0 then done + EncodeTlv(EntityTlv(e)) else done)
  {
    n := EntitySerialize(e, buf, start + pos, cap - pos);
    if n > 0 {
      SpliceTwice(before, start, done, EncodeTlv(EntityTlv(e)));
    }
  }

  /** cfdp_entity_id_tlv_deserialize */
  method EntityDeserialize(s: octets) returns (n: nat, e: EntityId)
    ensures DecodeEntity(s) == if n > 0 then Decoded(e, n) else Malformed
  {
    var size, t := TlvDeserialize(s);
    if size == 0 || t.kind != ENTITY_ID || !IdLenValid(|t.value|) {
      return 0, NO_ENTITY;
    }
    var id := ReadUint(t.value, |t.value|);
    assert t.value[..|t.value|] == t.value;
    return |t.value| + TLV_HEADER_LEN, EntityId(id, |t.value|);
  }

  /** What the Entity ID TLV carries of an identifier. */
  function EntityOnTheWire(e: EntityId): EntityId {
    EntityId(LowOctets(e.id, e.len), e.len)
  }

  lemma EntityRoundTrip(e: EntityId)
    requires IdLenValid(e.len)
    ensures IsEntityTlv(EntityTlv(e)) && EntityOf(EntityTlv(e)) == EntityOnTheWire(e)
  {
    ReadOfWrite(e.id, e.len);
  }

  lemma EntityRestored(t: Tlv)
    requires IsEntityTlv(t)
    ensures EntityTlv(EntityOf(t)) == t && EntityOnTheWire(EntityOf(t)) == EntityOf(t)
  {
    Rewritten(t.value, |t.value|);
    ReadUnreduced(t.value);
  }

  /** Octets are accepted as an Entity ID exactly when they start with an Entity ID TLV. */
  lemma EntityAccepted(s: octets)
    ensures DecodeEntity(s).Decoded? <==> exists t, rest :: IsEntityTlv(t) && s == EncodeTlv(t) + rest
  {
    if DecodeEntity(s).Decoded? {
      var t, n := DecodeTlv(s).value, DecodeTlv(s).consumed;
      TlvEncodeOfDecode(s);
      TwoParts(s, n);
      assert IsEntityTlv(t) && s == EncodeTlv(t) + s[n..];
    }
    forall t, rest | IsEntityTlv(t) && s == EncodeTlv(t) + rest
      ensures DecodeEntity(s).Decoded?
    {
      TlvDecodeOfEncode(t, rest);
    }
  }
}
