/** Filestore Request and Response TLVs (src/cfdp_tlv.c, sections 5.4.1 and 5.4.2 of
    CCSDS 727.0-B-5): LVs that must fill the value of a TLV exactly. */
module Filestore {
  import opened Octets
  import opened Tlvs

  const RENAME_FILE: uint8 := 2
  const APPEND_FILE: uint8 := 3
  const REPLACE_FILE: uint8 := 4
  const DENY_DIRECTORY: uint8 := 8

  datatype Request = Request(action: uint8, first: shortOctets, second: shortOctets)

  datatype Response = Response(
    action: uint8,
    status: uint8,
    first: shortOctets,
    second: shortOctets,
    message: shortOctets)

  /** cfdp_filestore_action_has_second_filename */
  predicate HasSecond(action: uint8) {
    action == RENAME_FILE || action == APPEND_FILE || action == REPLACE_FILE
  }

  /** cfdp_filestore_action_valid */
  predicate ActionValid(action: uint8) {
    action <= DENY_DIRECTORY
  }

  // ---------------------------------------------------------------------------
  // File names
  // ---------------------------------------------------------------------------

  function EncodeNames(first: shortOctets, second: shortOctets, hasSecond: bool): (s: octets)
    ensures |s| > 0
  {
    EncodeLv(first) + if hasSecond then EncodeLv(second) else []
  }

  /** cfdp_filestore_names_serialize */
  method NamesSerialize(first: shortOctets, second: shortOctets, hasSecond: bool,
                        buf: array<octet>, start: nat, cap: nat) returns (n: nat)
    requires start + cap <= buf.Length
    modifies buf
    ensures var s := EncodeNames(first, second, hasSecond);
            && n == (if |s| <= cap then |s| else 0)
            && (n > 0 ==> buf[..] == Splice(old(buf[..]), start, s))
    ensures OnlyWithin(old(buf[..]), buf[..], start, cap)
  {
    ghost var before := buf[..];
    var pos := LvSerialize(first, buf, start, cap);
    if pos == 0 {
      return 0;
    }
    SpliceWithin(before, start, EncodeLv(first), cap);
    if hasSecond {
      var m := LvAppend(second, buf, start, pos, cap, before, EncodeLv(first));
      if m == 0 {
        return 0;
      }
      pos := pos + m;
      SpliceWithin(before, start, EncodeNames(first, second, hasSecond), cap);
    }
    return pos;
  }

  function DecodeNames(s: octets, hasSecond: bool): (r: Decoding<(shortOctets, shortOctets)>)
    ensures r.Decoded? ==> 0 < r.consumed <= |s|
  {
    match DecodeLv(s)
    case Malformed => Malformed
    case Decoded(first, n) =>
      if !hasSecond then Decoded((first, []), n)
      else
        match DecodeLv(s[n..])
        case Malformed => Malformed
        case Decoded(second, m) => Decoded((first, second), n + m)
  }

  /** cfdp_filestore_names_deserialize */
  method NamesDeserialize(s: octets, hasSecond: bool) returns (n: nat, first: shortOctets, second: shortOctets)
    ensures DecodeNames(s, hasSecond) == if n > 0 then Decoded((first, second), n) else Malformed
  {
    second := [];
    n, first := LvDeserialize(s);
    if n == 0 {
      return 0, first, second;
    }
    if hasSecond {
      var m;
      m, second := LvDeserialize(s[n..]);
      if m == 0 {
        return 0, first, second;
      }
      n := n + m;
    }
  }

  lemma NamesDecodeOfEncode(first: shortOctets, second: shortOctets, hasSecond: bool, rest: octets)
    ensures DecodeNames(EncodeNames(first, second, hasSecond) + rest, hasSecond)
         == Decoded((first, if hasSecond then second else []), |EncodeNames(first, second, hasSecond)|)
  {
    var tail := (if hasSecond then EncodeLv(second) else []) + rest;
    LvDecodeOfEncode(first, tail);
    assert EncodeNames(first, second, hasSecond) + rest == EncodeLv(first) + tail;
    Parts(EncodeLv(first), tail, []);
    if hasSecond {
      LvDecodeOfEncode(second, rest);
    }
  }

  lemma NamesEncodeOfDecode(s: octets, hasSecond: bool)
    requires DecodeNames(s, hasSecond).Decoded?
    ensures var (first, second) := DecodeNames(s, hasSecond).value;
            && EncodeNames(first, second, hasSecond) == s[..DecodeNames(s, hasSecond).consumed]
            && (hasSecond || second == [])
  {
    LvEncodeOfDecode(s);
    if hasSecond {
      var n := DecodeLv(s).consumed;
      LvEncodeOfDecode(s[n..]);
      var m := DecodeLv(s[n..]).consumed;
      assert s[..n + m] == s[..n] + s[n..][..m];
    }
  }

  // ---------------------------------------------------------------------------
  // Serialisers
  // ---------------------------------------------------------------------------

  /** The action octet and the file names, common to both TLVs. */
  function EncodeFront(code: octet, first: shortOctets, second: shortOctets, hasSecond: bool): (s: octets)
    ensures |s| > 1
  {
    [code] + EncodeNames(first, second, hasSecond)
  }

  function RequestValue(r: Request): (s: octets)
    ensures |s| > 0
  {
    EncodeFront(16 * (r.action % 16), r.first, r.second, HasSecond(r.action))
  }

  function ResponseValue(r: Response): (s: octets)
    ensures |s| > 0
  {
    ResponseFront(r) + EncodeLv(r.message)
  }

  /** Everything before the message. */
  function ResponseFront(r: Response): (s: octets)
    ensures |s| > 0
  {
    EncodeFront(16 * (r.action % 16) + r.status % 16, r.first, r.second, HasSecond(r.action))
  }

  /** The TLV length field can hold the value, and the action is one of table 5-16. */
  predicate RequestEncodable(r: Request) {
    ActionValid(r.action) && |RequestValue(r)| <= 255
  }

  predicate ResponseEncodable(r: Response) {
    ActionValid(r.action) && |ResponseValue(r)| <= 255
  }

  function EncodeRequest(r: Request): octets
    requires RequestEncodable(r)
  {
    EncodeTlv(TypeLengthValue(FILESTORE_REQUEST, RequestValue(r)))
  }

  function EncodeResponse(r: Response): octets
    requires ResponseEncodable(r)
  {
    EncodeTlv(TypeLengthValue(FILESTORE_RESPONSE, ResponseValue(r)))
  }

  /** cfdp_filestore_tlv_finish: the type and length in front of the value `v` already
      written, or 0 when the value is too long. */
  method Finish(buf: array<octet>, start: nat, kind: octet, end: nat,
                ghost before: octets, ghost v: octets) returns (n: nat)
    requires end == TLV_HEADER_LEN + |v| && start + end <= buf.Length == |before|
    requires buf[..] == Splice(before, start + TLV_HEADER_LEN, v)
    modifies buf
    ensures n == if |v| <= 255 then end else 0
    ensures buf[..] == if n > 0 then Splice(before, start, EncodeTlv(TypeLengthValue(kind, v))) else old(buf[..])
  {
    var valueLen := end - TLV_HEADER_LEN;
    if valueLen > 255 {
      return 0;
    }
    StorePair(buf, start, kind, valueLen);
    SpliceBefore(before, start, [kind, valueLen], v);
    return end;
  }

  /** The steps both serialisers share: the action octet and the file names. */
  method FrontSerialize(code: octet, first: shortOctets, second: shortOctets, hasSecond: bool,
                        buf: array<octet>, start: nat, cap: nat) returns (n: nat)
    requires 0 < cap && start + cap <= buf.Length
    modifies buf
    ensures var s := EncodeFront(code, first, second, hasSecond);
            && n == (if |s| <= cap then |s| else 0)
            && (n > 0 ==> buf[..] == Splice(old(buf[..]), start, s))
    ensures OnlyWithin(old(buf[..]), buf[..], start, cap)
  {
    ghost var before := buf[..];
    Store(buf, start, code);
    SpliceWithin(before, start, [code], cap);
    ghost var coded := buf[..];
    var m := NamesSerialize(first, second, hasSecond, buf, start + 1, cap - 1);
    WithinLarger(coded, buf[..], start, cap, 1);
    if m == 0 {
      return 0;
    }
    SpliceTwice(before, start, [code], EncodeNames(first, second, hasSecond));
    return 1 + m;
  }

  /** cfdp_filestore_request_tlv_serialize */
  method RequestSerialize(r: Request, buf: array<octet>, start: nat, cap: nat) returns (n: nat)
    requires start + cap <= buf.Length
    modifies buf
    ensures n == if RequestEncodable(r) && |EncodeRequest(r)| <= cap then |EncodeRequest(r)| else 0
    ensures n > 0 ==> buf[..] == Splice(old(buf[..]), start, EncodeRequest(r))
    ensures OnlyWithin(old(buf[..]), buf[..], start, cap)
  {
    if cap < TLV_HEADER_LEN + 1 || !ActionValid(r.action) {
      return 0;
    }
    ghost var before := buf[..];
    var m := FrontSerialize(16 * (r.action % 16), r.first, r.second, HasSecond(r.action),
                            buf, start + TLV_HEADER_LEN, cap - TLV_HEADER_LEN);
    WithinLarger(before, buf[..], start, cap, TLV_HEADER_LEN);
    if m == 0 {
      return 0;
    }
    n := Finish(buf, start, FILESTORE_REQUEST, TLV_HEADER_LEN + m, before, RequestValue(r));
    if n > 0 {
      SpliceWithin(before, start, EncodeRequest(r), cap);
    }
  }

  /** The action and status octet, the file names and the message. */
  method ResponseValueSerialize(r: Response, buf: array<octet>, start: nat, cap: nat) returns (n: nat)
    requires 0 < cap && start + cap <= buf.Length
    modifies buf
    ensures n == if |ResponseValue(r)| <= cap then |ResponseValue(r)| else 0
    ensures n > 0 ==> buf[..] == Splice(old(buf[..]), start, ResponseValue(r))
    ensures OnlyWithin(old(buf[..]), buf[..], start, cap)
  {
    ghost var before := buf[..];
    var code := 16 * (r.action % 16) + r.status % 16;
    var m := FrontSerialize(code, r.first, r.second, HasSecond(r.action), buf, start, cap);
    if m == 0 {
      return 0;
    }
    var l := LvAppend(r.message, buf, start, m, cap, before, ResponseFront(r));
    if l == 0 {
      return 0;
    }
    SpliceWithin(before, start, ResponseValue(r), cap);
    return m + l;
  }

  /** cfdp_filestore_response_tlv_serialize */
  method ResponseSerialize(r: Response, buf: array<octet>, start: nat, cap: nat) returns (n: nat)
    requires start + cap <= buf.Length
    modifies buf
    ensures n == if ResponseEncodable(r) && |EncodeResponse(r)| <= cap then |EncodeResponse(r)| else 0
    ensures n > 0 ==> buf[..] == Splice(old(buf[..]), start, EncodeResponse(r))
    ensures OnlyWithin(old(buf[..]), buf[..], start, cap)
  {
    if cap < TLV_HEADER_LEN + 1 || !ActionValid(r.action) {
      return 0;
    }
    ghost var before := buf[..];
    var m := ResponseValueSerialize(r, buf, start + TLV_HEADER_LEN, cap - TLV_HEADER_LEN);
    WithinLarger(before, buf[..], start, cap, TLV_HEADER_LEN);
    if m == 0 {
      return 0;
    }
    n := Finish(buf, start, FILESTORE_RESPONSE, TLV_HEADER_LEN + m, before, ResponseValue(r));
    if n > 0 {
      SpliceWithin(before, start, EncodeResponse(r), cap);
    }
  }

  // ---------------------------------------------------------------------------
  // Deserialisers
  // ---------------------------------------------------------------------------

  /** A request, if its one or two LVs end exactly where the TLV ends. */
  function RequestOfValue(v: octets): Option<Request>
    requires |v| > 0 && ActionValid(v[0] / 16)
  {
    var action := v[0] / 16;
    match DecodeNames(v[1..], HasSecond(action))
    case Malformed => None
    case Decoded(names, n) =>
      if n + 1 == |v| then Some(Request(action, names.0, names.1)) else None
  }

  /** A response, if the message LV behind the names ends exactly where the TLV ends. */
  function ResponseOfValue(v: octets): Option<Response>
    requires |v| > 0 && ActionValid(v[0] / 16)
  {
    var action := v[0] / 16;
    match DecodeNames(v[1..], HasSecond(action))
    case Malformed => None
    case Decoded(names, pos) =>
      match DecodeLv(v[1 + pos..])
      case Malformed => None
      case Decoded(message, n) =>
        if pos + n + 1 == |v| then Some(Response(action, v[0] % 16, names.0, names.1, message)) else None
  }

  predicate FilestoreTlv(t: Tlv, kind: octet) {
    t.kind == kind && |t.value| > 0 && ActionValid(t.value[0] / 16)
  }

  function DecodeRequest(s: octets): Decoding<Request> {
    match DecodeTlv(s)
    case Malformed => Malformed
    case Decoded(t, n) =>
      if !FilestoreTlv(t, FILESTORE_REQUEST) then Malformed
      else match RequestOfValue(t.value) case None => Malformed case Some(r) => Decoded(r, n)
  }

  function DecodeResponse(s: octets): Decoding<Response> {
    match DecodeTlv(s)
    case Malformed => Malformed
    case Decoded(t, n) =>
      if !FilestoreTlv(t, FILESTORE_RESPONSE) then Malformed
      else match ResponseOfValue(t.value) case None => Malformed case Some(r) => Decoded(r, n)
  }

  /** cfdp_filestore_request_tlv_deserialize */
  method RequestDeserialize(s: octets) returns (n: nat, r: Request)
    ensures DecodeRequest(s) == if n > 0 then Decoded(r, n) else Malformed
  {
    r := Request(0, [], []);
    var size, t := TlvDeserialize(s);
    if size == 0 || t.kind != FILESTORE_REQUEST || |t.value| < 1 || !ActionValid(t.value[0] / 16) {
      return 0, r;
    }
    var action := t.value[0] / 16;
    var m, first, second := NamesDeserialize(t.value[1..], HasSecond(action));
    if m == 0 || m + 1 != |t.value| {
      return 0, r;
    }
    return size, Request(action, first, second);
  }

  /** cfdp_filestore_response_tlv_deserialize */
  method ResponseDeserialize(s: octets) returns (n: nat, r: Response)
    ensures DecodeResponse(s) == if n > 0 then Decoded(r, n) else Malformed
  {
    r := Response(0, 0, [], [], []);
    var size, t := TlvDeserialize(s);
    if size == 0 || t.kind != FILESTORE_RESPONSE || |t.value| < 1 || !ActionValid(t.value[0] / 16) {
      return 0, r;
    }
    var action, status := t.value[0] / 16, t.value[0] % 16;
    var pos, first, second := NamesDeserialize(t.value[1..], HasSecond(action));
    if pos == 0 {
      return 0, r;
    }
    var m, message := LvDeserialize(t.value[1 + pos..]);
    if m == 0 || pos + m + 1 != |t.value| {
      return 0, r;
    }
    return size, Response(action, status, first, second, message);
  }

  // ---------------------------------------------------------------------------
  // Canonicity
  // ---------------------------------------------------------------------------

  /** A second name is dropped when the action has none. */
  function RequestOnTheWire(r: Request): Request {
    r.(second := if HasSecond(r.action) then r.second else [])
  }

  function ResponseOnTheWire(r: Response): Response {
    r.(second := if HasSecond(r.action) then r.second else [], status := r.status % 16)
  }

  lemma TwoNibbles(high: nat, low: nat, o: nat)
    requires high < 16 && low < 16 && o == 16 * high + low
    ensures o / 16 == high && o % 16 == low
  {
  }

  lemma FrontDecodeOfEncode(code: octet, first: shortOctets, second: shortOctets, hasSecond: bool, rest: octets)
    ensures var front := EncodeFront(code, first, second, hasSecond);
            var v := front + rest;
            && v[0] == code && v[|front|..] == rest
            && DecodeNames(v[1..], hasSecond) == Decoded((first, if hasSecond then second else []), |front| - 1)
  {
    var names := EncodeNames(first, second, hasSecond);
    var v := EncodeFront(code, first, second, hasSecond) + rest;
    assert v[1..] == names + rest;
    NamesDecodeOfEncode(first, second, hasSecond, rest);
  }

  lemma RequestOfEncodedValue(r: Request)
    requires RequestEncodable(r)
    ensures RequestValue(r)[0] / 16 == r.action
    ensures RequestOfValue(RequestValue(r)) == Some(RequestOnTheWire(r))
  {
    TwoNibbles(r.action, 0, RequestValue(r)[0]);
    FrontDecodeOfEncode(16 * (r.action % 16), r.first, r.second, HasSecond(r.action), []);
    assert RequestValue(r) + [] == RequestValue(r);
  }

  /** Decoding an encoded request, whatever follows it, returns the request. */
  lemma RequestDecodeOfEncode(r: Request, rest: octets)
    requires RequestEncodable(r)
    ensures DecodeRequest(EncodeRequest(r) + rest) == Decoded(RequestOnTheWire(r), |EncodeRequest(r)|)
  {
    TlvDecodeOfEncode(TypeLengthValue(FILESTORE_REQUEST, RequestValue(r)), rest);
    RequestOfEncodedValue(r);
  }

  lemma ResponseOfEncodedValue(r: Response)
    requires ResponseEncodable(r)
    ensures ResponseValue(r)[0] / 16 == r.action
    ensures ResponseOfValue(ResponseValue(r)) == Some(ResponseOnTheWire(r))
  {
    var code := 16 * (r.action % 16) + r.status % 16;
    TwoNibbles(r.action, r.status % 16, code);
    FrontDecodeOfEncode(code, r.first, r.second, HasSecond(r.action), EncodeLv(r.message));
    LvDecodeOfEncode(r.message, []);
    assert EncodeLv(r.message) + [] == EncodeLv(r.message);
  }

  /** Decoding an encoded response, whatever follows it, returns the response. */
  lemma ResponseDecodeOfEncode(r: Response, rest: octets)
    requires ResponseEncodable(r)
    ensures DecodeResponse(EncodeResponse(r) + rest) == Decoded(ResponseOnTheWire(r), |EncodeResponse(r)|)
  {
    TlvDecodeOfEncode(TypeLengthValue(FILESTORE_RESPONSE, ResponseValue(r)), rest);
    ResponseOfEncodedValue(r);
  }

  lemma FrontEncodeOfDecode(v: octets, hasSecond: bool, code: octet)
    requires |v| > 0 && DecodeNames(v[1..], hasSecond).Decoded?
    ensures var (first, second) := DecodeNames(v[1..], hasSecond).value;
            var n := DecodeNames(v[1..], hasSecond).consumed;
            && EncodeFront(code, first, second, hasSecond) == [code] + v[1..1 + n]
            && (hasSecond || second == [])
  {
    NamesEncodeOfDecode(v[1..], hasSecond);
    var n := DecodeNames(v[1..], hasSecond).consumed;
    assert v[1..][..n] == v[1..1 + n];
  }

  lemma RequestValueOfDecode(v: octets)
    requires |v| > 0 && ActionValid(v[0] / 16) && RequestOfValue(v).Some?
    ensures RequestValue(RequestOfValue(v).value) == v[0 := 16 * (v[0] / 16)]
    ensures RequestOnTheWire(RequestOfValue(v).value) == RequestOfValue(v).value
  {
    FrontEncodeOfDecode(v, HasSecond(v[0] / 16), 16 * (v[0] / 16));
    assert v[0 := 16 * (v[0] / 16)] == [16 * (v[0] / 16)] + v[1..|v|];
  }

  /** An accepted request re-encodes to the octets it occupied, with the spare low
      nibble of the action octet cleared. */
  lemma RequestEncodeOfDecode(s: octets)
    requires DecodeRequest(s).Decoded?
    ensures var r, n := DecodeRequest(s).value, DecodeRequest(s).consumed;
            && 2 < n <= |s| && RequestEncodable(r) && RequestOnTheWire(r) == r
            && EncodeRequest(r) == s[..n][2 := 16 * (s[2] / 16)]
  {
    var v := DecodeTlv(s).value.value;
    TlvEncodeOfDecode(s);
    assert v[0] == s[2];
    RequestValueOfDecode(v);
    PatchThird(FILESTORE_REQUEST, v, 16 * (v[0] / 16));
  }

  lemma PatchThird(kind: octet, v: shortOctets, o: octet)
    requires |v| > 0
    ensures EncodeTlv(TypeLengthValue(kind, v))[2 := o] == EncodeTlv(TypeLengthValue(kind, v[0 := o]))
  {
  }

  lemma ResponseFields(v: octets, r: Response, pos: nat)
    requires |v| > 0 && ActionValid(v[0] / 16) && ResponseOfValue(v) == Some(r)
    requires pos == DecodeNames(v[1..], HasSecond(v[0] / 16)).consumed
    ensures r.action == v[0] / 16 && r.status == v[0] % 16
    ensures DecodeNames(v[1..], HasSecond(r.action)).value == (r.first, r.second)
    ensures DecodeLv(v[1 + pos..]) == Decoded(r.message, |v| - 1 - pos)
  {
  }

  lemma ResponseParts(v: octets, r: Response, pos: nat)
    requires |v| > 0 && ActionValid(v[0] / 16) && ResponseOfValue(v) == Some(r)
    requires pos == DecodeNames(v[1..], HasSecond(v[0] / 16)).consumed
    ensures ResponseFront(r) == [v[0]] + v[1..1 + pos] && EncodeLv(r.message) == v[1 + pos..]
    ensures ResponseOnTheWire(r) == r
  {
    ResponseFields(v, r, pos);
    TwoNibbles(v[0] / 16, v[0] % 16, v[0]);
    FrontEncodeOfDecode(v, HasSecond(r.action), v[0]);
    LvFillsRest(v[1 + pos..]);
  }

  lemma ResponseValueOfDecode(v: octets)
    requires |v| > 0 && ActionValid(v[0] / 16) && ResponseOfValue(v).Some?
    ensures ResponseValue(ResponseOfValue(v).value) == v
    ensures ResponseOnTheWire(ResponseOfValue(v).value) == ResponseOfValue(v).value
  {
    var pos := DecodeNames(v[1..], HasSecond(v[0] / 16)).consumed;
    ResponseParts(v, ResponseOfValue(v).value, pos);
    JoinAt(v, 1 + pos);
  }

  lemma LvFillsRest(s: octets)
    requires DecodeLv(s).Decoded? && DecodeLv(s).consumed == |s|
    ensures EncodeLv(DecodeLv(s).value) == s
  {
  }

  lemma JoinAt(v: octets, i: nat)
    requires 1 <= i <= |v|
    ensures [v[0]] + v[1..i] + v[i..] == v
  {
  }

  /** An accepted response re-encodes to exactly the octets it occupied. */
  lemma ResponseEncodeOfDecode(s: octets)
    requires DecodeResponse(s).Decoded?
    ensures var r, n := DecodeResponse(s).value, DecodeResponse(s).consumed;
            && n <= |s| && ResponseEncodable(r) && ResponseOnTheWire(r) == r
            && EncodeResponse(r) == s[..n]
  {
    TlvEncodeOfDecode(s);
    ResponseValueOfDecode(DecodeTlv(s).value.value);
  }

  // ---------------------------------------------------------------------------
  // The accepted octets
  // ---------------------------------------------------------------------------

  lemma SpareNibble(v: octets, o: octet)
    requires |v| > 0 && ActionValid(v[0] / 16) && o / 16 == v[0] / 16
    ensures RequestOfValue(v[0 := o]) == RequestOfValue(v)
  {
    assert v[0 := o][1..] == v[1..];
  }

  lemma PatchedFront(a: octets, b: octets, i: nat, o: octet)
    requires i < |a|
    ensures (a + b)[i := o] == a[i := o] + b
  {
  }

  lemma PatchTwice(s: octets, i: nat, o: octet)
    requires i < |s|
    ensures s[i := o][i := s[i]] == s
  {
  }

  /** An encoded request with any spare nibble is accepted. */
  lemma SpareRequestAccepted(r: Request, o: octet, rest: octets)
    requires RequestEncodable(r) && o / 16 == r.action
    ensures DecodeRequest(EncodeRequest(r)[2 := o] + rest) == Decoded(RequestOnTheWire(r), |EncodeRequest(r)|)
  {
    var v := RequestValue(r);
    RequestOfEncodedValue(r);
    SpareNibble(v, o);
    PatchThird(FILESTORE_REQUEST, v, o);
    TlvDecodeOfEncode(TypeLengthValue(FILESTORE_REQUEST, v[0 := o]), rest);
  }

  lemma RequestSplit(s: octets) returns (r: Request, rest: octets)
    requires DecodeRequest(s).Decoded?
    ensures |s| > 2 && RequestEncodable(r) && s[2] / 16 == r.action && s == EncodeRequest(r)[2 := s[2]] + rest
  {
    var n := DecodeRequest(s).consumed;
    r, rest := DecodeRequest(s).value, s[n..];
    RequestEncodeOfDecode(s);
    PatchTwice(s[..n], 2, 16 * (s[2] / 16));
    TwoParts(s, n);
  }

  /** `s` is the encoded request `r`, up to its spare nibble, and `rest`. */
  predicate StartsWith(s: octets, r: Request, rest: octets)
    requires |s| > 2
  {
    RequestEncodable(r) && r.action == s[2] / 16 && s == EncodeRequest(r)[2 := s[2]] + rest
  }

  /** Octets are accepted as a request exactly when they start with an encoded request, up
      to its spare nibble: the low one of octet 2. */
  lemma RequestAccepted(s: octets)
    ensures DecodeRequest(s).Decoded? <==> |s| > 2 && exists r, rest :: StartsWith(s, r, rest)
  {
    if DecodeRequest(s).Decoded? {
      var r, rest := RequestSplit(s);
      assert StartsWith(s, r, rest);
    }
    if |s| > 2 {
      forall r, rest | StartsWith(s, r, rest)
        ensures DecodeRequest(s).Decoded?
      {
        SpareRequestAccepted(r, s[2], rest);
      }
    }
  }

  /** Octets are accepted as a response exactly when they start with an encoded response. */
  lemma ResponseAccepted(s: octets)
    ensures DecodeResponse(s).Decoded? <==> exists r, rest :: ResponseEncodable(r) && s == EncodeResponse(r) + rest
  {
    if DecodeResponse(s).Decoded? {
      var n := DecodeResponse(s).consumed;
      ResponseEncodeOfDecode(s);
      TwoParts(s, n);
      assert s == EncodeResponse(DecodeResponse(s).value) + s[n..];
    }
    forall r, rest | ResponseEncodable(r) && s == EncodeResponse(r) + rest
      ensures DecodeResponse(s).Decoded?
    {
      ResponseDecodeOfEncode(r, rest);
    }
  }
}
