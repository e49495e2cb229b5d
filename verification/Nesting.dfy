/** Filestore TLVs inside the PDUs that carry them: responses in a Finished PDU, requests
    in the options of a Metadata PDU (sections 5.2.3, 5.2.5 and 5.4 of CCSDS 727.0-B-5). */
module Nesting {
  import opened Octets
  import opened Header
  import opened Tlvs
  import opened Filestore
  import Finished
  import Metadata

  // ---------------------------------------------------------------------------
  // Responses
  // ---------------------------------------------------------------------------

  predicate AllResponsesEncodable(rs: seq<Response>) {
    forall i :: 0 <= i < |rs| ==> ResponseEncodable(rs[i])
  }

  function ResponseTlv(r: Response): Tlv
    requires ResponseEncodable(r)
  {
    TypeLengthValue(FILESTORE_RESPONSE, ResponseValue(r))
  }

  function ResponseTlvs(rs: seq<Response>): (ts: seq<Tlv>)
    requires AllResponsesEncodable(rs)
    ensures |ts| == |rs| && Finished.AllResponses(ts)
  {
    if rs == [] then [] else [ResponseTlv(rs[0])] + ResponseTlvs(rs[1..])
  }

  /** The responses written one behind the other by cfdp_filestore_response_tlv_serialize. */
  function EncodeResponses(rs: seq<Response>): octets
    requires AllResponsesEncodable(rs)
  {
    EncodeChain(ResponseTlvs(rs))
  }

  /** Reading by repeated cfdp_filestore_response_tlv_deserialize until all is used up. */
  function DecodeResponses(s: octets): Option<seq<Response>>
    decreases |s|
  {
    if s == [] then Some([])
    else
      match DecodeResponse(s)
      case Malformed => None
      case Decoded(r, n) =>
        match DecodeResponses(s[n..])
        case None => None
        case Some(rs) => Some([r] + rs)
  }

  function ResponsesOnTheWire(rs: seq<Response>): seq<Response> {
    if rs == [] then [] else [ResponseOnTheWire(rs[0])] + ResponsesOnTheWire(rs[1..])
  }

  /** Reading the concatenation of any list of responses returns that list. */
  lemma {:induction false} ResponsesRoundTrip(rs: seq<Response>)
    requires AllResponsesEncodable(rs)
    ensures DecodeResponses(EncodeResponses(rs)) == Some(ResponsesOnTheWire(rs))
  {
    if rs != [] {
      var rest := EncodeResponses(rs[1..]);
      assert ResponseTlvs(rs)[1..] == ResponseTlvs(rs[1..]);
      ResponsesRoundTrip(rs[1..]);
      ResponseDecodeOfEncode(rs[0], rest);
      Parts(EncodeResponse(rs[0]), rest, []);
    }
  }

  /** Octets read to their end as responses are the concatenation of the re-encodings. */
  lemma {:induction false} ResponsesRestored(s: octets)
    requires DecodeResponses(s).Some?
    ensures AllResponsesEncodable(DecodeResponses(s).value)
    ensures EncodeResponses(DecodeResponses(s).value) == s
    decreases |s|
  {
    if s != [] {
      var r, n := DecodeResponse(s).value, DecodeResponse(s).consumed;
      ResponseEncodeOfDecode(s);
      ResponsesRestored(s[n..]);
      PrependResponse(r, DecodeResponses(s[n..]).value);
      TwoParts(s, n);
    }
  }

  lemma PrependResponse(r: Response, rs: seq<Response>)
    requires ResponseEncodable(r) && AllResponsesEncodable(rs)
    ensures AllResponsesEncodable([r] + rs)
    ensures EncodeResponses([r] + rs) == EncodeResponse(r) + EncodeResponses(rs)
  {
    assert ([r] + rs)[1..] == rs;
    assert ResponseTlvs([r] + rs)[1..] == ResponseTlvs(rs);
  }

  /** A Finished PDU whose responses were written by the filestore encoder decodes to
      octets that read back as those responses. */
  lemma FinishedCarriesResponses(fin: Finished.FinishedPdu, rs: seq<Response>)
    requires Finished.Encodable(fin) && AllResponsesEncodable(rs) && fin.responses == EncodeResponses(rs)
    ensures var r := Finished.Decode(Finished.Encode(fin));
            && r == Decoded(Finished.OnTheWire(fin), |Finished.Encode(fin)|)
            && DecodeResponses(r.value.responses) == Some(ResponsesOnTheWire(rs))
            && Walk(r.value.responses) == Some(ResponseTlvs(rs))
  {
    Finished.DecodeOfEncode(fin);
    assert Finished.AllResponses(ResponseTlvs(rs)) && EncodeChain(ResponseTlvs(rs)) == fin.responses;
    ResponsesRoundTrip(rs);
    WalkOfEncode(ResponseTlvs(rs));
  }

  // ---------------------------------------------------------------------------
  // Requests
  // ---------------------------------------------------------------------------

  predicate AllRequestsEncodable(qs: seq<Request>) {
    forall i :: 0 <= i < |qs| ==> RequestEncodable(qs[i])
  }

  function RequestTlv(q: Request): Tlv
    requires RequestEncodable(q)
  {
    TypeLengthValue(FILESTORE_REQUEST, RequestValue(q))
  }

  function RequestTlvs(qs: seq<Request>): (ts: seq<Tlv>)
    requires AllRequestsEncodable(qs)
    ensures |ts| == |qs|
  {
    if qs == [] then [] else [RequestTlv(qs[0])] + RequestTlvs(qs[1..])
  }

  /** The requests written one behind the other by cfdp_filestore_request_tlv_serialize. */
  function EncodeRequests(qs: seq<Request>): octets
    requires AllRequestsEncodable(qs)
  {
    EncodeChain(RequestTlvs(qs))
  }

  /** Reading by repeated cfdp_filestore_request_tlv_deserialize until all is used up. */
  function DecodeRequests(s: octets): Option<seq<Request>>
    decreases |s|
  {
    if s == [] then Some([])
    else
      match DecodeRequest(s)
      case Malformed => None
      case Decoded(q, n) =>
        match DecodeRequests(s[n..])
        case None => None
        case Some(qs) => Some([q] + qs)
  }

  function RequestsOnTheWire(qs: seq<Request>): seq<Request> {
    if qs == [] then [] else [RequestOnTheWire(qs[0])] + RequestsOnTheWire(qs[1..])
  }

  /** Reading the concatenation of any list of requests returns that list. */
  lemma {:induction false} RequestsRoundTrip(qs: seq<Request>)
    requires AllRequestsEncodable(qs)
    ensures DecodeRequests(EncodeRequests(qs)) == Some(RequestsOnTheWire(qs))
  {
    if qs != [] {
      var rest := EncodeRequests(qs[1..]);
      assert RequestTlvs(qs)[1..] == RequestTlvs(qs[1..]);
      RequestsRoundTrip(qs[1..]);
      RequestDecodeOfEncode(qs[0], rest);
      Parts(EncodeRequest(qs[0]), rest, []);
    }
  }

  /** A Metadata PDU whose options were written by the filestore encoder decodes to octets
      that read back as those requests. */
  lemma MetadataCarriesRequests(md: Metadata.MetadataPdu, large: LargeFileFlag, qs: seq<Request>)
    requires AllRequestsEncodable(qs) && md.options == EncodeRequests(qs)
    ensures var r := Metadata.Decode(Metadata.Encode(md, large), large);
            && r == Decoded(Metadata.OnTheWire(md, large), |Metadata.Encode(md, large)|)
            && DecodeRequests(r.value.options) == Some(RequestsOnTheWire(qs))
            && Walk(r.value.options) == Some(RequestTlvs(qs))
  {
    Metadata.DecodeOfEncode(md, large);
    RequestsRoundTrip(qs);
    WalkOfEncode(RequestTlvs(qs));
  }

  /** Options of any kinds, written one behind the other, come back as the list they were. */
  lemma MetadataCarriesOptions(md: Metadata.MetadataPdu, large: LargeFileFlag, ts: seq<Tlv>)
    requires md.options == EncodeChain(ts)
    ensures var r := Metadata.Decode(Metadata.Encode(md, large), large);
            r.Decoded? && Walk(r.value.options) == Some(ts)
  {
    Metadata.DecodeOfEncode(md, large);
    WalkOfEncode(ts);
  }
}
