/**
 * Request header v2: api key (2 bytes), api version (2 bytes), correlation id
 * (4 bytes), client-id length (2 bytes), the client id, then one tag byte.
 * All integers are big-endian and read unsigned.
 */
module RequestHeader {
  import opened Wire

  /** The header fields the codec keeps. */
  datatype Header = Header(apiKey: nat, apiVersion: nat, correlationId: nat, clientId: Bytes)
  {
    /** Every field fits its wire width. */
    predicate WellFormed() {
      apiKey < TWO_16 && apiVersion < TWO_16 && correlationId < TWO_32 && |clientId| < TWO_16
    }
  }

  /** Offset of the client-id length field, and of the client id. */
  const CLIENT_ID_LENGTH_AT: nat := 8
  const CLIENT_ID_AT: nat := 10

  /** Bytes 8-9, read unsigned: the client-id length is never negative. */
  function ClientIdLength(request: Bytes): (n: nat)
    requires |request| >= CLIENT_ID_AT
    ensures n < TWO_16
  {
    DecodeU16(request[CLIENT_ID_LENGTH_AT..CLIENT_ID_AT])
  }

  /** The request holds every fixed field and the whole client id. */
  predicate HeaderFits(request: Bytes) {
    |request| >= CLIENT_ID_AT && CLIENT_ID_AT + ClientIdLength(request) <= |request|
  }

  /** The header fields, without the trailing tag byte. */
  function EncodeHeaderFields(h: Header): (r: Bytes)
    requires h.WellFormed()
    ensures |r| == CLIENT_ID_AT + |h.clientId|
  {
    EncodeU16(h.apiKey) + EncodeU16(h.apiVersion) + EncodeU32(h.correlationId)
      + EncodeU16(|h.clientId|) + h.clientId
  }

  /** The whole header as a client sends it: the fields and an empty tag buffer. */
  function EncodeHeader(h: Header): (r: Bytes)
    requires h.WellFormed()
    ensures |r| == CLIENT_ID_AT + |h.clientId| + 1
  {
    EncodeHeaderFields(h) + [0]
  }

  /**
   * `_parse_common_headers`: the fields at their fixed offsets. Re-encoding the
   * result gives back exactly the bytes the fields were read from.
   */
  function ParseHeader(request: Bytes): (h: Header)
    requires HeaderFits(request)
    ensures h.WellFormed()
    ensures |h.clientId| == ClientIdLength(request)
    ensures EncodeHeaderFields(h) == request[..CLIENT_ID_AT + |h.clientId|]
  {
    var h := Header(DecodeU16(request[0..2]), DecodeU16(request[2..4]), DecodeU32(request[4..8]),
                    request[CLIENT_ID_AT..CLIENT_ID_AT + ClientIdLength(request)]);
    EncodeDecodeU16(request[0..2]);
    EncodeDecodeU16(request[2..4]);
    EncodeDecodeU32(request[4..8]);
    EncodeDecodeU16(request[8..10]);
    assert request[..CLIENT_ID_AT + |h.clientId|] == request[0..2] + request[2..4] + request[4..8]
      + request[8..10] + h.clientId;
    h
  }

  /**
   * `_header_ends_at_byte`: the body starts right after the client id and the
   * tag byte, that is after as many bytes as the header's own encoding has.
   */
  function BodyStart(request: Bytes): (p: nat)
    requires HeaderFits(request)
    ensures p == |EncodeHeader(ParseHeader(request))|
  {
    CLIENT_ID_AT + ClientIdLength(request) + 1
  }

  /** Parsing a header a client encoded gives back that header, and the body starts after it. */
  lemma HeaderRoundTrip(h: Header, body: Bytes)
    requires h.WellFormed()
    ensures HeaderFits(EncodeHeader(h) + body)
    ensures ParseHeader(EncodeHeader(h) + body) == h
    ensures BodyStart(EncodeHeader(h) + body) == |EncodeHeader(h)|
  {
    var request := EncodeHeader(h) + body;
    assert request[0..2] == EncodeU16(h.apiKey);
    assert request[2..4] == EncodeU16(h.apiVersion);
    assert request[4..8] == EncodeU32(h.correlationId);
    assert request[8..10] == EncodeU16(|h.clientId|);
    assert request[CLIENT_ID_AT..CLIENT_ID_AT + |h.clientId|] == h.clientId;
  }
}
