/**
 * The request handler object. It is built from one request and the
 * supported-API table; it parses the common header on construction, and
 * `CreateResponse` dispatches on the API key to the body parser and the
 * response builders, which fill in its fields step by step.
 */
module KafkaCodec {
  import opened Wrappers
  import opened Wire
  import opened Registry
  import opened RequestHeader
  import opened TopicsRequest
  import opened ApiVersions
  import opened DescribeTopics

  class Kafka {
    const request: Bytes
    /** The supported-API table the server was started with. */
    const supportedApis: Table

    var requestApiKey: nat
    var requestApiVersion: nat
    var correlationId: nat
    var clientId: Bytes
    /** Position at which the request header ends and the body starts. */
    var headerEndsAtByte: nat
    var isValidApiKey: bool
    var minVer: int
    var maxVer: int

    /** The DescribeTopicPartitions topic names; one list per object, starting empty. */
    var topicNames: seq<Bytes>
    /** The last error code computed; None before any. */
    var errorCode: Option<ErrorCode>
    /** The response; None while no builder has run. */
    var response: Option<Bytes>

    /** The validity values are those the table gives for the API key. */
    ghost predicate ValidityResolved()
      reads this
    {
      isValidApiKey == IsValidApiKey(supportedApis, requestApiKey)
      && minVer == MinVer(supportedApis, requestApiKey)
      && maxVer == MaxVer(supportedApis, requestApiKey)
    }

    /** The header fields and the validity values are those of the request. */
    ghost predicate HeaderParsed()
      reads this
    {
      HeaderFits(request)
      && var h := ParseHeader(request);
      requestApiKey == h.apiKey && requestApiVersion == h.apiVersion
      && correlationId == h.correlationId && clientId == h.clientId
      && headerEndsAtByte == BodyStart(request)
      && ValidityResolved()
    }

    /** `__init__`: keep the request and parse its common header. */
    constructor (request: Bytes, supportedApis: Table)
      requires HeaderFits(request)
      ensures this.request == request && this.supportedApis == supportedApis
      ensures HeaderParsed()
      ensures topicNames == [] && errorCode == None && response == None
    {
      this.request := request;
      this.supportedApis := supportedApis;
      topicNames := [];
      errorCode := None;
      response := None;
      new;
      ParseCommonHeaders();
    }

    /** `_parse_common_headers`. */
    method ParseCommonHeaders()
      requires HeaderFits(request)
      modifies this`requestApiKey, this`requestApiVersion, this`correlationId, this`clientId,
        this`headerEndsAtByte, this`isValidApiKey, this`minVer, this`maxVer
      ensures HeaderParsed()
    {
      requestApiKey := DecodeU16(request[0..2]);
      requestApiVersion := DecodeU16(request[2..4]);
      correlationId := DecodeU32(request[4..8]);
      var clientIdLength := DecodeU16(request[8..10]);
      clientId := request[10..10 + clientIdLength];
      headerEndsAtByte := 10 + clientIdLength + 1;
      isValidApiKey := requestApiKey < |supportedApis|;
      minVer := if isValidApiKey then supportedApis[requestApiKey].minVersion else 0;
      maxVer := if isValidApiKey then supportedApis[requestApiKey].maxVersion else 0;
    }

    /**
     * `_parse_describe_topic_partitions_request_body`: walk the topics array
     * with a cursor and append each name to `topicNames`.
     */
    method ParseDescribeTopicPartitionsRequestBody()
      requires BodyFits(request, headerEndsAtByte)
      modifies this`topicNames
      ensures topicNames == old(topicNames) + ParseTopicNames(request, headerEndsAtByte)
    {
      var bodyStart := headerEndsAtByte;
      var currentPosition := bodyStart;
      var topicsLength := request[bodyStart] as int - 1;
      currentPosition := currentPosition + 1;
      ghost var count := TopicCount(request, bodyStart);
      var i := 0;
      while i < topicsLength
        invariant 0 <= i <= count
        invariant currentPosition == Cursor(request, bodyStart + 1, i)
        invariant TopicsFit(request, bodyStart + 1, i)
        invariant topicNames == old(topicNames) + TopicNames(request, bodyStart + 1, i)
      {
        WalkStep(request, bodyStart + 1, i, count);
        var topicNameLength := request[currentPosition] as int - 1;
        currentPosition := currentPosition + 1;
        // A negative length slices nothing.
        var topicName := if topicNameLength < 0 then [] else request[currentPosition..currentPosition + topicNameLength];
        topicNames := topicNames + [topicName];
        currentPosition := currentPosition + topicNameLength + 1;
        i := i + 1;
      }
    }

    /** `_get_error_code`: store the error code of the rule and return its value. */
    method GetErrorCode() returns (code: int)
      requires ValidityResolved()
      modifies this`errorCode
      ensures errorCode == Some(RequestErrorCode(supportedApis, requestApiKey, requestApiVersion))
      ensures code == errorCode.value.Value()
    {
      errorCode := Some(
        if isValidApiKey && minVer <= requestApiVersion < maxVer + 1 then NoErrors else UnsupportedVersion);
      code := errorCode.value.Value();
    }

    /** `_create_api_version_response`. */
    method CreateApiVersionResponse()
      requires ValidityResolved() && correlationId < TWO_32 && ApiVersionsFits(supportedApis, requestApiKey)
      modifies this`errorCode, this`response
      ensures errorCode == Some(RequestErrorCode(supportedApis, requestApiKey, requestApiVersion))
      ensures response == Some(ApiVersionsResponse(supportedApis, requestApiKey, requestApiVersion, correlationId))
    {
      var header: Bytes := EncodeU32(correlationId);
      var code := GetErrorCode();
      ghost var rule := errorCode.value;
      var bodyBytes: Bytes := EncodeI16(code);

      var apiKeysToInclude := SelectApiKeys(supportedApis, requestApiKey);
      bodyBytes := bodyBytes + [|apiKeysToInclude| + 1];
      bodyBytes := PackApiEntries(bodyBytes, apiKeysToInclude);
      ApiBodyAssembled(rule, apiKeysToInclude, bodyBytes);
      bodyBytes := bodyBytes + [0];
      bodyBytes := bodyBytes + EncodeI32(0);

      var messageContent: Bytes := header + bodyBytes;
      var fullMessage: Bytes := EncodeI32(|messageContent|) + messageContent;
      assert fullMessage == ApiVersionsMessage(correlationId, rule, apiKeysToInclude);
      response := Some(fullMessage);
    }

    /** `_create_describe_topic_partitions_response`. */
    method CreateDescribeTopicPartitionsResponse()
      requires correlationId < TWO_32 && NamesFit(topicNames)
      modifies this`response
      ensures response == Some(DescribeTopicPartitionsResponse(correlationId, topicNames))
    {
      var header := EncodeU32(correlationId) + [0];
      var bodyBytes := EncodeI32(0);
      bodyBytes := bodyBytes + [|topicNames| + 1];
      ghost var prefix := bodyBytes;
      for i := 0 to |topicNames|
        invariant bodyBytes == prefix + TopicEntries(topicNames[..i])
      {
        ghost var before := bodyBytes;
        var topicName := topicNames[i];
        bodyBytes := bodyBytes + EncodeI16(UnknownTopicOrPartition.Value());
        bodyBytes := bodyBytes + [|topicName| + 1];
        bodyBytes := bodyBytes + topicName;
        bodyBytes := bodyBytes + NIL_TOPIC_ID;
        bodyBytes := bodyBytes + [0];
        bodyBytes := bodyBytes + [0 + 1];
        bodyBytes := bodyBytes + EncodeI32(0);
        bodyBytes := bodyBytes + [0];
        TopicEntryStep(topicNames, i, prefix, before, bodyBytes);
      }
      TopicsBodyAssembled(topicNames, bodyBytes);
      bodyBytes := bodyBytes + EncodeI8(-1);
      bodyBytes := bodyBytes + [0];

      TopicsSizeBound(topicNames);
      var messageContent := header + bodyBytes;
      var fullMessage := EncodeI32(|messageContent|) + messageContent;
      response := Some(fullMessage);
    }

    /**
     * `create_response`: key 18 builds the ApiVersions response, key 75 parses
     * the body and builds the DescribeTopicPartitions response, and any other
     * key runs no builder, so the response stays whatever it was.
     */
    method CreateResponse() returns (r: Option<Bytes>)
      requires HeaderParsed()
      requires requestApiKey == API_VERSIONS_KEY ==> ApiVersionsFits(supportedApis, requestApiKey)
      requires requestApiKey == DESCRIBE_TOPIC_PARTITIONS_KEY ==>
        BodyFits(request, headerEndsAtByte)
        && NamesFit(topicNames + ParseTopicNames(request, headerEndsAtByte))
      modifies this`topicNames, this`errorCode, this`response
      ensures HeaderParsed()
      ensures requestApiKey == API_VERSIONS_KEY ==>
        topicNames == old(topicNames)
        && errorCode == Some(RequestErrorCode(supportedApis, requestApiKey, requestApiVersion))
        && response == Some(ApiVersionsResponse(supportedApis, requestApiKey, requestApiVersion, correlationId))
      ensures requestApiKey == DESCRIBE_TOPIC_PARTITIONS_KEY ==>
        topicNames == old(topicNames) + ParseTopicNames(request, headerEndsAtByte)
        && errorCode == old(errorCode)
        && response == Some(DescribeTopicPartitionsResponse(correlationId, topicNames))
      ensures requestApiKey != API_VERSIONS_KEY && requestApiKey != DESCRIBE_TOPIC_PARTITIONS_KEY ==>
        topicNames == old(topicNames) && errorCode == old(errorCode) && response == old(response)
      ensures r == response
    {
      if requestApiKey == API_VERSIONS_KEY {
        CreateApiVersionResponse();
      } else if requestApiKey == DESCRIBE_TOPIC_PARTITIONS_KEY {
        ParseDescribeTopicPartitionsRequestBody();
        CreateDescribeTopicPartitionsResponse();
      }
      r := response;
    }
  }

  // ----- the request-to-response function the object computes -----

  /** What the dispatcher needs of a request for the key it carries. */
  predicate DispatchFits(table: Table, request: Bytes) {
    HeaderFits(request)
    && var key := ParseHeader(request).apiKey;
    (key == API_VERSIONS_KEY ==> ApiVersionsFits(table, key))
    && (key == DESCRIBE_TOPIC_PARTITIONS_KEY ==> BodyFits(request, BodyStart(request)))
  }

  /**
   * The response a fresh handler produces for one request: an ApiVersions
   * response for key 18, a DescribeTopicPartitions response for key 75, and
   * nothing for any other key. Every response carries a size prefix equal to
   * the number of bytes after it and echoes the correlation id in bytes 4-7.
   */
  function Dispatch(table: Table, request: Bytes): (r: Option<Bytes>)
    requires DispatchFits(table, request)
    ensures r.Some? <==> ParseHeader(request).apiKey in {API_VERSIONS_KEY, DESCRIBE_TOPIC_PARTITIONS_KEY}
    ensures r.Some? ==> |r.value| >= 16 && DecodeI32(r.value[..4]) == |r.value| - 4
    ensures r.Some? ==> DecodeU32(r.value[4..8]) == ParseHeader(request).correlationId
  {
    var h := ParseHeader(request);
    if h.apiKey == API_VERSIONS_KEY then
      Some(ApiVersionsResponse(table, h.apiKey, h.apiVersion, h.correlationId))
    else if h.apiKey == DESCRIBE_TOPIC_PARTITIONS_KEY then
      Some(DescribeTopicPartitionsResponse(h.correlationId, ParseTopicNames(request, BodyStart(request))))
    else
      None
  }

  /** Handling one request with a fresh handler object computes `Dispatch`. */
  method HandleRequest(table: Table, request: Bytes) returns (r: Option<Bytes>)
    requires DispatchFits(table, request)
    ensures r == Dispatch(table, request)
  {
    var kafka := new Kafka(request, table);
    if kafka.requestApiKey == DESCRIBE_TOPIC_PARTITIONS_KEY {
      var names := ParseTopicNames(request, BodyStart(request));
      assert kafka.topicNames + names == names;
    }
    r := kafka.CreateResponse();
  }

  /**
   * End to end for ApiVersions: for a request a client encoded with key 18,
   * the decoded response echoes the correlation id, carries the error code of
   * the rule and advertises exactly the selected entries.
   */
  lemma ApiVersionsEndToEnd(table: Table, h: Header, body: Bytes)
    requires h.WellFormed() && h.apiKey == API_VERSIONS_KEY && ApiVersionsFits(table, h.apiKey)
    ensures DispatchFits(table, EncodeHeader(h) + body)
    ensures Dispatch(table, EncodeHeader(h) + body).Some?
    ensures DecodeApiVersionsResponse(Dispatch(table, EncodeHeader(h) + body).value)
      == Some(ApiVersionsReply(h.correlationId, RequestErrorCode(table, h.apiKey, h.apiVersion).Value(),
                               Selected(table, h.apiKey), 0))
  {
    HeaderRoundTrip(h, body);
    ApiVersionsRoundTrip(table, h.apiKey, h.apiVersion, h.correlationId);
  }

  /**
   * End to end for DescribeTopicPartitions: for a request a client encoded
   * with key 75 and a topics array, the decoded response echoes the
   * correlation id and reports every requested name, in order, as unknown.
   */
  lemma DescribeEndToEnd(table: Table, h: Header, names: seq<Bytes>, rest: Bytes)
    requires h.WellFormed() && h.apiKey == DESCRIBE_TOPIC_PARTITIONS_KEY && NamesFit(names)
    ensures DispatchFits(table, EncodeHeader(h) + EncodeTopicsBody(names) + rest)
    ensures Dispatch(table, EncodeHeader(h) + EncodeTopicsBody(names) + rest).Some?
    ensures DecodeDescribeTopicPartitionsResponse(Dispatch(table, EncodeHeader(h) + EncodeTopicsBody(names) + rest).value)
      == Some(DescribeReply(h.correlationId, 0, UnknownTopics(names), -1))
  {
    var request := EncodeHeader(h) + EncodeTopicsBody(names) + rest;
    assert request == EncodeHeader(h) + (EncodeTopicsBody(names) + rest);
    HeaderRoundTrip(h, EncodeTopicsBody(names) + rest);
    TopicsRoundTrip(names, EncodeHeader(h), rest);
    DescribeRoundTrip(h.correlationId, names);
  }
}
