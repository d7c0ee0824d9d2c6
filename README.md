# A verified model of a minimal Kafka broker's request codec

This project models the request codec of a small Kafka-compatible broker
written in Python (`app/kafka.py`). The codec handles one request at a time:

- it parses the request header v2 (API key, API version, correlation id and
  client id at fixed big-endian offsets) and works out where the body starts;
- it checks the API key and version against a table of supported APIs and
  derives an error code (0 = NO_ERRORS, 35 = UNSUPPORTED_VERSION);
- for an ApiVersions request (key 18) it builds an ApiVersions v4 response;
- for a DescribeTopicPartitions request (key 75) it walks the compact array of
  topic names in the body and builds a DescribeTopicPartitions v0 response
  that reports every topic as UNKNOWN_TOPIC_OR_PARTITION (3);
- for any other key it builds nothing.

The Dafny modules follow that structure:

| module | file | contents |
|---|---|---|
| `Wrappers` | wire.dfy | `Option` |
| `Wire` | wire.dfy | bytes, big-endian signed and unsigned 16/32-bit fields, length framing |
| `Registry` | registry.dfy | the supported-API table, the validity check, the error-code rule |
| `RequestHeader` | request_header.dfy | header parsing and the header a client encodes |
| `TopicsRequest` | topics_request.dfy | the topics array of a DescribeTopicPartitions request |
| `ApiVersions` | api_versions.dfy | the ApiVersions response and a client-side decoder |
| `DescribeTopics` | describe_topics.dfy | the DescribeTopicPartitions response and a client-side decoder |
| `KafkaCodec` | kafka.dfy | the class `Kafka` (the stateful handler) and the request-to-response function |

The handler is a class, as in the source. Its constructor parses the header
into fields. The body parser appends to `topicNames` with a cursor loop. The
two builders grow a byte buffer field by field and then frame it. Each
method is proved against a specification function:

- `ParseTopicNames` for the body parser;
- `ApiVersionsResponse` for the ApiVersions builder;
- `DescribeTopicPartitionsResponse` for the DescribeTopicPartitions builder.

Every specification function has a partner:

- the header and topics parsers have client-side encoders, and round-trip
  lemmas show that parsing gives back what was encoded;
- the responses have client-side decoders, and round-trip lemmas show that
  a client reads back the correlation id, the error code and the entries;
- the selection of advertised APIs has a reference definition (the rows with
  the right key, in table order) and a lemma relating the two.

Where the Kafka protocol's description of these messages and the code
differ, the model follows the code:

- The API key is used as an INDEX into the table (`key < len(table)`, then
  `table[key]`), not looked up by key. `Registry.PositionalLookupAgrees`
  shows the two agree whenever row `i` has key `i`. With an example
  table of keys 0-18 followed by key 75 (an assumed shape, since the real
  table is not part of this model), key 75 counts as invalid and key 19 as
  valid (`Registry.ExampleTablePositionalQuirk`).
- The API key, API version and client-id length are read UNSIGNED. So the
  client-id length is never negative, and no "absent client id" (-1) case
  exists.
- A buffer that is too short is not rejected. Python slicing truncates
  silently. The model states the needed length as a precondition instead.

## Model

| member | source | states |
|---|---|---|
| Wire.DecodeU16 | app/kafka.py:54-55 | an unsigned big-endian two-byte field is below 2^16 |
| Wire.DecodeU32 | app/kafka.py:56 | an unsigned big-endian four-byte field, such as the correlation id, is below 2^32 |
| Wire.DecodeI32 | app/kafka.py:156-158 | a four-byte field read as int32 is in int32 range and is negative exactly when its top bit is set |
| Wire.EncodeU32 | app/kafka.py:120 | the '>I' packing of the correlation id is four bytes that decode back to it |
| Wire.EncodeI16 | app/kafka.py:127 | the '!h' packing is two bytes that decode back to the value |
| Wire.EncodeI32 | app/kafka.py:150 | the '!i' packing is four bytes that decode back to the value |
| Wire.EncodeI8 | app/kafka.py:204 | the '!b' packing of -1 is one byte that reads back as -1 as a signed byte |
| Wire.EncodeDecodeU32 | app/kafka.py:56 | every four-byte field is the encoding of the value read from it, so decoding loses nothing |
| Wire.Frame | app/kafka.py:155-158 | the size prefix decodes to the number of bytes after it, and the content follows unchanged |
| Registry.ErrorCode.Value | app/kafka.py:5-8 | each error code value packs as an int16 |
| Registry.ErrorCodeFor | app/kafka.py:100-110 | NO_ERRORS exactly when the key is valid and min_ver <= version <= max_ver, UNSUPPORTED_VERSION exactly otherwise |
| Registry.RequestErrorCode | app/kafka.py:72-74 | over the table: code 0 exactly when key < len(table) and table[key] brackets the version; otherwise 35; always 35 for a key past the table |
| Registry.FindByKey | app/kafka.py:72-74 | reference lookup by key: a result is a table row carrying the key, and there is none exactly when no row carries it |
| Registry.IsValidApiKey | app/kafka.py:72 | the key is valid when it is a position in the table |
| Registry.MinVer | app/kafka.py:73 | the minimum version at the key's position, or 0 for an invalid key |
| Registry.MaxVer | app/kafka.py:74 | the maximum version at the key's position, or 0 for an invalid key |
| Registry.PositionalLookupAgrees | app/kafka.py:72-74 | the positional validity and min/max versions agree with the lookup by key whenever row i carries key i |
| Registry.ExampleTablePositionalQuirk | app/kafka.py:72-74 | with the example table of keys 0-18 then 75, key 75 is invalid and key 19 valid; key 18 at version 4 succeeds and at version 5 gets 35 |
| RequestHeader.ClientIdLength | app/kafka.py:58 | the client-id length is read unsigned, so it lies in [0, 2^16) |
| RequestHeader.EncodeHeader | app/kafka.py:53-69 | a client's header takes 10 bytes plus the client id plus one tag byte |
| RequestHeader.ParseHeader | app/kafka.py:53-60 | the parsed fields fit their widths, the client id has the announced length, and re-encoding them gives back the header bytes they came from |
| RequestHeader.BodyStart | app/kafka.py:69 | the body starts just after the header's own encoding, the client id and the tag byte |
| RequestHeader.HeaderRoundTrip | app/kafka.py:53-69 | parsing a header a client encoded, whatever body follows, gives back that header, and the body starts right after it |
| TopicsRequest.NameLength | app/kafka.py:88-90 | a length byte b > 0 announces b - 1 name bytes, and a 0 byte announces none, since a negative slice is empty |
| TopicsRequest.Cursor | app/kafka.py:85-92 | where the cursor stands after i topics: each moves it by 1 + (b - 1) + 1 for its length byte b |
| TopicsRequest.TopicNames | app/kafka.py:87-91 | the names of the first n topics, in request order, one per topic |
| TopicsRequest.TopicCount | app/kafka.py:84 | a compact count byte c announces c - 1 topics, and none for c = 0 |
| TopicsRequest.NameAt | app/kafka.py:90 | a name read after one length byte is shorter than 255 bytes |
| TopicsRequest.TopicNamesShort | app/kafka.py:87-91 | every name the walk reads is shorter than 255 bytes |
| TopicsRequest.WalkStep | app/kafka.py:87-92 | one loop step reads the length byte at the cursor, takes the next b - 1 bytes as the name, and moves the cursor by 1 + (b - 1) + 1 |
| TopicsRequest.ParseTopicNames | app/kafka.py:80-92 | the parser yields as many names as the count byte announces, each and their number small enough to echo in one length byte |
| TopicsRequest.EncodeTopic | app/kafka.py:88-92 | a client's topic is its length byte len + 1, the name and a tag byte |
| TopicsRequest.WalkEncodedTopics | app/kafka.py:87-92 | walking a client's topics array, after i topics the cursor stands after the first i encodings and the names read are the first i names |
| TopicsRequest.TopicsRoundTrip | app/kafka.py:80-92 | wherever a client's topics array sits and whatever follows it, the parser gives back its names in order and the cursor ends just after it |
| ApiVersions.Picked | app/kafka.py:131-134 | what one row adds: itself if its key is the requested key, and itself again if its key is 75 |
| ApiVersions.Selected | app/kafka.py:129-134 | the advertised rows: what each row picks, in table order |
| ApiVersions.RowsWithKey | app/kafka.py:129-134 | reference selection: the rows with either of two keys, in table order, never more than the table |
| ApiVersions.SelectedMembers | app/kafka.py:129-134 | a row is advertised exactly when it is in the table and its key is the requested key or 75 |
| ApiVersions.SelectedIsFilter | app/kafka.py:129-134 | for a key other than 75 the advertised rows are the reference selection; for key 75 each row for 75 appears twice in a row |
| ApiVersions.SelectStep | app/kafka.py:130-134 | the two independent tests on row i extend the selection of the first i rows to that of the first i + 1 |
| ApiVersions.SelectApiKeys | app/kafka.py:129-134 | the selection loop computes the advertised rows |
| ApiVersions.EncodeApiEntry | app/kafka.py:143-144 | an entry is 7 bytes: key, min and max as int16, then a tag byte |
| ApiVersions.EncodeApiEntries | app/kafka.py:142-144 | the entries take 7 bytes each |
| ApiVersions.ApiEntriesStep | app/kafka.py:142-144 | packing entry j after the first j entries gives the packing of the first j + 1 |
| ApiVersions.PackApiEntries | app/kafka.py:142-144 | the packing loop appends the encodings of all entries, in order |
| ApiVersions.ApiVersionsBody | app/kafka.py:127-150 | the body is 8 bytes plus 7 per entry |
| ApiVersions.ApiBodyAssembled | app/kafka.py:127-150 | the error code, the count byte, the entries, the tag byte and the throttle time appended in the builder's order make up the body |
| ApiVersions.ApiVersionsMessage | app/kafka.py:155-158 | the message is 16 + 7n bytes; its prefix counts the rest, bytes 4-7 echo the correlation id, bytes 8-9 carry the error code and byte 10 is n + 1 |
| ApiVersions.ApiVersionsResponse | app/kafka.py:112-160 | the response is 16 + 7n bytes for the n advertised rows; its prefix counts the rest; it echoes the correlation id; its error code is 0 exactly when the key indexes a row bracketing the version; its count byte is n + 1 |
| ApiVersions.EntryFields | app/kafka.py:144 | the three int16 fields of an entry sit at bytes 0-1, 2-3 and 4-5 and byte 6 is the tag byte |
| ApiVersions.ApiEntriesRoundTrip | app/kafka.py:142-144 | a client decoding the packed entries gets them back, in order |
| ApiVersions.BodyCodeAt | app/kafka.py:127-138 | the body opens with the error code and the count byte n + 1 |
| ApiVersions.BodyEntriesAt | app/kafka.py:138-144 | between the count byte and the trailer lie exactly the entries, which decode back |
| ApiVersions.BodyThrottleAt | app/kafka.py:147-150 | the body ends with a 0 tag byte and a zero throttle time |
| ApiVersions.BodyRoundTrip | app/kafka.py:127-150 | a client decoding the body reads the error code, the entries and a zero throttle time |
| ApiVersions.MessageBody | app/kafka.py:155-158 | the body follows the size prefix and the 4-byte header |
| ApiVersions.MessageRoundTrip | app/kafka.py:155-158 | a client decoding the message reads the correlation id, error code, entries and zero throttle time |
| ApiVersions.ApiVersionsRoundTrip | app/kafka.py:112-160 | a client decoding the response reads the correlation id, the error code of the rule and exactly the advertised rows |
| DescribeTopics.TopicEntry | app/kafka.py:194-201 | one topic entry takes 26 bytes plus the name |
| DescribeTopics.TopicEntries | app/kafka.py:191-201 | the entries take the sum of 26 + len(name) over the names |
| DescribeTopics.TopicEntriesAppend | app/kafka.py:191-201 | one more name adds its entry at the end |
| DescribeTopics.EntryAppended | app/kafka.py:194-201 | the eight fields appended one by one make up one entry |
| DescribeTopics.TopicEntryStep | app/kafka.py:191-201 | one loop step extends the entries of the first i names to those of the first i + 1 |
| DescribeTopics.TopicsSizeBound | app/kafka.py:186-201 | at most 280 bytes per topic, so the message size fits its int32 prefix |
| DescribeTopics.DescribeTopicPartitionsBody | app/kafka.py:175-207 | the body is 7 bytes plus the entries |
| DescribeTopics.TopicsBodyAssembled | app/kafka.py:175-207 | the throttle time, the count byte, the entries, the cursor byte and the tag byte in the builder's order make up the body |
| DescribeTopics.DescribeTopicPartitionsResponse | app/kafka.py:162-217 | the response is 16 + sum(26 + len(name)) bytes; its prefix counts the rest; bytes 4-7 echo the correlation id; byte 8 is the header's tag byte; byte 13 is the count n + 1; it ends with the null cursor 0xFF and a 0 tag byte |
| DescribeTopics.UnknownTopics | app/kafka.py:191-201 | one unknown-topic reply per name, in the same order |
| DescribeTopics.TopicEntryRoundTrip | app/kafka.py:194-201 | a client decoding an entry reads error 3, the name, the nil topic id, not internal, no partitions and zero authorized operations |
| DescribeTopics.TopicEntriesRoundTrip | app/kafka.py:191-201 | a client decoding the entries reads one unknown-topic reply per name, in order |
| DescribeTopics.BodyHeadAt | app/kafka.py:175-186 | the body opens with a zero throttle time and the count byte n + 1 |
| DescribeTopics.BodyEntriesAt | app/kafka.py:186-201 | between the count byte and the trailer lie exactly the entries, which decode back |
| DescribeTopics.BodyTailAt | app/kafka.py:204-207 | the body ends with the null cursor byte 0xFF and a 0 tag byte |
| DescribeTopics.BodyRoundTrip | app/kafka.py:175-207 | a client decoding the body reads a zero throttle time, the unknown topics and a null cursor (-1) |
| DescribeTopics.MessageBody | app/kafka.py:212-215 | the body follows the size prefix and the 5-byte header |
| DescribeTopics.DescribeRoundTrip | app/kafka.py:162-217 | a client decoding the response reads the correlation id, a zero throttle time, one unknown-topic reply per name in order, and a null cursor |
| KafkaCodec.Kafka.constructor | app/kafka.py:35-38 | a new handler keeps the request and has its header parsed; no topics, error code or response yet |
| KafkaCodec.Kafka.ParseCommonHeaders | app/kafka.py:53-74 | the fields are the header's values, the body start is right after it, and the validity and min/max versions are those the table gives at the key's position |
| KafkaCodec.Kafka.ParseDescribeTopicPartitionsRequestBody | app/kafka.py:80-92 | the cursor loop appends exactly the names of the topics array, in request order |
| KafkaCodec.Kafka.GetErrorCode | app/kafka.py:100-110 | stores the error code of the rule and returns its value |
| KafkaCodec.Kafka.CreateApiVersionResponse | app/kafka.py:112-160 | stores the rule's error code and sets the response to the ApiVersions response for the request |
| KafkaCodec.Kafka.CreateDescribeTopicPartitionsResponse | app/kafka.py:162-217 | sets the response to the DescribeTopicPartitions response for the parsed names |
| KafkaCodec.Kafka.CreateResponse | app/kafka.py:40-51 | key 18 builds only the ApiVersions response; key 75 parses the body and then builds the DescribeTopicPartitions response; any other key changes nothing; the result is the response |
| KafkaCodec.Dispatch | app/kafka.py:40-51 | a response exists exactly for keys 18 and 75; each is at least 16 bytes, has a prefix counting the rest and echoes the correlation id |
| KafkaCodec.HandleRequest | app/kafka.py:35-51 | a fresh handler computes the dispatch function |
| KafkaCodec.ApiVersionsEndToEnd | app/kafka.py:112-160 | for a client's key-18 request, the decoded response echoes the correlation id, has the rule's error code and advertises exactly the selected rows |
| KafkaCodec.DescribeEndToEnd | app/kafka.py:162-217 | for a client's key-75 request, the decoded response echoes the correlation id and reports every requested name as unknown, in order |

## Left out

- The TCP server in `app/main.py` (reading frames, reassembling partial reads, connection handling) is not part of this model: it is I/O and concurrency.
- `print_hex` in `app/utils.py` and the debug prints in `app/kafka.py` are logging only.
- The client address is kept by the source for logging only and is not modelled.
- UTF-8: client ids and topic names are raw bytes. The source decodes them (which can raise on invalid UTF-8) and re-encodes names; the length byte it writes counts characters, which equals the byte length only for ASCII names.
- `topicNames` is a field of each handler that starts empty. In the source it is a class-level list shared by every handler, so names accumulate across requests. `KafkaCodec.Kafka.CreateResponse` states its result for any starting list, but the sharing itself (aliasing across objects) is not modelled.
- A null client id (length bytes 0xFFFF) is read as length 65535. `HeaderFits` then rejects a request shorter than that, while the source truncates the slice and still answers, for example, key 18.
- Compact lengths and counts are unsigned varints in the Kafka protocol, one byte only below 128. The source reads and writes them as single bytes up to 254, and so do the model and its client-side encoders and decoders. The round-trip lemmas therefore describe real clients only for names shorter than 127 bytes and fewer than 127 topics; a longer name or count is misread by the source, and that misreading is not modelled.
- The supported-API table (`app/supported_apis`) is not part of this model; it is a parameter of the handler.
- An unknown API key leaves the response unassigned, so the source raises `AttributeError`; the model returns `None` instead.
- Short buffers: Python slicing truncates, and `struct.pack` raises on a count or length above 255 or a field outside int16. The model instead requires a long enough buffer (`HeaderFits`, `BodyFits`) and fitting fields (`ApiVersionsFits`, `NamesFit`).
