/**
 * The DescribeTopicPartitions v0 response: header = correlation id and an
 * empty tag buffer; body = zero throttle time, compact count of topics, one
 * entry per requested topic reporting UNKNOWN_TOPIC_OR_PARTITION, a null next
 * cursor (-1) and an empty tag buffer. The whole is framed by a 4-byte size.
 */
module DescribeTopics {
  import opened Wrappers
  import opened Wire
  import opened Registry
  import opened TopicsRequest

  /** The nil topic id, 16 zero bytes. */
  const NIL_TOPIC_ID: Bytes := Zeros(16)

  /**
   * One topic entry: error code 3 (int16), compact name length, the name, the
   * nil topic id, is_internal 0, an empty partitions array (compact count 1),
   * zero authorized operations (int32) and an empty tag buffer.
   */
  function TopicEntry(name: Bytes): (r: Bytes)
    requires |name| + 1 <= 255
    ensures |r| == 26 + |name|
  {
    EncodeI16(UnknownTopicOrPartition.Value()) + [|name| + 1] + name + NIL_TOPIC_ID
      + [0] + [0 + 1] + EncodeI32(0) + [0]
  }

  /** The number of bytes the entries for these names take: the sum of 26 + |name|. */
  function TopicsSize(names: seq<Bytes>): nat
  {
    if names == [] then 0 else 26 + |names[0]| + TopicsSize(names[1..])
  }

  /** The entries in request order. */
  function TopicEntries(names: seq<Bytes>): (r: Bytes)
    requires forall i | 0 <= i < |names| :: |names[i]| + 1 <= 255
    ensures |r| == TopicsSize(names)
  {
    if names == [] then [] else TopicEntry(names[0]) + TopicEntries(names[1..])
  }

  /** Adding a name adds its entry at the end. */
  lemma {:induction false} TopicEntriesAppend(names: seq<Bytes>, name: Bytes)
    requires forall i | 0 <= i < |names| :: |names[i]| + 1 <= 255
    requires |name| + 1 <= 255
    ensures TopicEntries(names + [name]) == TopicEntries(names) + TopicEntry(name)
  {
    if names != [] {
      var all := names + [name];
      assert all[0] == names[0] && all[1..] == names[1..] + [name];
      TopicEntriesAppend(names[1..], name);
      assert TopicEntries(all) == TopicEntry(names[0]) + TopicEntries(all[1..]);
    } else {
      assert [name][1..] == [];
    }
  }

  /** One step of the entries loop: the next name's entry, field by field, goes at the end. */
  lemma TopicEntryStep(names: seq<Bytes>, i: nat, prefix: Bytes, before: Bytes, after: Bytes)
    requires i < |names| && forall k | 0 <= k < |names| :: |names[k]| + 1 <= 255
    requires before == prefix + TopicEntries(names[..i])
    requires after == before + EncodeI16(UnknownTopicOrPartition.Value()) + [|names[i]| + 1] + names[i]
      + NIL_TOPIC_ID + [0] + [0 + 1] + EncodeI32(0) + [0]
    ensures after == prefix + TopicEntries(names[..i + 1])
  {
    EntryAppended(names[i], before, after);
    assert names[..i + 1] == names[..i] + [names[i]];
    TopicEntriesAppend(names[..i], names[i]);
  }

  /** Appending the fields of an entry one by one appends the entry. */
  lemma EntryAppended(name: Bytes, before: Bytes, after: Bytes)
    requires |name| + 1 <= 255
    requires after == before + EncodeI16(UnknownTopicOrPartition.Value()) + [|name| + 1] + name
      + NIL_TOPIC_ID + [0] + [0 + 1] + EncodeI32(0) + [0]
    ensures after == before + TopicEntry(name)
  {
  }

  /** The entries of at most 254 names of at most 254 bytes stay small. */
  lemma {:induction false} TopicsSizeBound(names: seq<Bytes>)
    requires forall i | 0 <= i < |names| :: |names[i]| + 1 <= 255
    ensures TopicsSize(names) <= 280 * |names|
  {
    if names != [] {
      TopicsSizeBound(names[1..]);
    }
  }

  /** The response body. */
  function DescribeTopicPartitionsBody(names: seq<Bytes>): (r: Bytes)
    requires NamesFit(names)
    ensures |r| == 7 + TopicsSize(names)
  {
    EncodeI32(0) + [|names| + 1] + TopicEntries(names) + EncodeI8(-1) + [0]
  }

  /** The body put together piece by piece, as the entries loop does. */
  lemma TopicsBodyAssembled(names: seq<Bytes>, packed: Bytes)
    requires NamesFit(names)
    requires packed == EncodeI32(0) + [|names| + 1] + TopicEntries(names[..|names|])
    ensures packed + EncodeI8(-1) + [0] == DescribeTopicPartitionsBody(names)
  {
    assert names[..|names|] == names;
  }

  /**
   * `_create_describe_topic_partitions_response`: the framed response. The size
   * prefix counts the rest, bytes 4-7 echo the correlation id, byte 8 is the
   * header's tag buffer, the count byte is |names| + 1, the next cursor is
   * 0xFF, and the length is 16 plus 26 + |name| per topic.
   */
  function DescribeTopicPartitionsResponse(correlationId: nat, names: seq<Bytes>): (r: Bytes)
    requires correlationId < TWO_32 && NamesFit(names)
    ensures |r| == 16 + TopicsSize(names)
    ensures DecodeI32(r[..4]) == |r| - 4
    ensures DecodeU32(r[4..8]) == correlationId
    ensures r[8] == 0 && r[13] == |names| + 1
    ensures r[|r| - 2] == 0xFF && r[|r| - 1] == 0
  {
    TopicsSizeBound(names);
    var body := DescribeTopicPartitionsBody(names);
    var content := EncodeU32(correlationId) + [0] + body;
    var r := Frame(content);
    assert r[4..8] == content[..4];
    assert r[13] == body[4];
    r
  }

  // ----- reading the response back, as a client does -----
  //
  // The decoder reads the topic count and each name length as one byte, as the builder writes it.
  // The protocol's unsigned varint agrees with that byte only below 128.

  /** What a client reads from one topic entry. */
  datatype TopicReply = TopicReply(
    errorCode: int, name: Bytes, topicId: Bytes, isInternal: bool,
    partitionCount: nat, authorizedOperations: int)

  /** What a client reads from a DescribeTopicPartitions response. */
  datatype DescribeReply = DescribeReply(
    correlationId: nat, throttleTimeMs: int, topics: seq<TopicReply>, nextCursor: int)

  /** The reply for a topic the codec reports as unknown. */
  function UnknownTopic(name: Bytes): TopicReply
  {
    TopicReply(UnknownTopicOrPartition.Value(), name, NIL_TOPIC_ID, false, 0, 0)
  }

  /** One unknown-topic reply per name, in order. */
  function UnknownTopics(names: seq<Bytes>): (r: seq<TopicReply>)
    ensures |r| == |names|
    ensures forall i | 0 <= i < |names| :: r[i] == UnknownTopic(names[i])
  {
    if names == [] then [] else [UnknownTopic(names[0])] + UnknownTopics(names[1..])
  }

  /** One entry at the start of `s`, and the number of bytes it takes. */
  function DecodeTopicEntry(s: Bytes): (r: Option<(TopicReply, nat)>)
    ensures r.Some? ==> 0 < r.value.1 <= |s|
  {
    if |s| < 3 || s[2] == 0 then None
    else
      var n := s[2] as int - 1;
      if |s| < 26 + n || s[20 + n] == 0 || s[25 + n] != 0 then None
      else Some((TopicReply(DecodeI16(s[0..2]), s[3..3 + n], s[3 + n..19 + n], s[19 + n] != 0,
                            s[20 + n] as int - 1, DecodeI32(s[21 + n..25 + n])), 26 + n))
  }

  /** Exactly `count` entries, taking all of `s`. */
  function DecodeTopicEntries(s: Bytes, count: nat): Option<seq<TopicReply>>
    decreases count
  {
    if count == 0 then (if s == [] then Some([]) else None)
    else match DecodeTopicEntry(s)
      case None => None
      case Some((topic, used)) =>
        match DecodeTopicEntries(s[used..], count - 1)
        case None => None
        case Some(rest) => Some([topic] + rest)
  }

  /** The decoder of a whole framed response; None when it is not well formed. */
  function DecodeDescribeTopicPartitionsResponse(r: Bytes): Option<DescribeReply>
  {
    if |r| < 16 || DecodeI32(r[..4]) != |r| - 4 || r[8] != 0 then None
    else match DecodeDescribeBody(r[9..])
      case None => None
      case Some((throttle, topics, cursor)) => Some(DescribeReply(DecodeU32(r[4..8]), throttle, topics, cursor))
  }

  /** The throttle time, the topics and the signed next cursor of a response body. */
  function DecodeDescribeBody(body: Bytes): Option<(int, seq<TopicReply>, int)>
    requires |body| >= 7
  {
    if body[4] == 0 || body[|body| - 1] != 0 then None
    else match DecodeTopicEntries(body[5..|body| - 2], body[4] as int - 1)
      case None => None
      case Some(topics) =>
        var cursor := body[|body| - 2];
        Some((DecodeI32(body[..4]), topics, if cursor < 0x80 then cursor as int else cursor as int - 0x100))
  }

  /** One entry followed by anything decodes to the unknown-topic reply. */
  lemma TopicEntryRoundTrip(name: Bytes, rest: Bytes)
    requires |name| + 1 <= 255
    ensures DecodeTopicEntry(TopicEntry(name) + rest) == Some((UnknownTopic(name), 26 + |name|))
  {
    var s := TopicEntry(name) + rest;
    var n := |name|;
    assert s[2] == n + 1;
    assert s[0..2] == EncodeI16(3);
    assert s[3..3 + n] == name;
    assert s[3 + n..19 + n] == NIL_TOPIC_ID;
    assert s[21 + n..25 + n] == EncodeI32(0);
  }

  /** Decoding encoded entries gives back one unknown-topic reply per name, in order. */
  lemma {:induction false} TopicEntriesRoundTrip(names: seq<Bytes>)
    requires forall i | 0 <= i < |names| :: |names[i]| + 1 <= 255
    ensures DecodeTopicEntries(TopicEntries(names), |names|)
      == Some(UnknownTopics(names))
  {
    if names != [] {
      var first := TopicEntry(names[0]);
      var rest := TopicEntries(names[1..]);
      TopicEntryRoundTrip(names[0], rest);
      assert (first + rest)[|first|..] == rest;
      TopicEntriesRoundTrip(names[1..]);
    }
  }

  /** The body starts with a zero throttle time and the compact count of topics. */
  lemma BodyHeadAt(names: seq<Bytes>)
    requires NamesFit(names)
    ensures var b := DescribeTopicPartitionsBody(names);
      DecodeI32(b[..4]) == 0 && b[4] == |names| + 1
  {
    var b := DescribeTopicPartitionsBody(names);
    var throttle := EncodeI32(0);
    assert b == throttle + [|names| + 1] + TopicEntries(names) + EncodeI8(-1) + [0];
    forall k | 0 <= k < 4
      ensures b[k] == throttle[k]
    {
    }
    assert b[..4] == throttle;
  }

  /** The entries follow the count, and read back as one unknown-topic reply per name. */
  lemma BodyEntriesAt(names: seq<Bytes>)
    requires NamesFit(names)
    ensures var b := DescribeTopicPartitionsBody(names);
      DecodeTopicEntries(b[5..|b| - 2], |names|) == Some(UnknownTopics(names))
  {
    var b := DescribeTopicPartitionsBody(names);
    var entries := TopicEntries(names);
    assert b[5..|b| - 2] == entries by {
      assert b == EncodeI32(0) + [|names| + 1] + entries + EncodeI8(-1) + [0];
      SliceMiddle(EncodeI32(0), [|names| + 1], entries, EncodeI8(-1), [0], 5, |b| - 2);
    }
    TopicEntriesRoundTrip(names);
  }

  /** The body ends with the null cursor byte 0xFF and an empty tag buffer. */
  lemma BodyTailAt(names: seq<Bytes>)
    requires NamesFit(names)
    ensures var b := DescribeTopicPartitionsBody(names);
      b[|b| - 2] == 0xFF && b[|b| - 1] == 0
  {
    var b := DescribeTopicPartitionsBody(names);
    assert b == EncodeI32(0) + [|names| + 1] + TopicEntries(names) + EncodeI8(-1) + [0];
  }

  /** Decoding a body gives back a zero throttle time, the unknown topics and a null cursor. */
  lemma BodyRoundTrip(names: seq<Bytes>)
    requires NamesFit(names)
    ensures DecodeDescribeBody(DescribeTopicPartitionsBody(names)) == Some((0, UnknownTopics(names), -1))
  {
    BodyHeadAt(names);
    BodyEntriesAt(names);
    BodyTailAt(names);
  }

  /** The body follows the size prefix, the correlation id and the header's tag buffer. */
  lemma MessageBody(correlationId: nat, names: seq<Bytes>)
    requires correlationId < TWO_32 && NamesFit(names)
    ensures DescribeTopicPartitionsResponse(correlationId, names)[9..] == DescribeTopicPartitionsBody(names)
  {
    TopicsSizeBound(names);
    var body := DescribeTopicPartitionsBody(names);
    var content := EncodeU32(correlationId) + [0] + body;
    var r := DescribeTopicPartitionsResponse(correlationId, names);
    assert r == Frame(content);
    assert r[4..] == content;
    assert content[5..] == body;
    DropDrop(r, 4, 5);
  }

  /**
   * A client decoding the response reads back the correlation id, a zero
   * throttle time, one unknown-topic entry per name in request order, and a
   * null next cursor.
   */
  lemma DescribeRoundTrip(correlationId: nat, names: seq<Bytes>)
    requires correlationId < TWO_32 && NamesFit(names)
    ensures DecodeDescribeTopicPartitionsResponse(DescribeTopicPartitionsResponse(correlationId, names))
      == Some(DescribeReply(correlationId, 0, UnknownTopics(names), -1))
  {
    MessageBody(correlationId, names);
    BodyRoundTrip(names);
  }
}
