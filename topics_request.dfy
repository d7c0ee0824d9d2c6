/**
 * The part of a DescribeTopicPartitions v0 request body the codec reads: a
 * compact array of compact strings, walked with a cursor. Each topic is a
 * length byte `b`, then `b - 1` name bytes, then a tag byte that is skipped
 * without being read. The rest of the body is not decoded.
 */
module TopicsRequest {
  import opened Wire

  /**
   * The number of name bytes a compact length byte announces. A byte of 0
   * announces -1 bytes, and Python's slice with a negative length is empty.
   */
  function NameLength(b: Byte): (n: nat)
    ensures n <= 254
    ensures b > 0 ==> n == b - 1
    ensures b == 0 ==> n == 0
  {
    if b == 0 then 0 else b - 1
  }

  /**
   * Where the cursor stands after `i` topics starting at `start`: each topic
   * moves it by `1 + (b - 1) + 1`, which is `b + 1` for a length byte `b`
   * (a 0 byte moves it by one). Defined whatever the buffer holds.
   */
  function Cursor(request: Bytes, start: nat, i: nat): nat
  {
    if i == 0 then start
    else
      var q := Cursor(request, start, i - 1);
      if q < |request| then q + request[q] + 1 else q
  }

  /** The topic whose length byte is at `q` lies inside the buffer. */
  predicate TopicAtFits(request: Bytes, q: nat) {
    q < |request| && q + 1 + NameLength(request[q]) <= |request|
  }

  /** The name of the topic whose length byte is at `q`. */
  function NameAt(request: Bytes, q: nat): (name: Bytes)
    requires TopicAtFits(request, q)
    ensures |name| < 255
  {
    request[q + 1..q + 1 + NameLength(request[q])]
  }

  /** The first `n` topics from `start` lie inside the buffer. */
  predicate TopicsFit(request: Bytes, start: nat, n: nat) {
    n == 0 || (TopicsFit(request, start, n - 1) && TopicAtFits(request, Cursor(request, start, n - 1)))
  }

  /** Fewer topics fit whenever more do. */
  lemma {:induction false} TopicsFitFewer(request: Bytes, start: nat, n: nat, m: nat)
    requires m <= n && TopicsFit(request, start, n)
    ensures TopicsFit(request, start, m)
    decreases n
  {
    if m < n {
      TopicsFitFewer(request, start, n - 1, m);
    }
  }

  /** The names of the first `n` topics, in request order. */
  function TopicNames(request: Bytes, start: nat, n: nat): (names: seq<Bytes>)
    requires TopicsFit(request, start, n)
    ensures |names| == n
  {
    if n == 0 then [] else TopicNames(request, start, n - 1) + [NameAt(request, Cursor(request, start, n - 1))]
  }

  /** Every name read is shorter than 255 bytes, since its length came from one byte. */
  lemma {:induction false} TopicNamesShort(request: Bytes, start: nat, n: nat)
    requires TopicsFit(request, start, n)
    ensures forall i | 0 <= i < n :: |TopicNames(request, start, n)[i]| < 255
  {
    if n > 0 {
      TopicNamesShort(request, start, n - 1);
    }
  }

  /**
   * One step of the cursor walk, in the terms the codec computes it: the
   * length byte at the cursor is read, the name is the next `b - 1` bytes (none
   * for a negative length), and the cursor moves by `1 + (b - 1) + 1`.
   */
  lemma {:induction false} WalkStep(request: Bytes, start: nat, i: nat, n: nat)
    requires i < n && TopicsFit(request, start, n)
    ensures TopicsFit(request, start, i + 1)
    ensures var q := Cursor(request, start, i);
      var len := request[q] as int - 1;
      q < |request| && q + 1 + NameLength(request[q]) <= |request|
      && Cursor(request, start, i + 1) == q + 1 + len + 1
      && TopicNames(request, start, i + 1)
         == TopicNames(request, start, i) + [if len < 0 then [] else request[q + 1..q + 1 + len]]
  {
    TopicsFitFewer(request, start, n, i + 1);
    var q := Cursor(request, start, i);
    assert TopicAtFits(request, q);
    assert TopicNames(request, start, i + 1) == TopicNames(request, start, i) + [NameAt(request, q)];
  }

  /**
   * The compact count byte at the body start: `c - 1` topics, and none when
   * `c` is 0 (`range` of a negative number is empty).
   */
  function TopicCount(request: Bytes, bodyStart: nat): (n: nat)
    requires bodyStart < |request|
    ensures n <= 254
    ensures request[bodyStart] > 0 ==> n == request[bodyStart] - 1
    ensures request[bodyStart] == 0 ==> n == 0
  {
    NameLength(request[bodyStart])
  }

  /** The count byte and every announced topic lie inside the buffer. */
  predicate BodyFits(request: Bytes, bodyStart: nat) {
    bodyStart < |request| && TopicsFit(request, bodyStart + 1, TopicCount(request, bodyStart))
  }

  /** Each name and the number of names fit in one compact length byte. */
  predicate NamesFit(names: seq<Bytes>) {
    |names| + 1 <= 255 && forall i | 0 <= i < |names| :: |names[i]| + 1 <= 255
  }

  /** `_parse_describe_topic_partitions_request_body`: the topic names, in request order. */
  function ParseTopicNames(request: Bytes, bodyStart: nat): (names: seq<Bytes>)
    requires BodyFits(request, bodyStart)
    ensures |names| == TopicCount(request, bodyStart)
    ensures NamesFit(names)
  {
    TopicNamesShort(request, bodyStart + 1, TopicCount(request, bodyStart));
    TopicNames(request, bodyStart + 1, TopicCount(request, bodyStart))
  }

  /** The cursor position once the topics are read: where the unread rest of the body begins. */
  function TopicsEnd(request: Bytes, bodyStart: nat): nat
    requires BodyFits(request, bodyStart)
  {
    Cursor(request, bodyStart + 1, TopicCount(request, bodyStart))
  }

  // ----- the request as a client encodes it -----
  //
  // The protocol writes compact lengths and counts as unsigned varints, which
  // take one byte only below 128. These encoders write one byte up to 254, as
  // the parser reads it, so they match a real client only for names shorter
  // than 127 bytes and fewer than 127 topics.

  /** One topic: compact length `|name| + 1`, the name, an empty tag buffer. */
  function EncodeTopic(name: Bytes): (r: Bytes)
    requires |name| + 1 <= 255
    ensures |r| == |name| + 2 && r[0] == |name| + 1
  {
    [|name| + 1] + name + [0]
  }

  /** The topics one after the other. */
  function EncodeTopics(names: seq<Bytes>): Bytes
    requires forall i | 0 <= i < |names| :: |names[i]| + 1 <= 255
  {
    if names == [] then [] else EncodeTopics(names[..|names| - 1]) + EncodeTopic(names[|names| - 1])
  }

  /** The topics array: compact count `|names| + 1`, then the topics. */
  function EncodeTopicsBody(names: seq<Bytes>): Bytes
    requires NamesFit(names)
  {
    [|names| + 1] + EncodeTopics(names)
  }

  /**
   * Walking an encoded topics array: after `i` topics the cursor stands just
   * after the encoding of the first `i` names, every topic so far fits, and the
   * names read so far are the first `i` names.
   */
  lemma {:induction false} WalkEncodedTopics(names: seq<Bytes>, request: Bytes, start: nat, i: nat)
    requires NamesFit(names) && i <= |names|
    requires start + |EncodeTopics(names)| <= |request|
    requires request[start..start + |EncodeTopics(names)|] == EncodeTopics(names)
    ensures Cursor(request, start, i) == start + |EncodeTopics(names[..i])|
    ensures TopicsFit(request, start, i)
    ensures TopicNames(request, start, i) == names[..i]
  {
    if i == 0 {
      assert names[..0] == [];
    } else {
      WalkEncodedTopics(names, request, start, i - 1);
      WalkOne(names, request, start, i);
    }
  }

  /** The step of that walk from `i - 1` topics to `i`. */
  lemma WalkOne(names: seq<Bytes>, request: Bytes, start: nat, i: nat)
    requires NamesFit(names) && 0 < i <= |names|
    requires start + |EncodeTopics(names)| <= |request|
    requires request[start..start + |EncodeTopics(names)|] == EncodeTopics(names)
    requires Cursor(request, start, i - 1) == start + |EncodeTopics(names[..i - 1])|
    requires TopicsFit(request, start, i - 1)
    requires TopicNames(request, start, i - 1) == names[..i - 1]
    ensures Cursor(request, start, i) == start + |EncodeTopics(names[..i])|
    ensures TopicsFit(request, start, i)
    ensures TopicNames(request, start, i) == names[..i]
  {
    var done := EncodeTopics(names[..i - 1]);
    var q := start + |done|;
    var name := names[i - 1];
    EncodeTopicsStep(names, i);
    PrefixOfEncoding(names, i);
    TopicStep(request, start, EncodeTopics(names), done, name);
    TopicsFitStep(request, start, i, q, name);
  }

  /** A topic that fits at the cursor extends the walk by one topic. */
  lemma TopicsFitStep(request: Bytes, start: nat, i: nat, q: nat, name: Bytes)
    requires 0 < i && TopicsFit(request, start, i - 1)
    requires q == Cursor(request, start, i - 1) && TopicAtFits(request, q) && NameAt(request, q) == name
    ensures TopicsFit(request, start, i)
    ensures Cursor(request, start, i) == q + request[q] + 1
    ensures TopicNames(request, start, i) == TopicNames(request, start, i - 1) + [name]
  {
  }

  /** The encoding of the first `i` names extends that of the first `i - 1` by one topic. */
  lemma EncodeTopicsStep(names: seq<Bytes>, i: nat)
    requires NamesFit(names) && 0 < i <= |names|
    ensures names[..i] == names[..i - 1] + [names[i - 1]]
    ensures EncodeTopics(names[..i]) == EncodeTopics(names[..i - 1]) + EncodeTopic(names[i - 1])
  {
    assert names[..i][..i - 1] == names[..i - 1];
  }

  /** One step of the walk: the topic encoded right after `done` is read back whole. */
  lemma TopicStep(request: Bytes, start: nat, whole: Bytes, done: Bytes, name: Bytes)
    requires |name| + 1 <= 255
    requires start + |whole| <= |request| && request[start..start + |whole|] == whole
    requires |done| + |name| + 2 <= |whole| && whole[..|done| + |name| + 2] == done + EncodeTopic(name)
    ensures TopicAtFits(request, start + |done|)
    ensures NameAt(request, start + |done|) == name
    ensures request[start + |done|] as int + 1 == |EncodeTopic(name)|
  {
    var q := start + |done|;
    var topic := EncodeTopic(name);
    forall k | 0 <= k < |topic|
      ensures request[q + k] == topic[k]
    {
      assert request[start..start + |whole|][|done| + k] == whole[|done| + k];
      assert whole[..|done| + |name| + 2][|done| + k] == (done + topic)[|done| + k];
    }
    assert request[q] == topic[0];
    forall j | 0 <= j < |name|
      ensures request[q + 1..q + 1 + |name|][j] == name[j]
    {
      assert request[q + 1 + j] == topic[1 + j];
    }
  }

  /** The encoding of a prefix of the names is a prefix of the encoding. */
  lemma {:induction false} PrefixOfEncoding(names: seq<Bytes>, i: nat)
    requires NamesFit(names) && i <= |names|
    ensures |EncodeTopics(names[..i])| <= |EncodeTopics(names)|
    ensures EncodeTopics(names[..i]) == EncodeTopics(names)[..|EncodeTopics(names[..i])|]
    decreases |names|
  {
    if i < |names| {
      var init := names[..|names| - 1];
      assert names[..i] == init[..i];
      assert NamesFit(init);
      PrefixOfEncoding(init, i);
    } else {
      assert names[..i] == names;
    }
  }

  /**
   * Round trip: wherever a client's topics array stands in the request, and
   * whatever follows it, parsing it gives back the names, in order, and the
   * cursor ends just after the array.
   */
  lemma TopicsRoundTrip(names: seq<Bytes>, prefix: Bytes, rest: Bytes)
    requires NamesFit(names)
    ensures BodyFits(prefix + EncodeTopicsBody(names) + rest, |prefix|)
    ensures ParseTopicNames(prefix + EncodeTopicsBody(names) + rest, |prefix|) == names
    ensures TopicsEnd(prefix + EncodeTopicsBody(names) + rest, |prefix|) == |prefix| + |EncodeTopicsBody(names)|
  {
    var request := prefix + EncodeTopicsBody(names) + rest;
    var start := |prefix| + 1;
    assert request[|prefix|] == |names| + 1;
    assert request[start..start + |EncodeTopics(names)|] == EncodeTopics(names);
    WalkEncodedTopics(names, request, start, |names|);
    assert names[..|names|] == names;
  }
}
