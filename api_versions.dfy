/**
 * The ApiVersions v4 response: header = correlation id (4 bytes); body =
 * error code (int16), compact count of entries, 7 bytes per entry (key, min,
 * max as int16 and an empty tag buffer), an empty tag buffer and a zero
 * throttle time (int32). The whole is framed by a 4-byte size.
 */
module ApiVersions {
  import opened Wrappers
  import opened Wire
  import opened Registry

  /**
   * What one table row adds to the advertised entries. The two tests are
   * independent, so a row for key 75 is added twice when 75 is the requested key.
   */
  function Picked(api: ApiRange, apiKey: int): seq<ApiRange>
  {
    (if api.apiKey == apiKey then [api] else [])
      + (if api.apiKey == DESCRIBE_TOPIC_PARTITIONS_KEY then [api] else [])
  }

  /** The rows whose key is `k1` or `k2`, in table order: the reference selection. */
  function RowsWithKey(table: Table, k1: int, k2: int): (r: seq<ApiRange>)
    ensures |r| <= |table|
  {
    if table == [] then []
    else
      var last := table[|table| - 1];
      RowsWithKey(table[..|table| - 1], k1, k2) + (if last.apiKey == k1 || last.apiKey == k2 then [last] else [])
  }

  /** Every element of `s`, twice in a row. */
  function Doubled<T>(s: seq<T>): (r: seq<T>)
    ensures |r| == 2 * |s|
  {
    if s == [] then [] else Doubled(s[..|s| - 1]) + [s[|s| - 1], s[|s| - 1]]
  }

  /**
   * `api_keys_to_include`: the loop over the table, in table order. It holds
   * every row whose key is the requested key and every row whose key is 75,
   * and nothing else.
   */
  function Selected(table: Table, apiKey: int): (r: seq<ApiRange>)
  {
    if table == [] then [] else Selected(table[..|table| - 1], apiKey) + Picked(table[|table| - 1], apiKey)
  }

  /**
   * The selection holds every row whose key is the requested key or 75, and
   * nothing else.
   */
  lemma {:induction false} SelectedMembers(table: Table, apiKey: int)
    ensures forall e :: e in Selected(table, apiKey) <==>
      e in table && (e.apiKey == apiKey || e.apiKey == DESCRIBE_TOPIC_PARTITIONS_KEY)
  {
    if table != [] {
      var init := table[..|table| - 1];
      SelectedMembers(init, apiKey);
      assert table == init + [table[|table| - 1]];
    }
  }

  /**
   * The selection in terms of the reference one: for any other key it is the
   * rows with that key or 75 in table order; for key 75 every row for 75
   * appears twice in a row.
   */
  lemma {:induction false} SelectedIsFilter(table: Table, apiKey: int)
    ensures apiKey != DESCRIBE_TOPIC_PARTITIONS_KEY ==>
      Selected(table, apiKey) == RowsWithKey(table, apiKey, DESCRIBE_TOPIC_PARTITIONS_KEY)
    ensures apiKey == DESCRIBE_TOPIC_PARTITIONS_KEY ==>
      Selected(table, apiKey) == Doubled(RowsWithKey(table, apiKey, apiKey))
  {
    if table != [] {
      var init := table[..|table| - 1];
      SelectedIsFilter(init, apiKey);
      if apiKey == DESCRIBE_TOPIC_PARTITIONS_KEY {
        var rows := RowsWithKey(table, apiKey, apiKey);
        var last := table[|table| - 1];
        if last.apiKey == apiKey {
          assert rows == RowsWithKey(init, apiKey, apiKey) + [last];
          assert rows[..|rows| - 1] == RowsWithKey(init, apiKey, apiKey);
          assert Doubled(rows) == Doubled(RowsWithKey(init, apiKey, apiKey)) + [last, last];
          assert Picked(last, apiKey) == [last, last];
        } else {
          assert rows == RowsWithKey(init, apiKey, apiKey);
          assert Picked(last, apiKey) == [];
        }
      }
    }
  }

  /**
   * The selection loop of `_create_api_version_response`: each row is tested
   * against the requested key and then, separately, against 75.
   */
  method SelectApiKeys(table: Table, apiKey: int) returns (apiKeysToInclude: seq<ApiRange>)
    ensures apiKeysToInclude == Selected(table, apiKey)
  {
    apiKeysToInclude := [];
    for i := 0 to |table|
      invariant apiKeysToInclude == Selected(table[..i], apiKey)
    {
      ghost var before := apiKeysToInclude;
      var api := table[i];
      if api.apiKey == apiKey {
        apiKeysToInclude := apiKeysToInclude + [api];
      }
      if api.apiKey == DESCRIBE_TOPIC_PARTITIONS_KEY {
        apiKeysToInclude := apiKeysToInclude + [api];
      }
      SelectStep(table, apiKey, i, before, apiKeysToInclude);
    }
    assert table[..|table|] == table;
  }

  /** The advertised entries can be packed: fewer than 255 of them, each field an int16. */
  predicate ApiVersionsFits(table: Table, apiKey: int) {
    var entries := Selected(table, apiKey);
    |entries| + 1 <= 255 && forall i | 0 <= i < |entries| :: entries[i].FitsInt16()
  }

  /**
   * One step of the selection loop: appending what the two tests pick from
   * row `i` to the selection of the first `i` rows gives the selection of the
   * first `i + 1` rows.
   */
  lemma SelectStep(table: Table, apiKey: int, i: nat, before: seq<ApiRange>, after: seq<ApiRange>)
    requires i < |table| && before == Selected(table[..i], apiKey)
    requires after == before + (if table[i].apiKey == apiKey then [table[i]] else [])
                             + (if table[i].apiKey == DESCRIBE_TOPIC_PARTITIONS_KEY then [table[i]] else [])
    ensures after == Selected(table[..i + 1], apiKey)
  {
    assert table[..i + 1][..i] == table[..i];
  }

  /** `struct.pack('!hhhB', key, min, max, 0)`. */
  function EncodeApiEntry(api: ApiRange): (r: Bytes)
    requires api.FitsInt16()
    ensures |r| == 7
  {
    EncodeI16(api.apiKey) + EncodeI16(api.minVersion) + EncodeI16(api.maxVersion) + [0]
  }

  /** The entries one after the other, 7 bytes each. */
  function EncodeApiEntries(entries: seq<ApiRange>): (r: Bytes)
    requires forall i | 0 <= i < |entries| :: entries[i].FitsInt16()
    ensures |r| == 7 * |entries|
  {
    if entries == [] then []
    else EncodeApiEntries(entries[..|entries| - 1]) + EncodeApiEntry(entries[|entries| - 1])
  }

  /** One step of the packing loop: the next entry goes at the end. */
  lemma ApiEntriesStep(entries: seq<ApiRange>, j: nat, prefix: Bytes, before: Bytes)
    requires j < |entries| && forall i | 0 <= i < |entries| :: entries[i].FitsInt16()
    requires before == prefix + EncodeApiEntries(entries[..j])
    ensures before + EncodeApiEntry(entries[j]) == prefix + EncodeApiEntries(entries[..j + 1])
  {
    assert entries[..j + 1][..j] == entries[..j];
  }

  /** The response body for an error code and the advertised entries. */
  function ApiVersionsBody(code: ErrorCode, entries: seq<ApiRange>): (r: Bytes)
    requires |entries| + 1 <= 255 && forall i | 0 <= i < |entries| :: entries[i].FitsInt16()
    ensures |r| == 8 + 7 * |entries|
  {
    EncodeI16(code.Value()) + [|entries| + 1] + EncodeApiEntries(entries) + [0] + EncodeI32(0)
  }

  /** The packing loop of `_create_api_version_response`: the entries appended to `bodyBytes` in order. */
  method PackApiEntries(bodyBytes: Bytes, entries: seq<ApiRange>) returns (packed: Bytes)
    requires forall i | 0 <= i < |entries| :: entries[i].FitsInt16()
    ensures packed == bodyBytes + EncodeApiEntries(entries)
  {
    packed := bodyBytes;
    for j := 0 to |entries|
      invariant packed == bodyBytes + EncodeApiEntries(entries[..j])
    {
      ApiEntriesStep(entries, j, bodyBytes, packed);
      packed := packed + EncodeApiEntry(entries[j]);
    }
    assert entries[..|entries|] == entries;
  }

  /** The body put together piece by piece, as the packing loop does. */
  lemma ApiBodyAssembled(code: ErrorCode, entries: seq<ApiRange>, packed: Bytes)
    requires |entries| + 1 <= 255 && forall i | 0 <= i < |entries| :: entries[i].FitsInt16()
    requires packed == EncodeI16(code.Value()) + [|entries| + 1] + EncodeApiEntries(entries)
    ensures packed + [0] + EncodeI32(0) == ApiVersionsBody(code, entries)
  {
  }

  /** The framed message: correlation id, then the body. */
  function ApiVersionsMessage(correlationId: nat, code: ErrorCode, entries: seq<ApiRange>): (r: Bytes)
    requires correlationId < TWO_32
    requires |entries| + 1 <= 255 && forall i | 0 <= i < |entries| :: entries[i].FitsInt16()
    ensures |r| == 16 + 7 * |entries|
    ensures DecodeI32(r[..4]) == |r| - 4
    ensures DecodeU32(r[4..8]) == correlationId
    ensures DecodeI16(r[8..10]) == code.Value()
    ensures r[10] == |entries| + 1
  {
    var content := EncodeU32(correlationId) + ApiVersionsBody(code, entries);
    var r := Frame(content);
    assert r[4..8] == content[..4];
    assert r[8..10] == content[4..6];
    r
  }

  /**
   * `_create_api_version_response`: the framed response for a request with
   * this key, version and correlation id. The size prefix counts the rest, the
   * correlation id is echoed in bytes 4-7, the error code follows the rule,
   * and the length is 16 + 7 bytes per advertised entry.
   */
  function ApiVersionsResponse(table: Table, apiKey: nat, apiVersion: nat, correlationId: nat): (r: Bytes)
    requires correlationId < TWO_32 && ApiVersionsFits(table, apiKey)
    ensures |r| == 16 + 7 * |Selected(table, apiKey)|
    ensures DecodeI32(r[..4]) == |r| - 4
    ensures DecodeU32(r[4..8]) == correlationId
    ensures DecodeI16(r[8..10]) == 0 <==>
      apiKey < |table| && table[apiKey].minVersion <= apiVersion <= table[apiKey].maxVersion
    ensures r[10] == |Selected(table, apiKey)| + 1
  {
    ApiVersionsMessage(correlationId, RequestErrorCode(table, apiKey, apiVersion), Selected(table, apiKey))
  }

  // ----- reading the response back, as a client does -----
  //
  // The decoder reads the entry count as one byte, as the builder writes it.
  // The protocol's unsigned varint agrees with that byte only below 128.

  /** What a client reads from an ApiVersions response. */
  datatype ApiVersionsReply = ApiVersionsReply(
    correlationId: nat, errorCode: int, apiKeys: seq<ApiRange>, throttleTimeMs: int)

  function DecodeApiEntry(s: Bytes): ApiRange
    requires |s| == 7
  {
    ApiRange(DecodeI16(s[0..2]), DecodeI16(s[2..4]), DecodeI16(s[4..6]))
  }

  /** A run of 7-byte entries, each closed by an empty tag buffer. */
  function DecodeApiEntries(s: Bytes): Option<seq<ApiRange>>
  {
    if s == [] then Some([])
    else if |s| < 7 || s[|s| - 1] != 0 then None
    else match DecodeApiEntries(s[..|s| - 7])
      case None => None
      case Some(init) => Some(init + [DecodeApiEntry(s[|s| - 7..])])
  }

  /** The decoder of a whole framed response; None when it is not well formed. */
  function DecodeApiVersionsResponse(r: Bytes): Option<ApiVersionsReply>
  {
    if |r| < 16 || DecodeI32(r[..4]) != |r| - 4 then None
    else match DecodeApiVersionsBody(r[8..])
      case None => None
      case Some((code, keys, throttle)) => Some(ApiVersionsReply(DecodeU32(r[4..8]), code, keys, throttle))
  }

  /** The error code, the entries and the throttle time of a response body. */
  function DecodeApiVersionsBody(body: Bytes): Option<(int, seq<ApiRange>, int)>
    requires |body| >= 8
  {
    if body[2] == 0 || |body| != 8 + 7 * (body[2] as int - 1) || body[|body| - 5] != 0 then None
    else match DecodeApiEntries(body[3..|body| - 5])
      case None => None
      case Some(keys) => Some((DecodeI16(body[..2]), keys, DecodeI32(body[|body| - 4..])))
  }

  /** Where the three fields of one entry lie. */
  lemma EntryFields(api: ApiRange)
    requires api.FitsInt16()
    ensures var e := EncodeApiEntry(api);
      e[0..2] == EncodeI16(api.apiKey) && e[2..4] == EncodeI16(api.minVersion)
      && e[4..6] == EncodeI16(api.maxVersion) && e[6] == 0
  {
    var e := EncodeApiEntry(api);
    var key, min, max := EncodeI16(api.apiKey), EncodeI16(api.minVersion), EncodeI16(api.maxVersion);
    assert e == key + min + max + [0];
    forall k | 0 <= k < 2
      ensures e[k] == key[k] && e[2 + k] == min[k] && e[4 + k] == max[k]
    {
    }
  }

  /** Decoding encoded entries gives them back. */
  lemma {:induction false} ApiEntriesRoundTrip(entries: seq<ApiRange>)
    requires forall i | 0 <= i < |entries| :: entries[i].FitsInt16()
    ensures DecodeApiEntries(EncodeApiEntries(entries)) == Some(entries)
  {
    if entries != [] {
      var init := entries[..|entries| - 1];
      var last := entries[|entries| - 1];
      ApiEntriesRoundTrip(init);
      var s := EncodeApiEntries(entries);
      assert s[..|s| - 7] == EncodeApiEntries(init);
      assert s[|s| - 7..] == EncodeApiEntry(last);
      EntryFields(last);
      assert init + [last] == entries;
    }
  }

  /** The body starts with the error code and the compact count of entries. */
  lemma BodyCodeAt(code: ErrorCode, entries: seq<ApiRange>)
    requires |entries| + 1 <= 255 && forall i | 0 <= i < |entries| :: entries[i].FitsInt16()
    ensures var b := ApiVersionsBody(code, entries);
      DecodeI16(b[..2]) == code.Value() && b[2] == |entries| + 1
  {
    var b := ApiVersionsBody(code, entries);
    var code16 := EncodeI16(code.Value());
    assert b == code16 + [|entries| + 1] + EncodeApiEntries(entries) + [0] + EncodeI32(0);
    forall k | 0 <= k < 2
      ensures b[k] == code16[k]
    {
    }
    assert b[..2] == code16;
  }

  /** The entries follow the count, and read back as the entries. */
  lemma BodyEntriesAt(code: ErrorCode, entries: seq<ApiRange>)
    requires |entries| + 1 <= 255 && forall i | 0 <= i < |entries| :: entries[i].FitsInt16()
    ensures var b := ApiVersionsBody(code, entries);
      DecodeApiEntries(b[3..|b| - 5]) == Some(entries)
  {
    var b := ApiVersionsBody(code, entries);
    assert b == EncodeI16(code.Value()) + [|entries| + 1] + EncodeApiEntries(entries) + [0] + EncodeI32(0);
    SliceMiddle(EncodeI16(code.Value()), [|entries| + 1], EncodeApiEntries(entries), [0], EncodeI32(0),
                3, |b| - 5);
    ApiEntriesRoundTrip(entries);
  }

  /** The body ends with an empty tag buffer and a zero throttle time. */
  lemma BodyThrottleAt(code: ErrorCode, entries: seq<ApiRange>)
    requires |entries| + 1 <= 255 && forall i | 0 <= i < |entries| :: entries[i].FitsInt16()
    ensures var b := ApiVersionsBody(code, entries);
      b[|b| - 5] == 0 && DecodeI32(b[|b| - 4..]) == 0
  {
    var b := ApiVersionsBody(code, entries);
    var throttle := EncodeI32(0);
    assert b == EncodeI16(code.Value()) + [|entries| + 1] + EncodeApiEntries(entries) + [0] + throttle;
    forall k | 0 <= k < 4
      ensures b[|b| - 4 + k] == throttle[k]
    {
    }
    assert b[|b| - 4..] == throttle;
  }

  /** The body follows the size prefix and the correlation id. */
  lemma MessageBody(correlationId: nat, code: ErrorCode, entries: seq<ApiRange>)
    requires correlationId < TWO_32
    requires |entries| + 1 <= 255 && forall i | 0 <= i < |entries| :: entries[i].FitsInt16()
    ensures ApiVersionsMessage(correlationId, code, entries)[8..] == ApiVersionsBody(code, entries)
  {
    var body := ApiVersionsBody(code, entries);
    var content := EncodeU32(correlationId) + body;
    var r := ApiVersionsMessage(correlationId, code, entries);
    assert r == Frame(content);
    assert r[4..] == content;
    assert content[4..] == body;
    DropDrop(r, 4, 4);
  }

  /** Decoding a body gives back its error code, its entries and a zero throttle time. */
  lemma BodyRoundTrip(code: ErrorCode, entries: seq<ApiRange>)
    requires |entries| + 1 <= 255 && forall i | 0 <= i < |entries| :: entries[i].FitsInt16()
    ensures DecodeApiVersionsBody(ApiVersionsBody(code, entries)) == Some((code.Value(), entries, 0))
  {
    BodyCodeAt(code, entries);
    BodyEntriesAt(code, entries);
    BodyThrottleAt(code, entries);
  }

  /** Decoding a framed message gives back its correlation id, error code and entries. */
  lemma MessageRoundTrip(correlationId: nat, code: ErrorCode, entries: seq<ApiRange>)
    requires correlationId < TWO_32
    requires |entries| + 1 <= 255 && forall i | 0 <= i < |entries| :: entries[i].FitsInt16()
    ensures DecodeApiVersionsResponse(ApiVersionsMessage(correlationId, code, entries))
      == Some(ApiVersionsReply(correlationId, code.Value(), entries, 0))
  {
    MessageBody(correlationId, code, entries);
    BodyRoundTrip(code, entries);
  }

  /**
   * A client decoding the response reads back the correlation id, the error
   * code of the rule, exactly the selected entries in order, and a zero
   * throttle time.
   */
  lemma ApiVersionsRoundTrip(table: Table, apiKey: nat, apiVersion: nat, correlationId: nat)
    requires correlationId < TWO_32 && ApiVersionsFits(table, apiKey)
    ensures DecodeApiVersionsResponse(ApiVersionsResponse(table, apiKey, apiVersion, correlationId))
      == Some(ApiVersionsReply(correlationId, RequestErrorCode(table, apiKey, apiVersion).Value(),
                               Selected(table, apiKey), 0))
  {
    MessageRoundTrip(correlationId, RequestErrorCode(table, apiKey, apiVersion), Selected(table, apiKey));
  }
}
