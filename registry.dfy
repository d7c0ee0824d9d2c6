/**
 * The supported-API table, the validity check made right after the header is
 * parsed, and the error-code rule shared by the response builders.
 *
 * The table itself is not part of this model: it is a parameter, a sequence of
 * (api key, min version, max version) triples. The codec looks an API key up
 * by POSITION in that table, not by searching for the key; this is kept.
 */
module Registry {
  import opened Wrappers
  import opened Wire

  /** One row of the supported-API table. */
  datatype ApiRange = ApiRange(apiKey: int, minVersion: int, maxVersion: int)
  {
    /** Every field can be packed as an int16. */
    predicate FitsInt16() {
      IsInt16(apiKey) && IsInt16(minVersion) && IsInt16(maxVersion)
    }
  }

  type Table = seq<ApiRange>

  /** The protocol error codes the codec emits. */
  datatype ErrorCode = NoErrors | UnsupportedVersion | UnknownTopicOrPartition
  {
    function Value(): (v: int)
      ensures IsInt16(v)
    {
      match this
      case NoErrors => 0
      case UnsupportedVersion => 35
      case UnknownTopicOrPartition => 3
    }
  }

  /** Key of the DescribeTopicPartitions API. */
  const DESCRIBE_TOPIC_PARTITIONS_KEY: int := 75
  /** Key of the ApiVersions API. */
  const API_VERSIONS_KEY: int := 18

  /** `is_valid_api_key`: the key is used as an index into the table. */
  predicate IsValidApiKey(table: Table, apiKey: nat) {
    apiKey < |table|
  }

  /** `min_ver`: the minimum version at that position, or 0 for an invalid key. */
  function MinVer(table: Table, apiKey: nat): int {
    if IsValidApiKey(table, apiKey) then table[apiKey].minVersion else 0
  }

  /** `max_ver`: the maximum version at that position, or 0 for an invalid key. */
  function MaxVer(table: Table, apiKey: nat): int {
    if IsValidApiKey(table, apiKey) then table[apiKey].maxVersion else 0
  }

  /**
   * The error-code rule of `_get_error_code`, over the values computed when the
   * header was parsed: no error exactly when the key is valid and the version
   * lies in `[minVer, maxVer]`; otherwise UNSUPPORTED_VERSION.
   */
  function ErrorCodeFor(isValid: bool, minVer: int, maxVer: int, version: int): (e: ErrorCode)
    ensures e == NoErrors <==> isValid && minVer <= version <= maxVer
    ensures e == UnsupportedVersion <==> !(isValid && minVer <= version <= maxVer)
  {
    if isValid && minVer <= version && version < maxVer + 1 then NoErrors else UnsupportedVersion
  }

  /** The error code a request with this key and version gets, stated over the table. */
  function RequestErrorCode(table: Table, apiKey: nat, version: int): (e: ErrorCode)
    ensures e.Value() == 0 <==>
      apiKey < |table| && table[apiKey].minVersion <= version <= table[apiKey].maxVersion
    ensures e.Value() != 0 ==> e.Value() == 35
    ensures apiKey >= |table| ==> e == UnsupportedVersion
  {
    ErrorCodeFor(IsValidApiKey(table, apiKey), MinVer(table, apiKey), MaxVer(table, apiKey), version)
  }

  /** A lookup by key, as a registry would do it: the first row carrying the key. */
  function FindByKey(table: Table, apiKey: int): (r: Option<ApiRange>)
    ensures r.Some? ==> r.value in table && r.value.apiKey == apiKey
    ensures r.None? <==> forall i | 0 <= i < |table| :: table[i].apiKey != apiKey
  {
    if table == [] then None
    else if table[0].apiKey == apiKey then Some(table[0])
    else FindByKey(table[1..], apiKey)
  }

  /** The table lists row `i` at position `i`. */
  predicate KeyedByPosition(table: Table) {
    forall i | 0 <= i < |table| :: table[i].apiKey == i
  }

  /**
   * The positional lookup agrees with the lookup by key whenever the table
   * holds key `i` at position `i`.
   */
  lemma {:induction false} PositionalLookupAgrees(table: Table, apiKey: nat)
    requires KeyedByPosition(table)
    ensures IsValidApiKey(table, apiKey) <==> FindByKey(table, apiKey).Some?
    ensures IsValidApiKey(table, apiKey) ==>
      MinVer(table, apiKey) == FindByKey(table, apiKey).value.minVersion &&
      MaxVer(table, apiKey) == FindByKey(table, apiKey).value.maxVersion
  {
    if apiKey < |table| {
      FirstMatchIsAt(table, apiKey, 0);
    }
  }

  lemma {:induction false} FirstMatchIsAt(table: Table, apiKey: nat, offset: nat)
    requires apiKey - offset < |table| && offset <= apiKey
    requires forall i | 0 <= i < |table| :: table[i].apiKey == i + offset
    ensures FindByKey(table, apiKey) == Some(table[apiKey - offset])
    decreases apiKey - offset
  {
    if table[0].apiKey != apiKey {
      FirstMatchIsAt(table[1..], apiKey, offset + 1);
    }
  }

  /**
   * An example table: keys 0 to 18 at versions 0 to 4, followed by key 75 at
   * versions 0 to 4. This shape (every key up to ApiVersions, then
   * DescribeTopicPartitions) is assumed for illustration; the server's real
   * table is not part of this model.
   */
  const ExampleTable: Table := seq(19, i => ApiRange(i, 0, 4)) + [ApiRange(75, 0, 4)]

  /**
   * With that table the positional lookup treats key 75 as invalid and key 19
   * as valid with the versions of key 75.
   */
  lemma ExampleTablePositionalQuirk()
    ensures !IsValidApiKey(ExampleTable, 75) && FindByKey(ExampleTable, 75).Some?
    ensures IsValidApiKey(ExampleTable, 19) && FindByKey(ExampleTable, 19).None?
    ensures RequestErrorCode(ExampleTable, 75, 0) == UnsupportedVersion
    ensures RequestErrorCode(ExampleTable, 18, 4) == NoErrors
    ensures RequestErrorCode(ExampleTable, 18, 5) == UnsupportedVersion
  {
    assert ExampleTable[19] == ApiRange(75, 0, 4);
    assert ExampleTable[18] == ApiRange(18, 0, 4);
  }
}
