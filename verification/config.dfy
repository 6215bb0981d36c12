/** The server's configuration: its fields and defaults, the checks run
    when a configuration is built, and the merge of a file's overrides over
    the defaults. */
module Config {
  import opened Wrappers

  datatype Config = Config(
    port: int,
    address: string,
    maxChunkSize: int,
    maxTotalSize: int,
    chunkTimeout: int,
    logDir: string,
    outputDir: string,
    requireAuth: bool,
    authKey: Option<string>,
    rateLimit: int,
    chunkSize: int,
    sessionIdLength: int,
    checksumLength: int,
    baseRateLimit: int,
    maxRateLimit: int,
    enableAdaptiveRate: bool,
    enableJitter: bool,
    checksumAlgorithm: string,
    maxSessions: int,
    maxTotalChunks: int,
    serverRateLimit: Option<int>)

  /** The field values a configuration has when nothing overrides them. */
  function Defaults(): (c: Config)
    ensures c.port == 53 && c.maxTotalSize == 10 * 1024 * 1024
  {
    Config(
      port := 53,
      address := "0.0.0.0",
      maxChunkSize := 1024,
      maxTotalSize := 10 * 1024 * 1024,
      chunkTimeout := 300,
      logDir := "logs",
      outputDir := "output",
      requireAuth := false,
      authKey := None,
      rateLimit := 100,
      chunkSize := 45,
      sessionIdLength := 6,
      checksumLength := 3,
      baseRateLimit := 75,
      maxRateLimit := 150,
      enableAdaptiveRate := true,
      enableJitter := true,
      checksumAlgorithm := "crc16",
      maxSessions := 100,
      maxTotalChunks := 50000,
      serverRateLimit := None)
  }

  /** The reasons a configuration is refused, in the order they are checked. */
  datatype ConfigError =
    | PortOutOfRange
    | MaxChunkSizeNotPositive
    | MaxTotalSizeNotPositive
    | ChunkLargerThanTotal
    | RateLimitNotPositive
    | ChunkSizeOutOfRange
    | SessionIdLengthOutOfRange
    | ChecksumLengthOutOfRange
    | BaseRateLimitNotPositive
    | MaxRateBelowBase
    | MaxSessionsNotPositive
    | MaxTotalChunksNotPositive
    | ServerRateLimitNotPositive
    | IllTypedOverride(field: string)  // an override whose value has the wrong type for its field

  /** One requirement on a configuration and the error that reports its
      violation. */
  datatype Rule = Rule(holds: bool, error: ConfigError)

  /** The requirements, in the order they are checked. */
  function Rules(c: Config): seq<Rule>
  {
    [ Rule(1 <= c.port <= 65535, PortOutOfRange),
      Rule(c.maxChunkSize > 0, MaxChunkSizeNotPositive),
      Rule(c.maxTotalSize > 0, MaxTotalSizeNotPositive),
      Rule(c.maxChunkSize <= c.maxTotalSize, ChunkLargerThanTotal),
      Rule(c.rateLimit > 0, RateLimitNotPositive),
      Rule(40 <= c.chunkSize <= 50, ChunkSizeOutOfRange),
      Rule(4 <= c.sessionIdLength <= 8, SessionIdLengthOutOfRange),
      Rule(2 <= c.checksumLength <= 4, ChecksumLengthOutOfRange),
      Rule(c.baseRateLimit > 0, BaseRateLimitNotPositive),
      Rule(c.maxRateLimit >= c.baseRateLimit, MaxRateBelowBase),
      Rule(c.maxSessions > 0, MaxSessionsNotPositive),
      Rule(c.maxTotalChunks > 0, MaxTotalChunksNotPositive),
      Rule(c.serverRateLimit.None? || c.serverRateLimit.value > 0, ServerRateLimitNotPositive) ]
  }

  predicate Valid(c: Config)
  {
    forall k :: 0 <= k < |Rules(c)| ==> Rules(c)[k].holds
  }

  /** `e` reports the first requirement that `c` violates. */
  predicate FirstViolation(c: Config, e: ConfigError)
  {
    exists k :: 0 <= k < |Rules(c)| && !Rules(c)[k].holds && Rules(c)[k].error == e
                && forall j :: 0 <= j < k ==> Rules(c)[j].holds
  }

  /** The checks of `ServerConfig.__post_init__`: the first one that fails
      raises its error. */
  function Validate(c: Config): (r: Result<Config, ConfigError>)
    ensures r.Success? ==> r.value == c
  {
    if !(1 <= c.port <= 65535) then Failure(PortOutOfRange)
    else if c.maxChunkSize <= 0 then Failure(MaxChunkSizeNotPositive)
    else if c.maxTotalSize <= 0 then Failure(MaxTotalSizeNotPositive)
    else if c.maxChunkSize > c.maxTotalSize then Failure(ChunkLargerThanTotal)
    else if c.rateLimit <= 0 then Failure(RateLimitNotPositive)
    else if !(40 <= c.chunkSize <= 50) then Failure(ChunkSizeOutOfRange)
    else if !(4 <= c.sessionIdLength <= 8) then Failure(SessionIdLengthOutOfRange)
    else if !(2 <= c.checksumLength <= 4) then Failure(ChecksumLengthOutOfRange)
    else if c.baseRateLimit <= 0 then Failure(BaseRateLimitNotPositive)
    else if c.maxRateLimit < c.baseRateLimit then Failure(MaxRateBelowBase)
    else if c.maxSessions <= 0 then Failure(MaxSessionsNotPositive)
    else if c.maxTotalChunks <= 0 then Failure(MaxTotalChunksNotPositive)
    else if c.serverRateLimit.Some? && c.serverRateLimit.value <= 0 then Failure(ServerRateLimitNotPositive)
    else Success(c)
  }

  lemma ViolationAt(c: Config, k: nat)
    requires k < |Rules(c)| && !Rules(c)[k].holds
    requires forall j :: 0 <= j < k ==> Rules(c)[j].holds
    ensures FirstViolation(c, Rules(c)[k].error)
  {
  }

  /** A configuration is accepted exactly when it meets every requirement,
      and a refusal reports the first requirement it violates. */
  lemma ValidateChecksInOrder(c: Config)
    ensures Validate(c).Success? <==> Valid(c)
    ensures Validate(c).Failure? ==> FirstViolation(c, Validate(c).error)
  {
    if !(1 <= c.port <= 65535) {
      ViolationAt(c, 0);
    } else if c.maxChunkSize <= 0 {
      ViolationAt(c, 1);
    } else if c.maxTotalSize <= 0 {
      ViolationAt(c, 2);
    } else if c.maxChunkSize > c.maxTotalSize {
      ViolationAt(c, 3);
    } else if c.rateLimit <= 0 {
      ViolationAt(c, 4);
    } else if !(40 <= c.chunkSize <= 50) {
      ViolationAt(c, 5);
    } else if !(4 <= c.sessionIdLength <= 8) {
      ViolationAt(c, 6);
    } else if !(2 <= c.checksumLength <= 4) {
      ViolationAt(c, 7);
    } else if c.baseRateLimit <= 0 {
      ViolationAt(c, 8);
    } else if c.maxRateLimit < c.baseRateLimit {
      ViolationAt(c, 9);
    } else if c.maxSessions <= 0 {
      ViolationAt(c, 10);
    } else if c.maxTotalChunks <= 0 {
      ViolationAt(c, 11);
    } else if c.serverRateLimit.Some? && c.serverRateLimit.value <= 0 {
      ViolationAt(c, 12);
    }
  }

  /** A value of a configuration file's JSON object. */
  datatype Value = IntValue(i: int) | StrValue(s: string) | BoolValue(b: bool) | NullValue

  /** The configuration's fields. */
  datatype Field =
    | Port
    | Address
    | MaxChunkSize
    | MaxTotalSize
    | ChunkTimeout
    | LogDir
    | OutputDir
    | RequireAuth
    | AuthKey
    | RateLimit
    | ChunkSize
    | SessionIdLength
    | ChecksumLength
    | BaseRateLimit
    | MaxRateLimit
    | EnableAdaptiveRate
    | EnableJitter
    | ChecksumAlgorithm
    | MaxSessions
    | MaxTotalChunks
    | ServerRateLimit

  /** The key that names a field in a configuration file. */
  function FieldName(f: Field): string
  {
    match f
    case Port => "port"
    case Address => "address"
    case MaxChunkSize => "max_chunk_size"
    case MaxTotalSize => "max_total_size"
    case ChunkTimeout => "chunk_timeout"
    case LogDir => "log_dir"
    case OutputDir => "output_dir"
    case RequireAuth => "require_auth"
    case AuthKey => "auth_key"
    case RateLimit => "rate_limit"
    case ChunkSize => "chunk_size"
    case SessionIdLength => "session_id_length"
    case ChecksumLength => "checksum_length"
    case BaseRateLimit => "base_rate_limit"
    case MaxRateLimit => "max_rate_limit"
    case EnableAdaptiveRate => "enable_adaptive_rate"
    case EnableJitter => "enable_jitter"
    case ChecksumAlgorithm => "checksum_algorithm"
    case MaxSessions => "max_sessions"
    case MaxTotalChunks => "max_total_chunks"
    case ServerRateLimit => "server_rate_limit"
  }

  /** Distinct fields have distinct names. */
  lemma FieldNameInjective(f: Field, g: Field)
    ensures FieldName(f) == FieldName(g) ==> f == g
  {
  }

  const AllFields: seq<Field> := [
    Port,
    Address,
    MaxChunkSize,
    MaxTotalSize,
    ChunkTimeout,
    LogDir,
    OutputDir,
    RequireAuth,
    AuthKey,
    RateLimit,
    ChunkSize,
    SessionIdLength,
    ChecksumLength,
    BaseRateLimit,
    MaxRateLimit,
    EnableAdaptiveRate,
    EnableJitter,
    ChecksumAlgorithm,
    MaxSessions,
    MaxTotalChunks,
    ServerRateLimit ]

  /** The value of field `f`. */
  function Get(c: Config, f: Field): Value
  {
    match f
    case Port => IntValue(c.port)
    case Address => StrValue(c.address)
    case MaxChunkSize => IntValue(c.maxChunkSize)
    case MaxTotalSize => IntValue(c.maxTotalSize)
    case ChunkTimeout => IntValue(c.chunkTimeout)
    case LogDir => StrValue(c.logDir)
    case OutputDir => StrValue(c.outputDir)
    case RequireAuth => BoolValue(c.requireAuth)
    case AuthKey => if c.authKey.Some? then StrValue(c.authKey.value) else NullValue
    case RateLimit => IntValue(c.rateLimit)
    case ChunkSize => IntValue(c.chunkSize)
    case SessionIdLength => IntValue(c.sessionIdLength)
    case ChecksumLength => IntValue(c.checksumLength)
    case BaseRateLimit => IntValue(c.baseRateLimit)
    case MaxRateLimit => IntValue(c.maxRateLimit)
    case EnableAdaptiveRate => BoolValue(c.enableAdaptiveRate)
    case EnableJitter => BoolValue(c.enableJitter)
    case ChecksumAlgorithm => StrValue(c.checksumAlgorithm)
    case MaxSessions => IntValue(c.maxSessions)
    case MaxTotalChunks => IntValue(c.maxTotalChunks)
    case ServerRateLimit => if c.serverRateLimit.Some? then IntValue(c.serverRateLimit.value) else NullValue
  }

  /** `v` has a type field `f` can hold. */
  predicate HasFieldType(f: Field, v: Value)
  {
    match f
    case Port => v.IntValue?
    case Address => v.StrValue?
    case MaxChunkSize => v.IntValue?
    case MaxTotalSize => v.IntValue?
    case ChunkTimeout => v.IntValue?
    case LogDir => v.StrValue?
    case OutputDir => v.StrValue?
    case RequireAuth => v.BoolValue?
    case AuthKey => v.StrValue? || v.NullValue?
    case RateLimit => v.IntValue?
    case ChunkSize => v.IntValue?
    case SessionIdLength => v.IntValue?
    case ChecksumLength => v.IntValue?
    case BaseRateLimit => v.IntValue?
    case MaxRateLimit => v.IntValue?
    case EnableAdaptiveRate => v.BoolValue?
    case EnableJitter => v.BoolValue?
    case ChecksumAlgorithm => v.StrValue?
    case MaxSessions => v.IntValue?
    case MaxTotalChunks => v.IntValue?
    case ServerRateLimit => v.IntValue? || v.NullValue?
  }

  /** `c` with field `f` set to `v`, or None when `v` has the wrong type
      for `f`. */
  function Set(c: Config, f: Field, v: Value): (r: Option<Config>)
    ensures r.Some? <==> HasFieldType(f, v)
    ensures r.Some? ==> Get(r.value, f) == v
  {
    match f
    case Port => if v.IntValue? then Some(c.(port := v.i)) else None
    case Address => if v.StrValue? then Some(c.(address := v.s)) else None
    case MaxChunkSize => if v.IntValue? then Some(c.(maxChunkSize := v.i)) else None
    case MaxTotalSize => if v.IntValue? then Some(c.(maxTotalSize := v.i)) else None
    case ChunkTimeout => if v.IntValue? then Some(c.(chunkTimeout := v.i)) else None
    case LogDir => if v.StrValue? then Some(c.(logDir := v.s)) else None
    case OutputDir => if v.StrValue? then Some(c.(outputDir := v.s)) else None
    case RequireAuth => if v.BoolValue? then Some(c.(requireAuth := v.b)) else None
    case AuthKey => if v.StrValue? then Some(c.(authKey := Some(v.s))) else if v.NullValue? then Some(c.(authKey := None)) else None
    case RateLimit => if v.IntValue? then Some(c.(rateLimit := v.i)) else None
    case ChunkSize => if v.IntValue? then Some(c.(chunkSize := v.i)) else None
    case SessionIdLength => if v.IntValue? then Some(c.(sessionIdLength := v.i)) else None
    case ChecksumLength => if v.IntValue? then Some(c.(checksumLength := v.i)) else None
    case BaseRateLimit => if v.IntValue? then Some(c.(baseRateLimit := v.i)) else None
    case MaxRateLimit => if v.IntValue? then Some(c.(maxRateLimit := v.i)) else None
    case EnableAdaptiveRate => if v.BoolValue? then Some(c.(enableAdaptiveRate := v.b)) else None
    case EnableJitter => if v.BoolValue? then Some(c.(enableJitter := v.b)) else None
    case ChecksumAlgorithm => if v.StrValue? then Some(c.(checksumAlgorithm := v.s)) else None
    case MaxSessions => if v.IntValue? then Some(c.(maxSessions := v.i)) else None
    case MaxTotalChunks => if v.IntValue? then Some(c.(maxTotalChunks := v.i)) else None
    case ServerRateLimit => if v.IntValue? then Some(c.(serverRateLimit := Some(v.i))) else if v.NullValue? then Some(c.(serverRateLimit := None)) else None
  }

  /** Setting a field changes that field alone. */
  lemma SetOnlyChanges(c: Config, f: Field, v: Value, g: Field)
    requires Set(c, f, v).Some?
    ensures Get(Set(c, f, v).value, g) == if g == f then v else Get(c, g)
  {
    match f
      case Port => {}
      case Address => {}
      case MaxChunkSize => {}
      case MaxTotalSize => {}
      case ChunkTimeout => {}
      case LogDir => {}
      case OutputDir => {}
      case RequireAuth => {}
      case AuthKey => {}
      case RateLimit => {}
      case ChunkSize => {}
      case SessionIdLength => {}
      case ChecksumLength => {}
      case BaseRateLimit => {}
      case MaxRateLimit => {}
      case EnableAdaptiveRate => {}
      case EnableJitter => {}
      case ChecksumAlgorithm => {}
      case MaxSessions => {}
      case MaxTotalChunks => {}
      case ServerRateLimit => {}
  }

  lemma AllFieldsComplete(f: Field)
    ensures f in AllFields
  {
    match f
      case Port => {}
      case Address => {}
      case MaxChunkSize => {}
      case MaxTotalSize => {}
      case ChunkTimeout => {}
      case LogDir => {}
      case OutputDir => {}
      case RequireAuth => {}
      case AuthKey => {}
      case RateLimit => {}
      case ChunkSize => {}
      case SessionIdLength => {}
      case ChecksumLength => {}
      case BaseRateLimit => {}
      case MaxRateLimit => {}
      case EnableAdaptiveRate => {}
      case EnableJitter => {}
      case ChecksumAlgorithm => {}
      case MaxSessions => {}
      case MaxTotalChunks => {}
      case ServerRateLimit => {}
  }

  /** Applies to `c`, in the order of `fields`, the values `data` gives
      for them. */
  function Merge(c: Config, data: map<string, Value>, fields: seq<Field>): (r: Result<Config, ConfigError>)
    decreases |fields|
  {
    if fields == [] then Success(c)
    else
      var f := fields[0];
      if FieldName(f) !in data then Merge(c, data, fields[1..])
      else match Set(c, f, data[FieldName(f)])
        case None => Failure(IllTypedOverride(FieldName(f)))
        case Some(c') => Merge(c', data, fields[1..])
  }

  /** A merge fails exactly on an ill-typed value; when it succeeds every
      listed field that `data` names takes its value from `data`, and every
      other field keeps its value. */
  lemma {:induction false} MergeFields(c: Config, data: map<string, Value>, fields: seq<Field>)
    ensures Merge(c, data, fields).Success? <==>
              forall f :: f in fields && FieldName(f) in data ==> HasFieldType(f, data[FieldName(f)])
    ensures Merge(c, data, fields).Success? ==>
              forall g :: Get(Merge(c, data, fields).value, g)
                          == if g in fields && FieldName(g) in data then data[FieldName(g)] else Get(c, g)
    decreases |fields|
  {
    if fields != [] {
      var f := fields[0];
      assert forall g :: g in fields <==> g == f || g in fields[1..];
      if FieldName(f) !in data {
        MergeFields(c, data, fields[1..]);
      } else {
        var v := data[FieldName(f)];
        if HasFieldType(f, v) {
          var c' := Set(c, f, v).value;
          MergeFields(c', data, fields[1..]);
          if Merge(c, data, fields).Success? {
            forall g
              ensures Get(Merge(c, data, fields).value, g)
                      == if g in fields && FieldName(g) in data then data[FieldName(g)] else Get(c, g)
            {
              SetOnlyChanges(c, f, v, g);
            }
          }
        }
      }
    }
  }

  /** The entries of `data` whose keys name a field. */
  function KnownOverrides(data: map<string, Value>): (r: map<string, Value>)
    ensures forall f :: FieldName(f) in r <==> FieldName(f) in data
    ensures forall k :: k in r ==> k in data && r[k] == data[k]
    ensures forall k :: k in r ==> exists f :: FieldName(f) == k
  {
    map k | k in data && (exists f :: FieldName(f) == k) :: data[k]
  }

  /** A merge reads only the keys that name one of the fields. */
  lemma {:induction false} MergeReadsFieldNames(c: Config, d1: map<string, Value>, d2: map<string, Value>, fields: seq<Field>)
    requires forall f :: FieldName(f) in d1 <==> FieldName(f) in d2
    requires forall f :: FieldName(f) in d1 ==> d1[FieldName(f)] == d2[FieldName(f)]
    ensures Merge(c, d1, fields) == Merge(c, d2, fields)
    decreases |fields|
  {
    if fields != [] {
      var f := fields[0];
      if FieldName(f) in d1 {
        var c' := Set(c, f, d1[FieldName(f)]);
        if c'.Some? {
          MergeReadsFieldNames(c'.value, d1, d2, fields[1..]);
        }
      } else {
        MergeReadsFieldNames(c, d1, d2, fields[1..]);
      }
    }
  }

  /** `load_config`: the defaults when there is no file, otherwise the
      defaults overridden by the file's entries that name a field; either
      way the result must pass the checks.  `file` is the file's JSON
      object, None when no path is given or the file does not exist. */
  function LoadConfig(file: Option<map<string, Value>>): (r: Result<Config, ConfigError>)
    ensures file.None? ==> r == Success(Defaults())
    ensures r.Success? ==> Valid(r.value)
    ensures file.Some? && Overridden(file.value).Success? ==>
              (r.Success? <==> Valid(Overridden(file.value).value))
  {
    match file
    case None =>
      DefaultsValid();
      ValidateChecksInOrder(Defaults());
      Validate(Defaults())
    case Some(data) =>
      match Overridden(data)
      case Success(merged) =>
        ValidateChecksInOrder(merged);
        Validate(merged)
      case Failure(e) => Failure(e)
  }

  /** The defaults with the entries of `data` that name a field applied. */
  function Overridden(data: map<string, Value>): Result<Config, ConfigError>
  {
    Merge(Defaults(), KnownOverrides(data), AllFields)
  }

  /** Known keys override the defaults, every other field keeps its
      default, and the result passed the checks. */
  lemma LoadOverrides(data: map<string, Value>)
    requires LoadConfig(Some(data)).Success?
    ensures Valid(LoadConfig(Some(data)).value)
    ensures forall g :: Get(LoadConfig(Some(data)).value, g)
                        == if FieldName(g) in data then data[FieldName(g)] else Get(Defaults(), g)
  {
    var known := KnownOverrides(data);
    MergeFields(Defaults(), known, AllFields);
    var merged := Merge(Defaults(), known, AllFields).value;
    ValidateChecksInOrder(merged);
    forall g
      ensures Get(merged, g) == if FieldName(g) in data then data[FieldName(g)] else Get(Defaults(), g)
    {
      AllFieldsComplete(g);
    }
  }

  /** Keys that name no field make no difference. */
  lemma LoadIgnoresUnknownKeys(d1: map<string, Value>, d2: map<string, Value>)
    requires forall f :: FieldName(f) in d1 <==> FieldName(f) in d2
    requires forall f :: FieldName(f) in d1 ==> d1[FieldName(f)] == d2[FieldName(f)]
    ensures LoadConfig(Some(d1)) == LoadConfig(Some(d2))
  {
    assert Overridden(d1) == Overridden(d2) by {
      MergeReadsFieldNames(Defaults(), KnownOverrides(d1), KnownOverrides(d2), AllFields);
    }
  }

  /** The defaults pass every check. */
  lemma DefaultsValid()
    ensures Validate(Defaults()) == Success(Defaults())
  {
  }
}
