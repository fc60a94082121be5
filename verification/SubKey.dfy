/** The key a subscription is filed under, and the stream configuration it stands for. */
module SubKey {
  import opened TelemetryModel

  datatype ListMode = STREAM | ONCE | POLL

  datatype Encoding = JSON | BYTES | PROTO | ASCII | JSON_IETF

  /** What addSubscription is called with, apart from the path. */
  datatype SubRequest = SubRequest(
    session: nat,
    mode: ListMode,
    encoding: Encoding,
    prefix: string,
    useAliases: bool,
    allowAggregation: bool,
    streamMode: StreamMode,
    sampleInterval: nat,
    heartbeatInterval: nat,
    suppressRedundant: bool)

  // ----- Rendering ----------------------------------------------------------------------

  function ModeString(m: ListMode): string {
    match m
    case STREAM => "STREAM"
    case ONCE => "ONCE"
    case POLL => "POLL"
  }

  function EncodingString(e: Encoding): string {
    match e
    case JSON => "JSON"
    case BYTES => "BYTES"
    case PROTO => "PROTO"
    case ASCII => "ASCII"
    case JSON_IETF => "JSON_IETF"
  }

  function StreamModeString(m: StreamMode): string {
    match m
    case TARGET_DEFINED => "TARGET_DEFINED"
    case ON_CHANGE => "ON_CHANGE"
    case SAMPLE => "SAMPLE"
  }

  function BoolString(b: bool): string {
    if b then "true" else "false"
  }

  function Digit(n: nat): char
    requires n < 10
  {
    "0123456789"[n]
  }

  function Decimal(n: nat): string {
    if n < 10 then [Digit(n)] else Decimal(n / 10) + [Digit(n % 10)]
  }

  /** The fields with a dash between any two. */
  function Join(fields: seq<string>): string {
    if fields == [] then ""
    else if |fields| == 1 then fields[0]
    else fields[0] + "-" + Join(fields[1..])
  }

  function Fields(r: SubRequest): seq<string> {
    if r.mode == STREAM then
      [Decimal(r.session), ModeString(r.mode), EncodingString(r.encoding), StreamModeString(r.streamMode), r.prefix,
       Decimal(r.sampleInterval), Decimal(r.heartbeatInterval),
       BoolString(r.useAliases), BoolString(r.allowAggregation), BoolString(r.suppressRedundant)]
    else
      [Decimal(r.session), ModeString(r.mode), EncodingString(r.encoding), r.prefix,
       BoolString(r.useAliases), BoolString(r.allowAggregation)]
  }

  function Key(r: SubRequest): string {
    Join(Fields(r))
  }

  // ----- Taking a key apart -------------------------------------------------------------

  predicate NoDash(s: string) {
    '-' !in s
  }

  lemma {:induction false} DecimalNoDash(n: nat)
    ensures NoDash(Decimal(n)) && |Decimal(n)| > 0
  {
    if n >= 10 {
      DecimalNoDash(n / 10);
    }
  }

  lemma {:induction false} DecimalInjective(m: nat, n: nat)
    requires Decimal(m) == Decimal(n)
    ensures m == n
  {
    var a, b := Decimal(m), Decimal(n);
    assert a[|a| - 1] == Digit(m % 10) && b[|b| - 1] == Digit(n % 10);
    if m >= 10 && n >= 10 {
      assert a[..|a| - 1] == Decimal(m / 10) && b[..|b| - 1] == Decimal(n / 10);
      DecimalInjective(m / 10, n / 10);
    } else if m >= 10 {
      DecimalNoDash(m / 10);
    } else if n >= 10 {
      DecimalNoDash(n / 10);
    }
  }

  lemma SplitFirst(a: string, x: string, b: string, y: string)
    requires a + "-" + x == b + "-" + y && NoDash(a) && NoDash(b)
    ensures a == b && x == y
  {
    var s, t := a + "-" + x, b + "-" + y;
    assert s[|a|] == '-' && t[|b|] == '-';
    assert a == s[..|a|] && b == t[..|b|];
    assert x == s[|a| + 1..] && y == t[|b| + 1..];
  }

  lemma SplitLast(a: string, x: string, b: string, y: string)
    requires a + "-" + x == b + "-" + y && NoDash(x) && NoDash(y)
    ensures a == b && x == y
  {
    var s, t := a + "-" + x, b + "-" + y;
    assert s[|a|] == '-' && t[|b|] == '-';
    assert a == s[..|a|] && b == t[..|b|];
    assert x == s[|a| + 1..] && y == t[|b| + 1..];
  }

  lemma {:induction false} JoinSnoc(fields: seq<string>)
    requires |fields| > 1
    ensures Join(fields) == Join(fields[..|fields| - 1]) + "-" + fields[|fields| - 1]
    decreases |fields|
  {
    var n := |fields| - 1;
    if n > 1 {
      JoinSnoc(fields[1..]);
      assert fields[1..][..n - 1] == fields[..n][1..];
      assert fields[..n][0] == fields[0];
      assert fields[0] + "-" + (Join(fields[..n][1..]) + "-" + fields[n]) ==
             fields[0] + "-" + Join(fields[..n][1..]) + "-" + fields[n];
    }
  }

  /** A joined string can be taken apart again when all fields but one are known to be free of
      dashes: from the left up to that one, and from the right down to it. */
  lemma {:induction false} JoinInjective(f: seq<string>, g: seq<string>, i: nat)
    requires |f| == |g| && i < |f| && Join(f) == Join(g)
    requires forall j | 0 <= j < |f| && j != i :: NoDash(f[j]) && NoDash(g[j])
    ensures f == g
    decreases |f|
  {
    if |f| == 1 {
    } else if i > 0 {
      SplitFirst(f[0], Join(f[1..]), g[0], Join(g[1..]));
      JoinInjective(f[1..], g[1..], i - 1);
      assert f == [f[0]] + f[1..] && g == [g[0]] + g[1..];
    } else {
      var n := |f| - 1;
      JoinSnoc(f);
      JoinSnoc(g);
      SplitLast(Join(f[..n]), f[n], Join(g[..n]), g[n]);
      JoinInjective(f[..n], g[..n], 0);
      assert f == f[..n] + [f[n]] && g == g[..n] + [g[n]];
    }
  }

  // ----- Injectivity --------------------------------------------------------------------

  function PrefixField(r: SubRequest): nat {
    if r.mode == STREAM then 4 else 3
  }

  lemma FieldsNoDash(r: SubRequest, j: nat)
    requires j < |Fields(r)| && j != PrefixField(r)
    ensures NoDash(Fields(r)[j])
  {
    DecimalNoDash(r.session);
    DecimalNoDash(r.sampleInterval);
    DecimalNoDash(r.heartbeatInterval);
  }

  /** All fields a key shows agree. */
  predicate SameRendered(a: SubRequest, b: SubRequest) {
    && a.session == b.session && a.mode == b.mode && a.encoding == b.encoding && a.prefix == b.prefix
    && a.useAliases == b.useAliases && a.allowAggregation == b.allowAggregation
    && (a.mode == STREAM ==>
          && a.streamMode == b.streamMode && a.sampleInterval == b.sampleInterval
          && a.heartbeatInterval == b.heartbeatInterval && a.suppressRedundant == b.suppressRedundant)
  }

  lemma SameModeFromKey(a: SubRequest, b: SubRequest)
    requires Key(a) == Key(b)
    ensures a.mode == b.mode
  {
    hide Fields, Decimal, ModeString, Join;
    FirstFields(a);
    FirstFields(b);
    var f, g := Fields(a), Fields(b);
    JoinCons(f);
    JoinCons(g);
    SplitFirst(f[0], Join(f[1..]), g[0], Join(g[1..]));
    JoinCons(f[1..]);
    JoinCons(g[1..]);
    SplitFirst(f[1], Join(f[1..][1..]), g[1], Join(g[1..][1..]));
    ModeStringInjective(a.mode, b.mode);
  }

  lemma FirstFields(r: SubRequest)
    ensures |Fields(r)| > 2 && Fields(r)[1] == ModeString(r.mode)
    ensures NoDash(Fields(r)[0]) && NoDash(Fields(r)[1])
  {
    DecimalNoDash(r.session);
  }

  lemma JoinCons(fields: seq<string>)
    requires |fields| > 1
    ensures Join(fields) == fields[0] + "-" + Join(fields[1..])
  {
  }

  lemma ModeStringInjective(a: ListMode, b: ListMode)
    requires ModeString(a) == ModeString(b)
    ensures a == b
  {
  }

  lemma BoolStringInjective(a: bool, b: bool)
    requires BoolString(a) == BoolString(b)
    ensures a == b
  {
  }

  lemma EnumStringsInjective(a: SubRequest, b: SubRequest)
    ensures EncodingString(a.encoding) == EncodingString(b.encoding) ==> a.encoding == b.encoding
    ensures StreamModeString(a.streamMode) == StreamModeString(b.streamMode) ==> a.streamMode == b.streamMode
  {
  }

  /** Whatever dashes the prefix contains, two keys are equal exactly when all fields are. */
  lemma KeyInjective(a: SubRequest, b: SubRequest)
    ensures Key(a) == Key(b) <==> SameRendered(a, b)
  {
    if Key(a) == Key(b) {
      SameModeFromKey(a, b);
      SameFields(a, b);
      FieldsDetermine(a, b);
    }
  }

  lemma SameFields(a: SubRequest, b: SubRequest)
    requires Key(a) == Key(b) && a.mode == b.mode
    ensures Fields(a) == Fields(b)
  {
    FieldCount(a);
    FieldCount(b);
    hide Fields, Join;
    var f, g := Fields(a), Fields(b);
    forall j | 0 <= j < |f| && j != PrefixField(a)
      ensures NoDash(f[j]) && NoDash(g[j])
    {
      FieldsNoDash(a, j);
      FieldsNoDash(b, j);
    }
    JoinInjective(f, g, PrefixField(a));
  }

  lemma FieldCount(r: SubRequest)
    ensures |Fields(r)| == (if r.mode == STREAM then 10 else 6)
  {
  }

  lemma FieldsDetermine(a: SubRequest, b: SubRequest)
    requires a.mode == b.mode && Fields(a) == Fields(b)
    ensures SameRendered(a, b)
  {
    hide Decimal, EncodingString, StreamModeString, BoolString;
    var f, g := Fields(a), Fields(b);
    assert forall j | 0 <= j < |f| :: f[j] == g[j];
    assert f[0] == g[0] && f[2] == g[2] && f[3] == g[3] && f[4] == g[4] && f[5] == g[5];
    DecimalInjective(a.session, b.session);
    EnumStringsInjective(a, b);
    if a.mode == STREAM {
      assert f[6] == g[6] && f[7] == g[7] && f[8] == g[8] && f[9] == g[9];
      DecimalInjective(a.sampleInterval, b.sampleInterval);
      DecimalInjective(a.heartbeatInterval, b.heartbeatInterval);
      BoolStringInjective(a.useAliases, b.useAliases);
      BoolStringInjective(a.allowAggregation, b.allowAggregation);
      BoolStringInjective(a.suppressRedundant, b.suppressRedundant);
    } else {
      BoolStringInjective(a.useAliases, b.useAliases);
      BoolStringInjective(a.allowAggregation, b.allowAggregation);
    }
  }

  // ----- The stream configuration -------------------------------------------------------

  datatype StreamConfig = StreamConfig(
    streamMode: StreamMode,
    sampleInterval: nat,
    suppressRedundant: bool,
    heartbeatInterval: nat)

  datatype ConfigError = HeartbeatTooShort | SampleOnChange | SampleTooShort | HeartbeatBelowSample

  datatype ConfigResult = Configured(config: StreamConfig) | Refused(error: ConfigError)

  const DEFAULT_INTERVAL: nat := 60_000_000_000

  const MINIMUM_INTERVAL: nat := 1_000_000_000

  /** The configuration a new subscriber gets; a poll subscription keeps the zero values. */
  function Configure(r: SubRequest): ConfigResult {
    if r.mode != STREAM then Configured(StreamConfig(TARGET_DEFINED, 0, false, 0))
    else
      match r.streamMode
      case TARGET_DEFINED => Configured(StreamConfig(SAMPLE, DEFAULT_INTERVAL, true, 0))
      case ON_CHANGE =>
        if 0 < r.heartbeatInterval < MINIMUM_INTERVAL then Refused(HeartbeatTooShort)
        else if r.sampleInterval != 0 then Refused(SampleOnChange)
        else Configured(StreamConfig(ON_CHANGE, 0, false, r.heartbeatInterval))
      case SAMPLE =>
        if 0 < r.sampleInterval < MINIMUM_INTERVAL then Refused(SampleTooShort)
        else if 0 < r.heartbeatInterval < MINIMUM_INTERVAL then Refused(HeartbeatTooShort)
        else if r.heartbeatInterval != 0 && r.sampleInterval > r.heartbeatInterval then Refused(HeartbeatBelowSample)
        else
          Configured(StreamConfig(SAMPLE, if r.sampleInterval == 0 then MINIMUM_INTERVAL else r.sampleInterval,
                                  r.suppressRedundant, r.heartbeatInterval))
  }

  /** Sound merging: requests with one key would have got one and the same configuration. */
  lemma MergingIsSound(a: SubRequest, b: SubRequest)
    requires Key(a) == Key(b)
    ensures Configure(a) == Configure(b)
  {
    KeyInjective(a, b);
  }

  /** What it takes to run a stream: a sampled one has a sampling interval of at least the
      minimum, an ON_CHANGE one never samples, and a heartbeat is off or not below the minimum
      and not faster than the samples. */
  predicate Runnable(c: StreamConfig) {
    && c.streamMode != TARGET_DEFINED
    && (c.streamMode == SAMPLE ==> c.sampleInterval >= MINIMUM_INTERVAL)
    && (c.streamMode == ON_CHANGE ==> c.sampleInterval == 0 && !c.suppressRedundant)
    && (c.heartbeatInterval != 0 ==> c.heartbeatInterval >= MINIMUM_INTERVAL && c.heartbeatInterval >= c.sampleInterval)
  }

  /** Every accepted stream configuration can be run. */
  lemma ConfigIsRunnable(r: SubRequest)
    requires r.mode == STREAM && Configure(r).Configured?
    ensures Runnable(Configure(r).config)
  {
  }

  /** What is accepted, and as what: the intervals are those asked for, with the minimum for a
      sample interval of zero, and the defaults of the target where the mode is left to it. */
  lemma ConfiguredExactly(r: SubRequest)
    requires r.mode == STREAM
    ensures r.streamMode == TARGET_DEFINED ==> Configure(r) == Configured(StreamConfig(SAMPLE, 60_000_000_000, true, 0))
    ensures r.streamMode == ON_CHANGE ==>
              if r.sampleInterval == 0 && (r.heartbeatInterval == 0 || r.heartbeatInterval >= 1_000_000_000) then
                Configure(r) == Configured(StreamConfig(ON_CHANGE, 0, false, r.heartbeatInterval))
              else Configure(r).Refused?
    ensures r.streamMode == SAMPLE ==>
              var sample, heartbeat := r.sampleInterval, r.heartbeatInterval;
              if && (sample == 0 || sample >= 1_000_000_000)
                 && (heartbeat == 0 || (heartbeat >= 1_000_000_000 && heartbeat >= sample))
              then
                Configure(r) == Configured(StreamConfig(SAMPLE, if sample == 0 then 1_000_000_000 else sample,
                                                        r.suppressRedundant, heartbeat))
              else Configure(r).Refused?
  {
  }

  lemma DecimalExample()
    ensures Decimal(0) == "0" && Decimal(120) == "120"
  {
    assert Decimal(12) == "12";
  }

  lemma {:induction false} JoinThree(a: string, b: string, c: string)
    ensures Join([a, b, c]) == a + "-" + (b + "-" + c)
  {
    JoinCons([a, b, c]);
    assert [a, b, c][1..] == [b, c] && [b, c][1..] == [c];
    JoinCons([b, c]);
  }

  /** The fields of a key in their order, and how they are joined. */
  lemma FieldsExample(prefix: string)
    ensures Fields(SubRequest(0, STREAM, JSON_IETF, prefix, true, false, ON_CHANGE, 0, 120, false)) ==
            ["0", "STREAM", "JSON_IETF", "ON_CHANGE", prefix, "0", "120", "true", "false", "false"]
    ensures Fields(SubRequest(120, POLL, PROTO, prefix, false, true, SAMPLE, 0, 0, true)) ==
            ["120", "POLL", "PROTO", prefix, "false", "true"]
    ensures Join(["0", "STREAM", prefix]) == "0" + "-" + ("STREAM" + "-" + prefix)
  {
    DecimalExample();
    JoinThree("0", "STREAM", prefix);
  }
}
