/**
 * The three one-shot operations of the KEDA external-scaler service:
 * IsActive, GetMetricSpec and GetMetrics. Each reads the ScaledObject's
 * metadata map, validates it, and (except GetMetricSpec) runs one search.
 */
module ExternalScaler {
  import opened Wrappers
  import opened Strings
  import opened Strconv
  import opened Grpc
  import opened SearchTemplate

  /** ScaledObjectRef.ScalerMetadata. */
  type Metadata = map<string, string>

  datatype IsActiveResponse = IsActiveResponse(result: bool)
  datatype MetricSpec = MetricSpec(metricName: string, targetSize: int)
  datatype MetricValue = MetricValue(metricName: string, metricValue: int)

  const MetricName := "searchMatchDocCount"
  const DefaultTargetValue := 50

  const UnsafeSslError := Status(InvalidArgument, "unsafeSSL must be either true or false")
  const MissingFieldsError :=
    Status(InvalidArgument, "index, searchTemplateName, parameters and valueLocation must be specified")
  const TargetValueError := Status(InvalidArgument, "targetValue must be an int64")

  /** Indexing a Go map: the empty string for an absent key. */
  function Get(md: Metadata, key: string): string
  {
    if key in md then md[key] else ""
  }

  /** The unsafeSSL flag: "false" when absent, otherwise it must lower-case to "true" or "false". */
  function UnsafeSsl(md: Metadata): Outcome<bool>
  {
    var raw := if "unsafeSSL" in md then md["unsafeSSL"] else "false";
    var lower := ToLower(raw);
    if lower != "true" && lower != "false" then Err(UnsafeSslError) else Ok(lower == "true")
  }

  /** activationTargetValue: Atoi of the entry, 0 when it is absent or does not parse. */
  function ActivationTarget(md: Metadata): int
  {
    if "activationTargetValue" in md then
      match ParseInt64(md["activationTargetValue"])
      case Some(n) => n
      case None => 0
    else 0
  }

  /** The four entries a search needs, each present and non-empty. */
  predicate RequiredPresent(md: Metadata)
  {
    && |Get(md, "index")| > 0
    && |Get(md, "searchTemplateName")| > 0
    && |Get(md, "parameters")| > 0
    && |Get(md, "valueLocation")| > 0
  }

  /** The search the metadata describes. */
  function Search(md: Metadata, unsafeSsl: bool, server: Request -> Exchange): Outcome<int>
  {
    ExecuteSearchTemplate(unsafeSsl, Get(md, "index"), Get(md, "searchTemplateName"),
                          Get(md, "parameters"), Get(md, "valueLocation"), server)
  }

  /** IsActive: unsafeSSL is checked first, then the required entries, then the search runs. */
  function IsActive(md: Metadata, server: Request -> Exchange): Outcome<IsActiveResponse>
  {
    var ssl := UnsafeSsl(md);
    if !ssl.Ok? then Err(UnsafeSslError)
    else if !RequiredPresent(md) then Err(MissingFieldsError)
    else match Search(md, ssl.value, server)
      case Ok(value) => Ok(IsActiveResponse(value > ActivationTarget(md)))
      case Err(s) => Err(s)
      case Panicked(c) => Panicked(c)
  }

  /** GetMetricSpec: one spec, its target the int64 in targetValue, 50 when that is empty or absent. */
  function GetMetricSpec(md: Metadata): Outcome<seq<MetricSpec>>
  {
    var targetValueStr := Get(md, "targetValue");
    if |targetValueStr| == 0 then Ok([MetricSpec(MetricName, DefaultTargetValue)])
    else match ParseInt64(targetValueStr)
      case None => Err(TargetValueError)
      case Some(targetValue) => Ok([MetricSpec(MetricName, targetValue)])
  }

  /** GetMetrics: the same validation as IsActive, minus the threshold; the value is the search result. */
  function GetMetrics(md: Metadata, server: Request -> Exchange): Outcome<seq<MetricValue>>
  {
    var ssl := UnsafeSsl(md);
    if !ssl.Ok? then Err(UnsafeSslError)
    else if !RequiredPresent(md) then Err(MissingFieldsError)
    else match Search(md, ssl.value, server)
      case Ok(value) => Ok([MetricValue(MetricName, value)])
      case Err(s) => Err(s)
      case Panicked(c) => Panicked(c)
  }

  /**
   * unsafeSSL is accepted when absent (meaning false) or when it spells "true"
   * or "false" in any mix of cases; the flag is set exactly for "true".
   */
  lemma UnsafeSslAccepts(md: Metadata, b: bool)
    ensures UnsafeSsl(md) == Ok(b) <==>
              if "unsafeSSL" !in md then !b
              else var s := md["unsafeSSL"]; var w := if b then "true" else "false";
                   |s| == |w| && forall i :: 0 <= i < |s| ==> s[i] == w[i] || s[i] == UpperAscii(w[i])
    ensures !UnsafeSsl(md).Ok? ==> UnsafeSsl(md) == Err(UnsafeSslError)
  {
  }

  /** Even an empty unsafeSSL entry is rejected. */
  lemma EmptyUnsafeSslRejected(md: Metadata)
    requires "unsafeSSL" in md && md["unsafeSSL"] == ""
    ensures UnsafeSsl(md) == Err(UnsafeSslError)
  {
  }

  /** The threshold is the parsed entry, and 0 when the entry is absent or not an int. */
  lemma ActivationTargetDefaults(md: Metadata)
    ensures "activationTargetValue" !in md ==> ActivationTarget(md) == 0
    ensures "activationTargetValue" in md && ParseInt64(md["activationTargetValue"]) == None ==>
              ActivationTarget(md) == 0
    ensures forall n :: MinInt64 <= n <= MaxInt64 && Get(md, "activationTargetValue") == Itoa(n) ==>
              ActivationTarget(md) == n
  {
    forall n | MinInt64 <= n <= MaxInt64 && Get(md, "activationTargetValue") == Itoa(n)
      ensures ActivationTarget(md) == n
    {
      ParseItoa(n);
      assert "activationTargetValue" in md by {
        assert |Itoa(n)| > 0;
      }
    }
  }

  /** In IsActive a bad unsafeSSL is reported before missing entries, and no search runs. */
  lemma IsActiveChecksUnsafeSslFirst(md: Metadata, server: Request -> Exchange)
    requires !UnsafeSsl(md).Ok?
    ensures IsActive(md, server) == Err(UnsafeSslError)
    ensures GetMetrics(md, server) == Err(UnsafeSslError)
  {
  }

  /**
   * A missing or empty required entry is InvalidArgument, whatever the server
   * would answer: no query is executed.
   */
  lemma MissingFieldRejected(md: Metadata, server: Request -> Exchange)
    requires UnsafeSsl(md).Ok?
    requires exists key :: key in ["index", "searchTemplateName", "parameters", "valueLocation"] &&
                           (key !in md || md[key] == "")
    ensures IsActive(md, server) == Err(MissingFieldsError)
    ensures GetMetrics(md, server) == Err(MissingFieldsError)
  {
  }

  /**
   * With valid metadata IsActive reports `value > activationTargetValue`,
   * strictly greater, and passes errors and panics of the search through unchanged.
   */
  lemma IsActiveDecision(md: Metadata, server: Request -> Exchange)
    requires UnsafeSsl(md).Ok? && RequiredPresent(md)
    ensures var s := Search(md, UnsafeSsl(md).value, server);
            && (s.Ok? ==> IsActive(md, server) == Ok(IsActiveResponse(s.value > ActivationTarget(md))))
            && (s.Err? ==> IsActive(md, server) == Err(s.status))
            && (s.Panicked? ==> IsActive(md, server) == Panicked(s.crash))
  {
  }

  /**
   * The threshold itself is not active: a search value equal to the int64
   * written in activationTargetValue gives false.
   */
  lemma ThresholdIsStrict(md: Metadata, server: Request -> Exchange, n: int)
    requires UnsafeSsl(md).Ok? && RequiredPresent(md)
    requires MinInt64 <= n <= MaxInt64
    requires Get(md, "activationTargetValue") == Itoa(n)
    requires Search(md, UnsafeSsl(md).value, server) == Ok(n)
    ensures IsActive(md, server) == Ok(IsActiveResponse(false))
  {
    ActivationTargetDefaults(md);
  }

  /**
   * GetMetricSpec returns exactly one spec named searchMatchDocCount; its
   * target is 50 for an empty or absent targetValue and the parsed int64
   * otherwise, and a targetValue that does not parse is InvalidArgument.
   */
  lemma MetricSpecTarget(md: Metadata)
    ensures var r := GetMetricSpec(md);
            && (r.Ok? ==> |r.value| == 1 && r.value[0].metricName == "searchMatchDocCount")
            && (Get(md, "targetValue") == "" ==> r == Ok([MetricSpec(MetricName, 50)]))
            && (Get(md, "targetValue") != "" && ParseInt64(Get(md, "targetValue")) == None ==>
                  r == Err(TargetValueError))
            && (forall n :: MinInt64 <= n <= MaxInt64 && Get(md, "targetValue") == Itoa(n) ==>
                  r == Ok([MetricSpec(MetricName, n)]))
  {
    forall n | MinInt64 <= n <= MaxInt64 && Get(md, "targetValue") == Itoa(n)
      ensures GetMetricSpec(md) == Ok([MetricSpec(MetricName, n)])
    {
      ParseItoa(n);
      assert |Itoa(n)| > 0;
    }
  }

  /** A targetValue that is not an integer is refused rather than defaulted. */
  lemma NonIntegerTargetRejected(md: Metadata)
    requires Get(md, "targetValue") == "abc"
    ensures GetMetricSpec(md) == Err(TargetValueError)
  {
  }

  /**
   * GetMetrics returns exactly one value named searchMatchDocCount carrying the
   * search result, and passes errors and panics of the search through.
   */
  lemma MetricsValue(md: Metadata, server: Request -> Exchange)
    requires UnsafeSsl(md).Ok? && RequiredPresent(md)
    ensures var s := Search(md, UnsafeSsl(md).value, server);
            var r := GetMetrics(md, server);
            && (r.Ok? <==> s.Ok?)
            && (s.Ok? ==> r.value == [MetricValue("searchMatchDocCount", s.value)])
            && (s.Err? ==> r == Err(s.status))
            && (s.Panicked? ==> r == Panicked(s.crash))
  {
  }
}
