/**
 * executeSearchTemplate: decode the parameters, run the named search template
 * against the index, and read the integer at `valueLocation` in the reply.
 * The HTTP exchange is not modelled; the model receives it as `server`, the
 * reply the cluster gives to the request the service sends.
 */
module SearchTemplate {
  import opened Strings
  import opened Strconv
  import opened Grpc
  import opened Params
  import opened JsonTree

  /** The request the service sends: GET {ES_URL}/{index}/_search/template with body {"id", "params"}. */
  datatype Request = Request(index: string, id: string, params: ParamMap, insecureSkipVerify: bool)

  /**
   * The decoded body. encoding/json fails (Unparsable) on anything that is not
   * a JSON object or null; a null body decodes to a nil map, that is `Document(map[])`.
   */
  datatype Body = Unparsable(err: string) | Document(root: map<string, Json>)

  /** How the exchange went, in the order the source checks it. */
  datatype Exchange =
    | RequestError(err: string)     // http.NewRequest refused the URL
    | TransportError(err: string)   // client.Do failed: connection, TLS, 30 s timeout
    | ReadError(err: string)        // ioutil.ReadAll of the body failed
    | Response(statusCode: int, body: Body)

  const StatusOK := 200

  /** The steps after a 200 reply, shared by the as-written and the intended definitions. */
  function Decode(body: Body, valueLocation: string): Outcome<int>
  {
    match body
    case Unparsable(e) => Err(Status(Internal, "error unmarshaling JSON response: " + e))
    case Document(root) => ValueAt(root, valueLocation)
  }

  /**
   * executeSearchTemplate as written. A reply whose status is not 200 reaches
   * `err.Error()` with the nil error ReadAll left behind: a nil dereference.
   */
  function ExecuteSearchTemplate(unsafeSsl: bool, index: string, searchTemplateName: string,
                                 parameters: string, valueLocation: string,
                                 server: Request -> Exchange): Outcome<int>
  {
    match ParsedParams(parameters)
    case Err(s) => Err(s)
    case Panicked(c) => Panicked(c)
    case Ok(paramMap) =>
      match server(Request(index, searchTemplateName, paramMap, unsafeSsl))
      case RequestError(e) => Err(Status(Internal, e))
      case TransportError(e) => Err(Status(Internal, e))
      case ReadError(e) => Err(Status(Internal, e))
      case Response(code, body) =>
        if code != StatusOK then Panicked(NilErrorDereference) else Decode(body, valueLocation)
  }

  /** The status check as evidently intended: a rejected query is an Internal error. */
  function ExecuteSearchTemplateIntended(unsafeSsl: bool, index: string, searchTemplateName: string,
                                         parameters: string, valueLocation: string,
                                         server: Request -> Exchange): Outcome<int>
  {
    match ParsedParams(parameters)
    case Err(s) => Err(s)
    case Panicked(c) => Panicked(c)
    case Ok(paramMap) =>
      match server(Request(index, searchTemplateName, paramMap, unsafeSsl))
      case RequestError(e) => Err(Status(Internal, e))
      case TransportError(e) => Err(Status(Internal, e))
      case ReadError(e) => Err(Status(Internal, e))
      case Response(code, body) =>
        if code != StatusOK then Err(Status(Internal, "unexpected status code " + Itoa(code)))
        else Decode(body, valueLocation)
  }

  /**
   * Parameter errors come first: a malformed `parameters` string is reported as
   * parseParams reports it, whatever the server would have answered, so no
   * request is sent.
   */
  lemma ParameterErrorsFirst(unsafeSsl: bool, index: string, name: string, parameters: string,
                             valueLocation: string, server: Request -> Exchange, server': Request -> Exchange)
    requires !ParsedParams(parameters).Ok?
    ensures ExecuteSearchTemplate(unsafeSsl, index, name, parameters, valueLocation, server) ==
            ExecuteSearchTemplate(unsafeSsl, index, name, parameters, valueLocation, server')
    ensures var r := ExecuteSearchTemplate(unsafeSsl, index, name, parameters, valueLocation, server);
            r.Err? && r.status.code == InvalidArgument
  {
    var pairs := Split(parameters, ';');
    CollectFailsOnFirstMalformed(pairs, map[]);
    var k :| 0 <= k < |pairs| && !WellFormedPair(pairs[k]);
    FirstMalformedExists(pairs, k);
  }

  /**
   * The search yields a value exactly when the parameters parse, the reply is
   * a 200 with an object body, and the path leads to a number; the value is
   * that number truncated toward zero.
   */
  lemma SearchValue(unsafeSsl: bool, index: string, name: string, parameters: string,
                    valueLocation: string, server: Request -> Exchange)
    ensures var r := ExecuteSearchTemplate(unsafeSsl, index, name, parameters, valueLocation, server);
            r.Ok? <==>
              && ParsedParams(parameters).Ok?
              && var reply := server(Request(index, name, ParsedParams(parameters).value, unsafeSsl));
              && reply.Response? && reply.statusCode == StatusOK && reply.body.Document?
              && var leaf := At(Object(reply.body.root), Split(valueLocation, '.'));
              && leaf.Some? && leaf.value.Number?
    ensures var r := ExecuteSearchTemplate(unsafeSsl, index, name, parameters, valueLocation, server);
            r.Ok? ==>
              var reply := server(Request(index, name, ParsedParams(parameters).value, unsafeSsl));
              var leaf := At(Object(reply.body.root), Split(valueLocation, '.'));
              r.value == Truncate(leaf.value.n)
  {
    var parsed := ParsedParams(parameters);
    if parsed.Ok? {
      var reply := server(Request(index, name, parsed.value, unsafeSsl));
      if reply.Response? && reply.body.Document? {
        WalkResolved(Object(reply.body.root), Split(valueLocation, '.'));
      }
    } else {
      ParameterErrorsFirst(unsafeSsl, index, name, parameters, valueLocation, server, server);
    }
  }

  /**
   * Once the parameters parse and the reply is a 200 with an object body, the
   * search reports whatever the path lookup reports: the value, NotFound for
   * the first missing key, Internal for a leaf that is not a number, or the
   * type-assertion panic.
   */
  lemma SearchReportsPathOutcome(unsafeSsl: bool, index: string, name: string, parameters: string,
                                 valueLocation: string, server: Request -> Exchange)
    requires ParsedParams(parameters).Ok?
    requires var reply := server(Request(index, name, ParsedParams(parameters).value, unsafeSsl));
             reply.Response? && reply.statusCode == StatusOK && reply.body.Document?
    ensures var reply := server(Request(index, name, ParsedParams(parameters).value, unsafeSsl));
            ExecuteSearchTemplate(unsafeSsl, index, name, parameters, valueLocation, server)
              == ValueAt(reply.body.root, valueLocation)
  {
  }

  /** Failures of the exchange itself, and an undecodable body, are Internal. */
  lemma ExchangeFailuresAreInternal(unsafeSsl: bool, index: string, name: string, parameters: string,
                                    valueLocation: string, server: Request -> Exchange)
    requires ParsedParams(parameters).Ok?
    requires var reply := server(Request(index, name, ParsedParams(parameters).value, unsafeSsl));
             reply.RequestError? || reply.TransportError? || reply.ReadError? ||
             (reply.Response? && reply.statusCode == StatusOK && reply.body.Unparsable?)
    ensures var r := ExecuteSearchTemplate(unsafeSsl, index, name, parameters, valueLocation, server);
            r.Err? && r.status.code == Internal
  {
  }

  /** As written: any status other than 200 panics instead of returning an error. */
  lemma RejectedStatusPanics(unsafeSsl: bool, index: string, name: string, parameters: string,
                             valueLocation: string, server: Request -> Exchange)
    requires ParsedParams(parameters).Ok?
    requires var reply := server(Request(index, name, ParsedParams(parameters).value, unsafeSsl));
             reply.Response? && reply.statusCode != StatusOK
    ensures ExecuteSearchTemplate(unsafeSsl, index, name, parameters, valueLocation, server) ==
            Panicked(NilErrorDereference)
  {
  }

  /** Concrete instance: "q:1" parses, the cluster answers 500, the handler panics. */
  lemma Status500Panics(server: Request -> Exchange)
    requires server(Request("logs", "count", map["q" := "1"], false)) == Response(500, Document(map[]))
    ensures ExecuteSearchTemplate(false, "logs", "count", "q:1", "hits.total", server) ==
            Panicked(NilErrorDereference)
  {
    SplitWithoutSeparator("q:1", ';');
    assert "q:1" == "q" + [':'] + "1";
    SplitAtFirstSeparator("q", ':', "1");
    SplitWithoutSeparator("1", ':');
    assert ParsedParams("q:1") == Ok(map["q" := "1"]);
  }

  /**
   * Intended: a rejected status is an Internal error, no nil dereference is
   * possible, and everything else is as written.
   */
  lemma IntendedRejectedStatusIsInternal(unsafeSsl: bool, index: string, name: string, parameters: string,
                                         valueLocation: string, server: Request -> Exchange)
    ensures var r := ExecuteSearchTemplateIntended(unsafeSsl, index, name, parameters, valueLocation, server);
            r != Panicked(NilErrorDereference)
    ensures ParsedParams(parameters).Ok? &&
            (var reply := server(Request(index, name, ParsedParams(parameters).value, unsafeSsl));
             reply.Response? && reply.statusCode != StatusOK) ==>
            var r := ExecuteSearchTemplateIntended(unsafeSsl, index, name, parameters, valueLocation, server);
            r.Err? && r.status.code == Internal
    ensures var w := ExecuteSearchTemplate(unsafeSsl, index, name, parameters, valueLocation, server);
            w != Panicked(NilErrorDereference) ==>
            ExecuteSearchTemplateIntended(unsafeSsl, index, name, parameters, valueLocation, server) == w
  {
    var parsed := ParsedParams(parameters);
    if parsed.Ok? {
      var reply := server(Request(index, name, parsed.value, unsafeSsl));
      if reply.Response? && reply.statusCode == StatusOK && reply.body.Document? {
        WalkNeverDereferencesNil(Object(reply.body.root), Split(valueLocation, '.'));
      }
    }
  }

  /** The path walk panics only on a failed type assertion, never on a nil error. */
  lemma {:induction false} WalkNeverDereferencesNil(node: Json, keys: seq<string>)
    ensures Walk(node, keys) != Panicked(NilErrorDereference)
    decreases |keys|
  {
    if |keys| > 0 && node.Object? && keys[0] in node.fields {
      WalkNeverDereferencesNil(node.fields[keys[0]], keys[1..]);
    }
  }
}
