/**
 * getValueFromJSON: follows a dotted path through the decoded response
 * document and returns the integer at its end.
 */
module JsonTree {
  import opened Wrappers
  import opened Strings
  import opened Grpc

  /** A value as encoding/json decodes it into interface{}; numbers are float64, modelled as reals. */
  datatype Json =
    | Null
    | Bool(b: bool)
    | Number(n: real)
    | String(s: string)
    | Array(items: seq<Json>)
    | Object(fields: map<string, Json>)

  /** Go's conversion int(x) of a float64: the fractional part is dropped, toward zero. */
  function Truncate(x: real): (n: int)
    ensures 0.0 <= x ==> 0 <= n && n as real <= x < n as real + 1.0
    ensures x < 0.0 ==> n <= 0 && n as real - 1.0 < x <= n as real
  {
    if 0.0 <= x then x.Floor else -((-x).Floor)
  }

  function NotFoundKey(key: string): Status
  {
    Status(NotFound, "value not found for key: " + key)
  }

  /** The message formats the zero float64 that the failed assertion yields. */
  const NotAnInteger := Status(Internal, "value is not an integer: 0")

  /** The check after the loop: the value reached must be a number. */
  function Leaf(node: Json): Outcome<int>
  {
    if node.Number? then Ok(Truncate(node.n)) else Err(NotAnInteger)
  }

  /**
   * The loop of getValueFromJSON from cursor `node` over the keys still to
   * follow: each step asserts the cursor is a map (a panic otherwise) and looks
   * the key up in it.
   */
  function Walk(node: Json, keys: seq<string>): Outcome<int>
    decreases |keys|
  {
    if |keys| == 0 then Leaf(node)
    else match node
      case Object(fields) =>
        if keys[0] in fields then Walk(fields[keys[0]], keys[1..]) else Err(NotFoundKey(keys[0]))
      case _ => Panicked(NotAnObject(keys[0]))
  }

  /** What getValueFromJSON returns for a decoded response object and a dotted path. */
  function ValueAt(jsonData: map<string, Json>, valueLocation: string): Outcome<int>
  {
    Walk(Object(jsonData), Split(valueLocation, '.'))
  }

  /** The subtree a path leads to, when every key on it names a field of a map. */
  function At(node: Json, keys: seq<string>): Option<Json>
    decreases |keys|
  {
    if |keys| == 0 then Some(node)
    else if node.Object? && keys[0] in node.fields then At(node.fields[keys[0]], keys[1..])
    else None
  }

  /** getValueFromJSON as the source writes it: a cursor reassigned once per key. */
  method GetValueFromJson(jsonData: map<string, Json>, valueLocation: string) returns (r: Outcome<int>)
    ensures r == ValueAt(jsonData, valueLocation)
  {
    var keys := Split(valueLocation, '.');
    var rawValue := Object(jsonData);
    for i := 0 to |keys|
      invariant Walk(rawValue, keys[i..]) == Walk(Object(jsonData), keys)
    {
      if !rawValue.Object? {
        return Panicked(NotAnObject(keys[i]));
      }
      if keys[i] !in rawValue.fields {
        return Err(NotFoundKey(keys[i]));
      }
      assert keys[i..][1..] == keys[i + 1..];
      rawValue := rawValue.fields[keys[i]];
    }
    if !rawValue.Number? {
      return Err(NotAnInteger);
    }
    return Ok(Truncate(rawValue.n));
  }

  /**
   * The walk yields a value exactly when the path leads to a number, and the
   * value is that number truncated; a path leading to anything else is Internal.
   */
  lemma {:induction false} WalkResolved(node: Json, keys: seq<string>)
    ensures Walk(node, keys).Ok? <==> At(node, keys).Some? && At(node, keys).value.Number?
    ensures Walk(node, keys).Ok? ==> Walk(node, keys).value == Truncate(At(node, keys).value.n)
    ensures At(node, keys).Some? && !At(node, keys).value.Number? ==> Walk(node, keys) == Err(NotAnInteger)
    decreases |keys|
  {
    if |keys| > 0 && node.Object? && keys[0] in node.fields {
      WalkResolved(node.fields[keys[0]], keys[1..]);
    }
  }

  /** Once a prefix of the path has been followed, the walk goes on from where it led. */
  lemma {:induction false} WalkAfterPrefix(node: Json, p: seq<string>, q: seq<string>)
    requires At(node, p).Some?
    ensures Walk(node, p + q) == Walk(At(node, p).value, q)
    decreases |p|
  {
    if |p| > 0 {
      assert (p + q)[0] == p[0] && (p + q)[1..] == p[1..] + q;
      WalkAfterPrefix(node.fields[p[0]], p[1..], q);
    } else {
      assert p + q == q;
    }
  }

  /** The first key missing from a map on the path is the one NotFound names. */
  lemma FirstMissingKey(node: Json, p: seq<string>, k: string, q: seq<string>)
    requires At(node, p).Some? && At(node, p).value.Object?
    requires k !in At(node, p).value.fields
    ensures Walk(node, p + [k] + q) == Err(NotFoundKey(k))
  {
    assert p + [k] + q == p + ([k] + q);
    WalkAfterPrefix(node, p, [k] + q);
  }

  /** A key to follow from a value that is not a map panics (the single-value type assertion). */
  lemma NonObjectPanics(node: Json, p: seq<string>, k: string, q: seq<string>)
    requires At(node, p).Some? && !At(node, p).value.Object?
    ensures Walk(node, p + [k] + q) == Panicked(NotAnObject(k))
  {
    assert p + [k] + q == p + ([k] + q);
    WalkAfterPrefix(node, p, [k] + q);
  }

  /** The path's keys are those between the dots, in order. */
  lemma ValueAtPath(jsonData: map<string, Json>, keys: seq<string>)
    requires |keys| > 0 && forall i :: 0 <= i < |keys| ==> '.' !in keys[i]
    ensures ValueAt(jsonData, Join(keys, '.')) == Walk(Object(jsonData), keys)
  {
    SplitJoin(keys, '.');
  }

  /** An empty location is not rejected: it looks up the single key "". */
  lemma EmptyLocation(jsonData: map<string, Json>)
    ensures ValueAt(jsonData, "") ==
              if "" in jsonData then Leaf(jsonData[""]) else Err(NotFoundKey(""))
  {
    var keys := Split("", '.');
    assert keys == [""];
    assert keys[1..] == [];
    if "" in jsonData {
      assert Walk(Object(jsonData), keys) == Walk(jsonData[""], []);
    }
  }
}
