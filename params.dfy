/**
 * parseParams: decodes the `parameters` metadata string, `k:v;k:v`, into the
 * parameter map sent with the search-template request.
 */
module Params {
  import opened Strings
  import opened Grpc

  type ParamMap = map<string, string>

  /** A `;`-segment is accepted when it splits on ':' into exactly two parts. */
  predicate WellFormedPair(pair: string)
  {
    |Split(pair, ':')| == 2
  }

  function Key(pair: string): string
  {
    Split(pair, ':')[0]
  }

  function Val(pair: string): string
  {
    var kv := Split(pair, ':');
    if |kv| > 1 then kv[1] else ""
  }

  function InvalidPair(pair: string): Status
  {
    Status(InvalidArgument, "invalid parameter format: " + pair)
  }

  /** The loop of parseParams over the remaining segments, `acc` being the map so far. */
  function Collect(pairs: seq<string>, acc: ParamMap): (r: Outcome<ParamMap>)
    ensures !r.Panicked?
    decreases |pairs|
  {
    if |pairs| == 0 then Ok(acc)
    else if !WellFormedPair(pairs[0]) then Err(InvalidPair(pairs[0]))
    else Collect(pairs[1..], acc[Key(pairs[0]) := Val(pairs[0])])
  }

  /** What parseParams returns for `params`. */
  function ParsedParams(params: string): Outcome<ParamMap>
  {
    if params == "" then Ok(map[]) else Collect(Split(params, ';'), map[])
  }

  /** parseParams as the source writes it: a loop filling the map in place. */
  method ParseParams(params: string) returns (r: Outcome<ParamMap>)
    ensures r == ParsedParams(params)
  {
    var paramMap: ParamMap := map[];
    if params == "" {
      return Ok(paramMap);
    }
    var pairs := Split(params, ';');
    for i := 0 to |pairs|
      invariant Collect(pairs[i..], paramMap) == Collect(pairs, map[])
    {
      var kv := Split(pairs[i], ':');
      if |kv| != 2 {
        return Err(InvalidPair(pairs[i]));
      }
      assert pairs[i..][1..] == pairs[i + 1..];
      paramMap := paramMap[kv[0] := kv[1]];
    }
    return Ok(paramMap);
  }

  /** A segment is well formed exactly when it holds one ':' (either side may be empty). */
  lemma WellFormedPairOneColon(pair: string)
    ensures WellFormedPair(pair) <==> Count(pair, ':') == 1
    ensures WellFormedPair(pair) ==> Join([Key(pair), Val(pair)], ':') == pair
  {
    if WellFormedPair(pair) {
      JoinSplit(pair, ':');
      assert Split(pair, ':') == [Key(pair), Val(pair)];
    }
  }

  /** Collecting fails exactly when some segment is malformed, and then names the first one. */
  lemma {:induction false} CollectFailsOnFirstMalformed(pairs: seq<string>, acc: ParamMap)
    ensures Collect(pairs, acc).Ok? <==> forall i :: 0 <= i < |pairs| ==> WellFormedPair(pairs[i])
    ensures forall j :: 0 <= j < |pairs| && !WellFormedPair(pairs[j]) &&
                        (forall i :: 0 <= i < j ==> WellFormedPair(pairs[i])) ==>
                        Collect(pairs, acc) == Err(InvalidPair(pairs[j]))
    decreases |pairs|
  {
    if |pairs| > 0 && WellFormedPair(pairs[0]) {
      var rest := pairs[1..];
      CollectFailsOnFirstMalformed(rest, acc[Key(pairs[0]) := Val(pairs[0])]);
      forall j | 0 <= j < |pairs| && !WellFormedPair(pairs[j]) &&
                 (forall i :: 0 <= i < j ==> WellFormedPair(pairs[i]))
        ensures Collect(pairs, acc) == Err(InvalidPair(pairs[j]))
      {
        assert j > 0 && rest[j - 1] == pairs[j];
        assert forall i :: 0 <= i < j - 1 ==> rest[i] == pairs[i + 1];
      }
      if forall i :: 0 <= i < |rest| ==> WellFormedPair(rest[i]) {
        assert forall i :: 0 <= i < |pairs| ==> WellFormedPair(pairs[i]) by {
          assert forall i :: 1 <= i < |pairs| ==> pairs[i] == rest[i - 1];
        }
      }
    }
  }

  /**
   * When every segment is well formed, collecting succeeds and its keys are
   * those of `acc` and the segments' first parts.
   */
  lemma {:induction false} CollectKeys(pairs: seq<string>, acc: ParamMap)
    requires forall i :: 0 <= i < |pairs| ==> WellFormedPair(pairs[i])
    ensures Collect(pairs, acc).Ok?
    ensures forall k :: k in Collect(pairs, acc).value <==>
                        k in acc || exists i :: 0 <= i < |pairs| && Key(pairs[i]) == k
    decreases |pairs|
  {
    if |pairs| > 0 {
      var rest := pairs[1..];
      var acc' := acc[Key(pairs[0]) := Val(pairs[0])];
      CollectKeys(rest, acc');
      forall k | exists i :: 0 <= i < |pairs| && Key(pairs[i]) == k
        ensures k in acc' || exists i :: 0 <= i < |rest| && Key(rest[i]) == k
      {
        var i :| 0 <= i < |pairs| && Key(pairs[i]) == k;
        if i > 0 {
          assert Key(rest[i - 1]) == k;
        }
      }
      assert forall i :: 0 <= i < |rest| ==> rest[i] == pairs[i + 1];
    }
  }

  /** When every segment is well formed, a key takes the value of its LAST segment. */
  lemma {:induction false} CollectLastWins(pairs: seq<string>, acc: ParamMap, j: nat)
    requires forall i :: 0 <= i < |pairs| ==> WellFormedPair(pairs[i])
    requires j < |pairs|
    requires forall l :: j < l < |pairs| ==> Key(pairs[l]) != Key(pairs[j])
    ensures Collect(pairs, acc).Ok?
    ensures Key(pairs[j]) in Collect(pairs, acc).value
    ensures Collect(pairs, acc).value[Key(pairs[j])] == Val(pairs[j])
    decreases |pairs|
  {
    var rest := pairs[1..];
    var acc' := acc[Key(pairs[0]) := Val(pairs[0])];
    assert Collect(pairs, acc) == Collect(rest, acc');
    if j > 0 {
      assert forall l :: 0 <= l < |rest| ==> rest[l] == pairs[l + 1];
      CollectLastWins(rest, acc', j - 1);
    } else {
      CollectKeepsUnnamed(rest, acc', Key(pairs[0]));
    }
  }

  /** A key of `acc` that no well-formed segment names keeps its value. */
  lemma {:induction false} CollectKeepsUnnamed(pairs: seq<string>, acc: ParamMap, k: string)
    requires forall i :: 0 <= i < |pairs| ==> WellFormedPair(pairs[i])
    requires k in acc
    requires forall i :: 0 <= i < |pairs| ==> Key(pairs[i]) != k
    ensures Collect(pairs, acc).Ok?
    ensures k in Collect(pairs, acc).value && Collect(pairs, acc).value[k] == acc[k]
    decreases |pairs|
  {
    if |pairs| > 0 {
      var rest := pairs[1..];
      assert forall l :: 0 <= l < |rest| ==> rest[l] == pairs[l + 1];
      CollectKeepsUnnamed(rest, acc[Key(pairs[0]) := Val(pairs[0])], k);
    }
  }

  /** parseParams succeeds exactly on "" or when every `;`-segment holds one ':'. */
  lemma ParsedParamsAccepts(params: string)
    ensures ParsedParams(params).Ok? <==>
              params == "" || forall p :: p in Split(params, ';') ==> Count(p, ':') == 1
    ensures params == "" ==> ParsedParams(params) == Ok(map[])
  {
    if params != "" {
      var pairs := Split(params, ';');
      assert ParsedParams(params) == Collect(pairs, map[]);
      CollectFailsOnFirstMalformed(pairs, map[]);
      forall p | p in pairs
        ensures WellFormedPair(p) <==> Count(p, ':') == 1
      {
        WellFormedPairOneColon(p);
      }
      if forall p :: p in pairs ==> Count(p, ':') == 1 {
        assert forall i :: 0 <= i < |pairs| ==> WellFormedPair(pairs[i]) by {
          assert forall i :: 0 <= i < |pairs| ==> pairs[i] in pairs;
        }
        assert Collect(pairs, map[]).Ok?;
      } else {
        var p :| p in pairs && Count(p, ':') != 1;
        var i :| 0 <= i < |pairs| && pairs[i] == p;
        assert !WellFormedPair(pairs[i]);
        assert !Collect(pairs, map[]).Ok?;
      }
    }
  }

  /** The error names the first malformed segment. */
  lemma ParsedParamsFirstError(params: string, j: nat)
    requires params != ""
    requires var pairs := Split(params, ';');
               j < |pairs| && !WellFormedPair(pairs[j]) &&
               forall i :: 0 <= i < j ==> WellFormedPair(pairs[i])
    ensures ParsedParams(params) == Err(InvalidPair(Split(params, ';')[j]))
  {
    CollectFailsOnFirstMalformed(Split(params, ';'), map[]);
  }

  /** A trailing ';' leaves an empty last segment, which is rejected. */
  lemma TrailingSemicolonRejected(params: string)
    requires |params| > 0 && params[|params| - 1] == ';'
    ensures ParsedParams(params).Err? && ParsedParams(params).status.code == InvalidArgument
  {
    var pairs := Split(params, ';');
    SplitTrailingSeparator(params, ';');
    assert !WellFormedPair(pairs[|pairs| - 1]);
    CollectFailsOnFirstMalformed(pairs, map[]);
    var j :| 0 <= j < |pairs| && !WellFormedPair(pairs[j]) &&
             (forall i :: 0 <= i < j ==> WellFormedPair(pairs[i])) by {
      FirstMalformedExists(pairs, |pairs| - 1);
    }
  }

  lemma {:induction false} FirstMalformedExists(pairs: seq<string>, k: nat)
    requires k < |pairs| && !WellFormedPair(pairs[k])
    ensures exists j :: 0 <= j < |pairs| && !WellFormedPair(pairs[j]) &&
                        forall i :: 0 <= i < j ==> WellFormedPair(pairs[i])
  {
    if forall i :: 0 <= i < k ==> WellFormedPair(pairs[i]) {
    } else {
      var i :| 0 <= i < k && !WellFormedPair(pairs[i]);
      FirstMalformedExists(pairs, i);
    }
  }

  /**
   * On success the map's keys are exactly the segments' first parts, and each
   * key carries the second part of the last segment that names it.
   */
  lemma ParsedParamsEntries(params: string)
    requires ParsedParams(params).Ok?
    ensures var pairs := if params == "" then [] else Split(params, ';');
            var m := ParsedParams(params).value;
            && (forall k :: k in m <==> exists i :: 0 <= i < |pairs| && Key(pairs[i]) == k)
            && forall j :: 0 <= j < |pairs| &&
                           (forall l :: j < l < |pairs| ==> Key(pairs[l]) != Key(pairs[j])) ==>
                           m[Key(pairs[j])] == Val(pairs[j])
  {
    if params != "" {
      var pairs := Split(params, ';');
      CollectFailsOnFirstMalformed(pairs, map[]);
      CollectKeys(pairs, map[]);
      forall j | 0 <= j < |pairs| && (forall l :: j < l < |pairs| ==> Key(pairs[l]) != Key(pairs[j])) {
        CollectLastWins(pairs, map[], j);
      }
    }
  }
}
