/**
 * StreamIsActive: after the same validation as IsActive, an endless loop that
 * waits for either the caller's cancellation or the 20-minute tick, and on a
 * tick runs the search and sends `Result: true` when the value is above the
 * activation threshold. The two wake-up sources are modelled as the sequence
 * of events the loop observes, in order.
 */
module Stream {
  import opened Grpc
  import opened Params
  import opened SearchTemplate
  import opened ExternalScaler

  /** What wakes the loop: the stream's context is done, or the timer fires with the cluster in some state. */
  datatype Event = Cancel | Tick(server: Request -> Exchange)

  /** Where the handler stands once the events are used up. */
  datatype End =
    | Rejected(status: Status)   // returned an error before the loop
    | Cancelled                  // returned nil on cancellation
    | Crashed(crash: Crash)      // a search panicked inside the loop
    | Polling                    // still waiting in the loop

  datatype Trace = Trace(end: End, sent: seq<IsActiveResponse>)

  /** The search a tick runs, as a function of the cluster's replies. */
  type TickSearch = (Request -> Exchange) -> Outcome<int>

  /** The search the validated metadata describes. */
  function SearchFor(md: Metadata, unsafeSsl: bool): TickSearch
  {
    (server: Request -> Exchange) => Search(md, unsafeSsl, server)
  }

  /**
   * One tick: a panic ends the handler; an error is only logged; a value above
   * the threshold is sent before the loop goes on to `rest`.
   */
  function AfterTick(value: Outcome<int>, threshold: int, rest: Trace): Trace
  {
    match value
    case Panicked(c) => Trace(Crashed(c), [])
    case Err(_) => rest
    case Ok(v) => if v > threshold then Trace(rest.end, [IsActiveResponse(true)] + rest.sent) else rest
  }

  /** The loop from the point where `events` remain. */
  function Session(search: TickSearch, threshold: int, events: seq<Event>): Trace
    decreases |events|
  {
    if |events| == 0 then Trace(Polling, [])
    else match events[0]
      case Cancel => Trace(Cancelled, [])
      case Tick(server) => AfterTick(search(server), threshold, Session(search, threshold, events[1..]))
  }

  /** What StreamIsActive does for `md` when the loop observes `events`. */
  function StreamOutcome(md: Metadata, events: seq<Event>): Trace
  {
    var ssl := UnsafeSsl(md);
    if !ssl.Ok? then Trace(Rejected(UnsafeSslError), [])
    else if !RequiredPresent(md) then Trace(Rejected(MissingFieldsError), [])
    else Session(SearchFor(md, ssl.value), ActivationTarget(md), events)
  }

  /** A tick that sends a notification. */
  predicate Emits(search: TickSearch, threshold: int, server: Request -> Exchange)
  {
    search(server).Ok? && search(server).value > threshold
  }

  /** StreamIsActive as the source writes it: validation, then the event loop. */
  method StreamIsActive(md: Metadata, events: seq<Event>) returns (end: End, sent: seq<IsActiveResponse>)
    ensures Trace(end, sent) == StreamOutcome(md, events)
  {
    var ssl := UnsafeSsl(md);
    if !ssl.Ok? {
      return Rejected(UnsafeSslError), [];
    }
    var unsafeSsl := ssl.value;
    var activationTargetValue := ActivationTarget(md);
    if !RequiredPresent(md) {
      return Rejected(MissingFieldsError), [];
    }
    end, sent := Poll(SearchFor(md, unsafeSsl), activationTargetValue, events);
  }

  /** The `for { select { ... } }` loop of StreamIsActive. */
  method Poll(search: TickSearch, activationTargetValue: int, events: seq<Event>)
    returns (end: End, sent: seq<IsActiveResponse>)
    ensures Trace(end, sent) == Session(search, activationTargetValue, events)
  {
    sent := [];
    var i := 0;
    while i < |events|
      invariant 0 <= i <= |events|
      invariant var rest := Session(search, activationTargetValue, events[i..]);
                Session(search, activationTargetValue, events) == Trace(rest.end, sent + rest.sent)
    {
      assert events[i..][1..] == events[i + 1..];
      match events[i]
      case Cancel =>
        return Cancelled, sent;
      case Tick(server) =>
        var value := search(server);
        ghost var next := Session(search, activationTargetValue, events[i + 1..]);
        if value.Panicked? {
          return Crashed(value.crash), sent;
        } else if value.Ok? && value.value > activationTargetValue {
          ghost var before := sent;
          sent := sent + [IsActiveResponse(true)];
          assert sent + next.sent == before + ([IsActiveResponse(true)] + next.sent);
        }
      i := i + 1;
    }
    return Polling, sent;
  }

  /** Running the loop over `a` then `b` is running it over `a`, and over `b` if `a` left it polling. */
  lemma {:induction false} SessionAppend(search: TickSearch, threshold: int, a: seq<Event>, b: seq<Event>)
    ensures var ta := Session(search, threshold, a);
            var tb := Session(search, threshold, b);
            Session(search, threshold, a + b) ==
              if ta.end == Polling then Trace(tb.end, ta.sent + tb.sent) else ta
    decreases |a|
  {
    if |a| == 0 {
      assert a + b == b;
    } else {
      assert (a + b)[0] == a[0] && (a + b)[1..] == a[1..] + b;
      SessionAppend(search, threshold, a[1..], b);
    }
  }

  /** Only `Result: true` is ever sent. */
  lemma {:induction false} OnlyActiveSent(search: TickSearch, threshold: int, events: seq<Event>)
    ensures forall i :: 0 <= i < |Session(search, threshold, events).sent| ==>
              Session(search, threshold, events).sent[i] == IsActiveResponse(true)
    decreases |events|
  {
    if |events| > 0 {
      OnlyActiveSent(search, threshold, events[1..]);
    }
  }

  /**
   * A tick that does not panic keeps the loop polling and sends exactly one
   * notification if its value is above the threshold, none otherwise (an
   * error, or a value at or below the threshold).
   */
  lemma TickSendsWhenAbove(search: TickSearch, threshold: int, pre: seq<Event>, server: Request -> Exchange)
    requires Session(search, threshold, pre).end == Polling
    requires !search(server).Panicked?
    ensures var before := Session(search, threshold, pre).sent;
            Session(search, threshold, pre + [Tick(server)]) ==
              Trace(Polling, if Emits(search, threshold, server) then before + [IsActiveResponse(true)] else before)
  {
    SessionAppend(search, threshold, pre, [Tick(server)]);
    assert [Tick(server)][1..] == [];
  }

  /** The first Cancel ends the loop: nothing after it is sent. */
  lemma CancelEndsSession(search: TickSearch, threshold: int, pre: seq<Event>, post: seq<Event>)
    requires Session(search, threshold, pre).end == Polling
    ensures Session(search, threshold, pre + [Cancel] + post) ==
              Trace(Cancelled, Session(search, threshold, pre).sent)
  {
    assert pre + [Cancel] + post == pre + ([Cancel] + post);
    SessionAppend(search, threshold, pre, [Cancel] + post);
  }

  /** Ticks that neither emit nor panic leave the session silent and polling. */
  lemma {:induction false} QuietTicks(search: TickSearch, threshold: int, events: seq<Event>)
    requires forall i :: 0 <= i < |events| ==>
               events[i].Tick? && !search(events[i].server).Panicked? && !Emits(search, threshold, events[i].server)
    ensures Session(search, threshold, events) == Trace(Polling, [])
    decreases |events|
  {
    if |events| > 0 {
      assert forall i :: 0 <= i < |events| - 1 ==> events[1..][i] == events[i + 1];
      QuietTicks(search, threshold, events[1..]);
    }
  }

  /** As written: a tick whose reply has a non-200 status crashes the handler rather than being logged. */
  lemma RejectedStatusTickCrashes(md: Metadata, unsafeSsl: bool, threshold: int,
                                  pre: seq<Event>, server: Request -> Exchange, post: seq<Event>)
    requires Session(SearchFor(md, unsafeSsl), threshold, pre).end == Polling
    requires ParsedParams(Get(md, "parameters")).Ok?
    requires var reply := server(Request(Get(md, "index"), Get(md, "searchTemplateName"),
                                         ParsedParams(Get(md, "parameters")).value, unsafeSsl));
             reply.Response? && reply.statusCode != StatusOK
    ensures Session(SearchFor(md, unsafeSsl), threshold, pre + [Tick(server)] + post) ==
              Trace(Crashed(NilErrorDereference), Session(SearchFor(md, unsafeSsl), threshold, pre).sent)
  {
    var search := SearchFor(md, unsafeSsl);
    assert search(server) == Panicked(NilErrorDereference);
    assert pre + [Tick(server)] + post == pre + ([Tick(server)] + post);
    SessionAppend(search, threshold, pre, [Tick(server)] + post);
  }

  /** With valid metadata a tick sends exactly when IsActive would answer `Result: true` for the same reply. */
  lemma StreamEmitsWhenIsActive(md: Metadata, server: Request -> Exchange)
    requires UnsafeSsl(md).Ok? && RequiredPresent(md)
    ensures Emits(SearchFor(md, UnsafeSsl(md).value), ActivationTarget(md), server) <==>
              IsActive(md, server) == Ok(IsActiveResponse(true))
  {
  }

  /** Invalid metadata ends the stream with the error IsActive returns for it. */
  lemma StreamRejectsAsIsActive(md: Metadata, events: seq<Event>, server: Request -> Exchange)
    requires !UnsafeSsl(md).Ok? || !RequiredPresent(md)
    ensures IsActive(md, server).Err?
    ensures StreamOutcome(md, events).end == Rejected(IsActive(md, server).status)
  {
  }

  /** Invalid metadata is reported before the loop: no event is looked at. */
  lemma StreamValidatesFirst(md: Metadata, events: seq<Event>)
    requires !UnsafeSsl(md).Ok? || !RequiredPresent(md)
    ensures StreamOutcome(md, events).end.Rejected?
    ensures StreamOutcome(md, events).end.status.code == InvalidArgument
    ensures StreamOutcome(md, events).sent == []
  {
  }
}
