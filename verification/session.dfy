/** The server over time: a trace of timestamped requests applied, one after
    the other, to the state created at start-up. Every stamp the server
    writes is the time of the request that writes it, so with a clock that
    does not run backwards the stamp is never in the future, the timeout
    test of the decision always passes, and the fallback set point 7 can
    only appear if someone asked for it. */
module Session {
  import opened Results
  import opened Control
  import Directive

  /** A request reaching one of the stateful routes. */
  datatype Event =
    | Report(curTemp: Option<int>)                             // POST /home/espcreate/
    | Request(setTemp: Option<int>)                            // GET /set_temp or /main
    | Poll(wall: Directive.WallTime, userNumber: Option<int>)   // GET /home/updated

  /** An event and the clock reading (microseconds) at which it is handled. */
  datatype Timed = Timed(at: int, event: Event)

  /** The state after handling one request. */
  function Step(s: AppState, e: Timed): AppState {
    match e.event
    case Report(t) => Ingest(s, t)
    case Request(v) => Override(s, v, e.at).next
    case Poll(w, u) => Directive.Updated(s, e.at, w, u).next
  }

  /** The state after handling the requests of `trace` in order. */
  function Run(s: AppState, trace: seq<Timed>): AppState
    decreases |trace|
  {
    if |trace| == 0 then s else Step(Run(s, trace[..|trace| - 1]), trace[|trace| - 1])
  }

  /** Requests are handled no earlier than start-up and in clock order. */
  predicate Chronological(start: int, trace: seq<Timed>) {
    && (forall i :: 0 <= i < |trace| ==> start <= trace[i].at)
    && (forall i, j :: 0 <= i < j < |trace| ==> trace[i].at <= trace[j].at)
  }

  /** The clock reading of the last request, or start-up for none. */
  function Latest(start: int, trace: seq<Timed>): int {
    if |trace| == 0 then start else trace[|trace| - 1].at
  }

  /** The non-negative set points requested through the override routes. */
  function RequestedSetPoints(trace: seq<Timed>): set<int>
    decreases |trace|
  {
    if |trace| == 0 then {}
    else
      var e := trace[|trace| - 1].event;
      RequestedSetPoints(trace[..|trace| - 1])
        + (if e.Request? && Requested(e.setTemp) >= 0 then {Requested(e.setTemp)} else {})
  }

  /** Along any chronological trace from start-up, the stamp is never later
      than the last request, and the set point is either 6 or a value that
      was requested. */
  lemma {:induction false} SetPointOrigin(start: int, trace: seq<Timed>)
    requires Chronological(start, trace)
    ensures Run(Init(start), trace).setTempTime <= Latest(start, trace)
    ensures Run(Init(start), trace).setTemp == Idle
         || Run(Init(start), trace).setTemp in RequestedSetPoints(trace)
    decreases |trace|
  {
    if |trace| > 0 {
      var prefix := trace[..|trace| - 1];
      var e := trace[|trace| - 1];
      assert Chronological(start, prefix);
      SetPointOrigin(start, prefix);
      assert Latest(start, prefix) <= e.at;
      var s := Run(Init(start), prefix);
      assert RequestedSetPoints(prefix) <= RequestedSetPoints(trace);
      if e.event.Poll? {
        NoFallbackForPastStamp(s, e.at);
      }
    }
  }

  /** The timeout fallback never fires: unless 7 was requested, the set
      point is never 7. */
  lemma FallbackUnreachable(start: int, trace: seq<Timed>)
    requires Chronological(start, trace)
    requires Fallback !in RequestedSetPoints(trace)
    ensures Run(Init(start), trace).setTemp != Fallback
  {
    SetPointOrigin(start, trace);
  }
}
