/** The order of events: stages in the code's order, and nothing after the first that stops the request. */
module DispatchOrder {
  import opened Results
  import opened HttpTypes
  import opened RequestChart
  import opened InterceptorChain
  import opened Dispatch
  import opened DispatchLaws

  // The order of the code.
  function Rank(e: Event): nat {
    match e
    case MiddlewareRan(_, Global, _, _) => 0
    case Routed(_, _) => 1
    case MiddlewareRan(_, Module, _, _) => 2
    case MiddlewareRan(_, RouteModule, _, _) => 3
    case MiddlewareRan(_, Route, _, _) => 4
    case GuardRan(_, _, _) => 5
    case PipeRan(_, _, _) => 6
    case Entered(_, _) => 7
    case HandlerCalled(_, _) => 8
    case Left(_, _) => 9
  }

  // The event after which the request goes no further.
  predicate Stops(e: Event) {
    match e
    case MiddlewareRan(_, _, _, forwarded) => !forwarded
    case Routed(_, matched) => !matched
    case GuardRan(_, _, verdict) => verdict != Pass
    case PipeRan(_, _, ok) => !ok
    case _ => false
  }

  predicate InOrder(trace: seq<Event>) {
    forall i, j :: 0 <= i < j < |trace| ==> Rank(trace[i]) <= Rank(trace[j])
  }

  predicate HasRouted(trace: seq<Event>) {
    exists i :: 0 <= i < |trace| && trace[i].Routed?
  }

  // Everything let the request through, and no event belongs to a stage after `rank`.
  predicate Open(trace: seq<Event>, rank: nat) {
    && InOrder(trace)
    && (forall i :: 0 <= i < |trace| ==> Rank(trace[i]) <= rank && !Stops(trace[i]))
    && (rank >= 1 ==> HasRouted(trace))
  }

  // Stages in order; only the last event may be a stop; nothing but the global middleware comes before
  // the route is looked up.
  predicate Orderly(trace: seq<Event>) {
    && InOrder(trace)
    && (forall i :: 0 <= i < |trace| - 1 ==> !Stops(trace[i]))
    && (forall i :: 0 <= i < |trace| && Rank(trace[i]) >= 1 ==> HasRouted(trace))
  }

  // One stage's events: ranks from `low` to `high`, in order; only the last may be a stop.
  predicate OneStage(t: seq<Event>, low: nat, high: nat) {
    && InOrder(t)
    && (forall i :: 0 <= i < |t| ==> low <= Rank(t[i]) <= high)
    && (forall i :: 0 <= i < |t| - 1 ==> !Stops(t[i]))
  }

  lemma Extends(trace: seq<Event>, t: seq<Event>, before: nat, low: nat, high: nat)
    requires Open(trace, before) && before <= low <= high && OneStage(t, low, high)
    requires high >= 1 ==> before >= 1 || HasRouted(t)
    ensures Orderly(trace + t)
    ensures (t == [] || !Stops(t[|t| - 1])) ==> Open(trace + t, high)
  {
    var whole := trace + t;
    assert forall i :: 0 <= i < |whole| ==> whole[i] == if i < |trace| then trace[i] else t[i - |trace|];
    if HasRouted(trace) {
      var i :| 0 <= i < |trace| && trace[i].Routed?;
      assert whole[i].Routed?;
    } else if HasRouted(t) {
      var i :| 0 <= i < |t| && t[i].Routed?;
      assert whole[|trace| + i].Routed?;
    }
  }

  function ChainRank(e: ChainEvent): nat {
    match e
    case Enter(_) => 7
    case HandlerRan => 8
    case Leave(_) => 9
  }

  lemma {:induction false} ChainRanks(at: Option<State>, ts: seq<ChainEvent>, request: Request)
    ensures var es := ChainEvents(at, ts, request);
            |es| == |ts| && forall i :: 0 <= i < |ts| ==> Rank(es[i]) == ChainRank(ts[i]) && !Stops(es[i])
  {
    if ts != [] {
      ChainRanks(at, ts[1..], request);
    }
  }

  // Interceptors are entered, then the handler runs, then they are left.
  lemma ChainStage(at: Option<State>, chain: seq<Interception>, request: Request)
    ensures var es := ChainEvents(at, ChainTrace(chain, 0), request);
            OneStage(es, 7, 9) && forall e :: e in es ==> !Stops(e)
  {
    hide ChainEvents, ChainTrace, Rank, Stops;
    var ts := ChainTrace(chain, 0);
    ChainRanks(at, ts, request);
    WellNested(chain, 0);
    var enters, leaves := Enters(0, InterceptorChain.Entered(chain)), Leaves(0, InterceptorChain.Entered(chain));
    var middle := if AllForward(chain) then [HandlerRan] else [];
    assert ts == enters + middle + leaves;
    EntersAre(0, InterceptorChain.Entered(chain));
    assert forall i :: 0 <= i < |ts| ==>
             ts[i] == if i < |enters| then enters[i]
                      else if i < |enters| + |middle| then middle[i - |enters|]
                      else leaves[i - |enters| - |middle|];
  }

  lemma {:induction false} EntersAre(from: nat, n: nat)
    ensures forall i :: 0 <= i < |Enters(from, n)| ==> Enters(from, n)[i].Enter?
    ensures forall i :: 0 <= i < |Leaves(from, n)| ==> Leaves(from, n)[i].Leave?
    decreases n
  {
    if n > 0 {
      EntersAre(from + 1, n - 1);
    }
  }

  lemma HandlerStageOrderly(s: Server, binding: Binding, request: Request, state: State, trace: seq<Event>)
    requires Open(trace, 6)
    ensures Orderly(HandlerStage(s, binding, request, state, trace).trace)
  {
    hide HandlerStage, ChainTrace, ChainEvents;
    HandlerStageTrace(s, binding, request, state, trace);
    if s.cfg.interceptors != [] {
      ChainStage(Some(state), ChainFor(s.cfg.interceptors, request), request);
    }
    Extends(trace, HandlerEvents(Some(state), s, request), 6, 7, 9);
  }

  lemma PipesStage(at: Option<State>, s: Server, request: Request)
    ensures var t := PipesEvents(at, s, request);
            && OneStage(t, 6, 6)
            && (PipedBody(s.cfg, request).Ok? ==> t == [] || !Stops(t[|t| - 1]))
  {
    hide PipeTrace, PipedBody;
    if s.cfg.pipes != [] {
      PipeShape(at, s.cfg, request);
    }
  }

  lemma PipeStageOrderly(s: Server, binding: Binding, request: Request, state: State, trace: seq<Event>)
    requires Open(trace, 5)
    ensures Orderly(PipeStage(s, binding, request, state, trace).trace)
  {
    hide PipeStage, HandlerStage, PipesEvents, PipedBody, Open, Orderly, OneStage;
    PipeStageTrace(s, binding, request, state, trace);
    PipesStage(Some(state), s, request);
    Extends(trace, PipesEvents(Some(state), s, request), 5, 6, 6);
    var body := PipedBody(s.cfg, request);
    if body.Ok? && s.chart(state, PipesComplete).Some? {
      HandlerStageOrderly(s, binding, request.(body := body.value), s.chart(state, PipesComplete).value,
                          trace + PipesEvents(Some(state), s, request));
    }
  }

  lemma GuardsStage(at: Option<State>, guards: seq<Guard>, context: Request)
    ensures var t := GuardTrace(at, guards, context, 0);
            OneStage(t, 5, 5) && (Guarded(guards, context).Passed? ==> t == [] || !Stops(t[|t| - 1]))
  {
    hide GuardTrace, Guarded;
    GuardShape(at, guards, context, 0);
  }

  lemma GuardStageOrderly(s: Server, binding: Binding, request: Request, state: State, trace: seq<Event>)
    requires Open(trace, 4)
    ensures Orderly(GuardStage(s, binding, request, state, trace).trace)
  {
    hide PipeStage, ExceptionResponse, ErrorPage, SummaryResponse, Guarded, GuardTrace, Open, Orderly, OneStage;
    var events := GuardTrace(Some(state), s.cfg.guards, request, 0);
    GuardsStage(Some(state), s.cfg.guards, request);
    Extends(trace, events, 4, 5, 5);
    if Guarded(s.cfg.guards, request).Passed? && s.chart(state, GuardsPassed).Some? {
      var next := s.chart(state, GuardsPassed).value;
      if s.chart(next, InterceptorsPreComplete).Some? {
        PipeStageOrderly(s, binding, request, s.chart(next, InterceptorsPreComplete).value, trace + events);
      }
    }
  }

  function LevelRank(level: Level): nat {
    match level
    case Global => 0
    case Module => 2
    case RouteModule => 3
    case Route => 4
  }

  lemma SequenceStage(at: Option<State>, trace: seq<Event>, ms: seq<Middleware>, request: Request, level: Level,
      before: nat)
    requires Open(trace, before) && 1 <= before <= LevelRank(level)
    ensures var t := trace + SequenceTrace(at, ms, request, level, 0);
            Orderly(t) && (ThroughSequence(ms, request).Forwarded? ==> Open(t, LevelRank(level)))
  {
    hide SequenceTrace, ThroughSequence, Open, Orderly;
    SequenceShape(at, ms, request, level, 0);
    Extends(trace, SequenceTrace(at, ms, request, level, 0), before, LevelRank(level), LevelRank(level));
  }

  lemma MiddlewareStageOrderly(s: Server, binding: Binding, matched: Request, state: State, trace: seq<Event>)
    requires Open(trace, 1)
    ensures Orderly(MiddlewareStage(s, binding, matched, state, trace).trace)
  {
    hide GuardStage, ThroughSequence, SequenceTrace, MatchingMiddlewares, Open, Orderly;
    var request := WithModuleName(matched, binding.moduleName);
    var ofRoute := MatchingMiddlewares(s.cfg.routeMiddlewares, request.path);
    SequenceStage(Some(state), trace, s.cfg.moduleMiddlewares, request, Module, 1);
    var trace1 := trace + SequenceTrace(Some(state), s.cfg.moduleMiddlewares, request, Module, 0);
    match ThroughSequence(s.cfg.moduleMiddlewares, request) {
      case Answered(_, _) =>
      case Forwarded(request1) =>
        SequenceStage(Some(state), trace1, binding.moduleMiddlewares, request1, RouteModule, 2);
        var trace2 := trace1 + SequenceTrace(Some(state), binding.moduleMiddlewares, request1, RouteModule, 0);
        match ThroughSequence(binding.moduleMiddlewares, request1) {
          case Answered(_, _) =>
          case Forwarded(request2) =>
            SequenceStage(Some(state), trace2, ofRoute, request2, Route, 3);
            var trace3 := trace2 + SequenceTrace(Some(state), ofRoute, request2, Route, 0);
            match ThroughSequence(ofRoute, request2) {
              case Answered(_, _) =>
              case Forwarded(request3) => GuardStageOrderly(s, binding, request3, state, trace3);
            }
        }
    }
  }

  lemma ParseStageOrderly(s: Server, request: Request, trace: seq<Event>)
    requires Open(trace, 0)
    ensures Orderly(ParseStage(s, request, trace).trace)
  {
    hide MiddlewareStage, ErrorPage, NewResponse, WithParams;
    var outcome := s.cfg.route(request);
    if s.chart(Received, RequestParsed).Some? {
      var parsed := s.chart(Received, RequestParsed).value;
      if s.chart(parsed, MiddlewareComplete).Some? {
        var next := s.chart(parsed, MiddlewareComplete).value;
        var routed := [Routed(Some(next), outcome.Matched?)];
        assert routed[0].Routed?;
        Extends(trace, routed, 0, 1, 1);
        if outcome.Matched? && s.chart(next, RouteMatched).Some? {
          MiddlewareStageOrderly(s, outcome.binding, WithParams(request, outcome), s.chart(next, RouteMatched).value,
                                 trace + [Routed(Some(next), true)]);
        }
      }
    }
  }

  // In every dispatch the stages come in the code's order, and the first event that stops the request is
  // the last event.
  lemma StopsAreLast(s: Server, incoming: Request)
    ensures Orderly(Dispatched(s, incoming).trace)
  {
    hide ParseStage, ErrorPage, Advanced, Seeded, ThroughMiddleware;
    var request := Seeded(s, incoming);
    match s.cfg.middleware {
      case None => ParseStageOrderly(s, request, []);
      case Some(m) =>
        match ThroughMiddleware(m, request) {
          case Forwarded(next) => ParseStageOrderly(s, next, [MiddlewareRan(None, Global, 0, true)]);
          case Answered(_, _) =>
        }
    }
  }
}
