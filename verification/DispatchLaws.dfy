/** When the handler runs in a dispatch, and on what; and the events that each stage leaves behind. */
module DispatchLaws {
  import opened Results
  import opened HttpTypes
  import opened RequestChart
  import opened InterceptorChain
  import opened Dispatch

  // ----- The handler runs once, after everything else forwarded, on the request they made of it.

  // Requests the handler was called on.
  function Calls(trace: seq<Event>): seq<Request> {
    if trace == [] then []
    else (if trace[0].HandlerCalled? then [trace[0].request] else []) + Calls(trace[1..])
  }

  lemma {:induction false} CallsConcat(a: seq<Event>, b: seq<Event>)
    ensures Calls(a + b) == Calls(a) + Calls(b)
  {
    if a == [] {
      assert a + b == b;
    } else {
      var first := if a[0].HandlerCalled? then [a[0].request] else [];
      assert (a + b)[1..] == a[1..] + b && (a + b)[0] == a[0];
      CallsConcat(a[1..], b);
      assert first + (Calls(a[1..]) + Calls(b)) == first + Calls(a[1..]) + Calls(b);
    }
  }

  predicate AllPass(guards: seq<Guard>, context: Request) {
    forall i :: 0 <= i < |guards| ==> guards[i](context) == Ok(true)
  }

  lemma {:induction false} PassedMeansAll(guards: seq<Guard>, context: Request)
    ensures Guarded(guards, context).Passed? <==> AllPass(guards, context)
    decreases |guards|
  {
    if guards != [] {
      PassedMeansAll(guards[1..], context);
      assert AllPass(guards, context) <==> guards[0](context) == Ok(true) && AllPass(guards[1..], context);
    }
  }

  // What a passage forwards, if it does.
  function Onward(p: Passage): Option<Request> {
    match p
    case Forwarded(request) => Some(request)
    case Answered(_, _) => None
  }

  // The request the guards see, or None when something before them answered.
  function GuardInput(s: Server, binding: Binding, matched: Request): Option<Request> {
    var request := WithModuleName(matched, binding.moduleName);
    match ThroughSequence(s.cfg.moduleMiddlewares, request)
    case Answered(_, _) => None
    case Forwarded(request1) =>
      match ThroughSequence(binding.moduleMiddlewares, request1)
      case Answered(_, _) => None
      case Forwarded(request2) => Onward(ThroughSequence(MatchingMiddlewares(s.cfg.routeMiddlewares, request.path),
          request2))
  }

  // The request the handler runs on, given the one the guards saw: every guard passes, every pipe
  // succeeds, and every interceptor calls on.
  function HandlerInput(s: Server, context: Request): Option<Request> {
    if !AllPass(s.cfg.guards, context) then None
    else
      match PipedBody(s.cfg, context)
      case Err(_) => None
      case Ok(body) =>
        var request := context.(body := body);
        if AllForward(ChainFor(s.cfg.interceptors, request)) then Some(request) else None
  }

  function GlobalInput(s: Server, incoming: Request): Option<Request> {
    var request := Seeded(s, incoming);
    match s.cfg.middleware
    case None => Some(request)
    case Some(m) => Onward(ThroughMiddleware(m, request))
  }

  // The request the handler of an incoming request runs on, if it does.
  function Reaches(s: Server, incoming: Request): Option<Request> {
    match GlobalInput(s, incoming)
    case None => None
    case Some(request) =>
      match s.cfg.route(request)
      case NotFound => None
      case MethodNotAllowed(_) => None
      case Matched(binding, captures) =>
        match GuardInput(s, binding, WithParams(request, Matched(binding, captures)))
        case None => None
        case Some(context) => HandlerInput(s, context)
  }

  function Once(r: Option<Request>): seq<Request> {
    match r
    case None => []
    case Some(request) => [request]
  }

  // The chart may refuse a transition, and the handler is then not reached.
  predicate AtMost(calls: seq<Request>, r: Option<Request>, refused: bool) {
    calls == Once(r) || (refused && calls == [])
  }

  lemma {:induction false} NoCalls(trace: seq<Event>)
    requires forall i :: 0 <= i < |trace| ==> !trace[i].HandlerCalled?
    ensures Calls(trace) == []
  {
    if trace != [] {
      NoCalls(trace[1..]);
    }
  }

  lemma {:induction false} ChainCalls(at: Option<State>, ts: seq<ChainEvent>, request: Request)
    ensures |Calls(ChainEvents(at, ts, request))| == HandlerRuns(ts)
    ensures forall r :: r in Calls(ChainEvents(at, ts, request)) ==> r == request
  {
    if ts != [] {
      ChainCalls(at, ts[1..], request);
      var e := ChainEvents(at, [ts[0]], request);
      assert [ts[0]][1..] == [];
      assert ChainEvents(at, ts, request) == [e[0]] + ChainEvents(at, ts[1..], request);
      assert ([e[0]] + ChainEvents(at, ts[1..], request))[1..] == ChainEvents(at, ts[1..], request);
    }
  }

  lemma HandlerStageTrace(s: Server, binding: Binding, request: Request, state: State, trace: seq<Event>)
    ensures HandlerStage(s, binding, request, state, trace).trace == trace + HandlerEvents(Some(state), s, request)
  {
    hide Settle, InterceptorReport, HandlerReport, Executions, HandlerEvents;
  }

  lemma HandlerEventsCalls(at: Option<State>, s: Server, request: Request)
    ensures Calls(HandlerEvents(at, s, request)) ==
        if AllForward(ChainFor(s.cfg.interceptors, request)) then [request] else []
  {
    hide Calls, ChainTrace, ChainEvents, AllForward;
    var chain := ChainFor(s.cfg.interceptors, request);
    if s.cfg.interceptors == [] {
      assert AllForward(chain) by { EmptyForwards(); assert chain == []; }
      OneCall(at, request);
    } else {
      var ts := ChainTrace(chain, 0);
      ChainCalls(at, ts, request);
      HandlerRunsOnce(chain, 0);
      var calls := Calls(ChainEvents(at, ts, request));
      assert |calls| == 1 ==> calls[0] in calls;
    }
  }

  lemma HandlerStageCalls(s: Server, binding: Binding, request: Request, state: State, trace: seq<Event>)
    ensures var run := HandlerStage(s, binding, request, state, trace);
            Calls(run.trace) == Calls(trace) + (if AllForward(ChainFor(s.cfg.interceptors, request)) then [request]
                else [])
  {
    hide HandlerStage, HandlerEvents, Calls, AllForward;
    HandlerStageTrace(s, binding, request, state, trace);
    HandlerEventsCalls(Some(state), s, request);
    CallsConcat(trace, HandlerEvents(Some(state), s, request));
  }

  lemma OneCall(at: Option<State>, request: Request)
    ensures Calls([HandlerCalled(at, request)]) == [request]
  {
    assert [HandlerCalled(at, request)][1..] == [];
  }

  // ----- The events of one stage.

  predicate SequenceEvents(at: Option<State>, t: seq<Event>, level: Level, index: nat, complete: bool) {
    forall i :: 0 <= i < |t| ==>
      t[i] == MiddlewareRan(at, level, index + i, true)
          || (!complete && i == |t| - 1 && t[i] == MiddlewareRan(at, level, index + i, false))
  }

  lemma {:induction false} SequenceShape(at: Option<State>, ms: seq<Middleware>, request: Request, level: Level,
      index: nat)
    ensures var t := SequenceTrace(at, ms, request, level, index);
            var complete := ThroughSequence(ms, request).Forwarded?;
            SequenceEvents(at, t, level, index, complete) && (complete ==> |t| == |ms|)
    decreases |ms|
  {
    hide ThroughMiddleware, SequenceEvents;
    if ms == [] {
      NoSequenceEvents(at, level, index);
    } else {
      match ThroughMiddleware(ms[0], request) {
        case Forwarded(next) =>
          SequenceShape(at, ms[1..], next, level, index + 1);
          SequenceEventsFront(at, SequenceTrace(at, ms[1..], next, level, index + 1), level, index,
                              ThroughSequence(ms[1..], next).Forwarded?);
        case Answered(_, _) => NoSequenceEvents(at, level, index);
      }
    }
  }

  lemma NoSequenceEvents(at: Option<State>, level: Level, index: nat)
    ensures SequenceEvents(at, [], level, index, true)
    ensures SequenceEvents(at, [MiddlewareRan(at, level, index, false)], level, index, false)
  {
  }

  lemma SequenceEventsFront(at: Option<State>, rest: seq<Event>, level: Level, index: nat, complete: bool)
    requires SequenceEvents(at, rest, level, index + 1, complete)
    ensures SequenceEvents(at, [MiddlewareRan(at, level, index, true)] + rest, level, index, complete)
  {
    var t := [MiddlewareRan(at, level, index, true)] + rest;
    assert forall i :: 0 < i < |t| ==> t[i] == rest[i - 1];
  }

  predicate GuardEvents(at: Option<State>, t: seq<Event>, index: nat, complete: bool) {
    forall i :: 0 <= i < |t| ==>
      t[i].GuardRan? && t[i].at == at && t[i].index == index + i
          && (t[i].verdict == Pass || (!complete && i == |t| - 1))
  }

  lemma {:induction false} GuardShape(at: Option<State>, guards: seq<Guard>, context: Request, index: nat)
    ensures var t := GuardTrace(at, guards, context, index);
            var complete := Guarded(guards, context).Passed?;
            GuardEvents(at, t, index, complete) && (complete ==> |t| == |guards|)
    decreases |guards|
  {
    if guards != [] && guards[0](context) == Ok(true) {
      GuardShape(at, guards[1..], context, index + 1);
      var t, rest := GuardTrace(at, guards, context, index), GuardTrace(at, guards[1..], context, index + 1);
      assert forall i :: 0 < i < |t| ==> t[i] == rest[i - 1];
    }
  }

  predicate PipeEvents(at: Option<State>, t: seq<Event>, index: nat, complete: bool) {
    forall i :: 0 <= i < |t| ==>
      t[i] == PipeRan(at, index + i, true) || (!complete && i == |t| - 1 && t[i] == PipeRan(at, index + i, false))
  }

  lemma {:induction false} PipedShape(at: Option<State>, pipes: seq<Pipe>, value: Json, index: nat)
    ensures var t := PipedTrace(at, pipes, value, index);
            var complete := Piped(pipes, value).Ok?;
            PipeEvents(at, t, index, complete) && (complete ==> |t| == |pipes|)
    decreases |pipes|
  {
    if pipes != [] && pipes[0](value).Ok? {
      var next := pipes[0](value).value;
      PipedShape(at, pipes[1..], next, index + 1);
      var t, rest := PipedTrace(at, pipes, value, index), PipedTrace(at, pipes[1..], next, index + 1);
      assert forall i :: 0 < i < |t| ==> t[i] == rest[i - 1];
    }
  }

  lemma PipeShape(at: Option<State>, cfg: Config, request: Request)
    requires cfg.pipes != []
    ensures var t := PipeTrace(at, cfg, request);
            var complete := PipedBody(cfg, request).Ok?;
            PipeEvents(at, t, 0, complete) && (complete ==> |t| == |cfg.pipes|)
  {
    hide PipedTrace, Piped, PipeEvents, ParsedText;
    match BodyToPipeValue(cfg.codec, request) {
      case Ok(value) => PipedShape(at, cfg.pipes, value, 0);
      case Err(_) => NoPipeEvents(at);
    }
  }

  lemma NoPipeEvents(at: Option<State>)
    ensures PipeEvents(at, [], 0, false)
  {
  }

  // ----- Calls, stage by stage.

  function PipesEvents(at: Option<State>, s: Server, request: Request): seq<Event> {
    if s.cfg.pipes == [] then [] else PipeTrace(at, s.cfg, request)
  }

  // The pipe stage either ends on its own events or goes on to the handler.
  lemma PipeStageTrace(s: Server, binding: Binding, request: Request, state: State, trace: seq<Event>)
    ensures var run := PipeStage(s, binding, request, state, trace);
            var piped := trace + PipesEvents(Some(state), s, request);
            var body := PipedBody(s.cfg, request);
            if body.Ok? && s.chart(state, PipesComplete).Some?
            then run == HandlerStage(s, binding, request.(body := body.value), s.chart(state, PipesComplete).value,
                piped)
            else run.trace == piped && (body.Ok? ==> run.refused)
  {
    hide HandlerStage, ExceptionResponse, ErrorPage, Advanced, PipedBody, PipeTrace;
    assert trace + [] == trace;
  }

  lemma PipesEventsCalls(at: Option<State>, s: Server, request: Request)
    ensures Calls(PipesEvents(at, s, request)) == []
  {
    hide Calls, PipeTrace, PipedBody;
    if s.cfg.pipes != [] {
      PipeShape(at, s.cfg, request);
    }
    NoCalls(PipesEvents(at, s, request));
  }

  lemma PipeStageCalls(s: Server, binding: Binding, request: Request, state: State, trace: seq<Event>)
    requires AllPass(s.cfg.guards, request)
    ensures var run := PipeStage(s, binding, request, state, trace);
            exists more ::
                Calls(run.trace) == Calls(trace) + more && AtMost(more, HandlerInput(s, request), run.refused)
  {
    hide HandlerStage, PipeStage, PipesEvents, Calls, PipedBody, AllForward, AllPass;
    PipeStageTrace(s, binding, request, state, trace);
    PipesEventsCalls(Some(state), s, request);
    var piped := trace + PipesEvents(Some(state), s, request);
    CallsConcat(trace, PipesEvents(Some(state), s, request));
    assert Calls(trace) + [] == Calls(trace);
    var run := PipeStage(s, binding, request, state, trace);
    var body := PipedBody(s.cfg, request);
    if body.Ok? && s.chart(state, PipesComplete).Some? {
      HandlerStageCalls(s, binding, request.(body := body.value), s.chart(state, PipesComplete).value, piped);
      assert AtMost(Once(HandlerInput(s, request)), HandlerInput(s, request), run.refused);
    } else {
      assert AtMost([], HandlerInput(s, request), run.refused);
    }
  }

  lemma GuardStageCalls(s: Server, binding: Binding, request: Request, state: State, trace: seq<Event>)
    ensures var run := GuardStage(s, binding, request, state, trace);
            exists more ::
                Calls(run.trace) == Calls(trace) + more && AtMost(more, HandlerInput(s, request), run.refused)
  {
    hide PipeStage, ExceptionResponse, ErrorPage, SummaryResponse, Calls, PipedBody, AllForward, AllPass, Guarded,
        GuardTrace;
    var events := GuardTrace(Some(state), s.cfg.guards, request, 0);
    var outcome := Guarded(s.cfg.guards, request);
    GuardShape(Some(state), s.cfg.guards, request, 0);
    NoCalls(events);
    CallsConcat(trace, events);
    PassedMeansAll(s.cfg.guards, request);
    assert Calls(trace) + [] == Calls(trace);
    var run := GuardStage(s, binding, request, state, trace);
    if outcome.Passed? && s.chart(state, GuardsPassed).Some?
        && s.chart(s.chart(state, GuardsPassed).value, InterceptorsPreComplete).Some? {
      var after := s.chart(s.chart(state, GuardsPassed).value, InterceptorsPreComplete).value;
      PipeStageCalls(s, binding, request, after, trace + events);
    } else {
      assert AtMost([], HandlerInput(s, request), run.refused);
    }
  }

  function Then(r: Option<Request>, s: Server): Option<Request> {
    match r
    case None => None
    case Some(context) => HandlerInput(s, context)
  }

  lemma SequenceCalls(at: Option<State>, trace: seq<Event>, ms: seq<Middleware>, request: Request, level: Level)
    ensures Calls(trace + SequenceTrace(at, ms, request, level, 0)) == Calls(trace)
  {
    hide Calls, SequenceTrace, ThroughSequence;
    var t := SequenceTrace(at, ms, request, level, 0);
    SequenceShape(at, ms, request, level, 0);
    NoCalls(t);
    CallsConcat(trace, t);
    assert Calls(trace) + [] == Calls(trace);
  }

  lemma MiddlewareStageCalls(s: Server, binding: Binding, matched: Request, state: State, trace: seq<Event>)
    ensures var run := MiddlewareStage(s, binding, matched, state, trace);
            exists more :: Calls(run.trace) == Calls(trace) + more
                           && AtMost(more, Then(GuardInput(s, binding, matched), s), run.refused)
  {
    hide GuardStage, Calls, ThroughSequence, SequenceTrace, MatchingMiddlewares, HandlerInput;
    var request := WithModuleName(matched, binding.moduleName);
    var ofRoute := MatchingMiddlewares(s.cfg.routeMiddlewares, request.path);
    var run := MiddlewareStage(s, binding, matched, state, trace);
    var goal := Then(GuardInput(s, binding, matched), s);
    assert Calls(trace) + [] == Calls(trace);
    SequenceCalls(Some(state), trace, s.cfg.moduleMiddlewares, request, Module);
    var trace1 := trace + SequenceTrace(Some(state), s.cfg.moduleMiddlewares, request, Module, 0);
    match ThroughSequence(s.cfg.moduleMiddlewares, request) {
      case Answered(_, _) => assert AtMost([], goal, run.refused);
      case Forwarded(request1) =>
        SequenceCalls(Some(state), trace1, binding.moduleMiddlewares, request1, RouteModule);
        var trace2 := trace1 + SequenceTrace(Some(state), binding.moduleMiddlewares, request1, RouteModule, 0);
        match ThroughSequence(binding.moduleMiddlewares, request1) {
          case Answered(_, _) => assert AtMost([], goal, run.refused);
          case Forwarded(request2) =>
            SequenceCalls(Some(state), trace2, ofRoute, request2, Route);
            var trace3 := trace2 + SequenceTrace(Some(state), ofRoute, request2, Route, 0);
            match ThroughSequence(ofRoute, request2) {
              case Answered(_, _) => assert AtMost([], goal, run.refused);
              case Forwarded(request3) => GuardStageCalls(s, binding, request3, state, trace3);
            }
        }
    }
  }

  function FromRoute(s: Server, request: Request): Option<Request> {
    match s.cfg.route(request)
    case NotFound => None
    case MethodNotAllowed(_) => None
    case Matched(binding, captures) => Then(GuardInput(s, binding, WithParams(request, Matched(binding, captures))), s)
  }

  lemma ParseStageCalls(s: Server, request: Request, trace: seq<Event>)
    requires Calls(trace) == []
    ensures var run := ParseStage(s, request, trace); AtMost(Calls(run.trace), FromRoute(s, request), run.refused)
  {
    hide MiddlewareStage, Calls, ErrorPage, NewResponse, GuardInput, HandlerInput, WithParams;
    var outcome := s.cfg.route(request);
    if s.chart(Received, RequestParsed).Some? {
      var parsed := s.chart(Received, RequestParsed).value;
      if s.chart(parsed, MiddlewareComplete).Some? {
        var next := s.chart(parsed, MiddlewareComplete).value;
        var event := Routed(Some(next), outcome.Matched?);
        var routed := trace + [event];
        NoCalls([event]);
        CallsConcat(trace, [event]);
        if outcome.Matched? && s.chart(next, RouteMatched).Some? {
          MiddlewareStageCalls(s, outcome.binding, WithParams(request, outcome), s.chart(next, RouteMatched).value,
              routed);
        }
      }
    }
  }

  // With any chart at all, the handler runs at most once, and only on the request that every stage
  // before it has let through; it fails to run on that request only when the chart refuses a transition.
  lemma HandlerRunsOnlyWhenReached(s: Server, incoming: Request)
    ensures var run := Dispatched(s, incoming); AtMost(Calls(run.trace), Reaches(s, incoming), run.refused)
  {
    hide ParseStage, Calls, ErrorPage, Advanced, Seeded, ThroughMiddleware, GuardInput, HandlerInput;
    var request := Seeded(s, incoming);
    match s.cfg.middleware {
      case None =>
        NoCalls([]);
        ParseStageCalls(s, request, []);
      case Some(m) =>
        match ThroughMiddleware(m, request) {
          case Forwarded(next) =>
            NoCalls([MiddlewareRan(None, Global, 0, true)]);
            ParseStageCalls(s, next, [MiddlewareRan(None, Global, 0, true)]);
          case Answered(_, _) =>
            NoCalls([MiddlewareRan(None, Global, 0, false)]);
        }
    }
  }
}
