/** The documented order of the stages against the one the code follows: in which state of the engine
    each event happens, which traces keep to the documentation, and where the engine is left. */
module DispatchStates {
  import opened Results
  import opened HttpTypes
  import opened RequestChart
  import opened InterceptorChain
  import opened Dispatch
  import opened DispatchLaws
  import opened DispatchChart
  import opened DispatchOrder

  // ----- Where each event happens.

  // The engine's state while the event happens; the global middleware runs before there is an engine.
  function Home(e: Event): Option<State> {
    match e
    case MiddlewareRan(_, Global, _, _) => None
    case MiddlewareRan(_, _, _, _) => Some(GuardChain)
    case Routed(_, _) => Some(RouteMatching)
    case GuardRan(_, _, _) => Some(GuardChain)
    case PipeRan(_, _, _) => Some(PipeTransform)
    case Entered(_, _) => Some(HandlerExecution)
    case HandlerCalled(_, _) => Some(HandlerExecution)
    case Left(_, _) => Some(HandlerExecution)
  }

  predicate AtHome(trace: seq<Event>) {
    forall i :: 0 <= i < |trace| ==> trace[i].at == Home(trace[i])
  }

  lemma {:induction false} ChainAtHome(ts: seq<ChainEvent>, request: Request)
    ensures AtHome(ChainEvents(Some(HandlerExecution), ts, request))
  {
    if ts != [] {
      ChainAtHome(ts[1..], request);
    }
  }

  lemma HandlerStageAtHome(s: Server, binding: Binding, request: Request, trace: seq<Event>)
    requires AtHome(trace)
    ensures AtHome(HandlerStage(s, binding, request, HandlerExecution, trace).trace)
  {
    hide HandlerStage, ChainTrace, ChainEvents;
    HandlerStageTrace(s, binding, request, HandlerExecution, trace);
    if s.cfg.interceptors != [] {
      ChainAtHome(ChainTrace(ChainFor(s.cfg.interceptors, request), 0), request);
    }
  }

  lemma PipesAtHome(s: Server, request: Request)
    ensures AtHome(PipesEvents(Some(PipeTransform), s, request))
  {
    hide PipeTrace;
    if s.cfg.pipes != [] {
      PipeShape(Some(PipeTransform), s.cfg, request);
    }
  }

  lemma PipeStageAtHome(s: Server, binding: Binding, request: Request, trace: seq<Event>)
    requires Shipped(s) && AtHome(trace)
    ensures AtHome(PipeStage(s, binding, request, PipeTransform, trace).trace)
  {
    hide PipeStage, HandlerStage, PipesEvents, PipedBody, Home;
    PipeStageTrace(s, binding, request, PipeTransform, trace);
    PipesAtHome(s, request);
    var body := PipedBody(s.cfg, request);
    if body.Ok? {
      HandlerStageAtHome(s, binding, request.(body := body.value),
                         trace + PipesEvents(Some(PipeTransform), s, request));
    }
  }

  lemma GuardsAtHome(guards: seq<Guard>, context: Request)
    ensures AtHome(GuardTrace(Some(GuardChain), guards, context, 0))
  {
    hide GuardTrace;
    GuardShape(Some(GuardChain), guards, context, 0);
  }

  lemma GuardStageAtHome(s: Server, binding: Binding, request: Request, trace: seq<Event>)
    requires Shipped(s) && AtHome(trace)
    ensures AtHome(GuardStage(s, binding, request, GuardChain, trace).trace)
  {
    hide PipeStage, ExceptionResponse, ErrorPage, SummaryResponse, Guarded, GuardTrace, Home;
    GuardsAtHome(s.cfg.guards, request);
    if Guarded(s.cfg.guards, request).Passed? {
      PipeStageAtHome(s, binding, request, trace + GuardTrace(Some(GuardChain), s.cfg.guards, request, 0));
    }
  }

  lemma SequenceAtHome(ms: seq<Middleware>, request: Request, level: Level)
    requires level != Global
    ensures AtHome(SequenceTrace(Some(GuardChain), ms, request, level, 0))
  {
    hide SequenceTrace;
    SequenceShape(Some(GuardChain), ms, request, level, 0);
  }

  lemma MiddlewareStageAtHome(s: Server, binding: Binding, matched: Request, trace: seq<Event>)
    requires Shipped(s) && AtHome(trace)
    ensures AtHome(MiddlewareStage(s, binding, matched, GuardChain, trace).trace)
  {
    hide GuardStage, ThroughSequence, SequenceTrace, MatchingMiddlewares, Home;
    var request := WithModuleName(matched, binding.moduleName);
    var ofRoute := MatchingMiddlewares(s.cfg.routeMiddlewares, request.path);
    SequenceAtHome(s.cfg.moduleMiddlewares, request, Module);
    var trace1 := trace + SequenceTrace(Some(GuardChain), s.cfg.moduleMiddlewares, request, Module, 0);
    match ThroughSequence(s.cfg.moduleMiddlewares, request) {
      case Answered(_, _) =>
      case Forwarded(request1) =>
        SequenceAtHome(binding.moduleMiddlewares, request1, RouteModule);
        var trace2 := trace1 + SequenceTrace(Some(GuardChain), binding.moduleMiddlewares, request1, RouteModule, 0);
        match ThroughSequence(binding.moduleMiddlewares, request1) {
          case Answered(_, _) =>
          case Forwarded(request2) =>
            SequenceAtHome(ofRoute, request2, Route);
            var trace3 := trace2 + SequenceTrace(Some(GuardChain), ofRoute, request2, Route, 0);
            match ThroughSequence(ofRoute, request2) {
              case Answered(_, _) =>
              case Forwarded(request3) => GuardStageAtHome(s, binding, request3, trace3);
            }
        }
    }
  }

  lemma ParseStageAtHome(s: Server, request: Request, trace: seq<Event>)
    requires Shipped(s) && AtHome(trace)
    ensures AtHome(ParseStage(s, request, trace).trace)
  {
    hide MiddlewareStage, ErrorPage, NewResponse, WithParams;
    var outcome := s.cfg.route(request);
    if outcome.Matched? {
      MiddlewareStageAtHome(s, outcome.binding, WithParams(request, outcome),
                            trace + [Routed(Some(RouteMatching), true)]);
    }
  }

  // Every event of every run happens in the one state of the engine that belongs to its kind.
  lemma EventsAtHome(s: Server, incoming: Request)
    requires Shipped(s)
    ensures AtHome(Dispatched(s, incoming).trace)
  {
    hide ParseStage, Seeded, ThroughMiddleware, ErrorPage, Advanced;
    var request := Seeded(s, incoming);
    match s.cfg.middleware {
      case None => ParseStageAtHome(s, request, []);
      case Some(m) =>
        match ThroughMiddleware(m, request) {
          case Forwarded(next) => ParseStageAtHome(s, next, [MiddlewareRan(None, Global, 0, true)]);
          case Answered(_, _) =>
        }
    }
  }

  // ----- The documented order.

  // The state the documentation puts the event in.
  function DocumentedState(e: Event): State {
    match e
    case MiddlewareRan(_, _, _, _) => MiddlewareChain
    case Routed(_, _) => RouteMatching
    case GuardRan(_, _, _) => GuardChain
    case Entered(_, _) => InterceptorPre
    case PipeRan(_, _, _) => PipeTransform
    case HandlerCalled(_, _) => HandlerExecution
    case Left(_, _) => InterceptorPost
  }

  // The place of a state in the documented sequence.
  function Place(s: State): nat {
    match s
    case Received => 0
    case MiddlewareChain => 1
    case RouteMatching => 2
    case GuardChain => 3
    case InterceptorPre => 4
    case PipeTransform => 5
    case HandlerExecution => 6
    case InterceptorPost => 7
    case ErrorHandling => 8
    case SendingResponse => 9
    case Finished => 10
  }

  predicate AsDocumented(trace: seq<Event>) {
    forall i, j :: 0 <= i < j < |trace| ==> Place(DocumentedState(trace[i])) <= Place(DocumentedState(trace[j]))
  }

  predicate HasLateMiddleware(trace: seq<Event>) {
    exists i :: 0 <= i < |trace| && trace[i].MiddlewareRan? && trace[i].level != Global
  }

  predicate HasPipe(trace: seq<Event>) {
    exists i :: 0 <= i < |trace| && trace[i].PipeRan?
  }

  predicate HasInterceptor(trace: seq<Event>) {
    exists i :: 0 <= i < |trace| && trace[i].Entered?
  }

  // The engine is in the documented state only for routing, guards, pipes and the handler.
  lemma InDocumentedState(s: Server, incoming: Request, i: nat)
    requires Shipped(s) && i < |Dispatched(s, incoming).trace|
    ensures var e := Dispatched(s, incoming).trace[i];
            e.at == Some(DocumentedState(e)) <==> e.Routed? || e.GuardRan? || e.PipeRan? || e.HandlerCalled?
  {
    hide Dispatched;
    EventsAtHome(s, incoming);
  }

  // A run keeps to the documented order exactly when no middleware but the global one runs, and not
  // both a pipe and an interceptor do. This holds for every chart.
  lemma AsDocumentedExactly(s: Server, incoming: Request)
    ensures var trace := Dispatched(s, incoming).trace;
            AsDocumented(trace) <==> !HasLateMiddleware(trace) && !(HasPipe(trace) && HasInterceptor(trace))
  {
    hide Dispatched, Rank, DocumentedState, Place;
    var trace := Dispatched(s, incoming).trace;
    StopsAreLast(s, incoming);
    Ranks();
    if HasLateMiddleware(trace) {
      var j :| 0 <= j < |trace| && trace[j].MiddlewareRan? && trace[j].level != Global;
      var i :| 0 <= i < |trace| && trace[i].Routed?;
      assert i < j;
    }
    if HasPipe(trace) && HasInterceptor(trace) {
      var i :| 0 <= i < |trace| && trace[i].PipeRan?;
      var j :| 0 <= j < |trace| && trace[j].Entered?;
      assert i < j;
    }
  }

  lemma Ranks()
    ensures forall e: Event :: e.MiddlewareRan? ==>
              Place(DocumentedState(e)) == 1 && (if e.level == Global then Rank(e) == 0 else 2 <= Rank(e) <= 4)
    ensures forall e: Event :: e.Routed? ==> Rank(e) == 1 && Place(DocumentedState(e)) == 2
    ensures forall e: Event :: e.GuardRan? ==> Rank(e) == 5 && Place(DocumentedState(e)) == 3
    ensures forall e: Event :: e.PipeRan? ==> Rank(e) == 6 && Place(DocumentedState(e)) == 5
    ensures forall e: Event :: e.Entered? ==> Rank(e) == 7 && Place(DocumentedState(e)) == 4
    ensures forall e: Event :: e.HandlerCalled? ==> Rank(e) == 8 && Place(DocumentedState(e)) == 6
    ensures forall e: Event :: e.Left? ==> Rank(e) == 9 && Place(DocumentedState(e)) == 7
  {
  }

  // ----- Where the engine is left.

  // Every stage lets the request through to the handler, every interceptor calling on, and what comes
  // back through the interceptors is a response.
  predicate ResponseComesBack(s: Server, incoming: Request) {
    match GlobalInput(s, incoming)
    case None => false
    case Some(request) =>
      match s.cfg.route(request)
      case NotFound => false
      case MethodNotAllowed(_) => false
      case Matched(binding, captures) =>
        match GuardInput(s, binding, WithParams(request, Matched(binding, captures)))
        case None => false
        case Some(context) => Answers(s, binding, context)
  }

  // A middleware of the matched route answered.
  predicate RouteMiddlewareAnswers(s: Server, incoming: Request) {
    match GlobalInput(s, incoming)
    case None => false
    case Some(request) =>
      match s.cfg.route(request)
      case NotFound => false
      case MethodNotAllowed(_) => false
      case Matched(binding, captures) => GuardInput(s, binding, WithParams(request, Matched(binding, captures))).None?
  }

  // The engine reaches its final state exactly when a response came back through all interceptors, be it
  // the handler's or one of theirs for a handler that panicked. In every other run, also when an
  // interceptor answers early, it is left in the error state, or in the guard state when a route's
  // middleware answered; the documented way on from there, through SendingResponse, is never taken.
  lemma LeftInError(s: Server, incoming: Request)
    requires Shipped(s)
    ensures var state := Dispatched(s, incoming).state;
            && (state == Finished <==> ResponseComesBack(s, incoming))
            && (state == GuardChain <==> RouteMiddlewareAnswers(s, incoming))
            && (state == ErrorHandling <==> !ResponseComesBack(s, incoming) && !RouteMiddlewareAnswers(s, incoming))
  {
    hide Dispatched, GlobalInput, GuardInput, Answers, WithParams;
    ChartIsFollowed(s, incoming);
  }

  // ----- Runs that leave the documented order.

  // A server on the shipped chart whose only route has these parts.
  function Plain(moduleMiddlewares: seq<Middleware>, pipes: seq<Pipe>, interceptors: seq<Interceptor>): Server {
    var page := NewResponse(200, Empty);
    var binding := Binding(request => Some(page), None, [], [], []);
    Server(Config(None, moduleMiddlewares, [], [], pipes, interceptors, [], None,
                  request => Matched(binding, None), request => None,
                  Codec(request => false, text => None, items => None)),
           (state, e) => Transition(state, e), "id", false)
  }

  const GET := Request("GET", "/", map[], Empty, None)

  // What the guards of the plain server see.
  const SEEN := Request("GET", "/", map[REQUEST_ID := "id"], Empty, None)

  lemma PlainRuns(moduleMiddlewares: seq<Middleware>, pipes: seq<Pipe>, interceptors: seq<Interceptor>)
    ensures var s := Plain(moduleMiddlewares, pipes, interceptors);
            && Shipped(s)
            && s.cfg.route(SEEN).Matched?
            && Dispatched(s, GET) ==
               MiddlewareStage(s, s.cfg.route(SEEN).binding, SEEN, GuardChain, [Routed(Some(RouteMatching), true)])
            && GlobalInput(s, GET) == Some(SEEN) && WithParams(SEEN, s.cfg.route(SEEN)) == SEEN
  {
    hide MiddlewareStage, NewResponse, ErrorPage;
    var s := Plain(moduleMiddlewares, pipes, interceptors);
    assert Seeded(s, GET) == SEEN;
    assert [] + [Routed(Some(RouteMatching), true)] == [Routed(Some(RouteMatching), true)];
  }

  const PASSING_PIPE: Pipe := value => Ok(value)
  const PASSING_INTERCEPTOR: Interceptor := context => Around(outcome => outcome)

  // One pipe and one interceptor: the pipe runs first, in its own state, and the interceptor after it,
  // in the handler's.
  lemma PipeBeforeInterceptor()
    ensures var s := Plain([], [PASSING_PIPE], [PASSING_INTERCEPTOR]);
            var trace := Dispatched(s, GET).trace;
            && trace == [Routed(Some(RouteMatching), true), PipeRan(Some(PipeTransform), 0, true),
                         Entered(Some(HandlerExecution), 0), HandlerCalled(Some(HandlerExecution), SEEN),
                         Left(Some(HandlerExecution), 0)]
            && !AsDocumented(trace)
  {
    hide Dispatched, MiddlewareStage, PipeStage, HandlerStage, HandlerEvents;
    var s := Plain([], [PASSING_PIPE], [PASSING_INTERCEPTOR]);
    PlainRuns([], [PASSING_PIPE], [PASSING_INTERCEPTOR]);
    var binding := s.cfg.route(SEEN).binding;
    PassesGuards(s, binding);
    OnePipe(s, binding, PASSING_PIPE);
    OneInterceptor(s, PASSING_INTERCEPTOR);
    var before := [Routed(Some(RouteMatching), true)] + [PipeRan(Some(PipeTransform), 0, true)];
    HandlerStageTrace(s, binding, SEEN, HandlerExecution, before);
    var trace := Dispatched(s, GET).trace;
    assert trace[1].PipeRan? && trace[2].Entered?;
  }

  lemma PassesGuards(s: Server, binding: Binding)
    requires Shipped(s) && s.cfg.moduleMiddlewares == [] && s.cfg.routeMiddlewares == [] && s.cfg.guards == []
    requires binding.moduleMiddlewares == [] && binding.moduleName == None
    ensures var routed := [Routed(Some(RouteMatching), true)];
            MiddlewareStage(s, binding, SEEN, GuardChain, routed) == PipeStage(s, binding, SEEN, PipeTransform, routed)
  {
    hide PipeStage, ErrorPage, SummaryResponse, ExceptionResponse;
    var routed := [Routed(Some(RouteMatching), true)];
    assert routed + [] == routed;
    assert MatchingMiddlewares([], SEEN.path) == [];
  }

  lemma OnePipe(s: Server, binding: Binding, pipe: Pipe)
    requires Shipped(s) && s.cfg.pipes == [pipe] && pipe(Null) == Ok(Null)
    ensures var routed := [Routed(Some(RouteMatching), true)];
            PipeStage(s, binding, SEEN, PipeTransform, routed) ==
            HandlerStage(s, binding, SEEN, HandlerExecution, routed + [PipeRan(Some(PipeTransform), 0, true)])
  {
    hide HandlerStage, PipeStage, Piped, PipedTrace;
    var routed := [Routed(Some(RouteMatching), true)];
    PipedOnce(pipe);
    assert PipedBody(s.cfg, SEEN) == Ok(Empty) && SEEN.(body := Empty) == SEEN;
    PipeStageTrace(s, binding, SEEN, PipeTransform, routed);
  }

  lemma PipedOnce(pipe: Pipe)
    requires pipe(Null) == Ok(Null)
    ensures Piped([pipe], Null) == Ok(Null)
    ensures PipedTrace(Some(PipeTransform), [pipe], Null, 0) == [PipeRan(Some(PipeTransform), 0, true)]
  {
    assert [pipe][1..] == [];
    assert Piped([], Null) == Ok(Null);
    assert PipedTrace(Some(PipeTransform), [], Null, 1) == [];
  }

  lemma OneInterceptor(s: Server, interceptor: Interceptor)
    requires s.cfg.interceptors == [interceptor] && forall context :: interceptor(context).Around?
    ensures HandlerEvents(Some(HandlerExecution), s, SEEN) ==
            [Entered(Some(HandlerExecution), 0), HandlerCalled(Some(HandlerExecution), SEEN),
                Left(Some(HandlerExecution), 0)]
  {
    hide ChainEvents;
    var chain := ChainFor(s.cfg.interceptors, SEEN);
    assert chain[1..] == [];
    assert ChainTrace(chain, 0) == [Enter(0)] + [HandlerRan] + [Leave(0)];
    assert [Enter(0)] + [HandlerRan] + [Leave(0)] == [Enter(0), HandlerRan, Leave(0)];
    ThreeEvents(Some(HandlerExecution), SEEN);
  }

  lemma ThreeEvents(at: Option<State>, request: Request)
    ensures ChainEvents(at, [Enter(0), HandlerRan, Leave(0)], request)
         == [Entered(at, 0), HandlerCalled(at, request), Left(at, 0)]
  {
    var ts := [Enter(0), HandlerRan, Leave(0)];
    assert ts[1..] == [HandlerRan, Leave(0)] && [HandlerRan, Leave(0)][1..] == [Leave(0)] && [Leave(0)][1..] == [];
    assert ChainEvents(at, [], request) == [];
    assert ChainEvents(at, [Leave(0)], request) == [Left(at, 0)];
    assert ChainEvents(at, [HandlerRan, Leave(0)], request) == [HandlerCalled(at, request), Left(at, 0)];
  }

  // A module middleware that answers: it runs after routing, and the engine is left among the guards.
  lemma MiddlewareLeavesGuards()
    ensures var page := NewResponse(200, Empty);
            var s := Plain([request => Conduct([], page)], [], []);
            var run := Dispatched(s, GET);
            && run.trace == [Routed(Some(RouteMatching), true), MiddlewareRan(Some(GuardChain), Module, 0, false)]
            && !AsDocumented(run.trace)
            && run.state == GuardChain && run.response == page
  {
    hide NewResponse;
    var page := NewResponse(200, Empty);
    var middleware: Middleware := request => Conduct([], page);
    var s := Plain([middleware], [], []);
    PlainRuns([middleware], [], []);
    var run := Dispatched(s, GET);
    assert SequenceTrace(Some(GuardChain), [middleware], SEEN, Module, 0) ==
        [MiddlewareRan(Some(GuardChain), Module, 0, false)];
    assert run.trace[0].Routed? && run.trace[1].MiddlewareRan?;
  }

  const FAILING_PIPE: Pipe := value => Err(HttpException(400, "no"))

  // A pipe that fails: the error is answered, and the engine stays in the error state.
  lemma FailureStaysInError()
    ensures var s := Plain([], [FAILING_PIPE], []);
            Dispatched(s, GET).state == ErrorHandling && Dispatched(s, GET).response.status == 400
  {
    hide Dispatched, MiddlewareStage, PipeStage;
    var s := Plain([], [FAILING_PIPE], []);
    PlainRuns([], [FAILING_PIPE], []);
    var binding := s.cfg.route(SEEN).binding;
    PassesGuards(s, binding);
    FailingPipe(s, binding);
  }

  lemma FailingPipe(s: Server, binding: Binding)
    requires Shipped(s) && s.cfg.pipes == [FAILING_PIPE] && s.cfg.filters == []
    requires binding.handlerFilters == [] && binding.controllerFilters == []
    ensures var run := PipeStage(s, binding, SEEN, PipeTransform, [Routed(Some(RouteMatching), true)]);
            run.state == ErrorHandling && run.response.status == 400
  {
    hide HandlerStage, PipeTrace, Advanced;
    ChartSteps(s.chart);
    assert PipedBody(s.cfg, SEEN) == Err(HttpException(400, "no"));
  }

  const EARLY_INTERCEPTOR: Interceptor := context => Early(Ok(NewResponse(200, Empty)))

  // An interceptor that answers early: the answer is sent, and the engine stays in the error state.
  lemma EarlyAnswerStaysInError()
    ensures var s := Plain([], [], [EARLY_INTERCEPTOR]);
            Dispatched(s, GET).state == ErrorHandling && Dispatched(s, GET).response.status == 200
  {
    hide Dispatched, MiddlewareStage, PipeStage;
    var s := Plain([], [], [EARLY_INTERCEPTOR]);
    PlainRuns([], [], [EARLY_INTERCEPTOR]);
    var binding := s.cfg.route(SEEN).binding;
    PassesGuards(s, binding);
    EarlyStage(s, binding);
  }

  lemma EarlyStage(s: Server, binding: Binding)
    requires Shipped(s) && s.cfg.pipes == [] && s.cfg.interceptors == [EARLY_INTERCEPTOR] && !s.live
    ensures var run := PipeStage(s, binding, SEEN, PipeTransform, [Routed(Some(RouteMatching), true)]);
            run.state == ErrorHandling && run.response.status == 200
  {
    hide Advanced, HandlerEvents, ErrorPage, ExceptionResponse, DefaultContentType;
    ChartSteps(s.chart);
    var chain := ChainFor(s.cfg.interceptors, SEEN);
    ForwardSplits(chain);
    assert Executions(s, binding, SEEN) == ShortCircuited(NewResponse(200, Empty));
    assert SEEN.(body := SEEN.body) == SEEN;
  }
}
