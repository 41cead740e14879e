/** Dispatch on the shipped request chart: no transition is refused, and where the pipeline ends. */
module DispatchChart {
  import opened Results
  import opened HttpTypes
  import opened RequestChart
  import opened InterceptorChain
  import opened Dispatch
  import opened DispatchLaws

  ghost predicate Shipped(s: Server) {
    forall state, e :: s.chart(state, e) == Transition(state, e)
  }

  // Every interceptor calls on, and what comes back through them from the handler is a response.
  predicate Succeeds(s: Server, binding: Binding, request: Request) {
    var chain := ChainFor(s.cfg.interceptors, request);
    AllForward(chain) && Folded(chain, HandlerOutcome(binding.handler(request))).Ok?
  }

  lemma SucceedsIs(s: Server, binding: Binding, request: Request)
    ensures Succeeds(s, binding, request) ==
            if s.cfg.interceptors == [] then binding.handler(request).Some?
            else Executions(s, binding, request).Completed?
  {
    if s.cfg.interceptors == [] {
      assert ChainFor(s.cfg.interceptors, request) == [];
      EmptyForwards();
    }
  }

  lemma TakeOne(chart: Chart, state: State, first: ChartEvent, rest: seq<ChartEvent>)
    requires forall st, e :: chart(st, e) == Transition(st, e)
    requires Transition(state, first).Some?
    ensures Advanced(chart, state, [first] + rest) == Advanced(chart, Transition(state, first).value, rest)
  {
    hide Transition;
    assert ([first] + rest)[1..] == rest;
  }

  lemma TakeTwo(chart: Chart, state: State, first: ChartEvent, second: ChartEvent)
    requires forall st, e :: chart(st, e) == Transition(st, e)
    requires Transition(state, first).Some? && Transition(Transition(state, first).value, second).Some?
    ensures Advanced(chart, state, [first, second]) == (Transition(Transition(state, first).value, second).value, true)
    ensures Advanced(chart, state, [first]) == (Transition(state, first).value, true)
  {
    hide Transition;
    TakeOne(chart, state, first, [second]);
    TakeOne(chart, Transition(state, first).value, second, []);
    TakeOne(chart, state, first, []);
    assert [first] + [second] == [first, second] && [second] + [] == [second] && [first] + [] == [first];
  }

  lemma ChartSteps(chart: Chart)
    requires forall st, e :: chart(st, e) == Transition(st, e)
    ensures Advanced(chart, HandlerExecution, COMPLETE) == (Finished, true)
    ensures Advanced(chart, HandlerExecution, [ErrorInterceptor]) == (ErrorHandling, true)
    ensures Advanced(chart, HandlerExecution, [ErrorHandler]) == (ErrorHandling, true)
    ensures Advanced(chart, HandlerExecution, [HandlerComplete, ErrorInterceptorPost]) == (ErrorHandling, true)
    ensures Advanced(chart, PipeTransform, [ErrorPipe]) == (ErrorHandling, true)
    ensures Advanced(chart, Received, [RequestParsed, ErrorMiddleware]) == (ErrorHandling, true)
  {
    hide Advanced;
    TakeOne(chart, HandlerExecution, HandlerComplete, [InterceptorsPostComplete, ResponseSent]);
    assert [HandlerComplete] + [InterceptorsPostComplete, ResponseSent] == COMPLETE;
    TakeTwo(chart, InterceptorPost, InterceptorsPostComplete, ResponseSent);
    TakeTwo(chart, HandlerExecution, ErrorInterceptor, FilterHandled);
    TakeTwo(chart, HandlerExecution, ErrorHandler, FilterHandled);
    TakeTwo(chart, HandlerExecution, HandlerComplete, ErrorInterceptorPost);
    TakeTwo(chart, PipeTransform, ErrorPipe, FilterHandled);
    TakeTwo(chart, Received, RequestParsed, ErrorMiddleware);
  }

  lemma HandlerStageEnds(s: Server, binding: Binding, request: Request, trace: seq<Event>)
    requires Shipped(s)
    ensures var run := HandlerStage(s, binding, request, HandlerExecution, trace);
            && !run.refused
            && run.state == (if Succeeds(s, binding, request) then Finished else ErrorHandling)
  {
    hide Advanced, ExceptionResponse, ErrorPage, FromInterceptors, Executions, HandlerEvents, Succeeds;
    ChartSteps(s.chart);
    SucceedsIs(s, binding, request);
  }

  lemma PipeStageEnds(s: Server, binding: Binding, request: Request, trace: seq<Event>)
    requires Shipped(s)
    ensures var run := PipeStage(s, binding, request, PipeTransform, trace);
            var body := PipedBody(s.cfg, request);
            && !run.refused
            && run.state == (if body.Ok? && Succeeds(s, binding, request.(body := body.value)) then Finished
                else ErrorHandling)
  {
    hide Advanced, ExceptionResponse, ErrorPage, HandlerStage, Succeeds, PipedBody, PipeTrace;
    ChartSteps(s.chart);
    var body := PipedBody(s.cfg, request);
    if body.Ok? {
      HandlerStageEnds(s, binding, request.(body := body.value),
                       if s.cfg.pipes == [] then trace else trace + PipeTrace(Some(PipeTransform), s.cfg, request));
    }
  }

  // Every guard and pipe lets the request through, every interceptor calls on, and a response comes back.
  predicate Answers(s: Server, binding: Binding, context: Request) {
    && AllPass(s.cfg.guards, context)
    && PipedBody(s.cfg, context).Ok?
    && Succeeds(s, binding, context.(body := PipedBody(s.cfg, context).value))
  }

  lemma GuardStageEnds(s: Server, binding: Binding, request: Request, trace: seq<Event>)
    requires Shipped(s)
    ensures var run := GuardStage(s, binding, request, GuardChain, trace);
            && !run.refused
            && run.state == (if Answers(s, binding, request) then Finished else ErrorHandling)
  {
    hide ExceptionResponse, ErrorPage, SummaryResponse, PipeStage, Succeeds, PipedBody, Guarded, GuardTrace, AllPass;
    PassedMeansAll(s.cfg.guards, request);
    PipeStageEnds(s, binding, request, trace + GuardTrace(Some(GuardChain), s.cfg.guards, request, 0));
  }

  lemma MiddlewareStageEnds(s: Server, binding: Binding, matched: Request, trace: seq<Event>)
    requires Shipped(s)
    ensures var run := MiddlewareStage(s, binding, matched, GuardChain, trace);
            && !run.refused
            && run.state == match GuardInput(s, binding, matched)
                            case None => GuardChain
                            case Some(context) => if Answers(s, binding, context) then Finished else ErrorHandling
  {
    hide GuardStage, ThroughSequence, SequenceTrace, MatchingMiddlewares, Answers;
    var request := WithModuleName(matched, binding.moduleName);
    var ofRoute := MatchingMiddlewares(s.cfg.routeMiddlewares, request.path);
    var trace1 := trace + SequenceTrace(Some(GuardChain), s.cfg.moduleMiddlewares, request, Module, 0);
    match ThroughSequence(s.cfg.moduleMiddlewares, request) {
      case Answered(_, _) =>
      case Forwarded(request1) =>
        var trace2 := trace1 + SequenceTrace(Some(GuardChain), binding.moduleMiddlewares, request1, RouteModule, 0);
        match ThroughSequence(binding.moduleMiddlewares, request1) {
          case Answered(_, _) =>
          case Forwarded(request2) =>
            var trace3 := trace2 + SequenceTrace(Some(GuardChain), ofRoute, request2, Route, 0);
            match ThroughSequence(ofRoute, request2) {
              case Answered(_, _) =>
              case Forwarded(request3) => GuardStageEnds(s, binding, request3, trace3);
            }
        }
    }
  }

  // Where the pipeline stands when the answer is given.
  function EndState(s: Server, incoming: Request): State {
    match GlobalInput(s, incoming)
    case None => ErrorHandling
    case Some(request) =>
      match s.cfg.route(request)
      case NotFound => ErrorHandling
      case MethodNotAllowed(_) => ErrorHandling
      case Matched(binding, captures) =>
        match GuardInput(s, binding, WithParams(request, Matched(binding, captures)))
        case None => GuardChain
        case Some(context) => if Answers(s, binding, context) then Finished else ErrorHandling
  }

  lemma ParseStageEnds(s: Server, request: Request, trace: seq<Event>)
    requires Shipped(s)
    ensures var run := ParseStage(s, request, trace);
            && !run.refused
            && run.state == match s.cfg.route(request)
                            case NotFound => ErrorHandling
                            case MethodNotAllowed(_) => ErrorHandling
                            case Matched(binding, captures) =>
                              match GuardInput(s, binding, WithParams(request, Matched(binding, captures)))
                              case None => GuardChain
                              case Some(context) => if Answers(s, binding, context) then Finished else ErrorHandling
  {
    hide MiddlewareStage, GuardInput, Answers, ErrorPage, NewResponse, WithParams;
    var outcome := s.cfg.route(request);
    if outcome.Matched? {
      MiddlewareStageEnds(s, outcome.binding, WithParams(request, outcome),
                          trace + [Routed(Some(RouteMatching), true)]);
    }
  }

  // The dispatcher asks for no transition the chart does not have, and the pipeline ends finished
  // exactly when every stage let the request through and a response came back from the interceptors.
  lemma ChartIsFollowed(s: Server, incoming: Request)
    requires Shipped(s)
    ensures var run := Dispatched(s, incoming); !run.refused && run.state == EndState(s, incoming)
  {
    hide ParseStage, GuardInput, Answers, Advanced, Seeded, ThroughMiddleware, ErrorPage, WithParams;
    var request := Seeded(s, incoming);
    ChartSteps(s.chart);
    match s.cfg.middleware {
      case None => ParseStageEnds(s, request, []);
      case Some(m) =>
        match ThroughMiddleware(m, request) {
          case Forwarded(next) => ParseStageEnds(s, next, [MiddlewareRan(None, Global, 0, true)]);
          case Answered(_, _) =>
        }
    }
  }

  // On the shipped chart the handler runs exactly when it is reached, and once.
  lemma HandlerRunsExactlyWhenReached(s: Server, incoming: Request)
    requires Shipped(s)
    ensures Calls(Dispatched(s, incoming).trace) == Once(Reaches(s, incoming))
  {
    hide Dispatched, Reaches, Calls;
    ChartIsFollowed(s, incoming);
    HandlerRunsOnlyWhenReached(s, incoming);
  }
}
