/** The live and the in-memory dispatcher answer alike; and the filter an exception goes to. */
module DispatchAgreement {
  import opened Results
  import opened HttpTypes
  import opened RequestChart
  import opened InterceptorChain
  import opened Dispatch

  // Two runs that differ at most in a request id the finalization sets anyway.
  predicate Alike(a: Run, b: Run, id: string) {
    && a.trace == b.trace && a.state == b.state && a.refused == b.refused
    && Stamped(a.response, id) == Stamped(b.response, id)
  }

  function AsLive(s: Server, live: bool): Server {
    s.(live := live)
  }

  // Setting the request id twice is setting it once.
  lemma StampedTwice(r: Response, id: string)
    ensures Stamped(Stamped(r, id), id) == Stamped(r, id)
  {
  }

  lemma ReportsAlike(s: Server, binding: Binding, request: Request, execution: Execution)
    ensures var a, b := InterceptorReport(AsLive(s, true), binding, request, execution),
                        InterceptorReport(AsLive(s, false), binding, request, execution);
            a.events == b.events && a.failure == b.failure && Stamped(a.answer, s.id) == Stamped(b.answer, s.id)
  {
    hide ExceptionResponse, Mapped, Stamped;
    match execution {
      case Completed(r) => StampedTwice(Mapped(r), s.id);
      case ShortCircuited(r) => StampedTwice(Mapped(r), s.id);
      case Failed(error, _) => SameException(s, binding, error, request);
    }
  }

  lemma HandlerStageAlike(s: Server, binding: Binding, request: Request, state: State, trace: seq<Event>)
    ensures Alike(HandlerStage(AsLive(s, true), binding, request, state, trace),
                  HandlerStage(AsLive(s, false), binding, request, state, trace), s.id)
  {
    hide Advanced, Stamped, ErrorPage, Executions, HandlerEvents, InterceptorReport, HandlerReport;
    SameEvents(Some(state), s, request);
    SameExecutions(s, binding, request);
    ReportsAlike(s, binding, request, Executions(s, binding, request));
  }

  lemma SameExecutions(s: Server, binding: Binding, request: Request)
    ensures Executions(AsLive(s, true), binding, request) == Executions(s, binding, request)
    ensures Executions(AsLive(s, false), binding, request) == Executions(s, binding, request)
  {
    hide Executed, ChainFor, HandlerOutcome;
  }

  lemma SameEvents(at: Option<State>, s: Server, request: Request)
    ensures HandlerEvents(at, AsLive(s, true), request) == HandlerEvents(at, AsLive(s, false), request)
  {
  }

  lemma SameException(s: Server, binding: Binding, error: HttpException, request: Request)
    ensures ExceptionResponse(AsLive(s, true).cfg, binding, error, request) ==
        ExceptionResponse(s.cfg, binding, error, request)
    ensures ExceptionResponse(AsLive(s, false).cfg, binding, error, request) ==
        ExceptionResponse(s.cfg, binding, error, request)
  {
  }

  // Settling does not depend on which dispatcher it is.
  lemma SettleAlike(s: Server, state: State, events: seq<ChartEvent>, answer: Response, failure: string,
      trace: seq<Event>)
    ensures Alike(Settle(AsLive(s, true), state, events, answer, failure, trace),
                  Settle(AsLive(s, false), state, events, answer, failure, trace), s.id)
  {
    hide Advanced, ErrorPage, Stamped;
  }

  lemma PipeStageAlike(s: Server, binding: Binding, request: Request, state: State, trace: seq<Event>)
    ensures Alike(PipeStage(AsLive(s, true), binding, request, state, trace),
                  PipeStage(AsLive(s, false), binding, request, state, trace), s.id)
  {
    hide HandlerStage, Settle, ExceptionResponse, ErrorPage, PipedBody, PipeTrace, Stamped;
    var piped := if s.cfg.pipes == [] then trace else trace + PipeTrace(Some(state), s.cfg, request);
    match PipedBody(s.cfg, request) {
      case Err(error) =>
        SettleAlike(s, state, [ErrorPipe], ExceptionResponse(s.cfg, binding, error, request),
                    "request pipeline pipe transition failed", piped);
      case Ok(body) =>
        match s.chart(state, PipesComplete) {
          case None =>
          case Some(next) => HandlerStageAlike(s, binding, request.(body := body), next, piped);
        }
    }
  }

  lemma GuardStageAlike(s: Server, binding: Binding, request: Request, state: State, trace: seq<Event>)
    ensures Alike(GuardStage(AsLive(s, true), binding, request, state, trace),
                  GuardStage(AsLive(s, false), binding, request, state, trace), s.id)
  {
    hide PipeStage, ExceptionResponse, ErrorPage, SummaryResponse, Guarded, GuardTrace, Stamped;
    var outcome := Guarded(s.cfg.guards, request);
    if outcome.Passed? && s.chart(state, GuardsPassed).Some? {
      var next := s.chart(state, GuardsPassed).value;
      if s.chart(next, InterceptorsPreComplete).Some? {
        PipeStageAlike(s, binding, request, s.chart(next, InterceptorsPreComplete).value,
                       trace + GuardTrace(Some(state), s.cfg.guards, request, 0));
      }
    }
  }

  lemma MiddlewareStageAlike(s: Server, binding: Binding, matched: Request, state: State, trace: seq<Event>)
    ensures Alike(MiddlewareStage(AsLive(s, true), binding, matched, state, trace),
                  MiddlewareStage(AsLive(s, false), binding, matched, state, trace), s.id)
  {
    hide GuardStage, ThroughSequence, SequenceTrace, MatchingMiddlewares, Stamped;
    var request := WithModuleName(matched, binding.moduleName);
    var ofRoute := MatchingMiddlewares(s.cfg.routeMiddlewares, request.path);
    var trace1 := trace + SequenceTrace(Some(state), s.cfg.moduleMiddlewares, request, Module, 0);
    match ThroughSequence(s.cfg.moduleMiddlewares, request) {
      case Answered(_, _) =>
      case Forwarded(request1) =>
        var trace2 := trace1 + SequenceTrace(Some(state), binding.moduleMiddlewares, request1, RouteModule, 0);
        match ThroughSequence(binding.moduleMiddlewares, request1) {
          case Answered(_, _) =>
          case Forwarded(request2) =>
            var trace3 := trace2 + SequenceTrace(Some(state), ofRoute, request2, Route, 0);
            match ThroughSequence(ofRoute, request2) {
              case Answered(_, _) =>
              case Forwarded(request3) => GuardStageAlike(s, binding, request3, state, trace3);
            }
        }
    }
  }

  lemma ParseStageAlike(s: Server, request: Request, trace: seq<Event>)
    ensures Alike(ParseStage(AsLive(s, true), request, trace), ParseStage(AsLive(s, false), request, trace), s.id)
  {
    hide MiddlewareStage, ErrorPage, NewResponse, WithParams, Stamped;
    var outcome := s.cfg.route(request);
    if s.chart(Received, RequestParsed).Some? {
      var parsed := s.chart(Received, RequestParsed).value;
      if s.chart(parsed, MiddlewareComplete).Some? {
        var next := s.chart(parsed, MiddlewareComplete).value;
        if outcome.Matched? && s.chart(next, RouteMatched).Some? {
          MiddlewareStageAlike(s, outcome.binding, WithParams(request, outcome), s.chart(next, RouteMatched).value,
                               trace + [Routed(Some(next), true)]);
        }
      }
    }
  }

  // The same request, request id and configuration get the same finalized response and the same events
  // from the live dispatcher as from the in-memory one, whatever the chart.
  lemma DispatchersAgree(s: Server, incoming: Request)
    ensures FinalResponse(AsLive(s, true), incoming) == FinalResponse(AsLive(s, false), incoming)
    ensures Dispatched(AsLive(s, true), incoming).trace == Dispatched(AsLive(s, false), incoming).trace
  {
    hide ParseStage, Advanced, ErrorPage, ThroughMiddleware, Stamped, WithCors, WithHeader;
    var request := Seeded(s, incoming);
    assert Seeded(AsLive(s, true), incoming) == request && Seeded(AsLive(s, false), incoming) == request;
    match s.cfg.middleware {
      case None => ParseStageAlike(s, request, []);
      case Some(m) =>
        match ThroughMiddleware(m, request) {
          case Forwarded(next) => ParseStageAlike(s, next, [MiddlewareRan(None, Global, 0, true)]);
          case Answered(_, _) =>
        }
    }
  }

  // ----- Exception filters.

  // The chosen filter has the best score of all, and of those with the best score it is the last;
  // there is none exactly when every score is zero.
  lemma {:induction false} ChosenIsBest(filters: seq<Filter>, n: nat)
    requires n <= |filters|
    ensures var best := Chosen(filters, n);
            match best
            case None => forall j :: 0 <= j < n ==> Score(filters[j]) == 0
            case Some(i) =>
              && Score(filters[i]) > 0
              && (forall j :: 0 <= j < n ==> Score(filters[j]) <= Score(filters[i]))
              && (forall j :: i < j < n ==> Score(filters[j]) < Score(filters[i]))
    decreases n
  {
    if n > 0 {
      ChosenIsBest(filters, n - 1);
    }
  }

  // A filter for exactly this exception beats every catch-all filter of the same list.
  lemma SpecificBeatsCatchAll(filters: seq<Filter>, i: nat)
    requires i < |filters| && filters[i].exceptionType == Some(HTTP_EXCEPTION)
    ensures SelectedFilter(filters).Some? && SelectedFilter(filters).value.exceptionType == Some(HTTP_EXCEPTION)
  {
    ChosenIsBest(filters, |filters|);
  }
}
