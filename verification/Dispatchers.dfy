/** The two dispatchers of nivasa-http/src/server.rs, with the pipeline they drive, proved to follow
    the stages of Dispatch. */
module Dispatchers {
  import opened Results
  import opened HttpTypes
  import opened RequestChart
  import opened InterceptorChain
  import opened Dispatch

  // ----- Loops shared by both dispatchers.

  method ExecuteMiddlewareSequence(at: Option<State>, ms: seq<Middleware>, start: Request, level: Level)
    returns (passage: Passage, events: seq<Event>)
    ensures passage == ThroughSequence(ms, start)
    ensures events == SequenceTrace(at, ms, start, level, 0)
  {
    hide ThroughMiddleware, ThroughSequence, SequenceTrace;
    var request := start;
    events := [];
    var i := 0;
    assert ms[0..] == ms;
    while i < |ms|
      invariant i <= |ms|
      invariant ThroughSequence(ms, start) == ThroughSequence(ms[i..], request)
      invariant SequenceTrace(at, ms, start, level, 0) == events + SequenceTrace(at, ms[i..], request, level, i)
    {
      SequenceStep(at, ms, i, request, level);
      match ThroughMiddleware(ms[i], request) {
        case Forwarded(next) =>
          request := next;
          events := events + [MiddlewareRan(at, level, i, true)];
        case Answered(_, response) =>
          events := events + [MiddlewareRan(at, level, i, false)];
          return Answered(request, response), events;
      }
      i := i + 1;
    }
    SequenceEnd(at, request, level, i);
    assert ms[i..] == [];
    return Forwarded(request), events;
  }

  lemma SequenceStep(at: Option<State>, ms: seq<Middleware>, i: nat, request: Request, level: Level)
    requires i < |ms|
    ensures match ThroughMiddleware(ms[i], request)
            case Forwarded(next) =>
              && ThroughSequence(ms[i..], request) == ThroughSequence(ms[i + 1..], next)
              && SequenceTrace(at, ms[i..], request, level, i) ==
                 [MiddlewareRan(at, level, i, true)] + SequenceTrace(at, ms[i + 1..], next, level, i + 1)
            case Answered(_, response) =>
              && ThroughSequence(ms[i..], request) == Answered(request, response)
              && SequenceTrace(at, ms[i..], request, level, i) == [MiddlewareRan(at, level, i, false)]
  {
    hide ThroughMiddleware;
    assert ms[i..][1..] == ms[i + 1..];
  }

  lemma SequenceEnd(at: Option<State>, request: Request, level: Level, i: nat)
    ensures ThroughSequence([], request) == Forwarded(request) && SequenceTrace(at, [], request, level, i) == []
  {
  }

  method ApplyGlobalPipes(at: Option<State>, cfg: Config, request: Request)
      returns (r: Result<Body, HttpException>, events: seq<Event>)
    ensures r == PipedBody(cfg, request)
    ensures events == if cfg.pipes == [] then [] else PipeTrace(at, cfg, request)
  {
    events := [];
    if cfg.pipes == [] {
      return Ok(request.body), events;
    }
    var start := BodyToPipeValue(cfg.codec, request);
    if start.Err? {
      return Err(start.error), events;
    }
    var value := start.value;
    var pipes := cfg.pipes;
    var i := 0;
    assert pipes[0..] == pipes;
    while i < |pipes|
      invariant i <= |pipes|
      invariant Piped(pipes, start.value) == Piped(pipes[i..], value)
      invariant PipedTrace(at, pipes, start.value, 0) == events + PipedTrace(at, pipes[i..], value, i)
    {
      assert pipes[i..][1..] == pipes[i + 1..];
      var next := pipes[i](value);
      if next.Err? {
        events := events + [PipeRan(at, i, false)];
        return Err(next.error), events;
      }
      value := next.value;
      events := events + [PipeRan(at, i, true)];
      i := i + 1;
    }
    return Ok(PipeValueToBody(value)), events;
  }

  // The fold over the filters, keeping the best score and its index.
  method SelectExceptionFilter(filters: seq<Filter>) returns (r: Option<Filter>)
    ensures r == SelectedFilter(filters)
  {
    var best: Option<nat> := None;
    for index := 0 to |filters|
      invariant best == Chosen(filters, index)
    {
      var score := Score(filters[index]);
      if score != 0 {
        if best.None? || score >= Score(filters[best.value]) {
          best := Some(index);
        }
      }
    }
    return if best.None? then None else Some(filters[best.value]);
  }

  /** The request pipeline: the engine's state and the request it works on. */
  class RequestPipeline {
    const chart: Chart
    var state: State
    var request: Request

    constructor (chart: Chart, request: Request)
      ensures this.chart == chart && this.request == request && state == Received
    {
      this.chart, this.request, this.state := chart, request, Received;
    }

    // A refused event leaves the engine where it is.
    method Advance(e: ChartEvent) returns (ok: bool)
      modifies this`state
      ensures match chart(old(state), e)
              case Some(next) => ok && state == next
              case None => !ok && state == old(state)
    {
      match chart(state, e) {
        case Some(next) =>
          state := next;
          ok := true;
        case None =>
          ok := false;
      }
    }

    // Two events in a row; the second one only when the first is accepted.
    method AdvanceBoth(first: ChartEvent, second: ChartEvent) returns (ok: bool)
      modifies this`state
      ensures (state, ok) == Advanced(chart, old(state), [first, second])
    {
      Unrolled(chart, state, first, [second]);
      assert [first] + [second] == [first, second];
      ok := Advance(first);
      if ok {
        One(chart, state, second);
        ok := Advance(second);
      }
    }

    method Complete() returns (ok: bool)
      modifies this`state
      ensures (state, ok) == Advanced(chart, old(state), COMPLETE)
    {
      Unrolled(chart, state, HandlerComplete, [InterceptorsPostComplete, ResponseSent]);
      assert [HandlerComplete] + [InterceptorsPostComplete, ResponseSent] == COMPLETE;
      ok := Advance(HandlerComplete);
      if ok {
        ok := AdvanceBoth(InterceptorsPostComplete, ResponseSent);
      }
    }

    method MatchRoute(route: Request -> RouteOutcome) returns (outcome: RouteOutcome, ok: bool)
      modifies this
      ensures outcome == route(old(request)) && request == WithParams(old(request), outcome)
      ensures match chart(old(state), RouteEvent(outcome))
              case Some(next) => ok && state == next
              case None => !ok && state == old(state)
    {
      outcome := route(request);
      match outcome {
        case Matched(_, captures) => request := request.(params := captures);
        case MethodNotAllowed(_) => request := request.(params := None);
        case NotFound => request := request.(params := None);
      }
      ok := Advance(RouteEvent(outcome));
    }

    // Every guard must pass; the first that does not decides.
    method EvaluateGuardChain(guards: seq<Guard>, context: Request)
        returns (outcome: GuardOutcome, ok: bool, events: seq<Event>)
      modifies this`state
      ensures outcome == Guarded(guards, context) && events == GuardTrace(Some(old(state)), guards, context, 0)
      ensures match chart(old(state), GuardEvent(outcome))
              case Some(next) => ok && state == next
              case None => !ok && state == old(state)
    {
      events := [];
      var i := 0;
      assert guards[0..] == guards;
      while i < |guards|
        invariant i <= |guards| && state == old(state)
        invariant Guarded(guards, context) == Guarded(guards[i..], context)
        invariant GuardTrace(Some(state), guards, context, 0) ==
            events + GuardTrace(Some(state), guards[i..], context, i)
      {
        assert guards[i..][1..] == guards[i + 1..];
        match guards[i](context) {
          case Ok(true) =>
            events := events + [GuardRan(Some(state), i, Pass)];
          case Ok(false) =>
            events := events + [GuardRan(Some(state), i, Deny)];
            ok := Advance(GuardDenied);
            return Denied, ok, events;
          case Err(error) =>
            events := events + [GuardRan(Some(state), i, Fail)];
            ok := Advance(ErrorGuard);
            return Error(error), ok, events;
        }
        i := i + 1;
      }
      ok := Advance(GuardsPassed);
      return Passed, ok, events;
    }
  }

  lemma Unrolled(chart: Chart, state: State, first: ChartEvent, rest: seq<ChartEvent>)
    ensures Advanced(chart, state, [first] + rest) ==
            match chart(state, first) case None => (state, false) case Some(next) => Advanced(chart, next, rest)
  {
    assert ([first] + rest)[1..] == rest;
  }

  lemma One(chart: Chart, state: State, e: ChartEvent)
    ensures Advanced(chart, state, [e]) ==
            match chart(state, e) case None => (state, false) case Some(next) => (next, true)
  {
    Unrolled(chart, state, e, []);
    assert [e] + [] == [e];
  }

  // A dispatcher's answer and events are those of a run of the stages.
  predicate Follows(response: Response, trace: seq<Event>, run: Run) {
    response == run.response && trace == run.trace
  }

  // The handler arm without interceptors, the same in both.
  method RunHandler(s: Server, pipeline: RequestPipeline, binding: Binding, before: seq<Event>)
    returns (response: Response, trace: seq<Event>)
    requires s.cfg.interceptors == [] && pipeline.chart == s.chart
    modifies pipeline`state
    ensures Follows(response, trace, HandlerStage(s, binding, pipeline.request, old(pipeline.state), before))
  {
    hide Advanced, ErrorPage;
    ghost var state := pipeline.state;
    trace := before + [HandlerCalled(Some(pipeline.state), pipeline.request)];
    match binding.handler(pipeline.request) {
      case Some(r) =>
        var ok := pipeline.Complete();
        response := if ok then r else ErrorPage("request pipeline handler transition failed");
      case None =>
        One(s.chart, state, ErrorHandler);
        var ok := pipeline.Advance(ErrorHandler);
        response := if ok then ErrorPage("request handler failed")
            else ErrorPage("request pipeline handler transition failed");
    }
  }

  // The interceptor arm of the live dispatcher stamps its responses with the request id already.
  method LiveInterceptors(s: Server, pipeline: RequestPipeline, binding: Binding, before: seq<Event>)
    returns (response: Response, trace: seq<Event>)
    requires s.live && s.cfg.interceptors != [] && pipeline.chart == s.chart
    modifies pipeline`state
    ensures Follows(response, trace, HandlerStage(s, binding, pipeline.request, old(pipeline.state), before))
  {
    hide Executed, ChainTrace, ChainFor, Mapped, ExceptionResponse, Advanced, ErrorPage, ChainEvents, HandlerOutcome;
    var request := pipeline.request;
    ghost var state := pipeline.state;
    var execution, events := ExecuteInterceptors(s.cfg.interceptors, request, binding.handler);
    trace := before + ChainEvents(Some(pipeline.state), events, request);
    var failure := "request pipeline interceptor transition failed";
    match execution {
      case Completed(r) =>
        var ok := pipeline.Complete();
        response := if ok then Stamped(Mapped(r), s.id) else ErrorPage(failure);
      case ShortCircuited(r) =>
        One(s.chart, state, ErrorInterceptor);
        var ok := pipeline.Advance(ErrorInterceptor);
        response := if ok then Stamped(Mapped(r), s.id) else ErrorPage(failure);
      case Failed(error, handlerCalled) =>
        var ok;
        if handlerCalled {
          ok := pipeline.AdvanceBoth(HandlerComplete, ErrorInterceptorPost);
        } else {
          One(s.chart, state, ErrorInterceptor);
          ok := pipeline.Advance(ErrorInterceptor);
        }
        response := if ok then ExceptionResponse(s.cfg, binding, error, request) else ErrorPage(failure);
    }
  }

  // The in-memory dispatcher leaves the stamping to the finalization.
  method MemoryInterceptors(s: Server, pipeline: RequestPipeline, binding: Binding, before: seq<Event>)
    returns (response: Response, trace: seq<Event>)
    requires !s.live && s.cfg.interceptors != [] && pipeline.chart == s.chart
    modifies pipeline`state
    ensures Follows(response, trace, HandlerStage(s, binding, pipeline.request, old(pipeline.state), before))
  {
    hide Executed, ChainTrace, ChainFor, Mapped, ExceptionResponse, Advanced, ErrorPage, ChainEvents, HandlerOutcome;
    var request := pipeline.request;
    ghost var state := pipeline.state;
    var execution, events := ExecuteInterceptors(s.cfg.interceptors, request, binding.handler);
    trace := before + ChainEvents(Some(pipeline.state), events, request);
    var failure := "request pipeline interceptor transition failed";
    match execution {
      case Completed(r) =>
        var ok := pipeline.Complete();
        response := if ok then Mapped(r) else ErrorPage(failure);
      case ShortCircuited(r) =>
        One(s.chart, state, ErrorInterceptor);
        var ok := pipeline.Advance(ErrorInterceptor);
        response := if ok then Mapped(r) else ErrorPage(failure);
      case Failed(error, handlerCalled) =>
        var ok;
        if handlerCalled {
          ok := pipeline.AdvanceBoth(HandlerComplete, ErrorInterceptorPost);
        } else {
          One(s.chart, state, ErrorInterceptor);
          ok := pipeline.Advance(ErrorInterceptor);
        }
        response := if ok then ExceptionResponse(s.cfg, binding, error, request) else ErrorPage(failure);
    }
  }

  // From the guards on. The two dispatchers have the same text but for the interceptor arm.
  method RunGuarded(s: Server, pipeline: RequestPipeline, binding: Binding, before: seq<Event>)
    returns (response: Response, trace: seq<Event>)
    requires pipeline.chart == s.chart
    modifies pipeline
    ensures Follows(response, trace, GuardStage(s, binding, old(pipeline.request), old(pipeline.state), before))
  {
    hide Guarded, GuardTrace, HandlerStage, ExceptionResponse, ErrorPage, SummaryResponse, PipeTrace, PipedBody,
        Advanced;
    var verdict, ok, events := pipeline.EvaluateGuardChain(s.cfg.guards, pipeline.request);
    trace := before + events;
    if !ok {
      return ErrorPage("request pipeline guard transition failed"), trace;
    }
    match verdict {
      case Passed =>
      case Denied =>
        return SummaryResponse(HttpException(403, "request denied by guard")), trace;
      case Error(error) =>
        return ExceptionResponse(s.cfg, binding, error, pipeline.request), trace;
    }
    ok := pipeline.Advance(InterceptorsPreComplete);
    if !ok {
      return ErrorPage("request pipeline interceptor transition failed"), trace;
    }
    var body, piped := ApplyGlobalPipes(Some(pipeline.state), s.cfg, pipeline.request);
    trace := if s.cfg.pipes == [] then trace else trace + piped;
    if body.Err? {
      One(s.chart, pipeline.state, ErrorPipe);
      ok := pipeline.Advance(ErrorPipe);
      response := if ok then ExceptionResponse(s.cfg, binding, body.error, pipeline.request)
                  else ErrorPage("request pipeline pipe transition failed");
      return;
    }
    pipeline.request := pipeline.request.(body := body.value);
    ok := pipeline.Advance(PipesComplete);
    if !ok {
      return ErrorPage("request pipeline pipe transition failed"), trace;
    }
    if s.cfg.interceptors == [] {
      response, trace := RunHandler(s, pipeline, binding, trace);
    } else if s.live {
      response, trace := LiveInterceptors(s, pipeline, binding, trace);
    } else {
      response, trace := MemoryInterceptors(s, pipeline, binding, trace);
    }
  }

  // A matched route: its middlewares, then the rest.
  method RunMatched(s: Server, pipeline: RequestPipeline, binding: Binding, before: seq<Event>)
    returns (response: Response, trace: seq<Event>)
    requires pipeline.chart == s.chart
    modifies pipeline
    ensures Follows(response, trace, MiddlewareStage(s, binding, old(pipeline.request), old(pipeline.state), before))
  {
    hide GuardStage, ThroughSequence, SequenceTrace, MatchingMiddlewares;
    var request := WithModuleName(pipeline.request, binding.moduleName);
    var ofRoute := MatchingMiddlewares(s.cfg.routeMiddlewares, request.path);
    var passage, events := ExecuteMiddlewareSequence(Some(pipeline.state), s.cfg.moduleMiddlewares, request, Module);
    trace := before + events;
    if passage.Answered? {
      return passage.response, trace;
    }
    passage, events := ExecuteMiddlewareSequence(Some(pipeline.state), binding.moduleMiddlewares, passage.request,
        RouteModule);
    trace := trace + events;
    if passage.Answered? {
      return passage.response, trace;
    }
    passage, events := ExecuteMiddlewareSequence(Some(pipeline.state), ofRoute, passage.request, Route);
    trace := trace + events;
    if passage.Answered? {
      return passage.response, trace;
    }
    pipeline.request := passage.request;
    response, trace := RunGuarded(s, pipeline, binding, trace);
  }

  // From the point where the body has been collected; but for the interceptor arm, the two dispatchers
  // have the same text here as well.
  method RunRequest(s: Server, incoming: Request) returns (response: Response, trace: seq<Event>)
    ensures response == FinalResponse(s, incoming) && trace == Dispatched(s, incoming).trace
  {
    hide MiddlewareStage, ErrorPage, Advanced, WithParams, Finalized, ThroughMiddleware;
    var origin := Origin(incoming);
    var request := Seeded(s, incoming);
    trace := [];
    if s.cfg.middleware.Some? {
      match ThroughMiddleware(s.cfg.middleware.value, request) {
        case Forwarded(next) =>
          request := next;
          trace := [MiddlewareRan(None, Global, 0, true)];
        case Answered(original, answer) =>
          trace := [MiddlewareRan(None, Global, 0, false)];
          var halted := new RequestPipeline(s.chart, original);
          var ok := halted.AdvanceBoth(RequestParsed, ErrorMiddleware);
          response := if ok then answer else ErrorPage("request pipeline middleware transition failed");
          return Finalized(response, s.cfg.cors, origin, s.id), trace;
      }
    }
    ghost var entered := request;
    ghost var events := trace;
    assert Dispatched(s, incoming) == ParseStage(s, entered, events);
    var pipeline := new RequestPipeline(s.chart, request);
    var ok := pipeline.Advance(RequestParsed);
    if !ok {
      return Finalized(ErrorPage("request pipeline parse transition failed"), s.cfg.cors, origin, s.id), trace;
    }
    ok := pipeline.Advance(MiddlewareComplete);
    if !ok {
      return Finalized(ErrorPage("request pipeline middleware transition failed"), s.cfg.cors, origin, s.id), trace;
    }
    assert Dispatched(s, incoming) == RouteStage(s, pipeline.request, pipeline.state, events);
    var outcome;
    var entry := pipeline.state;
    outcome, ok := pipeline.MatchRoute(s.cfg.route);
    trace := trace + [Routed(Some(entry), outcome.Matched?)];
    if !ok {
      response := ErrorPage("request pipeline route transition failed");
    } else {
      match outcome {
        case Matched(binding, _) =>
          response, trace := RunMatched(s, pipeline, binding, trace);
        case NotFound =>
          response := NewResponse(404, Text("not found"));
        case MethodNotAllowed(allowed) =>
          response := NewResponse(405, Text("method not allowed"));
          response := response.(headers := WithHeader(response.headers, ALLOW, allowed));
      }
    }
    response := Finalized(response, s.cfg.cors, origin, s.id);
  }

  // The live dispatcher.
  method HandleRequest(s: Server, incoming: Request) returns (response: Response, trace: seq<Event>)
    requires s.live
    ensures response == FinalResponse(s, incoming) && trace == Dispatched(s, incoming).trace
  {
    response, trace := RunRequest(s, incoming);
  }

  // The in-memory dispatcher.
  method DispatchNivasaRequest(s: Server, incoming: Request) returns (response: Response, trace: seq<Event>)
    requires !s.live
    ensures response == FinalResponse(s, incoming) && trace == Dispatched(s, incoming).trace
  {
    response, trace := RunRequest(s, incoming);
  }
}
