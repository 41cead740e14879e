/** Request dispatch, stage by stage: what each stage answers, and the events it leaves behind. */
module Dispatch {
  import opened Results
  import opened HttpTypes
  import opened RequestChart
  import opened InterceptorChain

  datatype Level = Global | Module | RouteModule | Route

  datatype Verdict = Pass | Deny | Fail

  datatype Event =
    | MiddlewareRan(at: Option<State>, level: Level, index: nat, forwarded: bool)
    | Routed(at: Option<State>, matched: bool)
    | GuardRan(at: Option<State>, index: nat, verdict: Verdict)
    | PipeRan(at: Option<State>, index: nat, ok: bool)
    | Entered(at: Option<State>, index: nat)
    | Left(at: Option<State>, index: nat)
    | HandlerCalled(at: Option<State>, request: Request)

  // ----- Middleware.

  datatype Passage = Forwarded(request: Request) | Answered(request: Request, response: Response)

  // A middleware forwards the last request it passed to `next`; passing none is answering itself.
  function ThroughMiddleware(m: Middleware, request: Request): Passage {
    var c := m(request);
    if c.passed == [] then Answered(request, c.response) else Forwarded(c.passed[|c.passed| - 1])
  }

  function ThroughSequence(ms: seq<Middleware>, request: Request): Passage
    decreases |ms|
  {
    if ms == [] then Forwarded(request)
    else
      match ThroughMiddleware(ms[0], request)
      case Forwarded(next) => ThroughSequence(ms[1..], next)
      case Answered(_, response) => Answered(request, response)
  }

  function SequenceTrace(at: Option<State>, ms: seq<Middleware>, request: Request, level: Level, index: nat): seq<Event>
    decreases |ms|
  {
    if ms == [] then []
    else
      match ThroughMiddleware(ms[0], request)
      case Forwarded(next) => [MiddlewareRan(at, level, index, true)]
          + SequenceTrace(at, ms[1..], next, level, index + 1)
      case Answered(_, _) => [MiddlewareRan(at, level, index, false)]
  }

  predicate Excluded(b: RouteMiddleware, path: string) {
    exists i :: 0 <= i < |b.excluded| && b.excluded[i](path)
  }

  // `matching_route_middlewares`
  function MatchingMiddlewares(bindings: seq<RouteMiddleware>, path: string): seq<Middleware> {
    if bindings == [] then []
    else
      (if bindings[0].applies(path) && !Excluded(bindings[0], path) then [bindings[0].middleware] else [])
      + MatchingMiddlewares(bindings[1..], path)
  }

  // ----- Guards.

  datatype GuardOutcome = Passed | Denied | Error(error: HttpException)

  function Guarded(guards: seq<Guard>, context: Request): GuardOutcome {
    if guards == [] then Passed
    else
      match guards[0](context)
      case Ok(true) => Guarded(guards[1..], context)
      case Ok(false) => Denied
      case Err(error) => Error(error)
  }

  function GuardTrace(at: Option<State>, guards: seq<Guard>, context: Request, index: nat): seq<Event>
    decreases |guards|
  {
    if guards == [] then []
    else
      match guards[0](context)
      case Ok(true) => [GuardRan(at, index, Pass)] + GuardTrace(at, guards[1..], context, index + 1)
      case Ok(false) => [GuardRan(at, index, Deny)]
      case Err(_) => [GuardRan(at, index, Fail)]
  }

  function GuardEvent(g: GuardOutcome): ChartEvent {
    match g
    case Passed => GuardsPassed
    case Denied => GuardDenied
    case Error(_) => ErrorGuard
  }

  // ----- Pipes.

  function ParsedText(codec: Codec, request: Request, text: string): Result<Json, HttpException> {
    if codec.looksJson(request) then
      match codec.parseJson(text)
      case Some(value) => Ok(value)
      case None => Err(HttpException(400, "global pipe could not parse request body as JSON"))
    else Ok(Str(text))
  }

  function BodyToPipeValue(codec: Codec, request: Request): Result<Json, HttpException> {
    match request.body
    case Empty => Ok(Null)
    case JsonBody(value) => Ok(value)
    case Text(text) => ParsedText(codec, request, text)
    case Html(text) => ParsedText(codec, request, text)
    case Raw(bytes) =>
      match codec.decodeUtf8(bytes)
      case Some(text) => ParsedText(codec, request, text)
      case None => Err(HttpException(400, "global pipe requires a UTF-8 request body"))
  }

  function PipeValueToBody(value: Json): Body {
    match value
    case Null => Empty
    case Str(text) => Text(text)
    case other => JsonBody(other)
  }

  function Piped(pipes: seq<Pipe>, value: Json): Result<Json, HttpException> {
    if pipes == [] then Ok(value)
    else
      var next :- pipes[0](value);
      Piped(pipes[1..], next)
  }

  function PipedTrace(at: Option<State>, pipes: seq<Pipe>, value: Json, index: nat): seq<Event>
    decreases |pipes|
  {
    if pipes == [] then []
    else
      match pipes[0](value)
      case Ok(next) => [PipeRan(at, index, true)] + PipedTrace(at, pipes[1..], next, index + 1)
      case Err(_) => [PipeRan(at, index, false)]
  }

  // Without pipes the body is passed on as it is, unread.
  function PipedBody(cfg: Config, request: Request): Result<Body, HttpException> {
    if cfg.pipes == [] then Ok(request.body)
    else
      var value :- BodyToPipeValue(cfg.codec, request);
      var result :- Piped(cfg.pipes, value);
      Ok(PipeValueToBody(result))
  }

  function PipeTrace(at: Option<State>, cfg: Config, request: Request): seq<Event> {
    match BodyToPipeValue(cfg.codec, request)
    case Ok(value) => PipedTrace(at, cfg.pipes, value, 0)
    case Err(_) => []
  }

  // ----- Exception filters.

  const HTTP_EXCEPTION := "nivasa_common::exceptions::HttpException"

  function Score(f: Filter): nat {
    if f.exceptionType == Some(HTTP_EXCEPTION) then 2
    else if f.exceptionType.None? && f.catchAll then 1
    else 0
  }

  // Index of the chosen filter among the first n: the best score, and the last of the best.
  function Chosen(filters: seq<Filter>, n: nat): (best: Option<nat>)
    requires n <= |filters|
    ensures best.Some? ==> best.value < n
  {
    if n == 0 then None
    else
      var best := Chosen(filters, n - 1);
      if Score(filters[n - 1]) == 0 then best
      else if best.None? || Score(filters[n - 1]) >= Score(filters[best.value]) then Some(n - 1)
      else best
  }

  function SelectedFilter(filters: seq<Filter>): Option<Filter> {
    match Chosen(filters, |filters|)
    case None => None
    case Some(i) => Some(filters[i])
  }

  function FilterFor(cfg: Config, binding: Binding): Option<Filter> {
    var ofHandler, ofController := SelectedFilter(binding.handlerFilters), SelectedFilter(binding.controllerFilters);
    if ofHandler.Some? then ofHandler else if ofController.Some? then ofController else SelectedFilter(cfg.filters)
  }

  // `handle_http_exception`; a panicking filter is replaced by a plain server error.
  function ExceptionResponse(cfg: Config, binding: Binding, error: HttpException, request: Request): Response {
    match FilterFor(cfg, binding)
    case None => SummaryResponse(error)
    case Some(filter) =>
      match filter.handle(error, request)
      case Some(response) => response
      case None => SummaryResponse(HttpException(500, "request handler failed"))
  }

  // ----- Finishing touches.

  function BodyData(b: Body): Json {
    match b
    case Empty => Null
    case Text(text) => Str(text)
    case Html(text) => Str(text)
    case JsonBody(value) => value
    case Raw(bytes) => Numbers(bytes)
  }

  // `map_interceptor_response`: the body goes into a data envelope, the headers are kept but for the content type.
  function Mapped(r: Response): Response {
    var page := NewResponse(r.status, JsonBody(Data(BodyData(r.body))));
    page.(headers := page.headers + (map name | name in r.headers && name != CONTENT_TYPE
        && ValidHeaderValue(r.headers[name]) :: r.headers[name]))
  }

  function Stamped(r: Response, id: string): Response {
    r.(headers := WithHeader(r.headers, REQUEST_ID, id))
  }

  function WithCors(r: Response, cors: Option<Cors>, origin: Option<string>): Response {
    match cors
    case None => r
    case Some(c) =>
      var h1 :=
        match c.allowOrigin(origin)
        case Some(v) => WithHeader(r.headers, ALLOW_ORIGIN, v)
        case None => r.headers;
      var h2 := match c.allowCredentials case Some(v) => WithHeader(h1, ALLOW_CREDENTIALS, v) case None => h1;
      r.(headers := h2)
  }

  // `finalize_nivasa_response`
  function Finalized(r: Response, cors: Option<Cors>, origin: Option<string>, id: string): Response {
    WithCors(Stamped(r, id), cors, origin)
  }

  function Origin(request: Request): Option<string> {
    if ORIGIN in request.headers then Some(request.headers[ORIGIN]) else None
  }

  // ----- The stages, from the last to the first. `trace` holds the events so far.

  // The server the request runs on. The live dispatcher stamps the responses of interceptors
  // with the request id itself; the in-memory one leaves that to the finalization.
  datatype Server = Server(cfg: Config, chart: Chart, id: string, live: bool)

  // `refused`: the chart refused a transition.
  datatype Run = Run(response: Response, trace: seq<Event>, state: State, refused: bool)

  // Several transitions in a row, up to the first that is refused.
  function Advanced(chart: Chart, state: State, events: seq<ChartEvent>): (State, bool)
    decreases |events|
  {
    if events == [] then (state, true)
    else
      match chart(state, events[0])
      case None => (state, false)
      case Some(next) => Advanced(chart, next, events[1..])
  }

  // Take the transitions, then answer.
  function Settle(s: Server, state: State, events: seq<ChartEvent>, answer: Response, failure: string,
      trace: seq<Event>): (r: Run)
    ensures r.trace == trace
  {
    var (next, ok) := Advanced(s.chart, state, events);
    Run(if ok then answer else ErrorPage(failure), trace, next, !ok)
  }

  function ChainEvents(at: Option<State>, ts: seq<ChainEvent>, request: Request): seq<Event> {
    if ts == [] then []
    else
      [match ts[0]
       case Enter(i) => Entered(at, i)
       case Leave(i) => Left(at, i)
       case HandlerRan => HandlerCalled(at, request)]
      + ChainEvents(at, ts[1..], request)
  }

  function FromInterceptors(s: Server, r: Response): Response {
    if s.live then Stamped(Mapped(r), s.id) else Mapped(r)
  }

  const COMPLETE := [HandlerComplete, InterceptorsPostComplete, ResponseSent]

  // The events of the interceptors and the handler.
  function HandlerEvents(at: Option<State>, s: Server, request: Request): seq<Event> {
    if s.cfg.interceptors == [] then [HandlerCalled(at, request)]
    else ChainEvents(at, ChainTrace(ChainFor(s.cfg.interceptors, request), 0), request)
  }

  // The transitions that report how the handler went, and the answer once they are accepted.
  datatype Report = Report(events: seq<ChartEvent>, answer: Response, failure: string)

  function Executions(s: Server, binding: Binding, request: Request): Execution {
    Executed(ChainFor(s.cfg.interceptors, request), HandlerOutcome(binding.handler(request)))
  }

  function InterceptorReport(s: Server, binding: Binding, request: Request, execution: Execution): Report {
    var failure := "request pipeline interceptor transition failed";
    match execution
    case Completed(response) => Report(COMPLETE, FromInterceptors(s, response), failure)
    case ShortCircuited(response) => Report([ErrorInterceptor], FromInterceptors(s, response), failure)
    case Failed(error, called) =>
      Report(if called then [HandlerComplete, ErrorInterceptorPost] else [ErrorInterceptor],
             ExceptionResponse(s.cfg, binding, error, request), failure)
  }

  function HandlerReport(ran: Option<Response>): Report {
    var failure := "request pipeline handler transition failed";
    match ran
    case Some(response) => Report(COMPLETE, response, failure)
    case None => Report([ErrorHandler], ErrorPage("request handler failed"), failure)
  }

  function HandlerStage(s: Server, binding: Binding, request: Request, state: State, trace: seq<Event>): Run {
    var report := if s.cfg.interceptors == [] then HandlerReport(binding.handler(request))
                  else InterceptorReport(s, binding, request, Executions(s, binding, request));
    Settle(s, state, report.events, report.answer, report.failure, trace + HandlerEvents(Some(state), s, request))
  }

  function PipeStage(s: Server, binding: Binding, request: Request, state: State, trace: seq<Event>): Run {
    var piped := if s.cfg.pipes == [] then trace else trace + PipeTrace(Some(state), s.cfg, request);
    var failure := "request pipeline pipe transition failed";
    match PipedBody(s.cfg, request)
    case Err(error) =>
      Settle(s, state, [ErrorPipe], ExceptionResponse(s.cfg, binding, error, request), failure, piped)
    case Ok(body) =>
      match s.chart(state, PipesComplete)
      case None => Run(ErrorPage(failure), piped, state, true)
      case Some(next) => HandlerStage(s, binding, request.(body := body), next, piped)
  }

  function GuardStage(s: Server, binding: Binding, request: Request, state: State, trace: seq<Event>): Run {
    var judged := trace + GuardTrace(Some(state), s.cfg.guards, request, 0);
    var outcome := Guarded(s.cfg.guards, request);
    match s.chart(state, GuardEvent(outcome))
    case None => Run(ErrorPage("request pipeline guard transition failed"), judged, state, true)
    case Some(next) =>
      match outcome
      case Denied => Run(SummaryResponse(HttpException(403, "request denied by guard")), judged, next, false)
      case Error(error) => Run(ExceptionResponse(s.cfg, binding, error, request), judged, next, false)
      case Passed =>
        match s.chart(next, InterceptorsPreComplete)
        case None => Run(ErrorPage("request pipeline interceptor transition failed"), judged, next, true)
        case Some(after) => PipeStage(s, binding, request, after, judged)
  }

  function WithModuleName(request: Request, name: Option<string>): Request {
    match name
    case None => request
    case Some(n) => request.(headers := WithHeader(request.headers, MODULE_NAME, n))
  }

  // The three middleware sequences of a matched route. A short circuit here takes no transition.
  function MiddlewareStage(s: Server, binding: Binding, matched: Request, state: State, trace: seq<Event>): Run {
    var request := WithModuleName(matched, binding.moduleName);
    var ofRoute := MatchingMiddlewares(s.cfg.routeMiddlewares, request.path);
    var trace1 := trace + SequenceTrace(Some(state), s.cfg.moduleMiddlewares, request, Module, 0);
    match ThroughSequence(s.cfg.moduleMiddlewares, request)
    case Answered(_, response) => Run(response, trace1, state, false)
    case Forwarded(request1) =>
      var trace2 := trace1 + SequenceTrace(Some(state), binding.moduleMiddlewares, request1, RouteModule, 0);
      match ThroughSequence(binding.moduleMiddlewares, request1)
      case Answered(_, response) => Run(response, trace2, state, false)
      case Forwarded(request2) =>
        var trace3 := trace2 + SequenceTrace(Some(state), ofRoute, request2, Route, 0);
        match ThroughSequence(ofRoute, request2)
        case Answered(_, response) => Run(response, trace3, state, false)
        case Forwarded(request3) => GuardStage(s, binding, request3, state, trace3)
  }

  function RouteEvent(outcome: RouteOutcome): ChartEvent {
    match outcome
    case Matched(_, _) => RouteMatched
    case NotFound => RouteNotFound
    case MethodNotAllowed(_) => RouteMethodNotAllowed
  }

  function WithParams(request: Request, outcome: RouteOutcome): Request {
    request.(params := if outcome.Matched? then outcome.captures else None)
  }

  function RouteStage(s: Server, request: Request, state: State, trace: seq<Event>): Run {
    var outcome := s.cfg.route(request);
    var routed := trace + [Routed(Some(state), outcome.Matched?)];
    match s.chart(state, RouteEvent(outcome))
    case None => Run(ErrorPage("request pipeline route transition failed"), routed, state, true)
    case Some(next) =>
      match outcome
      case NotFound => Run(NewResponse(404, Text("not found")), routed, next, false)
      case MethodNotAllowed(allowed) =>
        var page := NewResponse(405, Text("method not allowed"));
        Run(page.(headers := WithHeader(page.headers, ALLOW, allowed)), routed, next, false)
      case Matched(binding, _) => MiddlewareStage(s, binding, WithParams(request, outcome), next, routed)
  }

  function ParseStage(s: Server, request: Request, trace: seq<Event>): Run {
    match s.chart(Received, RequestParsed)
    case None => Run(ErrorPage("request pipeline parse transition failed"), trace, Received, true)
    case Some(parsed) =>
      match s.chart(parsed, MiddlewareComplete)
      case None => Run(ErrorPage("request pipeline middleware transition failed"), trace, parsed, true)
      case Some(next) => RouteStage(s, request, next, trace)
  }

  // The request as it enters the global middleware.
  function Seeded(s: Server, request: Request): Request {
    var identified := request.(headers := WithHeader(request.headers, REQUEST_ID, s.id));
    WithModuleName(identified, s.cfg.moduleNameFor(identified))
  }

  function GlobalStage(s: Server, request: Request): Run {
    match s.cfg.middleware
    case None => ParseStage(s, request, [])
    case Some(m) =>
      match ThroughMiddleware(m, request)
      case Forwarded(next) => ParseStage(s, next, [MiddlewareRan(None, Global, 0, true)])
      case Answered(_, response) =>
        Settle(s, Received, [RequestParsed, ErrorMiddleware], response,
               "request pipeline middleware transition failed", [MiddlewareRan(None, Global, 0, false)])
  }

  function Dispatched(s: Server, request: Request): Run {
    GlobalStage(s, Seeded(s, request))
  }

  function FinalResponse(s: Server, request: Request): Response {
    Finalized(Dispatched(s, request).response, s.cfg.cors, Origin(request), s.id)
  }
}
